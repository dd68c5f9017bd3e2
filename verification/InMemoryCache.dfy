/**
 The in-memory cache. Every operation is one atomic step on the physical map;
 what callers can tell is the timed map of its entries that have not expired.
 Eviction picks its victims arbitrarily.
 */
module InMemoryCache {
  import opened Prelude
  import opened TimedMap
  import Decimal

  function PrefixKey(namespace: Option<string>, key: string): string {
    if namespace.Some? then namespace.value + ":" + key else key
  }

  lemma PrefixInjective(namespace: Option<string>, a: string, b: string)
    ensures PrefixKey(namespace, a) == PrefixKey(namespace, b) <==> a == b
  {
    if namespace.Some? {
      var p := namespace.value + ":";
      assert (p + a)[|p|..] == a && (p + b)[|p|..] == b;
    }
  }

  // The key under which a lock is stored.
  function LockKey(namespace: Option<string>, key: string): string {
    PrefixKey(namespace, "lock:" + key)
  }

  lemma LockKeyInjective(namespace: Option<string>, a: string, b: string)
    ensures LockKey(namespace, a) == LockKey(namespace, b) <==> a == b
  {
    PrefixInjective(namespace, "lock:" + a, "lock:" + b);
    assert ("lock:" + a)[5..] == a && ("lock:" + b)[5..] == b;
  }

  // How many entries one insertion evicts first.
  function EvictCount(maxItems: Option<nat>, size: nat): nat {
    if maxItems.Some? && size >= maxItems.value then maxItems.value / 10 else 0
  }

  // How many entries one batch evicts first.
  function BatchEvictCount(maxItems: Option<nat>, size: nat, batch: nat): nat {
    if batch > 0 && maxItems.Some? && size + batch > maxItems.value then size + batch - maxItems.value + 1 else 0
  }

  // A single write evicts a tenth of the limit, rounded down, once it is reached.
  lemma EvictsATenth(limit: nat, size: nat)
    ensures size >= limit ==> 10 * EvictCount(Some(limit), size) <= limit < 10 * EvictCount(Some(limit), size) + 10
    ensures size < limit ==> EvictCount(Some(limit), size) == 0
    ensures EvictCount(None, size) == 0
  {}

  // A batch evicts as much as leaves room for it and one more.
  lemma BatchLeavesRoom(limit: nat, size: nat, batch: nat)
    ensures batch > 0 && size + batch > limit ==> size - BatchEvictCount(Some(limit), size, batch) + batch + 1 == limit
    ensures batch == 0 || size + batch <= limit ==> BatchEvictCount(Some(limit), size, batch) == 0
    ensures BatchEvictCount(None, size, batch) == 0
  {}

  // How keys look.
  lemma KeysLookLike()
    ensures PrefixKey(None, "k") == "k" && PrefixKey(Some("app"), "k") == "app:k"
    ensures LockKey(None, "k") == "lock:k" && LockKey(Some("app"), "k") == "app:lock:k"
  {}

  // An eviction of `count` entries: any of them, or all there are.
  predicate Chosen(m: Entries, count: nat, victims: set<string>) {
    victims <= m.Keys && |victims| == Min(count, |m|)
  }

  // One insertion of a new key keeps every admissible size within the limit
  // exactly when the limit is at least 10; below that nothing is ever evicted.
  lemma InsertionKeepsLimitIff(limit: nat)
    ensures (forall size: nat :: size <= limit ==> size - Min(EvictCount(Some(limit), size), size) + 1 <= limit)
       <==> limit >= 10
  {
    if limit < 10 {
      assert limit - Min(EvictCount(Some(limit), limit), limit) + 1 > limit;
    }
  }

  // The counter held under a key: unreadable text counts as zero.
  function CounterOf(value: Option<Bytes>): int {
    if value.Some? && Decimal.Parse(value.value).Some? then Decimal.Parse(value.value).value else 0
  }

  // The counter under a key after adding delta; None when that leaves i64.
  function Sum(v: Entries, k: string, delta: int): Option<int> {
    var sum := CounterOf(Lookup(v, k)) + delta;
    if Decimal.IsI64(sum) then Some(sum) else None
  }

  // Subtracting first negates delta, which overflows for the smallest i64.
  function Difference(v: Entries, k: string, delta: int): Option<int> {
    if delta == Decimal.I64_MIN then None else Sum(v, k, -delta)
  }

  // What get_many collects.
  function Collect(v: Entries, namespace: Option<string>, keys: seq<string>): map<string, Bytes> {
    map k | k in keys && PrefixKey(namespace, k) in v :: v[PrefixKey(namespace, k)].value
  }

  lemma CollectOneMore(v: Entries, namespace: Option<string>, keys: seq<string>, n: nat)
    requires n < |keys|
    ensures var sofar, k := Collect(v, namespace, keys[..n]), PrefixKey(namespace, keys[n]);
      Collect(v, namespace, keys[..n + 1]) == if k in v then sofar[keys[n] := v[k].value] else sofar
  {
    assert keys[..n + 1] == keys[..n] + [keys[n]];
  }

  // The entries after inserting items one after the other.
  function WithItems(m: Entries, namespace: Option<string>, items: seq<(string, Bytes)>, ttl: Option<nat>, clock: nat)
    : Entries
  {
    if items == [] then m
    else
      var (k, v) := items[|items| - 1];
      WithItems(m, namespace, items[..|items| - 1], ttl, clock)[PrefixKey(namespace, k) := NewEntry(v, ttl, clock)]
  }

  lemma WithOneMore(m: Entries, namespace: Option<string>, items: seq<(string, Bytes)>, n: nat, ttl: Option<nat>, clock: nat)
    requires n < |items|
    ensures WithItems(m, namespace, items[..n + 1], ttl, clock)
         == WithItems(m, namespace, items[..n], ttl, clock)
              [PrefixKey(namespace, items[n].0) := NewEntry(items[n].1, ttl, clock)]
  {
    assert items[..n + 1][..n] == items[..n];
  }

  // The order in which a hash map yields its items.
  predicate DistinctKeys(items: seq<(string, Bytes)>) {
    forall i, j :: 0 <= i < j < |items| ==> items[i].0 != items[j].0
  }

  // Every item just written is there, and everything else is as it was.
  lemma {:induction false} ItemsArePresent(m: Entries, namespace: Option<string>, items: seq<(string, Bytes)>,
                                           ttl: Option<nat>, clock: nat, p: string)
    requires DistinctKeys(items)
    ensures forall i :: 0 <= i < |items| && p == PrefixKey(namespace, items[i].0) ==>
              var m' := WithItems(m, namespace, items, ttl, clock);
              p in m' && m'[p] == NewEntry(items[i].1, ttl, clock)
    ensures (forall i :: 0 <= i < |items| ==> p != PrefixKey(namespace, items[i].0)) ==>
              var m' := WithItems(m, namespace, items, ttl, clock);
              (p in m' <==> p in m) && (p in m ==> m'[p] == m[p])
  {
    if items != [] {
      var last := |items| - 1;
      ItemsArePresent(m, namespace, items[..last], ttl, clock, p);
      assert forall i :: 0 <= i < last ==> items[..last][i] == items[i];
      if p == PrefixKey(namespace, items[last].0) {
        forall i | 0 <= i < last ensures p != PrefixKey(namespace, items[i].0) {
          PrefixInjective(namespace, items[i].0, items[last].0);
        }
      }
    }
  }

  function PrefixedKeys(namespace: Option<string>, keys: seq<string>): set<string> {
    if keys == [] then {}
    else PrefixedKeys(namespace, keys[..|keys| - 1]) + {PrefixKey(namespace, keys[|keys| - 1])}
  }

  lemma OneMoreKey(namespace: Option<string>, keys: seq<string>, n: nat, m: Entries)
    requires n < |keys|
    ensures m - PrefixedKeys(namespace, keys[..n + 1])
         == (m - PrefixedKeys(namespace, keys[..n])) - {PrefixKey(namespace, keys[n])}
  {
    assert keys[..n + 1][..n] == keys[..n];
  }

  lemma PutAgain(m: Entries, m': Entries, k: string, victims: set<string>, e: Entry)
    requires m' == m || m' == m - {k}
    ensures (m' - victims)[k := e] == (m - victims)[k := e]
  {}

  // Lazy removal: the listed keys go if their entries have expired.
  function WithoutExpired(m: Entries, ks: set<string>, now: nat): Entries {
    map k | k in m && !(k in ks && Expired(m[k], now)) :: m[k]
  }

  lemma OneMoreLazyRemoval(namespace: Option<string>, keys: seq<string>, n: nat, m: Entries, now: nat)
    requires n < |keys|
    ensures WithoutExpired(m, PrefixedKeys(namespace, keys[..n + 1]), now)
         == WithoutExpired(WithoutExpired(m, PrefixedKeys(namespace, keys[..n]), now),
                           {PrefixKey(namespace, keys[n])}, now)
  {
    assert keys[..n + 1][..n] == keys[..n];
  }

  // The entries left once the keys with a prefix are gone.
  function WithoutPrefix(m: Entries, prefix: string): Entries {
    map k | k in m && !(prefix <= k) :: m[k]
  }

  lemma SizeWithout(m: Entries, victims: set<string>)
    requires victims <= m.Keys
    ensures |m - victims| == |m| - |victims|
    ensures (m - victims).Keys == {} ==> victims == m.Keys
  {
    var rest := (m - victims).Keys;
    assert m.Keys == rest + victims && rest !! victims;
    assert |m.Keys| == |m| && |rest| == |m - victims|;
  }

  lemma OneVictimMore(m: Entries, victims: set<string>, k: string)
    requires k in m - victims
    ensures m - victims - {k} == m - (victims + {k})
  {}

  class InMemoryCache {
    var cache: Entries
    const defaultTtl: nat
    const namespace: Option<string>
    const maxItems: Option<nat>
    var hits: nat
    var misses: nat
    var clock: nat   // the wall clock, in milliseconds

    // All keys carry the namespace.
    ghost predicate Valid()
      reads this
    {
      namespace.Some? ==> forall k :: k in cache ==> namespace.value + ":" <= k
    }

    ghost function Visible(): Entries
      reads this
    {
      Live(cache, Seconds(clock))
    }

    ghost predicate WithinLimit()
      reads this
    {
      maxItems.Some? ==> |cache| <= maxItems.value
    }

    function Key(key: string): string {
      PrefixKey(namespace, key)
    }

    function Entry(value: Bytes, ttl: Option<nat>): Entry
      reads this
    {
      NewEntry(value, if ttl.Some? then ttl else Some(defaultTtl), clock)
    }

    constructor (defaultTtl: nat, namespace: Option<string>, maxItems: Option<nat>, clock: nat)
      ensures Valid() && cache == map[] && hits == 0 && misses == 0 && this.clock == clock
      ensures this.defaultTtl == defaultTtl && this.namespace == namespace && this.maxItems == maxItems
    {
      this.defaultTtl, this.namespace, this.maxItems := defaultTtl, namespace, maxItems;
      cache, hits, misses, this.clock := map[], 0, 0, clock;
    }

    // Time passes.
    method Tick(ms: nat)
      requires Valid()
      modifies this`clock
      ensures Valid() && clock == old(clock) + ms
      ensures Visible() == Live(old(Visible()), Seconds(clock))
    {
      LiveLater(cache, Seconds(clock), Seconds(clock + ms));
      clock := clock + ms;
    }

    // The background task removes what has expired; nobody can tell.
    method Purge()
      requires Valid()
      modifies this`cache
      ensures Valid() && Visible() == old(Visible()) && cache == old(Visible())
      ensures |cache| <= |old(cache)|
    {
      ghost var before := cache;
      cache := map k | k in cache && !Expired(cache[k], Seconds(clock)) :: cache[k];
      SubmapSmaller(cache, before);
    }

    // Removes about a tenth of the limit, at random, once the limit is reached.
    method MaybeEvict() returns (ghost victims: set<string>)
      requires Valid()
      modifies this`cache
      ensures Valid() && cache == old(cache) - victims
      ensures Chosen(old(cache), EvictCount(maxItems, |old(cache)|), victims)
      ensures |cache| == |old(cache)| - |victims|
    {
      victims := {};
      var count := EvictCount(maxItems, |cache|);
      victims := RemoveRandom(count);
    }

    // Shuffles the keys and removes the first `count` of them.
    method RemoveRandom(count: nat) returns (ghost victims: set<string>)
      requires Valid()
      modifies this`cache
      ensures Valid() && cache == old(cache) - victims
      ensures Chosen(old(cache), count, victims) && |cache| == |old(cache)| - |victims|
    {
      victims := {};
      var removed := 0;
      while removed < count && cache != map[]
        invariant Valid() && removed <= count
        invariant cache == old(cache) - victims && victims <= old(cache).Keys && |victims| == removed
      {
        ghost var k := RemoveOne();
        OneVictimMore(old(cache), victims, k);
        victims := victims + {k};
        removed := removed + 1;
      }
      SizeWithout(old(cache), victims);
    }

    method RemoveOne() returns (ghost victim: string)
      requires Valid() && cache != map[]
      modifies this`cache
      ensures Valid() && victim in old(cache) && cache == old(cache) - {victim}
    {
      assert cache.Keys != {};
      var k :| k in cache.Keys;
      victim := k;
      cache := cache - {k};
    }

    // Inserts after a possible eviction; the last step of every single write.
    method Insert(k: string, e: Entry) returns (ghost victims: set<string>)
      requires Valid() && (namespace.Some? ==> namespace.value + ":" <= k)
      modifies this`cache
      ensures Valid() && cache == (old(cache) - victims)[k := e]
      ensures Chosen(old(cache), EvictCount(maxItems, |old(cache)|), victims)
      ensures Visible() == Put(old(Visible()) - victims, k, e, Seconds(clock))
      ensures maxItems.Some? && maxItems.value >= 10 && old(WithinLimit()) ==> WithinLimit()
    {
      victims := MaybeEvict();
      LiveMinus(old(cache), victims, Seconds(clock));
      LivePut(cache, k, e, Seconds(clock));
      SizePut(cache, k, e);
      if maxItems.Some? && maxItems.value >= 10 && |old(cache)| <= maxItems.value {
        InsertionKeepsLimitIff(maxItems.value);
      }
      cache := cache[k := e];
    }

    // Removes an entry that has expired; not visible.
    method RemoveExpired(k: string)
      requires Valid() && k in cache && Expired(cache[k], Seconds(clock))
      modifies this`cache
      ensures Valid() && cache == old(cache) - {k} && Visible() == old(Visible())
      ensures |cache| < |old(cache)|
    {
      SizeMinus(cache, k);
      RemovingExpired(cache, {k}, Seconds(clock));
      cache := cache - {k};
    }

    method Get(key: string) returns (r: Option<Bytes>)
      requires Valid()
      modifies this`cache, this`hits, this`misses
      ensures Valid() && Visible() == old(Visible()) && (old(WithinLimit()) ==> WithinLimit())
      ensures r == Lookup(old(Visible()), Key(key))
      ensures cache == WithoutExpired(old(cache), {Key(key)}, Seconds(clock))
      ensures hits == old(hits) + (if r.Some? then 1 else 0) && misses == old(misses) + (if r.Some? then 0 else 1)
    {
      var k := Key(key);
      if k in cache {
        if Expired(cache[k], Seconds(clock)) {
          misses := misses + 1;
          RemoveExpired(k);
          r := None;
        } else {
          hits := hits + 1;
          r := Some(cache[k].value);
        }
      } else {
        misses := misses + 1;
        r := None;
      }
    }

    method Set(key: string, value: Bytes, ttl: Option<nat>) returns (ghost victims: set<string>)
      requires Valid()
      modifies this`cache
      ensures Valid() && cache == (old(cache) - victims)[Key(key) := Entry(value, ttl)]
      ensures Visible() == Put(old(Visible()) - victims, Key(key), Entry(value, ttl), Seconds(clock))
      ensures Chosen(old(cache), EvictCount(maxItems, |old(cache)|), victims)
      ensures maxItems.Some? && maxItems.value >= 10 && old(WithinLimit()) ==> WithinLimit()
    {
      var e := Entry(value, ttl);
      victims := Insert(Key(key), e);
    }

    // Reports physical presence: an expired entry still counts as deleted.
    method Delete(key: string) returns (r: bool)
      requires Valid()
      modifies this`cache
      ensures Valid() && cache == old(cache) - {Key(key)} && Visible() == old(Visible()) - {Key(key)}
      ensures r == (Key(key) in old(cache)) && (old(WithinLimit()) ==> WithinLimit())
      ensures |cache| == |old(cache)| - (if r then 1 else 0)
    {
      var k := Key(key);
      r := k in cache;
      LiveMinus(cache, {k}, Seconds(clock));
      if r {
        SizeMinus(cache, k);
      }
      cache := cache - {k};
    }

    method Exists(key: string) returns (r: bool)
      requires Valid()
      modifies this`hits, this`misses
      ensures Valid() && r == (Key(key) in Visible())
      ensures hits == old(hits) + (if r then 1 else 0) && misses == old(misses) + (if r then 0 else 1)
    {
      var k := Key(key);
      r := k in cache && !Expired(cache[k], Seconds(clock));
      if r {
        hits := hits + 1;
      } else {
        misses := misses + 1;
      }
    }

    method SetNx(key: string, value: Bytes, ttl: Option<nat>) returns (r: bool, ghost victims: set<string>)
      requires Valid()
      modifies this`cache
      ensures Valid() && r == (Key(key) !in old(Visible()))
      ensures !r ==> cache == old(cache) && victims == {}
      ensures r ==> cache == (old(cache) - victims)[Key(key) := Entry(value, ttl)]
      ensures r ==> Visible() == Put(old(Visible()) - victims, Key(key), Entry(value, ttl), Seconds(clock))
      ensures r ==> var swept := WithoutExpired(old(cache), {Key(key)}, Seconds(clock));
                Chosen(swept, EvictCount(maxItems, |swept|), victims)
      ensures maxItems.Some? && maxItems.value >= 10 && old(WithinLimit()) ==> WithinLimit()
    {
      var k := Key(key);
      victims := {};
      ghost var before := cache;
      if k in cache {
        if !Expired(cache[k], Seconds(clock)) {
          return false, {};
        }
        RemoveExpired(k);
      }
      var e := Entry(value, ttl);
      ghost var cleared := cache;
      assert cleared == WithoutExpired(before, {k}, Seconds(clock));
      victims := Insert(k, e);
      PutAgain(before, cleared, k, victims, e);
      r := true;
    }

    method GetSet(key: string, value: Bytes) returns (r: Option<Bytes>, ghost victims: set<string>)
      requires Valid()
      modifies this`cache, this`hits, this`misses
      ensures Valid() && r == Lookup(old(Visible()), Key(key))
      ensures cache == (old(cache) - victims)[Key(key) := Entry(value, None)]
      ensures Visible() == Put(old(Visible()) - victims, Key(key), Entry(value, None), Seconds(clock))
      ensures Chosen(old(cache), EvictCount(maxItems, |old(cache)|), victims)
      ensures maxItems.Some? && maxItems.value >= 10 && old(WithinLimit()) ==> WithinLimit()
    {
      var k := Key(key);
      if k in cache && !Expired(cache[k], Seconds(clock)) {
        hits := hits + 1;
        r := Some(cache[k].value);
      } else {
        misses := misses + 1;
        r := None;
      }
      var e := Entry(value, None);
      victims := Insert(k, e);
    }

    // None when the sum leaves i64: the addition panics before anything is stored.
    method Increment(key: string, delta: int) returns (r: Option<int>, ghost victims: set<string>)
      requires Valid() && Decimal.IsI64(delta)
      modifies this`cache, this`hits, this`misses
      ensures Valid() && r == Sum(old(Visible()), Key(key), delta)
      ensures r.Some? ==> cache == (old(cache) - victims)[Key(key) := Entry(Decimal.Print(r.value), None)]
      ensures r.Some? ==> Visible() == Put(old(Visible()) - victims, Key(key), Entry(Decimal.Print(r.value), None), Seconds(clock))
      ensures r == None ==> cache == old(cache) && victims == {}
      ensures r.Some? ==> Chosen(old(cache), EvictCount(maxItems, |old(cache)|), victims)
      ensures maxItems.Some? && maxItems.value >= 10 && old(WithinLimit()) ==> WithinLimit()
    {
      var k := Key(key);
      victims := {};
      var current := 0;
      if k in cache && !Expired(cache[k], Seconds(clock)) {
        hits := hits + 1;
        current := CounterOf(Some(cache[k].value));
      } else {
        misses := misses + 1;
      }
      var sum := current + delta;
      if !Decimal.IsI64(sum) {
        return None, {};
      }
      var e := Entry(Decimal.Print(sum), None);
      victims := Insert(k, e);
      r := Some(sum);
    }

    method Decrement(key: string, delta: int) returns (r: Option<int>, ghost victims: set<string>)
      requires Valid() && Decimal.IsI64(delta)
      modifies this`cache, this`hits, this`misses
      ensures Valid() && r == Difference(old(Visible()), Key(key), delta)
      ensures r.Some? ==> cache == (old(cache) - victims)[Key(key) := Entry(Decimal.Print(r.value), None)]
      ensures r.Some? ==> Visible() == Put(old(Visible()) - victims, Key(key), Entry(Decimal.Print(r.value), None), Seconds(clock))
      ensures r == None ==> cache == old(cache) && victims == {}
      ensures r.Some? ==> Chosen(old(cache), EvictCount(maxItems, |old(cache)|), victims)
      ensures maxItems.Some? && maxItems.value >= 10 && old(WithinLimit()) ==> WithinLimit()
    {
      if delta == Decimal.I64_MIN {
        return None, {};
      }
      r, victims := Increment(key, -delta);
    }

    // Evicts enough for the whole batch, then inserts it. Within the limit for
    // every batch no larger than the limit.
    method SetMany(items: seq<(string, Bytes)>, ttl: Option<nat>) returns (ghost victims: set<string>)
      requires Valid() && DistinctKeys(items)
      modifies this`cache
      ensures Valid() && Chosen(old(cache), BatchEvictCount(maxItems, |old(cache)|, |items|), victims)
      ensures cache == WithItems(old(cache) - victims, namespace, items, if ttl.Some? then ttl else Some(defaultTtl), clock)
      ensures maxItems.Some? && |items| <= maxItems.value && old(WithinLimit()) ==> WithinLimit()
    {
      victims := {};
      assert cache - victims == cache;
      if items == [] {
        return;
      }
      if maxItems.Some? && |cache| + |items| > maxItems.value {
        victims := RemoveRandom(|cache| + |items| - maxItems.value + 1);
      }
      InsertItems(items, if ttl.Some? then ttl else Some(defaultTtl));
    }

    method InsertItems(items: seq<(string, Bytes)>, ttl: Option<nat>)
      requires Valid()
      modifies this`cache
      ensures Valid() && cache == WithItems(old(cache), namespace, items, ttl, clock)
      ensures |cache| <= |old(cache)| + |items|
    {
      for i := 0 to |items|
        invariant Valid() && cache == WithItems(old(cache), namespace, items[..i], ttl, clock)
        invariant |cache| <= |old(cache)| + i
      {
        var k, e := Key(items[i].0), NewEntry(items[i].1, ttl, clock);
        WithOneMore(old(cache), namespace, items, i, ttl, clock);
        SizePut(cache, k, e);
        cache := cache[k := e];
      }
      assert items[..|items|] == items;
    }

    method GetMany(keys: seq<string>) returns (r: map<string, Bytes>)
      requires Valid()
      modifies this`cache, this`hits, this`misses
      ensures Valid() && Visible() == old(Visible()) && (old(WithinLimit()) ==> WithinLimit())
      ensures r == Collect(old(Visible()), namespace, keys)
      ensures cache == WithoutExpired(old(cache), PrefixedKeys(namespace, keys), Seconds(clock))
      ensures hits + misses == old(hits + misses) + |keys|
    {
      r := map[];
      for i := 0 to |keys|
        invariant Valid() && Visible() == old(Visible()) && (old(WithinLimit()) ==> WithinLimit())
        invariant r == Collect(old(Visible()), namespace, keys[..i])
        invariant cache == WithoutExpired(old(cache), PrefixedKeys(namespace, keys[..i]), Seconds(clock))
        invariant hits + misses == old(hits + misses) + i
      {
        var value := Get(keys[i]);
        CollectOneMore(old(Visible()), namespace, keys, i);
        if value.Some? {
          r := r[keys[i] := value.value];
        }
        OneMoreLazyRemoval(namespace, keys, i, old(cache), Seconds(clock));
      }
      assert keys[..|keys|] == keys;
    }

    // Counts physical removals.
    method DeleteMany(keys: seq<string>) returns (count: nat)
      requires Valid()
      modifies this`cache
      ensures Valid() && (old(WithinLimit()) ==> WithinLimit())
      ensures cache == old(cache) - PrefixedKeys(namespace, keys)
      ensures count + |cache| == |old(cache)|
    {
      count := 0;
      for i := 0 to |keys|
        invariant Valid() && cache == old(cache) - PrefixedKeys(namespace, keys[..i])
        invariant count + |cache| == |old(cache)|
      {
        var removed := Delete(keys[i]);
        if removed {
          count := count + 1;
        }
        OneMoreKey(namespace, keys, i, old(cache));
      }
      assert keys[..|keys|] == keys;
    }

    // Without an argument everything goes, namespace or not; with one, exactly the
    // physical keys that start with it and a colon.
    method Clear(ns: Option<string>)
      requires Valid()
      modifies this`cache
      ensures Valid() && (old(WithinLimit()) ==> WithinLimit())
      ensures ns == None ==> cache == map[]
      ensures ns.Some? ==> cache == WithoutPrefix(old(cache), ns.value + ":")
    {
      if ns == None && namespace == None {
        cache := map[];
        return;
      }
      var prefix := (if ns.Some? then ns.value else namespace.value) + ":";
      var doomed := set k | k in cache && prefix <= k;
      while doomed != {}
        invariant forall k :: k in doomed ==> k in cache && prefix <= k
        invariant forall k :: k in cache && prefix <= k ==> k in doomed
        invariant WithoutPrefix(cache, prefix) == WithoutPrefix(old(cache), prefix)
        invariant Valid() && |cache| <= |old(cache)|
        decreases |doomed|
      {
        var k :| k in doomed;
        SizeMinus(cache, k);
        cache := cache - {k};
        doomed := doomed - {k};
      }
      assert cache == WithoutPrefix(cache, prefix);
    }

    // A lock is an entry under its own key that holds the token. `token` is a
    // new identifier.
    method Lock(key: string, ttl: nat, token: Bytes) returns (r: Option<Bytes>, ghost victims: set<string>)
      requires Valid()
      modifies this`cache
      ensures Valid()
      ensures r == (if LockKey(namespace, key) in old(Visible()) then None else Some(token))
      ensures r == None ==> cache == old(cache) && victims == {}
      ensures r.Some? ==> cache == (old(cache) - victims)[LockKey(namespace, key) := NewEntry(token, Some(ttl), clock)]
      ensures r.Some? ==> Visible() == Put(old(Visible()) - victims, LockKey(namespace, key),
                                           NewEntry(token, Some(ttl), clock), Seconds(clock))
      ensures r.Some? ==> Chosen(old(cache), EvictCount(maxItems, |old(cache)|), victims)
      ensures maxItems.Some? && maxItems.value >= 10 && old(WithinLimit()) ==> WithinLimit()
    {
      victims := {};
      var lockKey := Key("lock:" + key);
      var existing := lockKey in cache && !Expired(cache[lockKey], Seconds(clock));
      if existing {
        return None, {};
      }
      victims := Insert(lockKey, NewEntry(token, Some(ttl), clock));
      r := Some(token);
    }

    // Only the token that is stored and has not expired unlocks; any other call
    // changes nothing.
    method Unlock(key: string, token: Bytes) returns (r: bool)
      requires Valid()
      modifies this`cache
      ensures Valid() && (old(WithinLimit()) ==> WithinLimit())
      ensures r == (Lookup(old(Visible()), LockKey(namespace, key)) == Some(token))
      ensures r ==> cache == old(cache) - {LockKey(namespace, key)}
      ensures r ==> Visible() == old(Visible()) - {LockKey(namespace, key)}
      ensures !r ==> cache == old(cache)
    {
      var lockKey := Key("lock:" + key);
      r := false;
      if lockKey in cache {
        if !Expired(cache[lockKey], Seconds(clock)) {
          if cache[lockKey].value == token {
            LiveMinus(cache, {lockKey}, Seconds(clock));
            SizeMinus(cache, lockKey);
            cache := cache - {lockKey};
            r := true;
          }
        }
      }
    }

    method Flush()
      requires Valid()
      modifies this`cache
      ensures Valid() && cache == map[] && (old(WithinLimit()) ==> WithinLimit())
    {
      cache := map[];
    }
  }

  lemma SubmapSmaller(a: Entries, b: Entries)
    requires a.Keys <= b.Keys
    ensures |a| <= |b|
  {
    assert |a.Keys| == |a| && |b.Keys| == |b|;
    SubsetSmaller(a.Keys, b.Keys);
  }

  lemma {:induction false} SubsetSmaller(a: set<string>, b: set<string>)
    requires a <= b
    ensures |a| <= |b|
  {
    if a != {} {
      var x :| x in a;
      SubsetSmaller(a - {x}, b - {x});
    }
  }
}
