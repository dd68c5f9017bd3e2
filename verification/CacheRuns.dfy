/**
 Whole runs of the in-memory cache. Every operation is one step of a timed map
 with a clock; the steps below say what callers can tell, and Perform shows that
 the cache, with its lazy removal and its purge, takes exactly those steps.
 */
module CacheRuns {
  import opened Prelude
  import opened TimedMap
  import Decimal
  import Runs
  import C = InMemoryCache

  datatype Config = Config(namespace: Option<string>, defaultTtl: nat)

  datatype Op =
    | Get(key: string)
    | Exists(key: string)
    | GetMany(keys: seq<string>)
    | Set(key: string, value: Bytes, ttl: Option<nat>)
    | SetNx(key: string, value: Bytes, ttl: Option<nat>)
    | GetSet(key: string, value: Bytes)
    | Increment(key: string, delta: int)
    | Decrement(key: string, delta: int)
    | SetMany(items: seq<(string, Bytes)>, ttl: Option<nat>)
    | Delete(key: string)
    | DeleteMany(keys: seq<string>)
    | Clear(ns: Option<string>)
    | Lock(key: string, lockTtl: nat, token: Bytes)
    | Unlock(key: string, token: Bytes)
    | Flush
    | Purge
    | Tick(ms: nat)

  // Deletions report physical presence, which the timed map does not know.
  datatype Reply =
    | Done
    | Flag(flag: bool)
    | Value(value: Option<Bytes>)
    | Number(number: Option<int>)
    | Values(values: map<string, Bytes>)

  datatype World = World(v: Entries, clock: nat)

  datatype Change =
    | Write(entries: Entries)
    | Remove(keys: set<string>)
    | RemovePrefix(prefix: string)

  const Keep := Remove({})

  // What the callers of the operations see to: an i64, and one value a key.
  predicate WellFormed(op: Op) {
    match op
    case Increment(_, delta) => Decimal.IsI64(delta)
    case Decrement(_, delta) => Decimal.IsI64(delta)
    case SetMany(items, _) => C.DistinctKeys(items)
    case _ => true
  }

  // The limit can be kept: it is at least 10, and a batch is no larger than it.
  predicate Fits(maxItems: Option<nat>, op: Op) {
    maxItems.Some? ==> maxItems.value >= 10 && (op.SetMany? ==> |op.items| <= maxItems.value)
  }

  predicate AllFit(maxItems: Option<nat>, ops: seq<Op>) {
    forall i :: 0 <= i < |ops| ==> Fits(maxItems, ops[i])
  }

  lemma OneMoreFits(maxItems: Option<nat>, ops: seq<Op>, n: nat)
    requires n < |ops|
    ensures ops[..n + 1] == ops[..n] + [ops[n]]
    ensures AllFit(maxItems, ops[..n + 1]) <==> AllFit(maxItems, ops[..n]) && Fits(maxItems, ops[n])
  {}

  function Fresh(c: Config, w: World, value: Bytes, ttl: Option<nat>): Entry {
    NewEntry(value, if ttl.Some? then ttl else Some(c.defaultTtl), w.clock)
  }

  function PrefixedBy(c: Config, key: string): string {
    C.PrefixKey(c.namespace, key)
  }

  function Stored(c: Config, w: World, key: string, number: Option<int>): Change {
    match number
    case Some(n) => Write(map[PrefixedBy(c, key) := Fresh(c, w, Decimal.Print(n), None)])
    case None => Keep
  }

  function ReplyTo(c: Config, w: World, op: Op): Reply {
    match op
    case Get(key) => Value(Lookup(w.v, PrefixedBy(c, key)))
    case Exists(key) => Flag(PrefixedBy(c, key) in w.v)
    case GetMany(keys) => Values(C.Collect(w.v, c.namespace, keys))
    case SetNx(key, _, _) => Flag(PrefixedBy(c, key) !in w.v)
    case GetSet(key, _) => Value(Lookup(w.v, PrefixedBy(c, key)))
    case Increment(key, delta) => Number(C.Sum(w.v, PrefixedBy(c, key), delta))
    case Decrement(key, delta) => Number(C.Difference(w.v, PrefixedBy(c, key), delta))
    case Lock(key, _, token) => Value(if C.LockKey(c.namespace, key) in w.v then None else Some(token))
    case Unlock(key, token) => Flag(Lookup(w.v, C.LockKey(c.namespace, key)) == Some(token))
    case _ => Done
  }

  function ChangeBy(c: Config, w: World, op: Op): Change {
    match op
    case Set(key, value, ttl) => Write(map[PrefixedBy(c, key) := Fresh(c, w, value, ttl)])
    case SetNx(key, value, ttl) =>
      if PrefixedBy(c, key) in w.v then Keep else Write(map[PrefixedBy(c, key) := Fresh(c, w, value, ttl)])
    case GetSet(key, value) => Write(map[PrefixedBy(c, key) := Fresh(c, w, value, None)])
    case Increment(key, delta) => Stored(c, w, key, C.Sum(w.v, PrefixedBy(c, key), delta))
    case Decrement(key, delta) => Stored(c, w, key, C.Difference(w.v, PrefixedBy(c, key), delta))
    case SetMany(items, ttl) =>
      Write(C.WithItems(map[], c.namespace, items, if ttl.Some? then ttl else Some(c.defaultTtl), w.clock))
    case Delete(key) => Remove({PrefixedBy(c, key)})
    case DeleteMany(keys) => Remove(C.PrefixedKeys(c.namespace, keys))
    case Clear(ns) =>
      if ns == None && c.namespace == None then RemovePrefix("")
      else RemovePrefix((if ns.Some? then ns.value else c.namespace.value) + ":")
    case Lock(key, lockTtl, token) =>
      if C.LockKey(c.namespace, key) in w.v then Keep
      else Write(map[C.LockKey(c.namespace, key) := NewEntry(token, Some(lockTtl), w.clock)])
    case Unlock(key, token) =>
      if Lookup(w.v, C.LockKey(c.namespace, key)) == Some(token) then Remove({C.LockKey(c.namespace, key)}) else Keep
    case Flush => RemovePrefix("")
    case _ => Keep
  }

  // Only a write evicts.
  function Amend(m: Entries, change: Change, victims: set<string>): Entries {
    match change
    case Write(entries) => (m - victims) + entries
    case Remove(keys) => m - keys
    case RemovePrefix(prefix) => C.WithoutPrefix(m, prefix)
  }

  function Next(c: Config, w: World, op: Op, victims: set<string>): World {
    var clock := if op.Tick? then w.clock + op.ms else w.clock;
    World(Live(Amend(w.v, ChangeBy(c, w, op), victims), Seconds(clock)), clock)
  }

  // What has expired does not matter to a change.
  lemma LiveAmend(m: Entries, change: Change, victims: set<string>, now: nat)
    ensures Live(Amend(m, change, victims), now) == Live(Amend(Live(m, now), change, victims), now)
  {}

  // Writing items in turn is one write of all of them.
  lemma {:induction false} ItemsAtOnce(m: Entries, namespace: Option<string>, items: seq<(string, Bytes)>,
                                       ttl: Option<nat>, clock: nat)
    ensures C.WithItems(m, namespace, items, ttl, clock) == m + C.WithItems(map[], namespace, items, ttl, clock)
  {
    if items != [] {
      ItemsAtOnce(m, namespace, items[..|items| - 1], ttl, clock);
    }
  }

  ghost predicate Settled(w: World) {
    Live(w.v, Seconds(w.clock)) == w.v
  }

  // The step of an operation that writes one entry.
  lemma Wrote(c: Config, w: World, op: Op, victims: set<string>, k: string, e: Entry)
    requires !op.Tick? && ChangeBy(c, w, op) == Write(map[k := e])
    ensures Next(c, w, op, victims) == World(Put(w.v - victims, k, e, Seconds(w.clock)), w.clock)
  {
    assert (w.v - victims) + map[k := e] == (w.v - victims)[k := e];
  }

  // The step of an operation that changes nothing.
  lemma Kept(c: Config, w: World, op: Op, victims: set<string>)
    requires !op.Tick? && ChangeBy(c, w, op) == Keep && Settled(w)
    ensures Next(c, w, op, victims) == w
  {
    assert w.v - {} == w.v;
  }

  // The step of an operation that removes keys.
  lemma Removed(c: Config, w: World, op: Op, victims: set<string>, ks: set<string>)
    requires !op.Tick? && ChangeBy(c, w, op) == Remove(ks) && Settled(w)
    ensures Next(c, w, op, victims) == World(w.v - ks, w.clock)
  {
    LiveMinus(w.v, ks, Seconds(w.clock));
  }

  // The map as it is stored, expired entries included.
  datatype Physical = Physical(m: Entries, clock: nat)

  // What callers can tell of it.
  function View(p: Physical): (w: World)
    ensures Settled(w)
  {
    World(Live(p.m, Seconds(p.clock)), p.clock)
  }

  // What is left once an operation has removed the expired entries it meets.
  function Swept(c: Config, p: Physical, op: Op): Entries {
    match op
    case Get(key) => C.WithoutExpired(p.m, {PrefixedBy(c, key)}, Seconds(p.clock))
    case GetMany(keys) => C.WithoutExpired(p.m, C.PrefixedKeys(c.namespace, keys), Seconds(p.clock))
    case SetNx(key, _, _) => C.WithoutExpired(p.m, {PrefixedBy(c, key)}, Seconds(p.clock))
    case Purge => Live(p.m, Seconds(p.clock))
    case _ => p.m
  }

  function PhysicalNext(c: Config, p: Physical, op: Op, victims: set<string>): Physical {
    Physical(Amend(Swept(c, p, op), ChangeBy(c, View(p), op), victims), if op.Tick? then p.clock + op.ms else p.clock)
  }

  // How many entries an operation evicts.
  function Quota(c: Config, limit: Option<nat>, p: Physical, op: Op): nat {
    if !ChangeBy(c, View(p), op).Write? then 0
    else if op.SetMany? then C.BatchEvictCount(limit, |p.m|, |op.items|)
    else C.EvictCount(limit, |Swept(c, p, op)|)
  }

  // Any choice of so many entries may be evicted.
  predicate Admissible(c: Config, limit: Option<nat>, p: Physical, op: Op, victims: set<string>) {
    C.Chosen(Swept(c, p, op), Quota(c, limit, p, op), victims)
  }

  // Nobody can tell the expired entries that are still stored.
  lemma PhysicalIsTimed(c: Config, p: Physical, op: Op, victims: set<string>)
    ensures View(PhysicalNext(c, p, op, victims)) == Next(c, View(p), op, victims)
  {
    var w, change, clock := View(p), ChangeBy(c, View(p), op), PhysicalNext(c, p, op, victims).clock;
    assert Live(Swept(c, p, op), Seconds(p.clock)) == w.v;
    if op.Tick? {
      LiveLater(p.m, Seconds(p.clock), Seconds(clock));
      assert Amend(p.m, change, victims) == p.m && Amend(w.v, change, victims) == w.v;
    } else {
      LiveAmend(Swept(c, p, op), change, victims, Seconds(clock));
    }
  }

  function PhysicalOf(cache: C.InMemoryCache): Physical
    reads cache
  {
    Physical(cache.cache, cache.clock)
  }

  ghost function WorldOf(cache: C.InMemoryCache): (w: World)
    reads cache
    ensures w == View(PhysicalOf(cache)) && Settled(w)
  {
    World(cache.Visible(), cache.clock)
  }

  function ConfigOf(cache: C.InMemoryCache): Config {
    Config(cache.namespace, cache.defaultTtl)
  }

  // The cache takes the steps of the stored map, evicting an admissible choice;
  // to its callers these are the steps and replies of the timed map. It stays
  // within its limit.
  method Perform(cache: C.InMemoryCache, op: Op) returns (reply: Reply, ghost victims: set<string>)
    requires cache.Valid() && WellFormed(op)
    modifies cache
    ensures cache.Valid() && cache.clock >= old(cache.clock)
    ensures reply == ReplyTo(ConfigOf(cache), old(WorldOf(cache)), op)
    ensures WorldOf(cache) == Next(ConfigOf(cache), old(WorldOf(cache)), op, victims)
    ensures PhysicalOf(cache) == PhysicalNext(ConfigOf(cache), old(PhysicalOf(cache)), op, victims)
    ensures Admissible(ConfigOf(cache), cache.maxItems, old(PhysicalOf(cache)), op, victims)
    ensures old(cache.WithinLimit()) && Fits(cache.maxItems, op) ==> cache.WithinLimit()
  {
    ghost var p := PhysicalOf(cache);
    reply, victims := Dispatch(cache, op);
    PhysicalIsTimed(ConfigOf(cache), p, op, victims);
  }

  method Dispatch(cache: C.InMemoryCache, op: Op) returns (reply: Reply, ghost victims: set<string>)
    requires cache.Valid() && WellFormed(op)
    modifies cache
    ensures cache.Valid()
    ensures reply == ReplyTo(ConfigOf(cache), View(old(PhysicalOf(cache))), op)
    ensures PhysicalOf(cache) == PhysicalNext(ConfigOf(cache), old(PhysicalOf(cache)), op, victims)
    ensures Admissible(ConfigOf(cache), cache.maxItems, old(PhysicalOf(cache)), op, victims)
    ensures old(cache.WithinLimit()) && Fits(cache.maxItems, op) ==> cache.WithinLimit()
  {
    match op {
      case Get(_) => reply, victims := Observe(cache, op);
      case Exists(_) => reply, victims := Observe(cache, op);
      case GetMany(_) => reply, victims := Observe(cache, op);
      case Purge => reply, victims := PassTime(cache, op);
      case Tick(_) => reply, victims := PassTime(cache, op);
      case Delete(_) => reply, victims := Discard(cache, op);
      case DeleteMany(_) => reply, victims := Discard(cache, op);
      case Clear(_) => reply, victims := DiscardPrefix(cache, op);
      case Flush => reply, victims := DiscardPrefix(cache, op);
      case Lock(_, _, _) => reply, victims := TakeLock(cache, op);
      case Unlock(_, _) => reply, victims := DropLock(cache, op);
      case Increment(_, _) => reply, victims := CountUp(cache, op);
      case Decrement(_, _) => reply, victims := CountDown(cache, op);
      case SetNx(_, _, _) => reply, victims := StoreNew(cache, op);
      case SetMany(_, _) => reply, victims := StoreMany(cache, op);
      case _ => reply, victims := Store(cache, op);
    }
  }

  // The stored map after an operation that writes one entry ...
  lemma WriteStep(c: Config, limit: Option<nat>, p: Physical, op: Op, victims: set<string>, k: string, e: Entry)
    requires !op.Tick? && !op.SetMany? && ChangeBy(c, View(p), op) == Write(map[k := e])
    ensures PhysicalNext(c, p, op, victims) == Physical((Swept(c, p, op) - victims)[k := e], p.clock)
    ensures Quota(c, limit, p, op) == C.EvictCount(limit, |Swept(c, p, op)|)
  {
    var m := Swept(c, p, op);
    assert (m - victims) + map[k := e] == (m - victims)[k := e];
  }

  // ... and after one that changes nothing but what it sweeps.
  lemma KeepStep(c: Config, limit: Option<nat>, p: Physical, op: Op)
    requires !op.Tick? && ChangeBy(c, View(p), op) == Keep
    ensures PhysicalNext(c, p, op, {}) == Physical(Swept(c, p, op), p.clock)
    ensures Admissible(c, limit, p, op, {})
  {
    var m := Swept(c, p, op);
    assert m - {} == m;
  }

  method Observe(cache: C.InMemoryCache, op: Op) returns (reply: Reply, ghost victims: set<string>)
    requires cache.Valid() && (op.Get? || op.Exists? || op.GetMany?)
    modifies cache
    ensures cache.Valid()
    ensures reply == ReplyTo(ConfigOf(cache), View(old(PhysicalOf(cache))), op)
    ensures PhysicalOf(cache) == PhysicalNext(ConfigOf(cache), old(PhysicalOf(cache)), op, victims)
    ensures Admissible(ConfigOf(cache), cache.maxItems, old(PhysicalOf(cache)), op, victims)
    ensures old(cache.WithinLimit()) && Fits(cache.maxItems, op) ==> cache.WithinLimit()
  {
    ghost var c, p := ConfigOf(cache), PhysicalOf(cache);
    match op {
      case Get(key) => { var r := cache.Get(key); reply := Value(r); }
      case Exists(key) => { var r := cache.Exists(key); reply := Flag(r); }
      case GetMany(keys) => { var r := cache.GetMany(keys); reply := Values(r); }
    }
    victims := {};
    KeepStep(c, cache.maxItems, p, op);
  }

  method PassTime(cache: C.InMemoryCache, op: Op) returns (reply: Reply, ghost victims: set<string>)
    requires cache.Valid() && (op.Purge? || op.Tick?)
    modifies cache
    ensures cache.Valid()
    ensures reply == ReplyTo(ConfigOf(cache), View(old(PhysicalOf(cache))), op)
    ensures PhysicalOf(cache) == PhysicalNext(ConfigOf(cache), old(PhysicalOf(cache)), op, victims)
    ensures Admissible(ConfigOf(cache), cache.maxItems, old(PhysicalOf(cache)), op, victims)
    ensures old(cache.WithinLimit()) && Fits(cache.maxItems, op) ==> cache.WithinLimit()
  {
    ghost var c, p := ConfigOf(cache), PhysicalOf(cache);
    reply, victims := Done, {};
    if op.Tick? {
      cache.Tick(op.ms);
      assert p.m - {} == p.m;
    } else {
      cache.Purge();
      KeepStep(c, cache.maxItems, p, op);
    }
  }

  method Store(cache: C.InMemoryCache, op: Op) returns (reply: Reply, ghost victims: set<string>)
    requires cache.Valid() && (op.Set? || op.GetSet?)
    modifies cache
    ensures cache.Valid()
    ensures reply == ReplyTo(ConfigOf(cache), View(old(PhysicalOf(cache))), op)
    ensures PhysicalOf(cache) == PhysicalNext(ConfigOf(cache), old(PhysicalOf(cache)), op, victims)
    ensures Admissible(ConfigOf(cache), cache.maxItems, old(PhysicalOf(cache)), op, victims)
    ensures old(cache.WithinLimit()) && Fits(cache.maxItems, op) ==> cache.WithinLimit()
  {
    ghost var c, p := ConfigOf(cache), PhysicalOf(cache);
    ghost var e := cache.Entry(op.value, if op.GetSet? then None else op.ttl);
    if op.Set? {
      victims := cache.Set(op.key, op.value, op.ttl);
      reply := Done;
    } else {
      var r;
      r, victims := cache.GetSet(op.key, op.value);
      reply := Value(r);
    }
    WriteStep(c, cache.maxItems, p, op, victims, cache.Key(op.key), e);
  }

  method StoreNew(cache: C.InMemoryCache, op: Op) returns (reply: Reply, ghost victims: set<string>)
    requires cache.Valid() && op.SetNx?
    modifies cache
    ensures cache.Valid()
    ensures reply == ReplyTo(ConfigOf(cache), View(old(PhysicalOf(cache))), op)
    ensures PhysicalOf(cache) == PhysicalNext(ConfigOf(cache), old(PhysicalOf(cache)), op, victims)
    ensures Admissible(ConfigOf(cache), cache.maxItems, old(PhysicalOf(cache)), op, victims)
    ensures old(cache.WithinLimit()) && Fits(cache.maxItems, op) ==> cache.WithinLimit()
  {
    ghost var c, p := ConfigOf(cache), PhysicalOf(cache);
    ghost var k, e := cache.Key(op.key), cache.Entry(op.value, op.ttl);
    var r;
    r, victims := cache.SetNx(op.key, op.value, op.ttl);
    reply := Flag(r);
    if r {
      WriteStep(c, cache.maxItems, p, op, victims, k, e);
      SweptThenPut(p.m, k, victims, Seconds(p.clock), e);
    } else {
      NothingSwept(p.m, k, Seconds(p.clock));
      KeepStep(c, cache.maxItems, p, op);
    }
  }

  lemma NothingSwept(m: Entries, k: string, now: nat)
    requires k in m ==> !Expired(m[k], now)
    ensures C.WithoutExpired(m, {k}, now) == m
  {}

  lemma SweptThenPut(m: Entries, k: string, victims: set<string>, now: nat, e: Entry)
    ensures (C.WithoutExpired(m, {k}, now) - victims)[k := e] == (m - victims)[k := e]
  {}

  method StoreMany(cache: C.InMemoryCache, op: Op) returns (reply: Reply, ghost victims: set<string>)
    requires cache.Valid() && WellFormed(op) && op.SetMany?
    modifies cache
    ensures cache.Valid()
    ensures reply == ReplyTo(ConfigOf(cache), View(old(PhysicalOf(cache))), op)
    ensures PhysicalOf(cache) == PhysicalNext(ConfigOf(cache), old(PhysicalOf(cache)), op, victims)
    ensures Admissible(ConfigOf(cache), cache.maxItems, old(PhysicalOf(cache)), op, victims)
    ensures old(cache.WithinLimit()) && Fits(cache.maxItems, op) ==> cache.WithinLimit()
  {
    ghost var before := cache.cache;
    ghost var ttl := if op.ttl.Some? then op.ttl else Some(cache.defaultTtl);
    victims := cache.SetMany(op.items, op.ttl);
    ItemsAtOnce(before - victims, cache.namespace, op.items, ttl, cache.clock);
    reply := Done;
  }

  method CountUp(cache: C.InMemoryCache, op: Op) returns (reply: Reply, ghost victims: set<string>)
    requires cache.Valid() && WellFormed(op) && op.Increment?
    modifies cache
    ensures cache.Valid()
    ensures reply == ReplyTo(ConfigOf(cache), View(old(PhysicalOf(cache))), op)
    ensures PhysicalOf(cache) == PhysicalNext(ConfigOf(cache), old(PhysicalOf(cache)), op, victims)
    ensures Admissible(ConfigOf(cache), cache.maxItems, old(PhysicalOf(cache)), op, victims)
    ensures old(cache.WithinLimit()) && Fits(cache.maxItems, op) ==> cache.WithinLimit()
  {
    ghost var c, p := ConfigOf(cache), PhysicalOf(cache);
    var r;
    r, victims := cache.Increment(op.key, op.delta);
    reply := Number(r);
    if r.Some? {
      WriteStep(c, cache.maxItems, p, op, victims, cache.Key(op.key), cache.Entry(Decimal.Print(r.value), None));
    } else {
      KeepStep(c, cache.maxItems, p, op);
    }
  }

  method CountDown(cache: C.InMemoryCache, op: Op) returns (reply: Reply, ghost victims: set<string>)
    requires cache.Valid() && WellFormed(op) && op.Decrement?
    modifies cache
    ensures cache.Valid()
    ensures reply == ReplyTo(ConfigOf(cache), View(old(PhysicalOf(cache))), op)
    ensures PhysicalOf(cache) == PhysicalNext(ConfigOf(cache), old(PhysicalOf(cache)), op, victims)
    ensures Admissible(ConfigOf(cache), cache.maxItems, old(PhysicalOf(cache)), op, victims)
    ensures old(cache.WithinLimit()) && Fits(cache.maxItems, op) ==> cache.WithinLimit()
  {
    ghost var c, p := ConfigOf(cache), PhysicalOf(cache);
    var r;
    r, victims := cache.Decrement(op.key, op.delta);
    reply := Number(r);
    if r.Some? {
      WriteStep(c, cache.maxItems, p, op, victims, cache.Key(op.key), cache.Entry(Decimal.Print(r.value), None));
    } else {
      KeepStep(c, cache.maxItems, p, op);
    }
  }

  method Discard(cache: C.InMemoryCache, op: Op) returns (reply: Reply, ghost victims: set<string>)
    requires cache.Valid() && (op.Delete? || op.DeleteMany?)
    modifies cache
    ensures cache.Valid()
    ensures reply == ReplyTo(ConfigOf(cache), View(old(PhysicalOf(cache))), op)
    ensures PhysicalOf(cache) == PhysicalNext(ConfigOf(cache), old(PhysicalOf(cache)), op, victims)
    ensures Admissible(ConfigOf(cache), cache.maxItems, old(PhysicalOf(cache)), op, victims)
    ensures old(cache.WithinLimit()) && Fits(cache.maxItems, op) ==> cache.WithinLimit()
  {
    match op {
      case Delete(key) => { var _ := cache.Delete(key); }
      case DeleteMany(keys) => { var _ := cache.DeleteMany(keys); }
    }
    reply, victims := Done, {};
  }

  method DiscardPrefix(cache: C.InMemoryCache, op: Op) returns (reply: Reply, ghost victims: set<string>)
    requires cache.Valid() && (op.Clear? || op.Flush?)
    modifies cache
    ensures cache.Valid()
    ensures reply == ReplyTo(ConfigOf(cache), View(old(PhysicalOf(cache))), op)
    ensures PhysicalOf(cache) == PhysicalNext(ConfigOf(cache), old(PhysicalOf(cache)), op, victims)
    ensures Admissible(ConfigOf(cache), cache.maxItems, old(PhysicalOf(cache)), op, victims)
    ensures old(cache.WithinLimit()) && Fits(cache.maxItems, op) ==> cache.WithinLimit()
  {
    ghost var change, before := ChangeBy(ConfigOf(cache), WorldOf(cache), op), cache.cache;
    reply, victims := Done, {};
    if op.Clear? {
      cache.Clear(op.ns);
    } else {
      cache.Flush();
    }
    assert cache.cache == C.WithoutPrefix(before, change.prefix);
  }

  method TakeLock(cache: C.InMemoryCache, op: Op) returns (reply: Reply, ghost victims: set<string>)
    requires cache.Valid() && op.Lock?
    modifies cache
    ensures cache.Valid()
    ensures reply == ReplyTo(ConfigOf(cache), View(old(PhysicalOf(cache))), op)
    ensures PhysicalOf(cache) == PhysicalNext(ConfigOf(cache), old(PhysicalOf(cache)), op, victims)
    ensures Admissible(ConfigOf(cache), cache.maxItems, old(PhysicalOf(cache)), op, victims)
    ensures old(cache.WithinLimit()) && Fits(cache.maxItems, op) ==> cache.WithinLimit()
  {
    ghost var c, p := ConfigOf(cache), PhysicalOf(cache);
    var r;
    r, victims := cache.Lock(op.key, op.lockTtl, op.token);
    reply := Value(r);
    if r.Some? {
      WriteStep(c, cache.maxItems, p, op, victims, C.LockKey(cache.namespace, op.key),
                NewEntry(op.token, Some(op.lockTtl), cache.clock));
    } else {
      KeepStep(c, cache.maxItems, p, op);
    }
  }

  method DropLock(cache: C.InMemoryCache, op: Op) returns (reply: Reply, ghost victims: set<string>)
    requires cache.Valid() && op.Unlock?
    modifies cache
    ensures cache.Valid()
    ensures reply == ReplyTo(ConfigOf(cache), View(old(PhysicalOf(cache))), op)
    ensures PhysicalOf(cache) == PhysicalNext(ConfigOf(cache), old(PhysicalOf(cache)), op, victims)
    ensures Admissible(ConfigOf(cache), cache.maxItems, old(PhysicalOf(cache)), op, victims)
    ensures old(cache.WithinLimit()) && Fits(cache.maxItems, op) ==> cache.WithinLimit()
  {
    ghost var c, p := ConfigOf(cache), PhysicalOf(cache);
    var r := cache.Unlock(op.key, op.token);
    reply, victims := Flag(r), {};
    if !r {
      KeepStep(c, cache.maxItems, p, op);
    }
  }

  // One operation of a run and what it evicted.
  datatype Step = Step(op: Op, victims: set<string>)

  // The timed map after a run.
  function After(c: Config, w: World, run: seq<Step>): World {
    if run == [] then w
    else
      var last := run[|run| - 1];
      Next(c, After(c, w, run[..|run| - 1]), last.op, last.victims)
  }

  // The stored map after a run, and whether every eviction on the way was
  // admissible.
  function StoredStep(c: Config): (Physical, Step) -> Physical {
    (p: Physical, s: Step) => PhysicalNext(c, p, s.op, s.victims)
  }

  function Chooses(c: Config, limit: Option<nat>): (Physical, Step) -> bool {
    (p: Physical, s: Step) => Admissible(c, limit, p, s.op, s.victims)
  }

  function PhysicalAfter(c: Config, p: Physical, run: seq<Step>): Physical {
    Runs.After(StoredStep(c), p, run)
  }

  ghost predicate AdmissibleRun(c: Config, limit: Option<nat>, p: Physical, run: seq<Step>) {
    Runs.Always(StoredStep(c), Chooses(c, limit), p, run)
  }

  lemma {:induction false} PhysicalRunIsTimed(c: Config, p: Physical, run: seq<Step>)
    ensures View(PhysicalAfter(c, p, run)) == After(c, View(p), run)
  {
    if run != [] {
      var before, last := run[..|run| - 1], run[|run| - 1];
      PhysicalRunIsTimed(c, p, before);
      PhysicalIsTimed(c, PhysicalAfter(c, p, before), last.op, last.victims);
    }
  }

  // The stored map after operations that evict nothing.
  function QuietStep(c: Config): (Physical, Op) -> Physical {
    (p, op) => PhysicalNext(c, p, op, {})
  }

  function HasRoom(c: Config, limit: Option<nat>): (Physical, Op) -> bool {
    (p, op) => Quota(c, limit, p, op) == 0
  }

  function QuietAfter(c: Config, p: Physical, ops: seq<Op>): Physical {
    Runs.After(QuietStep(c), p, ops)
  }

  // No operation finds the map at its limit, as long as none did before: this
  // depends on the map at the start and the operations only.
  ghost predicate NeverFull(c: Config, limit: Option<nat>, p: Physical, ops: seq<Op>) {
    Runs.Always(QuietStep(c), HasRoom(c, limit), p, ops)
  }

  function OpOf(): Step -> Op {
    (s: Step) => s.op
  }

  function Quietly(): Op -> Step {
    op => Step(op, {})
  }

  function EvictsNothing(): Step -> bool {
    (s: Step) => s.victims == {}
  }

  lemma NoLimitNeverFull(c: Config, p: Physical, ops: seq<Op>)
    ensures NeverFull(c, None, p, ops)
  {
    forall n: nat | n < |ops| ensures Runs.OkAt(QuietStep(c), HasRoom(c, None), p, ops, n) {
      NoLimitHasRoom(c, Runs.After(QuietStep(c), p, ops[..n]), ops[n]);
    }
  }

  lemma NoLimitHasRoom(c: Config, p: Physical, op: Op)
    ensures HasRoom(c, None)(p, op)
  {}

  lemma RoomMeansQuiet(c: Config, limit: Option<nat>, p: Physical, s: Step)
    requires Chooses(c, limit)(p, s) && HasRoom(c, limit)(p, OpOf()(s))
    ensures EvictsNothing()(s) && StoredStep(c)(p, s) == QuietStep(c)(p, OpOf()(s))
  {
    assert |s.victims| == 0;
  }

  lemma QuietIsAdmissible(c: Config, limit: Option<nat>, p: Physical, op: Op)
    requires HasRoom(c, limit)(p, op)
    ensures Chooses(c, limit)(p, Quietly()(op)) && StoredStep(c)(p, Quietly()(op)) == QuietStep(c)(p, op)
  {}

  // Then nothing is evicted, whatever choices there might have been.
  lemma NeverFullNeverEvicts(c: Config, limit: Option<nat>, p: Physical, run: seq<Step>)
    requires AdmissibleRun(c, limit, p, run) && NeverFull(c, limit, p, Ops(run))
    ensures NothingEvicted(run) && PhysicalAfter(c, p, run) == QuietAfter(c, p, Ops(run))
  {
    var next, ok, next', ok', f, q := StoredStep(c), Chooses(c, limit), QuietStep(c), HasRoom(c, limit), OpOf(), EvictsNothing();
    forall p: Physical, s: Step | ok(p, s) && ok'(p, f(s)) ensures next(p, s) == next'(p, f(s)) && q(s) {
      RoomMeansQuiet(c, limit, p, s);
    }
    Runs.Follows(next, ok, next', ok', f, q, p, run);
    assert forall i :: 0 <= i < |run| ==> q(run[i]);
  }

  function Replies(c: Config, w: World, run: seq<Step>): seq<Reply> {
    if run == [] then []
    else
      var before := run[..|run| - 1];
      Replies(c, w, before) + [ReplyTo(c, After(c, w, before), run[|run| - 1].op)]
  }

  function Ops(run: seq<Step>): (ops: seq<Op>)
    ensures |ops| == |run|
    ensures forall i :: 0 <= i < |run| ==> ops[i] == run[i].op
  {
    Map(OpOf(), run)
  }

  ghost predicate NothingEvicted(run: seq<Step>) {
    forall i :: 0 <= i < |run| ==> run[i].victims == {}
  }

  lemma OneMoreStep(c: Config, w: World, run: seq<Step>, step: Step)
    ensures After(c, w, run + [step]) == Next(c, After(c, w, run), step.op, step.victims)
    ensures Replies(c, w, run + [step]) == Replies(c, w, run) + [ReplyTo(c, After(c, w, run), step.op)]
    ensures Ops(run + [step]) == Ops(run) + [step.op]
  {
    assert (run + [step])[..|run|] == run;
  }

  lemma OneMorePhysical(c: Config, limit: Option<nat>, p: Physical, run: seq<Step>, step: Step)
    ensures PhysicalAfter(c, p, run + [step]) == PhysicalNext(c, PhysicalAfter(c, p, run), step.op, step.victims)
    ensures AdmissibleRun(c, limit, p, run + [step]) <==>
            AdmissibleRun(c, limit, p, run) && Admissible(c, limit, PhysicalAfter(c, p, run), step.op, step.victims)
  {
    Runs.OneMore(StoredStep(c), Chooses(c, limit), p, run, step);
  }

  lemma {:induction false} ReplyAt(c: Config, w: World, run: seq<Step>, n: nat)
    requires n < |run|
    ensures |Replies(c, w, run)| == |run|
    ensures Replies(c, w, run)[n] == ReplyTo(c, After(c, w, run[..n]), run[n].op)
  {
    var before := run[..|run| - 1];
    if n < |before| {
      ReplyAt(c, w, before, n);
      assert before[..n] == run[..n] && before[n] == run[n];
    } else if |before| > 0 {
      ReplyAt(c, w, before, 0);
    }
  }

  lemma OneMorePerformed(c: Config, limit: Option<nat>, p: Physical, run: seq<Step>, step: Step)
    ensures Ops(run + [step]) == Ops(run) + [step.op]
    ensures Replies(c, View(p), run + [step])
         == Replies(c, View(p), run) + [ReplyTo(c, View(PhysicalAfter(c, p, run)), step.op)]
    ensures PhysicalAfter(c, p, run + [step]) == PhysicalNext(c, PhysicalAfter(c, p, run), step.op, step.victims)
    ensures AdmissibleRun(c, limit, p, run + [step]) <==>
            AdmissibleRun(c, limit, p, run) && Admissible(c, limit, PhysicalAfter(c, p, run), step.op, step.victims)
  {
    PhysicalRunIsTimed(c, p, run);
    OneMoreStep(c, View(p), run, step);
    OneMorePhysical(c, limit, p, run, step);
  }

  lemma NoLimitNothingEvicted(c: Config, limit: Option<nat>, p: Physical, run: seq<Step>)
    requires AdmissibleRun(c, limit, p, run)
    ensures limit == None ==> NothingEvicted(run)
  {
    if limit == None {
      NoLimitNeverFull(c, p, Ops(run));
      NeverFullNeverEvicts(c, None, p, run);
    }
  }

  // A whole run of the cache gives the replies of the timed map, with admissible
  // evictions at every step; without a limit there are none.
  method PerformAll(cache: C.InMemoryCache, ops: seq<Op>) returns (replies: seq<Reply>, ghost run: seq<Step>)
    requires cache.Valid() && forall i :: 0 <= i < |ops| ==> WellFormed(ops[i])
    modifies cache
    ensures cache.Valid() && Ops(run) == ops
    ensures replies == Replies(ConfigOf(cache), old(WorldOf(cache)), run)
    ensures WorldOf(cache) == After(ConfigOf(cache), old(WorldOf(cache)), run)
    ensures PhysicalOf(cache) == PhysicalAfter(ConfigOf(cache), old(PhysicalOf(cache)), run)
    ensures AdmissibleRun(ConfigOf(cache), cache.maxItems, old(PhysicalOf(cache)), run)
    ensures cache.maxItems == None ==> NothingEvicted(run)
    ensures old(cache.WithinLimit()) && AllFit(cache.maxItems, ops) ==> cache.WithinLimit()
  {
    replies, run := [], [];
    ghost var c, p := ConfigOf(cache), PhysicalOf(cache);
    for n := 0 to |ops|
      invariant cache.Valid() && Ops(run) == ops[..n]
      invariant replies == Replies(c, View(p), run)
      invariant PhysicalOf(cache) == PhysicalAfter(c, p, run) && AdmissibleRun(c, cache.maxItems, p, run)
      invariant old(cache.WithinLimit()) && AllFit(cache.maxItems, ops[..n]) ==> cache.WithinLimit()
    {
      var reply, victims := Perform(cache, ops[n]);
      OneMorePerformed(c, cache.maxItems, p, run, Step(ops[n], victims));
      replies := replies + [reply];
      run := run + [Step(ops[n], victims)];
      OneMoreFits(cache.maxItems, ops, n);
    }
    assert ops[..|ops|] == ops;
    PhysicalRunIsTimed(c, p, run);
    NoLimitNothingEvicted(c, cache.maxItems, p, run);
  }

  // What was written last under every key and not removed since, as if nothing
  // were ever evicted or expired.
  function Latest(c: Config, w: World, run: seq<Step>): Entries {
    if run == [] then w.v
    else
      var before := run[..|run| - 1];
      Amend(Latest(c, w, before), ChangeBy(c, After(c, w, before), run[|run| - 1].op), {})
  }

  // Eviction only turns hits into misses: whatever is visible is the latest
  // written under its key. Without eviction exactly the unexpired latest is.
  lemma {:induction false} OnlyLatestVisible(c: Config, w: World, run: seq<Step>)
    requires Settled(w)
    ensures var end := After(c, w, run);
      && Settled(end)
      && (forall k :: k in end.v ==> k in Latest(c, w, run) && Latest(c, w, run)[k] == end.v[k])
      && (NothingEvicted(run) ==> end.v == Live(Latest(c, w, run), Seconds(end.clock)))
  {
    if run != [] {
      var n := |run| - 1;
      OnlyLatestVisible(c, w, run[..n]);
      assert NothingEvicted(run) ==> NothingEvicted(run[..n]);
      LatestStep(c, After(c, w, run[..n]), Latest(c, w, run[..n]), run[n]);
    }
  }

  lemma LatestStep(c: Config, w: World, latest: Entries, step: Step)
    requires forall k :: k in w.v ==> k in latest && latest[k] == w.v[k]
    ensures var w' := Next(c, w, step.op, step.victims);
      var latest' := Amend(latest, ChangeBy(c, w, step.op), {});
      && Settled(w')
      && (forall k :: k in w'.v ==> k in latest' && latest'[k] == w'.v[k])
      && (step.victims == {} && w.v == Live(latest, Seconds(w.clock)) ==> w'.v == Live(latest', Seconds(w'.clock)))
  {
    var change, w' := ChangeBy(c, w, step.op), Next(c, w, step.op, step.victims);
    LiveLater(Amend(w.v, change, step.victims), Seconds(w'.clock), Seconds(w'.clock));
    if step.victims == {} && w.v == Live(latest, Seconds(w.clock)) {
      if step.op.Tick? {
        LiveLater(latest, Seconds(w.clock), Seconds(w'.clock));
        assert Amend(latest, change, {}) == latest && Amend(w.v, change, {}) == w.v;
      } else {
        LiveAmend(latest, change, {}, Seconds(w.clock));
      }
    }
  }
}
