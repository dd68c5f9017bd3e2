/**
 What callers of the cache can rely on, said in terms of replies only: what a
 later Get answers after every kind of write, removal and lapse of time.
 */
module CacheLaws {
  import opened Prelude
  import opened TimedMap
  import opened CacheRuns
  import Decimal
  import C = InMemoryCache
  import L = LockRuns

  // No step of the run touches what is stored under p, locks included.
  ghost predicate Spares(c: Config, run: seq<Step>, p: string) {
    forall i :: 0 <= i < |run| ==> SparesStep(c, run[i], p)
  }

  predicate SparesStep(c: Config, step: Step, p: string) {
    && !L.Disturbs(c, step.op, p) && p !in step.victims
    && (step.op.Lock? || step.op.Unlock? ==> C.LockKey(c.namespace, step.op.key) != p)
  }

  // An entry that nobody touches stays until its expiry second.
  lemma {:induction false} KeyLasts(c: Config, w: World, p: string, run: seq<Step>)
    requires Settled(w) && Spares(c, run, p)
    ensures var w' := After(c, w, run);
      && (p in w'.v <==> p in w.v && !Expired(w.v[p], Seconds(w'.clock)))
      && (p in w'.v ==> w'.v[p] == w.v[p])
  {
    if run != [] {
      var before, last := run[..|run| - 1], run[|run| - 1];
      assert forall i :: 0 <= i < |before| ==> before[i] == run[i];
      KeyLasts(c, w, p, before);
      L.ClockMonotone(c, After(c, w, before), last.op, last.victims);
      L.Untouched(c, After(c, w, before), last, p);
    } else {
      assert p in w.v <==> p in Live(w.v, Seconds(w.clock));
    }
  }

  // The moment from which a value written at `clock` with this time to live is no
  // longer there, in milliseconds: both fractions of a second are lost.
  function Gone(clock: nat, ttl: nat): int {
    clock + ttl - (clock % 1000 + ttl % 1000)
  }

  function TtlOf(c: Config, ttl: Option<nat>): nat {
    if ttl.Some? then ttl.value else c.defaultTtl
  }

  function Asked(c: Config, w: World, key: string): Option<Bytes> {
    match ReplyTo(c, w, Get(key)) case Value(v) => v case _ => None
  }

  // After a step that wrote this entry, and steps that spare it.
  lemma EntryLasts(c: Config, w: World, first: Step, p: string, value: Bytes, ttl: nat, run: seq<Step>)
    requires !first.op.Tick? && Spares(c, run, p)
    requires var w1 := Amend(w.v, ChangeBy(c, w, first.op), first.victims);
      p in w1 && w1[p] == NewEntry(value, Some(ttl), w.clock)
    ensures var later := After(c, w, [first] + run);
      Lookup(later.v, p) == if later.clock < Gone(w.clock, ttl) then Some(value) else None
  {
    var w' := Next(c, w, first.op, first.victims);
    assert ([first])[..0] == [];
    assert After(c, w, [first]) == w';
    L.AfterConcat(c, w, [first], run);
    L.SettledAfter(c, w, [first]);
    KeyLasts(c, w', p, run);
    L.ClockNeverGoesBack(c, w', run);
    var later := After(c, w', run);
    Lifetime(value, ttl, w.clock, w.clock);
    Lifetime(value, ttl, w.clock, later.clock);
    assert p in w'.v <==> !Expired(NewEntry(value, Some(ttl), w.clock), Seconds(w.clock));
  }

  // A value that was set is answered until it is gone, and never after.
  lemma GetAfterSet(c: Config, w: World, key: string, value: Bytes, ttl: Option<nat>, victims: set<string>, run: seq<Step>)
    requires Spares(c, run, PrefixedBy(c, key))
    ensures var later := After(c, w, [Step(Set(key, value, ttl), victims)] + run);
      ReplyTo(c, later, Get(key)) == if later.clock < Gone(w.clock, TtlOf(c, ttl)) then Value(Some(value)) else Value(None)
  {
    EntryLasts(c, w, Step(Set(key, value, ttl), victims), PrefixedBy(c, key), value, TtlOf(c, ttl), run);
  }

  lemma GetAfterSetNx(c: Config, w: World, key: string, value: Bytes, ttl: Option<nat>, victims: set<string>, run: seq<Step>)
    requires Spares(c, run, PrefixedBy(c, key)) && ReplyTo(c, w, SetNx(key, value, ttl)) == Flag(true)
    ensures var later := After(c, w, [Step(SetNx(key, value, ttl), victims)] + run);
      ReplyTo(c, later, Get(key)) == if later.clock < Gone(w.clock, TtlOf(c, ttl)) then Value(Some(value)) else Value(None)
  {
    EntryLasts(c, w, Step(SetNx(key, value, ttl), victims), PrefixedBy(c, key), value, TtlOf(c, ttl), run);
  }

  lemma GetAfterSetMany(c: Config, w: World, items: seq<(string, Bytes)>, i: nat, ttl: Option<nat>, victims: set<string>, run: seq<Step>)
    requires i < |items| && C.DistinctKeys(items) && Spares(c, run, PrefixedBy(c, items[i].0))
    ensures var later := After(c, w, [Step(SetMany(items, ttl), victims)] + run);
      ReplyTo(c, later, Get(items[i].0)) ==
        if later.clock < Gone(w.clock, TtlOf(c, ttl)) then Value(Some(items[i].1)) else Value(None)
  {
    var p := PrefixedBy(c, items[i].0);
    C.ItemsArePresent(map[], c.namespace, items, if ttl.Some? then ttl else Some(c.defaultTtl), w.clock, p);
    EntryLasts(c, w, Step(SetMany(items, ttl), victims), p, items[i].1, TtlOf(c, ttl), run);
  }

  // get_set answers what a get would have, and sets with the default time.
  lemma GetAfterGetSet(c: Config, w: World, key: string, value: Bytes, victims: set<string>, run: seq<Step>)
    requires Spares(c, run, PrefixedBy(c, key))
    ensures ReplyTo(c, w, GetSet(key, value)) == ReplyTo(c, w, Get(key))
    ensures var later := After(c, w, [Step(GetSet(key, value), victims)] + run);
      ReplyTo(c, later, Get(key)) == if later.clock < Gone(w.clock, c.defaultTtl) then Value(Some(value)) else Value(None)
  {
    EntryLasts(c, w, Step(GetSet(key, value), victims), PrefixedBy(c, key), value, c.defaultTtl, run);
  }

  // The number that a get's answer stands for.
  function Counted(answer: Option<Bytes>): int {
    if answer.Some? && Decimal.Parse(answer.value).Some? then Decimal.Parse(answer.value).value else 0
  }

  lemma CountReplies(c: Config, w: World, key: string, delta: int)
    ensures var sum := Counted(Asked(c, w, key)) + delta;
      ReplyTo(c, w, Increment(key, delta)) == Number(if Decimal.IsI64(sum) then Some(sum) else None)
    ensures var difference := Counted(Asked(c, w, key)) - delta;
      ReplyTo(c, w, Decrement(key, delta)) ==
        Number(if delta != Decimal.I64_MIN && Decimal.IsI64(difference) then Some(difference) else None)
  {}

  lemma GetAfterCount(c: Config, w: World, op: Op, n: int, victims: set<string>, run: seq<Step>)
    requires (op.Increment? || op.Decrement?) && ReplyTo(c, w, op) == Number(Some(n))
    requires Spares(c, run, PrefixedBy(c, op.key))
    ensures var later := After(c, w, [Step(op, victims)] + run);
      ReplyTo(c, later, Get(op.key)) ==
        if later.clock < Gone(w.clock, c.defaultTtl) then Value(Some(Decimal.Print(n))) else Value(None)
  {
    EntryLasts(c, w, Step(op, victims), PrefixedBy(c, op.key), Decimal.Print(n), c.defaultTtl, run);
  }

  // An overflow changes nothing.
  lemma OverflowKeeps(c: Config, w: World, op: Op, victims: set<string>)
    requires (op.Increment? || op.Decrement?) && ReplyTo(c, w, op) == Number(None) && Settled(w)
    ensures Next(c, w, op, victims) == w
  {
    Kept(c, w, op, victims);
  }

  // The other ways to look agree with get.
  lemma LooksAgree(c: Config, w: World, key: string, keys: seq<string>, value: Bytes, ttl: Option<nat>)
    ensures ReplyTo(c, w, Exists(key)) == Flag(Asked(c, w, key).Some?)
    ensures ReplyTo(c, w, SetNx(key, value, ttl)) == Flag(Asked(c, w, key) == None)
    ensures ReplyTo(c, w, GetMany(keys)).Values?
    ensures var m := ReplyTo(c, w, GetMany(keys)).values;
      (key in m <==> key in keys && Asked(c, w, key).Some?) && (key in m ==> Some(m[key]) == Asked(c, w, key))
  {}

  // A look, a purge and a refused set_nx change nothing.
  lemma LooksChangeNothing(c: Config, w: World, op: Op, victims: set<string>)
    requires Settled(w)
    requires op.Get? || op.Exists? || op.GetMany? || op.Purge? || (op.SetNx? && ReplyTo(c, w, op) == Flag(false))
    ensures Next(c, w, op, victims) == w
  {
    Kept(c, w, op, victims);
  }

  // Removal: nothing is answered for what was removed or evicted ...
  lemma RemovedIsGone(c: Config, w: World, key: string, op: Op, victims: set<string>)
    requires || op == Delete(key) || (op.DeleteMany? && key in op.keys) || op.Flush?
             || (op.Clear? && (if op.ns == None then c.namespace == None
                               else op.ns.value + ":" <= PrefixedBy(c, key)))
             || (op.Clear? && op.ns == None)
             || (op.Set? && PrefixedBy(c, op.key) != PrefixedBy(c, key) && PrefixedBy(c, key) in victims)
    ensures ReplyTo(c, Next(c, w, op, victims), Get(key)) == Value(None)
  {
    if op.DeleteMany? {
      InPrefixed(c.namespace, op.keys, key);
    }
    if op.Clear? && op.ns == None && c.namespace.Some? {
      assert PrefixedBy(c, key)[..|c.namespace.value| + 1] == c.namespace.value + ":";
    }
    assert PrefixedBy(c, key) !in Amend(w.v, ChangeBy(c, w, op), victims);
  }

  lemma {:induction false} InPrefixed(namespace: Option<string>, keys: seq<string>, key: string)
    ensures key in keys <==> C.PrefixKey(namespace, key) in C.PrefixedKeys(namespace, keys)
  {
    if keys != [] {
      var last := keys[|keys| - 1];
      InPrefixed(namespace, keys[..|keys| - 1], key);
      C.PrefixInjective(namespace, key, last);
    }
  }

  // ... and everything else is answered as before.
  lemma OthersAreKept(c: Config, w: World, key: string, step: Step)
    requires Settled(w) && !step.op.Tick? && SparesStep(c, step, PrefixedBy(c, key))
    ensures ReplyTo(c, Next(c, w, step.op, step.victims), Get(key)) == ReplyTo(c, w, Get(key))
  {
    var p := PrefixedBy(c, key);
    L.Untouched(c, w, step, p);
    assert p in w.v ==> p in Live(w.v, Seconds(w.clock));
  }

  // Which operations touch which keys.
  lemma SparedKeys(c: Config, key: string, other: string, value: Bytes, ttl: Option<nat>, delta: int, keys: seq<string>, ns: string)
    requires other != key
    ensures SparesStep(c, Step(Set(other, value, ttl), {}), PrefixedBy(c, key))
    ensures SparesStep(c, Step(SetNx(other, value, ttl), {}), PrefixedBy(c, key))
    ensures SparesStep(c, Step(GetSet(other, value), {}), PrefixedBy(c, key))
    ensures SparesStep(c, Step(Increment(other, delta), {}), PrefixedBy(c, key))
    ensures SparesStep(c, Step(Decrement(other, delta), {}), PrefixedBy(c, key))
    ensures SparesStep(c, Step(Delete(other), {}), PrefixedBy(c, key))
    ensures key !in keys ==> SparesStep(c, Step(DeleteMany(keys), {}), PrefixedBy(c, key))
    ensures !(ns + ":" <= PrefixedBy(c, key)) ==> SparesStep(c, Step(Clear(Some(ns)), {}), PrefixedBy(c, key))
    ensures "lock:" + other != key ==> SparesStep(c, Step(Lock(other, 0, value), {}), PrefixedBy(c, key))
    ensures "lock:" + other != key ==> SparesStep(c, Step(Unlock(other, value), {}), PrefixedBy(c, key))
  {
    C.PrefixInjective(c.namespace, key, other);
    C.PrefixInjective(c.namespace, key, "lock:" + other);
    InPrefixed(c.namespace, keys, key);
  }

  // A lock is a value under "lock:" and its name.
  lemma LocksAreValues(c: Config, w: World, key: string, ttl: nat, token: Bytes)
    ensures ReplyTo(c, w, Lock(key, ttl, token)) == Value(if Asked(c, w, "lock:" + key) == None then Some(token) else None)
    ensures ReplyTo(c, w, Unlock(key, token)) == Flag(Asked(c, w, "lock:" + key) == Some(token))
  {}

  lemma GetAfterLock(c: Config, w: World, key: string, ttl: nat, token: Bytes, victims: set<string>, run: seq<Step>)
    requires ReplyTo(c, w, Lock(key, ttl, token)) == Value(Some(token))
    requires Spares(c, run, PrefixedBy(c, "lock:" + key))
    ensures var later := After(c, w, [Step(Lock(key, ttl, token), victims)] + run);
      ReplyTo(c, later, Get("lock:" + key)) == if later.clock < Gone(w.clock, ttl) then Value(Some(token)) else Value(None)
  {
    EntryLasts(c, w, Step(Lock(key, ttl, token), victims), PrefixedBy(c, "lock:" + key), token, ttl, run);
  }

  lemma GetAfterUnlock(c: Config, w: World, key: string, token: Bytes, victims: set<string>)
    requires Settled(w)
    ensures ReplyTo(c, w, Unlock(key, token)) == Flag(true) ==>
              ReplyTo(c, Next(c, w, Unlock(key, token), victims), Get("lock:" + key)) == Value(None)
    ensures ReplyTo(c, w, Unlock(key, token)) == Flag(false) ==> Next(c, w, Unlock(key, token), victims) == w
  {
    if ReplyTo(c, w, Unlock(key, token)) == Flag(false) {
      Kept(c, w, Unlock(key, token), victims);
    }
  }
}
