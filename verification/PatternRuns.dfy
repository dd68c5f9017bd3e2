/**
 Reading through the cache and writing through it when calls overlap. Every
 await of the two patterns ends a step: a read looks into the cache, then fetches
 from the source, then puts what it fetched into the cache; a write stores at the
 source, then puts. Steps of any number of calls come in any order, with other
 callers, eviction, expiry and failures of the source in between.
 */
module PatternRuns {
  import opened Prelude
  import opened TimedMap
  import opened CacheRuns
  import opened CachePatterns
  import C = InMemoryCache
  import L = LockRuns

  // What a call that has been at the source will put into the cache.
  datatype Pending<T> = Pending(value: T, ttl: Option<nat>)

  datatype Sys<T> = Sys(world: World, value: T, up: bool, missed: set<nat>, pending: map<nat, Pending<T>>)

  // Calls have numbers.
  datatype Event<T> =
    | Look(t: nat)                                    // cache_aside: the cache
    | Fetch(t: nat, ttl: Option<nat>)                 // cache_aside: the source, after a miss
    | Store(t: nat, newValue: T, ttl: Option<nat>)    // write_through: the source
    | Put(t: nat, victims: set<string>)               // both: the cache
    | Elsewhere(step: Step)                           // anybody else at the cache
    | Switch(up: bool)                                // the source fails or recovers

  function Hit<T>(c: Config, codec: Codec<T>, s: Sys<T>, key: string): Option<T> {
    Cached(codec, s.world.v, PrefixedBy(c, key))
  }

  predicate Enabled<T>(c: Config, s: Sys<T>, key: string, e: Event<T>) {
    match e
    case Look(t) => t !in s.missed && t !in s.pending
    case Fetch(t, _) => t in s.missed && t !in s.pending
    case Store(t, _, _) => t !in s.missed && t !in s.pending
    case Put(t, _) => t in s.pending
    case Elsewhere(step) => LeavesEntry(c, step, key)
    case Switch(_) => true
  }

  function AfterEvent<T>(c: Config, codec: Codec<T>, s: Sys<T>, key: string, e: Event<T>): Sys<T> {
    match e
    case Look(t) => if Hit(c, codec, s, key).Some? then s else s.(missed := s.missed + {t})
    case Fetch(t, ttl) =>
      if s.up then s.(missed := s.missed - {t}, pending := s.pending[t := Pending(s.value, ttl)])
      else s.(missed := s.missed - {t})
    case Store(t, v, ttl) => if s.up then s.(value := v, pending := s.pending[t := Pending(v, ttl)]) else s
    case Put(t, victims) =>
      if t !in s.pending then s
      else
        s.(world := Filled(c, codec, s.world, key, s.pending[t].value, s.pending[t].ttl, victims),
           pending := s.pending - {t})
    case Elsewhere(step) => s.(world := CacheRuns.Next(c, s.world, step.op, step.victims))
    case Switch(up) => s.(up := up)
  }

  function AfterEvents<T>(c: Config, codec: Codec<T>, s: Sys<T>, key: string, run: seq<Event<T>>): Sys<T> {
    if run == [] then s
    else AfterEvent(c, codec, AfterEvents(c, codec, s, key, run[..|run| - 1]), key, run[|run| - 1])
  }

  predicate IsRun<T>(c: Config, codec: Codec<T>, s: Sys<T>, key: string, run: seq<Event<T>>) {
    if run == [] then true
    else
      var before := run[..|run| - 1];
      IsRun(c, codec, s, key, before) && Enabled(c, AfterEvents(c, codec, s, key, before), key, run[|run| - 1])
  }

  // Nobody has begun, and the cache agrees with the source.
  ghost predicate Quiet<T>(c: Config, codec: Codec<T>, s: Sys<T>, key: string) {
    s.missed == {} && s.pending == map[] && Hit(c, codec, s, key) in {None, Some(s.value)}
  }

  // How long the run was right after call t was last at the source.
  function Since<T>(run: seq<Event<T>>, t: nat): nat {
    if run == [] then 0
    else
      var last := run[|run| - 1];
      if (last.Fetch? || last.Store?) && last.t == t then |run| else Since(run[..|run| - 1], t)
  }

  // The last step that changed the entry in the cache.
  function LastPut<T>(c: Config, codec: Codec<T>, s: Sys<T>, key: string, run: seq<Event<T>>): Option<nat> {
    if run == [] then None
    else
      var before, last := run[..|run| - 1], run[|run| - 1];
      var now := AfterEvents(c, codec, s, key, before);
      if last.Put? && last.t in now.pending && codec.encode(now.pending[last.t].value).Some? then Some(|before|)
      else LastPut(c, codec, s, key, before)
  }

  lemma {:induction false} LastPutIsPut<T>(c: Config, codec: Codec<T>, s: Sys<T>, key: string, run: seq<Event<T>>)
    ensures LastPut(c, codec, s, key, run).Some? ==>
              LastPut(c, codec, s, key, run).value < |run| && run[LastPut(c, codec, s, key, run).value].Put?
  {
    if run != [] {
      LastPutIsPut(c, codec, s, key, run[..|run| - 1]);
    }
  }

  // When the call of that step was at the source; the start, if there was none.
  function Origin<T>(c: Config, codec: Codec<T>, s: Sys<T>, key: string, run: seq<Event<T>>): nat {
    match LastPut(c, codec, s, key, run)
    case Some(n) => if n < |run| && run[n].Put? then Since(run[..n], run[n].t) else 0
    case None => 0
  }

  // Step j stores a value at the source.
  predicate StoresAt<T>(c: Config, codec: Codec<T>, s: Sys<T>, key: string, run: seq<Event<T>>, j: nat)
    requires j < |run|
  {
    run[j].Store? && AfterEvents(c, codec, s, key, run[..j]).up
  }

  lemma {:induction false} SinceInRun<T>(run: seq<Event<T>>, t: nat)
    ensures Since(run, t) <= |run|
  {
    if run != [] {
      SinceInRun(run[..|run| - 1], t);
    }
  }

  // A pending value is what the source held when its call was there.
  lemma {:induction false} PendingProvenance<T>(c: Config, codec: Codec<T>, s: Sys<T>, key: string, run: seq<Event<T>>, t: nat)
    requires s.pending == map[] && IsRun(c, codec, s, key, run) && t in AfterEvents(c, codec, s, key, run).pending
    ensures Since(run, t) <= |run|
    ensures AfterEvents(c, codec, s, key, run).pending[t].value == AfterEvents(c, codec, s, key, run[..Since(run, t)]).value
  {
    SinceInRun(run, t);
    if run != [] {
      var before, last := run[..|run| - 1], run[|run| - 1];
      if (last.Fetch? || last.Store?) && last.t == t {
        assert run[..|run|] == run;
      } else {
        PendingProvenance(c, codec, s, key, before, t);
        assert before[..Since(before, t)] == run[..Since(run, t)];
      }
    }
  }

  lemma PutProvenance<T(!new)>(c: Config, codec: Codec<T>, s: Sys<T>, key: string, before: seq<Event<T>>, put: Event<T>)
    requires Lawful(codec) && s.pending == map[] && IsRun(c, codec, s, key, before)
    requires put.Put? && put.t in AfterEvents(c, codec, s, key, before).pending
    requires codec.encode(AfterEvents(c, codec, s, key, before).pending[put.t].value).Some?
    ensures Since(before, put.t) <= |before|
    ensures Hit(c, codec, AfterEvent(c, codec, AfterEvents(c, codec, s, key, before), key, put), key)
         in {None, Some(AfterEvents(c, codec, s, key, before[..Since(before, put.t)]).value)}
  {
    var now := AfterEvents(c, codec, s, key, before);
    PendingProvenance(c, codec, s, key, before, put.t);
    SetIsCached(c, codec, now.world, key, now.pending[put.t].value, now.pending[put.t].ttl, put.victims);
  }

  // What the cache holds was at the source when the call that put it there was.
  lemma {:induction false} HitProvenance<T(!new)>(c: Config, codec: Codec<T>, s: Sys<T>, key: string, run: seq<Event<T>>)
    requires Lawful(codec) && Quiet(c, codec, s, key) && IsRun(c, codec, s, key, run)
    ensures Origin(c, codec, s, key, run) <= |run|
    ensures Hit(c, codec, AfterEvents(c, codec, s, key, run), key)
         in {None, Some(AfterEvents(c, codec, s, key, run[..Origin(c, codec, s, key, run)]).value)}
  {
    if run != [] {
      var before, last := run[..|run| - 1], run[|run| - 1];
      HitProvenance(c, codec, s, key, before);
      var now := AfterEvents(c, codec, s, key, before);
      if last.Put? && codec.encode(now.pending[last.t].value).Some? {
        PutProvenance(c, codec, s, key, before, last);
        assert Origin(c, codec, s, key, run) == Since(before, last.t);
        assert before[..Since(before, last.t)] == run[..Since(before, last.t)];
      } else {
        SameOrigin(c, codec, s, key, run);
        if last.Elsewhere? {
          OtherOnlyRemoves(c, codec, now.world, key, last.step);
        }
      }
    }
  }

  lemma SameOrigin<T>(c: Config, codec: Codec<T>, s: Sys<T>, key: string, run: seq<Event<T>>)
    requires run != []
    requires LastPut(c, codec, s, key, run) == LastPut(c, codec, s, key, run[..|run| - 1])
    ensures var o := Origin(c, codec, s, key, run);
      && o == Origin(c, codec, s, key, run[..|run| - 1])
      && o <= |run| - 1
      && run[..|run| - 1][..o] == run[..o]
  {
    var before := run[..|run| - 1];
    LastPutIsPut(c, codec, s, key, before);
    var n := LastPut(c, codec, s, key, before);
    if n.Some? {
      assert before[..n.value] == run[..n.value] && before[n.value] == run[n.value];
      SinceInRun(run[..n.value], run[n.value].t);
    }
  }

  ghost predicate StoredWithin<T>(c: Config, codec: Codec<T>, s: Sys<T>, key: string, run: seq<Event<T>>, from: nat, to: nat) {
    exists j :: from <= j < to && j < |run| && StoresAt(c, codec, s, key, run, j)
  }

  lemma {:induction false} NothingStored<T>(c: Config, codec: Codec<T>, s: Sys<T>, key: string, run: seq<Event<T>>, from: nat)
    requires from <= |run| && !StoredWithin(c, codec, s, key, run, from, |run|)
    ensures AfterEvents(c, codec, s, key, run[..from]).value == AfterEvents(c, codec, s, key, run).value
  {
    if from == |run| {
      assert run[..from] == run;
    } else {
      var before := run[..|run| - 1];
      assert !StoresAt(c, codec, s, key, run, |run| - 1);
      forall j | from <= j < |before| ensures !StoresAt(c, codec, s, key, before, j) {
        assert before[..j] == run[..j];
        assert !StoresAt(c, codec, s, key, run, j);
      }
      NothingStored(c, codec, s, key, before, from);
      assert before[..from] == run[..from];
    }
  }

  // For every interleaving: a read that finds an entry returns the source's
  // value if and only if nothing was stored at the source since the call that
  // put the entry there was at the source itself, or the source holds that value
  // again.
  lemma ReadIsFreshIff<T(!new)>(c: Config, codec: Codec<T>, s: Sys<T>, key: string, run: seq<Event<T>>)
    requires Lawful(codec) && Quiet(c, codec, s, key) && IsRun(c, codec, s, key, run)
    ensures var now, o := AfterEvents(c, codec, s, key, run), Origin(c, codec, s, key, run);
      && o <= |run|
      && (Hit(c, codec, now, key).Some? ==>
           (Hit(c, codec, now, key) == Some(now.value)
            <==> !StoredWithin(c, codec, s, key, run, o, |run|)
                 || AfterEvents(c, codec, s, key, run[..o]).value == now.value))
  {
    HitProvenance(c, codec, s, key, run);
    var o := Origin(c, codec, s, key, run);
    if !StoredWithin(c, codec, s, key, run, o, |run|) {
      NothingStored(c, codec, s, key, run, o);
    }
  }

  // A store whose value serializes is pending until some put follows it.
  lemma {:induction false} StoreThenPut<T>(c: Config, codec: Codec<T>, s: Sys<T>, key: string, run: seq<Event<T>>, j: nat)
    requires IsRun(c, codec, s, key, run) && j < |run| && StoresAt(c, codec, s, key, run, j)
    requires codec.encode(run[j].newValue).Some?
    ensures var now, put := AfterEvents(c, codec, s, key, run), LastPut(c, codec, s, key, run);
      || (run[j].t in now.pending && now.pending[run[j].t].value == run[j].newValue)
      || (put.Some? && j < put.value < |run|)
  {
    var before, last := run[..|run| - 1], run[|run| - 1];
    LastPutIsPut(c, codec, s, key, run);
    if j < |before| {
      assert before[..j] == run[..j];
      StoreThenPut(c, codec, s, key, before, j);
    } else {
      assert run[..j] == before;
    }
  }

  // A store came between the last putting call's own visit to the source and its
  // put.
  ghost predicate Overtaken<T>(c: Config, codec: Codec<T>, s: Sys<T>, key: string, run: seq<Event<T>>) {
    var put := LastPut(c, codec, s, key, run);
    put.Some? && StoredWithin(c, codec, s, key, run, Origin(c, codec, s, key, run), put.value)
  }

  lemma OvertakenIff<T>(c: Config, codec: Codec<T>, s: Sys<T>, key: string, run: seq<Event<T>>)
    requires IsRun(c, codec, s, key, run) && AfterEvents(c, codec, s, key, run).pending == map[]
    requires forall j :: 0 <= j < |run| && StoresAt(c, codec, s, key, run, j) ==> codec.encode(run[j].newValue).Some?
    ensures StoredWithin(c, codec, s, key, run, Origin(c, codec, s, key, run), |run|)
       <==> Overtaken(c, codec, s, key, run)
  {
    var put, o := LastPut(c, codec, s, key, run), Origin(c, codec, s, key, run);
    LastPutIsPut(c, codec, s, key, run);
    if StoredWithin(c, codec, s, key, run, o, |run|) {
      var j :| o <= j < |run| && StoresAt(c, codec, s, key, run, j);
      StoreThenPut(c, codec, s, key, run, j);
      assert run[j].Store? && run[put.value].Put?;
    }
  }

  // Once every call has ended, and everything stored serializes: a read that
  // finds an entry returns the source's value if and only if no store overtook
  // the call that put it there, or the source holds that value again.
  lemma QuietReadIsFreshIff<T(!new)>(c: Config, codec: Codec<T>, s: Sys<T>, key: string, run: seq<Event<T>>)
    requires Lawful(codec) && Quiet(c, codec, s, key) && IsRun(c, codec, s, key, run)
    requires AfterEvents(c, codec, s, key, run).pending == map[]
    requires forall j :: 0 <= j < |run| && StoresAt(c, codec, s, key, run, j) ==> codec.encode(run[j].newValue).Some?
    ensures var now, o := AfterEvents(c, codec, s, key, run), Origin(c, codec, s, key, run);
      && o <= |run|
      && (Hit(c, codec, now, key).Some? ==>
           (Hit(c, codec, now, key) == Some(now.value)
            <==> !Overtaken(c, codec, s, key, run) || AfterEvents(c, codec, s, key, run[..o]).value == now.value))
  {
    ReadIsFreshIff(c, codec, s, key, run);
    OvertakenIff(c, codec, s, key, run);
  }

  lemma EventAt<T>(c: Config, codec: Codec<T>, s: Sys<T>, key: string, run: seq<Event<T>>, n: nat)
    requires n < |run|
    ensures AfterEvents(c, codec, s, key, run[..n + 1])
         == AfterEvent(c, codec, AfterEvents(c, codec, s, key, run[..n]), key, run[n])
    ensures IsRun(c, codec, s, key, run[..n + 1]) <==>
            IsRun(c, codec, s, key, run[..n]) && Enabled(c, AfterEvents(c, codec, s, key, run[..n]), key, run[n])
  {
    assert run[..n + 1][..n] == run[..n];
  }

  // A call that nothing comes between is the call as a whole.
  function EventsOf<T>(c: Config, codec: Codec<T>, s: Pair<T>, key: string, call: Call<T>): seq<Event<T>> {
    match call
    case Aside(ttl, victims) =>
      if Cached(codec, s.world.v, PrefixedBy(c, key)).Some? then [Look(0)]
      else if !s.up then [Look(0), Fetch(0, ttl)]
      else [Look(0), Fetch(0, ttl), Event.Put(0, victims)]
    case Through(value, ttl, victims) =>
      if s.up then [Store(0, value, ttl), Event.Put(0, victims)] else [Store(0, value, ttl)]
    case Other(step) => [Elsewhere(step)]
    case Switch(up) => [Event.Switch(up)]
  }

  function AtRest<T>(s: Pair<T>): Sys<T> {
    Sys(s.world, s.value, s.up, {}, map[])
  }

  lemma CallIsRun<T>(c: Config, codec: Codec<T>, s: Pair<T>, key: string, call: Call<T>)
    requires call.Other? ==> LeavesEntry(c, call.step, key)
    ensures IsRun(c, codec, AtRest(s), key, EventsOf(c, codec, s, key, call))
    ensures AfterEvents(c, codec, AtRest(s), key, EventsOf(c, codec, s, key, call))
         == AtRest(AfterCall(c, codec, s, key, call))
  {
    var run, start := EventsOf(c, codec, s, key, call), AtRest(s);
    EventAt(c, codec, start, key, run, 0);
    if |run| > 1 {
      EventAt(c, codec, start, key, run, 1);
    }
    if |run| > 2 {
      EventAt(c, codec, start, key, run, 2);
    }
    assert run[..|run|] == run;
  }

  // The two ways to be overtaken. A read fetches, a write goes through, the read
  // puts what it fetched ...
  lemma FetchOvertaken<T>(c: Config, codec: Codec<T>, s: Pair<T>, key: string, written: T, ttl: nat)
    requires s.up && Cached(codec, s.world.v, PrefixedBy(c, key)) == None
    requires codec.encode(s.value).Some? && codec.decode(codec.encode(s.value).value) == Some(s.value)
    requires ttl >= 1000
    ensures var run := [Look(0), Fetch(0, Some(ttl)), Store(1, written, Some(ttl)), Event.Put(1, {}), Event.Put(0, {})];
      var end := AfterEvents(c, codec, AtRest(s), key, run);
      && IsRun(c, codec, AtRest(s), key, run)
      && end.pending == map[] && end.value == written && Hit(c, codec, end, key) == Some(s.value)
  {
    var start := AtRest(s);
    var run := [Look(0), Fetch(0, Some(ttl)), Store(1, written, Some(ttl)), Event.Put(1, {}), Event.Put(0, {})];
    EventAt(c, codec, start, key, run, 0);
    assert AfterEvents(c, codec, start, key, run[..1]) == start.(missed := {0});
    EventAt(c, codec, start, key, run, 1);
    var p := Pending(s.value, Some(ttl));
    assert AfterEvents(c, codec, start, key, run[..2]) == start.(pending := map[0 := p]);
    EventAt(c, codec, start, key, run, 2);
    assert AfterEvents(c, codec, start, key, run[..3])
        == start.(value := written, pending := map[0 := p, 1 := Pending(written, Some(ttl))]);
    EventAt(c, codec, start, key, run, 3);
    EventAt(c, codec, start, key, run, 4);
    assert run[..5] == run;
    var last := AfterEvents(c, codec, start, key, run[..4]);
    PutIsHit(c, codec, last.world, key, s.value, ttl);
  }

  // ... and two writes reach the source in one order and the cache in the other.
  lemma WritesCross<T>(c: Config, codec: Codec<T>, s: Pair<T>, key: string, first: T, second: T, ttl: nat)
    requires s.up
    requires codec.encode(first).Some? && codec.decode(codec.encode(first).value) == Some(first)
    requires ttl >= 1000
    ensures var run := [Store(0, first, Some(ttl)), Store(1, second, Some(ttl)), Event.Put(1, {}), Event.Put(0, {})];
      var end := AfterEvents(c, codec, AtRest(s), key, run);
      && IsRun(c, codec, AtRest(s), key, run)
      && end.pending == map[] && end.value == second && Hit(c, codec, end, key) == Some(first)
  {
    var start := AtRest(s);
    var run := [Store(0, first, Some(ttl)), Store(1, second, Some(ttl)), Event.Put(1, {}), Event.Put(0, {})];
    EventAt(c, codec, start, key, run, 0);
    EventAt(c, codec, start, key, run, 1);
    EventAt(c, codec, start, key, run, 2);
    EventAt(c, codec, start, key, run, 3);
    assert run[..4] == run;
    var last := AfterEvents(c, codec, start, key, run[..3]);
    PutIsHit(c, codec, last.world, key, first, ttl);
  }

  lemma PutIsHit<T>(c: Config, codec: Codec<T>, w: World, key: string, value: T, ttl: nat)
    requires codec.encode(value).Some? && codec.decode(codec.encode(value).value) == Some(value) && ttl >= 1000
    ensures Cached(codec, Filled(c, codec, w, key, value, Some(ttl), {}).v, PrefixedBy(c, key)) == Some(value)
  {
    var b := codec.encode(value).value;
    Wrote(c, w, Set(key, b, Some(ttl)), {}, PrefixedBy(c, key), CacheRuns.Fresh(c, w, b, Some(ttl)));
  }
}
