/**
 Patterns on top of the cache: reading through it to a source, and writing to
 both. One key and one value type; other keys and other callers of the cache are
 arbitrary steps of CacheRuns.
 */
module CachePatterns {
  import opened Prelude
  import opened TimedMap
  import opened CacheRuns
  import C = InMemoryCache
  import L = LockRuns
  import opened CacheLaws

  // JSON for most types, the raw bytes for strings.
  datatype Codec<!T> = Codec(encode: T -> Option<Bytes>, decode: Bytes -> Option<T>)

  // What is read back is what was written, if it can be read back at all.
  ghost predicate Lawful<T(!new)>(codec: Codec<T>) {
    forall v: T, b: Bytes :: codec.encode(v) == Some(b) ==> codec.decode(b) in {None, Some(v)}
  }

  datatype Error = FetchFailed | StoreFailed | NotSerializable

  // The source of the values; it answers while it is up.
  class Source<T> {
    var value: T
    var up: bool
    var fetches: nat

    constructor (value: T)
      ensures this.value == value && up && fetches == 0
    {
      this.value, up, fetches := value, true, 0;
    }

    method Fetch() returns (r: Option<T>)
      modifies this`fetches
      ensures fetches == old(fetches) + 1 && r == if up then Some(value) else None
    {
      fetches := fetches + 1;
      r := if up then Some(value) else None;
    }

    method Store(v: T) returns (ok: bool)
      modifies this`value
      ensures ok == up && value == if up then v else old(value)
    {
      if up {
        value := v;
      }
      ok := up;
    }
  }

  // The live, decodable value under a key.
  function Cached<T>(codec: Codec<T>, v: Entries, p: string): Option<T> {
    if p in v then codec.decode(v[p].value) else None
  }

  // The cache together with the source.
  datatype Pair<T> = Pair(world: World, value: T, up: bool)

  datatype Call<T> =
    | Aside(ttl: Option<nat>, victims: set<string>)
    | Through(newValue: T, ttl: Option<nat>, victims: set<string>)
    | Other(step: Step)
    | Switch(up: bool)

  function AsideResult<T>(c: Config, codec: Codec<T>, s: Pair<T>, key: string): Result<T, Error> {
    match Cached(codec, s.world.v, PrefixedBy(c, key))
    case Some(v) => Ok(v)
    case None =>
      if !s.up then Err(FetchFailed)
      else if codec.encode(s.value) == None then Err(NotSerializable)
      else Ok(s.value)
  }

  // The cache after trying to store a value.
  function Filled<T>(c: Config, codec: Codec<T>, w: World, key: string, value: T, ttl: Option<nat>, victims: set<string>): World {
    match codec.encode(value)
    case Some(b) => Next(c, w, Set(key, b, ttl), victims)
    case None => w
  }

  function AfterAside<T>(c: Config, codec: Codec<T>, s: Pair<T>, key: string, ttl: Option<nat>, victims: set<string>): World {
    if Cached(codec, s.world.v, PrefixedBy(c, key)).Some? || !s.up then s.world
    else Filled(c, codec, s.world, key, s.value, ttl, victims)
  }

  function ThroughResult<T>(codec: Codec<T>, up: bool, value: T): Result<(), Error> {
    if !up then Err(StoreFailed)
    else if codec.encode(value) == None then Err(NotSerializable)
    else Ok(())
  }

  ghost function PairOf<T>(cache: C.InMemoryCache, source: Source<T>): Pair<T>
    reads cache, source
  {
    Pair(WorldOf(cache), source.value, source.up)
  }

  // The bytes are in the map, to expire after the given time to live or else the
  // default one, of which whole seconds count.
  ghost predicate Stored(cache: C.InMemoryCache, key: string, b: Bytes, ttl: Option<nat>)
    reads cache
  {
    && cache.Key(key) in cache.cache
    && cache.cache[cache.Key(key)].value == b
    && cache.cache[cache.Key(key)].expiresAt ==
         Some(cache.clock / 1000 + (if ttl.Some? then ttl.value else cache.defaultTtl) / 1000)
  }

  // The last step of both patterns.
  method PutInto(cache: C.InMemoryCache, key: string, b: Bytes, ttl: Option<nat>) returns (ghost victims: set<string>)
    requires cache.Valid()
    modifies cache
    ensures cache.Valid() && Stored(cache, key, b, ttl)
    ensures WorldOf(cache) == Next(ConfigOf(cache), old(WorldOf(cache)), Set(key, b, ttl), victims)
    ensures cache.maxItems == None ==> victims == {}
  {
    ghost var c, w := ConfigOf(cache), WorldOf(cache);
    victims := cache.Set(key, b, ttl);
    Wrote(c, w, Set(key, b, ttl), victims, cache.Key(key), Fresh(c, w, b, ttl));
  }

  // Fetches exactly when no live decodable entry exists.
  method CacheAside<T>(cache: C.InMemoryCache, codec: Codec<T>, source: Source<T>, key: string, ttl: Option<nat>)
    returns (r: Result<T, Error>, ghost victims: set<string>)
    requires cache.Valid()
    modifies cache, source`fetches
    ensures cache.Valid() && r == AsideResult(ConfigOf(cache), codec, old(PairOf(cache, source)), key)
    ensures source.fetches ==
            old(source.fetches) + (if Cached(codec, old(cache.Visible()), cache.Key(key)).Some? then 0 else 1)
    ensures WorldOf(cache) == AfterAside(ConfigOf(cache), codec, old(PairOf(cache, source)), key, ttl, victims)
    ensures Cached(codec, old(cache.Visible()), cache.Key(key)) == None && source.up && codec.encode(source.value).Some? ==>
              Stored(cache, key, codec.encode(source.value).value, ttl)
    ensures cache.maxItems == None ==> victims == {}
  {
    victims := {};
    var data := cache.Get(key);
    if data.Some? {
      var value := codec.decode(data.value);
      if value.Some? {
        return Ok(value.value), {};
      }
    }
    var value := source.Fetch();
    if value == None {
      return Err(FetchFailed), {};
    }
    var serialized := codec.encode(value.value);
    if serialized == None {
      return Err(NotSerializable), {};
    }
    victims := PutInto(cache, key, serialized.value, ttl);
    r := Ok(value.value);
  }

  // The source first, then the cache; a value that does not serialize reaches
  // only the source.
  method WriteThrough<T>(cache: C.InMemoryCache, codec: Codec<T>, source: Source<T>, key: string, value: T, ttl: Option<nat>)
    returns (r: Result<(), Error>, ghost victims: set<string>)
    requires cache.Valid()
    modifies cache, source`value
    ensures cache.Valid() && r == ThroughResult(codec, source.up, value)
    ensures source.value == if source.up then value else old(source.value)
    ensures WorldOf(cache) == if source.up then Filled(ConfigOf(cache), codec, old(WorldOf(cache)), key, value, ttl, victims)
                              else old(WorldOf(cache))
    ensures source.up && codec.encode(value).Some? ==> Stored(cache, key, codec.encode(value).value, ttl)
    ensures cache.maxItems == None ==> victims == {}
  {
    victims := {};
    var stored := source.Store(value);
    if !stored {
      return Err(StoreFailed), {};
    }
    var serialized := codec.encode(value);
    if serialized == None {
      return Err(NotSerializable), {};
    }
    victims := PutInto(cache, key, serialized.value, ttl);
    r := Ok(());
  }

  // What was put into the cache is found until its time is over, and not after.
  lemma FoundUntilGone<T>(c: Config, codec: Codec<T>, w: World, key: string, value: T, ttl: Option<nat>,
                          victims: set<string>, run: seq<Step>)
    requires codec.encode(value).Some? && codec.decode(codec.encode(value).value) == Some(value)
    requires Spares(c, run, PrefixedBy(c, key))
    ensures var later := After(c, Filled(c, codec, w, key, value, ttl, victims), run);
      Cached(codec, later.v, PrefixedBy(c, key)) == if later.clock < Gone(w.clock, TtlOf(c, ttl)) then Some(value) else None
  {
    var first := Step(Set(key, codec.encode(value).value, ttl), victims);
    GetAfterSet(c, w, key, codec.encode(value).value, ttl, victims, run);
    assert [first][..0] == [];
    L.AfterConcat(c, w, [first], run);
    assert After(c, w, [first]) == Filled(c, codec, w, key, value, ttl, victims);
  }

  // Reads through the cache, lets others act, and reads again: as long as they
  // leave the key alone, the second read is answered from the cache until the
  // time is over, and asks the source again from then on.
  method ReadTwice<T(!new)>(cache: C.InMemoryCache, codec: Codec<T>, source: Source<T>, key: string, ttl: Option<nat>, ops: seq<Op>)
    returns (first: Result<T, Error>, second: Result<T, Error>, ghost run: seq<Step>)
    requires cache.Valid() && forall i :: 0 <= i < |ops| ==> WellFormed(ops[i])
    modifies cache, source`fetches
    ensures cache.Valid() && Ops(run) == ops
    ensures && Cached(codec, old(cache.Visible()), cache.Key(key)) == None
            && source.up && codec.encode(source.value).Some?
            && codec.decode(codec.encode(source.value).value) == Some(source.value)
            && Spares(ConfigOf(cache), run, cache.Key(key)) ==>
              && first == second == Ok(source.value)
              && source.fetches == old(source.fetches)
                   + (if cache.clock < Gone(old(cache.clock), TtlOf(ConfigOf(cache), ttl)) then 1 else 2)
  {
    ghost var c, w := ConfigOf(cache), WorldOf(cache);
    ghost var victims;
    first, victims := CacheAside(cache, codec, source, key, ttl);
    var replies;
    replies, run := PerformAll(cache, ops);
    ghost var later := WorldOf(cache);
    if codec.encode(source.value).Some? && codec.decode(codec.encode(source.value).value) == Some(source.value)
      && Spares(c, run, cache.Key(key))
    {
      FoundUntilGone(c, codec, w, key, source.value, ttl, victims, run);
    }
    second, victims := CacheAside(cache, codec, source, key, ttl);
    ClockKept(c, codec, Pair(later, source.value, source.up), key, ttl, victims);
  }

  lemma ClockKept<T>(c: Config, codec: Codec<T>, s: Pair<T>, key: string, ttl: Option<nat>, victims: set<string>)
    ensures AfterAside(c, codec, s, key, ttl, victims).clock == s.world.clock
  {}

  function AfterCall<T>(c: Config, codec: Codec<T>, s: Pair<T>, key: string, call: Call<T>): Pair<T> {
    match call
    case Aside(ttl, victims) => s.(world := AfterAside(c, codec, s, key, ttl, victims))
    case Through(value, ttl, victims) =>
      if s.up then s.(world := Filled(c, codec, s.world, key, value, ttl, victims), value := value) else s
    case Other(step) => s.(world := Next(c, s.world, step.op, step.victims))
    case Switch(up) => s.(up := up)
  }

  function AfterCalls<T>(c: Config, codec: Codec<T>, s: Pair<T>, key: string, calls: seq<Call<T>>): Pair<T> {
    if calls == [] then s
    else AfterCall(c, codec, AfterCalls(c, codec, s, key, calls[..|calls| - 1]), key, calls[|calls| - 1])
  }

  // The cache agrees with the source.
  ghost predicate Coherent<T>(c: Config, codec: Codec<T>, s: Pair<T>, key: string) {
    Cached(codec, s.world.v, PrefixedBy(c, key)) in {None, Some(s.value)}
  }

  // Only values that serialize are written through; others do not write the key.
  predicate Allowed<T>(c: Config, codec: Codec<T>, call: Call<T>, key: string) {
    match call
    case Through(value, _, _) => codec.encode(value).Some?
    case Other(step) => LeavesEntry(c, step, key)
    case _ => true
  }

  // Removing operations, and operations on other keys, leave the entry alone or
  // take it away; eviction may take it at any write.
  predicate LeavesEntry(c: Config, step: Step, key: string) {
    || step.op.Delete? || step.op.DeleteMany? || step.op.Clear? || step.op.Flush?
    || (&& !L.Disturbs(c, step.op, PrefixedBy(c, key))
        && (step.op.Lock? || step.op.Unlock? ==> C.LockKey(c.namespace, step.op.key) != PrefixedBy(c, key)))
  }

  lemma SetIsCached<T(!new)>(c: Config, codec: Codec<T>, w: World, key: string, value: T, ttl: Option<nat>, victims: set<string>)
    requires Lawful(codec) && codec.encode(value).Some?
    ensures Cached(codec, Filled(c, codec, w, key, value, ttl, victims).v, PrefixedBy(c, key)) in {None, Some(value)}
  {
    var b := codec.encode(value).value;
    Wrote(c, w, Set(key, b, ttl), victims, PrefixedBy(c, key), Fresh(c, w, b, ttl));
    assert codec.encode(value) == Some(b);
  }

  // A write through keeps cache and source together exactly when the value
  // serializes, or no other live value was cached, or nothing was written at all.
  lemma ThroughCoherentIff<T(!new)>(c: Config, codec: Codec<T>, s: Pair<T>, key: string, value: T, ttl: Option<nat>, victims: set<string>)
    requires Lawful(codec) && Coherent(c, codec, s, key)
    ensures Coherent(c, codec, AfterCall(c, codec, s, key, Through(value, ttl, victims)), key)
       <==> !s.up || codec.encode(value).Some?
            || Cached(codec, s.world.v, PrefixedBy(c, key)) == None || value == s.value
  {
    if s.up && codec.encode(value).Some? {
      SetIsCached(c, codec, s.world, key, value, ttl, victims);
    }
  }

  // Others only ever take the entry away.
  lemma OtherOnlyRemoves<T>(c: Config, codec: Codec<T>, w: World, key: string, step: Step)
    requires LeavesEntry(c, step, key)
    ensures var p := PrefixedBy(c, key);
      Cached(codec, Next(c, w, step.op, step.victims).v, p) in {None, Cached(codec, w.v, p)}
  {
    var p, w' := PrefixedBy(c, key), Next(c, w, step.op, step.victims);
    if !L.Disturbs(c, step.op, p) {
      L.Untouched(c, w, Step(step.op, step.victims - {p}), p);
      assert p in w'.v ==> p in w.v && w'.v[p] == w.v[p];
    }
  }

  lemma CallKeepsCoherent<T(!new)>(c: Config, codec: Codec<T>, s: Pair<T>, key: string, call: Call<T>)
    requires Lawful(codec) && Coherent(c, codec, s, key) && Allowed(c, codec, call, key)
    ensures Coherent(c, codec, AfterCall(c, codec, s, key, call), key)
  {
    match call
    case Aside(ttl, victims) =>
      if codec.encode(s.value).Some? {
        SetIsCached(c, codec, s.world, key, s.value, ttl, victims);
      }
    case Through(value, ttl, victims) => ThroughCoherentIff(c, codec, s, key, value, ttl, victims);
    case Other(step) => OtherOnlyRemoves(c, codec, s.world, key, step);
    case Switch(_) =>
  }

  // Over every run of calls that do not overlap, in which the source is only
  // written through the cache, reading through the cache gives the source's own
  // value, and fails only when nothing is cached and the source is down.
  lemma {:induction false} ReadsCurrentValue<T(!new)>(c: Config, codec: Codec<T>, s: Pair<T>, key: string, calls: seq<Call<T>>)
    requires Lawful(codec) && Coherent(c, codec, s, key)
    requires forall i :: 0 <= i < |calls| ==> Allowed(c, codec, calls[i], key)
    ensures var now := AfterCalls(c, codec, s, key, calls);
      && Coherent(c, codec, now, key)
      && (AsideResult(c, codec, now, key).Ok? ==> AsideResult(c, codec, now, key).value == now.value)
      && (codec.encode(s.value).Some? ==> codec.encode(now.value).Some?)
      && (codec.encode(s.value).Some? ==>
            (AsideResult(c, codec, now, key).Ok? <==> now.up || Cached(codec, now.world.v, PrefixedBy(c, key)).Some?))
  {
    if calls != [] {
      var before := calls[..|calls| - 1];
      ReadsCurrentValue(c, codec, s, key, before);
      CallKeepsCoherent(c, codec, AfterCalls(c, codec, s, key, before), key, calls[|calls| - 1]);
    }
  }
}
