/**
 Counters over whole runs of the cache: the text stored under a key behaves as a
 number with an expiry second, and as a running sum while it does not lapse.
 */
module CounterRuns {
  import opened Prelude
  import opened TimedMap
  import opened CacheRuns
  import Decimal
  import C = InMemoryCache
  import L = LockRuns

  // What an operation adds to the counter under key; decrementing by the
  // smallest i64 is an overflow, not an addition.
  function Addend(op: Op, key: string): Option<int> {
    match op
    case Increment(k, delta) => if k == key then Some(delta) else None
    case Decrement(k, delta) => if k == key && delta != Decimal.I64_MIN then Some(-delta) else None
    case _ => None
  }

  // Nothing but increments and decrements touches the counter, locks included.
  ghost predicate CountsOnly(c: Config, run: seq<Step>, key: string) {
    forall i :: 0 <= i < |run| ==> Leaves(c, run[i], key)
  }

  predicate Leaves(c: Config, step: Step, key: string) {
    var p := PrefixedBy(c, key);
    && p !in step.victims
    && (step.op.Increment? || step.op.Decrement? || !L.Disturbs(c, step.op, p))
    && (step.op.Lock? || step.op.Unlock? ==> C.LockKey(c.namespace, step.op.key) != p)
  }

  // A number that counts as zero from the second `until` on.
  datatype Tally = Tally(value: int, until: nat)

  function Bump(t: Tally, delta: int, now: nat, ttl: nat): Tally {
    var sum := (if now < t.until then t.value else 0) + delta;
    if Decimal.IsI64(sum) then Tally(sum, now + ttl) else t
  }

  function Tallied(c: Config, w: World, run: seq<Step>, key: string): Tally {
    if run == [] then Tally(0, 0)
    else
      var before, op := run[..|run| - 1], run[|run| - 1].op;
      var t := Tallied(c, w, before, key);
      match Addend(op, key)
      case Some(delta) => Bump(t, delta, Seconds(After(c, w, before).clock), Seconds(c.defaultTtl))
      case None => t
  }

  // The map holds the number, as text, until it lapses.
  ghost predicate Holds(c: Config, w: World, key: string, t: Tally) {
    var p := PrefixedBy(c, key);
    && Decimal.IsI64(t.value)
    && (p in w.v <==> Seconds(w.clock) < t.until)
    && (p in w.v ==> w.v[p].value == Decimal.Print(t.value) && w.v[p].expiresAt == Some(t.until))
  }

  lemma ReadsBack(c: Config, w: World, key: string, t: Tally)
    requires Holds(c, w, key, t)
    ensures C.CounterOf(Lookup(w.v, PrefixedBy(c, key))) == if Seconds(w.clock) < t.until then t.value else 0
  {
    Decimal.ParsesBackIff(t.value);
  }

  lemma ReplyToAddition(c: Config, w: World, op: Op, key: string, current: int)
    requires C.CounterOf(Lookup(w.v, PrefixedBy(c, key))) == current
    requires Addend(op, key).Some? && Decimal.IsI64(current + Addend(op, key).value)
    ensures ReplyTo(c, w, op) == Number(Some(current + Addend(op, key).value))
  {
    assert C.Sum(w.v, PrefixedBy(c, key), Addend(op, key).value) == Some(current + Addend(op, key).value);
  }

  lemma ChangeByAddition(c: Config, w: World, op: Op, key: string, current: int)
    requires C.CounterOf(Lookup(w.v, PrefixedBy(c, key))) == current && Addend(op, key).Some?
    ensures var sum := current + Addend(op, key).value;
      ChangeBy(c, w, op) == Stored(c, w, key, if Decimal.IsI64(sum) then Some(sum) else None)
  {
    var sum := current + Addend(op, key).value;
    assert C.Sum(w.v, PrefixedBy(c, key), Addend(op, key).value) == if Decimal.IsI64(sum) then Some(sum) else None;
  }

  lemma StoresNumber(c: Config, w: World, op: Op, victims: set<string>, key: string, n: int)
    requires !op.Tick? && Decimal.IsI64(n) && ChangeBy(c, w, op) == Stored(c, w, key, Some(n))
    ensures Holds(c, Next(c, w, op, victims), key, Tally(n, Seconds(w.clock) + Seconds(c.defaultTtl)))
  {
    Wrote(c, w, op, victims, PrefixedBy(c, key), Fresh(c, w, Decimal.Print(n), None));
  }

  lemma CountingStep(c: Config, w: World, step: Step, key: string, t: Tally, delta: int)
    requires Holds(c, w, key, t) && Settled(w) && Addend(step.op, key) == Some(delta)
    ensures Holds(c, Next(c, w, step.op, step.victims), key, Bump(t, delta, Seconds(w.clock), Seconds(c.defaultTtl)))
  {
    ReadsBack(c, w, key, t);
    var current := if Seconds(w.clock) < t.until then t.value else 0;
    ChangeByAddition(c, w, step.op, key, current);
    if Decimal.IsI64(current + delta) {
      StoresNumber(c, w, step.op, step.victims, key, current + delta);
    } else {
      Kept(c, w, step.op, step.victims);
    }
  }

  lemma OtherStep(c: Config, w: World, step: Step, key: string, t: Tally)
    requires Holds(c, w, key, t) && Settled(w) && Leaves(c, step, key) && Addend(step.op, key) == None
    ensures Holds(c, Next(c, w, step.op, step.victims), key, t)
  {
    var p := PrefixedBy(c, key);
    if L.Disturbs(c, step.op, p) {
      C.PrefixInjective(c.namespace, step.op.key, key);
      Kept(c, w, step.op, step.victims);
    } else {
      L.Untouched(c, w, step, p);
    }
  }

  // Over every run that leaves the counter to increments and decrements, the
  // cache holds exactly the tally.
  lemma {:induction false} CounterIsTally(c: Config, w: World, run: seq<Step>, key: string)
    requires Settled(w) && PrefixedBy(c, key) !in w.v && CountsOnly(c, run, key)
    ensures Holds(c, After(c, w, run), key, Tallied(c, w, run, key)) && Settled(After(c, w, run))
  {
    if run != [] {
      var before, last := run[..|run| - 1], run[|run| - 1];
      assert forall i :: 0 <= i < |before| ==> before[i] == run[i];
      CounterIsTally(c, w, before, key);
      L.SettledAfter(c, w, run);
      var t := Tallied(c, w, before, key);
      match Addend(last.op, key)
      case Some(delta) => CountingStep(c, After(c, w, before), last, key, t, delta);
      case None => OtherStep(c, After(c, w, before), last, key, t);
    }
  }

  function SumOf(run: seq<Step>, key: string): int {
    if run == [] then 0
    else
      SumOf(run[..|run| - 1], key) + match Addend(run[|run| - 1].op, key) case Some(delta) => delta case None => 0
  }

  // The second of the latest addition.
  function LastAdded(c: Config, w: World, run: seq<Step>, key: string): Option<nat> {
    if run == [] then None
    else
      var before := run[..|run| - 1];
      if Addend(run[|run| - 1].op, key).Some? then Some(Seconds(After(c, w, before).clock))
      else LastAdded(c, w, before, key)
  }

  // Every addition comes within the time to live of the one before, and no
  // partial sum overflows.
  predicate Paced(c: Config, w: World, run: seq<Step>, key: string) {
    if run == [] then true
    else
      var before := run[..|run| - 1];
      var last := LastAdded(c, w, before, key);
      && Paced(c, w, before, key)
      && Decimal.IsI64(SumOf(run, key))
      && (Addend(run[|run| - 1].op, key).Some? && last.Some? ==>
            Seconds(After(c, w, before).clock) < last.value + Seconds(c.defaultTtl))
  }

  lemma {:induction false} PacedTally(c: Config, w: World, run: seq<Step>, key: string)
    requires Paced(c, w, run, key)
    ensures var last := LastAdded(c, w, run, key);
      Tallied(c, w, run, key) == Tally(SumOf(run, key), if last.Some? then last.value + Seconds(c.defaultTtl) else 0)
    ensures LastAdded(c, w, run, key) == None ==> SumOf(run, key) == 0
  {
    if run != [] {
      PacedTally(c, w, run[..|run| - 1], key);
    }
  }

  // Before the next addition of a paced run the counter reads as the sum so far.
  lemma ReadsSum(c: Config, w: World, run: seq<Step>, step: Step, key: string)
    requires Settled(w) && PrefixedBy(c, key) !in w.v
    requires CountsOnly(c, run, key) && Paced(c, w, run + [step], key)
    requires Addend(step.op, key).Some?
    ensures C.CounterOf(Lookup(After(c, w, run).v, PrefixedBy(c, key))) == SumOf(run, key)
    ensures Decimal.IsI64(SumOf(run + [step], key))
  {
    assert (run + [step])[..|run|] == run;
    CounterIsTally(c, w, run, key);
    PacedTally(c, w, run, key);
    ReadsBack(c, After(c, w, run), key, Tallied(c, w, run, key));
  }

  // Every increment and decrement of a paced run returns the running sum.
  lemma RunningSum(c: Config, w: World, run: seq<Step>, step: Step, key: string)
    requires Settled(w) && PrefixedBy(c, key) !in w.v
    requires CountsOnly(c, run, key) && Paced(c, w, run + [step], key)
    requires Addend(step.op, key).Some?
    ensures ReplyTo(c, After(c, w, run), step.op) == Number(Some(SumOf(run + [step], key)))
  {
    ReadsSum(c, w, run, step, key);
    assert (run + [step])[..|run|] == run;
    ReplyToAddition(c, After(c, w, run), step.op, key, SumOf(run, key));
  }
}
