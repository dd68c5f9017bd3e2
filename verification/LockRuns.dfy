/**
 Token locks over whole runs of the cache. A lock is taken by a granted Lock step
 and given back by an Unlock step with its token; in between only its own expiry
 can end it, as long as no other operation touches the lock's key.
 */
module LockRuns {
  import opened Prelude
  import opened TimedMap
  import opened CacheRuns
  import C = InMemoryCache
  import Runs

  // Whether an operation other than the locks' own may change what is under p.
  predicate Disturbs(c: Config, op: Op, p: string) {
    match op
    case Set(key, _, _) => PrefixedBy(c, key) == p
    case SetNx(key, _, _) => PrefixedBy(c, key) == p
    case GetSet(key, _) => PrefixedBy(c, key) == p
    case Increment(key, _) => PrefixedBy(c, key) == p
    case Decrement(key, _) => PrefixedBy(c, key) == p
    case SetMany(items, _) => exists i :: 0 <= i < |items| && PrefixedBy(c, items[i].0) == p
    case Delete(key) => PrefixedBy(c, key) == p
    case DeleteMany(keys) => p in C.PrefixedKeys(c.namespace, keys)
    case Clear(ns) => (ns == None && c.namespace == None) || (if ns.Some? then ns.value else c.namespace.value) + ":" <= p
    case Flush => true
    case _ => false
  }

  // The key is left to the locks, and eviction spares it.
  ghost predicate Undisturbed(c: Config, run: seq<Step>, p: string) {
    forall i :: 0 <= i < |run| ==> !Disturbs(c, run[i].op, p) && p !in run[i].victims
  }

  ghost predicate Released(run: seq<Step>, key: string, token: Bytes) {
    exists i :: 0 <= i < |run| && run[i].op == Unlock(key, token)
  }

  // The lock is held with this token, until its expiry second.
  predicate Held(c: Config, w: World, key: string, token: Bytes, until: nat) {
    && C.LockKey(c.namespace, key) in w.v
    && w.v[C.LockKey(c.namespace, key)].value == token
    && w.v[C.LockKey(c.namespace, key)].expiresAt == Some(until)
  }

  lemma {:induction false} WrittenAreItems(namespace: Option<string>, items: seq<(string, Bytes)>, ttl: Option<nat>, clock: nat, p: string)
    requires p in C.WithItems(map[], namespace, items, ttl, clock)
    ensures exists i :: 0 <= i < |items| && C.PrefixKey(namespace, items[i].0) == p
  {
    if p != C.PrefixKey(namespace, items[|items| - 1].0) {
      WrittenAreItems(namespace, items[..|items| - 1], ttl, clock, p);
    }
  }

  // What a change does to a key that neither it nor the eviction names.
  lemma Untouched(c: Config, w: World, step: Step, p: string)
    requires !Disturbs(c, step.op, p) && p !in step.victims
    requires step.op.Lock? || step.op.Unlock? ==> C.LockKey(c.namespace, step.op.key) != p
    ensures var w' := Next(c, w, step.op, step.victims);
      && (p in w'.v <==> p in w.v && !Expired(w.v[p], Seconds(w'.clock)))
      && (p in w'.v ==> w'.v[p] == w.v[p])
  {
    var change := ChangeBy(c, w, step.op);
    if step.op.SetMany? && p in change.entries {
      WrittenAreItems(c.namespace, step.op.items, if step.op.ttl.Some? then step.op.ttl else Some(c.defaultTtl), w.clock, p);
    }
    assert p in Amend(w.v, change, step.victims) <==> p in w.v;
  }

  // One step keeps a held lock until it expires or its token is given back.
  lemma HeldStep(c: Config, w: World, step: Step, key: string, token: Bytes, until: nat)
    requires Held(c, w, key, token, until)
    requires !Disturbs(c, step.op, C.LockKey(c.namespace, key)) && C.LockKey(c.namespace, key) !in step.victims
    requires step.op != Unlock(key, token)
    requires Seconds(Next(c, w, step.op, step.victims).clock) < until
    ensures Held(c, Next(c, w, step.op, step.victims), key, token, until)
  {
    var p := C.LockKey(c.namespace, key);
    if (step.op.Lock? || step.op.Unlock?) && C.LockKey(c.namespace, step.op.key) == p {
      C.LockKeyInjective(c.namespace, step.op.key, key);
      assert ChangeBy(c, w, step.op) == Keep;
    } else {
      Untouched(c, w, step, p);
    }
  }

  lemma ClockMonotone(c: Config, w: World, op: Op, victims: set<string>)
    ensures w.clock <= Next(c, w, op, victims).clock
  {}

  // A held lock stays held over every run that neither gives its token back
  // nor lasts until its expiry.
  lemma {:induction false} HeldStays(c: Config, w: World, run: seq<Step>, key: string, token: Bytes, until: nat)
    requires Held(c, w, key, token, until)
    requires Undisturbed(c, run, C.LockKey(c.namespace, key)) && !Released(run, key, token)
    requires Seconds(After(c, w, run).clock) < until
    ensures Held(c, After(c, w, run), key, token, until)
  {
    if run != [] {
      var before, last := run[..|run| - 1], run[|run| - 1];
      assert forall i :: 0 <= i < |before| ==> before[i] == run[i];
      ClockMonotone(c, After(c, w, before), last.op, last.victims);
      HeldStays(c, w, before, key, token, until);
      HeldStep(c, After(c, w, before), last, key, token, until);
    }
  }

  lemma {:induction false} AfterConcat(c: Config, w: World, first: seq<Step>, second: seq<Step>)
    ensures After(c, w, first + second) == After(c, After(c, w, first), second)
  {
    if second == [] {
      assert first + second == first;
    } else {
      AfterConcat(c, w, first, second[..|second| - 1]);
      assert (first + second)[..|first + second| - 1] == first + second[..|second| - 1];
    }
  }

  lemma {:induction false} ClockNeverGoesBack(c: Config, w: World, run: seq<Step>)
    ensures w.clock <= After(c, w, run).clock
  {
    if run != [] {
      ClockNeverGoesBack(c, w, run[..|run| - 1]);
    }
  }

  // Step i of the run hands out this token for this key.
  ghost predicate Granted(c: Config, w: World, run: seq<Step>, i: nat, key: string, token: Bytes)
    requires i < |run|
  {
    && run[i].op.Lock? && run[i].op.key == key && run[i].op.token == token
    && ReplyTo(c, After(c, w, run[..i]), run[i].op) == Value(Some(token))
  }

  // The second from which a lock taken at step i has expired.
  function Expiry(c: Config, w: World, run: seq<Step>, i: nat): nat
    requires i < |run| && run[i].op.Lock?
  {
    Seconds(After(c, w, run[..i]).clock) + Seconds(run[i].op.lockTtl)
  }

  lemma GrantTakesHold(c: Config, w: World, op: Op, victims: set<string>)
    requires op.Lock? && ReplyTo(c, w, op) == Value(Some(op.token)) && Seconds(op.lockTtl) > 0
    ensures Held(c, Next(c, w, op, victims), op.key, op.token, Seconds(w.clock) + Seconds(op.lockTtl))
  {
    Wrote(c, w, op, victims, C.LockKey(c.namespace, op.key), NewEntry(op.token, Some(op.lockTtl), w.clock));
  }

  // After a grant and steps that neither disturb the lock nor give it back, the
  // lock is held until its expiry second.
  lemma HeldSince(c: Config, w: World, run: seq<Step>, i: nat, j: nat, key: string, token: Bytes)
    requires i < j <= |run| && Granted(c, w, run, i, key, token)
    requires Undisturbed(c, run[i + 1..j], C.LockKey(c.namespace, key))
    requires !Released(run[i + 1..j], key, token)
    requires Seconds(After(c, w, run[..j]).clock) < Expiry(c, w, run, i)
    ensures Held(c, After(c, w, run[..j]), key, token, Expiry(c, w, run, i))
  {
    var at, rest := After(c, w, run[..i]), run[i + 1..j];
    var after := Next(c, at, run[i].op, run[i].victims);
    SplitAt(c, w, run, i, j);
    ClockMonotone(c, at, run[i].op, run[i].victims);
    ClockNeverGoesBack(c, after, rest);
    GrantTakesHold(c, at, run[i].op, run[i].victims);
    HeldStays(c, after, rest, key, token, Expiry(c, w, run, i));
  }

  lemma SplitAt(c: Config, w: World, run: seq<Step>, i: nat, j: nat)
    requires i < j <= |run|
    ensures After(c, w, run[..j])
         == After(c, Next(c, After(c, w, run[..i]), run[i].op, run[i].victims), run[i + 1..j])
  {
    var first := run[..i + 1];
    assert After(c, w, first) == Next(c, After(c, w, run[..i]), run[i].op, run[i].victims) by {
      assert first[..i] == run[..i] && first[i] == run[i] && |first| == i + 1;
    }
    assert run[..j] == first + run[i + 1..j];
    AfterConcat(c, w, first, run[i + 1..j]);
  }

  // Mutual exclusion over every run: when a key is granted again, the token
  // handed out before was given back or has expired.
  lemma MutualExclusion(c: Config, w: World, run: seq<Step>, i: nat, j: nat, key: string, first: Bytes, second: Bytes)
    requires i < j < |run|
    requires Granted(c, w, run, i, key, first) && Granted(c, w, run, j, key, second)
    requires Undisturbed(c, run[i + 1..j], C.LockKey(c.namespace, key))
    ensures Released(run[i + 1..j], key, first) || Seconds(After(c, w, run[..j]).clock) >= Expiry(c, w, run, i)
  {
    if !Released(run[i + 1..j], key, first) && Seconds(After(c, w, run[..j]).clock) < Expiry(c, w, run, i) {
      HeldSince(c, w, run, i, j, key, first);
      assert false;
    }
  }

  // While the lock is held nobody else gets it, and exactly the token handed
  // out unlocks it; any other token changes nothing.
  lemma OnlyTheHolderUnlocks(c: Config, w: World, run: seq<Step>, i: nat, j: nat, key: string, token: Bytes,
                             other: Bytes, ttl: nat)
    requires i < j <= |run| && Granted(c, w, run, i, key, token)
    requires Undisturbed(c, run[i + 1..j], C.LockKey(c.namespace, key))
    requires !Released(run[i + 1..j], key, token)
    requires Seconds(After(c, w, run[..j]).clock) < Expiry(c, w, run, i)
    ensures var now := After(c, w, run[..j]);
      && ReplyTo(c, now, Lock(key, ttl, other)) == Value(None)
      && ReplyTo(c, now, Unlock(key, other)) == Flag(other == token)
      && (Next(c, now, Unlock(key, other), {}).v == (if other == token then now.v - {C.LockKey(c.namespace, key)} else now.v))
  {
    var now := After(c, w, run[..j]);
    HeldSince(c, w, run, i, j, key, token);
    SettledAfter(c, w, run[..j]);
    HolderUnlocks(c, now, key, token, Expiry(c, w, run, i), other, ttl);
  }

  lemma HolderUnlocks(c: Config, w: World, key: string, token: Bytes, until: nat, other: Bytes, ttl: nat)
    requires Held(c, w, key, token, until) && Settled(w)
    ensures ReplyTo(c, w, Lock(key, ttl, other)) == Value(None)
    ensures ReplyTo(c, w, Unlock(key, other)) == Flag(other == token)
    ensures Next(c, w, Unlock(key, other), {}).v == if other == token then w.v - {C.LockKey(c.namespace, key)} else w.v
  {
    if other == token {
      Removed(c, w, Unlock(key, other), {}, {C.LockKey(c.namespace, key)});
    } else {
      Kept(c, w, Unlock(key, other), {});
    }
  }

  lemma SettledAfter(c: Config, w: World, run: seq<Step>)
    requires run != []
    ensures Settled(After(c, w, run))
  {
    var last := run[|run| - 1];
    var before := After(c, w, run[..|run| - 1]);
    LiveLater(Amend(before.v, ChangeBy(c, before, last.op), last.victims),
              Seconds(After(c, w, run).clock), Seconds(After(c, w, run).clock));
  }

  // How long a lock really protects: both the fraction of the second at which
  // it was taken and the fraction of a second in its time to live are lost.
  lemma SecondLockRefusedIff(c: Config, w: World, key: string, ttl: nat, first: Bytes, wait: nat, ttl2: nat, second: Bytes)
    requires C.LockKey(c.namespace, key) !in w.v
    ensures var run := [Step(Lock(key, ttl, first), {}), Step(Tick(wait), {})];
      ReplyTo(c, After(c, w, run), Lock(key, ttl2, second)) == Value(None)
      <==> wait < ttl - (w.clock % 1000 + ttl % 1000)
  {
    var lock, tick := Step(Lock(key, ttl, first), {}), Step(Tick(wait), {});
    var run, e, p := [lock, tick], NewEntry(first, Some(ttl), w.clock), C.LockKey(c.namespace, key);
    assert run[..1] == [lock] && [lock][..0] == [];
    assert After(c, w, [lock]) == Next(c, w, lock.op, {});
    var mid := Next(c, w, lock.op, {});
    Wrote(c, w, lock.op, {}, p, e);
    assert After(c, w, run) == Next(c, mid, tick.op, {});
    Untouched(c, mid, tick, p);
    Lifetime(first, ttl, w.clock, w.clock);
    Lifetime(first, ttl, w.clock, w.clock + wait);
  }

  // ------------------------------------------------- locks and the size limit

  function Elapsed(ops: seq<Op>): nat {
    if ops == [] then 0
    else Elapsed(ops[..|ops| - 1]) + if ops[|ops| - 1].Tick? then ops[|ops| - 1].ms else 0
  }

  lemma {:induction false} ElapsedGrows(ops: seq<Op>, n: nat)
    requires n <= |ops|
    ensures Elapsed(ops[..n]) <= Elapsed(ops)
  {
    if n < |ops| {
      ElapsedGrows(ops[..|ops| - 1], n);
      assert ops[..|ops| - 1][..n] == ops[..n];
    } else {
      assert ops[..n] == ops;
    }
  }

  lemma {:induction false} QuietClock(c: Config, p: Physical, ops: seq<Op>)
    ensures QuietAfter(c, p, ops).clock == p.clock + Elapsed(ops)
  {
    if ops != [] {
      QuietClock(c, p, ops[..|ops| - 1]);
    }
  }

  lemma {:induction false} SubsetOfSize(all: set<string>, n: nat) returns (some: set<string>)
    requires n <= |all|
    ensures some <= all && |some| == n
  {
    if n == 0 {
      some := {};
    } else {
      var x :| x in all;
      some := SubsetOfSize(all - {x}, n - 1);
      some := some + {x};
    }
  }

  // An eviction that takes anything may take a given key.
  lemma ChoiceWith(m: Entries, count: nat, k: string) returns (victims: set<string>)
    requires k in m && count > 0
    ensures C.Chosen(m, count, victims) && k in victims
  {
    assert |m.Keys| == |m| && |m.Keys - {k}| == |m| - 1;
    var others := SubsetOfSize(m.Keys - {k}, Min(count, |m|) - 1);
    victims := others + {k};
  }

  // What becomes of a held lock when an operation of others evicts it.
  lemma EvictedIsFree(c: Config, limit: Option<nat>, p: Physical, op: Op, key: string, token: Bytes, until: nat)
    returns (victims: set<string>)
    requires Held(c, View(p), key, token, until) && !Disturbs(c, op, C.LockKey(c.namespace, key))
    requires Quota(c, limit, p, op) > 0
    ensures Admissible(c, limit, p, op, victims)
    ensures C.LockKey(c.namespace, key) !in Next(c, View(p), op, victims).v
  {
    var k := C.LockKey(c.namespace, key);
    victims := ChoiceWith(Swept(c, p, op), Quota(c, limit, p, op), k);
    var change := ChangeBy(c, View(p), op);
    if op.SetMany? && k in change.entries {
      WrittenAreItems(c.namespace, op.items, if op.ttl.Some? then op.ttl else Some(c.defaultTtl), p.clock, k);
    }
    if op.Lock? {
      C.LockKeyInjective(c.namespace, op.key, key);
    }
    assert k !in change.entries;
  }

  // What the stored map has to do with the lock: it holds it for the token, it
  // is before the lock's expiry, and it refuses the lock to others.
  function HoldsFor(c: Config, key: string, token: Bytes, until: nat): Physical -> bool {
    (p: Physical) => Held(c, View(p), key, token, until)
  }

  function Before(until: nat): Physical -> bool {
    (p: Physical) => Seconds(p.clock) < until
  }

  function Refuses(c: Config, key: string, ttl: nat, other: Bytes): Physical -> bool {
    (p: Physical) => ReplyTo(c, View(p), Lock(key, ttl, other)) == Value(None)
  }

  // An operation neither disturbs the lock nor gives its token back.
  function LeavesLock(c: Config, key: string, token: Bytes): Op -> bool {
    (op: Op) => !Disturbs(c, op, C.LockKey(c.namespace, key)) && op != Unlock(key, token)
  }

  // With room nothing but the expiry takes the lock away.
  lemma KeptWithRoom(c: Config, limit: Option<nat>, p: Physical, op: Op, key: string, token: Bytes, until: nat)
    requires HoldsFor(c, key, token, until)(p) && LeavesLock(c, key, token)(op)
    requires Before(until)(QuietStep(c)(p, op))
    ensures HoldsFor(c, key, token, until)(QuietStep(c)(p, op))
  {
    PhysicalIsTimed(c, p, op, {});
    HeldStep(c, View(p), Step(op, {}), key, token, until);
  }

  // Without room the eviction may free it.
  lemma FreedWithoutRoom(c: Config, limit: Option<nat>, p: Physical, op: Op, key: string, token: Bytes, until: nat,
                         ttl: nat, other: Bytes)
    requires HoldsFor(c, key, token, until)(p) && LeavesLock(c, key, token)(op) && !HasRoom(c, limit)(p, op)
    ensures exists s: Step :: Chooses(c, limit)(p, s) && OpOf()(s) == op
                           && !Refuses(c, key, ttl, other)(StoredStep(c)(p, s))
  {
    var victims := EvictedIsFree(c, limit, p, op, key, token, until);
    PhysicalIsTimed(c, p, op, victims);
    var s := Step(op, victims);
    assert Chooses(c, limit)(p, s) && OpOf()(s) == op && !Refuses(c, key, ttl, other)(StoredStep(c)(p, s));
  }

  lemma AllRoomMeansQuiet(c: Config, limit: Option<nat>)
    ensures forall p: Physical, s: Step :: Chooses(c, limit)(p, s) && HasRoom(c, limit)(p, OpOf()(s)) ==>
              StoredStep(c)(p, s) == QuietStep(c)(p, OpOf()(s))
  {
    forall p: Physical, s: Step | Chooses(c, limit)(p, s) && HasRoom(c, limit)(p, OpOf()(s))
      ensures StoredStep(c)(p, s) == QuietStep(c)(p, OpOf()(s))
    {
      RoomMeansQuiet(c, limit, p, s);
    }
  }

  lemma AllQuietIsAdmissible(c: Config, limit: Option<nat>)
    ensures forall p: Physical, op: Op :: HasRoom(c, limit)(p, op) ==>
              Chooses(c, limit)(p, Quietly()(op)) && StoredStep(c)(p, Quietly()(op)) == QuietStep(c)(p, op)
    ensures forall op: Op :: OpOf()(Quietly()(op)) == op
  {
    forall p: Physical, op: Op | HasRoom(c, limit)(p, op)
      ensures Chooses(c, limit)(p, Quietly()(op)) && StoredStep(c)(p, Quietly()(op)) == QuietStep(c)(p, op)
    {
      QuietIsAdmissible(c, limit, p, op);
    }
  }

  lemma AllKeptWithRoom(c: Config, limit: Option<nat>, key: string, token: Bytes, until: nat)
    ensures forall p: Physical, op: Op ::
              (&& HoldsFor(c, key, token, until)(p) && LeavesLock(c, key, token)(op)
               && HasRoom(c, limit)(p, op) && Before(until)(QuietStep(c)(p, op)))
              ==> HoldsFor(c, key, token, until)(QuietStep(c)(p, op))
  {
    forall p: Physical, op: Op |
      && HoldsFor(c, key, token, until)(p) && LeavesLock(c, key, token)(op)
      && HasRoom(c, limit)(p, op) && Before(until)(QuietStep(c)(p, op))
      ensures HoldsFor(c, key, token, until)(QuietStep(c)(p, op))
    {
      KeptWithRoom(c, limit, p, op, key, token, until);
    }
  }

  lemma AllFreedWithoutRoom(c: Config, limit: Option<nat>, key: string, token: Bytes, until: nat, ttl: nat, other: Bytes)
    ensures forall p: Physical, op: Op ::
              HoldsFor(c, key, token, until)(p) && LeavesLock(c, key, token)(op) && !HasRoom(c, limit)(p, op) ==>
              exists s: Step :: Chooses(c, limit)(p, s) && OpOf()(s) == op
                             && !Refuses(c, key, ttl, other)(StoredStep(c)(p, s))
  {
    forall p: Physical, op: Op | HoldsFor(c, key, token, until)(p) && LeavesLock(c, key, token)(op) && !HasRoom(c, limit)(p, op)
      ensures exists s: Step :: Chooses(c, limit)(p, s) && OpOf()(s) == op
                             && !Refuses(c, key, ttl, other)(StoredStep(c)(p, s))
    {
      FreedWithoutRoom(c, limit, p, op, key, token, until, ttl, other);
    }
  }

  lemma HeldIsRefused(c: Config, key: string, token: Bytes, until: nat, ttl: nat, other: Bytes)
    ensures forall p: Physical :: HoldsFor(c, key, token, until)(p) ==> Refuses(c, key, ttl, other)(p)
  {}

  lemma BeforeAt(c: Config, p: Physical, ops: seq<Op>, until: nat, n: nat)
    requires Seconds(p.clock + Elapsed(ops)) < until && n <= |ops|
    ensures Before(until)(Runs.After(QuietStep(c), p, ops[..n]))
  {
    QuietClock(c, p, ops[..n]);
    ElapsedGrows(ops, n);
    assert QuietAfter(c, p, ops[..n]) == Runs.After(QuietStep(c), p, ops[..n]);
  }

  lemma BeforeExpiry(c: Config, p: Physical, ops: seq<Op>, until: nat)
    requires Seconds(p.clock + Elapsed(ops)) < until
    ensures forall n: nat :: n <= |ops| ==> Before(until)(Runs.After(QuietStep(c), p, ops[..n]))
  {
    forall n: nat | n <= |ops| ensures Before(until)(Runs.After(QuietStep(c), p, ops[..n])) {
      BeforeAt(c, p, ops, until, n);
    }
  }

  // Exactly when a held lock is safe from eviction: whatever the cache chooses
  // to evict, everybody else is refused after every admissible run of the
  // operations, up to the expiry, if and only if none of them finds the map at
  // its limit.
  lemma RefusedThroughoutIff(c: Config, limit: Option<nat>, p: Physical, key: string, token: Bytes, until: nat,
                             ops: seq<Op>, ttl: nat, other: Bytes)
    requires HoldsFor(c, key, token, until)(p)
    requires forall i :: 0 <= i < |ops| ==> LeavesLock(c, key, token)(ops[i])
    requires Seconds(p.clock + Elapsed(ops)) < until
    ensures Runs.SafeThroughout(StoredStep(c), Chooses(c, limit), OpOf(), Refuses(c, key, ttl, other), p, ops)
       <==> NeverFull(c, limit, p, ops)
  {
    AllRoomMeansQuiet(c, limit);
    AllQuietIsAdmissible(c, limit);
    AllKeptWithRoom(c, limit, key, token, until);
    AllFreedWithoutRoom(c, limit, key, token, until, ttl, other);
    HeldIsRefused(c, key, token, until, ttl, other);
    BeforeExpiry(c, p, ops, until);
    Runs.SafeIff(StoredStep(c), Chooses(c, limit), QuietStep(c), HasRoom(c, limit), OpOf(), Quietly(),
                 HoldsFor(c, key, token, until), Before(until), Refuses(c, key, ttl, other), LeavesLock(c, key, token), p, ops);
  }

  // The same for a single write of another key: it cannot free a held lock
  // exactly when the map has room.
  lemma OneWriteSparesIff(c: Config, limit: Option<nat>, p: Physical, key: string, token: Bytes, until: nat,
                          other: string, value: Bytes, ttl: nat, second: Bytes)
    requires Held(c, View(p), key, token, until) && PrefixedBy(c, other) != C.LockKey(c.namespace, key)
    ensures var op := Set(other, value, None);
      (forall victims :: Admissible(c, limit, p, op, victims) ==>
         ReplyTo(c, Next(c, View(p), op, victims), Lock(key, ttl, second)) == Value(None))
      <==> C.EvictCount(limit, |p.m|) == 0
  {
    var op := Set(other, value, None);
    assert Quota(c, limit, p, op) == C.EvictCount(limit, |p.m|);
    if C.EvictCount(limit, |p.m|) == 0 {
      forall victims | Admissible(c, limit, p, op, victims)
        ensures ReplyTo(c, Next(c, View(p), op, victims), Lock(key, ttl, second)) == Value(None)
      {
        assert |victims| == 0;
        Untouched(c, View(p), Step(op, victims), C.LockKey(c.namespace, key));
      }
    } else {
      var victims := EvictedIsFree(c, limit, p, op, key, token, until);
    }
  }

  // Mutual exclusion over every run of a cache that never finds itself at its
  // limit, without a word about what is evicted.
  lemma MutualExclusionBelowLimit(c: Config, limit: Option<nat>, p: Physical, run: seq<Step>, i: nat, j: nat,
                                  key: string, first: Bytes, second: Bytes)
    requires AdmissibleRun(c, limit, p, run) && NeverFull(c, limit, p, Ops(run)) && i < j < |run|
    requires forall n :: i < n < j ==> !Disturbs(c, run[n].op, C.LockKey(c.namespace, key))
    ensures Excluded(c, View(p), run, i, j, key, first, second)
  {
    NeverFullNeverEvicts(c, limit, p, run);
    ExcludedIfQuiet(c, View(p), run, i, j, key, first, second);
  }

  // If steps i and j both hand out the lock, the first token was given back in
  // between or has expired.
  ghost predicate Excluded(c: Config, w: World, run: seq<Step>, i: nat, j: nat, key: string, first: Bytes, second: Bytes)
    requires i < j < |run|
  {
    Granted(c, w, run, i, key, first) && Granted(c, w, run, j, key, second) ==>
      Released(run[i + 1..j], key, first) || Seconds(After(c, w, run[..j]).clock) >= Expiry(c, w, run, i)
  }

  lemma ExcludedIfQuiet(c: Config, w: World, run: seq<Step>, i: nat, j: nat, key: string, first: Bytes, second: Bytes)
    requires NothingEvicted(run) && i < j < |run|
    requires forall n :: i < n < j ==> !Disturbs(c, run[n].op, C.LockKey(c.namespace, key))
    ensures Excluded(c, w, run, i, j, key, first, second)
  {
    var between := run[i + 1..j];
    assert forall n :: 0 <= n < |between| ==> between[n] == run[i + 1 + n];
    if Granted(c, w, run, i, key, first) && Granted(c, w, run, j, key, second) {
      MutualExclusion(c, w, run, i, j, key, first, second);
    }
  }
}
