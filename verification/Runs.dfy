/** Runs of any system: states, events, and what each event does. */
module Runs {
  import opened Prelude

  function After<S, E>(next: (S, E) -> S, s: S, run: seq<E>): S {
    if run == [] then s else next(After(next, s, run[..|run| - 1]), run[|run| - 1])
  }

  // Event n is in order in the state it meets.
  predicate OkAt<S, E>(next: (S, E) -> S, ok: (S, E) -> bool, s: S, run: seq<E>, n: nat)
    requires n < |run|
  {
    ok(After(next, s, run[..n]), run[n])
  }

  ghost predicate Always<S(!new), E(!new)>(next: (S, E) -> S, ok: (S, E) -> bool, s: S, run: seq<E>) {
    forall n: nat :: n < |run| ==> OkAt(next, ok, s, run, n)
  }

  lemma AlwaysPrefix<S(!new), E(!new)>(next: (S, E) -> S, ok: (S, E) -> bool, s: S, run: seq<E>, k: nat)
    requires k <= |run| && Always(next, ok, s, run)
    ensures Always(next, ok, s, run[..k])
  {
    forall n: nat | n < k ensures OkAt(next, ok, s, run[..k], n) {
      assert run[..k][..n] == run[..n];
      assert OkAt(next, ok, s, run, n);
    }
  }

  lemma OneMore<S(!new), E(!new)>(next: (S, E) -> S, ok: (S, E) -> bool, s: S, run: seq<E>, e: E)
    ensures After(next, s, run + [e]) == next(After(next, s, run), e)
    ensures Always(next, ok, s, run + [e]) <==> Always(next, ok, s, run) && ok(After(next, s, run), e)
  {
    var longer := run + [e];
    assert longer[..|run|] == run;
    assert OkAt(next, ok, s, longer, |run|) <==> ok(After(next, s, run), e);
    if Always(next, ok, s, longer) {
      AlwaysPrefix(next, ok, s, longer, |run|);
    }
    if Always(next, ok, s, run) && ok(After(next, s, run), e) {
      forall n: nat | n < |longer| ensures OkAt(next, ok, s, longer, n) {
        if n < |run| {
          assert longer[..n] == run[..n];
          assert OkAt(next, ok, s, run, n);
        }
      }
    }
  }

  lemma {:induction false} FirstFailure<S(!new), E(!new)>(next: (S, E) -> S, ok: (S, E) -> bool, s: S, run: seq<E>)
    returns (n: nat)
    requires !Always(next, ok, s, run)
    ensures n < |run| && Always(next, ok, s, run[..n]) && !ok(After(next, s, run[..n]), run[n])
  {
    var before, last := run[..|run| - 1], run[|run| - 1];
    assert run == before + [last];
    OneMore(next, ok, s, before, last);
    if Always(next, ok, s, before) {
      n := |before|;
    } else {
      n := FirstFailure(next, ok, s, before);
      assert before[..n] == run[..n];
    }
  }

  // A run that another one follows event by event: they reach the same states,
  // and its events have a property.
  lemma {:induction false} Follows<S(!new), E(!new), F(!new)>(
      next: (S, E) -> S, ok: (S, E) -> bool, next': (S, F) -> S, ok': (S, F) -> bool, f: E -> F,
      p: E -> bool, s: S, run: seq<E>)
    requires forall s: S, e: E :: ok(s, e) && ok'(s, f(e)) ==> next(s, e) == next'(s, f(e)) && p(e)
    requires Always(next, ok, s, run) && Always(next', ok', s, Map(f, run))
    ensures After(next, s, run) == After(next', s, Map(f, run))
    ensures forall i :: 0 <= i < |run| ==> p(run[i])
  {
    if run != [] {
      var before, last := run[..|run| - 1], run[|run| - 1];
      assert run == before + [last] && Map(f, run) == Map(f, before) + [f(last)];
      OneMore(next, ok, s, before, last);
      OneMore(next', ok', s, Map(f, before), f(last));
      Follows(next, ok, next', ok', f, p, s, before);
    }
  }

  // The same, when the one being followed makes the other possible.
  lemma {:induction false} Followed<S(!new), E(!new), F(!new)>(
      next: (S, E) -> S, ok: (S, E) -> bool, next': (S, F) -> S, ok': (S, F) -> bool, g: F -> E, s: S, run: seq<F>)
    requires forall s: S, x: F :: ok'(s, x) ==> ok(s, g(x)) && next(s, g(x)) == next'(s, x)
    requires Always(next', ok', s, run)
    ensures Always(next, ok, s, Map(g, run)) && After(next, s, Map(g, run)) == After(next', s, run)
  {
    if run != [] {
      var before, last := run[..|run| - 1], run[|run| - 1];
      assert run == before + [last] && Map(g, run) == Map(g, before) + [g(last)];
      OneMore(next', ok', s, before, last);
      OneMore(next, ok, s, Map(g, before), g(last));
      Followed(next, ok, next', ok', g, s, before);
    }
  }

  // Something that an event may undo exactly when it is out of order: `held` is
  // kept by every event that is in order and can be lost at any that is not, so
  // it is safe in every run of the events xs if and only if they are all in order.
  // The runs are those of another system, which chooses its own events e with
  // f(e) among them; `live` bounds the states that count.
  lemma SafeIff<S(!new), E(!new), F(!new)>(
      next: (S, E) -> S, ok: (S, E) -> bool, next': (S, F) -> S, ok': (S, F) -> bool, f: E -> F, g: F -> E,
      held: S -> bool, live: S -> bool, safe: S -> bool, leaves: F -> bool, s: S, xs: seq<F>)
    requires forall s: S, e: E :: ok(s, e) && ok'(s, f(e)) ==> next(s, e) == next'(s, f(e))
    requires forall s: S, x: F :: ok'(s, x) ==> ok(s, g(x)) && next(s, g(x)) == next'(s, x)
    requires forall x: F :: f(g(x)) == x
    requires forall s: S, x: F :: held(s) && leaves(x) && ok'(s, x) && live(next'(s, x)) ==> held(next'(s, x))
    requires forall s: S, x: F :: held(s) && leaves(x) && !ok'(s, x) ==>
               exists e: E :: ok(s, e) && f(e) == x && !safe(next(s, e))
    requires forall s: S :: held(s) ==> safe(s)
    requires held(s) && (forall i :: 0 <= i < |xs| ==> leaves(xs[i]))
    requires forall n: nat :: n <= |xs| ==> live(After(next', s, xs[..n]))
    ensures SafeThroughout(next, ok, f, safe, s, xs) <==> Always(next', ok', s, xs)
  {
    if Always(next', ok', s, xs) {
      forall run: seq<E> | Map(f, run) <= xs && Always(next, ok, s, run) ensures safe(After(next, s, run)) {
        AlwaysPrefix(next', ok', s, xs, |run|);
        assert xs[..|run|] == Map(f, run);
        Follows(next, ok, next', ok', f, e => true, s, run);
        StaysHeld(next', ok', held, live, leaves, s, xs, |run|);
      }
    } else {
      var n := FirstFailure(next', ok', s, xs);
      var run := Map(g, xs[..n]);
      Followed(next, ok, next', ok', g, s, xs[..n]);
      StaysHeld(next', ok', held, live, leaves, s, xs, n);
      var at := After(next', s, xs[..n]);
      var e: E :| ok(at, e) && f(e) == xs[n] && !safe(next(at, e));
      OneMore(next, ok, s, run, e);
      assert Map(f, run + [e]) == xs[..n + 1];
      assert !safe(After(next, s, run + [e]));
    }
  }

  ghost predicate SafeThroughout<S(!new), E(!new), F(!new)>(
      next: (S, E) -> S, ok: (S, E) -> bool, f: E -> F, safe: S -> bool, s: S, xs: seq<F>)
  {
    forall run: seq<E> :: Map(f, run) <= xs && Always(next, ok, s, run) ==> safe(After(next, s, run))
  }

  lemma {:induction false} StaysHeld<S(!new), F(!new)>(
      next': (S, F) -> S, ok': (S, F) -> bool, held: S -> bool, live: S -> bool, leaves: F -> bool, s: S, xs: seq<F>, n: nat)
    requires forall s: S, x: F :: held(s) && leaves(x) && ok'(s, x) && live(next'(s, x)) ==> held(next'(s, x))
    requires held(s) && (forall i :: 0 <= i < |xs| ==> leaves(xs[i]))
    requires n <= |xs| && Always(next', ok', s, xs[..n])
    requires forall k: nat :: k <= |xs| ==> live(After(next', s, xs[..k]))
    ensures held(After(next', s, xs[..n]))
  {
    if n > 0 {
      assert xs[..n] == xs[..n - 1] + [xs[n - 1]];
      OneMore(next', ok', s, xs[..n - 1], xs[n - 1]);
      StaysHeld(next', ok', held, live, leaves, s, xs, n - 1);
    }
  }
}
