/**
 Requests and their responses: one map of pending responses, shared by everyone
 who sends requests and by the loop that delivers what comes back.
 */
module Correlation {
  import opened Prelude

  // What has become of the one-shot sender registered for a request. Displaced
  // and Lost ones were dropped, so their waiter is told the channel closed.
  datatype Fate<+P> = Pending | Answered(payload: P) | Lost | Displaced

  // Waiters are numbered in the order of their registration. A caller that
  // returned with an error no longer listens.
  datatype Waiter<Id, P> = Waiter(id: Id, fate: Fate<P>, listening: bool)

  datatype State<!Id(==), P> = State(pending: map<Id, nat>, waiters: seq<Waiter<Id, P>>)

  // A response without a payload is one that could not be passed on.
  datatype Event<Id, P> =
    | Register(id: Id)
    | GiveUp(waiter: nat)
    | Respond(id: Id, payload: Option<P>)

  function Resolve<Id, P>(ws: seq<Waiter<Id, P>>, i: nat, fate: Fate<P>): seq<Waiter<Id, P>> {
    if i < |ws| then ws[i := ws[i].(fate := fate)] else ws
  }

  function Brought<P>(payload: Option<P>): Fate<P> {
    match payload case Some(p) => Answered(p) case None => Lost
  }

  function Next<Id(==), P>(s: State<Id, P>, e: Event<Id, P>): State<Id, P> {
    match e
    case Register(id) =>
      var ws := if id in s.pending then Resolve(s.waiters, s.pending[id], Displaced) else s.waiters;
      State(s.pending[id := |s.waiters|], ws + [Waiter(id, Pending, true)])
    case GiveUp(i) =>
      if i < |s.waiters| then s.(waiters := s.waiters[i := s.waiters[i].(listening := false)]) else s
    case Respond(id, payload) =>
      if id in s.pending then State(s.pending - {id}, Resolve(s.waiters, s.pending[id], Brought(payload))) else s
  }

  function Start<Id, P>(): State<Id, P> {
    State(map[], [])
  }

  function After<Id(==), P>(s: State<Id, P>, run: seq<Event<Id, P>>): State<Id, P> {
    if run == [] then s else Next(After(s, run[..|run| - 1]), run[|run| - 1])
  }

  // The entries are exactly the waiters that are still pending.
  ghost predicate Inv<Id(!new), P>(s: State<Id, P>) {
    && (forall id :: id in s.pending ==>
          s.pending[id] < |s.waiters| && s.waiters[s.pending[id]].id == id && s.waiters[s.pending[id]].fate == Pending)
    && (forall i :: 0 <= i < |s.waiters| && s.waiters[i].fate == Pending ==>
          s.waiters[i].id in s.pending && s.pending[s.waiters[i].id] == i)
  }

  lemma NextKeepsInv<Id(!new), P>(s: State<Id, P>, e: Event<Id, P>)
    requires Inv(s)
    ensures Inv(Next(s, e))
  {}

  lemma {:induction false} RunsKeepInv<Id(!new), P>(run: seq<Event<Id, P>>)
    ensures Inv(After(Start(), run))
  {
    if run != [] {
      RunsKeepInv(run[..|run| - 1]);
      NextKeepsInv(After(Start(), run[..|run| - 1]), run[|run| - 1]);
    }
  }

  // The first later event about its id decides what becomes of a waiter.
  function FirstFate<Id(==), P>(id: Id, later: seq<Event<Id, P>>): Fate<P> {
    if later == [] then Pending
    else
      match later[0]
      case Register(other) => if other == id then Displaced else FirstFate(id, later[1..])
      case Respond(other, payload) => if other == id then Brought(payload) else FirstFate(id, later[1..])
      case GiveUp(_) => FirstFate(id, later[1..])
  }

  function Registered<Id, P>(run: seq<Event<Id, P>>): nat {
    if run == [] then 0 else Registered(run[..|run| - 1]) + if run[|run| - 1].Register? then 1 else 0
  }

  lemma {:induction false} FirstFateConcat<Id, P>(id: Id, sooner: seq<Event<Id, P>>, later: seq<Event<Id, P>>)
    ensures FirstFate(id, sooner + later) ==
            if FirstFate(id, sooner) == Pending then FirstFate(id, later) else FirstFate(id, sooner)
  {
    if sooner == [] {
      assert sooner + later == later;
    } else {
      assert (sooner + later)[1..] == sooner[1..] + later;
      FirstFateConcat(id, sooner[1..], later);
    }
  }

  lemma {:induction false} WaitersAreRegistrations<Id(!new), P>(run: seq<Event<Id, P>>)
    ensures |After(Start(), run).waiters| == Registered(run)
  {
    if run != [] {
      WaitersAreRegistrations(run[..|run| - 1]);
    }
  }

  // How one event changes one waiter.
  lemma WaiterStep<Id(!new), P>(s: State<Id, P>, e: Event<Id, P>, i: nat)
    requires Inv(s) && i < |s.waiters|
    ensures var w, w' := s.waiters[i], Next(s, e).waiters[i];
      && w'.id == w.id
      && w'.fate == (if w.fate == Pending then FirstFate(w.id, [e]) else w.fate)
      && w'.listening == (w.listening && e != GiveUp(i))
  {
    assert [e][0] == e && [e][1..] == [];
  }

  // Over every run: what becomes of each waiter is what the first later event
  // about its own id says, once and for all.
  lemma {:induction false} FateIsDecidedOnce<Id(!new), P>(run: seq<Event<Id, P>>, k: nat)
    requires k < |run| && run[k].Register?
    ensures var i := Registered(run[..k]);
      && i < |After(Start(), run).waiters|
      && After(Start(), run).waiters[i].id == run[k].id
      && After(Start(), run).waiters[i].fate == FirstFate(run[k].id, run[k + 1..])
  {
    var before, last, i := run[..|run| - 1], run[|run| - 1], Registered(run[..k]);
    RunsKeepInv(before);
    WaitersAreRegistrations(before);
    if k == |before| {
      assert run[..k] == before && run[k + 1..] == [];
    } else {
      FateIsDecidedOnce(before, k);
      assert before[..k] == run[..k] && before[k] == run[k];
      assert run[k + 1..] == before[k + 1..] + [last];
      FirstFateConcat(run[k].id, before[k + 1..], [last]);
      WaiterStep(After(Start(), before), last, i);
    }
  }

  // A response changes something exactly when its id is pending, and then only
  // the waiter registered last under that id.
  lemma UnknownResponseIff<Id(!new), P>(s: State<Id, P>, id: Id, payload: Option<P>)
    requires Inv(s)
    ensures Next(s, Respond(id, payload)) == s <==> id !in s.pending
    ensures forall i :: 0 <= i < |s.waiters| && Next(s, Respond(id, payload)).waiters[i] != s.waiters[i] ==>
              id in s.pending && i == s.pending[id] && s.waiters[i].id == id
  {
    if id in s.pending {
      assert id !in Next(s, Respond(id, payload)).pending;
    }
  }

  // A second response to the same request changes nothing, whatever came
  // between, as long as the id was not registered again.
  lemma {:induction false} AnsweredStaysAnswered<Id(!new), P>(s: State<Id, P>, id: Id, between: seq<Event<Id, P>>, again: Option<P>)
    requires id !in s.pending && forall j :: 0 <= j < |between| ==> between[j] != Register(id)
    ensures id !in After(s, between).pending
    ensures After(s, between + [Respond(id, again)]) == After(s, between)
  {
    assert (between + [Respond(id, again)])[..|between|] == between;
    if between != [] {
      AnsweredStaysAnswered(s, id, between[..|between| - 1], again);
    }
  }

  // How many responses found their entry, and how many registrations took over
  // the entry of another.
  function Removals<Id(==), P>(run: seq<Event<Id, P>>): nat {
    if run == [] then 0
    else
      var before, e := run[..|run| - 1], run[|run| - 1];
      Removals(before) + if e.Respond? && e.id in After(Start(), before).pending then 1 else 0
  }

  function Displacements<Id(==), P>(run: seq<Event<Id, P>>): nat {
    if run == [] then 0
    else
      var before, e := run[..|run| - 1], run[|run| - 1];
      Displacements(before) + if e.Register? && e.id in After(Start(), before).pending then 1 else 0
  }

  // No entry is lost: registered = pending + removed by a response + displaced.
  lemma {:induction false} EntriesAreConserved<Id(!new), P>(run: seq<Event<Id, P>>)
    ensures Registered(run) == |After(Start(), run).pending| + Removals(run) + Displacements(run)
  {
    if run != [] {
      var before, e := run[..|run| - 1], run[|run| - 1];
      EntriesAreConserved(before);
      var m := After(Start(), before).pending;
      match e {
        case Register(id) => SizePut(m, id, |After(Start(), before).waiters|);
        case Respond(id, _) => SizeMinus(m, id);
        case GiveUp(_) =>
      }
    }
  }

  // With identifiers that are never used twice, a waiter is pending until the
  // first response with its id, and is never displaced.
  lemma {:induction false} FreshIdPendingIff<Id, P>(id: Id, later: seq<Event<Id, P>>)
    requires forall j :: 0 <= j < |later| ==> later[j] != Register(id)
    ensures FirstFate(id, later) != Displaced
    ensures FirstFate(id, later) == Pending <==> forall j :: 0 <= j < |later| && later[j].Respond? ==> later[j].id != id
  {
    if later != [] {
      assert forall j :: 0 <= j < |later| - 1 ==> later[1..][j] == later[j + 1];
      assert forall j :: 1 <= j < |later| ==> later[j] == later[1..][j - 1];
      FreshIdPendingIff(id, later[1..]);
    }
  }

  // With such identifiers the first response is the one that counts.
  lemma {:induction false} FirstResponseDecides<Id, P>(id: Id, later: seq<Event<Id, P>>, j: nat)
    requires forall i :: 0 <= i < |later| ==> later[i] != Register(id)
    requires j < |later| && later[j].Respond? && later[j].id == id
    requires forall i :: 0 <= i < j && later[i].Respond? ==> later[i].id != id
    ensures FirstFate(id, later) == Brought(later[j].payload)
  {
    if j > 0 {
      assert forall i :: 0 <= i < |later| - 1 ==> later[1..][i] == later[i + 1];
      FirstResponseDecides(id, later[1..], j - 1);
    }
  }

  // The shared map, behind its lock.
  class PendingResponses<!Id(==), P> {
    var pending: map<Id, nat>
    var waiters: seq<Waiter<Id, P>>

    function Abstract(): State<Id, P>
      reads this
    {
      State(pending, waiters)
    }

    ghost predicate Valid()
      reads this
    {
      forall id :: id in pending ==> pending[id] < |waiters|
    }

    constructor ()
      ensures Valid() && Abstract() == Start()
    {
      pending, waiters := map[], [];
    }

    // Registers a sender; the waiter keeps the receiving end.
    method Register(id: Id) returns (waiter: nat)
      requires Valid()
      modifies this
      ensures Valid() && Abstract() == Next(old(Abstract()), Event.Register(id))
      ensures waiter == |old(waiters)|
    {
      waiter := |waiters|;
      if id in pending {
        waiters := Resolve(waiters, pending[id], Displaced);
      }
      pending := pending[id := waiter];
      waiters := waiters + [Waiter(id, Pending, true)];
    }

    // Takes the entry out and passes the payload on, if there is one.
    method Respond(id: Id, payload: Option<P>) returns (known: bool)
      requires Valid()
      modifies this
      ensures Valid() && Abstract() == Next(old(Abstract()), Event.Respond(id, payload))
      ensures known == (id in old(pending))
    {
      known := id in pending;
      if known {
        waiters := Resolve(waiters, pending[id], Brought(payload));
        pending := pending - {id};
      }
    }

    // The caller returns with an error; its entry stays.
    method GiveUp(waiter: nat)
      requires Valid() && waiter < |waiters|
      modifies this
      ensures Valid() && Abstract() == Next(old(Abstract()), Event.GiveUp(waiter)) && pending == old(pending)
    {
      waiters := waiters[waiter := waiters[waiter].(listening := false)];
    }
  }
}
