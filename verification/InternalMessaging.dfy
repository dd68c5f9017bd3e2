/** Requests to other modules, correlated by a new identifier each. */
module InternalMessaging {
  import opened Prelude
  import opened Correlation

  // Identifiers are 128-bit numbers.
  type Uuid = nat

  // What comes back: a message, or an error of the orchestrator.
  datatype Response<+M, +E> = Message(message: M) | SdkError(error: E)

  datatype Failure<+E> =
    | PayloadEncoding
    | EnvelopeEncoding
    | Network
    | Deserialization
    | Orchestrator(error: E)
    | ClosedPrematurely

  // Which of the fallible steps of sending succeed.
  datatype Luck = Luck(payloadEncodes: bool, envelopeEncodes: bool, sends: bool)

  // What the caller of send_request gets, once it gets anything.
  function Awaited<M, E, R>(fate: Fate<Response<M, E>>, decode: M -> Option<R>): Option<Result<R, Failure<E>>> {
    match fate
    case Pending => None
    case Answered(Message(m)) => Some(match decode(m) case Some(r) => Ok(r) case None => Err(Deserialization))
    case Answered(SdkError(e)) => Some(Err(Orchestrator(e)))
    case _ => Some(Err(ClosedPrematurely))
  }

  class InternalMessagingClient<M, E> {
    const responses: PendingResponses<Uuid, Response<M, E>>

    constructor (responses: PendingResponses<Uuid, Response<M, E>>)
      ensures this.responses == responses
    {
      this.responses := responses;
    }

    // Registers before it sends. `requestId` is new; a failure after the
    // registration leaves the entry behind.
    method SendRequest(requestId: Uuid, luck: Luck) returns (r: Result<nat, Failure<E>>)
      requires responses.Valid()
      modifies responses
      ensures responses.Valid()
      ensures r == if !luck.payloadEncodes then Err(PayloadEncoding)
                   else if !luck.envelopeEncodes then Err(EnvelopeEncoding)
                   else if !luck.sends then Err(Network)
                   else Ok(|old(responses.waiters)|)
      ensures var before, registered := old(responses.Abstract()), Next(old(responses.Abstract()), Register(requestId));
        responses.Abstract() == if r == Err(PayloadEncoding) then before
                             else if r.Err? then Next(registered, GiveUp(|before.waiters|))
                             else registered
      ensures luck.payloadEncodes ==> requestId in responses.pending && responses.pending[requestId] == |old(responses.waiters)|
    {
      if !luck.payloadEncodes {
        return Err(PayloadEncoding);
      }
      var waiter := responses.Register(requestId);
      if !luck.envelopeEncodes {
        responses.GiveUp(waiter);
        return Err(EnvelopeEncoding);
      }
      if !luck.sends {
        responses.GiveUp(waiter);
        return Err(Network);
      }
      r := Ok(waiter);
    }

    method ProcessRoutedModuleResponse(responseId: Uuid, response: Response<M, E>)
      requires responses.Valid()
      modifies responses
      ensures responses.Valid()
      ensures responses.Abstract() == Next(old(responses.Abstract()), Respond(responseId, Some(response)))
    {
      var _ := responses.Respond(responseId, Some(response));
    }
  }

  // Step j is the first response with the id that step k registered.
  ghost predicate FirstAnswer<M, E>(run: seq<Event<Uuid, Response<M, E>>>, k: nat, j: int)
    requires k < |run| && run[k].Register?
  {
    && k < j < |run| && run[j].Respond? && run[j].id == run[k].id
    && forall h :: k < h < j && run[h].Respond? ==> run[h].id != run[k].id
  }

  // What a response brings its caller: the message decoded, or one of three errors.
  ghost predicate Brings<M, E, R>(got: Option<Result<R, Failure<E>>>, payload: Option<Response<M, E>>, decode: M -> Option<R>) {
    match payload
    case None => got == Some(Err(ClosedPrematurely))
    case Some(SdkError(e)) => got == Some(Err(Orchestrator(e)))
    case Some(Message(m)) =>
      if decode(m).Some? then got == Some(Ok(decode(m).value)) else got == Some(Err(Deserialization))
  }

  // A request whose id is never used again gets nothing as long as no response
  // with its id has come, and otherwise what the first such response brings.
  lemma AnswerIff<M(!new), E(!new), R>(run: seq<Event<Uuid, Response<M, E>>>, k: nat, decode: M -> Option<R>)
    requires k < |run| && run[k].Register?
    requires forall j :: k < j < |run| ==> run[j] != run[k]
    ensures Registered(run[..k]) < |After(Start(), run).waiters|
    ensures var got := Awaited(After(Start(), run).waiters[Registered(run[..k])].fate, decode);
      && (got == None <==> (forall j :: k < j < |run| && run[j].Respond? ==> run[j].id != run[k].id))
      && (forall j :: FirstAnswer(run, k, j) ==> Brings(got, run[j].payload, decode))
  {
    var id, later := run[k].id, run[k + 1..];
    FateIsDecidedOnce(run, k);
    assert forall i :: 0 <= i < |later| ==> later[i] == run[k + 1 + i];
    assert forall i :: k < i < |run| ==> run[i] == later[i - k - 1];
    FreshIdPendingIff(id, later);
    forall j | FirstAnswer(run, k, j) ensures FirstFate(id, later) == Brought(run[j].payload) {
      FirstIsDecisive(run, k, j);
    }
  }

  lemma FirstIsDecisive<M, E>(run: seq<Event<Uuid, Response<M, E>>>, k: nat, j: int)
    requires k < |run| && run[k].Register?
    requires forall i :: k < i < |run| ==> run[i] != run[k]
    requires FirstAnswer(run, k, j)
    ensures FirstFate(run[k].id, run[k + 1..]) == Brought(run[j].payload)
  {
    FirstResponseDecides(run[k].id, run[k + 1..], j - k - 1);
  }
}
