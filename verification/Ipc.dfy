/**
 Requests to the orchestrator over lines of text, and the loop that hands the
 lines coming back to whoever waits for them.
 */
module Ipc {
  import opened Prelude
  import opened Correlation

  // What a request parses as: a service request with its id, a service operation
  // with its connection id, and the text it is sent as.
  datatype Request = Request(service: Option<string>, operation: Option<string>, text: Option<string>)

  datatype SendError = NotConvertible | NotSerializable | NotInitialized | QueueClosed

  function RequestId(request: Request): string {
    if request.service.Some? then request.service.value
    else if request.operation.Some? then request.operation.value
    else "general_request"
  }

  // The parsed lines, and the connection id that an operation result carries in
  // its parameters, if it does.
  datatype Message =
    | ServiceResponse(id: string)
    | OperationResult(connectionId: Option<string>)
    | RoutedResponse(requestId: string, payload: Option<string>)
    | Shutdown
    | OtherMessage

  datatype Line = Line(text: string, message: Option<Message>)

  function ResponseId(line: Line): Option<string> {
    match line.message
    case Some(ServiceResponse(id)) => Some(id)
    case Some(OperationResult(connectionId)) => connectionId
    case _ => None
  }

  // What a line does to the pending responses: a response passes its whole line
  // on, a routed one its payload.
  function EventOf(line: Line): Option<Event<string, string>> {
    match line.message
    case Some(RoutedResponse(id, payload)) => Some(Respond(id, payload))
    case _ =>
      match ResponseId(line)
      case Some(id) => Some(Respond(id, Some(line.text)))
      case None => None
  }

  function AfterLine(s: State<string, string>, line: Line): State<string, string> {
    match EventOf(line) case Some(e) => Next(s, e) case None => s
  }

  function Events(lines: seq<Line>): seq<Event<string, string>> {
    if lines == [] then []
    else
      Events(lines[..|lines| - 1]) + match EventOf(lines[|lines| - 1]) case Some(e) => [e] case None => []
  }

  // The lines that are looked at: up to the first shutdown.
  function Handled(lines: seq<Line>): (handled: seq<Line>)
    ensures handled <= lines
    ensures forall i :: 0 <= i < |handled| ==> lines[i].message != Some(Shutdown)
    ensures handled == lines || lines[|handled|].message == Some(Shutdown)
  {
    if lines == [] || lines[0].message == Some(Shutdown) then [] else [lines[0]] + Handled(lines[1..])
  }

  lemma OneMoreLine(s: State<string, string>, lines: seq<Line>, line: Line)
    ensures After(s, Events(lines + [line])) == AfterLine(After(s, Events(lines)), line)
  {
    assert (lines + [line])[..|lines|] == lines;
    if EventOf(line).Some? {
      var e := EventOf(line).value;
      assert (Events(lines) + [e])[..|Events(lines)|] == Events(lines);
    } else {
      assert Events(lines) + [] == Events(lines);
    }
  }

  lemma NextLine(s: State<string, string>, lines: seq<Line>, i: nat)
    requires i < |lines|
    ensures After(s, Events(lines[..i + 1])) == AfterLine(After(s, Events(lines[..i])), lines[i])
  {
    assert lines[..i + 1] == lines[..i] + [lines[i]];
    OneMoreLine(s, lines[..i], lines[i]);
  }

  class IpcClient {
    const responses: PendingResponses<string, string>
    var outgoing: seq<string>   // lines handed to the writer
    var initialized: bool
    var queueOpen: bool

    constructor (responses: PendingResponses<string, string>)
      requires responses.Valid()
      ensures this.responses == responses && outgoing == [] && initialized && queueOpen
    {
      this.responses := responses;
      outgoing, initialized, queueOpen := [], true, true;
    }

    // Registers first: a request that is then not sent leaves its entry behind.
    method SendRequest(request: Request) returns (r: Result<nat, SendError>)
      requires responses.Valid()
      modifies responses, this`outgoing
      ensures responses.Valid()
      ensures r == if request.service == None && request.operation == None then Err(NotConvertible)
                   else if request.text == None then Err(NotSerializable)
                   else if !initialized then Err(NotInitialized)
                   else if !queueOpen then Err(QueueClosed)
                   else Ok(|old(responses.waiters)|)
      ensures var registered := Next(old(responses.Abstract()), Register(RequestId(request)));
        responses.Abstract() == if r.Ok? then registered else Next(registered, GiveUp(|old(responses.waiters)|))
      ensures outgoing == old(outgoing) + (if r.Ok? then [request.text.value] else [])
      ensures RequestId(request) in responses.pending && responses.pending[RequestId(request)] == |old(responses.waiters)|
    {
      var id := RequestId(request);
      var waiter := responses.Register(id);
      r := if request.service == None && request.operation == None then Err(NotConvertible)
      else if request.text == None then Err(NotSerializable)
      else if !initialized then Err(NotInitialized)
      else if !queueOpen then Err(QueueClosed)
      else Ok(waiter);
      if r.Err? {
        responses.GiveUp(waiter);
      } else {
        outgoing := outgoing + [request.text.value];
      }
    }

    method ProcessLine(line: Line)
      requires responses.Valid()
      modifies responses
      ensures responses.Valid() && responses.Abstract() == AfterLine(old(responses.Abstract()), line)
    {
      var responseId := ResponseId(line);
      if responseId.Some? {
        var known := responses.Respond(responseId.value, Some(line.text));
        if known {
          return;
        }
      }
      match line.message
      case Some(RoutedResponse(id, payload)) => { var _ := responses.Respond(id, payload); }
      case _ =>
    }

    // Runs until a shutdown or the end of the input, then closes the channel;
    // requests still pending stay so.
    method ProcessMessages(lines: seq<Line>)
      requires responses.Valid()
      modifies responses, this`initialized
      ensures responses.Valid() && !initialized
      ensures responses.Abstract() == After(old(responses.Abstract()), Events(Handled(lines)))
    {
      ghost var handled := Handled(lines);
      var i := 0;
      while i < |lines|
        invariant i <= |handled| && responses.Valid()
        invariant responses.Abstract() == After(old(responses.Abstract()), Events(lines[..i]))
      {
        if lines[i].message == Some(Shutdown) {
          break;
        }
        NextLine(old(responses.Abstract()), lines, i);
        ProcessLine(lines[i]);
        i := i + 1;
      }
      assert lines[..i] == handled;
      initialized := false;
    }
  }

  // Two requests under one identifier, as two operations on one connection are:
  // the earlier one is displaced, and its caller told the channel closed,
  // exactly when no response with the identifier came in between.
  lemma EarlierIsDisplacedIff(run: seq<Event<string, string>>, k: nat, j: nat)
    requires k < j < |run| && run[k].Register? && run[j] == run[k]
    requires forall i :: k < i < j ==> run[i] != run[k]
    ensures Registered(run[..k]) < |After(Start(), run).waiters|
    ensures After(Start(), run).waiters[Registered(run[..k])].fate == Displaced
       <==> forall i :: k < i < j && run[i].Respond? ==> run[i].id != run[k].id
  {
    var id, between, rest := run[k].id, run[k + 1..j], run[j..];
    FateIsDecidedOnce(run, k);
    assert run[k + 1..] == between + rest;
    FirstFateConcat(id, between, rest);
    assert forall i :: 0 <= i < |between| ==> between[i] == run[k + 1 + i];
    assert forall i :: k < i < j ==> run[i] == between[i - k - 1];
    FreshIdPendingIff(id, between);
    assert rest[0] == Register(id);
  }

  // Which line answers whom: a service response and an operation result with a
  // connection id answer with the whole line, a routed response with its payload
  // or, if that cannot be passed on, not at all; other lines answer nobody.
  lemma LinesAnswer(s: State<string, string>, text: string, id: string, payload: string)
    requires Inv(s) && id in s.pending
    ensures AnswersWith(s, Line(text, Some(ServiceResponse(id))), id, Answered(text))
    ensures AnswersWith(s, Line(text, Some(OperationResult(Some(id)))), id, Answered(text))
    ensures AnswersWith(s, Line(text, Some(RoutedResponse(id, Some(payload)))), id, Answered(payload))
    ensures AnswersWith(s, Line(text, Some(RoutedResponse(id, None))), id, Lost)
    ensures forall message :: message in [None, Some(OperationResult(None)), Some(Shutdown), Some(OtherMessage)] ==>
              AfterLine(s, Line(text, message)) == s
  {}

  // The line settles the request registered last under the id, and nothing else.
  ghost predicate AnswersWith(s: State<string, string>, line: Line, id: string, fate: Fate<string>)
    requires Inv(s) && id in s.pending
  {
    var i, s' := s.pending[id], AfterLine(s, line);
    && s'.pending == s.pending - {id}
    && s'.waiters == s.waiters[i := s.waiters[i].(fate := fate)]
  }

  // Under which identifier a request waits.
  lemma RequestsWaitUnder(id: string, connection: string, operation: Option<string>, text: Option<string>)
    ensures RequestId(Request(Some(id), operation, text)) == id
    ensures RequestId(Request(None, Some(connection), text)) == connection
    ensures RequestId(Request(None, None, text)) == "general_request"
  {}
}
