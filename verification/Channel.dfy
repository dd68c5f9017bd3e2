/**
 The TCP channel used by one task at a time: its three fields, its retry loops
 and its send and receive operations. The network is an environment that answers
 each connection attempt from a script; a loop that outlives the script is still
 trying. Writes may fail at any byte.
 */
module Channel {
  import opened Prelude
  import opened Framing
  import opened Backoff
  import T = Transport

  datatype ConnectionState = Connected | Disconnected | Connecting | Failed

  datatype ReconnectPolicy =
    | NoReconnect
    | FixedInterval(delay: nat, maxAttempts: Option<nat>)
    | ExponentialBackoff(initialDelay: nat, maxDelay: nat, multiplier: real)

  datatype NetworkError =
    | ConnectionError
    | ConnectionTimeout
    | ConnectionClosed
    | ConnectionFailed
    | MessageFailure(error: MessageError)
    | IoError
    | ReconnectionFailed(attempts: nat)

  type Outcome = Result<(), NetworkError>

  // What one connection attempt meets; an accepted one comes with the bytes that
  // the peer will deliver before the stream ends.
  datatype Dial = Accepted(inbound: Bytes) | Refused | TimedOut | BadAddress

  // How many attempts fail before the first accepted one.
  function FirstUp(dials: seq<Dial>): (n: nat)
    ensures n <= |dials|
    ensures forall i :: 0 <= i < n ==> !dials[i].Accepted?
    ensures n < |dials| ==> dials[n].Accepted?
  {
    if dials == [] || dials[0].Accepted? then 0 else 1 + FirstUp(dials[1..])
  }

  lemma NextDial(script: seq<Dial>, k: nat)
    requires k <= FirstUp(script)
    ensures script[k..] == [] <==> k == |script|
    ensures k < |script| ==> script[k..][0] == script[k] && script[k..][1..] == script[k + 1..]
    ensures k < |script| ==> (script[k].Accepted? <==> k == FirstUp(script))
  {}

  // The most attempts one connect call may make.
  function Limit(policy: ReconnectPolicy): Option<nat> {
    match policy
    case NoReconnect => Some(1)
    case FixedInterval(_, max) => max
    case ExponentialBackoff(_, _, _) => None
  }

  function GivesUp(policy: ReconnectPolicy, dials: seq<Dial>): bool {
    Limit(policy).Some? && Limit(policy).value <= FirstUp(dials)
  }

  function Succeeds(policy: ReconnectPolicy, dials: seq<Dial>): bool {
    !GivesUp(policy, dials) && FirstUp(dials) < |dials|
  }

  // Failed attempts of one connect call.
  function Failures(policy: ReconnectPolicy, dials: seq<Dial>): (n: nat)
    ensures n <= FirstUp(dials)
  {
    if GivesUp(policy, dials) then Limit(policy).value else FirstUp(dials)
  }

  // When a connect call gives up: after one failure without a policy, after
  // exactly max_attempts in a row under the fixed one, never otherwise.
  lemma GivesUpIff(policy: ReconnectPolicy, dials: seq<Dial>)
    ensures GivesUp(policy, dials) <==>
            match policy
            case NoReconnect => dials != [] && !dials[0].Accepted?
            case FixedInterval(_, Some(n)) => n <= |dials| && forall i :: 0 <= i < n ==> !dials[i].Accepted?
            case FixedInterval(_, None) => false
            case ExponentialBackoff(_, _, _) => false
  {
    var n := FirstUp(dials);
    if policy.FixedInterval? && policy.maxAttempts.Some? && n < policy.maxAttempts.value {
      assert n < |dials| ==> dials[n].Accepted?;
    }
  }

  // When it succeeds: at the first accepted attempt, if it has not given up by
  // then; the answers after that one are left.
  lemma SucceedsIff(policy: ReconnectPolicy, dials: seq<Dial>)
    ensures Succeeds(policy, dials) <==> !GivesUp(policy, dials) && exists k :: 0 <= k < |dials| && dials[k].Accepted?
    ensures Succeeds(policy, dials) ==>
              var k := |dials| - |Remaining(policy, dials)| - 1;
              && 0 <= k && dials[k].Accepted? && (forall i :: 0 <= i < k ==> !dials[i].Accepted?)
              && Remaining(policy, dials) == dials[k + 1..]
  {
    var n := FirstUp(dials);
    if exists k :: 0 <= k < |dials| && dials[k].Accepted? {
      var k :| 0 <= k < |dials| && dials[k].Accepted?;
      assert n <= k;
    }
  }

  // The answers left after one connect call.
  function Remaining(policy: ReconnectPolicy, dials: seq<Dial>): seq<Dial> {
    if Succeeds(policy, dials) then dials[FirstUp(dials) + 1..] else dials[Failures(policy, dials)..]
  }

  // Ensuring a connection: whether it ends with one, whether it ends in Failed,
  // and what is left of the answers and of the bytes to come.
  function IsConnected(state: ConnectionState, policy: ReconnectPolicy, dials: seq<Dial>): bool {
    state == Connected || (state != Failed && Succeeds(policy, dials))
  }

  function EndsFailed(state: ConnectionState, policy: ReconnectPolicy, dials: seq<Dial>): bool {
    state == Failed || (state != Connected && GivesUp(policy, dials))
  }

  function DialsLeft(state: ConnectionState, policy: ReconnectPolicy, dials: seq<Dial>): seq<Dial> {
    if state == Connected || state == Failed then dials else Remaining(policy, dials)
  }

  function InboundLeft(state: ConnectionState, policy: ReconnectPolicy, dials: seq<Dial>, inbound: Bytes): Bytes {
    if state != Connected && state != Failed && Succeeds(policy, dials) then dials[FirstUp(dials)].inbound else inbound
  }

  // What k failures mean for a connect call: it has made all the attempts it may
  // make, ...
  lemma AtLimit(policy: ReconnectPolicy, script: seq<Dial>, k: nat)
    requires k <= FirstUp(script) && Limit(policy) == Some(k)
    ensures GivesUp(policy, script) && Failures(policy, script) == k && Remaining(policy, script) == script[k..]
  {}

  // ... it waits for an answer, ...
  lemma AtEnd(policy: ReconnectPolicy, script: seq<Dial>, k: nat)
    requires k <= FirstUp(script) && k == |script| && (Limit(policy).Some? ==> k < Limit(policy).value)
    ensures !GivesUp(policy, script) && !Succeeds(policy, script)
    ensures Failures(policy, script) == k && Remaining(policy, script) == script[k..]
  {}

  // ... or its next attempt is accepted.
  lemma AtSuccess(policy: ReconnectPolicy, script: seq<Dial>, k: nat)
    requires k <= FirstUp(script) && k < |script| && script[k].Accepted? && (Limit(policy).Some? ==> k < Limit(policy).value)
    ensures Succeeds(policy, script) && FirstUp(script) == k
    ensures Failures(policy, script) == k && Remaining(policy, script) == script[k + 1..]
  {
    assert forall i :: 0 <= i < FirstUp(script) ==> !script[i].Accepted?;
  }

  // The wait after the k-th failure.
  function Wait(policy: ReconnectPolicy, k: nat): nat
    requires !policy.NoReconnect?
  {
    match policy
    case FixedInterval(delay, _) => delay
    case ExponentialBackoff(initial, max, multiplier) => Delay(initial, max, multiplier, k)
  }

  function Waits(policy: ReconnectPolicy, n: nat): seq<nat> {
    if policy.NoReconnect? then [] else seq(n, k requires 0 <= k < n => Wait(policy, k))
  }

  lemma WaitsStep(policy: ReconnectPolicy, n: nat)
    requires !policy.NoReconnect?
    ensures Waits(policy, n + 1) == Waits(policy, n) + [Wait(policy, n)]
  {}

  // The waits after n failures: always the same under the fixed policy; under
  // exponential backoff with a whole multiplier the initial one, multiplied every
  // time and capped.
  lemma WaitsAre(n: nat, k: nat, delay: nat, max: Option<nat>, cap: nat, m: nat)
    requires k < n && m >= 1
    ensures |Waits(FixedInterval(delay, max), n)| == n && Waits(FixedInterval(delay, max), n)[k] == delay
    ensures |Waits(ExponentialBackoff(delay, cap, m as real), n)| == n
    ensures Waits(ExponentialBackoff(delay, cap, m as real), n)[k] == if k == 0 then delay else Min(delay * Pow(m, k), cap)
    ensures Waits(NoReconnect, n) == []
  {
    if k > 0 {
      ClosedForm(delay, cap, m, k);
    }
    assert Waits(ExponentialBackoff(delay, cap, m as real), n)[k] == Delay(delay, cap, m as real, k);
  }

  // With any multiplier each wait is the one before it, multiplied and capped.
  lemma WaitsGrow(n: nat, k: nat, initial: nat, cap: nat, multiplier: real)
    requires k < n
    ensures var waits := Waits(ExponentialBackoff(initial, cap, multiplier), n);
      |waits| == n && waits[k] == if k == 0 then initial else NextDelay(waits[k - 1], cap, multiplier)
  {
    assert Waits(ExponentialBackoff(initial, cap, multiplier), n)[k] == Delay(initial, cap, multiplier, k);
  }

  predicate IsUp(r: Option<Outcome>) {
    r.Some? && r.value.Ok?
  }

  // One write attempt: on which connection, how many bytes, and whether it was
  // written and flushed.
  datatype Try = Try(conn: nat, bytes: nat, ok: bool)

  function Base(conns: seq<T.Conn>, c: nat): T.Conn {
    if c < |conns| then conns[c] else T.FRESH
  }

  function TryOn(m: EncodedMessage, c: T.Conn, try: Option<Try>, i: nat): T.Conn {
    if try.Some? && try.value.conn == i && try.value.bytes <= |Frame(m)| then T.Grow(c, m, 0, try.value.bytes) else c
  }

  // What a call with these write attempts makes of each connection: no other
  // connection is touched, and those that it wrote to have grown by one frame or
  // a part of it.
  ghost predicate Effect(before: seq<T.Conn>, after: seq<T.Conn>, m: EncodedMessage,
                         first: Option<Try>, second: Option<Try>) {
    && |before| <= |after|
    && (first.Some? ==> first.value.conn < |after| && first.value.bytes <= |Frame(m)|)
    && (second.Some? ==> second.value.conn < |after| && second.value.bytes <= |Frame(m)|)
    && (forall i: nat :: i < |after| ==> after[i] == TryOn(m, TryOn(m, Base(before, i), first, i), second, i))
  }

  // At most one new connection was made.
  ghost predicate Opened(before: seq<T.Conn>, after: seq<T.Conn>) {
    after == before || after == before + [T.FRESH]
  }

  // At most one write attempt, on the newest connection.
  ghost predicate Wrote(before: seq<T.Conn>, after: seq<T.Conn>, m: EncodedMessage, try: Option<Try>) {
    if try == None then after == before
    else
      && try.value.conn + 1 == |before| && try.value.bytes <= |Frame(m)|
      && after == before[try.value.conn := T.Grow(before[try.value.conn], m, 0, try.value.bytes)]
  }

  // A call opens, writes, opens again and writes again.
  lemma EffectOfSend(c0: seq<T.Conn>, c1: seq<T.Conn>, c2: seq<T.Conn>, c3: seq<T.Conn>, c4: seq<T.Conn>,
                     m: EncodedMessage, first: Option<Try>, second: Option<Try>)
    requires Opened(c0, c1) && Wrote(c1, c2, m, first) && Opened(c2, c3) && Wrote(c3, c4, m, second)
    ensures Effect(c0, c4, m, first, second)
  {
    assert forall i: nat :: i < |c1| ==> c1[i] == Base(c0, i);
    assert forall i: nat :: i < |c2| ==> c2[i] == TryOn(m, Base(c0, i), first, i);
    assert forall i: nat :: i < |c3| ==> c3[i] == TryOn(m, Base(c0, i), first, i);
  }

  lemma GrownConn(c: T.Conn, m: EncodedMessage, n: nat)
    requires T.ConnOk(c) && c.cut == [] && m.format != Auto && n <= |Frame(m)|
    ensures T.ConnOk(T.Grow(c, m, 0, n))
    ensures n == |Frame(m)| ==> T.Grow(c, m, 0, n).cut == []
  {
    if n == 0 {
      assert c.bytes + Frame(m)[0..0] == c.bytes;
    } else {
      assert Frame(m)[..0] == [];
      T.GrowOk(c, m, 0, n);
    }
  }

  lemma InPieces(input: Bytes, len: nat)
    requires 5 + len <= |input|
    ensures input[..4] + input[4..][..1] + input[4..][1..][..len] == input[..5 + len]
    ensures |input[4..][1..]| == |input| - 5
  {}

  ghost predicate AllOk(conns: seq<T.Conn>) {
    forall i :: 0 <= i < |conns| ==> T.ConnOk(conns[i])
  }

  class TcpChannel {
    const policy: ReconnectPolicy
    var state: ConnectionState
    var stream: Option<nat>
    var connectAttempts: nat

    // The environment: answers to the coming attempts, time slept, and the
    // connections made so far with what is still to arrive on the newest.
    var dials: seq<Dial>
    var slept: seq<nat>
    var conns: seq<T.Conn>
    var inbound: Bytes

    // Connected means a stream is stored; the stored stream is the newest
    // connection and carries whole frames only; every connection carries whole
    // frames and at most one cut frame.
    ghost predicate Valid()
      reads this
    {
      && (state == Connected ==> stream.Some?)
      && (stream.Some? ==> stream.value + 1 == |conns| && conns[stream.value].cut == [])
      && AllOk(conns)
    }

    constructor (policy: ReconnectPolicy, dials: seq<Dial>)
      ensures Valid() && state == Disconnected && stream == None && conns == [] && slept == []
      ensures this.policy == policy && this.dials == dials
    {
      this.policy := policy;
      this.dials := dials;
      state, stream, connectAttempts := Disconnected, None, 0;
      slept, conns, inbound := [], [], [];
    }

    // One attempt; None while it has not been answered.
    method TryConnect() returns (r: Option<Outcome>)
      requires Valid()
      modifies this`state, this`stream, this`dials, this`conns, this`inbound
      ensures Valid()
      ensures old(state) == Connected ==>
                r == Some(Ok(())) && state == old(state) && stream == old(stream) && dials == old(dials)
                && conns == old(conns) && inbound == old(inbound)
      ensures old(state) != Connected && old(dials) == [] ==>
                r == None && state == Connecting && stream == old(stream) && dials == []
                && conns == old(conns) && inbound == old(inbound)
      ensures old(state) != Connected && old(dials) != [] ==>
                && dials == old(dials)[1..]
                && var d := old(dials)[0];
                   if d.Accepted? then
                     && r == Some(Ok(())) && state == Connected
                     && conns == old(conns) + [T.FRESH] && stream == Some(|old(conns)|) && inbound == d.inbound
                   else
                     && (d.Refused? ==> r == Some(Err(ConnectionError)))
                     && (d.TimedOut? ==> r == Some(Err(ConnectionTimeout)))
                     && (d.BadAddress? ==> r == Some(Err(IoError)))
                     && state == (if d.BadAddress? then Connecting else Disconnected)
                     && stream == old(stream) && conns == old(conns) && inbound == old(inbound)
    {
      if state == Connected {
        return Some(Ok(()));
      }
      state := Connecting;
      if dials == [] {
        return None;
      }
      var d := dials[0];
      dials := dials[1..];
      match d {
        case BadAddress =>
          return Some(Err(IoError));
        case Refused =>
          state := Disconnected;
          return Some(Err(ConnectionError));
        case TimedOut =>
          state := Disconnected;
          return Some(Err(ConnectionTimeout));
        case Accepted(bytes) =>
          conns := conns + [T.FRESH];
          stream := Some(|conns| - 1);
          inbound := bytes;
          state := Connected;
          assert T.ConnOk(T.FRESH);
          return Some(Ok(()));
      }
    }

    // The state after a connect call that had `before` as its script.
    ghost predicate ConnectedFrom(before: seq<Dial>, conns0: seq<T.Conn>, stream0: Option<nat>, inbound0: Bytes)
      reads this
    {
      && (Succeeds(policy, before) ==>
            && state == Connected
            && conns == conns0 + [T.FRESH] && stream == Some(|conns0|)
            && inbound == before[FirstUp(before)].inbound)
      && (!Succeeds(policy, before) ==>
            && conns == conns0 && stream == stream0 && inbound == inbound0)
      && dials == Remaining(policy, before)
      && (GivesUp(policy, before) <==> state == Failed)
    }

    // What a connect call that had `before` as its script returns and has waited.
    ghost predicate Reported(r: Option<Outcome>, before: seq<Dial>, slept0: seq<nat>)
      reads this
    {
      && slept == slept0 + Waits(policy, Failures(policy, before))
      && (r == None <==> !Succeeds(policy, before) && !GivesUp(policy, before))
      && (IsUp(r) <==> Succeeds(policy, before))
      && (r.Some? && r.value.Err? ==> !r.value.error.MessageFailure?)
    }

    method ConnectFixedInterval(delay: nat, maxAttempts: Option<nat>) returns (r: Option<Outcome>)
      requires Valid() && policy == FixedInterval(delay, maxAttempts)
      requires state == Connecting && connectAttempts == 0
      modifies this
      ensures Valid()
      ensures ConnectedFrom(old(dials), old(conns), old(stream), old(inbound))
      ensures Reported(r, old(dials), old(slept))
      ensures connectAttempts == Failures(policy, old(dials))
      ensures r == if Succeeds(policy, old(dials)) then Some(Ok(()))
                   else if GivesUp(policy, old(dials)) then Some(Err(ReconnectionFailed(maxAttempts.value)))
                   else None
    {
      ghost var script := dials;
      var attempts := 0;
      while true
        invariant Valid() && attempts <= FirstUp(script) && dials == script[attempts..]
        invariant maxAttempts.Some? ==> attempts <= maxAttempts.value
        invariant state != Connected && state != Failed && connectAttempts == attempts
        invariant conns == old(conns) && stream == old(stream) && inbound == old(inbound)
        invariant slept == old(slept) + Waits(policy, attempts)
        decreases FirstUp(script) - attempts
      {
        if maxAttempts.Some? && attempts >= maxAttempts.value {
          AtLimit(policy, script, attempts);
          state := Failed;
          return Some(Err(ReconnectionFailed(attempts)));
        }
        NextDial(script, attempts);
        if attempts == |script| {
          AtEnd(policy, script, attempts);
        } else if script[attempts].Accepted? {
          AtSuccess(policy, script, attempts);
        }
        r := TryConnect();
        if r == None || r.value.Ok? {
          return;
        }
        attempts := attempts + 1;
        connectAttempts := attempts;
        slept := slept + [delay];
        WaitsStep(policy, attempts - 1);
      }
    }

    method ConnectExponentialBackoff(initialDelay: nat, maxDelay: nat, multiplier: real) returns (r: Option<Outcome>)
      requires Valid() && policy == ExponentialBackoff(initialDelay, maxDelay, multiplier)
      requires state == Connecting && connectAttempts == 0
      modifies this
      ensures Valid()
      ensures ConnectedFrom(old(dials), old(conns), old(stream), old(inbound))
      ensures Reported(r, old(dials), old(slept))
      ensures connectAttempts == Failures(policy, old(dials))
      ensures r == if Succeeds(policy, old(dials)) then Some(Ok(())) else None
    {
      ghost var script := dials;
      var attempts := 0;
      var currentDelay := initialDelay;
      while true
        invariant Valid() && attempts <= FirstUp(script) && dials == script[attempts..]
        invariant state != Connected && state != Failed && connectAttempts == attempts
        invariant conns == old(conns) && stream == old(stream) && inbound == old(inbound)
        invariant slept == old(slept) + Waits(policy, attempts)
        invariant currentDelay == Wait(policy, attempts)
        decreases FirstUp(script) - attempts
      {
        NextDial(script, attempts);
        if attempts == |script| {
          AtEnd(policy, script, attempts);
        } else if script[attempts].Accepted? {
          AtSuccess(policy, script, attempts);
        }
        r := TryConnect();
        if r == None || r.value.Ok? {
          return;
        }
        attempts := attempts + 1;
        connectAttempts := attempts;
        slept := slept + [currentDelay];
        WaitsStep(policy, attempts - 1);
        currentDelay := NextDelay(currentDelay, maxDelay, multiplier);
      }
    }

    // Without a policy the first failure is the last.
    method ConnectOnce() returns (r: Option<Outcome>)
      requires Valid() && policy == NoReconnect && state == Connecting
      modifies this
      ensures Valid()
      ensures ConnectedFrom(old(dials), old(conns), old(stream), old(inbound))
      ensures Reported(r, old(dials), old(slept))
    {
      NextDial(dials, 0);
      r := TryConnect();
      if r.Some? && r.value.Err? {
        state := Failed;
      }
    }

    // Connects under the policy. Failed is entered exactly when the single
    // attempt of the None policy failed or the first max_attempts of the fixed
    // policy did, never under exponential backoff.
    method ConnectWithRetry() returns (r: Option<Outcome>)
      requires Valid()
      modifies this
      ensures Valid()
      ensures ConnectedFrom(old(dials), old(conns), old(stream), old(inbound))
      ensures Reported(r, old(dials), old(slept))
    {
      state := Connecting;
      connectAttempts := 0;
      match policy {
        case NoReconnect =>
          r := ConnectOnce();
        case FixedInterval(delay, maxAttempts) =>
          r := ConnectFixedInterval(delay, maxAttempts);
        case ExponentialBackoff(initialDelay, maxDelay, multiplier) =>
          r := ConnectExponentialBackoff(initialDelay, maxDelay, multiplier);
      }
    }

    // From Failed nothing is attempted: an explicit connect or close is needed.
    method EnsureConnected() returns (r: Option<Outcome>)
      requires Valid()
      modifies this
      ensures Valid()
      ensures old(state) == Connected ==> r == Some(Ok(())) && unchanged(this)
      ensures old(state) == Failed ==> r == Some(Err(ConnectionFailed)) && unchanged(this)
      ensures old(state) == Disconnected || old(state) == Connecting ==>
                && ConnectedFrom(old(dials), old(conns), old(stream), old(inbound))
                && (IsUp(r) <==> Succeeds(policy, old(dials)))
      ensures Opened(old(conns), conns)
      ensures IsUp(r) ==> state == Connected
      ensures IsUp(r) <==> IsConnected(old(state), policy, old(dials))
      ensures state == Failed <==> EndsFailed(old(state), policy, old(dials))
      ensures dials == DialsLeft(old(state), policy, old(dials))
      ensures inbound == InboundLeft(old(state), policy, old(dials), old(inbound))
    {
      match state {
        case Connected => r := Some(Ok(()));
        case Failed => r := Some(Err(ConnectionFailed));
        case Disconnected => r := ConnectWithRetry();
        case Connecting => r := ConnectWithRetry();
      }
    }

    // Writes one frame on the current connection. A failed write or flush leaves
    // a cut frame at most, on a connection that is dropped.
    method SendMessage(m: EncodedMessage) returns (r: Outcome, ghost try: Option<Try>)
      requires Valid()
      modifies this
      ensures Valid()
      ensures old(state) != Connected ==> r == Err(ConnectionError) && try == None && unchanged(this)
      ensures old(state) == Connected && m.format == Auto ==>
                r == Err(MessageFailure(UnsupportedFormat(Auto))) && try == None && unchanged(this)
      ensures Wrote(old(conns), conns, m, try)
      ensures old(state) == Connected && m.format != Auto ==>
                && try.Some?
                && dials == old(dials) && slept == old(slept) && inbound == old(inbound)
                && r == (if try.value.ok then Ok(()) else Err(IoError))
                && (try.value.ok ==> try.value.bytes == |Frame(m)| && state == Connected && stream == old(stream))
                && (!try.value.ok ==> state == Disconnected && stream == None)
    {
      try := None;
      if state != Connected {
        return Err(ConnectionError), None;
      }
      var sink := new ByteSink();
      var encoded := WriteTo(m, sink);
      if encoded.Err? {
        return Err(MessageFailure(encoded.error)), None;
      }
      var buffer := sink.bytes;
      assert buffer == Frame(m);
      var accepted: nat :| accepted <= |buffer|;
      var c := stream.value;
      GrownConn(conns[c], m, accepted);
      conns := conns[c := T.Grow(conns[c], m, 0, accepted)];
      var flushed: bool := *;
      try := Some(Try(c, accepted, accepted == |buffer| && flushed));
      if accepted == |buffer| && flushed {
        r := Ok(());
      } else {
        state := Disconnected;
        stream := None;
        r := Err(IoError);
      }
    }

    // Whether a failed send or receive is followed by one reconnection.
    function Retries(e: NetworkError): bool {
      e == ConnectionError || e == ConnectionClosed || e == IoError
    }

    // The first half of a send: connects if needed and writes once.
    method EnsureAndSend(m: EncodedMessage)
      returns (r: Option<Outcome>, retry: bool, ghost mid: seq<T.Conn>, ghost try: Option<Try>)
      requires Valid()
      modifies this
      ensures Valid() && Opened(old(conns), mid) && Wrote(mid, conns, m, try)
      ensures IsUp(r) <==> try.Some? && try.value.ok
      ensures IsUp(r) ==> try.value.bytes == |Frame(m)| && state == Connected && stream == Some(try.value.conn)
      ensures try.Some? ==> IsConnected(old(state), policy, old(dials))
      ensures retry <==> try.Some? && !try.value.ok
      ensures retry ==> r == Some(Err(IoError)) && state == Disconnected
      ensures state == Failed <==> EndsFailed(old(state), policy, old(dials))
      ensures dials == DialsLeft(old(state), policy, old(dials))
      ensures old(state) == Failed ==> r == Some(Err(ConnectionFailed)) && !retry && try == None && unchanged(this)
      ensures m.format == Auto ==> try == None
    {
      r := EnsureConnected();
      mid, try, retry := conns, None, false;
      if IsUp(r) {
        var sent;
        sent, try := SendMessage(m);
        r := Some(sent);
        retry := sent.Err? && Retries(sent.error);
      }
    }

    // The second half, after a failed first one.
    method ReconnectAndSend(m: EncodedMessage)
      returns (r: Option<Outcome>, ghost mid: seq<T.Conn>, ghost try: Option<Try>)
      requires Valid()
      modifies this
      ensures Valid() && Opened(old(conns), mid) && Wrote(mid, conns, m, try)
      ensures try.Some? ==> try.value.conn == |old(conns)|
      ensures state == Failed <==> GivesUp(policy, old(dials))
      ensures dials == Remaining(policy, old(dials))
      ensures IsUp(r) <==> try.Some? && try.value.ok
      ensures IsUp(r) ==> try.value.bytes == |Frame(m)| && state == Connected && stream == Some(try.value.conn)
      ensures m.format == Auto ==> try == None
    {
      r := ConnectWithRetry();
      mid, try := conns, None;
      if IsUp(r) {
        var sent;
        sent, try := SendMessage(m);
        r := Some(sent);
      }
    }

    // At most two write attempts, the second on a new connection and only after
    // the first failed; success means that the whole frame went out, last, on the
    // stored connection; no other connection is touched; from Failed nothing is.
    method SendWithReconnect(m: EncodedMessage)
      returns (r: Option<Outcome>, ghost first: Option<Try>, ghost second: Option<Try>)
      requires Valid()
      modifies this
      ensures Valid() && Effect(old(conns), conns, m, first, second)
      ensures first.Some? && second.Some? ==> !first.value.ok && first.value.conn < second.value.conn
      ensures IsUp(r) <==> (first.Some? && first.value.ok) || (second.Some? && second.value.ok)
      ensures IsUp(r) ==>
                var last := if second.Some? then second.value else first.value;
                last.ok && last.bytes == |Frame(m)| && state == Connected && stream == Some(last.conn)
      ensures old(state) == Failed ==>
                r == Some(Err(ConnectionFailed)) && first == None && second == None && unchanged(this)
      ensures m.format == Auto ==> first == None && second == None
      ensures first.Some? ==> IsConnected(old(state), policy, old(dials))
      ensures var again, left := first.Some? && !first.value.ok, DialsLeft(old(state), policy, old(dials));
        && (state == Failed <==> EndsFailed(old(state), policy, old(dials)) || (again && GivesUp(policy, left)))
        && dials == (if again then Remaining(policy, left) else left)
    {
      var retry;
      ghost var mid, middle, mid';
      r, retry, mid, first := EnsureAndSend(m);
      middle, mid', second := conns, conns, None;
      if retry {
        r, mid', second := ReconnectAndSend(m);
      }
      EffectOfSend(old(conns), mid, middle, mid', conns, m, first, second);
    }

    // Takes one frame off the current connection, judging its format code last;
    // when the stream ends or breaks, the connection is dropped.
    method ReceiveMessage() returns (r: Result<EncodedMessage, NetworkError>)
      requires Valid()
      modifies this
      ensures Valid() && conns == old(conns) && dials == old(dials) && slept == old(slept)
      ensures old(state) != Connected ==> r == Err(ConnectionError) && unchanged(this)
      ensures old(state) == Connected && ReceiveFrame(old(inbound)) == None ==>
                (r == Err(ConnectionClosed) || r == Err(IoError)) && state == Disconnected && stream == None
      ensures old(state) == Connected && ReceiveFrame(old(inbound)).Some? ==>
                && var o := ReceiveFrame(old(inbound)).value;
                && r == (match o.result case Ok(m) => Ok(m) case Err(e) => Err(MessageFailure(e)))
                && o.consumed <= |old(inbound)| && inbound == old(inbound)[o.consumed..]
                && state == Connected && stream == old(stream)
    {
      if state != Connected {
        return Err(ConnectionError);
      }
      var source := new ByteSource(inbound);
      var header := source.ReadExact(4);
      if header == None {
        r := Dropped();
        return;
      }
      var len := U32Value(header.value);
      var code := source.ReadExact(1);
      if code == None {
        r := Dropped();
        return;
      }
      var payload := source.ReadExact(len);
      if payload == None {
        r := Dropped();
        return;
      }
      InPieces(inbound, len);
      inbound := inbound[5 + len..];
      var cursor := new ByteSource(header.value + code.value + payload.value);
      var m := ReadFrom(cursor);
      match m {
        case Ok(msg) => r := Ok(msg);
        case Err(e) => r := Err(MessageFailure(e));
      }
    }

    // The stream has ended, or reading from it failed.
    method Dropped() returns (r: Result<EncodedMessage, NetworkError>)
      requires Valid()
      modifies this`state, this`stream
      ensures Valid() && state == Disconnected && stream == None
      ensures r == Err(ConnectionClosed) || r == Err(IoError)
    {
      state := Disconnected;
      stream := None;
      var ended: bool := *;
      r := if ended then Err(ConnectionClosed) else Err(IoError);
    }

    // Ensures a connection and takes the next frame off it; if the stream has
    // ended, reconnects once and takes the first frame of the new connection.
    method ReceiveWithReconnect() returns (r: Option<Result<EncodedMessage, NetworkError>>)
      requires Valid()
      modifies this
      ensures Valid()
      ensures old(state) == Failed ==> r == Some(Err(ConnectionFailed)) && unchanged(this)
      ensures var up, left := IsConnected(old(state), policy, old(dials)), DialsLeft(old(state), policy, old(dials));
        var now := InboundLeft(old(state), policy, old(dials), old(inbound));
        var again := up && ReceiveFrame(now) == None;
        && (up && !again ==> Took(now, r, inbound) && state == Connected)
        && (again && Succeeds(policy, left) && ReceiveFrame(left[FirstUp(left)].inbound).Some? ==>
              Took(left[FirstUp(left)].inbound, r, inbound) && state == Connected)
        && (r.Some? && r.value.Ok? ==>
              up && (again ==> Succeeds(policy, left) && ReceiveFrame(left[FirstUp(left)].inbound).Some?))
        && (state == Failed <==> EndsFailed(old(state), policy, old(dials)) || (again && GivesUp(policy, left)))
        && dials == (if again then Remaining(policy, left) else left)
    {
      var up := EnsureConnected();
      match up {
        case None => return None;
        case Some(Err(e)) => return Some(Err(e));
        case Some(Ok(_)) =>
      }
      var got := ReceiveMessage();
      r := Some(got);
      if got.Err? && Retries(got.error) {
        r := ReconnectAndReceive();
      }
    }

    // The second half, after a failed first one.
    method ReconnectAndReceive() returns (r: Option<Result<EncodedMessage, NetworkError>>)
      requires Valid()
      modifies this
      ensures Valid()
      ensures state == Failed <==> GivesUp(policy, old(dials))
      ensures dials == Remaining(policy, old(dials))
      ensures var found := Succeeds(policy, old(dials)) && ReceiveFrame(old(dials)[FirstUp(old(dials))].inbound).Some?;
        && (found ==> Took(old(dials)[FirstUp(old(dials))].inbound, r, inbound) && state == Connected)
        && (!found ==> r == None || r.value.Err?)
    {
      var again := ConnectWithRetry();
      match again {
        case None => return None;
        case Some(Err(e)) => return Some(Err(e));
        case Some(Ok(_)) =>
      }
      var got := ReceiveMessage();
      r := Some(got);
    }

    // Drops the stream; leaves every other state, Failed included.
    method Close()
      requires Valid()
      modifies this`state, this`stream
      ensures Valid() && state == Disconnected && stream == None
    {
      state := Disconnected;
      stream := None;
    }
  }

  // The result of taking the first frame of `from`, which leaves `rest`.
  ghost predicate Took(from: Bytes, r: Option<Result<EncodedMessage, NetworkError>>, rest: Bytes) {
    && ReceiveFrame(from).Some?
    && var o := ReceiveFrame(from).value;
    && r == Some(match o.result case Ok(m) => Ok(m) case Err(e) => Err(MessageFailure(e)))
    && o.consumed <= |from| && rest == from[o.consumed..]
  }
}
