/**
 The life of a channel used by one task: any sequence of connects, sends,
 receives and disconnects, with any answers of the network.
 */
module ChannelRuns {
  import opened Prelude
  import opened Framing
  import opened Channel
  import T = Transport

  datatype Action = Connect | Disconnect | Send(msg: EncodedMessage) | Receive

  // What there is to see between two actions.
  datatype Moment = Moment(
    state: ConnectionState, stream: Option<nat>, dials: seq<Dial>, conns: seq<T.Conn>, inbound: Bytes)

  function Now(channel: TcpChannel): Moment
    reads channel
  {
    Moment(channel.state, channel.stream, channel.dials, channel.conns, channel.inbound)
  }

  // As many answers as the policy allows were failures, one after the other, and
  // then no more were asked for.
  ghost predicate GaveUp(policy: ReconnectPolicy, before: seq<Dial>, after: seq<Dial>) {
    exists k: nat :: GaveUpAt(policy, before, after, k)
  }

  ghost predicate GaveUpAt(policy: ReconnectPolicy, before: seq<Dial>, after: seq<Dial>, k: nat) {
    match policy
    case NoReconnect => FailedInARow(before, after, k, 1)
    case FixedInterval(_, Some(n)) => FailedInARow(before, after, k, n)
    case _ => false
  }

  ghost predicate FailedInARow(before: seq<Dial>, after: seq<Dial>, k: nat, n: nat) {
    && k + n <= |before|
    && (forall i :: k <= i < k + n ==> !before[i].Accepted?)
    && after == before[k + n..]
  }

  // What an action may do.
  ghost predicate Move(policy: ReconnectPolicy, before: Moment, action: Action, after: Moment) {
    && (after.state == Connected ==> after.stream.Some?)
    && (after.state == Failed && (before.state != Failed || action.Connect?) ==> GaveUp(policy, before.dials, after.dials))
    && (before.state == Failed && (action.Send? || action.Receive?) ==> after == before)
    && (action.Disconnect? ==> after == before.(state := Disconnected, stream := None))
  }

  lemma GivingUp(policy: ReconnectPolicy, dials: seq<Dial>, k: nat)
    requires k <= |dials| && GivesUp(policy, dials[k..])
    ensures GaveUp(policy, dials, Remaining(policy, dials[k..]))
  {
    var n := Limit(policy).value;
    assert forall i :: 0 <= i < n ==> dials[k..][i] == dials[k + i];
    assert dials[k..][n..] == dials[k + n..];
    forall i | k <= i < k + n ensures !dials[i].Accepted? {
      assert dials[i] == dials[k..][i - k];
    }
    assert GaveUpAt(policy, dials, Remaining(policy, dials[k..]), k);
  }

  // What is left of the answers is a tail of them.
  lemma LeftIsTail(state: ConnectionState, policy: ReconnectPolicy, dials: seq<Dial>) returns (k: nat)
    ensures k <= |dials| && DialsLeft(state, policy, dials) == dials[k..]
  {
    k := |dials| - |DialsLeft(state, policy, dials)|;
  }

  // Every way in which a send or a receive can end in Failed is a giving up.
  lemma EndedFailed(state: ConnectionState, policy: ReconnectPolicy, dials: seq<Dial>, again: bool, after: seq<Dial>)
    requires state != Failed
    requires EndsFailed(state, policy, dials) || (again && GivesUp(policy, DialsLeft(state, policy, dials)))
    requires again ==> IsConnected(state, policy, dials)
    requires var left := DialsLeft(state, policy, dials); after == if again then Remaining(policy, left) else left
    ensures GaveUp(policy, dials, after)
  {
    if again {
      var k := LeftIsTail(state, policy, dials);
      GivingUp(policy, dials, k);
    } else {
      assert dials[0..] == dials;
      GivingUp(policy, dials, 0);
    }
  }

  method Perform(channel: TcpChannel, action: Action)
    requires channel.Valid()
    modifies channel
    ensures channel.Valid() && Move(channel.policy, old(Now(channel)), action, Now(channel))
  {
    match action {
      case Connect => ConnectNow(channel);
      case Disconnect => channel.Close();
      case Send(msg) => SendNow(channel, msg);
      case Receive => ReceiveNow(channel);
    }
  }

  method ConnectNow(channel: TcpChannel)
    requires channel.Valid()
    modifies channel
    ensures channel.Valid() && Move(channel.policy, old(Now(channel)), Connect, Now(channel))
  {
    ghost var before := channel.dials;
    var _ := channel.ConnectWithRetry();
    if channel.state == Failed {
      assert before[0..] == before;
      GivingUp(channel.policy, before, 0);
    }
  }

  method SendNow(channel: TcpChannel, msg: EncodedMessage)
    requires channel.Valid()
    modifies channel
    ensures channel.Valid() && Move(channel.policy, old(Now(channel)), Send(msg), Now(channel))
  {
    ghost var before := Now(channel);
    var _, first, _ := channel.SendWithReconnect(msg);
    if channel.state == Failed && before.state != Failed {
      EndedFailed(before.state, channel.policy, before.dials, first.Some? && !first.value.ok, channel.dials);
    }
  }

  method ReceiveNow(channel: TcpChannel)
    requires channel.Valid()
    modifies channel
    ensures channel.Valid() && Move(channel.policy, old(Now(channel)), Receive, Now(channel))
  {
    ghost var before := Now(channel);
    ghost var now := InboundLeft(before.state, channel.policy, before.dials, before.inbound);
    ghost var again := IsConnected(before.state, channel.policy, before.dials) && ReceiveFrame(now) == None;
    var _ := channel.ReceiveWithReconnect();
    if channel.state == Failed && before.state != Failed {
      EndedFailed(before.state, channel.policy, before.dials, again, channel.dials);
    }
  }

  // Whether each action made an admissible move.
  ghost predicate Life(policy: ReconnectPolicy, moments: seq<Moment>, actions: seq<Action>) {
    && |moments| == |actions| + 1
    && (moments[0].state == Connected ==> moments[0].stream.Some?)
    && forall i :: 0 <= i < |actions| ==> Move(policy, moments[i], actions[i], moments[i + 1])
  }

  method PerformAll(channel: TcpChannel, actions: seq<Action>) returns (ghost moments: seq<Moment>)
    requires channel.Valid()
    modifies channel
    ensures channel.Valid() && Life(channel.policy, moments, actions)
    ensures moments[0] == old(Now(channel)) && moments[|actions|] == Now(channel)
  {
    moments := [Now(channel)];
    for n := 0 to |actions|
      invariant channel.Valid() && Life(channel.policy, moments, actions[..n])
      invariant moments[0] == old(Now(channel)) && moments[n] == Now(channel)
    {
      ghost var sofar := moments;
      Perform(channel, actions[n]);
      moments := moments + [Now(channel)];
      LifeGoesOn(channel.policy, sofar, actions[..n], actions[n], Now(channel));
      assert actions[..n + 1] == actions[..n] + [actions[n]];
    }
    assert actions[..|actions|] == actions;
  }

  lemma LifeGoesOn(policy: ReconnectPolicy, moments: seq<Moment>, actions: seq<Action>, action: Action, next: Moment)
    requires Life(policy, moments, actions) && Move(policy, moments[|actions|], action, next)
    ensures Life(policy, moments + [next], actions + [action])
  {}

  // Over every life: a stream is stored whenever the channel is connected, Failed
  // is entered only by giving up as the policy says, and never under exponential
  // backoff.
  lemma FailedOnlyByPolicy(policy: ReconnectPolicy, moments: seq<Moment>, actions: seq<Action>, n: nat)
    requires Life(policy, moments, actions) && n <= |actions|
    ensures moments[n].state == Connected ==> moments[n].stream.Some?
    ensures n > 0 && moments[n].state == Failed && moments[n - 1].state != Failed ==>
              !policy.ExponentialBackoff? && GaveUp(policy, moments[n - 1].dials, moments[n].dials)
  {
    if n > 0 {
      assert Move(policy, moments[n - 1], actions[n - 1], moments[n]);
    }
  }

  // Under exponential backoff the channel is never Failed at all.
  lemma {:induction false} BackoffNeverFails(policy: ReconnectPolicy, moments: seq<Moment>, actions: seq<Action>, n: nat)
    requires Life(policy, moments, actions) && n <= |actions|
    requires policy.ExponentialBackoff? && moments[0].state != Failed
    ensures moments[n].state != Failed
  {
    if n > 0 {
      BackoffNeverFails(policy, moments, actions, n - 1);
      FailedOnlyByPolicy(policy, moments, actions, n);
    }
  }

  // From Failed on nothing changes and no answer is asked of the network, until
  // an explicit connect or disconnect.
  lemma {:induction false} FailedUntilAsked(policy: ReconnectPolicy, moments: seq<Moment>, actions: seq<Action>, i: nat, j: nat)
    requires Life(policy, moments, actions) && i <= j <= |actions| && moments[i].state == Failed
    requires forall n :: i <= n < j ==> actions[n].Send? || actions[n].Receive?
    ensures moments[j] == moments[i]
  {
    if i < j {
      FailedUntilAsked(policy, moments, actions, i, j - 1);
      assert Move(policy, moments[j - 1], actions[j - 1], moments[j]);
    }
  }
}
