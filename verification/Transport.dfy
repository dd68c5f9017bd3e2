/**
 The framed transport under concurrency: any number of tasks send, receive,
 reconnect and close over one channel. The steps follow the lock regions. The
 stream mutex is held for the whole of one write or one read; the connection
 state has a mutex of its own, so its value may change between any two steps.
 A write may stop at any byte. Tasks are not cancelled.
 */
module Transport {
  import opened Prelude
  import opened Framing

  // One TCP connection as seen from the channel that writes to it.
  //   bytes: everything written so far;
  //   whole, cut: the history of completed frames, and the unfinished one;
  //   read, got: how far the peer's receive_message has read, and its results;
  //   wrapped: whether a frame whose length field wraps has been begun on it.
  datatype Conn = Conn(
    bytes: Bytes, whole: seq<EncodedMessage>, cut: Bytes, read: nat, got: seq<ReadResult>, wrapped: bool)

  const FRESH := Conn([], [], [], 0, [], false)

  // One call of send_with_reconnect: the current attempt (1 or 2), the
  // connections written to, those that took a complete frame, and those whose
  // write or flush failed.
  datatype Call = Call(msg: EncodedMessage, attempt: nat, tried: seq<nat>, complete: seq<nat>, failed: seq<nat>)

  datatype Task =
    | Idle
    | Connecting(call: Call)                   // ensure_connected or connect_with_retry
    | Checking(call: Call)                     // send_message, before it holds the stream
    | Writing(call: Call, conn: nat, k: nat)   // holds the stream, k bytes written
    | Broken(call: Call, conn: nat)            // holds the stream, write or flush failed
    | Finished(call: Call, ok: bool)
    | Reading(conn: nat)                       // receive_message, holds the stream

  datatype State = State(
    conns: seq<Conn>,
    stream: Option<nat>,
    connected: bool,
    lock: Option<nat>,
    tasks: map<nat, Task>)

  datatype Step =
    | SetConnected(up: bool)          // any task writes the connection state
    | Store                           // any task stores a newly made connection
    | Close                           // any task drops the stream
    | Begin(t: nat, msg: EncodedMessage)
    | GiveUp(t: nat)                  // connecting failed for good
    | Proceed(t: nat)                 // connecting succeeded, or was not needed
    | Refuse(t: nat)                  // not connected, or no stream stored
    | Reject(t: nat)                  // the message cannot be encoded
    | Acquire(t: nat)                 // takes the stream and starts to write
    | Write(t: nat, n: nat)           // the socket accepts n more bytes
    | Fail(t: nat)                    // the write or the flush fails
    | Abandon(t: nat)                 // drops the broken stream
    | Complete(t: nat)                // written and flushed
    | Return(t: nat)
    | BeginReceive(t: nat)
    | EndReceive(t: nat, failed: bool)
    | PeerReceive(c: nat)             // the peer's receive_message takes one frame

  function TaskOf(s: State, t: nat): Task {
    if t in s.tasks then s.tasks[t] else Idle
  }

  ghost predicate Enabled(s: State, step: Step) {
    match step
    case SetConnected(_) => true
    case Store => s.lock == None
    case Close => s.lock == None
    case Begin(t, m) => TaskOf(s, t).Idle?
    case GiveUp(t) => TaskOf(s, t).Connecting?
    case Proceed(t) => TaskOf(s, t).Connecting?
    case Refuse(t) => TaskOf(s, t).Checking? && (!s.connected || (s.lock == None && s.stream == None))
    case Reject(t) =>
      TaskOf(s, t).Checking? && TaskOf(s, t).call.msg.format == Auto && s.lock == None && s.stream.Some?
    case Acquire(t) =>
      TaskOf(s, t).Checking? && TaskOf(s, t).call.msg.format != Auto && s.lock == None
      && s.stream.Some? && s.stream.value < |s.conns|
    case Write(t, n) =>
      var task := TaskOf(s, t);
      task.Writing? && task.conn < |s.conns| && 0 < n && task.k + n <= |Frame(task.call.msg)|
    case Fail(t) => TaskOf(s, t).Writing?
    case Abandon(t) => TaskOf(s, t).Broken?
    case Complete(t) => TaskOf(s, t).Writing? && TaskOf(s, t).k == |Frame(TaskOf(s, t).call.msg)|
    case Return(t) => TaskOf(s, t).Finished?
    case BeginReceive(t) => TaskOf(s, t).Idle? && s.lock == None && s.stream.Some?
    case EndReceive(t, _) => TaskOf(s, t).Reading?
    case PeerReceive(c) =>
      c < |s.conns| && s.conns[c].read <= |s.conns[c].bytes|
      && ReceiveFrame(s.conns[c].bytes[s.conns[c].read..]).Some?
  }

  // A failed attempt reconnects and tries once more, or ends the call.
  function AfterFailure(call: Call): Task {
    if call.attempt == 1 then Connecting(call.(attempt := 2)) else Finished(call, false)
  }

  // Connection c after n more bytes of the frame of m, of which k are there.
  function Grow(c: Conn, m: EncodedMessage, k: nat, n: nat): Conn
    requires k + n <= |Frame(m)|
  {
    var c' := c.(bytes := c.bytes + Frame(m)[k..k + n], wrapped := c.wrapped || |m.data| >= U32_SIZE);
    if k + n == |Frame(m)| then c'.(whole := c.whole + [m], cut := []) else c'.(cut := Frame(m)[..k + n])
  }

  function Take(c: Conn): Conn
    requires c.read <= |c.bytes| && ReceiveFrame(c.bytes[c.read..]).Some?
  {
    var o := ReceiveFrame(c.bytes[c.read..]).value;
    c.(read := c.read + o.consumed, got := c.got + [o.result])
  }

  function Apply(s: State, step: Step): State
    requires Enabled(s, step)
  {
    match step
    case SetConnected(up) => s.(connected := up)
    case Store => s.(conns := s.conns + [FRESH], stream := Some(|s.conns|))
    case Close => s.(stream := None)
    case Begin(t, m) => s.(tasks := s.tasks[t := Connecting(Call(m, 1, [], [], []))])
    case GiveUp(t) => s.(tasks := s.tasks[t := Finished(TaskOf(s, t).call, false)])
    case Proceed(t) => s.(tasks := s.tasks[t := Checking(TaskOf(s, t).call)])
    case Refuse(t) => s.(tasks := s.tasks[t := AfterFailure(TaskOf(s, t).call)])
    case Reject(t) => s.(tasks := s.tasks[t := Finished(TaskOf(s, t).call, false)])
    case Acquire(t) =>
      var call := TaskOf(s, t).call;
      var c := s.stream.value;
      s.(lock := Some(t), tasks := s.tasks[t := Writing(call.(tried := call.tried + [c]), c, 0)])
    case Write(t, n) =>
      var task := TaskOf(s, t);
      var call := task.call;
      var call' := if task.k + n == |Frame(call.msg)| then call.(complete := call.complete + [task.conn]) else call;
      s.(conns := s.conns[task.conn := Grow(s.conns[task.conn], call.msg, task.k, n)],
         tasks := s.tasks[t := Writing(call', task.conn, task.k + n)])
    case Fail(t) =>
      var call, c := TaskOf(s, t).call, TaskOf(s, t).conn;
      s.(connected := false, tasks := s.tasks[t := Broken(call.(failed := call.failed + [c]), c)])
    case Abandon(t) => s.(stream := None, lock := None, tasks := s.tasks[t := AfterFailure(TaskOf(s, t).call)])
    case Complete(t) => s.(lock := None, tasks := s.tasks[t := Finished(TaskOf(s, t).call, true)])
    case Return(t) => s.(tasks := s.tasks[t := Idle])
    case BeginReceive(t) => s.(lock := Some(t), tasks := s.tasks[t := Reading(s.stream.value)])
    case EndReceive(t, failed) =>
      s.(lock := None, stream := if failed then None else s.stream, tasks := s.tasks[t := Idle])
    case PeerReceive(c) => s.(conns := s.conns[c := Take(s.conns[c])])
  }

  const INITIAL := State([], None, false, None, map[])

  // Whether the steps can be taken one after the other from s.
  ghost predicate IsRun(s: State, steps: seq<Step>)
    decreases |steps|
  {
    steps == [] || (Enabled(s, steps[0]) && IsRun(Apply(s, steps[0]), steps[1..]))
  }

  ghost function Final(s: State, steps: seq<Step>): State
    requires IsRun(s, steps)
    decreases |steps|
  {
    if steps == [] then s else Final(Apply(s, steps[0]), steps[1..])
  }

  // ---------------------------------------------------------------- invariant

  ghost predicate Holds(task: Task) {
    task.Writing? || task.Broken? || task.Reading?
  }

  // The start of a frame, however long.
  ghost predicate FrameStart(part: Bytes) {
    part == [] || exists m: EncodedMessage :: m.format != Auto && part <= Frame(m) && |part| < |Frame(m)|
  }

  ghost predicate ConnOk(c: Conn) {
    && c.bytes == Frames(c.whole) + c.cut
    && FrameStart(c.cut)
    && (forall m :: m in c.whole && |m.data| >= U32_SIZE ==> c.wrapped)
    && (!c.wrapped ==> InStep(c))
  }

  // The peer has received a prefix of the whole frames.
  ghost predicate InStep(c: Conn) {
    && (forall m :: m in c.whole ==> Sendable(m))
    && c.bytes == Frames(c.whole) + c.cut
    && CutFrame(c.cut)
    && |c.got| <= |c.whole|
    && c.got == Delivered(c.whole[..|c.got|])
    && c.read == |Frames(c.whole[..|c.got|])|
  }

  // A connection a call has written to is never written to by it again: it is
  // the current one only while the call still holds it or has ended.
  ghost predicate CallOk(s: State, call: Call, holding: Option<nat>, ended: bool) {
    && 1 <= call.attempt <= 2
    && |call.tried| <= call.attempt
    && Distinct(call.tried)
    && (forall c :: c in call.tried ==> c < |s.conns|)
    && (!ended ==> forall c :: c in call.tried && s.stream == Some(c) ==> holding == Some(c))
    && |call.complete| <= |call.tried|
    && (forall c :: c in call.complete ==> c in call.tried && c < |s.conns| && call.msg in s.conns[c].whole)
    && (forall i :: 0 <= i < |call.tried| - 1 ==> call.tried[i] in call.failed)
  }

  // Every attempt so far failed.
  ghost predicate AllFailed(call: Call) {
    forall c :: c in call.tried ==> c in call.failed
  }

  ghost predicate Last(xs: seq<nat>, x: nat) {
    xs != [] && xs[|xs| - 1] == x
  }

  ghost predicate TaskOk(s: State, task: Task) {
    match task
    case Idle => true
    case Connecting(call) => CallOk(s, call, None, false) && |call.tried| < call.attempt && AllFailed(call)
    case Checking(call) => CallOk(s, call, None, false) && |call.tried| < call.attempt && AllFailed(call)
    case Writing(call, c, k) =>
      && CallOk(s, call, Some(c), false)
      && call.msg.format != Auto && k <= |Frame(call.msg)|
      && s.stream == Some(c) && c < |s.conns| && Last(call.tried, c)
      && s.conns[c].cut == (if k < |Frame(call.msg)| then Frame(call.msg)[..k] else [])
      && (if k < |Frame(call.msg)| then |call.complete| < |call.tried| else Last(call.complete, c))
    case Broken(call, c) =>
      && CallOk(s, call, Some(c), false)
      && s.stream == Some(c) && c < |s.conns| && AllFailed(call)
    case Finished(call, ok) =>
      && CallOk(s, call, None, true)
      && (ok ==> exists c: nat :: Last(call.complete, c) && Last(call.tried, c))
    case Reading(c) => s.stream == Some(c) && c < |s.conns| && s.conns[c].cut == []
  }

  ghost predicate Inv(s: State) {
    && (s.stream.Some? ==> s.stream.value < |s.conns|)
    && (forall i :: 0 <= i < |s.conns| ==> ConnOk(s.conns[i]))
    && (forall t :: t in s.tasks ==> TaskOk(s, s.tasks[t]))
    && (forall t :: t in s.tasks && Holds(s.tasks[t]) ==> s.lock == Some(t))
    && (s.lock.Some? ==> s.lock.value in s.tasks && Holds(s.tasks[s.lock.value]))
    && (s.lock == None && s.stream.Some? ==> s.conns[s.stream.value].cut == [])
  }

  // ------------------------------------------------------------ preservation

  lemma InvInitial()
    ensures Inv(INITIAL)
  {}

  // A step that changes one task and leaves lock and connections alone.
  lemma StepOfTask(s: State, s': State, t: nat)
    requires Inv(s) && t in s'.tasks
    requires s' == s.(tasks := s.tasks[t := s'.tasks[t]], connected := s'.connected)
    requires TaskOk(s', s'.tasks[t]) && Holds(s'.tasks[t]) == Holds(TaskOf(s, t))
    ensures Inv(s')
  {
    forall u | u in s'.tasks ensures TaskOk(s', s'.tasks[u]) {
      if u != t { assert TaskOk(s, s.tasks[u]); }
    }
  }

  // A task that takes the free stream lock.
  lemma StepOfLocking(s: State, s': State, t: nat)
    requires Inv(s) && t in s'.tasks && s.lock == None
    requires s' == s.(tasks := s.tasks[t := s'.tasks[t]], lock := Some(t))
    requires TaskOk(s', s'.tasks[t]) && Holds(s'.tasks[t])
    ensures Inv(s')
  {
    forall u | u in s'.tasks ensures TaskOk(s', s'.tasks[u]) && (Holds(s'.tasks[u]) ==> u == t) {
      if u != t { assert TaskOk(s, s.tasks[u]); }
    }
  }

  // The lock holder lets go, keeping or dropping the stream.
  lemma StepOfReleasing(s: State, s': State, t: nat)
    requires Inv(s) && t in s'.tasks && s.lock == Some(t)
    requires s' == s.(tasks := s.tasks[t := s'.tasks[t]], lock := None, stream := s'.stream)
    requires s'.stream == None || (s'.stream == s.stream && s.conns[s.stream.value].cut == [])
    requires TaskOk(s', s'.tasks[t]) && !Holds(s'.tasks[t])
    ensures Inv(s')
  {
    forall u | u in s'.tasks ensures TaskOk(s', s'.tasks[u]) && !Holds(s'.tasks[u]) {
      if u != t {
        assert TaskOk(s, s.tasks[u]);
        assert Holds(s.tasks[u]) ==> s.lock == Some(u);
      }
    }
  }

  // The stream is replaced by a new connection, or dropped, while the lock is free.
  lemma StepOfStream(s: State, step: Step)
    requires Inv(s) && Enabled(s, step) && (step.Store? || step.Close?)
    ensures Inv(Apply(s, step))
  {
    var s' := Apply(s, step);
    assert ConnOk(FRESH);
    forall u | u in s'.tasks ensures TaskOk(s', s'.tasks[u]) {
      assert TaskOk(s, s.tasks[u]);
      assert Holds(s.tasks[u]) ==> s.lock == Some(u);
    }
  }

  lemma GrowOk(c: Conn, m: EncodedMessage, k: nat, n: nat)
    requires ConnOk(c) && m.format != Auto && 0 < n && k + n <= |Frame(m)|
    requires c.cut == Frame(m)[..k]
    ensures ConnOk(Grow(c, m, k, n))
  {
    var f := Frame(m);
    GrownBytes(c, m, k, n);
    if k + n < |f| {
      assert f[..k + n] <= f;
      assert FrameStart(f[..k + n]);
    }
    if !Grow(c, m, k, n).wrapped {
      GrowInStep(c, m, k, n);
    }
  }

  lemma GrownBytes(c: Conn, m: EncodedMessage, k: nat, n: nat)
    requires c.bytes == Frames(c.whole) + c.cut && k + n <= |Frame(m)| && c.cut == Frame(m)[..k]
    ensures var c' := Grow(c, m, k, n); c'.bytes == Frames(c'.whole) + c'.cut
  {
    Regrouped(Frames(c.whole), Frame(m), k, n);
    if k + n == |Frame(m)| {
      FramesConcat(c.whole, [m]);
      FramesOfOne(m);
    }
  }

  lemma Regrouped(a: Bytes, f: Bytes, k: nat, n: nat)
    requires k + n <= |f|
    ensures a + f[..k] + f[k..k + n] == a + f[..k + n]
    ensures k + n == |f| ==> a + f[..k + n] == a + f && a + f == a + f + []
  {
    assert f[..k] + f[k..k + n] == f[..k + n];
  }

  lemma GrowInStep(c: Conn, m: EncodedMessage, k: nat, n: nat)
    requires InStep(c) && Sendable(m) && 0 < n && k + n <= |Frame(m)|
    requires c.cut == Frame(m)[..k]
    ensures InStep(Grow(c, m, k, n))
  {
    var f, c' := Frame(m), Grow(c, m, k, n);
    GrownBytes(c, m, k, n);
    if k + n == |f| {
      assert c'.whole[..|c.got|] == c.whole[..|c.got|];
    } else {
      assert f[..k + n] <= f;
      assert CutFrame(f[..k + n]);
    }
  }

  lemma WriterSeesGrowth(s: State, t: nat, n: nat)
    requires TaskOk(s, TaskOf(s, t)) && Enabled(s, Write(t, n))
    ensures var s' := Apply(s, Write(t, n));
      && TaskOk(s', s'.tasks[t])
      && (forall c, x :: 0 <= c < |s.conns| && x in s.conns[c].whole ==> x in s'.conns[c].whole)
  {
    var s', task := Apply(s, Write(t, n)), TaskOf(s, t);
    var m := task.call.msg;
    if task.k + n == |Frame(m)| {
      assert s'.conns[task.conn].whole[|s'.conns[task.conn].whole| - 1] == m;
    }
  }

  lemma StepOfWrite(s: State, t: nat, n: nat)
    requires Inv(s) && Enabled(s, Write(t, n))
    ensures Inv(Apply(s, Write(t, n)))
  {
    var s' := Apply(s, Write(t, n));
    var task := TaskOf(s, t);
    var m := task.call.msg;
    assert TaskOk(s, task);
    GrowOk(s.conns[task.conn], m, task.k, n);
    WriterSeesGrowth(s, t, n);
    forall u | u in s'.tasks ensures TaskOk(s', s'.tasks[u]) {
      if u != t {
        OtherTaskSeesGrowth(s, s', s.tasks[u]);
      }
    }
  }

  // A task that does not hold the stream lock does not mind connections growing.
  lemma OtherTaskSeesGrowth(s: State, s': State, task: Task)
    requires TaskOk(s, task) && !Holds(task) && s'.stream == s.stream && |s'.conns| == |s.conns|
    requires forall c, x :: 0 <= c < |s.conns| && x in s.conns[c].whole ==> x in s'.conns[c].whole
    ensures TaskOk(s', task)
  {}

  // What the peer has not read yet: the frames not received, then the cut.
  lemma Unread(c: Conn)
    requires InStep(c)
    ensures c.read <= |c.bytes|
    ensures c.bytes[c.read..] == Frames(c.whole[|c.got|..]) + c.cut
  {
    var n := |c.got|;
    assert c.whole == c.whole[..n] + c.whole[n..];
    FramesConcat(c.whole[..n], c.whole[n..]);
    assert c.bytes == Frames(c.whole[..n]) + (Frames(c.whole[n..]) + c.cut);
  }

  lemma CutYieldsNothing(cut: Bytes)
    requires CutFrame(cut)
    ensures ReceiveFrame(cut) == None
  {
    if cut != [] {
      var m :| Sendable(m) && cut <= Frame(m) && |cut| < |Frame(m)|;
      PartialFrameYieldsNothing(m, cut);
    }
  }

  // Once every whole frame has been received there is nothing to take.
  lemma CaughtUp(c: Conn)
    requires InStep(c) && |c.got| == |c.whole|
    ensures c.read <= |c.bytes| && ReceiveFrame(c.bytes[c.read..]) == None
  {
    Unread(c);
    assert c.bytes[c.read..] == c.cut;
    CutYieldsNothing(c.cut);
  }

  lemma FramesFrom(ms: seq<EncodedMessage>, n: nat, cut: Bytes)
    requires n < |ms|
    ensures Frames(ms[n..]) + cut == Frame(ms[n]) + (Frames(ms[n + 1..]) + cut)
  {
    assert ms[n..][0] == ms[n] && ms[n..][1..] == ms[n + 1..];
  }

  // The peer can only take the next whole frame, and gets its message.
  lemma TakesNext(c: Conn)
    requires InStep(c) && c.read <= |c.bytes| && ReceiveFrame(c.bytes[c.read..]).Some?
    ensures var n := |c.got|;
      && n < |c.whole|
      && ReceiveFrame(c.bytes[c.read..]) == Some(ReadOutcome(Ok(c.whole[n]), |Frame(c.whole[n])|))
  {
    var n := |c.got|;
    Unread(c);
    if n == |c.whole| {
      CaughtUp(c);
      assert false;
    }
    FramesFrom(c.whole, n, c.cut);
    ReceivesBack(c.whole[n], Frames(c.whole[n + 1..]) + c.cut);
  }

  lemma TakeOk(c: Conn)
    requires ConnOk(c) && c.read <= |c.bytes| && ReceiveFrame(c.bytes[c.read..]).Some?
    ensures ConnOk(Take(c))
  {
    if !c.wrapped {
      TakeInStep(c);
    }
  }

  lemma TakeInStep(c: Conn)
    requires InStep(c) && c.read <= |c.bytes| && ReceiveFrame(c.bytes[c.read..]).Some?
    ensures InStep(Take(c))
  {
    TakesNext(c);
    var n := |c.got|;
    assert c.whole[..n + 1] == c.whole[..n] + [c.whole[n]];
    FramesConcat(c.whole[..n], [c.whole[n]]);
    FramesOfOne(c.whole[n]);
  }

  lemma StepOfPeer(s: State, c: nat)
    requires Inv(s) && Enabled(s, PeerReceive(c))
    ensures Inv(Apply(s, PeerReceive(c)))
  {
    var s' := Apply(s, PeerReceive(c));
    TakeOk(s.conns[c]);
    assert forall i :: 0 <= i < |s.conns| ==> s'.conns[i].whole == s.conns[i].whole && s'.conns[i].cut == s.conns[i].cut;
    assert s' == s.(conns := s'.conns);
    forall u | u in s'.tasks ensures TaskOk(s', s'.tasks[u]) {
      TaskSeesSameConns(s, s', s.tasks[u]);
    }
  }

  lemma TaskSeesSameConns(s: State, s': State, task: Task)
    requires TaskOk(s, task) && s' == s.(conns := s'.conns) && |s'.conns| == |s.conns|
    requires forall i :: 0 <= i < |s.conns| ==> s'.conns[i].whole == s.conns[i].whole && s'.conns[i].cut == s.conns[i].cut
    ensures TaskOk(s', task)
  {}

  lemma StepOfAcquire(s: State, t: nat)
    requires Inv(s) && Enabled(s, Acquire(t))
    ensures Inv(Apply(s, Acquire(t)))
  {
    var s' := Apply(s, Acquire(t));
    var call := TaskOf(s, t).call;
    var c := s.stream.value;
    assert TaskOk(s, s.tasks[t]);
    assert c !in call.tried;
    assert Frame(call.msg)[..0] == [];
    StepOfLocking(s, s', t);
  }

  lemma InvTaskStep(s: State, step: Step)
    requires Inv(s) && Enabled(s, step)
    requires step.Begin? || step.GiveUp? || step.Proceed? || step.Refuse? || step.Reject? || step.Return?
    ensures Inv(Apply(s, step))
  {
    var s' := Apply(s, step);
    assert step.t in s.tasks ==> TaskOk(s, s.tasks[step.t]);
    StepOfTask(s, s', step.t);
  }

  lemma InvFailStep(s: State, t: nat)
    requires Inv(s) && Enabled(s, Fail(t))
    ensures Inv(Apply(s, Fail(t)))
  {
    var s' := Apply(s, Fail(t));
    var call, call' := TaskOf(s, t).call, s'.tasks[t].call;
    assert TaskOk(s, s.tasks[t]);
    forall c | c in call'.tried ensures c in call'.failed {
      var i :| 0 <= i < |call.tried| && call.tried[i] == c;
    }
    StepOfTask(s, s', t);
  }

  lemma InvLockStep(s: State, step: Step)
    requires Inv(s) && Enabled(s, step)
    requires step.Abandon? || step.Complete? || step.BeginReceive? || step.EndReceive?
    ensures Inv(Apply(s, step))
  {
    var s' := Apply(s, step);
    if step.BeginReceive? {
      StepOfLocking(s, s', step.t);
    } else {
      assert TaskOk(s, s.tasks[step.t]);
      StepOfReleasing(s, s', step.t);
    }
  }

  // Every step of every task keeps the invariant.
  lemma InvStep(s: State, step: Step)
    requires Inv(s) && Enabled(s, step)
    ensures Inv(Apply(s, step))
  {
    match step {
      case SetConnected(up) =>
        forall u | u in s.tasks ensures TaskOk(s.(connected := up), s.tasks[u]) { assert TaskOk(s, s.tasks[u]); }
      case Store => StepOfStream(s, step);
      case Close => StepOfStream(s, step);
      case Acquire(t) => StepOfAcquire(s, t);
      case Write(t, n) => StepOfWrite(s, t, n);
      case PeerReceive(c) => StepOfPeer(s, c);
      case Fail(t) => InvFailStep(s, t);
      case Abandon(_) => InvLockStep(s, step);
      case Complete(_) => InvLockStep(s, step);
      case BeginReceive(_) => InvLockStep(s, step);
      case EndReceive(_, _) => InvLockStep(s, step);
      case _ => InvTaskStep(s, step);
    }
  }

  // ------------------------------------------------------------------- theorems

  lemma {:induction false} RunsKeepInv(s: State, steps: seq<Step>)
    requires Inv(s) && IsRun(s, steps)
    ensures Inv(Final(s, steps))
    decreases |steps|
  {
    if steps != [] {
      InvStep(s, steps[0]);
      RunsKeepInv(Apply(s, steps[0]), steps[1..]);
    }
  }

  // In every state of every run: each connection carries whole frames in order
  // and at most one cut frame after them; whenever the stream lock is free the
  // current connection carries whole frames only, so a cut frame sits on an
  // abandoned connection; and the peer has received, in order, a prefix of the
  // messages written in full, each as it was sent. Only that last part needs
  // payloads whose length fits the length field, on that connection.
  lemma FramesNeverInterleave(steps: seq<Step>, c: nat)
    requires IsRun(INITIAL, steps) && c < |Final(INITIAL, steps).conns|
    ensures var s := Final(INITIAL, steps); var conn := s.conns[c];
      && conn.bytes == Frames(conn.whole) + conn.cut && FrameStart(conn.cut)
      && (s.lock == None && conn.cut != [] ==> s.stream != Some(c))
      && (s.lock == None && s.stream == Some(c) ==> conn.bytes == Frames(conn.whole))
      && (!conn.wrapped ==> CutFrame(conn.cut) && conn.got <= Delivered(conn.whole))
      && (AllShort(steps) ==> !conn.wrapped)
  {
    InvInitial();
    RunsKeepInv(INITIAL, steps);
    var conn := Final(INITIAL, steps).conns[c];
    assert ConnOk(conn);
    if !conn.wrapped {
      assert conn.got == Delivered(conn.whole)[..|conn.got|];
    }
    assert Frames(conn.whole) + [] == Frames(conn.whole);
    if AllShort(steps) {
      ShortRuns(INITIAL, steps);
    }
  }

  // No message of the run is too long for its length field.
  ghost predicate AllShort(steps: seq<Step>) {
    forall i :: 0 <= i < |steps| && steps[i].Begin? ==> |steps[i].msg.data| < U32_SIZE
  }

  ghost predicate HasCall(task: Task) {
    !task.Idle? && !task.Reading?
  }

  ghost predicate Short(s: State) {
    && (forall i :: 0 <= i < |s.conns| ==> !s.conns[i].wrapped)
    && (forall t :: t in s.tasks && HasCall(s.tasks[t]) ==> |s.tasks[t].call.msg.data| < U32_SIZE)
  }

  lemma ShortStep(s: State, step: Step)
    requires Short(s) && Enabled(s, step) && (step.Begin? ==> |step.msg.data| < U32_SIZE)
    ensures Short(Apply(s, step))
  {}

  // Then no connection gets out of step.
  lemma {:induction false} ShortRuns(s: State, steps: seq<Step>)
    requires Short(s) && IsRun(s, steps) && AllShort(steps)
    ensures Short(Final(s, steps))
    decreases |steps|
  {
    if steps != [] {
      ShortStep(s, steps[0]);
      assert forall i :: 0 <= i < |steps| - 1 ==> steps[1..][i] == steps[i + 1];
      ShortRuns(Apply(s, steps[0]), steps[1..]);
    }
  }

  // In every state of every run each call of send_with_reconnect has written to
  // at most two connections, never twice to the same one, and left at most that
  // many complete copies of its message; a call that has reported success left
  // one on the last connection it used. Every connection but the last failed it,
  // so two attempts, let alone two complete copies, mean that a write or a flush
  // failed on the way.
  lemma SendsAtMostTwice(steps: seq<Step>, t: nat)
    requires IsRun(INITIAL, steps)
    requires HasCall(TaskOf(Final(INITIAL, steps), t))
    ensures var s := Final(INITIAL, steps); var task := TaskOf(s, t); var call := task.call;
      && |call.complete| <= |call.tried| <= call.attempt <= 2 && Distinct(call.tried)
      && (forall c :: c in call.complete ==> c < |s.conns| && call.msg in s.conns[c].whole)
      && (task.Finished? && task.ok ==>
            exists c: nat :: Last(call.complete, c) && Last(call.tried, c)
                        && c < |s.conns| && call.msg in s.conns[c].whole)
      && (forall c :: c in call.complete ==> c in call.failed || Last(call.tried, c))
    ensures |TaskOf(Final(INITIAL, steps), t).call.tried| == 2 ==> exists i :: 0 <= i < |steps| && steps[i] == Fail(t)
  {
    InvInitial();
    RunsKeepInv(INITIAL, steps);
    var s := Final(INITIAL, steps);
    assert TaskOk(s, s.tasks[t]);
    if s.tasks[t].Finished? && s.tasks[t].ok {
      var c: nat :| Last(s.tasks[t].call.complete, c) && Last(s.tasks[t].call.tried, c);
      assert c in s.tasks[t].call.complete;
    }
    AllButLastFailed(s.tasks[t].call);
    if |s.tasks[t].call.tried| == 2 {
      FailedInRun(INITIAL, steps, t);
    }
  }

  lemma AllButLastFailed(call: Call)
    requires forall i :: 0 <= i < |call.tried| - 1 ==> call.tried[i] in call.failed
    requires forall c :: c in call.complete ==> c in call.tried
    ensures forall c :: c in call.complete ==> c in call.failed || Last(call.tried, c)
    ensures |call.tried| == 2 ==> call.failed != []
  {
    forall c | c in call.complete ensures c in call.failed || Last(call.tried, c) {
      var i :| 0 <= i < |call.tried| && call.tried[i] == c;
    }
    if |call.tried| == 2 {
      assert call.tried[0] in call.failed;
    }
  }

  ghost predicate HasFailed(task: Task) {
    HasCall(task) && task.call.failed != []
  }

  // A failure that is on record was a step of the run.
  lemma {:induction false} FailedInRun(s: State, steps: seq<Step>, t: nat)
    requires IsRun(s, steps) && !HasFailed(TaskOf(s, t)) && HasFailed(TaskOf(Final(s, steps), t))
    ensures exists i :: 0 <= i < |steps| && steps[i] == Fail(t)
    decreases |steps|
  {
    var s' := Apply(s, steps[0]);
    if !HasFailed(TaskOf(s', t)) {
      FailedInRun(s', steps[1..], t);
      var i :| 0 <= i < |steps[1..]| && steps[1..][i] == Fail(t);
      assert steps[i + 1] == Fail(t);
    } else {
      assert steps[0] == Fail(t);
    }
  }

  ghost predicate SecondTry(task: Task) {
    HasCall(task) && task.call.attempt == 2
  }

  // Over every run: a call is in its second attempt only after a step that
  // refused the first before writing, or dropped the stream it had broken.
  lemma {:induction false} SecondAttemptAfterFailure(s: State, steps: seq<Step>, t: nat)
    requires IsRun(s, steps) && !SecondTry(TaskOf(s, t)) && SecondTry(TaskOf(Final(s, steps), t))
    ensures exists i :: 0 <= i < |steps| && (steps[i] == Refuse(t) || steps[i] == Abandon(t))
    decreases |steps|
  {
    var s' := Apply(s, steps[0]);
    if SecondTry(TaskOf(s', t)) {
      assert steps[0] == Refuse(t) || steps[0] == Abandon(t);
    } else {
      SecondAttemptAfterFailure(s', steps[1..], t);
      var i :| 0 <= i < |steps[1..]| && (steps[1..][i] == Refuse(t) || steps[1..][i] == Abandon(t));
      assert steps[i + 1] == steps[1..][i];
    }
  }

  // ------------------------------------------------- what a call must have done

  ghost predicate Setback(step: Step, t: nat) {
    step == Refuse(t) || step == Abandon(t)
  }

  // The call that task t is in began at step b of the run.
  ghost predicate BeganAt(steps: seq<Step>, t: nat, b: nat) {
    && b < |steps| && steps[b].Begin? && steps[b].t == t
    && forall i :: b < i < |steps| ==> !(steps[i].Begin? && steps[i].t == t)
  }

  ghost predicate SetBack(steps: seq<Step>, t: nat, b: nat) {
    exists i :: b < i < |steps| && Setback(steps[i], t)
  }

  ghost predicate SetBackTwice(steps: seq<Step>, t: nat, b: nat) {
    exists i, j :: b < i < j < |steps| && Setback(steps[i], t) && Setback(steps[j], t)
  }

  ghost predicate EndedEarly(steps: seq<Step>, t: nat, b: nat) {
    exists i :: b < i < |steps| && (steps[i] == GiveUp(t) || steps[i] == Reject(t))
  }

  ghost predicate Succeeded(steps: seq<Step>, t: nat, b: nat) {
    exists i :: b < i < |steps| && steps[i] == Complete(t)
  }

  // What the steps since its beginning say about a call.
  ghost predicate Accounted(steps: seq<Step>, t: nat, b: nat, task: Task) {
    && HasCall(task)
    && BeganAt(steps, t, b)
    && (!task.Finished? ==> task.call.attempt == (if SetBack(steps, t, b) then 2 else 1) && !SetBackTwice(steps, t, b))
    && (task.Finished? && !task.ok ==> EndedEarly(steps, t, b) || SetBackTwice(steps, t, b))
    && (task.Finished? && task.ok ==> Succeeded(steps, t, b))
    && steps[b].msg == task.call.msg
  }

  lemma SetBackStep(steps: seq<Step>, step: Step, t: nat, b: nat)
    requires b < |steps|
    ensures SetBack(steps + [step], t, b) <==> SetBack(steps, t, b) || Setback(step, t)
    ensures SetBackTwice(steps + [step], t, b) <==> SetBackTwice(steps, t, b) || (SetBack(steps, t, b) && Setback(step, t))
    ensures EndedEarly(steps + [step], t, b) <==> EndedEarly(steps, t, b) || step == GiveUp(t) || step == Reject(t)
    ensures Succeeded(steps + [step], t, b) <==> Succeeded(steps, t, b) || step == Complete(t)
  {
    var all := steps + [step];
    assert all[|steps|] == step && forall i :: 0 <= i < |steps| ==> all[i] == steps[i];
    if SetBack(steps, t, b) && Setback(step, t) {
      var i :| b < i < |steps| && Setback(steps[i], t);
      assert Setback(all[i], t) && Setback(all[|steps|], t);
    }
  }

  lemma AccountedStep(s: State, steps: seq<Step>, step: Step, t: nat, b: nat)
    requires Enabled(s, step) && HasCall(TaskOf(s, t)) && Accounted(steps, t, b, TaskOf(s, t))
    requires HasCall(TaskOf(Apply(s, step), t))
    ensures Accounted(steps + [step], t, b, TaskOf(Apply(s, step), t))
  {
    SetBackStep(steps, step, t, b);
    var all := steps + [step];
    assert forall i :: 0 <= i < |steps| ==> all[i] == steps[i];
  }

  lemma AccountedBegin(s: State, steps: seq<Step>, step: Step, t: nat)
    requires Enabled(s, step) && !HasCall(TaskOf(s, t)) && HasCall(TaskOf(Apply(s, step), t))
    ensures Accounted(steps + [step], t, |steps|, TaskOf(Apply(s, step), t))
  {}

  lemma {:induction false} CallsAreAccounted(s: State, past: seq<Step>, steps: seq<Step>, t: nat) returns (b: nat)
    requires IsRun(s, steps) && HasCall(TaskOf(Final(s, steps), t))
    requires HasCall(TaskOf(s, t)) ==> exists b :: Accounted(past, t, b, TaskOf(s, t))
    ensures Accounted(past + steps, t, b, TaskOf(Final(s, steps), t))
    decreases |steps|
  {
    if steps == [] {
      b :| Accounted(past, t, b, TaskOf(s, t));
      assert past + steps == past;
    } else {
      var s' := Apply(s, steps[0]);
      if HasCall(TaskOf(s', t)) {
        if HasCall(TaskOf(s, t)) {
          var b0 :| Accounted(past, t, b0, TaskOf(s, t));
          AccountedStep(s, past, steps[0], t, b0);
        } else {
          AccountedBegin(s, past, steps[0], t);
        }
      }
      b := CallsAreAccounted(s', past + [steps[0]], steps[1..], t);
      assert past + [steps[0]] + steps[1..] == past + steps;
    }
  }

  // Over every run: a call that has failed was told so by two setbacks, each a
  // refusal before writing or a broken stream dropped, unless connecting failed
  // or its message could not be encoded; a call that has succeeded wrote and
  // flushed its frame.
  lemma FailsOnlyAfterTwoSetbacks(steps: seq<Step>, t: nat) returns (b: nat)
    requires IsRun(INITIAL, steps) && TaskOf(Final(INITIAL, steps), t).Finished?
    ensures BeganAt(steps, t, b) && steps[b].msg == TaskOf(Final(INITIAL, steps), t).call.msg
    ensures !TaskOf(Final(INITIAL, steps), t).ok ==> EndedEarly(steps, t, b) || SetBackTwice(steps, t, b)
    ensures TaskOf(Final(INITIAL, steps), t).ok ==> Succeeded(steps, t, b)
  {
    b := CallsAreAccounted(INITIAL, [], steps, t);
    assert [] + steps == steps;
  }

  // After its first setback a call is connecting again, for its second attempt.
  lemma SetBackOnceTriesAgain(steps: seq<Step>, t: nat) returns (b: nat)
    requires IsRun(INITIAL, steps) && HasCall(TaskOf(Final(INITIAL, steps), t))
    requires !TaskOf(Final(INITIAL, steps), t).Finished?
    ensures BeganAt(steps, t, b) && !SetBackTwice(steps, t, b)
    ensures TaskOf(Final(INITIAL, steps), t).call.attempt == if SetBack(steps, t, b) then 2 else 1
  {
    b := CallsAreAccounted(INITIAL, [], steps, t);
    assert [] + steps == steps;
  }

  lemma {:induction false} OneStepMore(s: State, steps: seq<Step>, step: Step)
    requires IsRun(s, steps) && Enabled(Final(s, steps), step)
    ensures IsRun(s, steps + [step]) && Final(s, steps + [step]) == Apply(Final(s, steps), step)
    decreases |steps|
  {
    if steps == [] {
      assert steps + [step] == [step] && [step][1..] == [];
    } else {
      assert (steps + [step])[1..] == steps[1..] + [step];
      OneStepMore(Apply(s, steps[0]), steps[1..], step);
    }
  }

  // An attempt of task 0, from connecting to holding the new stream.
  function Attempt(): seq<Step> {
    [Store, SetConnected(true), Proceed(0), Acquire(0)]
  }

  lemma {:induction false} RunsOn(s: State, a: seq<Step>, b: seq<Step>)
    requires IsRun(s, a) && IsRun(Final(s, a), b)
    ensures IsRun(s, a + b) && Final(s, a + b) == Final(Final(s, a), b)
    decreases |b|
  {
    if b == [] {
      assert a + b == a;
    } else {
      OneStepMore(s, a, b[0]);
      assert a + b == a + [b[0]] + b[1..];
      RunsOn(s, a + [b[0]], b[1..]);
    }
  }

  lemma AttemptRuns(conns: seq<Conn>, call: Call)
    requires call.msg.format != Auto
    ensures var s := State(conns, None, false, None, map[0 := Connecting(call)]);
      && IsRun(s, Attempt())
      && Final(s, Attempt()) == State(conns + [FRESH], Some(|conns|), true, Some(0),
           map[0 := Writing(call.(tried := call.tried + [|conns|]), |conns|, 0)])
  {
    var s := State(conns, None, false, None, map[0 := Connecting(call)]);
    var s1 := Apply(s, Store);
    var s2 := Apply(s1, SetConnected(true));
    var s3 := Apply(s2, Proceed(0));
    OneStepMore(s, [], Store);
    OneStepMore(s, [Store], SetConnected(true));
    OneStepMore(s, [Store, SetConnected(true)], Proceed(0));
    OneStepMore(s, [Store, SetConnected(true), Proceed(0)], Acquire(0));
    assert [] + [Store] == [Store] && [Store] + [SetConnected(true)] == [Store, SetConnected(true)];
    assert [Store, SetConnected(true)] + [Proceed(0)] == [Store, SetConnected(true), Proceed(0)];
    assert [Store, SetConnected(true), Proceed(0)] + [Acquire(0)] == Attempt();
  }

  // A write of n bytes that fails, after which the stream is dropped; and one
  // that goes through.
  function Failing(n: nat): seq<Step> {
    (if n > 0 then [Write(0, n)] else []) + [Fail(0), Abandon(0)]
  }

  function Succeeding(m: EncodedMessage): seq<Step> {
    [Write(0, |Frame(m)|), Complete(0)]
  }

  lemma {:induction false} RunPrefix(s: State, steps: seq<Step>, n: nat)
    requires IsRun(s, steps) && n < |steps|
    ensures IsRun(s, steps[..n]) && Enabled(Final(s, steps[..n]), steps[n])
    ensures IsRun(s, steps[..n + 1]) && Final(s, steps[..n + 1]) == Apply(Final(s, steps[..n]), steps[n])
    decreases n
  {
    if n > 0 {
      RunPrefix(Apply(s, steps[0]), steps[1..], n - 1);
      assert steps[..n][1..] == steps[1..][..n - 1];
    } else {
      assert steps[..0] == [];
    }
    OneStepMore(s, steps[..n], steps[n]);
    assert steps[..n] + [steps[n]] == steps[..n + 1];
  }

  // The connection state after a run: what was last written to it, a failed write
  // or flush writing that it is down.
  function IsUp(steps: seq<Step>): bool {
    if steps == [] then false
    else
      match steps[|steps| - 1]
      case SetConnected(up) => up
      case Fail(_) => false
      case _ => IsUp(steps[..|steps| - 1])
  }

  // Whether a stream is stored after a run: the last to store or drop one, which
  // a broken write and a failed receive do, decides.
  function HasStream(steps: seq<Step>): bool {
    if steps == [] then false
    else
      match steps[|steps| - 1]
      case Store => true
      case Close => false
      case Abandon(_) => false
      case EndReceive(_, failed) => !failed && HasStream(steps[..|steps| - 1])
      case _ => HasStream(steps[..|steps| - 1])
  }

  lemma {:induction false} StateIsLastWritten(steps: seq<Step>)
    requires IsRun(INITIAL, steps)
    ensures Final(INITIAL, steps).connected == IsUp(steps)
    ensures Final(INITIAL, steps).stream.Some? == HasStream(steps)
  {
    if steps != [] {
      var n := |steps| - 1;
      RunPrefix(INITIAL, steps, n);
      assert steps[..n + 1] == steps;
      StateIsLastWritten(steps[..n]);
    }
  }

  // A send is refused only while the channel is down or has no stream.
  lemma RefusedOnlyWhenDown(steps: seq<Step>, n: nat, t: nat)
    requires IsRun(INITIAL, steps) && n < |steps| && steps[n] == Refuse(t)
    ensures !IsUp(steps[..n]) || !HasStream(steps[..n])
  {
    RunPrefix(INITIAL, steps, n);
    StateIsLastWritten(steps[..n]);
  }

  // A message is rejected only if its format is Auto, and only others are written.
  lemma RejectedOnlyAuto(steps: seq<Step>, n: nat, t: nat)
    requires IsRun(INITIAL, steps) && n < |steps| && IsRun(INITIAL, steps[..n])
    ensures var task := TaskOf(Final(INITIAL, steps[..n]), t);
      && (steps[n] == Reject(t) ==> HasCall(task) && task.call.msg.format == Auto)
      && (steps[n] == Acquire(t) ==> HasCall(task) && task.call.msg.format != Auto && HasStream(steps[..n]))
  {
    RunPrefix(INITIAL, steps, n);
    StateIsLastWritten(steps[..n]);
  }

  // What is on the first connection after n bytes.
  function CutAfter(m: EncodedMessage, n: nat): Conn
    requires n <= |Frame(m)|
  {
    if n == 0 then FRESH else Grow(FRESH, m, 0, n)
  }

  // Task 0 in its first attempt, with n bytes on its first connection.
  function FirstWrite(m: EncodedMessage, n: nat): State
    requires n <= |Frame(m)|
  {
    State([CutAfter(m, n)], Some(0), true, Some(0),
          map[0 := Writing(Call(m, 1, [0], if n == |Frame(m)| then [0] else [], []), 0, n)])
  }

  lemma FirstWriteRuns(m: EncodedMessage, n: nat)
    requires 0 < n <= |Frame(m)|
    ensures Enabled(FirstWrite(m, 0), Write(0, n)) && Apply(FirstWrite(m, 0), Write(0, n)) == FirstWrite(m, n)
  {
    assert [] + [0] == [0];
  }

  lemma FailureRuns(m: EncodedMessage, n: nat)
    requires n <= |Frame(m)|
    ensures var s := FirstWrite(m, n);
      && IsRun(s, [Fail(0), Abandon(0)])
      && Final(s, [Fail(0), Abandon(0)]) == State([CutAfter(m, n)], None, false, None,
           map[0 := Connecting(Call(m, 2, [0], if n == |Frame(m)| then [0] else [], [0]))])
  {
    var s := FirstWrite(m, n);
    assert [] + [0] == [0];
    OneStepMore(s, [], Fail(0));
    assert [] + [Fail(0)] == [Fail(0)];
    OneStepMore(s, [Fail(0)], Abandon(0));
    assert [Fail(0)] + [Abandon(0)] == [Fail(0), Abandon(0)];
  }

  lemma FailingRuns(m: EncodedMessage, n: nat)
    requires n <= |Frame(m)|
    ensures var s := FirstWrite(m, 0);
      && IsRun(s, Failing(n))
      && Final(s, Failing(n)) == State([CutAfter(m, n)], None, false, None,
           map[0 := Connecting(Call(m, 2, [0], if n == |Frame(m)| then [0] else [], [0]))])
  {
    var s := FirstWrite(m, 0);
    FailureRuns(m, n);
    if n > 0 {
      FirstWriteRuns(m, n);
      OneStepMore(s, [], Write(0, n));
      assert [] + [Write(0, n)] == [Write(0, n)];
      RunsOn(s, [Write(0, n)], [Fail(0), Abandon(0)]);
    } else {
      assert Failing(n) == [Fail(0), Abandon(0)];
    }
  }

  lemma SucceedingRuns(c: Conn, call: Call)
    requires Frame(call.msg) != []
    ensures var s := State([c, FRESH], Some(1), true, Some(0), map[0 := Writing(call, 1, 0)]);
      && IsRun(s, Succeeding(call.msg))
      && Final(s, Succeeding(call.msg)) == State([c, Grow(FRESH, call.msg, 0, |Frame(call.msg)|)], Some(1), true, None,
           map[0 := Finished(call.(complete := call.complete + [1]), true)])
  {
    var s := State([c, FRESH], Some(1), true, Some(0), map[0 := Writing(call, 1, 0)]);
    OneStepMore(s, [], Write(0, |Frame(call.msg)|));
    OneStepMore(s, [Write(0, |Frame(call.msg)|)], Complete(0));
    assert [] + [Write(0, |Frame(call.msg)|)] == [Write(0, |Frame(call.msg)|)];
    assert [Write(0, |Frame(call.msg)|)] + [Complete(0)] == Succeeding(call.msg);
  }

  // There is such a run for every message and every byte at which the first
  // write fails, all of them included: the call reconnects, and its second
  // attempt ends well with the whole message on the second connection.
  lemma RetrySucceeds(m: EncodedMessage, n: nat)
    requires m.format != Auto && n <= |Frame(m)|
    ensures var run := [Begin(0, m)] + Attempt() + Failing(n) + Attempt() + Succeeding(m);
      && IsRun(INITIAL, run)
      && var s := Final(INITIAL, run);
      && TaskOf(s, 0).Finished? && TaskOf(s, 0).ok && TaskOf(s, 0).call.tried == [0, 1]
      && |s.conns| == 2 && s.conns[1].whole == [m] && s.conns[1].bytes == Frame(m)
      && s.conns[0].bytes == Frame(m)[..n] && s.stream == Some(1)
  {
    var begin := [Begin(0, m)];
    var call := Call(m, 2, [0], if n == |Frame(m)| then [0] else [], [0]);
    OneStepMore(INITIAL, [], Begin(0, m));
    assert [] + begin == begin && [] + [FRESH] == [FRESH] && [] + [0] == [0];
    AttemptRuns([], Call(m, 1, [], [], []));
    RunsOn(INITIAL, begin, Attempt());
    assert Final(INITIAL, begin + Attempt()) == FirstWrite(m, 0);
    FailingRuns(m, n);
    RunsOn(INITIAL, begin + Attempt(), Failing(n));
    RetryAfter(m, n, begin + Attempt() + Failing(n), call);
    assert Frame(m)[..0] == [];
  }

  lemma RetryAfter(m: EncodedMessage, n: nat, past: seq<Step>, call: Call)
    requires m.format != Auto && n <= |Frame(m)| && call.msg == m && call.tried == [0]
    requires IsRun(INITIAL, past)
    requires Final(INITIAL, past) == State([CutAfter(m, n)], None, false, None, map[0 := Connecting(call)])
    ensures var run := past + Attempt() + Succeeding(m);
      && IsRun(INITIAL, run)
      && Final(INITIAL, run) == State([CutAfter(m, n), Grow(FRESH, m, 0, |Frame(m)|)], Some(1), true, None,
           map[0 := Finished(call.(tried := [0, 1], complete := call.complete + [1]), true)])
  {
    AttemptRuns([CutAfter(m, n)], call);
    assert [0] + [1] == [0, 1] && [CutAfter(m, n)] + [FRESH] == [CutAfter(m, n), FRESH];
    RunsOn(INITIAL, past, Attempt());
    SucceedingRuns(CutAfter(m, n), call.(tried := [0, 1]));
    RunsOn(INITIAL, past + Attempt(), Succeeding(m));
  }

  // An abandoned connection never becomes current again and is never written to.
  lemma AbandonedByStep(s: State, step: Step, c: nat)
    requires Inv(s) && Enabled(s, step) && c < |s.conns| && s.stream != Some(c)
    ensures var s' := Apply(s, step);
      && c < |s'.conns| && s'.stream != Some(c)
      && s'.conns[c].bytes == s.conns[c].bytes && s'.conns[c].whole == s.conns[c].whole
  {
    if step.Write? {
      assert TaskOk(s, s.tasks[step.t]);
    }
  }

  lemma {:induction false} AbandonedForever(s: State, steps: seq<Step>, c: nat)
    requires Inv(s) && IsRun(s, steps) && c < |s.conns| && s.stream != Some(c)
    ensures var s' := Final(s, steps);
      && c < |s'.conns| && s'.stream != Some(c)
      && s'.conns[c].bytes == s.conns[c].bytes
    decreases |steps|
  {
    if steps != [] {
      AbandonedByStep(s, steps[0], c);
      InvStep(s, steps[0]);
      AbandonedForever(Apply(s, steps[0]), steps[1..], c);
    }
  }
}
