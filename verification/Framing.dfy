/**
 Framed messages: a 4-byte big-endian length, a 1-byte format code and the
 payload. The length field holds the payload length modulo 2^32.
 */
module Framing {
  import opened Prelude

  datatype EncodingFormat = Json | Binary | Base64 | Auto

  datatype EncodedMessage = EncodedMessage(data: Bytes, format: EncodingFormat)

  datatype MessageError =
    | UnsupportedFormat(format: EncodingFormat)
    | InvalidFormat
    | Base64DecodingError
    | UnexpectedEof

  type ReadResult = Result<EncodedMessage, MessageError>

  const U32_SIZE: nat := 0x1_0000_0000

  // `n as u32` followed by `to_be_bytes`.
  function U32Bytes(n: nat): (b: Bytes)
    ensures |b| == 4
  {
    var m := n % U32_SIZE;
    [m / 0x100_0000, m / 0x1_0000 % 0x100, m / 0x100 % 0x100, m % 0x100]
  }

  function U32Value(b: Bytes): nat
    requires |b| == 4
  {
    var b0: int, b1: int, b2: int, b3: int := b[0], b[1], b[2], b[3];
    ((b0 * 0x100 + b1) * 0x100 + b2) * 0x100 + b3
  }

  lemma U32RoundTrip(n: nat)
    ensures U32Value(U32Bytes(n)) == n % U32_SIZE
  {
    var m := n % U32_SIZE;
    var q1, q2, q3 := m / 0x100, m / 0x1_0000, m / 0x100_0000;
    NestedQuotients(m);
    var b := U32Bytes(n);
    assert b == [q3, q2 % 0x100, q1 % 0x100, m % 0x100];
    assert q3 * 0x100 + q2 % 0x100 == q2;
    assert q2 * 0x100 + q1 % 0x100 == q1;
  }

  lemma NestedQuotients(m: nat)
    ensures m / 0x1_0000 == m / 0x100 / 0x100 && m / 0x100_0000 == m / 0x1_0000 / 0x100
  {}

  function FormatCode(f: EncodingFormat): byte {
    match f
    case Json => 1
    case Binary => 2
    case Base64 => 3
    case Auto => 0
  }

  function FormatOf(code: byte): Option<EncodingFormat> {
    match code
    case 0 => Some(Auto)
    case 1 => Some(Json)
    case 2 => Some(Binary)
    case 3 => Some(Base64)
    case _ => None
  }

  function RawFrame(code: byte, data: Bytes): Bytes {
    U32Bytes(|data|) + [code] + data
  }

  // The bytes that writing a message appends.
  function Frame(m: EncodedMessage): Bytes {
    RawFrame(FormatCode(m.format), m.data)
  }

  // A message that can be written and whose length field is exact.
  ghost predicate Sendable(m: EncodedMessage) {
    m.format != Auto && |m.data| < U32_SIZE
  }

  datatype ReadOutcome = ReadOutcome(result: ReadResult, consumed: nat)

  // Reading one message from the front of `input`: the format code is judged
  // before the payload is read.
  function ReadFrame(input: Bytes): ReadOutcome {
    if |input| < 5 then ReadOutcome(Err(UnexpectedEof), |input|)
    else
      var len := U32Value(input[..4]);
      match FormatOf(input[4])
      case None => ReadOutcome(Err(InvalidFormat), 5)
      case Some(f) =>
        if f == Auto then ReadOutcome(Err(UnsupportedFormat(Auto)), 5)
        else if |input| < 5 + len then ReadOutcome(Err(UnexpectedEof), |input|)
        else ReadOutcome(Ok(EncodedMessage(input[5..5 + len], f)), 5 + len)
  }

  // The channel's way of reading: it takes the whole frame off the stream first
  // and judges the format code afterwards. None means that the stream ended.
  function ReceiveFrame(input: Bytes): Option<ReadOutcome> {
    if |input| < 5 then None
    else
      var len := U32Value(input[..4]);
      if |input| < 5 + len then None
      else Some(ReadOutcome(ReadFrame(input[..5 + len]).result, 5 + len))
  }

  // Everything the channel's receive yields from `input` before the stream ends.
  function ReceiveAll(input: Bytes): seq<ReadResult>
    decreases |input|
  {
    match ReceiveFrame(input)
    case None => []
    case Some(o) => [o.result] + ReceiveAll(input[o.consumed..])
  }

  function Frames(ms: seq<EncodedMessage>): Bytes {
    if ms == [] then [] else Frame(ms[0]) + Frames(ms[1..])
  }

  function Delivered(ms: seq<EncodedMessage>): seq<ReadResult> {
    seq(|ms|, i requires 0 <= i < |ms| => Ok(ms[i]))
  }

  lemma RawFrameHead(code: byte, data: Bytes, rest: Bytes)
    ensures var input := RawFrame(code, data) + rest;
      && |input| == 5 + |data| + |rest|
      && U32Value(input[..4]) == |data| % U32_SIZE
      && input[4] == code
      && input[5..] == data + rest
  {
    var input := RawFrame(code, data) + rest;
    assert input[..4] == U32Bytes(|data|);
    U32RoundTrip(|data|);
  }

  // The bytes of a frame: the payload length modulo 2^32 with its highest byte
  // first, then 1 for Json, 2 for Binary and 3 for Base64, then the payload.
  lemma FrameLayout(m: EncodedMessage)
    ensures var f := Frame(m);
      && |f| == 5 + |m.data|
      && f[0] as int * 16777216 + f[1] as int * 65536 + f[2] as int * 256 + f[3] as int == |m.data| % 4294967296
      && (m.format == Json ==> f[4] == 1) && (m.format == Binary ==> f[4] == 2) && (m.format == Base64 ==> f[4] == 3)
      && f[5..] == m.data
  {
    RawFrameHead(FormatCode(m.format), m.data, []);
    var f := Frame(m);
    assert f + [] == f;
    var b := f[..4];
    assert b[0] == f[0] && b[1] == f[1] && b[2] == f[2] && b[3] == f[3];
  }

  // A stream that ends within a frame is an end-of-file error.
  lemma TruncatedIsEof(m: EncodedMessage, part: Bytes)
    requires Sendable(m) && part <= Frame(m) && |part| < |Frame(m)|
    ensures ReadFrame(part) == ReadOutcome(Err(UnexpectedEof), |part|)
  {
    var f := Frame(m);
    RawFrameHead(FormatCode(m.format), m.data, []);
    assert f + [] == f;
    if |part| >= 5 {
      assert part[..4] == f[..4] && part[4] == f[4];
    }
  }

  // A written message is read back, with exactly its own bytes consumed, if and
  // only if its payload is shorter than 2^32 bytes. A longer payload is cut
  // short and leaves the stream out of step.
  lemma ReadsBackIff(m: EncodedMessage, rest: Bytes)
    requires m.format != Auto
    ensures ReadFrame(Frame(m) + rest) == ReadOutcome(Ok(m), |Frame(m)|) <==> |m.data| < U32_SIZE
  {
    RawFrameHead(FormatCode(m.format), m.data, rest);
    var input := Frame(m) + rest;
    var len := |m.data| % U32_SIZE;
    assert FormatOf(input[4]) == Some(m.format);
    assert |input| >= 5 + len;
    if |m.data| < U32_SIZE {
      assert input[5..5 + len] == input[5..][..len] == m.data;
    } else {
      assert |input[5..5 + len]| < |m.data|;
    }
  }

  lemma ReceivesBack(m: EncodedMessage, rest: Bytes)
    requires Sendable(m)
    ensures ReceiveFrame(Frame(m) + rest) == Some(ReadOutcome(Ok(m), |Frame(m)|))
  {
    RawFrameHead(FormatCode(m.format), m.data, rest);
    ReadsBackIff(m, []);
    assert Frame(m) + [] == Frame(m);
    assert (Frame(m) + rest)[..|Frame(m)|] == Frame(m);
  }

  // A frame with an unknown or Auto format code is reported as one error by the
  // channel and consumed whole, so the frames after it still parse; reading it
  // from a plain stream stops before the payload.
  lemma BadFrameIsSkipped(code: byte, data: Bytes, rest: Bytes)
    requires (code == 0 || code > 3) && |data| < U32_SIZE
    ensures var e := if code == 0 then UnsupportedFormat(Auto) else InvalidFormat;
      && ReceiveAll(RawFrame(code, data) + rest) == [Err(e)] + ReceiveAll(rest)
      && ReadFrame(RawFrame(code, data) + rest) == ReadOutcome(Err(e), 5)
  {
    BadFrameReceived(code, data, rest);
    RawFrameHead(code, data, rest);
    assert (RawFrame(code, data) + rest)[5 + |data|..] == rest;
  }

  lemma BadFrameReceived(code: byte, data: Bytes, rest: Bytes)
    requires (code == 0 || code > 3) && |data| < U32_SIZE
    ensures var e := if code == 0 then UnsupportedFormat(Auto) else InvalidFormat;
      ReceiveFrame(RawFrame(code, data) + rest) == Some(ReadOutcome(Err(e), 5 + |data|))
  {
    RawFrameHead(code, data, rest);
    RawFrameHead(code, data, []);
    assert (RawFrame(code, data) + rest)[..5 + |data|] == RawFrame(code, data) + [];
  }

  // An incomplete frame yields nothing.
  lemma PartialFrameYieldsNothing(m: EncodedMessage, part: Bytes)
    requires Sendable(m) && part <= Frame(m) && |part| < |Frame(m)|
    ensures ReceiveAll(part) == []
  {
    var f := Frame(m);
    RawFrameHead(FormatCode(m.format), m.data, []);
    assert f + [] == f;
    if |part| >= 5 {
      assert part[..4] == f[..4];
      assert U32Value(part[..4]) == |m.data|;
    }
    assert ReceiveFrame(part) == None;
  }

  lemma FramesOfOne(m: EncodedMessage)
    ensures Frames([m]) == Frame(m)
  {
    assert [m][1..] == [];
    assert Frame(m) + [] == Frame(m);
  }

  lemma {:induction false} FramesConcat(a: seq<EncodedMessage>, b: seq<EncodedMessage>)
    ensures Frames(a + b) == Frames(a) + Frames(b)
  {
    if a == [] {
      assert a + b == b;
    } else {
      assert (a + b)[1..] == a[1..] + b;
      FramesConcat(a[1..], b);
    }
  }

  // The start of a frame that was never completed.
  ghost predicate CutFrame(part: Bytes) {
    part == [] || exists m :: Sendable(m) && part <= Frame(m) && |part| < |Frame(m)|
  }

  // Whatever prefix of whole frames and a cut frame has arrived, the receiver
  // has got exactly the first k messages, where k counts the frames that arrived
  // in full.
  lemma {:induction false} ArrivedPrefix(ms: seq<EncodedMessage>, cut: Bytes, arrived: Bytes) returns (k: nat)
    requires forall m :: m in ms ==> Sendable(m)
    requires CutFrame(cut)
    requires arrived <= Frames(ms) + cut
    ensures k <= |ms| && ReceiveAll(arrived) == Delivered(ms[..k])
    ensures Frames(ms[..k]) <= arrived
    ensures k < |ms| ==> |arrived| < |Frames(ms[..k + 1])|
    decreases |ms|
  {
    if ms == [] {
      k := 0;
      CutYieldsNothing(cut, arrived);
    } else {
      if |arrived| < |Frame(ms[0])| {
        k := 0;
        FirstNotArrived(ms, cut, arrived);
      } else {
        var rest := RestArrived(ms, cut, arrived);
        var k' := ArrivedPrefix(ms[1..], cut, rest);
        k := k' + 1;
        ReceivesFirst(ms, rest, k');
        NextNotArrived(ms, Frame(ms[0]), rest, k');
      }
    }
  }

  lemma FirstNotArrived(ms: seq<EncodedMessage>, cut: Bytes, arrived: Bytes)
    requires ms != [] && Sendable(ms[0]) && arrived <= Frames(ms) + cut && |arrived| < |Frame(ms[0])|
    ensures ReceiveAll(arrived) == [] && |arrived| < |Frames(ms[..1])|
  {
    Regroup(Frame(ms[0]), Frames(ms[1..]), cut, arrived);
    PartialFrameYieldsNothing(ms[0], arrived);
    FramesTake(ms, 0);
  }

  lemma RestArrived(ms: seq<EncodedMessage>, cut: Bytes, arrived: Bytes) returns (rest: Bytes)
    requires ms != [] && arrived <= Frames(ms) + cut && |arrived| >= |Frame(ms[0])|
    ensures arrived == Frame(ms[0]) + rest && rest <= Frames(ms[1..]) + cut
  {
    Regroup(Frame(ms[0]), Frames(ms[1..]), cut, arrived);
    rest := arrived[|Frame(ms[0])|..];
  }

  lemma CutYieldsNothing(cut: Bytes, arrived: Bytes)
    requires CutFrame(cut) && arrived <= cut
    ensures ReceiveAll(arrived) == []
  {
    if arrived != [] {
      var m :| Sendable(m) && cut <= Frame(m) && |cut| < |Frame(m)|;
      PartialFrameYieldsNothing(m, arrived);
    }
  }

  lemma NextNotArrived(ms: seq<EncodedMessage>, first: Bytes, rest: Bytes, k: nat)
    requires ms != [] && first == Frame(ms[0]) && k < |ms|
    requires k + 1 < |ms| ==> |rest| < |Frames(ms[1..][..k + 1])|
    ensures k + 1 < |ms| ==> |first| + |rest| < |Frames(ms[..k + 2])|
  {
    if k + 1 < |ms| {
      FramesTake(ms, k + 1);
    }
  }

  // Bytes that start like a frame and what follows it.
  lemma Regroup(first: Bytes, more: Bytes, cut: Bytes, arrived: Bytes)
    requires arrived <= first + more + cut
    ensures first + more + cut == first + (more + cut)
    ensures |arrived| < |first| ==> arrived <= first
    ensures |arrived| >= |first| ==> arrived == first + arrived[|first|..] && arrived[|first|..] <= more + cut
  {
    assert first + more + cut == first + (more + cut);
    if |arrived| >= |first| {
      assert arrived[..|first|] == first;
    }
  }

  lemma FramesTake(ms: seq<EncodedMessage>, k: nat)
    requires k < |ms|
    ensures Frames(ms[..k + 1]) == Frame(ms[0]) + Frames(ms[1..][..k])
  {
    assert ms[..k + 1][1..] == ms[1..][..k];
  }

  lemma ReceivesFirst(ms: seq<EncodedMessage>, rest: Bytes, k: nat)
    requires k < |ms| && Sendable(ms[0])
    requires ReceiveAll(rest) == Delivered(ms[1..][..k]) && Frames(ms[1..][..k]) <= rest
    ensures ReceiveAll(Frame(ms[0]) + rest) == Delivered(ms[..k + 1])
    ensures Frames(ms[..k + 1]) <= Frame(ms[0]) + rest
  {
    FirstTaken(ms[0], rest);
    FramesTake(ms, k);
    assert ms[..k + 1] == [ms[0]] + ms[1..][..k];
  }

  lemma FirstTaken(m: EncodedMessage, rest: Bytes)
    requires Sendable(m)
    ensures ReceiveAll(Frame(m) + rest) == [Ok(m)] + ReceiveAll(rest)
  {
    ReceivesBack(m, rest);
    assert (Frame(m) + rest)[|Frame(m)|..] == rest;
  }

  /** A growing byte buffer. */
  class ByteSink {
    var bytes: Bytes

    constructor ()
      ensures bytes == []
    {
      bytes := [];
    }

    method WriteAll(b: Bytes)
      modifies this
      ensures bytes == old(bytes) + b
    {
      bytes := bytes + b;
    }
  }

  /** A finite byte stream with a read position. */
  class ByteSource {
    var data: Bytes
    var pos: nat

    ghost predicate Valid()
      reads this
    {
      pos <= |data|
    }

    ghost function Rest(): Bytes
      requires Valid()
      reads this
    {
      data[pos..]
    }

    constructor (data: Bytes)
      ensures Valid() && Rest() == data
    {
      this.data := data;
      pos := 0;
    }

    // Fills a buffer of n bytes, or runs into the end of the stream.
    method ReadExact(n: nat) returns (r: Option<Bytes>)
      requires Valid()
      modifies this`pos
      ensures Valid()
      ensures n <= |old(Rest())| ==> r == Some(old(Rest())[..n]) && Rest() == old(Rest())[n..]
      ensures n > |old(Rest())| ==> r == None && Rest() == []
    {
      if pos + n <= |data| {
        assert data[pos..][..n] == data[pos..pos + n];
        r := Some(data[pos..pos + n]);
        pos := pos + n;
      } else {
        r := None;
        pos := |data|;
      }
    }
  }

  // Writes header, format code and payload; refuses the Auto format untouched.
  method WriteTo(m: EncodedMessage, sink: ByteSink) returns (r: Result<(), MessageError>)
    modifies sink
    ensures m.format == Auto ==> r == Err(UnsupportedFormat(Auto)) && sink.bytes == old(sink.bytes)
    ensures m.format != Auto ==> r == Ok(()) && sink.bytes == old(sink.bytes) + Frame(m)
  {
    if m.format == Auto {
      return Err(UnsupportedFormat(m.format));
    }
    ghost var before := sink.bytes;
    sink.WriteAll(U32Bytes(|m.data|));
    sink.WriteAll([FormatCode(m.format)]);
    sink.WriteAll(m.data);
    assert sink.bytes == before + Frame(m);
    r := Ok(());
  }

  // Reads one message step by step, stopping at the first problem.
  method ReadFrom(source: ByteSource) returns (r: ReadResult)
    requires source.Valid()
    modifies source`pos
    ensures source.Valid()
    ensures var o := ReadFrame(old(source.Rest()));
      r == o.result && o.consumed <= |old(source.Rest())| && source.Rest() == old(source.Rest())[o.consumed..]
  {
    ghost var input := source.Rest();
    var header := source.ReadExact(4);
    if header == None {
      return Err(UnexpectedEof);
    }
    var len := U32Value(header.value);
    var code := source.ReadExact(1);
    if code == None {
      return Err(UnexpectedEof);
    }
    assert source.Rest() == input[5..];
    assert code.value[0] == input[4];
    var format := FormatOf(code.value[0]);
    if format == None {
      return Err(InvalidFormat);
    }
    if format.value == Auto {
      return Err(UnsupportedFormat(Auto));
    }
    var payload := source.ReadExact(len);
    if payload == None {
      return Err(UnexpectedEof);
    }
    assert payload.value == input[5..][..len] == input[5..5 + len];
    r := Ok(EncodedMessage(payload.value, format.value));
  }
}
