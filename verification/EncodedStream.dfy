/**
 Streams of encoded messages: one task writes the queued messages to a writer,
 another reads messages from a reader until the first error.
 */
module EncodedStream {
  import opened Prelude
  import opened Framing

  // The messages queued before the first queued error or Auto-format message.
  function Writable(queue: seq<ReadResult>): seq<EncodedMessage> {
    if queue == [] || queue[0].Err? || queue[0].value.format == Auto then []
    else [queue[0].value] + Writable(queue[1..])
  }

  // Everything a reader task forwards for the byte stream `input`.
  function ReadAll(input: Bytes): seq<ReadResult>
    decreases |input|
  {
    var o := ReadFrame(input);
    if o.result.Err? then [o.result] else [o.result] + ReadAll(input[o.consumed..])
  }

  lemma FramesWithOneMore(start: Bytes, written: seq<EncodedMessage>, m: EncodedMessage)
    ensures (start + Frames(written)) + Frame(m) == start + Frames(written + [m])
  {
    FramesConcat(written, [m]);
    FramesOfOne(m);
  }

  // Drains the queue into the writer; stops at the first error.
  method ToWriter(queue: seq<ReadResult>, sink: ByteSink)
    modifies sink
    ensures sink.bytes == old(sink.bytes) + Frames(Writable(queue))
  {
    var rest := queue;
    ghost var written: seq<EncodedMessage> := [];
    assert sink.bytes == old(sink.bytes) + Frames(written);
    while rest != []
      invariant written + Writable(rest) == Writable(queue)
      invariant sink.bytes == old(sink.bytes) + Frames(written)
    {
      var item := rest[0];
      if item.Err? {
        break;
      }
      var r := WriteTo(item.value, sink);
      if r.Err? {
        break;
      }
      FramesWithOneMore(old(sink.bytes), written, item.value);
      assert written + Writable(rest) == (written + [item.value]) + Writable(rest[1..]);
      written := written + [item.value];
      rest := rest[1..];
    }
    assert written + [] == written;
  }

  lemma ReadOneMore(sofar: seq<ReadResult>, input: Bytes)
    ensures var o := ReadFrame(input);
      sofar + ReadAll(input) == (sofar + [o.result]) + if o.result.Err? then [] else ReadAll(input[o.consumed..])
  {}

  // Forwards every message read and, as the last item, the error that ended it.
  method FromReader(source: ByteSource) returns (out: seq<ReadResult>)
    requires source.Valid()
    modifies source`pos
    ensures source.Valid() && out == ReadAll(old(source.Rest()))
  {
    out := [];
    var done := false;
    while !done
      invariant source.Valid()
      invariant !done ==> out + ReadAll(source.Rest()) == ReadAll(old(source.Rest()))
      invariant done ==> out == ReadAll(old(source.Rest()))
      decreases !done, |source.Rest()|
    {
      ReadOneMore(out, source.Rest());
      var item := ReadFrom(source);
      out := out + [item];
      done := item.Err?;
    }
  }

  lemma {:induction false} ReadsWrittenIff(ms: seq<EncodedMessage>)
    requires forall m :: m in ms ==> m.format != Auto
    ensures ReadAll(Frames(ms)) == Delivered(ms) + [Err(UnexpectedEof)]
       <==> forall m :: m in ms ==> |m.data| < U32_SIZE
  {
    if ms != [] {
      var m, rest := ms[0], Frames(ms[1..]);
      assert forall x :: x in ms <==> x == m || x in ms[1..];
      DeliveredFirst(ms);
      if |m.data| < U32_SIZE {
        ReadsFirst(m, rest);
        ReadsWrittenIff(ms[1..]);
        SameHead(Ok(m), ReadAll(rest), Delivered(ms[1..]) + [Err(UnexpectedEof)]);
      } else {
        OversizeReadsOther(m, rest);
        assert ReadAll(Frames(ms))[0] == ReadFrame(Frame(m) + rest).result;
      }
    }
  }

  lemma SameHead(x: ReadResult, a: seq<ReadResult>, b: seq<ReadResult>)
    ensures [x] + a == [x] + b <==> a == b
  {
    assert ([x] + a)[1..] == a && ([x] + b)[1..] == b;
  }

  lemma DeliveredFirst(ms: seq<EncodedMessage>)
    requires ms != []
    ensures Delivered(ms) + [Err(UnexpectedEof)] == [Ok(ms[0])] + (Delivered(ms[1..]) + [Err(UnexpectedEof)])
  {
    assert Delivered(ms) == [Ok(ms[0])] + Delivered(ms[1..]);
  }

  lemma ReadsFirst(m: EncodedMessage, rest: Bytes)
    requires m.format != Auto && |m.data| < U32_SIZE
    ensures ReadAll(Frame(m) + rest) == [Ok(m)] + ReadAll(rest)
  {
    ReadsBackIff(m, rest);
    assert (Frame(m) + rest)[|Frame(m)|..] == rest;
  }

  // An oversized payload is read as something else.
  lemma OversizeReadsOther(m: EncodedMessage, rest: Bytes)
    requires m.format != Auto && |m.data| >= U32_SIZE
    ensures ReadFrame(Frame(m) + rest).result != Ok(m)
  {
    RawFrameHead(FormatCode(m.format), m.data, rest);
    var r := ReadFrame(Frame(m) + rest).result;
    if r.Ok? {
      assert |r.value.data| == |m.data| % U32_SIZE;
    }
  }

  lemma {:induction false} WritableIsWritable(queue: seq<ReadResult>)
    ensures forall m :: m in Writable(queue) ==> m.format != Auto
  {
    if queue == [] || queue[0].Err? || queue[0].value.format == Auto {
    } else {
      WritableIsWritable(queue[1..]);
    }
  }

  // What ToWriter wrote, FromReader delivers: in order, exactly the messages
  // queued before the first error or Auto-format message, then one end-of-stream
  // error; this holds if and only if every one of those payloads is shorter than
  // 2^32 bytes.
  lemma StreamRoundTripIff(queue: seq<ReadResult>)
    ensures ReadAll(Frames(Writable(queue))) == Delivered(Writable(queue)) + [Err(UnexpectedEof)]
       <==> forall m :: m in Writable(queue) ==> |m.data| < U32_SIZE
  {
    WritableIsWritable(queue);
    ReadsWrittenIff(Writable(queue));
  }

  // The longest part of the queue without an error or an Auto-format message.
  lemma {:induction false} WritableIsLongest(queue: seq<ReadResult>)
    ensures var n := |Writable(queue)|;
      && n <= |queue|
      && (forall i :: 0 <= i < n ==> queue[i] == Ok(Writable(queue)[i]) && queue[i].value.format != Auto)
      && (n < |queue| ==> queue[n].Err? || queue[n].value.format == Auto)
  {
    if queue == [] || queue[0].Err? || queue[0].value.format == Auto {
    } else {
      WritableIsLongest(queue[1..]);
      assert forall i :: 1 <= i < |queue| ==> queue[i] == queue[1..][i - 1];
    }
  }

  // A reader forwards messages and, last, the one error that ended it.
  lemma {:induction false} EndsWithItsOnlyError(input: Bytes)
    ensures var out := ReadAll(input);
      && |out| >= 1 && out[|out| - 1].Err?
      && forall i :: 0 <= i < |out| - 1 ==> out[i].Ok?
    decreases |input|
  {
    var o := ReadFrame(input);
    if o.result.Ok? {
      EndsWithItsOnlyError(input[o.consumed..]);
    }
  }
}
