/**
 Binary messages: the content followed by its metadata. The codecs of the
 primitive parts (content, text, timestamp, property text) are parameters with
 the round-trip law of a self-delimiting encoding; the tag byte of an optional
 value and the order of the parts are those of the source.
 */
module Bincode {
  import opened Prelude
  import opened Framing
  import B64 = Base64

  datatype Codec<!T> = Codec(enc: T -> Bytes, dec: Bytes -> Option<(T, Bytes)>)

  // Decoding undoes encoding whatever bytes follow.
  ghost predicate Lawful<T(!new)>(c: Codec<T>) {
    forall v, rest :: c.dec(c.enc(v) + rest) == Some((v, rest))
  }

  function EncOption<T>(c: Codec<T>, o: Option<T>): Bytes {
    match o
    case None => [0]
    case Some(v) => [1] + c.enc(v)
  }

  function DecOption<T>(dec: Bytes -> Option<(T, Bytes)>, b: Bytes): Option<(Option<T>, Bytes)> {
    if b == [] || b[0] > 1 then None
    else if b[0] == 0 then Some((None, b[1..]))
    else
      match dec(b[1..])
      case Some((v, rest)) => Some((Some(v), rest))
      case None => None
  }

  datatype Metadata<P> = Metadata(
    id: Option<string>,
    timestamp: Option<int>,
    source: Option<string>,
    destination: Option<string>,
    properties: Option<P>)

  // Codecs of the primitive parts of the metadata.
  datatype Parts<!P> = Parts(
    text: Codec<string>,
    stamp: Codec<int>,
    printProps: P -> string,
    parseProps: string -> Option<P>)

  ghost predicate LawfulParts<P(!new)>(cs: Parts<P>) {
    && Lawful(cs.text)
    && Lawful(cs.stamp)
    && (forall p :: cs.printProps(p) != "" && cs.parseProps(cs.printProps(p)) == Some(p))
  }

  function EmptyMetadata<P>(): Metadata<P> {
    Metadata(None, None, None, None, None)
  }

  function PropsText<P>(cs: Parts<P>, md: Metadata<P>): string {
    match md.properties
    case Some(p) => cs.printProps(p)
    case None => ""
  }

  function EncMetadata<P>(cs: Parts<P>, md: Metadata<P>): Bytes {
    EncOption(cs.text, md.id) + (EncOption(cs.stamp, md.timestamp) + (EncOption(cs.text, md.source)
      + (EncOption(cs.text, md.destination) + cs.text.enc(PropsText(cs, md)))))
  }

  function DecMetadata<P>(cs: Parts<P>, b: Bytes): Option<(Metadata<P>, Bytes)> {
    match DecOption(cs.text.dec, b)
    case None => None
    case Some((id, b1)) =>
      match DecOption(cs.stamp.dec, b1)
      case None => None
      case Some((timestamp, b2)) =>
        match DecOption(cs.text.dec, b2)
        case None => None
        case Some((source, b3)) =>
          match DecOption(cs.text.dec, b3)
          case None => None
          case Some((destination, b4)) =>
            match cs.text.dec(b4)
            case None => None
            case Some((props, b5)) =>
              var properties := if props != "" then cs.parseProps(props) else None;
              Some((Metadata(id, timestamp, source, destination, properties), b5))
  }

  function MetadataDecoder<P>(cs: Parts<P>): Bytes -> Option<(Metadata<P>, Bytes)> {
    b => DecMetadata(cs, b)
  }

  // Identifiers are 128-bit numbers.
  type Uuid = nat

  datatype Message<T, P> = Message(id: Uuid, content: T, metadata: Metadata<P>)

  // Written without its id and with bare metadata ...
  function EncMessage<T, P>(c: Codec<T>, cs: Parts<P>, m: Message<T, P>): Bytes {
    c.enc(m.content) + EncMetadata(cs, m.metadata)
  }

  // ... and read under a new id, as if the metadata were optional.
  function DecMessage<T, P>(c: Codec<T>, cs: Parts<P>, b: Bytes, newId: Uuid): Option<Message<T, P>> {
    match c.dec(b)
    case None => None
    case Some((content, b1)) =>
      match DecOption(MetadataDecoder(cs), b1)
      case None => None
      case Some((md, _)) => Some(Message(newId, content, if md.Some? then md.value else EmptyMetadata()))
  }

  function FromMessageBinary<T, P>(c: Codec<T>, cs: Parts<P>, m: Message<T, P>): EncodedMessage {
    EncodedMessage(EncMessage(c, cs, m), Binary)
  }

  function FromMessageBase64<T, P>(c: Codec<T>, cs: Parts<P>, m: Message<T, P>): EncodedMessage {
    EncodedMessage(B64.Encode(EncMessage(c, cs, m)), Base64)
  }

  // The binary payload of a Binary or Base64 message.
  function Payload(e: EncodedMessage): Option<Bytes>
    requires e.format == Binary || e.format == Base64
  {
    if e.format == Binary then Some(e.data) else B64.Decode(e.data)
  }

  // Content only: as a full message first, then as bare content.
  function Decode<T, P>(c: Codec<T>, cs: Parts<P>, e: EncodedMessage): Option<T>
    requires e.format == Binary || e.format == Base64
  {
    match Payload(e)
    case None => None
    case Some(binary) =>
      match DecMessage(c, cs, binary, 0)
      case Some(m) => Some(m.content)
      case None =>
        match c.dec(binary)
        case Some((content, _)) => Some(content)
        case None => None
  }

  function DecodeFull<T, P>(c: Codec<T>, cs: Parts<P>, e: EncodedMessage, newId: Uuid): Option<Message<T, P>>
    requires e.format == Binary || e.format == Base64
  {
    match Payload(e)
    case None => None
    case Some(binary) => DecMessage(c, cs, binary, newId)
  }

  lemma OptionRoundTrip<T(!new)>(c: Codec<T>, o: Option<T>, rest: Bytes)
    requires Lawful(c)
    ensures DecOption(c.dec, EncOption(c, o) + rest) == Some((o, rest))
  {
    var b := EncOption(c, o) + rest;
    match o {
      case None => assert b[1..] == rest;
      case Some(v) => assert b[1..] == c.enc(v) + rest;
    }
  }

  // Metadata's own encoding is undone for every combination of optional fields.
  lemma MetadataRoundTrip<P(!new)>(cs: Parts<P>, md: Metadata<P>, rest: Bytes)
    requires LawfulParts(cs)
    ensures DecMetadata(cs, EncMetadata(cs, md) + rest) == Some((md, rest))
  {
    var b4 := cs.text.enc(PropsText(cs, md)) + rest;
    var b3 := EncOption(cs.text, md.destination) + b4;
    var b2 := EncOption(cs.text, md.source) + b3;
    var b1 := EncOption(cs.stamp, md.timestamp) + b2;
    assert EncMetadata(cs, md) + rest == EncOption(cs.text, md.id) + b1;
    OptionRoundTrip(cs.text, md.id, b1);
    OptionRoundTrip(cs.stamp, md.timestamp, b2);
    OptionRoundTrip(cs.text, md.source, b3);
    OptionRoundTrip(cs.text, md.destination, b4);
  }

  lemma PayloadOfMade<T, P>(c: Codec<T>, cs: Parts<P>, m: Message<T, P>)
    ensures Payload(FromMessageBinary(c, cs, m)) == Some(EncMessage(c, cs, m))
    ensures Payload(FromMessageBase64(c, cs, m)) == Some(EncMessage(c, cs, m))
  {
    B64.DecodeEncode(EncMessage(c, cs, m));
  }

  // The bytes of a message: its content, then the five parts of its metadata in
  // order, each of the first four after a byte that is 1 if it is there; a binary
  // message carries them as they are, the other as base64 text.
  lemma MessageLayout<T, P>(c: Codec<T>, cs: Parts<P>, m: Message<T, P>)
    ensures FromMessageBinary(c, cs, m).format == Binary && FromMessageBase64(c, cs, m).format == Base64
    ensures B64.IsStandard(FromMessageBinary(c, cs, m).data, FromMessageBase64(c, cs, m).data)
    ensures forall i, t, s, d, p :: m.metadata == Metadata(Some(i), Some(t), Some(s), Some(d), Some(p)) ==>
              FromMessageBinary(c, cs, m).data ==
                c.enc(m.content) + ([1] + cs.text.enc(i) + ([1] + cs.stamp.enc(t) + ([1] + cs.text.enc(s)
                  + ([1] + cs.text.enc(d) + cs.text.enc(cs.printProps(p))))))
    ensures m.metadata == Metadata(None, None, None, None, None) ==>
              FromMessageBinary(c, cs, m).data == c.enc(m.content) + ([0, 0, 0, 0] + cs.text.enc(""))
  {
    B64.EncodeIsStandard(EncMessage(c, cs, m));
    if m.metadata == Metadata(None, None, None, None, None) {
      var e := cs.text.enc("");
      assert [0] + ([0] + ([0] + ([0] + e))) == [0, 0, 0, 0] + e;
    }
  }

  // The content always comes back, whatever the metadata: through the full path
  // when the bare metadata happens to read as an optional one, through the
  // fallback otherwise.
  lemma ContentRecovered<T(!new), P>(c: Codec<T>, cs: Parts<P>, m: Message<T, P>)
    requires Lawful(c)
    ensures Decode(c, cs, FromMessageBinary(c, cs, m)) == Some(m.content)
    ensures Decode(c, cs, FromMessageBase64(c, cs, m)) == Some(m.content)
  {
    PayloadOfMade(c, cs, m);
    assert c.dec(EncMessage(c, cs, m)) == Some((m.content, EncMetadata(cs, m.metadata)));
  }

  // ------------------------------------------------------ what becomes of metadata

  // How texts and time stamps begin: a text with its length in bytes, which takes
  // one byte below 251; a single byte of text is an ASCII character. A time stamp
  // whose first byte is below 251 is that byte alone. Property text is an object,
  // so never shorter than its two braces.
  ghost predicate Prefixed<P(!new)>(cs: Parts<P>) {
    && (forall s: string :: PrefixedText(cs.text, s))
    && (forall b: Bytes :: ReadsPrefix(cs.text, b))
    && (forall v: int :: cs.stamp.enc(v) != [] && (cs.stamp.enc(v)[0] < 251 ==> |cs.stamp.enc(v)| == 1))
    && (forall b: Bytes :: ReadsByte(cs.stamp, b))
    && (forall p :: |cs.printProps(p)| >= 2)
  }

  predicate PrefixedText(text: Codec<string>, s: string) {
    var b := text.enc(s);
    && b != []
    && (s == "" ==> b == [0])
    && (|s| >= 2 ==> b[0] >= 2)
    && (b[0] == 1 ==> |b| == 2 && b[1] < 128)
  }

  predicate ReadsPrefix(text: Codec<string>, b: Bytes) {
    text.dec(b).Some? ==>
      && b != []
      && (b[0] < 251 ==>
            var n: int := 1 + b[0];
            n <= |b| && text.enc(text.dec(b).value.0) == b[..n] && text.dec(b).value.1 == b[n..])
  }

  predicate ReadsByte(stamp: Codec<int>, b: Bytes) {
    stamp.dec(b).Some? ==>
      && b != []
      && (b[0] < 251 ==> stamp.enc(stamp.dec(b).value.0) == b[..1] && stamp.dec(b).value.1 == b[1..])
  }

  // A text read one byte late comes out as itself only if the byte after it is 1,
  // and takes that byte along.
  lemma LateText<P(!new)>(cs: Parts<P>, s: string, more: Bytes)
    requires Prefixed(cs) && more != []
    ensures DecOption(cs.text.dec, cs.text.enc(s) + more).Some? ==>
              var (o, rest) := DecOption(cs.text.dec, cs.text.enc(s) + more).value;
              o == Some(s) ==> more[0] == 1 && rest == more[1..]
  {
    var e := cs.text.enc(s);
    var b := e + more;
    assert PrefixedText(cs.text, s) && ReadsPrefix(cs.text, b[1..]);
    if DecOption(cs.text.dec, b).Some? && DecOption(cs.text.dec, b).value.0 == Some(s) {
      assert b[0] == e[0] == 1 && e == [1, e[1]];
      var x := b[1..];
      assert x == [e[1]] + more;
      assert cs.text.enc(s) == x[..1 + x[0]];
      assert x[0] == 1 && x[1] == more[0] && x[2..] == more[1..];
    }
  }

  // The same for a time stamp.
  lemma LateStamp<P(!new)>(cs: Parts<P>, v: int, more: Bytes)
    requires Prefixed(cs) && more != [] && more[0] <= 1
    ensures DecOption(cs.stamp.dec, cs.stamp.enc(v) + more).Some? ==>
              var (o, rest) := DecOption(cs.stamp.dec, cs.stamp.enc(v) + more).value;
              o == Some(v) ==> more[0] == 1 && rest == more[1..]
  {
    var e := cs.stamp.enc(v);
    var b := e + more;
    assert ReadsByte(cs.stamp, b[1..]);
    if DecOption(cs.stamp.dec, b).Some? && DecOption(cs.stamp.dec, b).value.0 == Some(v) {
      assert b[0] == e[0] == 1 && e == [1];
      assert b[1..] == more;
    }
  }

  // What follows the id, the time stamp, the source and the destination.
  function AfterDestination<P>(cs: Parts<P>, md: Metadata<P>): Bytes {
    cs.text.enc(PropsText(cs, md))
  }

  function AfterSource<P>(cs: Parts<P>, md: Metadata<P>): Bytes {
    EncOption(cs.text, md.destination) + AfterDestination(cs, md)
  }

  function AfterStamp<P>(cs: Parts<P>, md: Metadata<P>): Bytes {
    EncOption(cs.text, md.source) + AfterSource(cs, md)
  }

  function AfterId<P>(cs: Parts<P>, md: Metadata<P>): Bytes {
    EncOption(cs.stamp, md.timestamp) + AfterStamp(cs, md)
  }

  // Metadata read one byte late, after the tag of its id was taken for its own,
  // never comes out as it was.
  lemma LateMetadata<P(!new)>(cs: Parts<P>, md: Metadata<P>)
    requires Prefixed(cs) && md.id.Some?
    ensures var r := DecMetadata(cs, cs.text.enc(md.id.value) + AfterId(cs, md)); r.Some? ==> r.value.0 != md
  {
    assert PrefixedText(cs.text, PropsText(cs, md));
    var b := cs.text.enc(md.id.value) + AfterId(cs, md);
    if DecMetadata(cs, b).Some? && DecMetadata(cs, b).value.0 == md {
      var b1, b2, b3 := FieldsRead(cs, b);
      LateIdAndStamp(cs, md, b1, b2);
      LateEnds(cs, md, b2, b3);
      assert false;
    }
  }

  lemma LateIdAndStamp<P(!new)>(cs: Parts<P>, md: Metadata<P>, b1: Bytes, b2: Bytes)
    requires Prefixed(cs) && md.id.Some?
    requires DecOption(cs.text.dec, cs.text.enc(md.id.value) + AfterId(cs, md)) == Some((md.id, b1))
    requires DecOption(cs.stamp.dec, b1) == Some((md.timestamp, b2))
    ensures md.source.Some? && b2 == cs.text.enc(md.source.value) + AfterSource(cs, md)
  {
    LateText(cs, md.id.value, AfterId(cs, md));
    assert b1 == AfterId(cs, md)[1..] == cs.stamp.enc(md.timestamp.value) + AfterStamp(cs, md);
    LateStamp(cs, md.timestamp.value, AfterStamp(cs, md));
    assert b2 == AfterStamp(cs, md)[1..] == cs.text.enc(md.source.value) + AfterSource(cs, md);
  }

  lemma LateEnds<P(!new)>(cs: Parts<P>, md: Metadata<P>, b2: Bytes, b3: Bytes)
    requires Prefixed(cs) && md.source.Some? && b2 == cs.text.enc(md.source.value) + AfterSource(cs, md)
    requires DecOption(cs.text.dec, b2) == Some((md.source, b3))
    requires DecOption(cs.text.dec, b3).Some? && DecOption(cs.text.dec, b3).value.0 == md.destination
    ensures AfterDestination(cs, md) != [] && AfterDestination(cs, md)[0] == 1
  {
    assert PrefixedText(cs.text, PropsText(cs, md));
    LateText(cs, md.source.value, AfterSource(cs, md));
    assert b3 == AfterSource(cs, md)[1..] == cs.text.enc(md.destination.value) + AfterDestination(cs, md);
    LateText(cs, md.destination.value, AfterDestination(cs, md));
  }

  lemma FieldsRead<P>(cs: Parts<P>, b: Bytes) returns (b1: Bytes, b2: Bytes, b3: Bytes)
    requires DecMetadata(cs, b).Some?
    ensures var md := DecMetadata(cs, b).value.0;
      && DecOption(cs.text.dec, b) == Some((md.id, b1))
      && DecOption(cs.stamp.dec, b1) == Some((md.timestamp, b2))
      && DecOption(cs.text.dec, b2) == Some((md.source, b3))
      && DecOption(cs.text.dec, b3).Some? && DecOption(cs.text.dec, b3).value.0 == md.destination
  {
    b1 := DecOption(cs.text.dec, b).value.1;
    b2 := DecOption(cs.stamp.dec, b1).value.1;
    b3 := DecOption(cs.text.dec, b2).value.1;
  }

  // Bare metadata read as if it were optional.
  function ReadBack<P>(cs: Parts<P>, md: Metadata<P>): Option<Metadata<P>> {
    match md.id
    case None => Some(EmptyMetadata())
    case Some(id) =>
      match DecMetadata(cs, cs.text.enc(id) + AfterId(cs, md))
      case Some((late, _)) => Some(late)
      case None => None
  }

  lemma OptionalTail<P>(cs: Parts<P>, md: Metadata<P>)
    ensures var r := DecOption(MetadataDecoder(cs), EncMetadata(cs, md));
      match md.id
      case None => r.Some? && r.value.0 == None
      case Some(id) =>
        var late := DecMetadata(cs, cs.text.enc(id) + AfterId(cs, md));
        r == if late.Some? then Some((Some(late.value.0), late.value.1)) else None
  {
    var tail := EncMetadata(cs, md);
    if md.id.Some? {
      assert tail == [1] + (cs.text.enc(md.id.value) + AfterId(cs, md));
      assert tail[1..] == cs.text.enc(md.id.value) + AfterId(cs, md);
    }
  }

  lemma ReadAsOptional<T(!new), P>(c: Codec<T>, cs: Parts<P>, m: Message<T, P>, newId: Uuid)
    requires Lawful(c)
    ensures DecMessage(c, cs, EncMessage(c, cs, m), newId)
         == (match ReadBack(cs, m.metadata) case None => None case Some(md) => Some(Message(newId, m.content, md)))
  {
    assert c.dec(EncMessage(c, cs, m)) == Some((m.content, EncMetadata(cs, m.metadata)));
    OptionalTail(cs, m.metadata);
  }

  // The metadata need not come back. Without an id the tag byte of the id is
  // taken for "no metadata"; with an id it is taken for "metadata follows", and
  // the rest is read one byte late. So the full path restores the metadata
  // exactly when there was none to lose; the message id is never restored.
  lemma MetadataRestoredIff<T(!new), P(!new)>(c: Codec<T>, cs: Parts<P>, m: Message<T, P>, newId: Uuid)
    requires Lawful(c) && Prefixed(cs)
    ensures var r := DecodeFull(c, cs, FromMessageBinary(c, cs, m), newId);
      && DecodeFull(c, cs, FromMessageBase64(c, cs, m), newId) == r
      && (r.Some? && r.value.metadata == m.metadata <==> m.metadata == EmptyMetadata())
      && (r.Some? ==> r.value.id == newId && r.value.content == m.content)
  {
    PayloadOfMade(c, cs, m);
    ReadAsOptional(c, cs, m, newId);
    if m.metadata.id.Some? {
      LateMetadata(cs, m.metadata);
    }
  }

  // With an id of two characters or more there is no full message at all, only
  // the content; an empty id alone is lost.
  lemma FullMessageWithId<T(!new), P(!new)>(c: Codec<T>, cs: Parts<P>, m: Message<T, P>, newId: Uuid)
    requires Lawful(c) && Prefixed(cs) && LawfulParts(cs) && m.metadata.id.Some?
    ensures var r := DecodeFull(c, cs, FromMessageBinary(c, cs, m), newId);
      && (|m.metadata.id.value| >= 2 ==> r == None)
      && (m.metadata.id.value == "" ==> r == Some(Message(newId, m.content, m.metadata.(id := None))))
  {
    PayloadOfMade(c, cs, m);
    ReadAsOptional(c, cs, m, newId);
    ReadBackWithId(cs, m.metadata);
  }

  lemma ReadBackWithId<P(!new)>(cs: Parts<P>, md: Metadata<P>)
    requires Prefixed(cs) && LawfulParts(cs) && md.id.Some?
    ensures |md.id.value| >= 2 ==> ReadBack(cs, md) == None
    ensures md.id.value == "" ==> ReadBack(cs, md) == Some(md.(id := None))
  {
    assert PrefixedText(cs.text, md.id.value);
    if md.id.value == "" {
      var lost := md.(id := None);
      MetadataRoundTrip(cs, lost, []);
      assert EncMetadata(cs, lost) + [] == cs.text.enc(md.id.value) + AfterId(cs, md);
    } else if |md.id.value| >= 2 {
      assert (cs.text.enc(md.id.value) + AfterId(cs, md))[0] >= 2;
    }
  }
}
