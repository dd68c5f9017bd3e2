/**
 Converting encoded messages between formats. JSON text is abstract: `parse` and
 `print` stand for reading and writing a JSON value, `utf8` for the UTF-8 check.
 Base64 is the concrete codec of module Base64.
 */
module Formats {
  import opened Prelude
  import opened Framing
  import B64 = Base64

  datatype JsonCodec<!V> = JsonCodec(parse: Bytes -> Option<V>, show: V -> Bytes, utf8: Bytes -> bool)

  // What serde_json promises: JSON text is UTF-8, and printed values parse back.
  ghost predicate Lawful<V(!new)>(json: JsonCodec<V>) {
    && (forall d :: json.parse(d).Some? ==> json.utf8(d))
    && (forall v :: json.parse(json.show(v)) == Some(v))
  }

  // Text that the printer can have written.
  ghost predicate Canonical<V(!new)>(json: JsonCodec<V>, d: Bytes) {
    exists v :: json.show(v) == d
  }

  type Converted = Result<EncodedMessage, MessageError>

  function PrintAgain<V>(json: JsonCodec<V>, d: Bytes): Converted {
    match json.parse(d)
    case Some(v) => Ok(EncodedMessage(json.show(v), Json))
    case None => Err(InvalidFormat)
  }

  function ToFormat<V>(json: JsonCodec<V>, m: EncodedMessage, target: EncodingFormat): Converted {
    if m.format == target then Ok(m)
    else if target == Auto then Err(UnsupportedFormat(m.format))
    else
      match (m.format, target)
      case (Auto, _) => Err(UnsupportedFormat(m.format))
      case (Json, Binary) =>
        if json.utf8(m.data) then Ok(EncodedMessage(m.data, Binary)) else Err(InvalidFormat)
      case (Json, _) => Ok(EncodedMessage(B64.Encode(m.data), Base64))
      case (Binary, Json) => PrintAgain(json, m.data)
      case (Binary, _) => Ok(EncodedMessage(B64.Encode(m.data), Base64))
      case (Base64, Json) => (
        match B64.Decode(m.data)
        case Some(binary) => PrintAgain(json, binary)
        case None => Err(Base64DecodingError)
      )
      case (Base64, _) => (
        match B64.Decode(m.data)
        case Some(binary) => Ok(EncodedMessage(binary, Binary))
        case None => Err(Base64DecodingError)
      )
  }

  // Converts through a list of formats, stopping at the first error.
  function Chain<V>(json: JsonCodec<V>, m: EncodedMessage, path: seq<EncodingFormat>): Converted
    decreases |path|
  {
    if path == [] then Ok(m)
    else
      match ToFormat(json, m, path[0])
      case Err(e) => Err(e)
      case Ok(m') => Chain(json, m', path[1..])
  }

  // The message that carries the payload `d` in format `f`.
  function Packed(d: Bytes, f: EncodingFormat): EncodedMessage {
    EncodedMessage(if f == Base64 then B64.Encode(d) else d, f)
  }

  function LastOf(path: seq<EncodingFormat>, start: EncodingFormat): EncodingFormat {
    if path == [] then start else path[|path| - 1]
  }

  lemma PackedStep<V(!new)>(json: JsonCodec<V>, d: Bytes, from: EncodingFormat, to: EncodingFormat)
    requires Lawful(json) && json.parse(d).Some? && from != Auto && to != Auto
    ensures ToFormat(json, Packed(d, from), to)
         == Ok(Packed(if to == Json && from != Json then json.show(json.parse(d).value) else d, to))
  {
    B64.DecodeEncode(d);
  }

  // Any chain of conversions among the three real formats keeps the JSON value,
  // and leaves as payload either the starting text or the printed value.
  lemma {:induction false} ChainKeepsValue<V(!new)>(json: JsonCodec<V>, d: Bytes, from: EncodingFormat, path: seq<EncodingFormat>)
    returns (d': Bytes)
    requires Lawful(json) && json.parse(d).Some?
    requires from != Auto && Auto !in path
    ensures Chain(json, Packed(d, from), path) == Ok(Packed(d', LastOf(path, from)))
    ensures json.parse(d') == json.parse(d) && (d' == d || d' == json.show(json.parse(d).value))
    decreases |path|
  {
    if path == [] {
      d' := d;
    } else {
      PackedStep(json, d, from, path[0]);
      var d1 := if path[0] == Json && from != Json then json.show(json.parse(d).value) else d;
      d' := ChainKeepsValue(json, d1, path[0], path[1..]);
    }
  }

  // From canonical JSON every chain succeeds and its bytes depend on the last
  // format only; a chain that ends in JSON is the identity.
  lemma CanonicalChain<V(!new)>(json: JsonCodec<V>, m: EncodedMessage, path: seq<EncodingFormat>)
    requires Lawful(json) && Canonical(json, m.data) && m.format == Json && Auto !in path
    ensures Chain(json, m, path) == Ok(Packed(m.data, LastOf(path, Json)))
    ensures LastOf(path, Json) == Json ==> Chain(json, m, path) == Ok(m)
  {
    var d' := ChainKeepsValue(json, m.data, Json, path);
    assert m == Packed(m.data, Json);
  }

  lemma ChainOfOne<V>(json: JsonCodec<V>, m: EncodedMessage, f: EncodingFormat)
    ensures Chain(json, m, [f]) == ToFormat(json, m, f)
  {
    var r := ToFormat(json, m, f);
    if r.Ok? {
      assert [f][1..] == [];
      assert Chain(json, r.value, []) == r;
    }
  }

  // Leaving JSON and coming back restores a message exactly when its text is
  // canonical, whichever other format it went through.
  lemma RoundTripIffCanonical<V(!new)>(json: JsonCodec<V>, m: EncodedMessage, via: EncodingFormat)
    requires Lawful(json) && m.format == Json && (via == Binary || via == Base64)
    ensures Chain(json, m, [via, Json]) == Ok(m) <==> Canonical(json, m.data)
  {
    B64.DecodeEncode(m.data);
    var path := [via, Json];
    assert path[1..] == [Json];
    var step := ToFormat(json, m, via);
    if step.Ok? {
      ChainOfOne(json, step.value, Json);
      assert ToFormat(json, step.value, Json) == PrintAgain(json, m.data);
    }
  }

  // Arbitrary bytes survive every chain between Binary and Base64.
  lemma {:induction false} BinaryChainIdentity<V>(json: JsonCodec<V>, d: Bytes, from: EncodingFormat, path: seq<EncodingFormat>)
    requires from == Binary || from == Base64
    requires forall f :: f in path ==> f == Binary || f == Base64
    ensures Chain(json, Packed(d, from), path) == Ok(Packed(d, LastOf(path, from)))
    decreases |path|
  {
    if path != [] {
      assert path[0] in path && forall f :: f in path[1..] ==> f in path;
      B64.DecodeEncode(d);
      BinaryChainIdentity(json, d, path[0], path[1..]);
    }
  }

  // A Base64 message converts to Binary exactly when its text is an encoding,
  // and then the conversion is undone by converting back.
  lemma Base64ToBinaryIff<V>(json: JsonCodec<V>, m: EncodedMessage)
    requires m.format == Base64
    ensures ToFormat(json, m, Binary).Ok? <==> exists d :: m.data == B64.Encode(d)
    ensures ToFormat(json, m, Binary).Ok? ==> Chain(json, m, [Binary, Base64]) == Ok(m)
  {
    if B64.Decode(m.data).Some? {
      var d := B64.Decode(m.data).value;
      B64.DecodesExactlyEncodings(m.data, d);
      BinaryChainIdentity(json, d, Base64, [Binary, Base64]);
    }
    forall d | m.data == B64.Encode(d) ensures B64.Decode(m.data) == Some(d) {
      B64.DecodeEncode(d);
    }
  }

  // The bytes a message carries: its own, or those its base64 text stands for.
  ghost predicate Carries(m: EncodedMessage, d: Bytes) {
    if m.format == Base64 then B64.IsStandard(d, m.data) else d == m.data
  }

  // What a conversion between two different real formats gives, for every
  // message: base64 text of the bytes carried, those bytes, or the JSON they hold
  // printed again; and which error instead.
  lemma Conversion<V>(json: JsonCodec<V>, m: EncodedMessage, target: EncodingFormat, d: Bytes)
    requires m.format != Auto && target != Auto && m.format != target && Carries(m, d)
    ensures target == Base64 ==>
              var r := ToFormat(json, m, target);
              r.Ok? && r.value.format == Base64 && B64.IsStandard(d, r.value.data)
    ensures target == Binary ==>
              ToFormat(json, m, target) == if m.format == Json && !json.utf8(d) then Err(InvalidFormat)
                                           else Ok(EncodedMessage(d, Binary))
    ensures target == Json ==>
              ToFormat(json, m, target) == match json.parse(d)
                                           case Some(v) => Ok(EncodedMessage(json.show(v), Json))
                                           case None => Err(InvalidFormat)
  {
    B64.StandardIff(d, m.data);
    B64.EncodeIsStandard(d);
  }

  // Everything else is refused or left as it is.
  lemma NoConversion<V>(json: JsonCodec<V>, m: EncodedMessage, target: EncodingFormat)
    ensures m.format == target ==> ToFormat(json, m, target) == Ok(m)
    ensures m.format != target && (m.format == Auto || target == Auto) ==>
              ToFormat(json, m, target) == Err(UnsupportedFormat(m.format))
    ensures m.format == Base64 && (target == Json || target == Binary) && (forall d :: !B64.IsStandard(d, m.data)) ==>
              ToFormat(json, m, target) == Err(Base64DecodingError)
  {
    if B64.Decode(m.data).Some? {
      B64.StandardIff(B64.Decode(m.data).value, m.data);
    }
  }
}
