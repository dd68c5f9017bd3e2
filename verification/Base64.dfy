/**
 The standard Base64 alphabet with required padding (section 4 of RFC 4648), as
 the STANDARD engine applies it: decoding refuses missing padding, a wrong
 symbol and non-zero trailing bits, so a text decodes exactly when it is the
 encoding of its result.
 */
module Base64 {
  import opened Prelude

  type sextet = v: int | 0 <= v < 64

  const PAD: byte := 61

  // Section 4 of RFC 4648, Table 1: A-Z, a-z, 0-9, '+', '/'.
  function Symbol(v: sextet): byte {
    if v < 26 then 65 + v
    else if v < 52 then 97 + (v - 26)
    else if v < 62 then 48 + (v - 52)
    else if v == 62 then 43
    else 47
  }

  function Value(c: byte): (v: Option<int>)
    ensures v.Some? ==> 0 <= v.value < 64 && Symbol(v.value) == c
  {
    if 65 <= c <= 90 then Some(c - 65)
    else if 97 <= c <= 122 then Some(c - 97 + 26)
    else if 48 <= c <= 57 then Some(c - 48 + 52)
    else if c == 43 then Some(62)
    else if c == 47 then Some(63)
    else None
  }

  function Group3(a: byte, b: byte, c: byte): Bytes {
    [Symbol(a / 4), Symbol(a % 4 * 16 + b / 16), Symbol(b % 16 * 4 + c / 64), Symbol(c % 64)]
  }

  function Group2(a: byte, b: byte): Bytes {
    [Symbol(a / 4), Symbol(a % 4 * 16 + b / 16), Symbol(b % 16 * 4), PAD]
  }

  function Group1(a: byte): Bytes {
    [Symbol(a / 4), Symbol(a % 4 * 16), PAD, PAD]
  }

  function Encode(data: Bytes): Bytes {
    if |data| == 0 then []
    else if |data| == 1 then Group1(data[0])
    else if |data| == 2 then Group2(data[0], data[1])
    else Group3(data[0], data[1], data[2]) + Encode(data[3..])
  }

  // The three bytes held by four six-bit values.
  function Unpack(v0: sextet, v1: sextet, v2: sextet, v3: sextet): Bytes {
    [v0 * 4 + v1 / 16, v1 % 16 * 16 + v2 / 4, v2 % 4 * 64 + v3]
  }

  // Four symbols without padding.
  function DecodeFull(q: Bytes): Option<Bytes>
    requires |q| == 4
  {
    match (Value(q[0]), Value(q[1]), Value(q[2]), Value(q[3]))
    case (Some(v0), Some(v1), Some(v2), Some(v3)) =>
      Some(Unpack(v0, v1, v2, v3))
    case _ => None
  }

  // The last four symbols, which may end in one or two padding characters.
  function DecodeLast(q: Bytes): Option<Bytes>
    requires |q| == 4
  {
    if q[3] != PAD then DecodeFull(q)
    else
      match (Value(q[0]), Value(q[1]))
      case (Some(v0), Some(v1)) =>
        if q[2] == PAD then
          if v1 % 16 == 0 then Some([v0 * 4 + v1 / 16]) else None
        else (
          match Value(q[2])
          case Some(v2) =>
            if v2 % 4 == 0 then Some([v0 * 4 + v1 / 16, v1 % 16 * 16 + v2 / 4]) else None
          case None => None
        )
      case _ => None
  }

  function Decode(text: Bytes): Option<Bytes> {
    if |text| == 0 then Some([])
    else if |text| < 4 then None
    else if |text| == 4 then DecodeLast(text)
    else
      match DecodeFull(text[..4])
      case None => None
      case Some(head) =>
        match Decode(text[4..])
        case None => None
        case Some(tail) => Some(head + tail)
  }

  lemma SymbolValue(v: sextet)
    ensures Value(Symbol(v)) == Some(v) && Symbol(v) != PAD
  {}

  lemma UnpackPack(a: byte, b: byte, c: byte)
    ensures Unpack(a / 4, a % 4 * 16 + b / 16, b % 16 * 4 + c / 64, c % 64) == [a, b, c]
  {
    var v0, v1, v2, v3 := a / 4, a % 4 * 16 + b / 16, b % 16 * 4 + c / 64, c % 64;
    assert v1 / 16 == a % 4 && v1 % 16 == b / 16;
    assert v2 / 4 == b % 16 && v2 % 4 == c / 64;
  }

  lemma FullInvertsGroup3(a: byte, b: byte, c: byte)
    ensures DecodeFull(Group3(a, b, c)) == Some([a, b, c]) && Group3(a, b, c)[3] != PAD
  {
    UnpackPack(a, b, c);
    SymbolValue(a / 4);
    SymbolValue(a % 4 * 16 + b / 16);
    SymbolValue(b % 16 * 4 + c / 64);
    SymbolValue(c % 64);
  }

  lemma LastInvertsGroup2(a: byte, b: byte)
    ensures DecodeLast(Group2(a, b)) == Some([a, b])
  {
    SymbolValue(a / 4);
    SymbolValue(a % 4 * 16 + b / 16);
    SymbolValue(b % 16 * 4);
  }

  lemma LastInvertsGroup1(a: byte)
    ensures DecodeLast(Group1(a)) == Some([a])
  {
    SymbolValue(a / 4);
    SymbolValue(a % 4 * 16);
  }

  lemma PackUnpack(v0: sextet, v1: sextet, v2: sextet, v3: sextet)
    ensures var d := Unpack(v0, v1, v2, v3);
      Group3(d[0], d[1], d[2]) == [Symbol(v0), Symbol(v1), Symbol(v2), Symbol(v3)]
  {
    var d := Unpack(v0, v1, v2, v3);
    assert d[0] / 4 == v0;
    assert d[0] % 4 * 16 + d[1] / 16 == v1;
    assert d[1] % 16 * 4 + d[2] / 64 == v2;
    assert d[2] % 64 == v3;
  }

  lemma FullIsGroup3(q: Bytes)
    requires |q| == 4 && DecodeFull(q).Some?
    ensures var d := DecodeFull(q).value; |d| == 3 && q == Group3(d[0], d[1], d[2])
  {
    PackUnpack(Value(q[0]).value, Value(q[1]).value, Value(q[2]).value, Value(q[3]).value);
  }

  lemma LastIsEncoding(q: Bytes)
    requires |q| == 4 && DecodeLast(q).Some?
    ensures q == Encode(DecodeLast(q).value)
  {
    if q[3] != PAD {
      FullIsGroup3(q);
      assert Encode([]) == [];
    } else {
      var v0, v1 := Value(q[0]).value, Value(q[1]).value;
      if q[2] == PAD {
        assert (v0 * 4 + v1 / 16) / 4 == v0 && (v0 * 4 + v1 / 16) % 4 * 16 == v1;
      } else {
        var v2 := Value(q[2]).value;
        var a, b := v0 * 4 + v1 / 16, v1 % 16 * 16 + v2 / 4;
        assert a / 4 == v0 && a % 4 * 16 + b / 16 == v1 && b % 16 * 4 == v2;
        assert q == Group2(a, b);
      }
    }
  }

  // Decoding undoes encoding, for every byte string.
  lemma {:induction false} DecodeEncode(data: Bytes)
    ensures Decode(Encode(data)) == Some(data)
  {
    if |data| == 0 {
    } else if |data| == 1 {
      LastInvertsGroup1(data[0]);
      assert data == [data[0]];
    } else if |data| == 2 {
      LastInvertsGroup2(data[0], data[1]);
      assert data == [data[0], data[1]];
    } else {
      var q := Group3(data[0], data[1], data[2]);
      FullInvertsGroup3(data[0], data[1], data[2]);
      DecodeEncode(data[3..]);
      var text := Encode(data);
      assert text[..4] == q && text[4..] == Encode(data[3..]);
      assert data == [data[0], data[1], data[2]] + data[3..];
      if |text| == 4 {
        assert text == q;
        assert |Encode(data[3..])| == 0 && |data| == 3;
        assert data == [data[0], data[1], data[2]];
      } else {
        assert Decode(text) == Some([data[0], data[1], data[2]] + data[3..]);
      }
    }
  }

  // A text decodes to `data` exactly when it is the encoding of `data`: no two
  // texts carry the same bytes, and every other text is refused.
  lemma {:induction false} DecodesExactlyEncodings(text: Bytes, data: Bytes)
    ensures Decode(text) == Some(data) <==> text == Encode(data)
  {
    DecodeEncode(data);
    if Decode(text) == Some(data) {
      DecodedIsEncoded(text);
    }
  }

  lemma {:induction false} DecodedIsEncoded(text: Bytes)
    requires Decode(text).Some?
    ensures text == Encode(Decode(text).value)
  {
    if |text| == 0 {
    } else if |text| == 4 {
      LastIsEncoding(text);
    } else {
      var head := DecodeFull(text[..4]).value;
      var tail := Decode(text[4..]).value;
      FullIsGroup3(text[..4]);
      DecodedIsEncoded(text[4..]);
      assert (head + tail)[3..] == tail;
      assert text == text[..4] + text[4..];
    }
  }

  // ------------------------------------------------------- against the standard

  // Table 1 of RFC 4648, in order.
  const UPPER := "ABCDEFGHIJKLMNOPQRSTUVWXYZ"
  const LOWER := "abcdefghijklmnopqrstuvwxyz"
  const ALPHABET := UPPER + LOWER + "0123456789+/"

  lemma UpperCase(v: nat)
    requires v < 26
    ensures UPPER[v] as int == 65 + v
  {}

  lemma LowerCase(v: nat)
    requires v < 26
    ensures LOWER[v] as int == 97 + v
  {}

  lemma SymbolsAreTable(v: sextet)
    ensures |ALPHABET| == 64 && Symbol(v) == ALPHABET[v] as int
  {
    if v < 26 {
      UpperCase(v);
    } else if v < 52 {
      LowerCase(v - 26);
    }
  }

  // Byte k of the input; zero bits follow the last one.
  function ByteAt(data: Bytes, k: nat): byte {
    if k < |data| then data[k] else 0
  }

  // The v-th six bits of the input: they lie within the two bytes from 6 * v / 8 on.
  function SixBits(data: Bytes, v: nat): sextet {
    var k := 6 * v / 8;
    var window: nat := ByteAt(data, k) * 256 + ByteAt(data, k + 1);
    match 6 * v % 8
    case 0 => window / 1024 % 64
    case 6 => window / 16 % 64
    case 4 => window / 64 % 64
    case _ => window / 256 % 64
  }

  // How many symbols carry bits of n bytes, and how long the text is.
  function Symbols(n: nat): nat {
    (8 * n + 5) / 6
  }

  function SymbolAt(data: Bytes, v: nat): char {
    SymbolsAreTable(SixBits(data, v));
    ALPHABET[SixBits(data, v)]
  }

  function TextAt(data: Bytes, v: nat): char {
    if v < Symbols(|data|) then SymbolAt(data, v) else '='
  }

  // The text is the six-bit values of the input in order, looked up in the table
  // of the standard, filled up with '=' to a multiple of four characters.
  ghost predicate IsStandard(data: Bytes, text: Bytes) {
    && |text| == (|data| + 2) / 3 * 4
    && (forall v: nat :: v < |text| ==> text[v] == TextAt(data, v) as int)
  }

  lemma SixBitsShift(data: Bytes, v: nat)
    requires |data| >= 3
    ensures SixBits(data, v + 4) == SixBits(data[3..], v)
  {
    assert 6 * (v + 4) / 8 == 6 * v / 8 + 3 && 6 * (v + 4) % 8 == 6 * v % 8;
  }

  lemma Window0(a: byte, b: byte)
    ensures (a * 256 + b) / 1024 % 64 == a / 4
  {
    assert a * 256 + b == 1024 * (a / 4) + (a % 4 * 256 + b);
  }

  lemma Window6(a: byte, b: byte)
    ensures (a * 256 + b) / 16 % 64 == a % 4 * 16 + b / 16
  {
    assert a * 256 + b == 16 * (64 * (a / 4) + (a % 4 * 16 + b / 16)) + b % 16;
    assert (a * 256 + b) / 16 == 64 * (a / 4) + (a % 4 * 16 + b / 16);
  }

  lemma Window4(a: byte, b: byte)
    ensures (a * 256 + b) / 64 % 64 == a % 16 * 4 + b / 64
  {
    assert a * 256 + b == 64 * (64 * (a / 16) + (a % 16 * 4 + b / 64)) + b % 64;
    assert (a * 256 + b) / 64 == 64 * (a / 16) + (a % 16 * 4 + b / 64);
  }

  lemma Window2(a: byte, b: byte)
    ensures (a * 256 + b) / 256 % 64 == a % 64
  {
    assert (a * 256 + b) / 256 == a;
  }

  lemma FirstOrSecond(data: Bytes)
    ensures SixBits(data, 0) == ByteAt(data, 0) / 4
    ensures SixBits(data, 1) == ByteAt(data, 0) % 4 * 16 + ByteAt(data, 1) / 16
  {
    Window0(ByteAt(data, 0), ByteAt(data, 1));
    Window6(ByteAt(data, 0), ByteAt(data, 1));
    assert 6 * 0 / 8 == 0 && 6 * 0 % 8 == 0 && 6 * 1 / 8 == 0 && 6 * 1 % 8 == 6;
  }

  lemma ThirdOrFourth(data: Bytes)
    ensures SixBits(data, 2) == ByteAt(data, 1) % 16 * 4 + ByteAt(data, 2) / 64
    ensures SixBits(data, 3) == ByteAt(data, 2) % 64
  {
    Window4(ByteAt(data, 1), ByteAt(data, 2));
    Window2(ByteAt(data, 2), ByteAt(data, 3));
    assert 6 * 2 / 8 == 1 && 6 * 2 % 8 == 4 && 6 * 3 / 8 == 2 && 6 * 3 % 8 == 2;
  }

  function FirstFour(a: byte, b: byte, c: byte): seq<sextet> {
    [a / 4, a % 4 * 16 + b / 16, b % 16 * 4 + c / 64, c % 64]
  }

  lemma Group1Symbols(a: byte, v: nat)
    requires v < 2
    ensures Group1(a)[v] == Symbol(FirstFour(a, 0, 0)[v])
  {
    var x: sextet := a % 4 * 16;
    assert Group1(a)[1] == Symbol(x) && FirstFour(a, 0, 0)[1] == x;
  }

  lemma Group2Symbols(a: byte, b: byte, v: nat)
    requires v < 3
    ensures Group2(a, b)[v] == Symbol(FirstFour(a, b, 0)[v])
  {
    var x: sextet := b % 16 * 4;
    assert Group2(a, b)[2] == Symbol(x) && FirstFour(a, b, 0)[2] == x;
  }

  lemma Group3Symbols(a: byte, b: byte, c: byte, v: nat)
    requires v < 4
    ensures Group3(a, b, c)[v] == Symbol(FirstFour(a, b, c)[v])
  {}

  // The symbols of the first group are those of its six-bit values.
  lemma GroupSymbols(data: Bytes, v: nat)
    requires data != [] && v < 4 && v < Symbols(|data|)
    ensures |Encode(data)| >= 4
    ensures Encode(data)[v] == Symbol(FirstFour(ByteAt(data, 0), ByteAt(data, 1), ByteAt(data, 2))[v])
  {
    if |data| == 1 {
      Group1Symbols(data[0], v);
    } else if |data| == 2 {
      Group2Symbols(data[0], data[1], v);
    } else {
      Group3Symbols(data[0], data[1], data[2], v);
    }
  }

  lemma FirstGroup(data: Bytes, v: nat)
    requires data != [] && v < 4 && v < Symbols(|data|)
    ensures |Encode(data)| >= 4 && Encode(data)[v] == SymbolAt(data, v) as int
  {
    GroupSymbols(data, v);
    if v < 2 {
      FirstOrSecond(data);
    } else {
      ThirdOrFourth(data);
    }
    assert SixBits(data, v) == FirstFour(ByteAt(data, 0), ByteAt(data, 1), ByteAt(data, 2))[v];
    SymbolsAreTable(SixBits(data, v));
  }

  lemma {:induction false} EncodedLength(data: Bytes)
    ensures |Encode(data)| == (|data| + 2) / 3 * 4
  {
    if |data| >= 3 {
      EncodedLength(data[3..]);
    }
  }

  lemma LaterGroups(data: Bytes, v: nat)
    requires |data| >= 3 && v >= 4
    ensures TextAt(data, v) == TextAt(data[3..], v - 4)
  {
    SixBitsShift(data, v - 4);
    assert Symbols(|data|) == Symbols(|data| - 3) + 4;
  }

  lemma LastGroup(data: Bytes, v: nat)
    requires |data| <= 3 && v < 4 && v < |Encode(data)|
    ensures Encode(data)[v] == TextAt(data, v) as int
  {
    if v < Symbols(|data|) {
      FirstGroup(data, v);
    } else {
      assert data != [] && |data| < 3;
    }
  }

  lemma {:induction false} EncodedAt(data: Bytes, v: nat)
    requires v < |Encode(data)|
    ensures Encode(data)[v] == TextAt(data, v) as int
    decreases |data|
  {
    if |data| < 3 {
      LastGroup(data, v);
    } else if v < 4 {
      FirstGroup(data, v);
    } else {
      EncodedAt(data[3..], v - 4);
      LaterGroups(data, v);
    }
  }

  lemma EncodeIsStandard(data: Bytes)
    ensures IsStandard(data, Encode(data))
  {
    EncodedLength(data);
    forall v: nat | v < |Encode(data)| ensures Encode(data)[v] == TextAt(data, v) as int {
      EncodedAt(data, v);
    }
  }

  // Encoding and decoding are between bytes and exactly the text the standard
  // gives for them.
  lemma StandardIff(data: Bytes, text: Bytes)
    ensures IsStandard(data, text) <==> text == Encode(data)
    ensures IsStandard(data, text) <==> Decode(text) == Some(data)
  {
    EncodeIsStandard(data);
    DecodesExactlyEncodings(text, data);
    if IsStandard(data, text) {
      var e := Encode(data);
      assert forall v: nat :: v < |text| ==> text[v] == e[v];
    }
  }
}
