/**
 Counters are stored as decimal text: printing an i64 and parsing it back, as
 to_string and parse::<i64> do.
 */
module Decimal {
  import opened Prelude

  const I64_MIN: int := -0x8000_0000_0000_0000
  const I64_MAX: int := 0x7fff_ffff_ffff_ffff

  predicate IsI64(n: int) {
    I64_MIN <= n <= I64_MAX
  }

  predicate IsDigit(b: byte) {
    48 <= b <= 57
  }

  function PrintNat(n: nat): Bytes {
    if n < 10 then [48 + n] else PrintNat(n / 10) + [48 + n % 10]
  }

  function Print(n: int): Bytes {
    if n < 0 then [45] + PrintNat(-n) else PrintNat(n)
  }

  function ParseDigits(b: Bytes): Option<nat> {
    if b == [] then Some(0)
    else
      var last := b[|b| - 1];
      match ParseDigits(b[..|b| - 1])
      case Some(n) => if IsDigit(last) then Some(10 * n + (last - 48)) else None
      case None => None
  }

  // An optional sign, then one or more digits, within the range of i64.
  function Parse(b: Bytes): Option<int> {
    if b == [] then None
    else
      var signed := b[0] == 45 || b[0] == 43;
      var digits := if signed then b[1..] else b;
      if digits == [] then None
      else
        match ParseDigits(digits)
        case None => None
        case Some(m) =>
          var magnitude: int := m;
          var n := if b[0] == 45 then -magnitude else magnitude;
          if IsI64(n) then Some(n) else None
  }

  lemma {:induction false} DigitsRoundTrip(n: nat)
    ensures ParseDigits(PrintNat(n)) == Some(n)
    ensures PrintNat(n) != [] && IsDigit(PrintNat(n)[0])
  {
    var b := PrintNat(n);
    if n < 10 {
      assert b[..0] == [];
      assert ParseDigits(b[..0]) == Some(0);
    } else {
      DigitsRoundTrip(n / 10);
      assert b[..|b| - 1] == PrintNat(n / 10);
    }
  }

  // A printed integer parses back exactly when it is an i64.
  lemma ParsesBackIff(n: int)
    ensures Parse(Print(n)) == Some(n) <==> IsI64(n)
  {
    DigitsRoundTrip(if n < 0 then -n else n);
    if n < 0 {
      assert Print(n)[1..] == PrintNat(-n);
    }
  }

  // ------------------------------------------------------ what the digits mean

  function Pow10(k: nat): nat {
    if k == 0 then 1 else 10 * Pow10(k - 1)
  }

  predicate AllDigits(b: Bytes) {
    b != [] && forall i :: 0 <= i < |b| ==> IsDigit(b[i])
  }

  function Times(x: nat, y: nat): nat {
    x * y
  }

  // The number that digits stand for, from the left.
  function Number(b: Bytes): nat
    requires forall i :: 0 <= i < |b| ==> IsDigit(b[i])
  {
    if b == [] then 0
    else
      assert IsDigit(b[0]);
      Times(b[0] - 48, Pow10(|b| - 1)) + Number(b[1..])
  }

  lemma {:induction false} NumberSnoc(b: Bytes, d: byte)
    requires (forall i :: 0 <= i < |b| ==> IsDigit(b[i])) && IsDigit(d)
    ensures Number(b + [d]) == 10 * Number(b) + (d - 48)
  {
    var all := b + [d];
    assert forall i :: 0 <= i < |all| ==> IsDigit(all[i]);
    if b == [] {
      assert all[1..] == [] && Pow10(0) == 1;
    } else {
      assert all[1..] == b[1..] + [d];
      NumberSnoc(b[1..], d);
      assert Pow10(|b|) == 10 * Pow10(|b| - 1);
      Tenfold(b[0] - 48, Pow10(|b| - 1));
    }
  }

  lemma Tenfold(x: nat, y: nat)
    ensures Times(x, 10 * y) == 10 * Times(x, y)
  {}

  // A number is printed as the decimal digits that stand for it, without leading
  // zeros; 45 is '-'.
  lemma {:induction false} PrintsDecimal(n: nat)
    ensures AllDigits(PrintNat(n)) && Number(PrintNat(n)) == n
    ensures |PrintNat(n)| > 1 ==> PrintNat(n)[0] != 48
    ensures n > 0 ==> PrintNat(n)[0] != 48
  {
    if n < 10 {
      assert Number([]) == 0 && Pow10(0) == 1 && PrintNat(n)[1..] == [];
    } else {
      PrintsDecimal(n / 10);
      NumberSnoc(PrintNat(n / 10), 48 + n % 10);
    }
  }

  lemma PrintsInteger(n: int)
    ensures n >= 0 ==> AllDigits(Print(n)) && Number(Print(n)) == n
    ensures n < 0 ==> Print(n)[0] == 45 && AllDigits(Print(n)[1..]) && Number(Print(n)[1..]) == -n
  {
    PrintsDecimal(if n < 0 then -n else n);
    if n < 0 {
      assert Print(n)[1..] == PrintNat(-n);
    }
  }

  lemma {:induction false} ParsesDigits(b: Bytes)
    ensures (forall i :: 0 <= i < |b| ==> IsDigit(b[i])) ==> ParseDigits(b) == Some(Number(b))
    ensures (exists i :: 0 <= i < |b| && !IsDigit(b[i])) ==> ParseDigits(b) == None
  {
    if b != [] {
      var front := b[..|b| - 1];
      ParsesDigits(front);
      if forall i :: 0 <= i < |b| ==> IsDigit(b[i]) {
        NumberSnoc(front, b[|b| - 1]);
        assert front + [b[|b| - 1]] == b;
      } else {
        var i :| 0 <= i < |b| && !IsDigit(b[i]);
        assert i < |front| ==> front[i] == b[i];
      }
    }
  }

  // What parses, and as what: digits with or without one sign in front, whose
  // value is an i64; 43 is '+' and 45 is '-'.
  lemma ParseIs(b: Bytes)
    ensures AllDigits(b) ==> Parse(b) == if IsI64(Number(b)) then Some(Number(b)) else None
    ensures b != [] && b[0] == 43 && AllDigits(b[1..]) ==>
              Parse(b) == if IsI64(Number(b[1..])) then Some(Number(b[1..])) else None
    ensures b != [] && b[0] == 45 && AllDigits(b[1..]) ==>
              var minus: int := -(Number(b[1..]) as int); Parse(b) == if IsI64(minus) then Some(minus) else None
    ensures Parse(b).Some? ==> AllDigits(b) || (b != [] && (b[0] == 43 || b[0] == 45) && AllDigits(b[1..]))
  {
    ParsesDigits(b);
    if b != [] {
      ParsesDigits(b[1..]);
      assert AllDigits(b) ==> IsDigit(b[0]);
    }
  }
}
