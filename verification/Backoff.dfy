/** How long a channel waits between connection attempts, in milliseconds. */
module Backoff {
  import opened Prelude

  // `as u64` of a floating-point product: truncated, and zero when negative.
  function ToU64(x: real): nat {
    if x < 0.0 then 0 else x.Floor
  }

  function NextDelay(current: nat, max: nat, multiplier: real): nat {
    Min(ToU64(current as real * multiplier), max)
  }

  // The wait after the k-th failed attempt, counted from 0.
  function Delay(initial: nat, max: nat, multiplier: real, k: nat): nat {
    if k == 0 then initial
    else NextDelay(Delay(initial, max, multiplier, k - 1), max, multiplier)
  }

  function Pow(m: nat, k: nat): nat {
    if k == 0 then 1 else m * Pow(m, k - 1)
  }

  // Whatever the multiplier: the next wait is the product without its fraction,
  // capped, and zero if the product is negative.
  lemma NextIs(current: nat, max: nat, multiplier: real)
    ensures var exact, next := current as real * multiplier, NextDelay(current, max, multiplier);
      && next <= max
      && (exact < 0.0 ==> next == 0)
      && (exact >= 0.0 && next < max ==> next as real <= exact < next as real + 1.0)
      && (exact >= 0.0 && next == max ==> max as real <= exact)
  {
    var exact := current as real * multiplier;
    FloorIs(exact);
    assert NextDelay(current, max, multiplier) == Min(ToU64(exact), max);
  }

  lemma FloorIs(x: real)
    ensures x < 0.0 ==> ToU64(x) == 0
    ensures x >= 0.0 ==> ToU64(x) as real <= x < ToU64(x) as real + 1.0
  {}

  lemma WholeProduct(d: nat, m: nat)
    ensures ToU64(d as real * m as real) == d * m
  {
    assert d as real * m as real == (d * m) as real;
  }

  lemma TimesPow(initial: nat, m: nat, k: nat)
    requires k > 0
    ensures initial * Pow(m, k) == initial * Pow(m, k - 1) * m
  {
    assert Pow(m, k) == m * Pow(m, k - 1);
  }

  lemma TimesGrows(x: nat, m: nat)
    requires m >= 1
    ensures x * m >= x
  {
    assert x * m == x + x * (m - 1);
  }

  lemma CapCommutes(x: nat, max: nat, m: nat)
    requires m >= 1
    ensures Min(Min(x, max) * m, max) == Min(x * m, max)
  {
    if x > max {
      TimesGrows(max, m);
      assert x * m == max * m + (x - max) * m;
    }
  }

  lemma NextWhole(d: nat, max: nat, m: nat)
    ensures NextDelay(d, max, m as real) == Min(d * m, max)
  {
    WholeProduct(d, m);
  }

  lemma DelayWhole(initial: nat, max: nat, m: nat, k: nat)
    requires k >= 1
    ensures Delay(initial, max, m as real, k) == Min(Delay(initial, max, m as real, k - 1) * m, max)
  {
    NextWhole(Delay(initial, max, m as real, k - 1), max, m);
  }

  // Whole multipliers: every wait after the first is initial * m^k, capped.
  lemma {:induction false} ClosedForm(initial: nat, max: nat, m: nat, k: nat)
    requires m >= 1 && k >= 1
    ensures Delay(initial, max, m as real, k) == Min(initial * Pow(m, k), max)
  {
    DelayWhole(initial, max, m, k);
    TimesPow(initial, m, k);
    if k == 1 {
      assert Pow(m, 0) == 1;
    } else {
      ClosedForm(initial, max, m, k - 1);
      CapCommutes(initial * Pow(m, k - 1), max, m);
    }
  }

  lemma ProductGrows(x: real, m: real)
    requires x >= 0.0 && m >= 1.0
    ensures x * m >= x
  {
    assert x * m == x + x * (m - 1.0);
  }

  lemma GrowsByMultiplier(d: nat, multiplier: real)
    requires multiplier >= 1.0
    ensures ToU64(d as real * multiplier) >= d
  {
    ProductGrows(d as real, multiplier);
  }

  // With a multiplier of at least 1 the waits never shrink exactly when the
  // first one does not exceed the cap; then no wait exceeds it.
  lemma NeverShrinksIff(initial: nat, max: nat, multiplier: real)
    requires multiplier >= 1.0
    ensures (forall k: nat :: Delay(initial, max, multiplier, k) <= Delay(initial, max, multiplier, k + 1))
       <==> initial <= max
    ensures initial <= max ==> forall k: nat :: Delay(initial, max, multiplier, k) <= max
  {
    if initial <= max {
      forall k: nat
        ensures Delay(initial, max, multiplier, k) <= Delay(initial, max, multiplier, k + 1)
        ensures Delay(initial, max, multiplier, k) <= max
      {
        GrowsCapped(initial, max, multiplier, k);
      }
    } else {
      ShrinksAtOnce(initial, max, multiplier);
    }
  }

  lemma NextGrows(d: nat, max: nat, multiplier: real)
    requires multiplier >= 1.0 && d <= max
    ensures d <= NextDelay(d, max, multiplier)
  {
    GrowsByMultiplier(d, multiplier);
  }

  lemma NextCapped(d: nat, max: nat, multiplier: real)
    ensures NextDelay(d, max, multiplier) <= max
  {}

  lemma GrowsCapped(initial: nat, max: nat, multiplier: real, k: nat)
    requires multiplier >= 1.0 && initial <= max
    ensures Delay(initial, max, multiplier, k) <= max
    ensures Delay(initial, max, multiplier, k) <= Delay(initial, max, multiplier, k + 1)
  {
    if k > 0 {
      NextCapped(Delay(initial, max, multiplier, k - 1), max, multiplier);
    }
    NextGrows(Delay(initial, max, multiplier, k), max, multiplier);
  }

  lemma ShrinksAtOnce(initial: nat, max: nat, multiplier: real)
    requires initial > max
    ensures Delay(initial, max, multiplier, 0) > Delay(initial, max, multiplier, 0 + 1)
  {
    NextCapped(initial, max, multiplier);
    assert Delay(initial, max, multiplier, 1) == NextDelay(initial, max, multiplier);
  }
}
