/** The value of a 64-bit floating point number, from its bits (section 3.4 of IEEE 754, binary64). */
module Floats {
  import opened Bytes

  datatype Float = Finite(value: real) | Infinite(negative: bool) | NaN

  const FRACTION: nat := 0x10_0000_0000_0000
  const SIGN: nat := 0x8000_0000_0000_0000
  /** The bits of 1.0. */
  const ONE: nat := 0x3FF0_0000_0000_0000

  function Pow2(k: nat): (p: nat)
    ensures p >= 1
  {
    if k == 0 then 1 else 2 * Pow2(k - 1)
  }

  /** The number `m * 2^e`. */
  function Scaled(m: nat, e: int): (v: real)
    decreases if e >= 0 then e else -e
  {
    if e == 0 then m as real else if e > 0 then 2.0 * Scaled(m, e - 1) else Scaled(m, e + 1) / 2.0
  }

  /** The size of a number with the given exponent and fraction fields; the least exponent has no hidden bit. */
  function Magnitude(exponent: nat, fraction: nat): (v: real)
  {
    if exponent == 0 then Scaled(fraction, -1074) else Scaled(FRACTION + fraction, exponent - 1075)
  }

  function FromBits(bits: u64): (f: Float)
  {
    var size := bits % SIGN;
    var exponent, fraction := size / FRACTION, size % FRACTION;
    if exponent == 2047 then (if fraction == 0 then Infinite(bits >= SIGN) else NaN)
    else Finite(if bits >= SIGN then -Magnitude(exponent, fraction) else Magnitude(exponent, fraction))
  }

  /** `(0.0..=1.0).contains`. */
  predicate InUnitRange(f: Float)
  {
    f.Finite? && 0.0 <= f.value <= 1.0
  }

  lemma {:induction false} ScaledMonotone(m: nat, n: nat, e: int)
    requires m <= n
    ensures 0.0 <= Scaled(m, e) <= Scaled(n, e) && (m < n ==> Scaled(m, e) < Scaled(n, e))
    decreases if e >= 0 then e else -e
  {
    if e > 0 { ScaledMonotone(m, n, e - 1); } else if e < 0 { ScaledMonotone(m, n, e + 1); }
  }

  lemma ScaledUp(m: nat, e: int)
    ensures Scaled(m, e + 1) == 2.0 * Scaled(m, e)
  {
  }

  lemma {:induction false} ScaledGrows(m: nat, e: int, e': int)
    requires e <= e'
    ensures 0.0 <= Scaled(m, e) <= Scaled(m, e') && (m > 0 && e < e' ==> Scaled(m, e) < Scaled(m, e'))
    decreases e' - e
  {
    ScaledMonotone(0, m, e);
    ScaledZero(e);
    if e < e' {
      ScaledGrows(m, e, e' - 1);
      ScaledUp(m, e' - 1);
    }
  }

  lemma {:induction false} ScaledZero(e: int)
    ensures Scaled(0, e) == 0.0
    decreases if e >= 0 then e else -e
  {
    if e > 0 { ScaledZero(e - 1); } else if e < 0 { ScaledZero(e + 1); }
  }

  /** Doubling the number and halving the power cancel. */
  lemma {:induction false} ScaledDouble(m: nat, e: int)
    ensures Scaled(2 * m, e) == Scaled(m, e + 1)
    decreases if e >= 0 then e else -e
  {
    if e > 0 { ScaledDouble(m, e - 1); ScaledUp(m, e); } else if e < 0 { ScaledDouble(m, e + 1); ScaledUp(m, e + 1); } else { ScaledUp(m, 0); }
  }

  lemma {:induction false} ScaledPower(k: nat, e: int)
    ensures Scaled(Pow2(k), e) == Scaled(1, e + k)
  {
    if k > 0 {
      ScaledDouble(Pow2(k - 1), e);
      ScaledPower(k - 1, e + 1);
    }
  }

  lemma SixteenTimes(k: nat)
    ensures Pow2(k + 4) == 0x10 * Pow2(k)
  {
    assert Pow2(k + 4) == 2 * Pow2(k + 3) && Pow2(k + 3) == 2 * Pow2(k + 2) && Pow2(k + 2) == 2 * Pow2(k + 1);
  }

  lemma FractionIsPower()
    ensures FRACTION == Pow2(52)
  {
    SixteenTimes(0); SixteenTimes(4); SixteenTimes(8); SixteenTimes(12); SixteenTimes(16); SixteenTimes(20); SixteenTimes(24);
    SixteenTimes(28); SixteenTimes(32); SixteenTimes(36); SixteenTimes(40); SixteenTimes(44); SixteenTimes(48);
  }

  /** A magnitude is at most 1 exactly when its bits, read as a number, are at most those of 1.0; only zero is 0. */
  lemma MagnitudeOrder(exponent: nat, fraction: nat)
    requires exponent < 2047 && fraction < FRACTION
    ensures Magnitude(exponent, fraction) >= 0.0
    ensures Magnitude(exponent, fraction) <= 1.0 <==> exponent * FRACTION + fraction <= ONE
    ensures Magnitude(exponent, fraction) == 0.0 <==> exponent == 0 && fraction == 0
  {
    FractionIsPower();
    assert ONE == 1023 * FRACTION;
    if exponent == 0 {
      ScaledZero(-1074);
      ScaledMonotone(0, fraction, -1074);
      BelowOne(fraction, -1074);
    } else if exponent < 1023 {
      ScaledMonotone(0, FRACTION + fraction, exponent - 1075);
      ScaledZero(exponent - 1075);
      BelowOne(FRACTION + fraction, exponent - 1075);
    } else {
      AtLeastOne(fraction, exponent - 1075);
    }
  }

  /** A number below 2^53, scaled by 2^-53 or less, is below 1. */
  lemma BelowOne(m: nat, e: int)
    requires m < 2 * FRACTION && e <= -53
    ensures Scaled(m, e) < 1.0
  {
    FractionIsPower();
    ScaledMonotone(m, 2 * FRACTION, e);
    assert Pow2(53) == 2 * FRACTION;
    ScaledPower(53, e);
    ScaledGrows(1, e + 53, 0);
  }

  lemma AtLeastOne(fraction: nat, e: int)
    requires e >= -52
    ensures Scaled(FRACTION + fraction, e) >= 1.0
    ensures Scaled(FRACTION + fraction, e) <= 1.0 <==> e == -52 && fraction == 0
  {
    FractionIsPower();
    ScaledPower(52, e);
    ScaledGrows(1, 0, e + 52);
    ScaledMonotone(FRACTION, FRACTION + fraction, e);
  }

  /** Which bits pass for a fee: from 0.0 up to 1.0 in the order of the bits, and the negative zero. */
  lemma UnitRangeBits(bits: u64)
    ensures InUnitRange(FromBits(bits)) <==> bits <= ONE || bits == SIGN
  {
    var size := bits % SIGN;
    var exponent, fraction := size / FRACTION, size % FRACTION;
    assert size == exponent * FRACTION + fraction;
    assert bits >= SIGN ==> size == bits - SIGN;
    assert bits < SIGN ==> size == bits;
    if exponent < 2047 {
      MagnitudeOrder(exponent, fraction);
    }
  }

  // ----- the exact value of every number -----

  /** The size of a finite number in units of the least one, 2^-1074. */
  function Units(exponent: nat, fraction: nat): (n: nat)
  {
    if exponent == 0 then fraction else (FRACTION + fraction) * Pow2(exponent - 1)
  }

  lemma {:induction false} ScaledByPower(m: nat, k: nat, e: int)
    ensures Scaled(m * Pow2(k), e) == Scaled(m, e + k)
  {
    if k > 0 {
      var half := m * Pow2(k - 1);
      Doubled(m, Pow2(k - 1));
      ScaledDouble(half, e);
      ScaledByPower(m, k - 1, e + 1);
    }
  }

  lemma Doubled(m: nat, p: nat)
    ensures m * (2 * p) == 2 * (m * p)
  {
  }

  /** What every finite number is: a whole number of units of 2^-1074. */
  lemma MagnitudeValue(exponent: nat, fraction: nat)
    ensures Magnitude(exponent, fraction) == Scaled(Units(exponent, fraction), -1074)
  {
    if exponent > 0 { ScaledByPower(FRACTION + fraction, exponent - 1, -1074); }
  }

  /** Units grow with the bits. */
  lemma UnitsGrow(exponent: nat, fraction: nat, exponent': nat, fraction': nat)
    requires fraction < FRACTION && fraction' < FRACTION
    requires exponent * FRACTION + fraction < exponent' * FRACTION + fraction'
    ensures Units(exponent, fraction) < Units(exponent', fraction')
  {
    if exponent == exponent' {
      if exponent > 0 { StrictlyMore(FRACTION + fraction, FRACTION + fraction', Pow2(exponent - 1)); }
    } else {
      UnitsBelow(exponent, fraction);
      PowersGrow(exponent, exponent' - 1);
      NoLess(FRACTION, FRACTION + fraction', Pow2(exponent' - 1));
      NoLess(Pow2(exponent), Pow2(exponent' - 1), FRACTION);
    }
  }

  lemma UnitsBelow(exponent: nat, fraction: nat)
    requires fraction < FRACTION
    ensures Units(exponent, fraction) < FRACTION * Pow2(exponent)
  {
    if exponent > 0 {
      StrictlyMore(FRACTION + fraction, 2 * FRACTION, Pow2(exponent - 1));
      assert FRACTION * Pow2(exponent) == (2 * FRACTION) * Pow2(exponent - 1);
    }
  }

  lemma StrictlyMore(a: nat, b: nat, c: nat)
    requires a < b && c > 0
    ensures a * c < b * c
  {
    assert b * c == a * c + (b - a) * c;
  }

  lemma NoLess(a: nat, b: nat, c: nat)
    requires a <= b
    ensures a * c <= b * c && c * a <= c * b
  {
    assert b * c == a * c + (b - a) * c;
  }

  lemma {:induction false} PowersGrow(a: nat, b: nat)
    requires a <= b
    ensures Pow2(a) <= Pow2(b)
  {
    if a < b { PowersGrow(a, b - 1); }
  }

  /** Positive numbers are ordered as their bits. */
  lemma BitsAreOrdered(bits: u64, bits': u64)
    requires bits < bits' < 2047 * FRACTION
    ensures FromBits(bits).Finite? && FromBits(bits').Finite? && 0.0 <= FromBits(bits).value < FromBits(bits').value
  {
    FinitePositive(bits);
    FinitePositive(bits');
    var e, f, e', f' := bits / FRACTION, bits % FRACTION, bits' / FRACTION, bits' % FRACTION;
    MagnitudeValue(e, f);
    MagnitudeValue(e', f');
    UnitsGrow(e, f, e', f');
    ScaledMonotone(Units(e, f), Units(e', f'), -1074);
  }

  lemma FinitePositive(bits: u64)
    requires bits < 2047 * FRACTION
    ensures bits / FRACTION < 2047 && bits == bits / FRACTION * FRACTION + bits % FRACTION
    ensures FromBits(bits) == Finite(Magnitude(bits / FRACTION, bits % FRACTION))
  {
    assert bits % SIGN == bits;
  }

  /** The numbers 1 and a half. */
  lemma SomeValues()
    ensures FromBits(0x3FF0_0000_0000_0000) == Finite(1.0) && FromBits(0x3FE0_0000_0000_0000) == Finite(0.5)
  {
    FinitePositive(0x3FF0_0000_0000_0000);
    FinitePositive(0x3FE0_0000_0000_0000);
    FractionIsPower();
    ScaledPower(52, -52);
    ScaledPower(52, -53);
  }
}
