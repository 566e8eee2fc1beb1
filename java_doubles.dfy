/** Java `double` values as IEEE 754 binary64 bit patterns, and the primitive
    `>` comparison of section 5.11 of IEEE 754-2008 (section 15.20.1 of the Java
    Language Specification): NaN is unordered, the two zeros are equal, and all
    other values are ordered by their real value, the infinities outermost. */
module JavaDoubles {

  /** A 64-bit pattern: sign bit, 11 exponent bits, 52 fraction bits. */
  newtype Bits64 = x: int | 0 <= x < 0x1_0000_0000_0000_0000

  const FractionLimit: int := 0x10_0000_0000_0000  // 2^52
  const SignWeight: int := 0x8000_0000_0000_0000   // 2^63
  const MaxExponent: int := 0x7FF

  function SignBit(x: Bits64): int { x as int / SignWeight }
  function Exponent(x: Bits64): int { (x as int / FractionLimit) % (MaxExponent + 1) }
  function Fraction(x: Bits64): int { x as int % FractionLimit }

  predicate IsNaN(x: Bits64) { Exponent(x) == MaxExponent && Fraction(x) != 0 }
  predicate IsFinite(x: Bits64) { Exponent(x) < MaxExponent }

  /** The pattern with its sign bit cleared, read as an unsigned number. */
  function Magnitude(x: Bits64): int { Exponent(x) * FractionLimit + Fraction(x) }

  /** Sign-magnitude reading of the pattern: both zeros map to 0. */
  function OrderKey(x: Bits64): int {
    if SignBit(x) == 1 then -Magnitude(x) else Magnitude(x)
  }

  /** `x > y` on Java doubles.  No pattern is greater than itself. */
  predicate Greater(x: Bits64, y: Bits64)
    ensures Greater(x, y) ==> x != y
  {
    !IsNaN(x) && !IsNaN(y) && OrderKey(x) > OrderKey(y)
  }

  function Pow2(n: nat): (p: nat)
    ensures p >= 1
  {
    if n == 0 then 1 else 2 * Pow2(n - 1)
  }

  /** Reference definition: the absolute IEEE value of a finite pattern
      multiplied by 2^1074, which makes every finite double an integer.
      Subnormals (exponent 0) are fraction * 2^-1074; normals are
      (2^52 + fraction) * 2^(exponent - 1075). */
  function ScaledMagnitude(x: Bits64): (m: nat)
    requires IsFinite(x)
  {
    if Exponent(x) == 0 then Fraction(x)
    else (FractionLimit + Fraction(x)) * Pow2(Exponent(x) - 1)
  }

  /** The signed IEEE value of a finite pattern, times 2^1074. */
  function ScaledValue(x: Bits64): int
    requires IsFinite(x)
  {
    if SignBit(x) == 1 then -(ScaledMagnitude(x) as int) else ScaledMagnitude(x)
  }

  lemma Pow2Monotone(a: nat, b: nat)
    requires a <= b
    ensures Pow2(a) <= Pow2(b)
    decreases b - a
  {
    if a < b {
      Pow2Monotone(a, b - 1);
    }
  }

  lemma MulStrict(a: int, b: int, p: int)
    requires a < b && p > 0
    ensures a * p < b * p
  {
  }

  /** The scaled value grows strictly with the magnitude. */
  lemma ScaledMagnitudeStrict(x: Bits64, y: Bits64)
    requires IsFinite(x) && IsFinite(y)
    requires Magnitude(x) < Magnitude(y)
    ensures ScaledMagnitude(x) < ScaledMagnitude(y)
  {
    var ex, ey := Exponent(x), Exponent(y);
    if ex == ey {
      if ex != 0 {
        MulStrict(FractionLimit + Fraction(x), FractionLimit + Fraction(y), Pow2(ex - 1));
      }
    } else {
      assert ex < ey;
      // y is normal, so its scaled magnitude is at least 2^52 * 2^(ey - 1)
      assert ScaledMagnitude(y) >= FractionLimit * Pow2(ey - 1);
      if ex != 0 {
        MulStrict(FractionLimit + Fraction(x), 2 * FractionLimit, Pow2(ex - 1));
        assert 2 * FractionLimit * Pow2(ex - 1) == FractionLimit * Pow2(ex);
        Pow2Monotone(ex, ey - 1);
      }
    }
  }

  /** Equal magnitudes have equal exponent and fraction fields. */
  lemma MagnitudeFields(x: Bits64, y: Bits64)
    requires Magnitude(x) == Magnitude(y)
    ensures Exponent(x) == Exponent(y) && Fraction(x) == Fraction(y)
  {
  }

  /** The scaled value orders finite patterns as their magnitudes do, and is
      zero exactly for the zeros. */
  lemma ScaledMagnitudeOrder(x: Bits64, y: Bits64)
    requires IsFinite(x) && IsFinite(y)
    ensures Magnitude(x) < Magnitude(y) <==> ScaledMagnitude(x) < ScaledMagnitude(y)
    ensures Magnitude(x) == Magnitude(y) <==> ScaledMagnitude(x) == ScaledMagnitude(y)
    ensures ScaledMagnitude(x) == 0 <==> Magnitude(x) == 0
    ensures ScaledMagnitude(y) == 0 <==> Magnitude(y) == 0
  {
    if Magnitude(x) < Magnitude(y) {
      ScaledMagnitudeStrict(x, y);
    } else if Magnitude(y) < Magnitude(x) {
      ScaledMagnitudeStrict(y, x);
    } else {
      MagnitudeFields(x, y);
    }
  }

  /** On finite doubles, `>` is the order of the real IEEE values. */
  lemma GreaterMatchesValue(x: Bits64, y: Bits64)
    requires IsFinite(x) && IsFinite(y)
    ensures Greater(x, y) <==> ScaledValue(x) > ScaledValue(y)
  {
    ScaledMagnitudeOrder(x, y);
    var mx: int, my: int := ScaledMagnitude(x), ScaledMagnitude(y);
    assert ScaledValue(x) == if SignBit(x) == 1 then -mx else mx;
    assert ScaledValue(y) == if SignBit(y) == 1 then -my else my;
    assert OrderKey(x) == if SignBit(x) == 1 then -Magnitude(x) else Magnitude(x);
    assert OrderKey(y) == if SignBit(y) == 1 then -Magnitude(y) else Magnitude(y);
  }

  /** A value with the sign bit clear is above every value with the sign bit
      set, unless both are zeros. */
  lemma NonNegativeAboveNegative(x: Bits64, y: Bits64)
    requires !IsNaN(x) && !IsNaN(y)
    requires SignBit(x) == 0 && SignBit(y) == 1
    requires Magnitude(x) != 0 || Magnitude(y) != 0
    ensures Greater(x, y) && !Greater(y, x)
  {
  }

  const PositiveInfinity: Bits64 := 0x7FF0_0000_0000_0000
  const NegativeInfinity: Bits64 := 0xFFF0_0000_0000_0000
  const PositiveZero: Bits64 := 0
  const NegativeZero: Bits64 := 0x8000_0000_0000_0000

  /** Positive infinity is above every finite double. */
  lemma InfinityAboveFinite(x: Bits64)
    requires IsFinite(x)
    ensures Greater(PositiveInfinity, x) && !Greater(x, PositiveInfinity)
  {
  }

  /** Negative infinity is below every finite double. */
  lemma NegativeInfinityBelowFinite(x: Bits64)
    requires IsFinite(x)
    ensures Greater(x, NegativeInfinity) && !Greater(NegativeInfinity, x)
  {
  }

  /** The two zeros are equal: neither is greater. */
  lemma ZerosEqual()
    ensures !Greater(PositiveZero, NegativeZero) && !Greater(NegativeZero, PositiveZero)
  {
  }

  /** NaN is unordered: neither operand order yields true. */
  lemma NaNUnordered(x: Bits64, y: Bits64)
    requires IsNaN(x)
    ensures !Greater(x, y) && !Greater(y, x)
  {
  }
}
