/** Just enough of the IEEE 754 binary interchange formats (binary32 and binary64) for the
    integral numbers the codec writes and reads back exactly. `parseValue` returns a decoded
    float as it is when it is integral (BootBuffer.ts lines 357 and 361), and `addEntry`
    writes integers above the 32-bit range as binary64 (lines 392-398). Non-integral values,
    and the decimal rounding the source applies to them, are outside this model. */
module Ieee754 {
  import opened Binary
  import opened Wrappers

  /** The three fields of a `1 + expWidth + fracWidth`-bit pattern: the sign bit, the
      biased exponent and the trailing significand (section 3.4 of IEEE 754-2008). */
  datatype Fields = Fields(negative: bool, biased: nat, fraction: nat)

  function FieldsOf(bits: nat, expWidth: nat, fracWidth: nat): Fields {
    Fields((bits / Pow2(expWidth + fracWidth)) % 2 == 1,
           (bits / Pow2(fracWidth)) % Pow2(expWidth),
           bits % Pow2(fracWidth))
  }

  /** The integer that the pattern `bits` denotes, or None when it denotes a non-integral
      number, an infinity or a NaN; this is `readFloatLE` / `readDoubleLE` followed by the
      test `value % 1 === 0`. Negative zero reads as 0. */
  function IntegralValue(bits: nat, expWidth: nat, fracWidth: nat): Option<int>
    requires expWidth >= 2
  {
    IntegralOfFields(FieldsOf(bits, expWidth, fracWidth), expWidth, fracWidth)
  }

  function IntegralOfFields(f: Fields, expWidth: nat, fracWidth: nat): Option<int>
    requires expWidth >= 2
  {
    var bias := Pow2(expWidth - 1) - 1;
    if f.biased == Pow2(expWidth) - 1 then None
    else if f.biased == 0 then
      if f.fraction == 0 then Some(0) else None
    else if f.biased < bias then None
    else
      var significand := Pow2(fracWidth) + f.fraction;
      var exponent := f.biased - bias;
      var magnitude :=
        if exponent >= fracWidth then Some(significand * Pow2(exponent - fracWidth))
        else if significand % Pow2(fracWidth - exponent) == 0 then
          Some(significand / Pow2(fracWidth - exponent))
        else None;
      match magnitude
      case None => None
      case Some(m) => Some(if f.negative then -m else m)
  }

  /** A finite number in the form of section 3.4 of IEEE 754-2008:
      (-1)^negative * significand * 2^exponent, with an integral significand. */
  datatype Finite = Finite(negative: bool, significand: nat, exponent: int)

  /** The finite number a pattern denotes, or None for an infinity or a NaN: a subnormal
      or zero has exponent `1 - bias` and no hidden bit, a normal number has its hidden
      bit restored. */
  function FiniteOf(bits: nat, expWidth: nat, fracWidth: nat): Option<Finite>
    requires expWidth >= 2
  {
    FiniteOfFields(FieldsOf(bits, expWidth, fracWidth), expWidth, fracWidth)
  }

  function FiniteOfFields(f: Fields, expWidth: nat, fracWidth: nat): Option<Finite>
    requires expWidth >= 2
  {
    var bias := Pow2(expWidth - 1) - 1;
    if f.biased == Pow2(expWidth) - 1 then None
    else if f.biased == 0 then Some(Finite(f.negative, f.fraction, 1 - bias - fracWidth))
    else Some(Finite(f.negative, Pow2(fracWidth) + f.fraction, f.biased - bias - fracWidth))
  }

  /** Whether a finite number equals the integer n, compared exactly in integers. */
  predicate Equals(x: Finite, n: int) {
    var s: int := if x.negative then -(x.significand as int) else x.significand;
    if x.exponent >= 0 then n == s * Pow2(x.exponent)
    else n * Pow2(-x.exponent) == s
  }

  /** `IntegralValue` gives n exactly when the pattern is finite and the number it
      denotes is n. */
  lemma IntegralValueExact(bits: nat, expWidth: nat, fracWidth: nat, n: int)
    requires expWidth >= 2
    ensures IntegralValue(bits, expWidth, fracWidth) == Some(n)
        <==> FiniteOf(bits, expWidth, fracWidth).Some? && Equals(FiniteOf(bits, expWidth, fracWidth).value, n)
  {
    var f := FieldsOf(bits, expWidth, fracWidth);
    assert f.fraction < Pow2(fracWidth) && f.biased < Pow2(expWidth);
    FieldsExact(f, expWidth, fracWidth, n);
  }

  lemma FieldsExact(f: Fields, ew: nat, fw: nat, n: int)
    requires ew >= 2 && f.fraction < Pow2(fw) && f.biased < Pow2(ew)
    ensures IntegralOfFields(f, ew, fw) == Some(n)
        <==> FiniteOfFields(f, ew, fw).Some? && Equals(FiniteOfFields(f, ew, fw).value, n)
  {
    var bias := Pow2(ew - 1) - 1;
    assert bias >= 1 by {
      Pow2Monotone(1, ew - 1);
    }
    if f.biased == Pow2(ew) - 1 {
    } else if f.biased == 0 {
      SubnormalFields(f, ew, fw, n);
    } else if f.biased < bias {
      TinyFields(f, ew, fw, n);
    } else {
      NormalFields(f, ew, fw, n);
    }
  }

  lemma SubnormalFields(f: Fields, ew: nat, fw: nat, n: int)
    requires ew >= 2 && f.fraction < Pow2(fw) && f.biased == 0 && Pow2(ew - 1) - 1 >= 1
    ensures IntegralOfFields(f, ew, fw) == Some(n)
        <==> FiniteOfFields(f, ew, fw).Some? && Equals(FiniteOfFields(f, ew, fw).value, n)
  {
    SubnormalExact(f.negative, f.fraction, Pow2(ew - 1) - 1, fw, n);
  }

  lemma TinyFields(f: Fields, ew: nat, fw: nat, n: int)
    requires ew >= 2 && f.fraction < Pow2(fw)
    requires 0 < f.biased < Pow2(ew - 1) - 1
    ensures IntegralOfFields(f, ew, fw) == None
    ensures FiniteOfFields(f, ew, fw).Some? && !Equals(FiniteOfFields(f, ew, fw).value, n)
  {
    TinyNormal(f.negative, f.fraction, f.biased, Pow2(ew - 1) - 1, fw, n);
  }

  lemma NormalFields(f: Fields, ew: nat, fw: nat, n: int)
    requires ew >= 2 && f.fraction < Pow2(fw)
    requires 1 <= Pow2(ew - 1) - 1 <= f.biased < Pow2(ew) - 1
    ensures IntegralOfFields(f, ew, fw) == Some(n)
        <==> FiniteOfFields(f, ew, fw).Some? && Equals(FiniteOfFields(f, ew, fw).value, n)
  {
    NormalExact(f.negative, Pow2(fw) + f.fraction, f.biased - (Pow2(ew - 1) - 1), fw, n);
  }

  /** A normal pattern below 1 is not an integer. */
  lemma TinyNormal(negative: bool, fraction: nat, biased: nat, bias: nat, fw: nat, n: int)
    requires 0 < biased < bias && fraction < Pow2(fw)
    ensures !Equals(Finite(negative, Pow2(fw) + fraction, biased - bias - fw), n)
  {
    var k := bias + fw - biased;
    Pow2Monotone(fw + 1, k);
    Pow2Add(fw, 1);
    NoIntegerBelow(n, Pow2(k), Pow2(fw) + fraction, negative);
  }

  /** A subnormal pattern is an integer only when it is a zero. */
  lemma SubnormalExact(negative: bool, fraction: nat, bias: nat, fw: nat, n: int)
    requires bias >= 1 && fraction < Pow2(fw)
    ensures (if fraction == 0 then Some(0) else None) == Some(n)
        <==> Equals(Finite(negative, fraction, 1 - bias - fw), n)
  {
    var e := 1 - bias - fw;
    if e < 0 {
      var k := bias + fw - 1;
      if fraction == 0 {
        assert n * Pow2(k) == 0 <==> n == 0;
      } else {
        Pow2Monotone(fw, k);
        NoIntegerBelow(n, Pow2(k), fraction, negative);
      }
    }
  }

  /** A normal pattern with unbiased exponent e is the integer n exactly when its
      significand shifted by e - fw is n. */
  lemma NormalExact(negative: bool, significand: nat, e: nat, fw: nat, n: int)
    ensures
      (var magnitude :=
         if e >= fw then Some(significand * Pow2(e - fw))
         else if significand % Pow2(fw - e) == 0 then Some(significand / Pow2(fw - e))
         else None;
       match magnitude
       case None => None
       case Some(m) => Some(if negative then -m else m))
      == Some(n)
      <==> Equals(Finite(negative, significand, e - fw), n)
  {
    if e < fw {
      var p := Pow2(fw - e);
      if negative {
        ExactQuotient(-n, p, significand);
        assert n * p == -(significand as int) <==> (-n) * p == significand;
      } else {
        ExactQuotient(n, p, significand);
      }
    }
  }

  /** n * p == s holds exactly when p divides s with quotient n. */
  lemma ExactQuotient(n: int, p: int, s: nat)
    requires p > 0
    ensures n * p == s <==> s % p == 0 && n == s / p
  {
    if n * p == s {
      if n < 0 {
        MulAtLeast(-n, p);
        assert false;
      }
      DivModUnique(s, p, n, 0);
    }
  }

  /** No integer times p lies strictly between -p and p except zero. */
  lemma NoIntegerBelow(n: int, p: int, s: nat, negative: bool)
    requires 0 < s < p
    ensures n * p != (if negative then -(s as int) else s)
  {
    if n >= 1 {
      MulAtLeast(n, p);
    } else if n <= -1 {
      MulAtLeast(-n, p);
    }
  }

  /** floor(log2 n). */
  function Log2(n: nat): (k: nat)
    requires n >= 1
    ensures Pow2(k) <= n < Pow2(k + 1)
  {
    if n == 1 then 0 else 1 + Log2(n / 2)
  }

  const DoubleExponentWidth := 11
  const DoubleFractionWidth := 52
  const DoubleBias := 1023

  /** The binary64 bit pattern of an integer in [2^32, 2^53), the range `addEntry` writes
      as a double; every such integer is exactly representable, and reading the pattern
      back gives the integer itself. */
  function DoubleBits(n: nat): (bits: nat)
    requires Pow2(32) <= n < Pow2(53)
    ensures bits < Pow2(64)
  {
    var e := Log2(n);
    ExponentRange(n, e);
    var fraction := FractionField(n, e);
    var bits := BiasedExponentField(e) + fraction;
    DoubleBitsDecode(n, e, fraction, bits);
    bits
  }

  /** Reading the pattern back gives the integer itself. */
  lemma DoubleBitsExact(n: nat)
    requires Pow2(32) <= n < Pow2(53)
    ensures IntegralValue(DoubleBits(n), DoubleExponentWidth, DoubleFractionWidth) == Some(n)
  {
    var e := Log2(n);
    ExponentRange(n, e);
    DoubleBitsDecode(n, e, FractionField(n, e), DoubleBits(n));
  }

  /** The 52 fraction bits of n, whose bit length is e + 1: n without its leading one,
      shifted to the top of the field. */
  function FractionField(n: nat, e: nat): (fraction: nat)
    requires e <= DoubleFractionWidth && Pow2(e) <= n
  {
    var scale := Pow2(DoubleFractionWidth - e);
    MulNonNegative(n - Pow2(e), scale);
    (n - Pow2(e)) * scale
  }

  /** The exponent field of a positive binary64 value with unbiased exponent e, in place. */
  function BiasedExponentField(e: nat): (field: nat)
  {
    MulNonNegative(e + DoubleBias, Pow2(DoubleFractionWidth));
    (e + DoubleBias) * Pow2(DoubleFractionWidth)
  }

  lemma ExponentRange(n: nat, e: nat)
    requires Pow2(32) <= n < Pow2(53)
    requires Pow2(e) <= n < Pow2(e + 1)
    ensures 32 <= e <= 52
  {
    if e < 32 {
      Pow2Monotone(e + 1, 32);
    }
    if e > 52 {
      Pow2Monotone(53, e);
    }
  }

  lemma DoubleBitsDecode(n: nat, e: nat, fraction: nat, bits: nat)
    requires 32 <= e <= 52
    requires Pow2(e) <= n < Pow2(e + 1)
    requires fraction == FractionField(n, e)
    requires bits == BiasedExponentField(e) + fraction
    ensures bits < Pow2(64)
    ensures IntegralValue(bits, DoubleExponentWidth, DoubleFractionWidth) == Some(n)
  {
    DoubleWidths();
    FieldsDecode(n, e, fraction, bits, DoubleExponentWidth, DoubleFractionWidth);
  }

  /** The pattern with unbiased exponent e and the fraction field of n decodes to n, for
      any exponent and fraction widths. */
  lemma FieldsDecode(n: nat, e: nat, fraction: nat, bits: nat, ew: nat, fw: nat)
    requires ew >= 2 && e <= fw
    requires Pow2(e) <= n < Pow2(e + 1)
    requires fraction == (n - Pow2(e)) * Pow2(fw - e)
    requires e + Pow2(ew - 1) - 1 < Pow2(ew) - 1
    requires bits == (e + Pow2(ew - 1) - 1) * Pow2(fw) + fraction
    ensures bits < Pow2(ew + fw)
    ensures IntegralValue(bits, ew, fw) == Some(n)
  {
    ShiftedFraction(n, e, fw - e, fw, fraction);
    PatternFields(e + Pow2(ew - 1) - 1, fraction, bits, ew, fw);
    IntegralFromFields(bits, ew, fw, n, e, fraction);
  }

  /** A pattern with a clear sign bit whose unbiased exponent e is at most the fraction
      width denotes the integer whose shifted form is the significand. */
  lemma IntegralFromFields(bits: nat, ew: nat, fw: nat, n: nat, e: nat, fraction: nat)
    requires ew >= 2 && e <= fw
    requires (bits / Pow2(ew + fw)) % 2 == 0
    requires (bits / Pow2(fw)) % Pow2(ew) == e + Pow2(ew - 1) - 1
    requires e + Pow2(ew - 1) - 1 < Pow2(ew) - 1
    requires bits % Pow2(fw) == fraction
    requires Pow2(fw) + fraction == n * Pow2(fw - e)
    ensures IntegralValue(bits, ew, fw) == Some(n)
  {
    var significand := Pow2(fw) + fraction;
    if e == fw {
      assert significand * Pow2(0) == n;
    } else {
      DivModUnique(significand, Pow2(fw - e), n, 0);
    }
  }

  /** Shifting a number of bit length e + 1 left by fw - e: the fraction field fits in fw
      bits and, with the hidden bit restored, gives the shifted number back. */
  lemma ShiftedFraction(n: nat, e: nat, shift: nat, fw: nat, fraction: nat)
    requires e + shift == fw
    requires Pow2(e) <= n < Pow2(e + 1)
    requires fraction == (n - Pow2(e)) * Pow2(shift)
    ensures fraction < Pow2(fw)
    ensures Pow2(fw) + fraction == n * Pow2(shift)
  {
    var low, scale := Pow2(e), Pow2(shift);
    Pow2Add(e, shift);
    Pow2Add(e, 1);
    assert n - low < low;
    MulStrict(n - low, low, scale);
    Distribute(n, low, scale);
  }

  lemma Distribute(a: int, b: int, c: int)
    ensures (a - b) * c == a * c - b * c
  {
  }

  /** The sign, exponent and fraction fields of a non-negative pattern with an ew-bit
      exponent and an fw-bit fraction. */
  lemma PatternFields(biased: nat, fraction: nat, bits: nat, ew: nat, fw: nat)
    requires biased < Pow2(ew) && fraction < Pow2(fw)
    requires bits == biased * Pow2(fw) + fraction
    ensures bits < Pow2(ew + fw)
    ensures bits / Pow2(ew + fw) == 0
    ensures (bits / Pow2(fw)) % Pow2(ew) == biased
    ensures bits % Pow2(fw) == fraction
  {
    var p, top := Pow2(fw), Pow2(ew);
    Pow2Add(ew, fw);
    DivModUnique(bits, p, biased, fraction);
    MulMonotone(biased, top - 1, p);
    Distribute(top, 1, p);
    assert bits < top * p;
    DivModUnique(bits, top * p, 0, bits);
    DivModUnique(biased, top, 0, biased);
  }

  lemma DoubleWidths()
    ensures Pow2(DoubleExponentWidth) == 2048 && Pow2(DoubleExponentWidth - 1) == 1024
    ensures Pow2(DoubleExponentWidth + DoubleFractionWidth) < Pow2(64)
  {
    assert Pow2(DoubleExponentWidth) == 2048;
    assert Pow2(DoubleExponentWidth - 1) == 1024;
    Pow2Add(63, 1);
  }

  lemma {:induction false} Pow2Monotone(a: nat, b: nat)
    requires a <= b
    ensures Pow2(a) <= Pow2(b)
    decreases b
  {
    if a < b {
      Pow2Monotone(a, b - 1);
    }
  }

  lemma MulNonNegative(a: int, b: int)
    requires a >= 0 && b >= 0
    ensures a * b >= 0
  {
  }

  lemma MulStrict(a: int, b: int, d: int)
    requires 0 <= a < b && d > 0
    ensures a * d < b * d
  {
  }
}
