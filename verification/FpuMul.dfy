/** internal_float_mul against the exact product. */
module FpuMul {
  import opened Binary32
  import opened Rounding
  import opened Normalize
  import opened Fpu

  function SignXor(a: Bits, b: Bits): nat { if Negative(a) == Negative(b) then 0 else 1 }

  /** The operands whose product internal_normalize reads on twice its scale: the smallest
      subnormal and a number of biased exponent 149. */
  predicate Misread(a: Bits, b: Bits) {
    (Code(a) == 1 && Exponent(b) == 149) || (Code(b) == 1 && Exponent(a) == 149)
  }

  ghost function ExactProduct(a: Bits, b: Bits): (x: real)
    ensures x >= 0.0
  {
    NonNegativeProduct(Mag(Code(a)), Mag(Code(b)));
    Mag(Code(a)) * Mag(Code(b))
  }

  lemma NonNegativeProduct(x: real, y: real)
    requires x >= 0.0 && y >= 0.0
    ensures x * y >= 0.0
  {}

  /** The correctly rounded product (IEEE 754-2008, sections 4.3.1, 5.4.1, 6.3 and 7.4). */
  ghost function RoundedProduct(a: Bits, b: Bits): Bits
    requires IsFinite(a) && IsFinite(b)
  {
    WithSign(SignXor(a, b), RoundMag(ExactProduct(a, b)))
  }

  /** The same in terms of the operands' values. */
  lemma RoundedProductIs(a: Bits, b: Bits)
    requires IsFinite(a) && IsFinite(b) && !IsZero(a) && !IsZero(b)
    ensures RoundedProduct(a, b) == Round(Value(a) * Value(b))
  {
    var x, y := Mag(Code(a)), Mag(Code(b));
    MagNonNegative(Code(a));
    MagNonNegative(Code(b));
    SignsOfProduct(x, y);
    assert Value(a) * Value(b) == if SignXor(a, b) == 1 then -ExactProduct(a, b) else ExactProduct(a, b);
  }

  lemma SignsOfProduct(x: real, y: real)
    requires x > 0.0 && y > 0.0
    ensures x * y > 0.0 && (-x) * y == -(x * y) && x * (-y) == -(x * y) && (-x) * (-y) == x * y
  {}

  /** What the program returns for finite operands. */
  ghost function FiniteProduct(a: Bits, b: Bits): Bits {
    WithSign(SignXor(a, b), Stored(if Misread(a, b) then 2.0 * ExactProduct(a, b) else ExactProduct(a, b)))
  }

  ghost predicate ProductIs(a: Bits, b: Bits, r: Bits) {
    if Numeric(a) && Numeric(b) then r == FiniteProduct(a, b)
    else if KnownNaN(a) || KnownNaN(b) || IsZero(a) || IsZero(b) then r == NaNOf(a, b)
    else r == WithSign(SignXor(a, b), P_INF)
  }

  lemma CornerMul(a: Bits, b: Bits, res: Bits)
    requires Rule(a, b, res) in CORNER_MUL
    ensures ProductIs(a, b, res)
  {}

  lemma StoredZero()
    ensures Stored(0.0) == 0
  {
    MagZero();
    RoundExactMag(0);
    Exp2Less(-150, -126);
    Exp2Positive(-150);
  }

  lemma ZeroProduct(a: Bits, b: Bits)
    requires IsZero(a) || IsZero(b)
    ensures FiniteProduct(a, b) == WithSign(SignXor(a, b), 0)
  {
    MagZero();
    ProductOfZero(Mag(Code(a)), Mag(Code(b)));
    assert ExactProduct(a, b) == 0.0 && !Misread(a, b);
    StoredZero();
  }

  lemma ProductOfZero(x: real, y: real)
    requires x == 0.0 || y == 0.0
    ensures x * y == 0.0
  {}

  lemma ScaledProduct(s: real, t: real, j: int, k: int)
    ensures Scaled(s, j) * Scaled(t, k) == Scaled(s * t, j + k)
  {
    ScaledIsProduct(s, j);
    ScaledIsProduct(t, k);
    ScaledIsProduct(s * t, j + k);
    Exp2Product(j, k);
    Regroup(s, t, Exp2(j), Exp2(k));
  }

  lemma Regroup(s: real, t: real, u: real, v: real)
    ensures (s * u) * (t * v) == (s * t) * (u * v)
  {}

  lemma ProductOnScale(x: real, y: real, m: nat, n: nat, j: int, k: int)
    requires x == Scaled(m as real, j) && y == Scaled(n as real, k)
    ensures x * y == Scaled((m * n * 8) as real, j + k - 3)
  {
    ScaledProduct(m as real, n as real, j, k);
    ProductAsReal(m, n);
    ScaledEighth((m * n * 8) as real, j + k - 3);
  }

  /** The integer product, three bits to the left, names the exact product. */
  lemma SignificandProduct(a: Bits, b: Bits)
    ensures var sig := Significand(Code(a)) * Significand(Code(b)) * 8;
            ExactProduct(a, b) == Scaled(sig as real, Scale(Code(a)) + Scale(Code(b)) - 150 - 153)
  {
    var m, k := Code(a), Code(b);
    ProductOnScale(Mag(m), Mag(k), Significand(m), Significand(k), Scale(m) - 150, Scale(k) - 150);
    assert Scale(m) - 150 + (Scale(k) - 150) - 3 == Scale(m) + Scale(k) - 150 - 153;
  }

  lemma ProductAsReal(m: nat, n: nat)
    ensures (m * n) as real == m as real * n as real
    ensures (m * n * 8) as real / 8.0 == m as real * n as real
  {}

  lemma ProductMonotone(m: nat, n: nat, p: nat, q: nat)
    requires m <= p && n <= q
    ensures m * n <= p * q
  {
    assert m * n <= p * n <= p * q;
  }

  lemma ProductUpper(m: nat, n: nat)
    requires m < 0x100_0000 && n < 0x100_0000
    ensures m * n * 8 < 0x8_0000_0000_0000
  {
    ProductMonotone(m, n, 0xff_ffff, 0xff_ffff);
  }

  lemma ProductLower(m: nat, n: nat)
    requires 1 <= m < 0x100_0000 && 0x80_0000 <= n < 0x100_0000
    ensures 0x400_0000 <= m * n * 8
    ensures m * n * 8 < 0x800_0000 <==> m == 1
  {
    if m == 1 { assert m * n == n; } else { ProductMonotone(2, 0x80_0000, m, n); }
  }

  /** Two subnormal factors have a product below 2^-252, which rounds to zero. */
  lemma TinyProduct(a: Bits, b: Bits)
    requires Code(a) < 0x80_0000 && Code(b) < 0x80_0000
    ensures FiniteProduct(a, b) == WithSign(SignXor(a, b), 0)
  {
    hide ExactProduct, Stored, Mag;
    var m, k := Code(a), Code(b);
    SignificandProduct(a, b);
    ProductUpper(m, k);
    TinyStored(m * k * 8);
  }

  lemma TinyStored(n: nat)
    requires n < 0x8_0000_0000_0000
    ensures Scaled(n as real, 1 + 1 - 150 - 153) >= 0.0
    ensures Stored(Scaled(n as real, 1 + 1 - 150 - 153)) == 0
  {
    ScaledSign(n as real, -301);
    Exp2Values();
    Exp2Product(26, 26);
    ScaledTwice(1.0, 52, -301);
    ScaledOrder(n as real, Exp2(52), -301);
    assert 1 + 1 - 150 - 153 == -301;
    StoredBelowHalfUlp(Scaled(n as real, -301));
  }

  lemma StoredBelowHalfUlp(x: real)
    requires 0.0 <= x < Exp2(-249)
    ensures Stored(x) == 0
  {
    Exp2Less(-249, -150);
    Exp2Less(-150, -149);
    Exp2Less(-149, -126);
    Exp2Positive(-150);
    MagZero();
    RoundBetween(x, 0);
    RoundMagIs(x, 0);
  }

  /** What internal_normalize makes of the integer product. */
  lemma ProductArguments(a: Bits, b: Bits)
    requires !IsZero(a) && !IsZero(b)
    requires Code(a) >= 0x80_0000 || Code(b) >= 0x80_0000
    ensures var sig := Significand(Code(a)) * Significand(Code(b)) * 8;
            var exp := Scale(Code(a)) + Scale(Code(b)) - 150;
            && sig < 0x1_0000_0000_0000_0000
            && Acceptable(exp, sig, sig as real)
            && Scaled(sig as real, Reading(exp, sig) - 153)
                 == if Misread(a, b) then 2.0 * ExactProduct(a, b) else ExactProduct(a, b)
  {
    var sa, sb := Significand(Code(a)), Significand(Code(b));
    var sig := sa * sb * 8;
    var exp := Scale(Code(a)) + Scale(Code(b)) - 150;
    SignificandProduct(a, b);
    ProductUpper(sa, sb);
    if Code(b) >= 0x80_0000 {
      ProductLower(sa, sb);
    } else {
      ProductLower(sb, sa);
      assert sa * sb == sb * sa;
    }
    assert Misread(a, b) <==> exp == 0 && sig < 0x800_0000;
    ScaledStep(sig as real, exp - 153);
    assert exp - 153 + 1 == exp + 1 - 153;
  }

  /** internal_float_mul past its corner cases. */
  method MulFinite(b: Bits, a: Bits) returns (r: Bits)
    requires !IsZero(a) && !IsZero(b)
    ensures r == FiniteProduct(a, b)
  {
    if Exponent(a) == 0 && Exponent(b) == 0 {
      TinyProduct(a, b);
      return SignXor(a, b) * SIGN;
    }
    ProductArguments(a, b);
    var exp := Exponent(a) + Exponent(b) - 127 - 23;
    var sigA, sigB := Fraction(a), Fraction(b);
    if Exponent(a) != 0 { sigA := sigA + 0x80_0000; } else { exp := exp + 1; }
    if Exponent(b) != 0 { sigB := sigB + 0x80_0000; } else { exp := exp + 1; }
    assert sigA == Significand(Code(a)) && sigB == Significand(Code(b));
    assert exp == Scale(Code(a)) + Scale(Code(b)) - 150;
    var sig := sigA * sigB * 8;
    r := InternalNormalize(SignXor(a, b), exp, sig, sig as real,
                           if Misread(a, b) then 2.0 * ExactProduct(a, b) else ExactProduct(a, b));
  }

  /** a * b */
  method InternalFloatMul(b: Bits, a: Bits) returns (r: Bits)
    ensures ProductIs(a, b, r)
  {
    var hit, res := FindCorner(CORNER_MUL, a, b);
    if hit {
      CornerMul(a, b, res);
      return res;
    }
    MulTableCovers(a, b);
    KnownEncodings(a);
    KnownEncodings(b);
    if a == P_NAN || a == N_NAN || b == P_NAN || b == N_NAN {
      r := if a == P_NAN || b == P_NAN then P_NAN else N_NAN;
      KnownEncodings(r);
    } else if a == P_ZERO || a == N_ZERO || b == P_ZERO || b == N_ZERO {
      ZeroProduct(a, b);
      r := if SignXor(a, b) == 1 then N_ZERO else P_ZERO;
    } else if a == P_INF || a == N_INF || b == P_INF || b == N_INF {
      r := if SignXor(a, b) == 1 then N_INF else P_INF;
    } else {
      r := MulFinite(b, a);
    }
  }

  /** Every pairing of a zero with an infinity is in the table. */
  lemma MulTableCovers(a: Bits, b: Bits)
    requires forall r: Bits :: Rule(a, b, r) !in CORNER_MUL
    ensures !(IsZero(a) && IsInfinite(b)) && !(IsInfinite(a) && IsZero(b))
  {
    assert Rule(P_ZERO, P_INF, N_NAN) in CORNER_MUL && Rule(P_ZERO, N_INF, N_NAN) in CORNER_MUL;
    assert Rule(N_ZERO, P_INF, N_NAN) in CORNER_MUL && Rule(N_ZERO, N_INF, N_NAN) in CORNER_MUL;
    assert Rule(P_INF, P_ZERO, N_NAN) in CORNER_MUL && Rule(P_INF, N_ZERO, N_NAN) in CORNER_MUL;
    assert Rule(N_INF, P_ZERO, N_NAN) in CORNER_MUL && Rule(N_INF, N_ZERO, N_NAN) in CORNER_MUL;
  }

  // ---------- when the product is correctly rounded ----------

  /** internal_float_mul rounds correctly exactly when the operands are not misread and the exact
      product is not one that should round up to 2^-126 from below. */
  lemma ProductCorrectIff(a: Bits, b: Bits)
    requires IsFinite(a) && IsFinite(b)
    ensures FiniteProduct(a, b) == RoundedProduct(a, b) <==> !Misread(a, b) && !Flushed(ExactProduct(a, b))
  {
    var x := ExactProduct(a, b);
    if Misread(a, b) {
      MisreadProduct(a, b);
    } else if Flushed(x) {
      FlushedRoundsUp(x);
    }
  }

  lemma FlushedRoundsUp(x: real)
    requires x >= 0.0 && Flushed(x)
    ensures RoundMag(x) == 0x80_0000
  {
    hide Mag, Ulp, RoundMag;
    MagStep(0x7f_ffff);
    SmallestNormal();
    Exp2Positive(-150);
    RoundBetween(x, 0x7f_ffff);
    RoundMagIs(x, 0x80_0000);
  }

  lemma SmallestNormal()
    ensures Mag(0x80_0000) == Exp2(-126) && Ulp(0x7f_ffff) == 2.0 * Exp2(-150)
  {
    assert Scale(0x80_0000) == 1 && Scale(0x7f_ffff) == 1 && Significand(0x80_0000) == 0x80_0000;
    Exp2Shifted(-150);
    ScaledHalf(16777216.0, -150);
    ScaledStep(1.0, -150);
  }

  function NormalFactor(a: Bits, b: Bits): nat
    requires Misread(a, b)
  {
    if Code(a) == 1 && Exponent(b) == 149 then Significand(Code(b)) else Significand(Code(a))
  }

  /** A misread product is s * 2^-150 for a 24-bit s. */
  lemma MisreadValue(a: Bits, b: Bits)
    requires IsFinite(a) && IsFinite(b) && Misread(a, b)
    ensures 0x80_0000 <= NormalFactor(a, b) < 0x100_0000
    ensures ExactProduct(a, b) == Scaled(NormalFactor(a, b) as real, -150)
  {
    SignificandProduct(a, b);
    var s := NormalFactor(a, b);
    assert Significand(Code(a)) * Significand(Code(b)) == s;
    ScaledEighth((s * 8) as real, -153);
  }

  /** So it is below 2^-126, but comes out as twice its value, a normal number. */
  lemma MisreadProduct(a: Bits, b: Bits)
    requires IsFinite(a) && IsFinite(b) && Misread(a, b)
    ensures FiniteProduct(a, b) != RoundedProduct(a, b)
    ensures FiniteProduct(a, b) == WithSign(SignXor(a, b), NormalFactor(a, b))
    ensures Mag(NormalFactor(a, b)) == 2.0 * ExactProduct(a, b)
  {
    var s := NormalFactor(a, b);
    var x := ExactProduct(a, b);
    MisreadValue(a, b);
    ScaledStep(s as real, -150);
    PackedMag(1, s);
    assert 2.0 * x == Mag(s);
    GridNotFlushed(s);
    RoundExactMag(s);
    assert Stored(2.0 * x) == s;
    HalfRoundsElsewhere(x, s);
  }

  lemma HalfRoundsElsewhere(x: real, s: nat)
    requires 0x80_0000 <= s < 0x100_0000 && x == Scaled(s as real, -150) && x >= 0.0
    ensures RoundMag(x) != s
  {
    if s == 0x80_0000 {
      ScaledHalf(8388608.0, -150);
      PackedMag(1, 0x40_0000);
      RoundExactMag(0x40_0000);
    } else {
      PackedMag(1, 0x80_0000);
      ScaledHalf(16777216.0, -150);
      ScaledOrder(s as real, 16777216.0, -150);
      RoundExactMag(0x80_0000);
      RoundsToMonotone(x, Mag(0x80_0000), RoundMag(x), 0x80_0000);
    }
  }
}
