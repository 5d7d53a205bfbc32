/** The algebra of the four operations on finite operands. */
module FpuLaws {
  import opened Binary32
  import opened Rounding
  import opened Normalize
  import opened Fpu
  import opened FpuMul
  import opened FpuDiv

  // ---------- representable numbers ----------

  lemma {:induction false} SmallSignificand(n: nat, e: nat) returns (m: nat)
    requires n < 0x100_0000 && 1 <= e <= 254
    ensures m < P_INF && Mag(m) == Scaled(n as real, e - 150)
    decreases e
  {
    if e == 1 || n >= 0x80_0000 {
      PackedMag(e, n);
      m := (e - 1) * 0x80_0000 + n;
    } else {
      m := SmallSignificand(2 * n, e - 1);
      ScaledHalf(n as real, e - 150);
    }
  }

  lemma RepresentableMag(m: nat)
    requires m < P_INF
    ensures Representable(Mag(m)) && Representable(-Mag(m))
  {
    assert Value(m) == Mag(m);
    assert Value(SIGN + m) == -Mag(m);
  }

  lemma RoundRepresentable(x: real)
    requires Representable(x)
    ensures IsFinite(Round(x)) && Value(Round(x)) == x
  {
    var b: Bits :| IsFinite(b) && Value(b) == x;
    if b == N_ZERO {
      MagZero();
      RoundOfValue(P_ZERO);
    } else {
      RoundOfValue(b);
    }
  }

  // ---------- addition and subtraction ----------

  /** Infinities and NaNs included; only a NaN of another payload can win by coming first. */
  lemma SumCommutes(a: Bits, b: Bits, r: Bits, q: Bits)
    requires SumIs(a, b, r) && SumIs(b, a, q)
    ensures r == q <==> (!OtherNaN(a) && !OtherNaN(b)) || IsFinite(a) || IsFinite(b) || a == b
  {
    KnownEncodings(a);
    KnownEncodings(b);
  }

  /** Raising an operand never lowers the sum, overflow to the infinities included. */
  lemma SumMonotone(a: Bits, b: Bits, c: Bits)
    requires IsFinite(a) && IsFinite(b) && IsFinite(c) && Value(a) <= Value(b)
    ensures Key(FiniteSum(a, c)) <= Key(FiniteSum(b, c))
  {
    RoundMonotone(Value(a) + Value(c), Value(b) + Value(c));
    MagZero();
    RoundOfValue(P_ZERO);
  }

  lemma SelfDifference(a: Bits)
    requires IsFinite(a)
    ensures FiniteDifference(a, a) == P_ZERO
  {
    MagZero();
    RoundOfValue(P_ZERO);
  }

  lemma SmallGridRepresentable(n: int)
    requires -0x80_0000 < n < 0x80_0000
    ensures Representable(Scaled(n as real, -149))
  {
    ScaledNegate(n as real, -149);
    PackedMag(1, AbsInt(n));
    RepresentableMag(AbsInt(n));
  }

  lemma SmallGrid(n: int)
    requires Abs(Scaled(n as real, -149)) < Exp2(-126)
    ensures -0x80_0000 < n < 0x80_0000
  {
    Exp2Shifted(-150);
    ScaledHalf(16777216.0, -150);
    ScaledNegate(n as real, -149);
    ScaledOrder(n as real, 8388608.0, -149);
    ScaledOrder(-n as real, 8388608.0, -149);
    ScaledSign(n as real, -149);
  }

  /** A sum below 2^-126 is exact: the format loses nothing to underflow in addition. */
  lemma SmallSumExact(a: Bits, b: Bits)
    requires IsFinite(a) && IsFinite(b) && Abs(Value(a) + Value(b)) < Exp2(-126)
    ensures IsFinite(FiniteSum(a, b)) && Value(FiniteSum(a, b)) == Value(a) + Value(b)
  {
    if a == N_ZERO && b == N_ZERO {
      MagZero();
    } else {
      SmallSumRepresentable(a, b);
      RoundRepresentable(Value(a) + Value(b));
    }
  }

  lemma SmallSumRepresentable(a: Bits, b: Bits)
    requires IsFinite(a) && IsFinite(b) && Abs(Value(a) + Value(b)) < Exp2(-126)
    ensures Representable(Value(a) + Value(b))
  {
    var p := ValueGrid(a);
    var q := ValueGrid(b);
    ScaledSum(p as real, q as real, -149);
    SmallGrid(p + q);
    SmallGridRepresentable(p + q);
  }

  /** Two positive numbers within a factor of two of each other subtract exactly. */
  lemma CloseDifferenceExact(a: Bits, b: Bits)
    requires IsFinite(a) && IsFinite(b) && !Negative(a) && !Negative(b)
    requires Value(a) <= 2.0 * Value(b) && Value(b) <= 2.0 * Value(a)
    ensures IsFinite(FiniteDifference(a, b)) && Value(FiniteDifference(a, b)) == Value(a) - Value(b)
  {
    if Code(a) >= Code(b) {
      GapIsRepresentable(Code(a), Code(b));
    } else {
      GapIsRepresentable(Code(b), Code(a));
    }
    RoundRepresentable(Value(a) - Value(b));
  }

  lemma GapIsRepresentable(m: nat, k: nat)
    requires k <= m < P_INF && Mag(m) <= 2.0 * Mag(k)
    ensures Representable(Mag(m) - Mag(k)) && Representable(Mag(k) - Mag(m))
  {
    var e := Scale(k) - 150;
    if k < m { MagMonotone(k, m); }
    var n := GridMultiple(Significand(m), Scale(m) - 150, e);
    var d := n - Significand(k);
    ScaledSum(d as real, Significand(k) as real, e);
    ScaledSum(Significand(k) as real, Significand(k) as real, e);
    OrderOnGrid(Significand(k), n, e);
    OrderOnGrid(n, 2 * Significand(k), e);
    var c := SmallSignificand(d, Scale(k));
    RepresentableMag(c);
  }

  // ---------- multiplication and division ----------

  /** A product the format can hold comes out exactly, unless its operands are misread. */
  lemma ProductExact(a: Bits, b: Bits)
    requires IsFinite(a) && IsFinite(b) && !IsZero(a) && !IsZero(b)
    requires Representable(Value(a) * Value(b)) && !Misread(a, b)
    ensures FiniteProduct(a, b) == Round(Value(a) * Value(b))
    ensures IsFinite(FiniteProduct(a, b)) && Mag(Code(FiniteProduct(a, b))) == ExactProduct(a, b)
  {
    RoundedProductIs(a, b);
    RoundRepresentable(Value(a) * Value(b));
    ProductMagnitude(a, b);
    var q := MagGrid(Code(Round(Value(a) * Value(b))));
    GridNotFlushed(q);
    ProductCorrectIff(a, b);
  }

  lemma ProductMagnitude(a: Bits, b: Bits)
    requires IsFinite(a) && IsFinite(b)
    ensures ExactProduct(a, b) == Abs(Value(a) * Value(b))
  {
    AbsOfProduct(Mag(Code(a)), Mag(Code(b)), Value(a), Value(b));
  }

  lemma AbsOfProduct(x: real, y: real, v: real, w: real)
    requires x >= 0.0 && y >= 0.0 && (v == x || v == -x) && (w == y || w == -y)
    ensures Abs(v * w) == x * y
  {
    NonNegativeProduct(x, y);
    assert v * w == x * y || v * w == -(x * y);
  }

  ghost function RoundedQuotient(a: Bits, b: Bits): Bits
    requires !IsZero(b)
  {
    WithSign(SignXor(a, b), RoundMag(ExactQuotient(a, b)))
  }

  /** Division is correctly rounded or one unit in the last place short of it, except that a
      quotient that should round up to 2^-126 from below becomes zero. */
  lemma QuotientWithinOne(a: Bits, b: Bits, r: Bits)
    requires IsFinite(a) && IsFinite(b) && !IsZero(a) && !IsZero(b) && QuotientIs(a, b, r)
    ensures !Flushed(ExactQuotient(a, b)) ==> r == RoundedQuotient(a, b) || r + 1 == RoundedQuotient(a, b)
    ensures Flushed(ExactQuotient(a, b)) ==> IsZero(r) && RoundedQuotient(a, b) == WithSign(SignXor(a, b), 0x80_0000)
  {
    TruncatedQuotientIs(a, b);
    TruncatedRounds(ExactQuotient(a, b), Dividend(a) / Divisor(b), QuotientGrid(a, b));
    if Flushed(ExactQuotient(a, b)) { FlushedRoundsUp(ExactQuotient(a, b)); }
  }

  /** Division rounds correctly exactly when the quotient is not one that should round up to 2^-126
      from below, and no remainder is dropped behind a quotient whose bits end at the midpoint above
      an even code. */
  lemma QuotientCorrectIff(a: Bits, b: Bits)
    requires !IsZero(a) && !IsZero(b)
    ensures FiniteQuotient(a, b) == RoundedQuotient(a, b)
            <==> !Flushed(ExactQuotient(a, b)) && !RoundsShort(a, b)
  {
    var q, g := Dividend(a) / Divisor(b), QuotientGrid(a, b);
    TruncatedQuotientIs(a, b);
    TruncatedRounds(ExactQuotient(a, b), q, g);
    MidpointBitsIff(q, g);
    if Flushed(ExactQuotient(a, b)) { FlushedRoundsUp(ExactQuotient(a, b)); }
  }

  /** The error of a finite result, in units of the gap the exact quotient lies in. */
  lemma QuotientErrorBound(a: Bits, b: Bits, r: Bits, c: nat)
    requires IsFinite(a) && IsFinite(b) && !IsZero(a) && !IsZero(b) && QuotientIs(a, b, r)
    requires c < P_INF && Mag(c) <= ExactQuotient(a, b) < Mag(c + 1)
    requires IsFinite(r) && !Flushed(ExactQuotient(a, b))
    ensures Abs(Mag(Code(r)) - ExactQuotient(a, b)) < (0.5 + 1.0 / 65536.0) * Ulp(c)
  {
    var x := ExactQuotient(a, b);
    var q, g := Dividend(a) / Divisor(b), QuotientGrid(a, b);
    TruncatedQuotientIs(a, b);
    var t := Scaled(q as real, g);
    assert Abs(Mag(RoundMag(t)) - x) < (0.5 + 1.0 / 65536.0) * Ulp(c) by {
      SameGap(x, q, g, c);
      HalfGap(t, c);
    }
    TruncatedRounds(x, q, g);
    CodeOfSigned(SignXor(a, b), RoundMag(t));
  }

  lemma CodeOfSigned(sgn: nat, m: nat)
    requires sgn <= 1 && m <= P_INF
    ensures Code(WithSign(sgn, m)) == m
  {}

  lemma HalfGap(t: real, c: nat)
    requires c < P_INF && 0.0 <= Mag(c) <= t < Mag(c + 1)
    ensures Abs(Mag(RoundMag(t)) - t) <= 0.5 * Ulp(c)
  {
    RoundBetween(t, c);
    RoundMagIs(t, NearestInGap(t, c));
    MagStep(c);
  }

  /** A quotient the format can hold comes out exactly. */
  lemma QuotientExact(a: Bits, b: Bits, r: Bits, c: nat)
    requires IsFinite(a) && IsFinite(b) && !IsZero(a) && !IsZero(b) && QuotientIs(a, b, r)
    requires c < P_INF && ExactQuotient(a, b) == Mag(c)
    ensures r == WithSign(SignXor(a, b), c)
  {
    var q, g := Dividend(a) / Divisor(b), QuotientGrid(a, b);
    TruncatedQuotientIs(a, b);
    MagStep(c);
    SameGap(Mag(c), q, g, c);
    assert Scaled(q as real, g) == Mag(c);
    RoundExactMag(c);
    var n := MagGrid(c);
    GridNotFlushed(n);
  }

  /** Dividing a product the format could hold by one factor returns the other, bit for bit. */
  lemma MultiplyDivideRoundTrip(a: Bits, b: Bits, p: Bits, r: Bits)
    requires IsFinite(a) && IsFinite(b) && !IsZero(a) && !IsZero(b)
    requires Representable(Value(a) * Value(b)) && !Misread(a, b)
    requires p == FiniteProduct(a, b) && QuotientIs(p, b, r)
    ensures r == a
  {
    ProductExact(a, b);
    SignXorTwice(a, b, p);
    DivideExactProduct(a, b, p, r);
  }

  lemma DivideExactProduct(a: Bits, b: Bits, p: Bits, r: Bits)
    requires IsFinite(a) && IsFinite(b) && IsFinite(p) && !IsZero(a) && !IsZero(b)
    requires Mag(Code(p)) == ExactProduct(a, b) && SignXor(p, b) == SignBit(a) && QuotientIs(p, b, r)
    ensures r == a
  {
    QuotientOfProduct(a, b, p);
    QuotientExact(p, b, r, Code(a));
  }

  lemma QuotientOfProduct(a: Bits, b: Bits, p: Bits)
    requires !IsZero(a) && !IsZero(b) && Mag(Code(p)) == ExactProduct(a, b)
    ensures !IsZero(p) && ExactQuotient(p, b) == Mag(Code(a))
  {
    MagNonNegative(Code(a));
    MagNonNegative(Code(b));
    MagNonNegative(Code(p));
    CancelFactor(Mag(Code(a)), Mag(Code(b)));
  }

  lemma CancelFactor(x: real, y: real)
    requires x > 0.0 && y > 0.0
    ensures x * y > 0.0 && (x * y) / y == x
  {}

  lemma SignXorTwice(a: Bits, b: Bits, p: Bits)
    requires exists m: nat :: m <= P_INF && p == WithSign(SignXor(a, b), m)
    ensures SignXor(p, b) == SignBit(a)
  {}
}
