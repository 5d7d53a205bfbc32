/** Operands on which multiplication and division are not correctly rounded. */
module FpuExamples {
  import opened Binary32
  import opened Rounding
  import opened Fpu
  import opened FpuMul
  import opened FpuDiv
  import opened FpuLaws

  const DIVIDEND: Bits := 0x3F80_00DD
  const DIVISOR: Bits := 0x3F80_061B

  lemma RaisedNibble(m: nat)
    requires 0 < m < 0x1000_0000_0000_0000
    ensures Raised(m) == (Raised(16 * m).0, Raised(16 * m).1 + 4)
  {
    assert Raised(m) == (Raised(2 * m).0, Raised(2 * m).1 + 1);
    assert Raised(2 * m) == (Raised(4 * m).0, Raised(4 * m).1 + 1);
    assert Raised(4 * m) == (Raised(8 * m).0, Raised(8 * m).1 + 1);
  }

  lemma RaisedFar(m: nat)
    requires 0 < m < 0x1000_0000_0000
    ensures Raised(m) == (Raised(0x10_0000 * m).0, Raised(0x10_0000 * m).1 + 20)
  {
    hide Raised;
    RaisedNibble(m);
    RaisedNibble(0x10 * m);
    RaisedNibble(0x100 * m);
    RaisedNibble(0x1000 * m);
    RaisedNibble(0x1_0000 * m);
  }

  lemma ExampleParts()
    ensures Dividend(DIVIDEND) == 0x80_00DD * 0x100_0000_0000 && Divisor(DIVISOR) == 0x80_061B
    ensures QuotientGrid(DIVIDEND, DIVISOR) == -40
  {
    assert Significand(Code(DIVIDEND)) == 0x80_00DD && Significand(Code(DIVISOR)) == 0x80_061B;
    RaisedFar(0x80_00DD);
    RaisedFar(0x80_00DD * 0x10_0000);
    assert Stripped(0x80_061B) == (0x80_061B, 0);
  }

  /** The quotient lies just above the midpoint of two codes, and what is left of it is the midpoint:
      one unit in the last place is lost. */
  lemma DivisionOffByOne()
    ensures FiniteQuotient(DIVIDEND, DIVISOR) == 0x3F7F_F584 && RoundedQuotient(DIVIDEND, DIVISOR) == 0x3F7F_F585
  {
    hide Raised, Stripped, Mag, Dividend, Divisor, QuotientGrid, ExactQuotient;
    var q, c := 0xFF_F584_8000, 0x3F7F_F584;
    var t := TruncatedQuotient(DIVIDEND, DIVISOR);
    ExampleParts();
    TruncatedQuotientIs(DIVIDEND, DIVISOR);
    ShiftFifteen(0x1FF_EB09, q);
    ScaledTwice(0x1FF_EB09 as real, 15, -40);
    MidpointOnGrid(c);
    MidpointRounds(t, c);
    TruncatedRounds(ExactQuotient(DIVIDEND, DIVISOR), q, -40);
  }

  lemma MidpointRounds(t: real, c: nat)
    requires c < 0x7f80_0000 && c % 2 == 0 && c != 0x7f_ffff && 2.0 * t == Mag(c) + Mag(c + 1)
    ensures t >= 0.0 && RoundMag(t) == c && !Flushed(t) && AtEvenMidpoint(t)
  {
    MagStep(c);
    RoundBetween(t, c);
    RoundMagIs(t, c);
    FlushedIsUpperHalf(t, c);
  }

  lemma ShiftFifteen(n: nat, q: nat)
    requires q == 0x8000 * n
    ensures Scaled(n as real, 15) == q as real
  {
    Exp2Values();
    ScaledStep(1.0, 15);
    ScaledIsProduct(n as real, 15);
  }

  lemma LargestBelow()
    ensures Scaled(16777215.0 * 67108864.0, -176) == Exp2(-126) - Exp2(-150)
  {
    Exp2Values();
    ScaledIsProduct(16777215.0, 26);
    ScaledTwice(16777215.0, 26, -176);
    ScaledSum(16777215.0, 1.0, -150);
    Exp2Shifted(-150);
  }

  lemma BandProduct()
    ensures Flushed(ExactProduct(0x3F7F_FFFF, 0x80_0000))
  {
    hide ExactProduct;
    SignificandProduct(0x3F7F_FFFF, 0x80_0000);
    assert Significand(Code(0x3F7F_FFFF)) == 0xFF_FFFF && Significand(Code(0x80_0000)) == 0x80_0000;
    assert 0xFF_FFFF * 0x80_0000 * 8 == 16777215 * 67108864;
    LargestBelow();
    Exp2Positive(-150);
  }

  /** (1 - 2^-24) times 2^-126 rounds to 2^-126, but comes out as zero. */
  lemma ProductFlushed()
    ensures FiniteProduct(0x3F7F_FFFF, 0x80_0000) == 0 && RoundedProduct(0x3F7F_FFFF, 0x80_0000) == 0x80_0000
  {
    BandProduct();
    FlushedRoundsUp(ExactProduct(0x3F7F_FFFF, 0x80_0000));
  }

  /** 2^-149 times 2^22 comes out as 2^-126 instead of half of it. */
  lemma ProductDoubled()
    ensures FiniteProduct(1, 0x4A80_0000) == 0x80_0000 && RoundedProduct(1, 0x4A80_0000) == 0x40_0000
  {
    MisreadProduct(1, 0x4A80_0000);
    MisreadValue(1, 0x4A80_0000);
    ScaledHalf(8388608.0, -150);
    PackedMag(1, 0x40_0000);
    RoundExactMag(0x40_0000);
  }

  lemma ValueTwo()
    ensures Mag(0x4000_0000) == 2.0
  {
    Exp2Values();
    ScaledZero(1.0);
    ScaledStep(1.0, 0);
    ScaledStep(1.0, 23);
    ScaledTwice(1.0, 23, -22);
    assert Scale(0x4000_0000) == 128 && Significand(0x4000_0000) == 0x80_0000;
  }

  /** (2 - 2^-23) * 2^-126 halved rounds to 2^-126, but comes out as zero. */
  lemma QuotientFlushed()
    ensures FiniteQuotient(0xFF_FFFF, 0x4000_0000) == 0 && RoundedQuotient(0xFF_FFFF, 0x4000_0000) == 0x80_0000
  {
    hide Mag, FiniteQuotient;
    ValueTwo();
    MagIs(0xFF_FFFF);
    assert Scale(0xFF_FFFF) == 1 && Significand(0xFF_FFFF) == 0xFF_FFFF;
    ScaledStep(16777215.0, -150);
    BelowSmallestNormal();
    QuotientWithinOne(0xFF_FFFF, 0x4000_0000, FiniteQuotient(0xFF_FFFF, 0x4000_0000));
    SignOfQuotient(0xFF_FFFF, 0x4000_0000);
  }

  lemma BelowSmallestNormal()
    ensures Flushed(Scaled(16777215.0, -150))
  {
    ScaledSum(16777215.0, 1.0, -150);
    Exp2Shifted(-150);
    Exp2Positive(-150);
  }

  lemma SignOfQuotient(a: Bits, b: Bits)
    requires !IsZero(a) && !IsZero(b) && !Negative(a) && !Negative(b)
    ensures !Negative(FiniteQuotient(a, b))
  {}
}
