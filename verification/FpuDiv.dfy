/** internal_float_div against the exact quotient.  The significands are divided as 64-bit
    integers and the remainder is dropped, so what is rounded is the quotient truncated to at
    least forty significant bits. */
module FpuDiv {
  import opened Binary32
  import opened Rounding
  import opened Normalize
  import opened Fpu
  import opened FpuMul
  import opened Words

  ghost function ExactQuotient(a: Bits, b: Bits): (x: real)
    requires !IsZero(b)
    ensures x >= 0.0 && (!IsZero(a) ==> x > 0.0)
  {
    MagNonNegative(Code(a));
    MagNonNegative(Code(b));
    QuotientSign(Mag(Code(a)), Mag(Code(b)));
    Mag(Code(a)) / Mag(Code(b))
  }

  lemma QuotientSign(x: real, y: real)
    requires y > 0.0
    ensures (x >= 0.0 ==> x / y >= 0.0) && (x > 0.0 ==> x / y > 0.0)
  {}

  /** q * 2^g is x truncated, with at least forty significant bits kept. */
  ghost predicate TruncatesTo(x: real, q: nat, g: int) {
    q >= 0x80_0000_0000 && Scaled(q as real, g) <= x < Scaled((q + 1) as real, g)
  }

  /** m shifted up until bit 63 is set, and by how many places. */
  function Raised(m: nat): (r: (nat, nat))
    requires 0 < m < 0x1_0000_0000_0000_0000
    ensures 0x8000_0000_0000_0000 <= r.0 < 0x1_0000_0000_0000_0000
    decreases 0x8000_0000_0000_0000 - m
  {
    if m >= 0x8000_0000_0000_0000 then (m, 0) else (Raised(2 * m).0, Raised(2 * m).1 + 1)
  }

  /** m without its trailing zeros, and how many there were. */
  function Stripped(m: nat): (r: (nat, nat))
    requires 0 < m
    ensures 0 < r.0 <= m && r.0 % 2 == 1
  {
    if m % 2 == 1 then (m, 0) else (Stripped(m / 2).0, Stripped(m / 2).1 + 1)
  }

  lemma SignificandPositive(m: nat)
    requires m != 0
    ensures 0 < Significand(m) < 0x100_0000
  {}

  /** The integers internal_float_div divides, and the scale of their quotient. */
  function Dividend(a: Bits): (p: nat)
    requires !IsZero(a)
    ensures p >= 0x8000_0000_0000_0000
  {
    SignificandPositive(Code(a));
    Raised(Significand(Code(a))).0
  }

  function Divisor(b: Bits): (d: nat)
    requires !IsZero(b)
    ensures 0 < d < 0x100_0000
  {
    SignificandPositive(Code(b));
    Stripped(Significand(Code(b))).0
  }

  function QuotientGrid(a: Bits, b: Bits): int
    requires !IsZero(a) && !IsZero(b)
  {
    SignificandPositive(Code(a));
    SignificandPositive(Code(b));
    Scale(Code(a)) - Scale(Code(b)) - (Raised(Significand(Code(a))).1 + Stripped(Significand(Code(b))).1)
  }

  /** What is left of the quotient when the remainder is dropped. */
  ghost function TruncatedQuotient(a: Bits, b: Bits): (t: real)
    requires !IsZero(a) && !IsZero(b)
    ensures t >= 0.0
  {
    ScaledSign((Dividend(a) / Divisor(b)) as real, QuotientGrid(a, b));
    Scaled((Dividend(a) / Divisor(b)) as real, QuotientGrid(a, b))
  }

  /** What the operation makes of finite operands that are not zero. */
  ghost function FiniteQuotient(a: Bits, b: Bits): Bits
    requires !IsZero(a) && !IsZero(b)
  {
    WithSign(SignXor(a, b), Stored(TruncatedQuotient(a, b)))
  }

  ghost predicate QuotientIs(a: Bits, b: Bits, r: Bits) {
    if KnownNaN(a) || KnownNaN(b) || (IsZero(a) && IsZero(b)) || (IsInfinite(a) && IsInfinite(b)) then r == NaNOf(a, b)
    else if IsZero(b) || IsInfinite(a) then r == WithSign(SignXor(a, b), P_INF)
    else if IsZero(a) || IsInfinite(b) then r == WithSign(SignXor(a, b), 0)
    else r == FiniteQuotient(a, b)
  }

  lemma CornerDiv(a: Bits, b: Bits, res: Bits)
    requires Rule(a, b, res) in CORNER_DIV
    ensures QuotientIs(a, b, res)
  {}

  // ---------- the integer division ----------

  lemma IntegerQuotient(p: nat, d: nat, q: nat)
    requires d > 0 && q == p / d
    ensures q * d <= p < (q + 1) * d
  {}

  lemma FortyBits(p: nat, d: nat)
    requires p >= 0x8000_0000_0000_0000 && 0 < d < 0x100_0000
    ensures p / d >= 0x80_0000_0000
  {
    var q := p / d;
    IntegerQuotient(p, d, q);
    if q < 0x80_0000_0000 { ProductMonotone(q + 1, d, 0x80_0000_0000, 0xff_ffff); }
  }

  lemma BelowQuotient(x: real, y: real, z: real)
    requires y > 0.0
    ensures z * y <= x <==> z <= x / y
  {
    assert (x / y) * y == x;
    MulOrder(z, x / y, y);
  }

  lemma MulOrder(a: real, b: real, u: real)
    requires u > 0.0
    ensures a <= b <==> a * u <= b * u
  {}

  lemma ScaledTimesInteger(q: nat, d: nat, g: int, h: int)
    ensures Scaled(q as real, g) * Scaled(d as real, h) == Scaled((q * d) as real, g + h)
  {
    ScaledProduct(q as real, d as real, g, h);
    ProductAsReal(q, d);
  }

  /** Integer division of p by d, the two standing for x and y, truncates x / y. */
  lemma DivisionTruncates(x: real, y: real, p: nat, d: nat, g: int, h: int)
    requires y > 0.0 && d > 0
    requires Scaled(p as real, g + h) == x && Scaled(d as real, h) == y
    ensures Scaled((p / d) as real, g) <= x / y < Scaled((p / d + 1) as real, g)
  {
    var q := p / d;
    IntegerQuotient(p, d, q);
    Below(x, y, p, d, q, g, h);
    Below(x, y, p, d, q + 1, g, h);
  }

  /** Whether q is too large for p / d shows in what they stand for. */
  lemma Below(x: real, y: real, p: nat, d: nat, q: nat, g: int, h: int)
    requires y > 0.0 && Scaled(p as real, g + h) == x && Scaled(d as real, h) == y
    ensures q * d <= p <==> Scaled(q as real, g) <= x / y
  {
    ScaledTimesInteger(q, d, g, h);
    var m := q * d;
    ScaledOrder(m as real, p as real, g + h);
    ScaledOrder(p as real, m as real, g + h);
    BelowQuotient(x, y, Scaled(q as real, g));
  }

  /** Dropping a remainder is what makes the truncated quotient differ. */
  lemma DivisionExactIff(x: real, y: real, p: nat, d: nat, g: int, h: int)
    requires y > 0.0 && d > 0
    requires Scaled(p as real, g + h) == x && Scaled(d as real, h) == y
    ensures p % d == 0 <==> Scaled((p / d) as real, g) == x / y
  {
    var q := p / d;
    var t := Scaled(q as real, g);
    ScaledTimesInteger(q, d, g, h);
    IntegerQuotient(p, d, q);
    RemainderIs(p, d, q);
    var m := q * d;
    OrderOnGrid(m, p, g + h);
    BelowQuotient(x, y, t);
    QuotientTimes(x, y, t);
  }

  lemma RemainderIs(p: nat, d: nat, q: nat)
    requires d > 0 && q == p / d
    ensures p % d == 0 <==> q * d == p
  {}

  lemma QuotientTimes(x: real, y: real, t: real)
    requires y > 0.0
    ensures t == x / y <==> t * y == x
  {
    assert (x / y) * y == x;
    if t * y == x { assert t == (t * y) / y; }
  }

  lemma RaisedOnce(m: nat)
    requires 0 < m < 0x1_0000_0000_0000_0000
    ensures Raised(m) == if m >= 0x8000_0000_0000_0000 then (m, 0) else (Raised(2 * m).0, Raised(2 * m).1 + 1)
  {}

  lemma {:induction false} RaisedIs(m: nat)
    requires 0 < m < 0x1_0000_0000_0000_0000
    ensures Scaled(m as real, Raised(m).1) == Raised(m).0 as real
    decreases 0x8000_0000_0000_0000 - m
  {
    hide Raised;
    RaisedOnce(m);
    ScaledZero(m as real);
    if m < 0x8000_0000_0000_0000 {
      RaisedIs(2 * m);
      var k := Raised(2 * m).1;
      ScaledHalf(m as real, k + 1);
      assert (2 * m) as real == 2.0 * (m as real);
    }
  }

  lemma {:induction false} StrippedIs(m: nat)
    requires 0 < m
    ensures Scaled(Stripped(m).0 as real, Stripped(m).1) == m as real
  {
    ScaledZero(m as real);
    if m % 2 == 0 {
      StrippedIs(m / 2);
      ScaledStep(Stripped(m / 2).0 as real, Stripped(m / 2).1);
    }
  }

  /** The truncated quotient has forty bits, and is the quotient itself if there was no remainder. */
  lemma TruncatedQuotientIs(a: Bits, b: Bits)
    requires !IsZero(a) && !IsZero(b)
    ensures TruncatesTo(ExactQuotient(a, b), Dividend(a) / Divisor(b), QuotientGrid(a, b))
    ensures Dividend(a) % Divisor(b) == 0 <==> TruncatedQuotient(a, b) == ExactQuotient(a, b)
  {
    SignificandPositive(Code(a));
    SignificandPositive(Code(b));
    var p, d := Dividend(a), Divisor(b);
    var i, j := Raised(Significand(Code(a))).1, Stripped(Significand(Code(b))).1;
    var g, h := QuotientGrid(a, b), Scale(Code(b)) - 150 + j;
    RaisedIs(Significand(Code(a)));
    StrippedIs(Significand(Code(b)));
    ScaledTwice(Significand(Code(a)) as real, i, Scale(Code(a)) - 150 - i);
    ScaledTwice(d as real, j, Scale(Code(b)) - 150);
    assert g + h == Scale(Code(a)) - 150 - i;
    FortyBits(p, d);
    MagNonNegative(Code(b));
    DivisionTruncates(Mag(Code(a)), Mag(Code(b)), p, d, g, h);
    DivisionExactIff(Mag(Code(a)), Mag(Code(b)), p, d, g, h);
  }

  // ---------- the method ----------

  /** Shift the dividend up until bit 63 is set. */
  method ShiftUp(m: nat) returns (sig: U64, shift: nat)
    requires 0 < m < 0x100_0000
    ensures (sig, shift) == Raised(m)
  {
    sig, shift := m, 0;
    while sig / 0x8000_0000_0000_0000 == 0
      invariant sig > 0 && Raised(m) == (Raised(sig).0, shift + Raised(sig).1)
      decreases 0x8000_0000_0000_0000 - sig
    {
      sig := 2 * sig;
      shift := shift + 1;
    }
  }

  /** Strip the divisor of its trailing zeros. */
  method ShiftDown(m: nat, shiftIn: nat) returns (sig: U64, shift: nat)
    requires 0 < m < 0x100_0000
    ensures sig == Stripped(m).0 && shift == shiftIn + Stripped(m).1
  {
    sig, shift := m, shiftIn;
    while sig % 2 == 0
      invariant 0 < sig <= m && Stripped(m).0 == Stripped(sig).0 && shiftIn + Stripped(m).1 == shift + Stripped(sig).1
      decreases sig
    {
      sig := sig / 2;
      shift := shift + 1;
    }
  }

  function AsInt32(x: U32): int { if x < 0x8000_0000 then x else x - 0x1_0000_0000 }

  lemma WrapRoundTrip(x: int)
    requires -0x8000_0000 <= x < 0x8000_0000
    ensures AsInt32(Wrap(x)) == x
  {}

  lemma ShiftBound(n: nat, k: nat, p: nat)
    requires n > 0 && Scaled(n as real, k) == p as real && p < 0x1_0000_0000_0000_0000
    ensures k <= 76
  {
    Exp2Values();
    Exp2Product(26, 26);
    Exp2Product(52, 24);
    ScaledOrder(1.0, n as real, k);
    if k > 76 { Exp2Less(76, k); Exp2Positive(76); }
  }

  lemma ShiftsBound(a: Bits, b: Bits)
    requires !IsZero(a) && !IsZero(b)
    ensures 0 < Significand(Code(a)) < 0x100_0000 && 0 < Significand(Code(b)) < 0x100_0000
    ensures Raised(Significand(Code(a))).1 <= 76 && Stripped(Significand(Code(b))).1 <= 76
  {
    SignificandPositive(Code(a));
    SignificandPositive(Code(b));
    var m, n := Significand(Code(a)), Significand(Code(b));
    RaisedIs(m);
    StrippedIs(n);
    ShiftBound(m, Raised(m).1, Raised(m).0);
    ShiftBound(Stripped(n).0, Stripped(n).1, n);
  }

  /** internal_float_div past its corner cases. */
  method DivFinite(b: Bits, a: Bits) returns (r: Bits)
    requires !IsZero(a) && !IsZero(b)
    ensures r == FiniteQuotient(a, b)
  {
    hide Raised, Stripped, Stored, Significand, Scale, TruncatedQuotient, Acceptable, Wrap, AsInt32;
    hide Dividend, Divisor, QuotientGrid;
    ShiftsBound(a, b);
    QuotientFields(a, b);
    ScaleOfExponent(a);
    ScaleOfExponent(b);
    var sigA, up := ShiftUp(Significand(Code(a)));
    var sigB, shift := ShiftDown(Significand(Code(b)), up);
    assert sigA == Dividend(a) && sigB == Divisor(b);
    var sig := sigA / sigB;
    QuotientFits(sigA, sigB);
    var expA: int, expB: int := Exponent(a), Exponent(b);
    if expA == 0 { expA := expA + 1; }
    if expB == 0 { expB := expB + 1; }
    var e: int := expA - expB + 127 - (shift as int - 23 - 3);
    var exp: U32 := Wrap(e);
    WrapRoundTrip(e);
    AcceptQuotient(a, b, sig, AsInt32(exp));
    r := InternalNormalize(SignXor(a, b), AsInt32(exp), sig, sig as real, TruncatedQuotient(a, b));
  }

  lemma QuotientFields(a: Bits, b: Bits)
    requires !IsZero(a) && !IsZero(b)
    ensures 0 < Significand(Code(a)) < 0x100_0000 && 0 < Significand(Code(b)) < 0x100_0000
    ensures var (p, i) := Raised(Significand(Code(a)));
            var (d, j) := Stripped(Significand(Code(b)));
            p == Dividend(a) && d == Divisor(b) && QuotientGrid(a, b) == Scale(Code(a)) - Scale(Code(b)) - (i + j)
  {
    SignificandPositive(Code(a));
    SignificandPositive(Code(b));
  }

  lemma ScaleOfExponent(b: Bits)
    ensures Scale(Code(b)) == (if Exponent(b) == 0 then 1 else Exponent(b)) && Exponent(b) <= 0xff
  {}

  lemma AcceptQuotient(a: Bits, b: Bits, sig: U64, exp: int)
    requires !IsZero(a) && !IsZero(b) && sig == Dividend(a) / Divisor(b) && exp == QuotientGrid(a, b) + 153
    ensures Acceptable(exp, sig, sig as real)
    ensures TruncatedQuotient(a, b) == Scaled(sig as real, Reading(exp, sig) - 153)
  {
    TruncatedQuotientIs(a, b);
  }

  lemma QuotientFits(p: nat, d: nat)
    requires p < 0x1_0000_0000_0000_0000 && d > 0
    ensures p / d < 0x1_0000_0000_0000_0000
  {}

  /** a / b */
  method InternalFloatDiv(b: Bits, a: Bits) returns (r: Bits)
    ensures QuotientIs(a, b, r)
  {
    var hit, res := FindCorner(CORNER_DIV, a, b);
    if hit {
      CornerDiv(a, b, res);
      return res;
    }
    DivTableCovers(a, b);
    KnownEncodings(a);
    KnownEncodings(b);
    if a == P_NAN || a == N_NAN || b == P_NAN || b == N_NAN {
      r := if a == P_NAN || b == P_NAN then P_NAN else N_NAN;
      KnownEncodings(r);
    } else if a == P_INF || a == N_INF {
      r := if SignXor(a, b) == 1 then N_INF else P_INF;
    } else if b == P_INF || b == N_INF {
      r := if SignXor(a, b) == 1 then N_ZERO else P_ZERO;
    } else if b == P_ZERO || b == N_ZERO {
      r := if SignXor(a, b) == 1 then N_INF else P_INF;
    } else if a == P_ZERO || a == N_ZERO {
      r := Code(a) + SignXor(a, b) * SIGN;
    } else {
      r := DivFinite(b, a);
    }
  }

  /** 0/0 and infinity over infinity are in the table. */
  lemma DivTableCovers(a: Bits, b: Bits)
    requires forall r: Bits :: Rule(a, b, r) !in CORNER_DIV
    ensures !(IsZero(a) && IsZero(b)) && !(IsInfinite(a) && IsInfinite(b))
  {
    assert Rule(P_ZERO, P_ZERO, N_NAN) in CORNER_DIV && Rule(N_ZERO, P_ZERO, N_NAN) in CORNER_DIV;
    assert Rule(P_ZERO, N_ZERO, N_NAN) in CORNER_DIV && Rule(N_ZERO, N_ZERO, N_NAN) in CORNER_DIV;
    assert Rule(P_INF, P_INF, N_NAN) in CORNER_DIV && Rule(N_INF, P_INF, N_NAN) in CORNER_DIV;
    assert Rule(P_INF, N_INF, N_NAN) in CORNER_DIV && Rule(N_INF, N_INF, N_NAN) in CORNER_DIV;
  }

  // ---------- how far the truncation can carry the result ----------

  lemma {:induction false} GridMultiple(n: int, h: int, g: int) returns (m: int)
    requires h >= g
    ensures Scaled(n as real, h) == Scaled(m as real, g)
    decreases h - g
  {
    if h == g {
      m := n;
    } else {
      m := GridMultiple(2 * n, h - 1, g);
      ScaledHalf(n as real, h);
    }
  }

  /** Truncation to a fine grid keeps the order against every point of a coarser one. */
  lemma TruncationKeepsOrder(x: real, q: nat, g: int, n: int, h: int)
    requires TruncatesTo(x, q, g) && h >= g
    ensures Scaled(n as real, h) <= x <==> Scaled(n as real, h) <= Scaled(q as real, g)
  {
    var m := GridMultiple(n, h, g);
    OrderOnGrid(m, q + 1, g);
    OrderOnGrid(m, q, g);
  }

  lemma OrderOnGrid(m: int, n: int, g: int)
    ensures m < n <==> Scaled(m as real, g) < Scaled(n as real, g)
    ensures m <= n <==> Scaled(m as real, g) <= Scaled(n as real, g)
  {
    ScaledOrder(m as real, n as real, g);
  }

  /** The truncation error is below 2^-16 of the spacing at the quotient. */
  lemma FineGrid(x: real, q: nat, g: int, c: nat)
    requires TruncatesTo(x, q, g) && x < Mag(c + 1)
    ensures g + 16 <= Scale(c) - 150
  {
    Exp2Values();
    ScaledStep(1.0, 26);
    Exp2Product(27, 12);
    Exp2Product(24, 12);
    ScaledOrder(Exp2(39), q as real, g);
    ScaledTwice(1.0, 39, g);
    NextBelow(c);
    if g + 16 > Scale(c) - 150 {
      if 39 + g > 24 + Scale(c) - 150 { Exp2Less(24 + Scale(c) - 150, 39 + g); Exp2Positive(39 + g); }
      assert false;
    }
  }

  lemma NextBelow(c: nat)
    ensures Mag(c + 1) <= Exp2(24 + Scale(c) - 150)
  {
    MagStep(c);
    ScaledSum(Significand(c) as real, 1.0, Scale(c) - 150);
    ScaledOrder((Significand(c) + 1) as real, 16777216.0, Scale(c) - 150);
    Exp2Shifted(Scale(c) - 150);
  }

  // ---------- what the truncated quotient is worth ----------

  /** c is the largest code not above the exact quotient; the truncated one lies in the same gap,
      less than 2^-16 of it lower, and below the midpoint only if the quotient is. */
  lemma SameGap(x: real, q: nat, g: int, c: nat)
    requires TruncatesTo(x, q, g) && Mag(c) <= x < Mag(c + 1)
    ensures Mag(c) <= Scaled(q as real, g) <= x < Mag(c + 1)
    ensures 65536.0 * (x - Scaled(q as real, g)) < Ulp(c)
    ensures 2.0 * x < Mag(c) + Mag(c + 1) <==> 2.0 * Scaled(q as real, g) < Mag(c) + Mag(c + 1)
  {
    FineGrid(x, q, g, c);
    TruncationKeepsOrder(x, q, g, Significand(c), Scale(c) - 150);
    MidpointOnGrid(c);
    TruncationKeepsOrder(x, q, g, 2 * Significand(c) + 1, Scale(c) - 151);
    TruncationError(x, q, g, Scale(c) - 150);
  }

  lemma MidpointOnGrid(c: nat)
    ensures 2.0 * Scaled((2 * Significand(c) + 1) as real, Scale(c) - 151) == Mag(c) + Mag(c + 1)
  {
    var e := Scale(c) - 150;
    ScaledStep((2 * Significand(c) + 1) as real, e - 1);
    ScaledSum((2 * Significand(c)) as real, 1.0, e);
    ScaledSum(Significand(c) as real, Significand(c) as real, e);
    MagStep(c);
  }

  lemma TruncationError(x: real, q: nat, g: int, e: int)
    requires TruncatesTo(x, q, g) && g + 16 <= e
    ensures 65536.0 * (x - Scaled(q as real, g)) < Exp2(e)
  {
    ScaledSum(q as real, 1.0, g);
    Exp2Values();
    Exp2Product(g, 16);
    Exp2Positive(g);
    if g + 16 < e { Exp2Less(g + 16, e); }
  }

  /** The band internal_normalize flushes is the upper half of the gap below 2^-126. */
  lemma FlushedIsUpperHalf(x: real, c: nat)
    requires Mag(c) <= x < Mag(c + 1)
    ensures Flushed(x) <==> c == 0x7f_ffff && 2.0 * x >= Mag(c) + Mag(c + 1)
  {
    SmallestNormal();
    MagStep(0x7f_ffff);
    if c < 0x7f_ffff {
      MagMonotone(c, 0x7f_ffff);
      if c + 1 < 0x7f_ffff { MagMonotone(c + 1, 0x7f_ffff); }
      Exp2Positive(-150);
    }
    if c > 0x7f_ffff { if c > 0x80_0000 { MagMonotone(0x80_0000, c); } }
  }

  lemma OverflowKept(x: real, q: nat, g: int)
    requires TruncatesTo(x, q, g) && x >= Exp2(128)
    ensures Scaled(q as real, g) >= Exp2(128)
  {
    if g <= 128 {
      TruncationKeepsOrder(x, q, g, 1, 128);
    } else {
      ScaledOrder(1.0, q as real, g);
      Exp2Less(128, g);
      Exp2Positive(128);
    }
  }

  lemma InfiniteFrom(x: real)
    requires x >= Exp2(128)
    ensures x >= 0.0 && RoundMag(x) == P_INF && !Flushed(x)
  {
    OverflowBoundIs();
    Exp2Positive(-126);
    Exp2Less(-126, 128);
    RoundMagIs(x, P_INF);
  }

  /** The quotient x and what the program rounds in its place, t = q * 2^g: the same gap between
      codes decides both, except that t may be the midpoint when x lies just above it. */
  lemma TruncatedRounds(x: real, q: nat, g: int)
    requires TruncatesTo(x, q, g) && Scaled(q as real, g) >= 0.0
    ensures var t := Scaled(q as real, g);
            && (Flushed(t) <==> Flushed(x))
            && (RoundMag(t) == RoundMag(x) || RoundMag(t) + 1 == RoundMag(x))
            && (RoundMag(t) + 1 == RoundMag(x) <==> t < x && AtEvenMidpoint(t))
  {
    var t := Scaled(q as real, g);
    TopOfRange();
    if x >= Exp2(128) {
      OverflowKept(x, q, g);
      InfiniteFrom(x);
      InfiniteFrom(t);
      NoMidpointAbove(t);
    } else {
      var c := FloorCode(x, P_INF);
      SameGap(x, q, g, c);
      RoundBetween(x, c);
      RoundBetween(t, c);
      RoundMagIs(x, NearestInGap(x, c));
      RoundMagIs(t, NearestInGap(t, c));
      FlushedIsUpperHalf(x, c);
      FlushedIsUpperHalf(t, c);
      MidpointOf(t, c);
    }
  }

  /** Half-way between an even code and the next. */
  ghost predicate AtEvenMidpoint(t: real) {
    exists c: nat :: c < P_INF && c % 2 == 0 && 2.0 * t == Mag(c) + Mag(c + 1)
  }

  lemma NoMidpointAbove(t: real)
    requires t >= Mag(P_INF)
    ensures !AtEvenMidpoint(t)
  {
    forall c: nat | c < P_INF ensures 2.0 * t != Mag(c) + Mag(c + 1) {
      MagMonotone(c, P_INF);
      if c + 1 < P_INF { MagMonotone(c + 1, P_INF); }
    }
  }

  lemma MidpointOf(t: real, c: nat)
    requires c < P_INF && Mag(c) <= t < Mag(c + 1)
    ensures AtEvenMidpoint(t) <==> c % 2 == 0 && 2.0 * t == Mag(c) + Mag(c + 1)
  {
    forall k: nat | k < P_INF && 2.0 * t == Mag(k) + Mag(k + 1) ensures k == c {
      MagStep(k);
      if k < c && k + 1 < c { MagMonotone(k + 1, c); }
      if k > c && c + 1 < k { MagMonotone(c + 1, k); }
    }
  }

  // ---------- the midpoint, seen in the bits ----------

  /** Of q * 2^g: without its trailing zeros q is one more than a multiple of four, has 25 bits, or
      fewer on the lowest scale, and the bit above its last is the last of a finite code. */
  predicate MidpointBits(q: nat, g: int)
    requires q > 0
  {
    var (m, j) := Stripped(q);
    var e := j + g + 151;
    m % 4 == 1 && m < 0x200_0000 && 1 <= e <= 254 && (e > 1 ==> m > 0x100_0000)
  }

  lemma EvenOnFinerGrid(n: int, h: int, g: int) returns (k: int)
    requires h > g
    ensures Scaled(n as real, h) == Scaled((2 * k) as real, g)
  {
    k := GridMultiple(n, h - 1, g);
    ScaledStep(n as real, h - 1);
    ScaledSum(k as real, k as real, g);
  }

  lemma OddUnique(m: nat, a: int, n: nat, b: int)
    requires m % 2 == 1 && n % 2 == 1 && Scaled(m as real, a) == Scaled(n as real, b)
    ensures a == b && m == n
  {
    if a < b {
      var k := EvenOnFinerGrid(n, b, a);
      OrderOnGrid(m, 2 * k, a);
    } else if b < a {
      var k := EvenOnFinerGrid(m, a, b);
      OrderOnGrid(n, 2 * k, b);
    } else {
      OrderOnGrid(m, n, a);
    }
  }

  lemma MidpointFields(c: nat)
    requires c < P_INF && c % 2 == 0
    ensures var m, e := 2 * Significand(c) + 1, Scale(c);
            m % 4 == 1 && m < 0x200_0000 && 1 <= e <= 254 && (e > 1 ==> m > 0x100_0000)
  {}

  lemma MidpointCode(m: nat, e: nat)
    requires m % 4 == 1 && m < 0x200_0000 && 1 <= e <= 254 && (e > 1 ==> m > 0x100_0000)
    ensures var c := (e - 1) * 0x80_0000 + m / 2;
            c < P_INF && c % 2 == 0 && Scale(c) == e && 2 * Significand(c) + 1 == m
  {}

  lemma MidpointBitsIff(q: nat, g: int)
    requires q > 0
    ensures AtEvenMidpoint(Scaled(q as real, g)) <==> MidpointBits(q, g)
  {
    hide Scale, Significand, Stripped, Mag;
    var (m, j) := Stripped(q);
    var t := Scaled(q as real, g);
    StrippedIs(q);
    ScaledTwice(m as real, j, g);
    assert t == Scaled(m as real, j + g);
    if AtEvenMidpoint(t) {
      var c: nat :| c < P_INF && c % 2 == 0 && 2.0 * t == Mag(c) + Mag(c + 1);
      MidpointOnGrid(c);
      OddUnique(m, j + g, 2 * Significand(c) + 1, Scale(c) - 151);
      MidpointFields(c);
    }
    if MidpointBits(q, g) {
      var e := j + g + 151;
      var c := (e - 1) * 0x80_0000 + m / 2;
      MidpointCode(m, e);
      MidpointOnGrid(c);
      assert 2.0 * t == Mag(c) + Mag(c + 1);
    }
  }

  /** The dropped remainder matters: a test on the integers the program divides. */
  predicate RoundsShort(a: Bits, b: Bits)
    requires !IsZero(a) && !IsZero(b)
  {
    QuotientPositive(Dividend(a), Divisor(b));
    Dividend(a) % Divisor(b) != 0 && MidpointBits(Dividend(a) / Divisor(b), QuotientGrid(a, b))
  }

  lemma QuotientPositive(p: nat, d: nat)
    requires p >= 0x8000_0000_0000_0000 && 0 < d < 0x100_0000
    ensures p / d > 0
  {
    FortyBits(p, d);
  }
}
