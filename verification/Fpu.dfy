/** The software binary32 operations of the emulator's FPU, proved against exact arithmetic. */
module Fpu {
  import opened Binary32
  import opened Rounding
  import opened Normalize
  import opened Words

  datatype Rule = Rule(a: Bits, b: Bits, res: Bits)

  const CORNER_ADD: seq<Rule> := [
    Rule(P_ZERO, P_ZERO, P_ZERO), Rule(N_ZERO, P_ZERO, P_ZERO), Rule(P_ZERO, N_ZERO, P_ZERO),
    Rule(N_ZERO, N_ZERO, N_ZERO), Rule(P_INF, N_INF, N_NAN), Rule(N_INF, P_INF, N_NAN),
    Rule(P_INF, P_NAN, P_NAN), Rule(P_INF, N_NAN, N_NAN), Rule(N_INF, P_NAN, P_NAN),
    Rule(N_INF, N_NAN, N_NAN), Rule(N_NAN, P_NAN, P_NAN)]

  const CORNER_SUB: seq<Rule> := [
    Rule(P_ZERO, P_ZERO, P_ZERO), Rule(N_ZERO, P_ZERO, N_ZERO), Rule(P_ZERO, N_ZERO, P_ZERO),
    Rule(N_ZERO, N_ZERO, P_ZERO), Rule(P_NAN, P_NAN, P_NAN), Rule(N_NAN, P_NAN, P_NAN),
    Rule(P_NAN, N_NAN, P_NAN), Rule(N_NAN, N_NAN, N_NAN)]

  const CORNER_MUL: seq<Rule> := [
    Rule(P_ZERO, P_INF, N_NAN), Rule(P_ZERO, N_INF, N_NAN), Rule(N_ZERO, P_INF, N_NAN),
    Rule(N_ZERO, N_INF, N_NAN), Rule(P_INF, P_ZERO, N_NAN), Rule(P_INF, N_ZERO, N_NAN),
    Rule(N_INF, P_ZERO, N_NAN), Rule(N_INF, N_ZERO, N_NAN)]

  const CORNER_DIV: seq<Rule> := [
    Rule(P_ZERO, P_ZERO, N_NAN), Rule(N_ZERO, P_ZERO, N_NAN), Rule(P_ZERO, N_ZERO, N_NAN),
    Rule(N_ZERO, N_ZERO, N_NAN), Rule(P_INF, P_ZERO, P_INF), Rule(N_INF, P_ZERO, N_INF),
    Rule(P_INF, N_ZERO, N_INF), Rule(N_INF, N_ZERO, P_INF), Rule(P_INF, P_INF, N_NAN),
    Rule(N_INF, P_INF, N_NAN), Rule(P_INF, N_INF, N_NAN), Rule(N_INF, N_INF, N_NAN)]

  /** The scan that opens every operation. */
  method FindCorner(rules: seq<Rule>, a: Bits, b: Bits) returns (hit: bool, res: Bits)
    ensures hit ==> Rule(a, b, res) in rules
    ensures !hit ==> forall r: Bits :: Rule(a, b, r) !in rules
  {
    var i := 0;
    while i < |rules|
      invariant 0 <= i <= |rules|
      invariant forall k :: 0 <= k < i ==> rules[k].a != a || rules[k].b != b
    {
      if a == rules[i].a && b == rules[i].b {
        return true, rules[i].res;
      }
      i := i + 1;
    }
    return false, P_ZERO;
  }

  // ---------- addition ----------

  /** The sum of two finite operands: exact, rounded to nearest even; an exact zero is +0 unless
      both operands are -0 (IEEE 754-2008, sections 4.3.1, 5.4.1, 6.3 and 7.4). */
  ghost function FiniteSum(a: Bits, b: Bits): Bits
    requires IsFinite(a) && IsFinite(b)
  {
    if a == N_ZERO && b == N_ZERO then N_ZERO else Round(Value(a) + Value(b))
  }

  /** Section 6 of the standard, for the encodings of infinity and NaN the program knows. */
  ghost predicate SpecialSum(a: Bits, b: Bits, r: Bits) {
    if OtherNaN(a) || (OtherNaN(b) && !IsFinite(a)) then r == a
    else if OtherNaN(b) then r == b
    else if IsNaN(a) || IsNaN(b) || (IsInfinite(a) && IsInfinite(b) && a != b) then r == NaNOf(a, b)
    else if IsInfinite(a) then r == a
    else r == b
  }

  ghost predicate SumIs(a: Bits, b: Bits, r: Bits) {
    if IsFinite(a) && IsFinite(b) then r == FiniteSum(a, b) else SpecialSum(a, b, r)
  }

  /** The significand of code m has moved k places to the right, through guard, round and sticky. */
  ghost predicate Aligned(m: nat, k: nat, n: nat, s: real) {
    && s >= 0.0
    && RoundedToOdd(s, n)
    && Scaled(s, Scale(m) + k - 153) == Mag(m)
    && (k == 0 ==> n == 8 * Significand(m))
    && (k == 1 ==> n % 4 == 0 && n < 0x400_0000)
    && (k == 2 ==> n % 2 == 0 && n < 0x200_0000)
    && (k == 3 ==> n < 0x100_0000)
    && (k <= 3 ==> s == n as real)
    && (k >= 4 ==> n <= 0x80_0000)
  }

  lemma AlignStart(m: nat)
    ensures Aligned(m, 0, 8 * Significand(m), (8 * Significand(m)) as real)
  {
    ScaledEighth((8 * Significand(m)) as real, Scale(m) - 153);
    assert Scale(m) - 153 + 3 == Scale(m) - 150;
  }

  lemma AlignOnce(m: nat, k: nat, n: nat, s: real)
    requires Aligned(m, k, n, s)
    ensures Aligned(m, k + 1, Jam(n), s / 2.0)
  {
    hide RoundedToOdd, Jam, Mag, Scale, Significand;
    JamHalves(s, n);
    ScaledHalf(s, Scale(m) + k - 153);
    assert Scale(m) + k - 153 + 1 == Scale(m) + (k + 1) - 153;
    JamIs(n);
    JamRange(k, n, Significand(m));
    if k < 3 { HalfAsReal(n, n / 2); }
  }

  /** The low bits left after each of the first places. */
  lemma JamRange(k: nat, n: nat, sig: nat)
    requires sig < 0x100_0000 && (k == 0 ==> n == 8 * sig) && (k == 1 ==> n % 4 == 0 && n < 0x400_0000)
    requires (k == 2 ==> n % 2 == 0 && n < 0x200_0000) && (k == 3 ==> n < 0x100_0000) && (k >= 4 ==> n <= 0x80_0000)
    ensures k == 0 ==> n % 2 == 0 && (n / 2) % 4 == 0 && n / 2 < 0x400_0000
    ensures k == 1 ==> n % 2 == 0 && (n / 2) % 2 == 0 && n / 2 < 0x200_0000
    ensures k == 2 ==> n % 2 == 0 && n / 2 < 0x100_0000
    ensures k >= 3 ==> Jam(n) <= 0x80_0000
  {
    if k == 0 {
      assert n / 2 == 4 * sig;
    } else if k == 1 {
      var q := n / 4;
      assert n == 4 * q && n / 2 == 2 * q;
    } else if k >= 3 {
      JamIs(n);
      hide Jam;
    }
  }

  lemma HalfAsReal(n: nat, h: nat)
    requires n == 2 * h
    ensures n as real / 2.0 == h as real
  {}

  /** The alignment loop; once a one has been shifted out, every later low bit is one. */
  method AlignRight(m: nat, shiftIn: nat) returns (sig: U32, ghost s: real)
    ensures Aligned(m, shiftIn, sig, s)
  {
    AlignStart(m);
    sig := 8 * Significand(m);
    s := sig as real;
    var shift, sticky := shiftIn, 0;
    while shift > 0
      invariant 0 <= shift <= shiftIn
      invariant Aligned(m, shiftIn - shift, sig, s)
      invariant sticky == 0 || (sticky == 1 && sig % 2 == 1)
    {
      AlignOnce(m, shiftIn - shift, sig, s);
      ghost var before := sig;
      shift := shift - 1;
      sticky := if sig % 2 == 1 then 1 else sticky;
      sig := sig / 2;
      sig := if sticky == 1 && sig % 2 == 0 then sig + 1 else sig;
      assert sig == Jam(before);
      s := s / 2.0;
    }
  }

  function Signed(negative: bool, n: nat): int { if negative then -(n as int) else n }
  ghost function SignedReal(negative: bool, s: real): real { if negative then -s else s }
  /** Addition of uint32_t, modulo 2^32. */
  function Add32(x: U32, y: U32): U32 { if x + y < 0x1_0000_0000 then x + y else x + y - 0x1_0000_0000 }
  ghost function Abs(x: real): real { if x < 0.0 then -x else x }

  /** n, exact or with its top bits in place, stands for the sum of a and b on the scale of b. */
  ghost predicate StandsForSum(a: Bits, b: Bits, n: int, t: real)
    requires IsFinite(a) && IsFinite(b)
  {
    && RoundedToOdd(t, n)
    && Scaled(t, Scale(Code(b)) - 153) == Value(a) + Value(b)
    && (t == n as real || n >= 0x200_0000 || n <= -0x200_0000)
    && (Code(b) < 0x80_0000 ==> -0x800_0000 < n < 0x800_0000)
  }

  lemma AlignedRange(a: Bits, b: Bits, n: nat, s: real)
    requires IsFinite(a) && IsFinite(b) && Exponent(a) <= Exponent(b)
    requires Aligned(Code(a), Scale(Code(b)) - Scale(Code(a)), n, s)
    ensures RoundedToOdd(s, n) && Scaled(s, Scale(Code(b)) - 153) == Mag(Code(a))
    ensures n < 0x800_0000 && 8 * Significand(Code(b)) < 0x800_0000
    ensures s == n as real || (n <= 0x80_0000 && 8 * Significand(Code(b)) >= 0x400_0000)
    ensures Code(b) < 0x80_0000 ==> n < 0x400_0000 && 8 * Significand(Code(b)) < 0x400_0000
  {
    var k := Scale(Code(b)) - Scale(Code(a));
    assert Scale(Code(a)) + k - 153 == Scale(Code(b)) - 153;
  }

  lemma AlignedSumExact(a: Bits, b: Bits, na: nat, sa: real, nb: nat)
    requires IsFinite(a) && IsFinite(b) && Exponent(a) <= Exponent(b) && nb == 8 * Significand(Code(b))
    requires Aligned(Code(a), Scale(Code(b)) - Scale(Code(a)), na, sa)
    ensures var t := SignedReal(Negative(a), sa) + SignedReal(Negative(b), nb as real);
            && RoundedToOdd(t, Signed(Negative(a), na) + Signed(Negative(b), nb))
            && Scaled(t, Scale(Code(b)) - 153) == Value(a) + Value(b)
  {
    hide *;
    SmallerOnScale(a, b, na, sa);
    LargerOnScale(b, nb);
    AddOnScale(a, b, na, sa, nb, Scale(Code(b)) - 153);
  }

  lemma SmallerOnScale(a: Bits, b: Bits, na: nat, sa: real)
    requires IsFinite(a) && IsFinite(b) && Exponent(a) <= Exponent(b)
    requires Aligned(Code(a), Scale(Code(b)) - Scale(Code(a)), na, sa)
    ensures RoundedToOdd(sa, na) && Scaled(sa, Scale(Code(b)) - 153) == Mag(Code(a))
  {
    AlignedRange(a, b, na, sa);
  }

  lemma LargerOnScale(b: Bits, nb: nat)
    requires nb == 8 * Significand(Code(b))
    ensures nb % 2 == 0 && Scaled(nb as real, Scale(Code(b)) - 153) == Mag(Code(b))
  {
    hide *;
    EightTimesEven(Significand(Code(b)));
    EightTimes(Significand(Code(b)), nb, Scale(Code(b)) - 153);
    MagIs(Code(b));
  }

  lemma EightTimes(n: nat, m: nat, e: int)
    requires m == 8 * n
    ensures Scaled(m as real, e) == Scaled(n as real, e + 3)
  {
    EighthAsReal(n, m);
    ScaledEighth(m as real, e);
  }

  lemma EighthAsReal(n: nat, m: nat)
    requires m == 8 * n
    ensures m as real / 8.0 == n as real
  {}

  lemma EightTimesEven(n: nat)
    ensures (8 * n) % 2 == 0
  {}

  lemma MagIs(m: nat)
    ensures Mag(m) == Scaled(Significand(m) as real, Scale(m) - 150)
  {}

  lemma AlignedSumRange(a: Bits, b: Bits, na: nat, sa: real, nb: nat)
    requires IsFinite(a) && IsFinite(b) && Exponent(a) <= Exponent(b) && nb == 8 * Significand(Code(b))
    requires Aligned(Code(a), Scale(Code(b)) - Scale(Code(a)), na, sa)
    ensures var n := Signed(Negative(a), na) + Signed(Negative(b), nb);
            && (SignedReal(Negative(a), sa) + SignedReal(Negative(b), nb as real) == n as real
                || n >= 0x200_0000 || n <= -0x200_0000)
            && (Code(b) < 0x80_0000 ==> -0x800_0000 < n < 0x800_0000)
  {
    hide Aligned, Value, Signed, SignedReal, Mag, Scale, Significand, Exponent, RoundedToOdd;
    AlignedRange(a, b, na, sa);
    SignedParts(Negative(a), na, sa, Negative(b), nb);
  }

  /** What the two aligned significands stand for, added as integers. */
  lemma AlignedSum(a: Bits, b: Bits, na: nat, sa: real)
    requires IsFinite(a) && IsFinite(b) && Exponent(a) <= Exponent(b)
    requires Aligned(Code(a), Scale(Code(b)) - Scale(Code(a)), na, sa)
    ensures var nb := 8 * Significand(Code(b));
            StandsForSum(a, b, Signed(Negative(a), na) + Signed(Negative(b), nb),
                         SignedReal(Negative(a), sa) + SignedReal(Negative(b), nb as real))
  {
    hide Aligned, Value, Signed, SignedReal, Mag, Scale, Significand, Exponent, RoundedToOdd;
    AlignedSumExact(a, b, na, sa, 8 * Significand(Code(b)));
    AlignedSumRange(a, b, na, sa, 8 * Significand(Code(b)));
  }

  lemma SignedParts(p: bool, na: nat, sa: real, q: bool, nb: nat)
    ensures sa == na as real ==>
              SignedReal(p, sa) + SignedReal(q, nb as real) == (Signed(p, na) + Signed(q, nb)) as real
    ensures na <= 0x80_0000 && nb >= 0x400_0000
            ==> Signed(p, na) + Signed(q, nb) >= 0x200_0000 || Signed(p, na) + Signed(q, nb) <= -0x200_0000
    ensures na < 0x400_0000 && nb < 0x400_0000 ==> -0x800_0000 < Signed(p, na) + Signed(q, nb) < 0x800_0000
  {}

  lemma AddOnScale(a: Bits, b: Bits, na: nat, sa: real, nb: nat, e: int)
    requires IsFinite(a) && IsFinite(b) && nb % 2 == 0
    requires RoundedToOdd(sa, na) && Scaled(sa, e) == Mag(Code(a)) && Scaled(nb as real, e) == Mag(Code(b))
    ensures var t := SignedReal(Negative(a), sa) + SignedReal(Negative(b), nb as real);
            && RoundedToOdd(t, Signed(Negative(a), na) + Signed(Negative(b), nb))
            && Scaled(t, e) == Value(a) + Value(b)
  {
    SignedOdd(Negative(a), sa, na, e);
    SignedOdd(Negative(b), nb as real, nb, e);
    SignedEven(SignedReal(Negative(a), sa), Signed(Negative(a), na), Negative(b), nb);
    ScaledSum(SignedReal(Negative(a), sa), SignedReal(Negative(b), nb as real), e);
  }

  lemma SignedEven(s: real, n: int, negative: bool, c: nat)
    requires RoundedToOdd(s, n) && c % 2 == 0
    ensures RoundedToOdd(s + SignedReal(negative, c as real), n + Signed(negative, c))
  {
    OddPlusEven(s, n, Signed(negative, c));
  }

  lemma SignedOdd(negative: bool, s: real, n: nat, e: int)
    requires RoundedToOdd(s, n)
    ensures RoundedToOdd(SignedReal(negative, s), Signed(negative, n))
    ensures Scaled(SignedReal(negative, s), e) == SignedReal(negative, Scaled(s, e))
  {
    OddNegate(s, n);
    ScaledNegate(s, e);
  }

  function AbsInt(n: int): nat { if n < 0 then -n else n }

  /** The signed sum is one internal_normalize accepts, read on the scale of b. */
  lemma AcceptSum(a: Bits, b: Bits, n: int, t: real)
    requires IsFinite(a) && IsFinite(b) && Exponent(a) <= Exponent(b)
    requires StandsForSum(a, b, n, t) && -0x1000_0000 < n < 0x1000_0000
    ensures Acceptable(Exponent(b), AbsInt(n), Abs(t))
    ensures Scaled(Abs(t), Reading(Exponent(b), AbsInt(n)) - 153) == Abs(Value(a) + Value(b))
    ensures n < 0 <==> Value(a) + Value(b) < 0.0
  {
    OddNegate(t, n);
    ScaledSign(t, Scale(Code(b)) - 153);
    ScaledNegate(t, Scale(Code(b)) - 153);
    assert Reading(Exponent(b), AbsInt(n)) == Scale(Code(b));
  }

  /** Two's complement on 32 bits: the wrapped sum of signed operands, its sign and magnitude. */
  lemma WrappedSum(p: bool, x: U32, q: bool, y: U32)
    requires x < 0x800_0000 && y < 0x800_0000
    ensures var n := Signed(p, x) + Signed(q, y);
            var sig := Add32(if p then Negate32(x) else x, if q then Negate32(y) else y);
            && -0x1000_0000 < n < 0x1000_0000
            && (sig / 0x8000_0000 == 1 <==> n < 0)
            && AbsInt(n) == if n < 0 then Negate32(sig) else sig
  {}

  // ---------- every number of the format is a multiple of 2^-149 ----------

  lemma {:induction false} ScaledInteger(n: nat, k: nat) returns (q: nat)
    ensures Scaled(n as real, k) == q as real
  {
    if k == 0 {
      q := n;
    } else {
      q := ScaledInteger(n, k - 1);
      ScaledStep(n as real, k - 1);
      q := 2 * q;
    }
  }

  lemma MagGrid(m: nat) returns (q: nat)
    ensures Mag(m) == Scaled(q as real, -149)
  {
    q := ScaledInteger(Significand(m), Scale(m) - 1);
    ScaledTwice(Significand(m) as real, Scale(m) - 1, -149);
  }

  lemma ValueGrid(b: Bits) returns (q: int)
    requires IsFinite(b)
    ensures Value(b) == Scaled(q as real, -149)
  {
    q := MagGrid(Code(b));
    ScaledNegate(q as real, -149);
    if Negative(b) { q := -q; }
  }

  lemma GridNotFlushed(q: int)
    ensures !Flushed(Scaled(q as real, -149))
  {
    ScaledEighth((8 * q) as real, -152);
    FlushedPoints((8 * q) as real, 1);
  }

  /** Sums never fall into the band that internal_normalize stores wrongly. */
  lemma SumNotFlushed(a: Bits, b: Bits)
    requires IsFinite(a) && IsFinite(b)
    ensures !Flushed(Abs(Value(a) + Value(b)))
  {
    var p := ValueGrid(a);
    var q := ValueGrid(b);
    ScaledSum(p as real, q as real, -149);
    if Value(a) + Value(b) < 0.0 {
      ScaledNegate((p + q) as real, -149);
      GridNotFlushed(-(p + q));
    } else {
      GridNotFlushed(p + q);
    }
  }

  lemma FiniteSumStored(a: Bits, b: Bits, sgn: nat)
    requires IsFinite(a) && IsFinite(b) && !(IsZero(a) && IsZero(b)) && sgn <= 1
    requires sgn == 1 <==> Value(a) + Value(b) < 0.0
    ensures WithSign(sgn, Stored(Abs(Value(a) + Value(b)))) == FiniteSum(a, b)
  {
    SumNotFlushed(a, b);
  }

  function WrappedSignedSum(p: bool, x: U32, q: bool, y: U32): U32 {
    Add32(if p then Negate32(x) else x, if q then Negate32(y) else y)
  }

  /** From the aligned significands to the arguments of internal_normalize. */
  lemma SumArguments(a: Bits, b: Bits, na: U32, sa: real) returns (t: real)
    requires IsFinite(a) && IsFinite(b) && Exponent(a) <= Exponent(b)
    requires Aligned(Code(a), Scale(Code(b)) - Scale(Code(a)), na, sa)
    ensures 8 * Significand(Code(b)) < 0x800_0000
    ensures var sig := WrappedSignedSum(Negative(a), na, Negative(b), 8 * Significand(Code(b)));
            var mag := if sig / 0x8000_0000 == 1 then Negate32(sig) else sig;
            && (sig / 0x8000_0000 == 1 <==> Value(a) + Value(b) < 0.0)
            && Acceptable(Exponent(b), mag, t)
            && Scaled(t, Reading(Exponent(b), mag) - 153) == Abs(Value(a) + Value(b))
  {
    hide Aligned, RoundedToOdd, Value, StandsForSum, Acceptable, Mag, Scale, Significand, Exponent;
    var nb := 8 * Significand(Code(b));
    AlignedRange(a, b, na, sa);
    AlignedSum(a, b, na, sa);
    WrappedSum(Negative(a), na, Negative(b), nb);
    t := SignedReal(Negative(a), sa) + SignedReal(Negative(b), nb as real);
    AcceptSum(a, b, Signed(Negative(a), na) + Signed(Negative(b), nb), t);
    t := Abs(t);
  }

  lemma ShiftIsScaleGap(a: Bits, b: Bits)
    requires Exponent(a) <= Exponent(b)
    ensures var shift := Exponent(b) - Exponent(a);
            Scale(Code(b)) - Scale(Code(a)) == if shift > 0 && Exponent(a) == 0 then shift - 1 else shift
  {}

  /** internal_float_add once the operand with the smaller exponent field is the first. */
  method AddOrdered(fb: Bits, fa: Bits) returns (r: Bits)
    requires IsFinite(fa) && IsFinite(fb) && !(IsZero(fa) && IsZero(fb)) && Exponent(fa) <= Exponent(fb)
    ensures r == FiniteSum(fa, fb)
  {
    ShiftIsScaleGap(fa, fb);
    var shift: nat := Exponent(fb) - Exponent(fa);
    if shift > 0 && Exponent(fa) == 0 { shift := shift - 1; }
    var sigA, s := AlignRight(Code(fa), shift);
    ghost var t := SumArguments(fa, fb, sigA, s);
    var sig := WrappedSignedSum(Negative(fa), sigA, Negative(fb), 8 * Significand(Code(fb)));
    var sgn := 0;
    if sig / 0x8000_0000 == 1 { sgn, sig := 1, Negate32(sig); }
    r := InternalNormalize(sgn, Exponent(fb), sig, t, Abs(Value(fa) + Value(fb)));
    FiniteSumStored(fa, fb, sgn);
  }

  lemma CornerAddRows(a: Bits, b: Bits, res: Bits)
    requires Rule(a, b, res) in CORNER_ADD
    ensures if IsZero(a) then IsZero(b) && res == (if a == N_ZERO && b == N_ZERO then N_ZERO else P_ZERO)
            else !IsFinite(a) && SpecialSum(a, b, res)
  {}

  lemma CornerAdd(a: Bits, b: Bits, res: Bits)
    requires Rule(a, b, res) in CORNER_ADD
    ensures SumIs(a, b, res)
  {
    CornerAddRows(a, b, res);
    if IsZero(a) {
      MagZero();
      RoundOfValue(P_ZERO);
    }
  }

  lemma AddZero(a: Bits, b: Bits)
    requires IsZero(a) && IsFinite(b) && !IsZero(b)
    ensures FiniteSum(a, b) == b && FiniteSum(b, a) == b
  {
    MagZero();
    RoundOfValue(b);
  }

  /** a + b.  The parameters come in the program's order. */
  method InternalFloatAdd(b: Bits, a: Bits) returns (r: Bits)
    ensures SumIs(a, b, r)
  {
    var hit, res := FindCorner(CORNER_ADD, a, b);
    if hit {
      CornerAdd(a, b, res);
      return res;
    }
    AddTableCovers();
    if IsZero(a) {
      if IsFinite(b) { AddZero(a, b); }
      return b;
    }
    if IsZero(b) {
      if IsFinite(a) { AddZero(b, a); }
      return a;
    }
    if Exponent(a) == 0xff { return a; }
    if Exponent(b) == 0xff { return b; }
    if Exponent(a) > Exponent(b) {
      r := AddOrdered(a, b);
    } else {
      r := AddOrdered(b, a);
    }
  }

  /** The rows the code below the scan relies on. */
  lemma AddTableCovers()
    ensures Rule(P_ZERO, P_ZERO, P_ZERO) in CORNER_ADD && Rule(P_ZERO, N_ZERO, P_ZERO) in CORNER_ADD
    ensures Rule(N_ZERO, P_ZERO, P_ZERO) in CORNER_ADD && Rule(N_ZERO, N_ZERO, N_ZERO) in CORNER_ADD
    ensures Rule(P_INF, N_INF, N_NAN) in CORNER_ADD && Rule(N_INF, P_INF, N_NAN) in CORNER_ADD
    ensures Rule(P_INF, P_NAN, P_NAN) in CORNER_ADD && Rule(P_INF, N_NAN, N_NAN) in CORNER_ADD
    ensures Rule(N_INF, P_NAN, P_NAN) in CORNER_ADD && Rule(N_INF, N_NAN, N_NAN) in CORNER_ADD
  {
    assert CORNER_ADD[0] == Rule(P_ZERO, P_ZERO, P_ZERO) && CORNER_ADD[1] == Rule(N_ZERO, P_ZERO, P_ZERO);
  }

  // ---------- subtraction ----------

  function Flip(b: Bits): Bits { if Negative(b) then b - SIGN else b + SIGN }

  lemma FlipValue(b: Bits)
    ensures Code(Flip(b)) == Code(b)
    ensures IsFinite(b) ==> IsFinite(Flip(b)) && Value(Flip(b)) == -Value(b)
  {}

  /** The difference: exact, rounded to nearest even; an exact zero is +0 except for -0 - +0. */
  ghost function FiniteDifference(a: Bits, b: Bits): Bits
    requires IsFinite(a) && IsFinite(b)
  {
    if a == N_ZERO && b == P_ZERO then N_ZERO else Round(Value(a) - Value(b))
  }

  ghost predicate DifferenceIs(a: Bits, b: Bits, r: Bits) {
    if IsFinite(a) && IsFinite(b) then r == FiniteDifference(a, b)
    else if KnownNaN(a) || KnownNaN(b) || (IsInfinite(a) && a == b) then r == NaNOf(a, b)
    else if OtherNaN(a) then r == a
    else if IsInfinite(a) then r == a
    else r == Flip(b)
  }

  lemma CornerSubRows(a: Bits, b: Bits, res: Bits)
    requires Rule(a, b, res) in CORNER_SUB
    ensures if IsZero(a) then IsZero(b) && res == (if a == N_ZERO && b == P_ZERO then N_ZERO else P_ZERO)
            else IsNaN(a) && IsNaN(b) && res == NaNOf(a, b)
  {}

  lemma CornerSub(a: Bits, b: Bits, res: Bits)
    requires Rule(a, b, res) in CORNER_SUB
    ensures DifferenceIs(a, b, res)
  {
    CornerSubRows(a, b, res);
    if IsZero(a) {
      MagZero();
      RoundOfValue(P_ZERO);
    }
  }

  lemma SumOfFlipped(a: Bits, b: Bits, r: Bits)
    requires SumIs(a, Flip(b), r) && !KnownNaN(a) && !KnownNaN(b)
    ensures DifferenceIs(a, b, r)
  {
    FlipValue(b);
  }

  /** a - b */
  method InternalFloatSub(b: Bits, a: Bits) returns (r: Bits)
    ensures DifferenceIs(a, b, r)
  {
    var hit, res := FindCorner(CORNER_SUB, a, b);
    if hit {
      CornerSub(a, b, res);
      return res;
    }
    if a == P_NAN || a == N_NAN { return a; }
    if b == P_NAN || b == N_NAN { return b; }
    FlipValue(b);
    r := InternalFloatAdd(Flip(b), a);
    SumOfFlipped(a, b, r);
  }
}
