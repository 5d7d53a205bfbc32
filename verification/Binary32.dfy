/** The binary32 format and its rounding, stated over exact real numbers (IEEE 754-2008,
    sections 3.4 and 4.3.1).  Nothing here follows the program: the rounding of a real is
    the nearest member of the format, found by no algorithm. */
module Binary32 {
  import opened Words

  type Bits = U32

  const SIGN: int := 0x8000_0000
  const P_ZERO: Bits := 0x0
  const N_ZERO: Bits := 0x8000_0000
  const P_INF: Bits := 0x7f80_0000
  const N_INF: Bits := 0xff80_0000
  const P_NAN: Bits := 0x7fc0_0000
  const N_NAN: Bits := 0xffc0_0000

  // ---------- scaling by powers of two ----------

  /** r is s * 2^k. */
  ghost predicate IsScaled(s: real, k: int, r: real)
    decreases if k < 0 then -k else k
  {
    if k == 0 then r == s
    else if k > 0 then IsScaled(s, k - 1, r / 2.0)
    else IsScaled(s, k + 1, 2.0 * r)
  }

  lemma {:induction false} ScaledExists(s: real, k: int) returns (r: real)
    ensures IsScaled(s, k, r)
    decreases if k < 0 then -k else k
  {
    if k == 0 {
      r := s;
    } else if k > 0 {
      r := ScaledExists(s, k - 1);
      r := 2.0 * r;
    } else {
      r := ScaledExists(s, k + 1);
      r := r / 2.0;
    }
  }

  lemma {:induction false} ScaledUnique(s: real, k: int, r: real, t: real)
    requires IsScaled(s, k, r) && IsScaled(s, k, t)
    ensures r == t
    decreases if k < 0 then -k else k
  {
    if k > 0 { ScaledUnique(s, k - 1, r / 2.0, t / 2.0); } else if k < 0 { ScaledUnique(s, k + 1, 2.0 * r, 2.0 * t); }
  }

  lemma ScaledDefined(s: real, k: int)
    ensures exists r :: IsScaled(s, k, r)
  {
    var r := ScaledExists(s, k);
  }

  /** s * 2^k, chosen by that property, so that proofs meet it only through the lemmas below. */
  ghost function Scaled(s: real, k: int): (r: real)
  {
    ScaledDefined(s, k);
    var r :| IsScaled(s, k, r);
    r
  }

  ghost function Exp2(k: int): real { Scaled(1.0, k) }

  lemma ScaledZero(s: real)
    ensures Scaled(s, 0) == s
  {}

  lemma ScaledStep(s: real, k: int)
    ensures Scaled(s, k + 1) == 2.0 * Scaled(s, k)
  {
    if k >= 0 {
      ScaledUnique(s, k, Scaled(s, k), Scaled(s, k + 1) / 2.0);
    } else {
      ScaledUnique(s, k + 1, Scaled(s, k + 1), 2.0 * Scaled(s, k));
    }
  }

  /** Scaling is multiplication by 2^k ... */
  lemma {:induction false} ScaledIsProduct(s: real, k: int)
    ensures Scaled(s, k) == s * Exp2(k)
    decreases if k < 0 then -k else k
  {
    if k > 0 {
      ScaledIsProduct(s, k - 1);
      ScaledStep(s, k - 1);
      ScaledStep(1.0, k - 1);
    } else if k < 0 {
      ScaledIsProduct(s, k + 1);
      ScaledStep(s, k);
      ScaledStep(1.0, k);
    }
  }

  /** ... so it is linear, ... */
  lemma {:induction false} ScaledSum(s: real, t: real, k: int)
    ensures Scaled(s + t, k) == Scaled(s, k) + Scaled(t, k)
    decreases if k < 0 then -k else k
  {
    if k > 0 {
      ScaledSum(s, t, k - 1);
      ScaledStep(s, k - 1); ScaledStep(t, k - 1); ScaledStep(s + t, k - 1);
    } else if k < 0 {
      ScaledSum(s, t, k + 1);
      ScaledStep(s, k); ScaledStep(t, k); ScaledStep(s + t, k);
    }
  }

  lemma ScaledNegate(s: real, k: int)
    ensures Scaled(0.0, k) == 0.0 && Scaled(-s, k) == -Scaled(s, k)
  {
    ScaledSum(0.0, 0.0, k);
    ScaledSum(s, -s, k);
  }

  /** ... and keeps the order. */
  lemma {:induction false} ScaledOrder(s: real, t: real, k: int)
    ensures s < t <==> Scaled(s, k) < Scaled(t, k)
    ensures s == t <==> Scaled(s, k) == Scaled(t, k)
    decreases if k < 0 then -k else k
  {
    if k > 0 {
      ScaledOrder(s, t, k - 1);
      ScaledStep(s, k - 1); ScaledStep(t, k - 1);
    } else if k < 0 {
      ScaledOrder(s, t, k + 1);
      ScaledStep(s, k); ScaledStep(t, k);
    }
  }

  lemma ScaledSign(s: real, k: int)
    ensures s < 0.0 <==> Scaled(s, k) < 0.0
    ensures s == 0.0 <==> Scaled(s, k) == 0.0
  {
    ScaledOrder(s, 0.0, k);
    ScaledNegate(s, k);
  }

  lemma Exp2Positive(k: int)
    ensures Exp2(k) > 0.0
  {
    ScaledSign(1.0, k);
  }

  lemma ScaledHalf(s: real, k: int)
    ensures Scaled(s / 2.0, k + 1) == Scaled(s, k)
    ensures Scaled(2.0 * s, k - 1) == Scaled(s, k)
  {
    ScaledStep(s / 2.0, k);
    ScaledSum(s / 2.0, s / 2.0, k);
    ScaledStep(2.0 * s, k - 1);
    ScaledSum(s, s, k);
  }

  lemma ScaledEighth(s: real, k: int)
    ensures Scaled(s / 8.0, k + 3) == Scaled(s, k)
  {
    ScaledHalf(s, k);
    ScaledHalf(s / 2.0, k + 1);
    ScaledHalf(s / 2.0 / 2.0, k + 2);
  }

  lemma {:induction false} ScaledTwice(s: real, j: int, k: int)
    ensures Scaled(Scaled(s, j), k) == Scaled(s, j + k)
    decreases if k < 0 then -k else k
  {
    if k > 0 {
      ScaledTwice(s, j, k - 1);
      ScaledStep(Scaled(s, j), k - 1);
      ScaledStep(s, j + k - 1);
    } else if k < 0 {
      ScaledTwice(s, j, k + 1);
      ScaledStep(Scaled(s, j), k);
      ScaledStep(s, j + k);
    }
  }

  lemma {:induction false} Exp2Less(j: int, k: int)
    requires j < k
    ensures 2.0 * Exp2(j) <= Exp2(k)
    decreases k - j
  {
    ScaledStep(1.0, k - 1);
    Exp2Positive(k - 1);
    if j < k - 1 { Exp2Less(j, k - 1); }
  }

  lemma Exp2Product(j: int, k: int)
    ensures Exp2(j + k) == Exp2(j) * Exp2(k)
  {
    ScaledTwice(1.0, j, k);
    ScaledIsProduct(Exp2(j), k);
  }

  /** The powers the format's constants need. */
  lemma Exp2Values()
    ensures Exp2(12) == 4096.0 && Exp2(16) == 65536.0
    ensures Exp2(24) == 16777216.0 && Exp2(26) == 67108864.0
  {
    ScaledStep(1.0, 0); ScaledStep(1.0, 1);
    Exp2Product(2, 2);
    Exp2Product(4, 4);
    Exp2Product(4, 8);
    Exp2Product(8, 8);
    Exp2Product(8, 16);
    ScaledStep(1.0, 24); ScaledStep(1.0, 25);
  }

  /** 2^k for constants: the integer 2^24 or 2^26 scaled. */
  lemma Exp2Shifted(k: int)
    ensures Scaled(16777216.0, k) == Exp2(k + 24) && Scaled(67108864.0, k) == Exp2(k + 26)
  {
    Exp2Values();
    ScaledTwice(1.0, 24, k);
    ScaledTwice(1.0, 26, k);
  }

  // ---------- the format ----------

  /** The 31 bits below the sign. */
  function Code(b: Bits): nat { if b >= SIGN then b - SIGN else b }
  predicate Negative(b: Bits) { b >= SIGN }
  function SignBit(b: Bits): nat { if Negative(b) then 1 else 0 }
  function Exponent(b: Bits): nat { Code(b) / 0x80_0000 }
  function Fraction(b: Bits): nat { Code(b) % 0x80_0000 }

  predicate IsFinite(b: Bits) { Code(b) < P_INF }
  predicate IsInfinite(b: Bits) { Code(b) == P_INF }
  predicate IsNaN(b: Bits) { Code(b) > P_INF }
  predicate IsZero(b: Bits) { Code(b) == 0 }

  /** The two NaN encodings the operations recognise and return. */
  predicate KnownNaN(b: Bits) { b == P_NAN || b == N_NAN }

  /** A NaN of another payload, which the operations do not recognise. */
  predicate OtherNaN(b: Bits) { IsNaN(b) && !KnownNaN(b) }

  /** What multiplication and division take for a number: a NaN of another payload has exponent 255. */
  predicate Numeric(b: Bits) { IsFinite(b) || OtherNaN(b) }

  /** The NaN every operation answers with: the positive one if an operand is, else the negative. */
  function NaNOf(a: Bits, b: Bits): Bits { if a == P_NAN || b == P_NAN then P_NAN else N_NAN }

  lemma KnownEncodings(b: Bits)
    ensures IsNaN(b) <==> Exponent(b) == 0xff && Fraction(b) != 0
    ensures IsNaN(b) <==> KnownNaN(b) || OtherNaN(b)
    ensures IsInfinite(b) <==> b == P_INF || b == N_INF
    ensures IsZero(b) <==> b == P_ZERO || b == N_ZERO
    ensures IsFinite(b) <==> !IsNaN(b) && !IsInfinite(b)
  {}

  /** Exponent field and integer significand of a code; field 0 names the scale of field 1. */
  function Scale(m: nat): (e: nat)
    ensures e >= 1
  {
    if m < 0x80_0000 then 1 else m / 0x80_0000
  }

  function Significand(m: nat): (s: nat)
    ensures s < 0x100_0000
    ensures m >= 0x80_0000 ==> s >= 0x80_0000
    ensures s == m - (Scale(m) - 1) * 0x80_0000
  {
    if m < 0x80_0000 then m else 0x80_0000 + m % 0x80_0000
  }

  /** The magnitude a code names; for the code of infinity, the next power of two. */
  ghost function Mag(m: nat): (r: real)
    ensures r >= 0.0
  {
    ScaledSign(Significand(m) as real, Scale(m) - 150);
    Scaled(Significand(m) as real, Scale(m) - 150)
  }

  ghost function Ulp(m: nat): real { Exp2(Scale(m) - 150) }

  ghost function Value(b: Bits): real
    requires IsFinite(b)
  {
    if Negative(b) then -Mag(Code(b)) else Mag(Code(b))
  }

  ghost predicate Representable(x: real) {
    exists b: Bits :: IsFinite(b) && Value(b) == x
  }

  lemma MagStep(m: nat)
    ensures Mag(m + 1) == Mag(m) + Ulp(m) && Ulp(m) > 0.0
  {
    var e := Scale(m) - 150;
    Exp2Positive(e);
    ScaledSum(Significand(m) as real, 1.0, e);
    NextFields(m);
    if m >= 0x80_0000 && m % 0x80_0000 == 0x7f_ffff {
      ScaledHalf(16777216.0, e);
    }
  }

  lemma NextFields(m: nat)
    ensures m >= 0x80_0000 && m % 0x80_0000 == 0x7f_ffff ==>
              Significand(m) == 0xff_ffff && Scale(m + 1) == Scale(m) + 1 && Significand(m + 1) == 0x80_0000
    ensures !(m >= 0x80_0000 && m % 0x80_0000 == 0x7f_ffff) ==>
              Scale(m + 1) == Scale(m) && Significand(m + 1) == Significand(m) + 1
  {}

  lemma MagZero()
    ensures Mag(0) == 0.0 && Ulp(0) == Exp2(-149) && Mag(1) == Exp2(-149)
  {
    ScaledNegate(0.0, -149);
  }

  /** Codes are ordered as the magnitudes they name. */
  lemma {:induction false} MagMonotone(m: nat, k: nat)
    requires m < k
    ensures Mag(m) + Ulp(m) <= Mag(k)
    ensures Mag(m) < Mag(k)
    decreases k - m
  {
    MagStep(k - 1);
    if m < k - 1 { MagMonotone(m, k - 1); } else { MagStep(m); }
  }

  lemma MagNonNegative(m: nat)
    ensures Mag(m) >= 0.0
    ensures Mag(m) == 0.0 <==> m == 0
  {
    MagZero();
    if m > 0 { MagMonotone(0, m); }
  }

  // ---------- rounding ----------

  ghost function Distance(x: real, m: nat): real {
    if x >= Mag(m) then x - Mag(m) else Mag(m) - x
  }

  /** m is at least as near to x as k, and a tie between different codes goes to the even one. */
  ghost predicate NoWorse(x: real, m: nat, k: nat) {
    Distance(x, m) < Distance(x, k) || (Distance(x, m) == Distance(x, k) && (m == k || m % 2 == 0))
  }

  /** Half-way between the largest finite number and 2^128; from here on the result is infinite. */
  ghost function OverflowBound(): real { (Mag(P_INF - 1) + Mag(P_INF)) / 2.0 }

  /** m is the code of the nonnegative real x rounded to nearest, ties to even. */
  ghost predicate RoundsTo(x: real, m: nat) {
    if x >= OverflowBound() then m == P_INF
    else m < P_INF && forall k: nat :: k < P_INF ==> NoWorse(x, m, k)
  }

  /** The bound in the words of the standard: 2^emax * (2 - 2^(1-p)/2). */
  lemma OverflowBoundIs()
    ensures OverflowBound() == Exp2(127) * 2.0 - Exp2(103)
    ensures OverflowBound() < Exp2(128)
  {
    MagStep(P_INF - 1);
    TopOfRange();
    ScaledStep(1.0, 127);
    ScaledStep(1.0, 103);
  }

  lemma TopOfRange()
    ensures Mag(P_INF) == Exp2(128) && Ulp(P_INF - 1) == Exp2(104)
  {
    Exp2Shifted(104);
    ScaledHalf(16777216.0, 104);
    assert Scale(P_INF) == 255 && Significand(P_INF) == 8388608;
  }

  /** It is enough to look at the half-way points to the two neighbours. */
  lemma NearestByNeighbours(x: real, m: nat)
    requires m <= P_INF
    requires m > 0 ==> Mag(m - 1) + Mag(m) <= 2.0 * x
    requires m > 0 && Mag(m - 1) + Mag(m) == 2.0 * x ==> m % 2 == 0
    requires m < P_INF ==> 2.0 * x <= Mag(m) + Mag(m + 1)
    requires m < P_INF && 2.0 * x == Mag(m) + Mag(m + 1) ==> m % 2 == 0
    requires x >= 0.0
    ensures RoundsTo(x, m)
  {
    if m < P_INF {
      if m < P_INF - 1 {
        MagMonotone(m, P_INF - 1);
        MagMonotone(m + 1, P_INF);
      }
      forall k: nat | k < P_INF ensures NoWorse(x, m, k) {
        if k < m {
          MagMonotone(m - 1, m);
          if k < m - 1 { MagMonotone(k, m - 1); }
        } else if k > m {
          MagMonotone(m, m + 1);
          if k > m + 1 { MagMonotone(m + 1, k); }
        }
      }
    }
  }

  lemma {:induction false} FloorCode(x: real, top: nat) returns (m: nat)
    requires 0.0 <= x < Mag(top)
    ensures m < top && Mag(m) <= x < Mag(m + 1)
  {
    MagZero();
    if x >= Mag(top - 1) { m := top - 1; } else { m := FloorCode(x, top - 1); }
  }

  /** Of two neighbouring codes, the nearer one to x; on a tie the even one. */
  ghost function NearestInGap(x: real, m: nat): nat {
    if 2.0 * x < Mag(m) + Mag(m + 1) then m
    else if 2.0 * x > Mag(m) + Mag(m + 1) then m + 1
    else if m % 2 == 0 then m else m + 1
  }

  lemma RoundBetween(x: real, m: nat)
    requires m < P_INF && Mag(m) <= x < Mag(m + 1)
    ensures RoundsTo(x, NearestInGap(x, m))
  {
    MagStep(m);
    if NearestInGap(x, m) == m {
      if m > 0 { MagStep(m - 1); }
      NearestByNeighbours(x, m);
    } else {
      if m + 1 < P_INF { MagStep(m + 1); }
      NearestByNeighbours(x, m + 1);
    }
  }

  lemma RoundExists(x: real)
    requires x >= 0.0
    ensures exists m: nat :: RoundsTo(x, m)
  {
    MagStep(P_INF - 1);
    if x >= Mag(P_INF) {
      assert RoundsTo(x, P_INF);
    } else {
      var m := FloorCode(x, P_INF);
      RoundBetween(x, m);
    }
  }

  /** Rounding is monotone, so in particular it is a function. */
  lemma RoundsToMonotone(x: real, y: real, m: nat, k: nat)
    requires 0.0 <= x <= y
    requires RoundsTo(x, m) && RoundsTo(y, k)
    ensures m <= k
  {
    if m > k {
      MagMonotone(k, m);
      if m < P_INF {
        assert NoWorse(x, m, k) && NoWorse(y, k, m) && (k + 1 < P_INF ==> NoWorse(x, m, k + 1));
        assert x == y && 2.0 * x == Mag(m) + Mag(k);
        assert m % 2 == 0 && k % 2 == 0;
        MagMonotone(k, k + 1);
        MagMonotone(k + 1, m);
      }
    }
  }

  ghost function RoundMag(x: real): (m: nat)
    requires x >= 0.0
    ensures RoundsTo(x, m) && m <= P_INF
  {
    RoundExists(x);
    var m: nat :| RoundsTo(x, m);
    m
  }

  lemma RoundMagIs(x: real, m: nat)
    requires x >= 0.0 && RoundsTo(x, m)
    ensures RoundMag(x) == m
  {
    RoundsToMonotone(x, x, m, RoundMag(x));
    RoundsToMonotone(x, x, RoundMag(x), m);
  }

  /** The encoding of the real x rounded to nearest even; zero gets the positive sign. */
  ghost function Round(x: real): (r: Bits) {
    if x < 0.0 then SIGN + RoundMag(-x) else RoundMag(x)
  }

  lemma RoundExactMag(m: nat)
    requires m < P_INF
    ensures RoundMag(Mag(m)) == m
  {
    if m > 0 { MagMonotone(m - 1, m); }
    MagMonotone(m, m + 1);
    NearestByNeighbours(Mag(m), m);
    RoundMagIs(Mag(m), m);
  }

  /** A number of the format rounds to itself, bit for bit, except that -0 loses its sign. */
  lemma RoundOfValue(b: Bits)
    requires IsFinite(b) && b != N_ZERO
    ensures Round(Value(b)) == b
  {
    RoundExactMag(Code(b));
    MagNonNegative(Code(b));
  }

  /** The order of results, the two infinities included. */
  function Key(b: Bits): int { if Negative(b) then -(Code(b) as int) else Code(b) as int }

  lemma RoundMonotone(x: real, y: real)
    requires x <= y
    ensures Key(Round(x)) <= Key(Round(y))
  {
    if x >= 0.0 {
      RoundsToMonotone(x, y, RoundMag(x), RoundMag(y));
    } else if y < 0.0 {
      RoundsToMonotone(-y, -x, RoundMag(-y), RoundMag(-x));
      assert Key(Round(x)) == -(RoundMag(-x) as int) && Key(Round(y)) == -(RoundMag(-y) as int);
    } else {
      assert Key(Round(x)) <= 0 <= Key(Round(y));
    }
  }
}
