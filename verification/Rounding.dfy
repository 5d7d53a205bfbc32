/** What the guard, round and sticky bits mean.  An integer n that stands for the real s is
    "rounded to odd": it is s itself, or an odd integer next to s. */
module Rounding {
  import opened Binary32

  ghost predicate RoundedToOdd(s: real, n: int) {
    s == n as real || (n % 2 == 1 && (n - 1) as real < s < (n + 1) as real)
  }

  /** n and s lie in the same open interval between multiples of four, or are the same multiple. */
  ghost predicate SameQuarter(s: real, n: int) {
    if n % 4 == 0 then s == n as real else (4 * (n / 4)) as real < s < (4 * (n / 4) + 4) as real
  }

  /** One right shift that ORs the bit shifted out into the new low bit. */
  function Jam(n: nat): (r: nat)
    ensures n / 2 <= r <= n / 2 + 1 && (r == n / 2 + 1 ==> n % 4 == 1)
  {
    if n % 2 == 1 && (n / 2) % 2 == 0 then n / 2 + 1 else n / 2
  }

  lemma JamHalves(s: real, n: nat)
    requires RoundedToOdd(s, n)
    ensures RoundedToOdd(s / 2.0, Jam(n))
  {
    hide Jam, RoundedToOdd;
    JamIs(n);
    if n % 2 == 1 {
      HalfOfOdd(s, n / 4, n);
    } else {
      HalfOfEven(s, n / 2, n);
    }
  }

  lemma JamIs(n: nat)
    ensures n % 2 == 1 ==> Jam(n) == 2 * (n / 4) + 1 && (n == 4 * (n / 4) + 1 || n == 4 * (n / 4) + 3)
    ensures n % 2 == 0 ==> Jam(n) == n / 2 && n == 2 * (n / 2)
  {}

  lemma HalfOfOdd(s: real, q: int, n: int)
    requires RoundedToOdd(s, n) && (n == 4 * q + 1 || n == 4 * q + 3)
    ensures RoundedToOdd(s / 2.0, 2 * q + 1)
  {}

  lemma HalfOfEven(s: real, q: int, n: int)
    requires RoundedToOdd(s, n) && n == 2 * q
    ensures RoundedToOdd(s / 2.0, q)
  {}

  /** Rounding to odd commutes with adding an even integer ... */
  lemma OddPlusEven(s: real, n: int, c: int)
    requires RoundedToOdd(s, n) && c % 2 == 0
    ensures RoundedToOdd(s + c as real, n + c)
  {}

  /** ... and with negation, and it keeps the sign. */
  lemma OddNegate(s: real, n: int)
    requires RoundedToOdd(s, n)
    ensures RoundedToOdd(-s, -n)
    ensures (s < 0.0 <==> n < 0) && (s == 0.0 <==> n == 0)
  {}

  lemma QuarterOf(b: int, r: int, s: real)
    requires 0 <= r < 4 && RoundedToOdd(s, 4 * b + r)
    ensures SameQuarter(s, 4 * b + r)
  {}

  lemma QuarterOfDouble(b: int, r: int, s: real)
    requires 0 <= r < 2 && RoundedToOdd(s, 2 * b + r)
    ensures SameQuarter(2.0 * s, 2 * (2 * b + r))
  {
    assert 2 * (2 * b + r) == 4 * b + 2 * r;
  }

  lemma OddInQuarter(s: real, n: int)
    requires RoundedToOdd(s, n)
    ensures SameQuarter(s, n) && SameQuarter(2.0 * s, 2 * n)
  {
    QuarterOf(n / 4, n % 4, s);
    QuarterOfDouble(n / 2, n % 2, s);
  }

  /** The decision on the three low bits: the integer nearest to n/8, ties to even. */
  function RoundBits(n: nat): (q: nat)
  {
    var grs := n % 8;
    var q := n / 8;
    if grs > 4 || (grs == 4 && q % 2 == 1) then q + 1 else q
  }

  lemma RoundBitsNearest(s: real, n: nat)
    requires SameQuarter(s, n)
    ensures (8 * RoundBits(n) - 4) as real <= s <= (8 * RoundBits(n) + 4) as real
    ensures s == (8 * RoundBits(n) - 4) as real || s == (8 * RoundBits(n) + 4) as real ==> RoundBits(n) % 2 == 0
  {
    var q, g := n / 8, n % 8;
    assert n == 8 * q + g;
    assert n % 4 == g % 4 && n / 4 == 2 * q + g / 4;
  }

  /** (exp, sig) is normalised and stands for x through the real significand s. */
  ghost predicate Normalised(exp: int, sig: nat, s: real, x: real) {
    && 0 <= exp < 0xff
    && sig < 0x800_0000
    && (exp == 0 <==> sig < 0x400_0000)
    && SameQuarter(s, sig)
    && x == Scaled(s, (if exp == 0 then 1 else exp) - 153)
  }

  /** The magnitudes that should round up to 2^-126 from below. */
  ghost predicate Flushed(x: real) {
    Exp2(-126) - Exp2(-150) <= x < Exp2(-126)
  }

  /** What the packed code names: q on the scale of the exponent field. */
  lemma PackedMag(e: nat, q: nat)
    requires e >= 1 && q <= 0x100_0000 && (e == 1 || q >= 0x80_0000)
    ensures Mag((e - 1) * 0x80_0000 + q) == Scaled(q as real, e - 150)
    ensures q < 0x100_0000 ==> Ulp((e - 1) * 0x80_0000 + q) == Exp2(e - 150)
    ensures q == 0x100_0000 ==> Ulp((e - 1) * 0x80_0000 + q) == 2.0 * Exp2(e - 150)
  {
    var m := (e - 1) * 0x80_0000 + q;
    if q == 0x100_0000 {
      assert Scale(m) == e + 1 && Significand(m) == 0x80_0000;
      ScaledHalf(16777216.0, e - 150);
      ScaledStep(1.0, e - 150);
    } else {
      assert Scale(m) == e && Significand(m) == q;
    }
  }

  /** t at or below the half-way point above q, ... */
  lemma BelowUpper(t: real, e: nat, q: nat, m: nat)
    requires e >= 1 && q <= 0x100_0000 && (e == 1 || q >= 0x80_0000) && m == (e - 1) * 0x80_0000 + q
    requires t <= q as real + 0.5
    ensures 2.0 * Scaled(t, e - 150) <= Mag(m) + Mag(m + 1)
    ensures 2.0 * Scaled(t, e - 150) == Mag(m) + Mag(m + 1) ==> t == q as real + 0.5
  {
    HalfUnits(q as real, e - 150);
    PackedMag(e, q);
    MagStep(m);
    ScaledOrder(t, q as real + 0.5, e - 150);
    Exp2Positive(e - 150);
  }

  /** ... and at or above the one below it.  At the bottom of a binade, where the gap below is
      half as wide, t must not lie below q. */
  lemma AboveLower(t: real, e: nat, q: nat, m: nat)
    requires e >= 1 && q <= 0x100_0000 && (e == 1 || (q >= 0x80_0000 && t >= 8388608.0))
    requires m == (e - 1) * 0x80_0000 + q && m > 0
    requires q as real - 0.5 <= t
    ensures Mag(m - 1) + Mag(m) <= 2.0 * Scaled(t, e - 150)
    ensures 2.0 * Scaled(t, e - 150) == Mag(m - 1) + Mag(m) ==> t == q as real - 0.5
  {
    PackedMag(e, q);
    if e == 1 || q > 0x80_0000 {
      HalfUnits(q as real, e - 150);
      ScaledOrder(t, q as real - 0.5, e - 150);
      PackedMag(e, q - 1);
      MagStep(m - 1);
    } else {
      ScaledOrder(t, 8388608.0, e - 150);
      MagMonotone(m - 1, m);
    }
  }

  /** If t is within half a unit of q, with ties only at even q, then q is where t rounds to. */
  lemma RoundAt(t: real, e: nat, q: nat)
    requires 1 <= e <= 254 && q <= 0x100_0000 && (e == 1 || (q >= 0x80_0000 && t >= 8388608.0))
    requires 0.0 <= t && q as real - 0.5 <= t <= q as real + 0.5
    requires t == q as real - 0.5 || t == q as real + 0.5 ==> q % 2 == 0
    ensures Scaled(t, e - 150) >= 0.0
    ensures RoundMag(Scaled(t, e - 150)) == (e - 1) * 0x80_0000 + q
  {
    hide Mag, RoundsTo, RoundMag;
    var m := (e - 1) * 0x80_0000 + q;
    ScaledSign(t, e - 150);
    BelowUpper(t, e, q, m);
    if m > 0 { AboveLower(t, e, q, m); }
    NearestByNeighbours(Scaled(t, e - 150), m);
    RoundMagIs(Scaled(t, e - 150), m);
  }

  lemma HalfUnits(q: real, k: int)
    ensures 2.0 * Scaled(q + 0.5, k) == Scaled(q, k) + (Scaled(q, k) + Exp2(k))
    ensures 2.0 * Scaled(q - 0.5, k) == Scaled(q, k) + (Scaled(q, k) - Exp2(k))
  {
    ScaledSum(q, 0.5, k);
    ScaledSum(q - 0.5, 0.5, k);
    ScaledSum(0.5, 0.5, k);
  }

  /** The three low bits of a normalised pair decide the correctly rounded code. */
  lemma RoundBitsCorrect(exp: int, sig: nat, s: real, x: real)
    requires Normalised(exp, sig, s, x)
    ensures x >= 0.0
    ensures RoundMag(x) == ((if exp == 0 then 1 else exp) - 1) * 0x80_0000 + RoundBits(sig)
    ensures RoundBits(sig) <= 0x100_0000 && (exp > 0 ==> RoundBits(sig) >= 0x80_0000)
    ensures Flushed(x) <==> exp == 0 && RoundBits(sig) == 0x80_0000
  {
    hide RoundBits, Flushed, SameQuarter;
    var e: nat := if exp == 0 then 1 else exp;
    SignificandRange(s, sig);
    RoundBitsNearest(s, sig);
    ScaledEighth(s, e - 153);
    assert e - 153 + 3 == e - 150;
    RoundAt(s / 8.0, e, RoundBits(sig));
    FlushedPoints(s, e);
  }

  lemma SignificandRange(s: real, sig: nat)
    requires SameQuarter(s, sig) && sig < 0x800_0000
    ensures s >= 0.0 && RoundBits(sig) <= 0x100_0000
    ensures sig < 0x400_0000 ==> s < 67108864.0 && RoundBits(sig) <= 0x80_0000
    ensures sig < 0x400_0000 ==> (RoundBits(sig) == 0x80_0000 <==> 67108860.0 <= s)
    ensures sig >= 0x400_0000 ==> s >= 67108864.0 && RoundBits(sig) >= 0x80_0000
  {
    var b := sig / 4;
    assert sig == 4 * b + sig % 4 && sig / 8 == b / 2;
    assert 67108860 == 4 * 16777215;
    RoundBitsNearest(s, sig);
  }

  lemma FlushedPoints(s: real, e: nat)
    requires e >= 1 && (e > 1 ==> s >= 67108864.0)
    ensures Flushed(Scaled(s, e - 153)) <==> e == 1 && 67108860.0 <= s < 67108864.0
  {
    Exp2Shifted(-152);
    ScaledHalf(4.0, -152); ScaledHalf(2.0, -151);
    ScaledSum(67108860.0, 4.0, -152);
    assert Exp2(-126) == Scaled(67108864.0, -152) && Exp2(-150) == Scaled(4.0, -152);
    if e == 1 {
      ScaledOrder(67108860.0, s, -152);
      ScaledOrder(s, 67108864.0, -152);
    } else {
      ScaledOrder(s, 67108864.0, e - 153);
      Exp2Shifted(e - 153);
      if e - 153 + 26 > -126 { Exp2Less(-126, e - 153 + 26); Exp2Positive(-126); }
    }
  }
}
