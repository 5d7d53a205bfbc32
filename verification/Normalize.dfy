/** internal_normalize: shift to 24 significant bits plus guard, round and sticky, round to
    nearest even, pack.  Unsigned C types are subset types here, so every operation that could
    wrap around is shown not to. */
module Normalize {
  import opened Binary32
  import opened Rounding

  type U64 = x: int | 0 <= x < 0x1_0000_0000_0000_0000

  /** The power of two the code reads `exp` as.  A pair with exp == 0 that needs no right shift
      is taken on the scale of exp == 1. */
  function Reading(exp: int, sig: nat): int {
    if exp == 0 && sig < 0x800_0000 then 1 else exp
  }

  /** The code stored for the exact magnitude x: x rounded to nearest even, except that a number
      rounding up to 2^-126 from below keeps exponent field 0 and loses its fraction. */
  ghost function Stored(x: real): (m: nat)
    requires x >= 0.0
    ensures m <= P_INF
  {
    if Flushed(x) then 0 else RoundMag(x)
  }

  ghost function WithSign(sign: nat, m: nat): (r: Bits)
    requires sign <= 1 && m <= P_INF
  {
    sign * SIGN + m
  }

  /** The right-shift loop's state: x = s * 2^(exp-153) and sig is s rounded to odd. */
  ghost predicate ShiftedRight(exp: int, sig: nat, s: real, x: real) {
    && s >= 0.0
    && RoundedToOdd(s, sig)
    && x == Scaled(s, exp - 153)
    && (exp > 0 ==> sig >= 0x400_0000)
  }

  lemma ShiftRightOnce(exp: int, sig: nat, s: real, x: real)
    requires ShiftedRight(exp, sig, s, x) && (exp < 0 || sig >= 0x800_0000)
    ensures ShiftedRight(exp + 1, Jam(sig), s / 2.0, x)
  {
    JamHalves(s, sig);
    ScaledHalf(s, exp - 153);
    assert exp - 153 + 1 == exp + 1 - 153;
  }

  lemma RightOverflow(exp: int, sig: nat, s: real, x: real)
    requires ShiftedRight(exp, sig, s, x) && exp >= 0xff
    ensures x >= 0.0 && Stored(x) == P_INF
  {
    ScaledOrder(67108864.0, s, exp - 153);
    Exp2Shifted(exp - 153);
    if exp > 0xff { Exp2Less(128, exp - 153 + 26); }
    Exp2Positive(128);
    assert x >= Exp2(128);
    OverflowBoundIs();
    Exp2Less(-126, 128);
    Exp2Positive(-126);
    RoundMagIs(x, P_INF);
  }

  lemma RightUnderflow(exp: int, sig: nat, s: real, x: real)
    requires ShiftedRight(exp, sig, s, x) && exp < 0 && sig <= 4
    ensures x >= 0.0 && Stored(x) == 0
  {
    ScaledSign(s, exp - 153);
    ScaledOrder(s, 4.0, exp - 153);
    ScaledHalf(4.0, exp - 153); ScaledHalf(2.0, exp - 152);
    Exp2Less(exp - 151, -149);
    Exp2Positive(exp - 151);
    assert 2.0 * x <= Exp2(-149);
    MagZero();
    NearestByNeighbours(x, 0);
    RoundMagIs(x, 0);
    Exp2Less(-149, -126);
    Exp2Less(-150, -149);
  }

  /** The left-shift loop's state.  A significand that has lost bits is shifted at most once, and
      then 2n decides between multiples of eight as n decided between multiples of four. */
  ghost predicate ShiftedLeft(exp: int, sig: nat, s: real, x: real, exp0: int, sig0: nat, s0: real) {
    && sig < 0x800_0000
    && x == Scaled(s, exp - 153)
    && (s0 == sig0 as real || sig0 >= 0x200_0000)
    && (|| (exp == exp0 && sig == sig0 && s == s0)
        || (sig % 2 == 0 && (s == sig as real || (sig == 2 * sig0 && s == 2.0 * s0 && sig >= 0x400_0000))))
  }

  /** What callers may pass: a significand that stands for s, which is exact or has its top bits in
      place; an exponent beyond the format comes with a significand that still has to move right. */
  ghost predicate Acceptable(exp: int, sig: U64, s: real) {
    && s >= 0.0
    && RoundedToOdd(s, sig)
    && (s == sig as real || sig >= 0x200_0000)
    && (exp < 0xff || sig >= 0x800_0000)
  }

  lemma ShiftLeftOnce(exp: int, sig: nat, s: real, x: real, exp0: int, sig0: nat, s0: real)
    requires ShiftedLeft(exp, sig, s, x, exp0, sig0, s0) && sig < 0x400_0000
    ensures ShiftedLeft(exp - 1, 2 * sig, 2.0 * s, x, exp0, sig0, s0)
  {
    ScaledHalf(s, exp - 153);
    assert exp - 153 - 1 == exp - 1 - 153;
  }

  lemma LeftNormalised(exp: int, sig: nat, s: real, x: real, exp0: int, sig0: U64, s0: real)
    requires Acceptable(exp0, sig0, s0)
    requires ShiftedLeft(exp, sig, s, x, exp0, sig0, s0) && 0 < exp < 0xff && sig >= 0x400_0000
    ensures Normalised(exp, sig, s, x)
  {
    OddInQuarter(s0, sig0);
    if s == sig as real { Exact(sig); OddInQuarter(s, sig); }
  }

  lemma Exact(n: int)
    ensures RoundedToOdd(n as real, n)
  {}

  /** Having run down to exp == 0 the code shifts right once more, onto the scale of exp == 1. */
  lemma LeftDenormal(sig: nat, s: real, x: real, exp0: int, sig0: U64, s0: real)
    requires Acceptable(exp0, sig0, s0) && exp0 > 0 && sig0 < 0x400_0000
    requires ShiftedLeft(0, sig, s, x, exp0, sig0, s0)
    ensures Normalised(0, Jam(sig), s / 2.0, x)
  {
    var half := sig / 2;
    assert sig == 2 * half && Jam(sig) == half;
    ScaledHalf(s, -153);
    if s == sig as real {
      Exact(half);
      OddInQuarter(half as real, half);
      assert s / 2.0 == half as real;
    } else {
      OddInQuarter(s0, sig0);
      assert s / 2.0 == s0;
    }
  }

  /** The right-shift loop's two useful exits. */
  lemma RightNormalised(exp: int, sig: nat, s: real, x: real)
    requires ShiftedRight(exp, sig, s, x) && 0 <= exp < 0xff && sig < 0x800_0000
    ensures exp > 0 ==> Normalised(exp, sig, s, x)
    ensures exp == 0 ==> Normalised(0, Jam(sig), s / 2.0, x)
  {
    OddInQuarter(s, sig);
    JamHalves(s, sig);
    OddInQuarter(s / 2.0, Jam(sig));
    ScaledHalf(s, exp - 153);
    assert sig < 0x7ff_ffff || Jam(sig) == 0x3ff_ffff;
  }

  lemma StartShift(exp: int, sig: U64, s: real)
    requires Acceptable(exp, sig, s)
    ensures s >= 0.0 && Scaled(s, Reading(exp, sig) - 153) >= 0.0 && (exp < 0xff || sig >= 0x800_0000)
    ensures sig >= 0x800_0000 || exp < 0 ==> ShiftedRight(exp, sig, s, Scaled(s, Reading(exp, sig) - 153))
    ensures 0 < exp && sig < 0x400_0000
            ==> ShiftedLeft(exp, sig, s, Scaled(s, Reading(exp, sig) - 153), exp, sig, s)
  {
    ScaledSign(s, Reading(exp, sig) - 153);
  }

  /** x is stored as the rounded significand on the scale of exp. */
  ghost predicate StoredAs(exp: int, n: nat, x: real)
    requires x >= 0.0
  {
    var q := RoundBits(n);
    && 0 <= exp < 0xff
    && n < 0x800_0000 && q <= 0x100_0000
    && (if exp == 0 then q <= 0x80_0000 && Stored(x) == q % 0x80_0000
        else q >= 0x80_0000 && Stored(x) == (exp - 1) * 0x80_0000 + q)
  }

  lemma NormalisedStored(exp: int, n: nat, s: real, x: real)
    requires Normalised(exp, n, s, x)
    ensures x >= 0.0 && StoredAs(exp, n, x)
  {
    RoundBitsCorrect(exp, n, s, x);
    SignificandRange(s, n);
  }

  /** No shift was needed. */
  lemma AlreadyNormalised(exp: int, sig: U64, s: real, x: real)
    requires Acceptable(exp, sig, s) && 0 <= exp && sig < 0x800_0000
    requires x == Scaled(s, Reading(exp, sig) - 153)
    requires exp > 0 ==> sig >= 0x400_0000
    ensures Normalised(if exp == 0 && sig >= 0x400_0000 then 1 else exp, sig, s, x)
  {
    OddInQuarter(s, sig);
  }

  lemma PackedFields(exp: int, sig: nat)
    requires 0 <= exp < 0xff && sig < 0x100_0000 && (exp > 0 ==> sig >= 0x80_0000)
    ensures exp == 0 ==> (exp % 256) * 0x80_0000 + sig % 0x80_0000 == sig % 0x80_0000
    ensures exp > 0 ==> (exp % 256) * 0x80_0000 + sig % 0x80_0000 == (exp - 1) * 0x80_0000 + sig
  {}

  /** The tail of internal_normalize: round on the three low bits, then pack. */
  method RoundAndPack(sign: nat, expIn: int, sigIn: U64, ghost x: real) returns (r: Bits)
    requires sign <= 1 && x >= 0.0 && StoredAs(expIn, sigIn, x)
    ensures r == WithSign(sign, Stored(x))
  {
    var exp, sig: U64 := expIn, sigIn;
    var grs := sig % 8;
    sig := sig / 8;
    if grs > 4 || (grs == 4 && sig % 2 == 1) {
      sig := sig + 1;
      if (sig / 0x100_0000) % 2 == 1 {
        assert sig == 0x100_0000;
        sig := sig / 2;
        exp := exp + 1;
        if exp >= 0xff {
          return P_INF + sign * SIGN;
        }
      }
    }
    PackedFields(exp, sig);
    r := sign * SIGN + ((exp % 256) * 0x80_0000 + sig % 0x80_0000);
  }

  /** Whatever pair names x, the result is x as stored: the sign, then the nearest code. */
  method InternalNormalize(signIn: nat, expIn: int, sigIn: U64, ghost sIn: real, ghost x: real) returns (r: Bits)
    requires Acceptable(expIn, sigIn, sIn) && x == Scaled(sIn, Reading(expIn, sigIn) - 153)
    ensures x >= 0.0 && r == WithSign(signIn % 2, Stored(x))
  {
    var sign, exp, sig: U64 := signIn % 2, expIn, sigIn;
    ghost var s := sIn;
    StartShift(exp, sig, s);
    if sig / 0x400_0000 > 1 || exp < 0 {
      // normalize toward right
      while (sig / 0x400_0000 > 1 && exp < 0xff) || (sig > 4 && exp < 0)
        invariant ShiftedRight(exp, sig, s, x)
        decreases 0xff - exp
      {
        ShiftRightOnce(exp, sig, s, x);
        s := s / 2.0;
        sig := Jam(sig);
        exp := exp + 1;
      }
      if exp >= 0xff {
        RightOverflow(exp, sig, s, x);
        return P_INF + sign * SIGN;
      } else if exp == 0 {
        RightNormalised(exp, sig, s, x);
        sig, s := Jam(sig), s / 2.0;
      } else if exp < 0 {
        RightUnderflow(exp, sig, s, x);
        return sign * SIGN;
      } else {
        RightNormalised(exp, sig, s, x);
      }
    } else if sig / 0x400_0000 == 0 && exp > 0 {
      // normalize toward left
      while sig / 0x400_0000 == 0 && exp > 0
        invariant ShiftedLeft(exp, sig, s, x, expIn, sigIn, sIn) && sig < 0x800_0000
        invariant 0 <= exp < 0xff
        decreases exp
      {
        ShiftLeftOnce(exp, sig, s, x, expIn, sigIn, sIn);
        s := 2.0 * s;
        sig := 2 * sig;
        exp := exp - 1;
      }
      if exp == 0 {
        LeftDenormal(sig, s, x, expIn, sigIn, sIn);
        sig, s := Jam(sig), s / 2.0;
      } else {
        LeftNormalised(exp, sig, s, x, expIn, sigIn, sIn);
      }
    } else {
      AlreadyNormalised(exp, sig, s, x);
      if exp == 0 && sig / 0x400_0000 == 1 {
        exp := exp + 1;
      }
    }
    NormalisedStored(exp, sig, s, x);
    r := RoundAndPack(sign, exp, sig, x);
  }
}
