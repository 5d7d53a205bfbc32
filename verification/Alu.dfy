/** Addition and subtraction with carry, the flags they leave, and the conditions read from them. */
module Alu {
  import opened Words

  type Width = w: int | w == 8 || w == 16 || w == 32 witness 8

  datatype Flags = Flags(CF: bool, PF: bool, ZF: bool, SF: bool, OF: bool)

  /** 2^w: limbs are numbers below it. */
  function Base(w: Width): (b: nat)
    ensures b >= 256 && b % 2 == 0
  {
    if w == 8 then 0x100 else if w == 16 then 0x1_0000 else 0x1_0000_0000
  }

  function Bit(c: bool): nat { if c then 1 else 0 }

  /** The two's-complement reading of a number below b, and the numbers it can read. */
  function Signed(b: nat, x: nat): int { if 2 * x >= b then x - b else x }
  predicate Fits(b: nat, x: int) { -(b as int) <= 2 * x < b }

  function Ones(x: nat): nat { if x == 0 then 0 else x % 2 + Ones(x / 2) }

  /** An even number of ones in the low byte. */
  predicate EvenParity(s: nat) { Ones(s % 256) % 2 == 0 }

  /** x & (0xffffffff >> (32 - w)) */
  function Mask(w: Width, x: int): (r: U32)
    ensures r < Base(w)
  {
    if w == 8 then x % 0x100 else if w == 16 then x % 0x1_0000 else x % 0x1_0000_0000
  }

  /** x >> (w - 1) */
  function TopBit(w: Width, x: U32): nat {
    if w == 8 then x / 0x80 else if w == 16 then x / 0x8000 else x / 0x8000_0000
  }

  /** The flags that describe a limb s and the exact signed result. */
  function FlagsOf(w: Width, carry: bool, s: nat, exact: int): Flags {
    Flags(carry, EvenParity(s), s == 0, 2 * s >= Base(w), !Fits(Base(w), exact))
  }

  /** One limb of an addition: what the exact sum of two limbs and a carry decides. */
  function SumLimb(w: Width, src: nat, dest: nat, carry: bool): (nat, Flags)
    requires src < Base(w) && dest < Base(w)
  {
    var b := Base(w);
    var sum := src + dest + Bit(carry);
    var s := if sum >= b then sum - b else sum;
    (s, FlagsOf(w, sum >= b, s, Signed(b, src) + Signed(b, dest) + Bit(carry)))
  }

  /** One limb of a subtraction, dest - src - borrow. */
  function DifferenceLimb(w: Width, src: nat, dest: nat, borrow: bool): (nat, Flags)
    requires src < Base(w) && dest < Base(w)
  {
    var b := Base(w);
    var difference := dest - src - Bit(borrow);
    var s := if difference < 0 then difference + b else difference;
    (s, FlagsOf(w, difference < 0, s, Signed(b, dest) - Signed(b, src) - Bit(borrow)))
  }

  /** The register the flags live in. */
  class Cpu {
    var eflags: Flags

    constructor () {
      eflags := Flags(false, false, false, false, false);
    }

    method AluAdd(srcIn: U32, destIn: U32, w: Width) returns (s: U32)
      modifies this
      ensures (s, eflags) == SumLimb(w, Mask(w, srcIn), Mask(w, destIn), false)
    {
      var dest, src := Mask(w, destIn), Mask(w, srcIn);
      s := Mask(w, Wrap(src as int + dest));
      SumByTopBits(w, src, dest, false);
      eflags := Flags(
        s < dest,
        EvenParity(s),
        s == 0,
        TopBit(w, s) == 1,
        (TopBit(w, dest) == 0 && TopBit(w, src) == 0 && TopBit(w, s) == 1)
        || (TopBit(w, dest) == 1 && TopBit(w, src) == 1 && TopBit(w, s) == 0));
    }

    method AluAdc(srcIn: U32, destIn: U32, w: Width) returns (s: U32)
      modifies this
      ensures (s, eflags) == SumLimb(w, Mask(w, srcIn), Mask(w, destIn), old(eflags.CF))
    {
      var dest, src := Mask(w, destIn), Mask(w, srcIn);
      s := Mask(w, Wrap(src as int + dest + Bit(eflags.CF)));
      SumByTopBits(w, src, dest, eflags.CF);
      eflags := Flags(
        s < dest || (eflags.CF && s == dest),
        EvenParity(s),
        s == 0,
        TopBit(w, s) == 1,
        (TopBit(w, dest) == 0 && TopBit(w, src) == 0 && TopBit(w, s) == 1)
        || (TopBit(w, dest) == 1 && TopBit(w, src) == 1 && TopBit(w, s) == 0));
    }

    method AluSub(srcIn: U32, destIn: U32, w: Width) returns (s: U32)
      modifies this
      ensures (s, eflags) == DifferenceLimb(w, Mask(w, srcIn), Mask(w, destIn), false)
    {
      var dest, src := Mask(w, destIn), Mask(w, srcIn);
      s := Mask(w, Wrap(dest as int - src));
      DifferenceByTopBits(w, src, dest, false);
      eflags := Flags(
        dest < src,
        EvenParity(s),
        s == 0,
        TopBit(w, s) == 1,
        (TopBit(w, dest) == 1 && TopBit(w, src) == 0 && TopBit(w, s) == 0)
        || (TopBit(w, dest) == 0 && TopBit(w, src) == 1 && TopBit(w, s) == 1));
    }

    method AluSbb(srcIn: U32, destIn: U32, w: Width) returns (s: U32)
      modifies this
      ensures (s, eflags) == DifferenceLimb(w, Mask(w, srcIn), Mask(w, destIn), old(eflags.CF))
    {
      var dest, src := Mask(w, destIn), Mask(w, srcIn);
      s := Mask(w, Wrap(dest as int - src - Bit(eflags.CF)));
      DifferenceByTopBits(w, src, dest, eflags.CF);
      eflags := Flags(
        dest < src || (eflags.CF && dest == src),
        EvenParity(s),
        s == 0,
        TopBit(w, s) == 1,
        (TopBit(w, dest) == 1 && TopBit(w, src) == 0 && TopBit(w, s) == 0)
        || (TopBit(w, dest) == 0 && TopBit(w, src) == 1 && TopBit(w, s) == 1));
    }
  }

  lemma TopBitIs(w: Width, x: U32)
    requires x < Base(w)
    ensures TopBit(w, x) == if 2 * x >= Base(w) then 1 else 0
  {}

  lemma MaskedSum(w: Width, x: int)
    requires -(Base(w) as int) <= x < 2 * Base(w)
    ensures Mask(w, Wrap(x)) == if x < 0 then x + Base(w) else if x >= Base(w) then x - Base(w) else x
  {
    assert x < 0 ==> Wrap(x) == x + 0x1_0000_0000;
    assert w != 32 && x >= 0 ==> Wrap(x) == x;
  }

  /** The program's tests on top bits and on wrapped results say what the exact sum says. */
  lemma SumByTopBits(w: Width, src: U32, dest: U32, carry: bool)
    requires src < Base(w) && dest < Base(w)
    ensures var s := Mask(w, Wrap(src as int + dest + Bit(carry)));
            && s == SumLimb(w, src, dest, carry).0
            && (s < dest || (carry && s == dest) <==> src + dest + Bit(carry) >= Base(w))
            && (TopBit(w, s) == 1 <==> 2 * s >= Base(w))
            && ((TopBit(w, dest) == 0 && TopBit(w, src) == 0 && TopBit(w, s) == 1)
                || (TopBit(w, dest) == 1 && TopBit(w, src) == 1 && TopBit(w, s) == 0)
                <==> !Fits(Base(w), Signed(Base(w), src) + Signed(Base(w), dest) + Bit(carry)))
  {
    MaskedSum(w, src as int + dest + Bit(carry));
    TopBitIs(w, src);
    TopBitIs(w, dest);
    TopBitIs(w, Mask(w, Wrap(src as int + dest + Bit(carry))));
  }

  lemma DifferenceByTopBits(w: Width, src: U32, dest: U32, borrow: bool)
    requires src < Base(w) && dest < Base(w)
    ensures var s := Mask(w, Wrap(dest as int - src - Bit(borrow)));
            && s == DifferenceLimb(w, src, dest, borrow).0
            && (dest < src || (borrow && dest == src) <==> dest - src - Bit(borrow) < 0)
            && (TopBit(w, s) == 1 <==> 2 * s >= Base(w))
            && ((TopBit(w, dest) == 1 && TopBit(w, src) == 0 && TopBit(w, s) == 0)
                || (TopBit(w, dest) == 0 && TopBit(w, src) == 1 && TopBit(w, s) == 1)
                <==> !Fits(Base(w), Signed(Base(w), dest) - Signed(Base(w), src) - Bit(borrow)))
  {
    MaskedSum(w, dest as int - src - Bit(borrow));
    TopBitIs(w, src);
    TopBitIs(w, dest);
    TopBitIs(w, Mask(w, Wrap(dest as int - src - Bit(borrow))));
  }

  // ---------- the flags of one limb, without the functions the program's are made of ----------

  /** The exclusive or of the lowest n bits. */
  predicate XorOfBits(x: nat, n: nat) { n > 0 && XorOfBits(x, n - 1) != BitAt(x, n - 1) }

  lemma {:induction false} XorFromBelow(x: nat, n: nat)
    ensures XorOfBits(x, n + 1) == (XorOfBits(x / 2, n) != (x % 2 == 1))
  {
    hide BitAt;
    BitsAbove(x, n);
    if n > 0 {
      XorFromBelow(x, n - 1);
      BitsAbove(x, n - 1);
    }
  }

  lemma HalfMod(x: nat, p: nat)
    requires p > 0
    ensures x % (2 * p) / 2 == x / 2 % p && x % (2 * p) % 2 == x % 2
  {
    DivTwice(x, p);
    var q := x / (2 * p);
    assert x == q * (2 * p) + x % (2 * p);
    assert q * (2 * p) == 2 * (q * p);
    assert x / 2 == q * p + x / 2 % p;
  }

  lemma {:induction false} OnesAreBits(x: nat, n: nat)
    ensures Ones(x % Pow2(n)) % 2 == 1 <==> XorOfBits(x, n)
  {
    if n == 0 {
      assert Pow2(0) == 1 && Ones(0) == 0;
    } else {
      hide XorOfBits, Pow2, Ones;
      OnesAreBits(x / 2, n - 1);
      XorFromBelow(x, n - 1);
      Doubled(n - 1);
      HalfMod(x, Pow2(n - 1));
      OddOnes(x % Pow2(n), x / 2 % Pow2(n - 1), x % 2);
    }
  }

  lemma OddOnes(y: nat, half: nat, low: nat)
    requires half == y / 2 && low == y % 2
    ensures Ones(y) % 2 == 1 <==> (Ones(half) % 2 == 1) != (low == 1)
  {
    assert Ones(y) == low + Ones(half);
  }

  lemma EvenParityIff(s: nat)
    ensures EvenParity(s) <==> !XorOfBits(s, 8)
  {
    assert Pow2(8) == 256;
    OnesAreBits(s, 8);
  }

  lemma SameLowByte(w: Width, s: nat, x: nat)
    requires x == s || x == s + Base(w)
    ensures EvenParity(s) <==> !XorOfBits(x, 8)
  {
    hide XorOfBits;
    EvenParityIff(x);
    assert x % 256 == s % 256;
  }

  lemma HalvesOfBase(w: Width, s: nat)
    requires s < Base(w)
    ensures 2 * s >= Base(w) <==> s / (Base(w) / 2) == 1
  {}

  lemma Reduced(w: Width, s: nat, x: int)
    requires s < Base(w) && (x == s || x == s + Base(w) || x == s - Base(w))
    ensures x % Base(w) == s
  {}

  /** Whichever way the program tests them, ZF, SF and PF after an addition are those of the exact sum
      modulo the base: no bit, the top bit, and the exclusive or of the lowest eight. */
  lemma SumFlags(w: Width, src: nat, dest: nat, carry: bool)
    requires src < Base(w) && dest < Base(w)
    ensures var f, sum := SumLimb(w, src, dest, carry).1, src + dest + Bit(carry);
            && (f.ZF <==> sum % Base(w) == 0)
            && (f.SF <==> sum % Base(w) / (Base(w) / 2) == 1)
            && (f.PF <==> !XorOfBits(sum, 8))
  {
    hide EvenParity, XorOfBits, Signed, Fits;
    var s := SumLimb(w, src, dest, carry).0;
    Reduced(w, s, src + dest + Bit(carry));
    SameLowByte(w, s, src + dest + Bit(carry));
    HalvesOfBase(w, s);
  }

  /** And after a subtraction those of the exact difference. */
  lemma DifferenceFlags(w: Width, src: nat, dest: nat, borrow: bool)
    requires src < Base(w) && dest < Base(w)
    ensures var f, difference := DifferenceLimb(w, src, dest, borrow).1, dest - src - Bit(borrow);
            && (f.ZF <==> difference % Base(w) == 0)
            && (f.SF <==> difference % Base(w) / (Base(w) / 2) == 1)
            && (f.PF <==> !XorOfBits(difference % Base(w), 8))
  {
    hide EvenParity, XorOfBits, Signed, Fits;
    var s := DifferenceLimb(w, src, dest, borrow).0;
    Reduced(w, s, dest - src - Bit(borrow));
    SameLowByte(w, s, s);
    HalvesOfBase(w, s);
  }

  // ---------- the two's-complement reading ----------

  /** Signed is the one number of the signed range that is congruent to x. */
  lemma SignedIff(w: Width, x: nat, y: int)
    requires x < Base(w)
    ensures y == Signed(Base(w), x) <==> -(Base(w) / 2) <= y < Base(w) / 2 && (y - x) % Base(w) == 0
  {
    if (y - x) % Base(w) == 0 {
      var q := (y - x) / Base(w);
      assert y == x + q * Base(w);
    }
  }
}
