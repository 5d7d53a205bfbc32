/** Shifts by several places against the architecture's definition of them: one place at a time,
    CF being the bit that left last (SAL/SAR/SHL/SHR, Intel 80386 Programmer's Reference Manual).
    The operands covered are exactly those for which every C shift the code evaluates is defined. */
module AluShifts {
  import opened Alu
  import opened Words

  // ---------- one place at a time ----------

  /** The shifted number and the bit shifted out last. */
  function ShrSteps(d: nat, c: nat): (nat, bool)
    requires c >= 1
  {
    if c == 1 then (d / 2, d % 2 == 1) else ShrSteps(d / 2, c - 1)
  }

  function ShlSteps(w: Width, d: nat, c: nat): (nat, bool)
    requires c >= 1
    decreases c
  {
    if c == 1 then (2 * d % Base(w), 2 * d / Base(w) % 2 == 1) else ShlSteps(w, 2 * d % Base(w), c - 1)
  }

  /** The top bit stays. */
  function SarOnce(w: Width, d: nat): (r: nat)
    requires d < Base(w)
    ensures r < Base(w) && Signed(Base(w), r) == Signed(Base(w), d) / 2
  {
    if 2 * d >= Base(w) then d / 2 + Base(w) / 2 else d / 2
  }

  function SarSteps(w: Width, d: nat, c: nat): (r: (nat, bool))
    requires c >= 1 && d < Base(w)
    ensures r.0 < Base(w)
    decreases c
  {
    if c == 1 then (SarOnce(w, d), d % 2 == 1) else SarSteps(w, SarOnce(w, d), c - 1)
  }

  // ---------- arithmetic ----------

  lemma DivShifted(n: int, k: int, p: int)
    requires p > 0
    ensures (n + k * p) / p == n / p + k
  {
    DivBounds(n, p);
    var q := n / p;
    assert (q + k) * p == q * p + k * p && (q + k + 1) * p == (q + 1) * p + k * p;
    DivUnique(n + k * p, p, q + k);
  }

  lemma Pow2Width(w: Width)
    ensures Pow2(w) == Base(w)
  {
    assert Pow2(8) == 0x100;
    Pow2Sum(8, 8);
    Pow2Sum(16, 16);
  }

  // ---------- in closed form ----------

  lemma {:induction false} ShrIs(d: nat, c: nat)
    requires c >= 1
    ensures ShrSteps(d, c) == (d / Pow2(c), d / Pow2(c - 1) % 2 == 1)
  {
    if c > 1 {
      ShrIs(d / 2, c - 1);
      DivTwice(d, Pow2(c - 1));
      DivTwice(d, Pow2(c - 2));
    }
  }

  /** The arithmetic shift divides the signed number and rounds down. */
  lemma {:induction false} SarIs(w: Width, d: nat, c: nat)
    requires c >= 1 && d < Base(w)
    ensures Signed(Base(w), SarSteps(w, d, c).0) == Signed(Base(w), d) / Pow2(c)
    ensures SarSteps(w, d, c).1 <==> Signed(Base(w), d) / Pow2(c - 1) % 2 == 1
    decreases c
  {
    hide SarOnce, Signed, Base;
    SignedParity(w, d);
    if c > 1 {
      var e, x := SarOnce(w, d), Signed(Base(w), d);
      SarIs(w, e, c - 1);
      DivTwice(x, Pow2(c - 1));
      DivTwice(x, Pow2(c - 2));
    }
  }

  lemma SignedParity(w: Width, d: nat)
    ensures Signed(Base(w), d) % 2 == d % 2
  {}

  /** The left shift multiplies: the low limb stays, and CF is the lowest bit that left it. */
  lemma {:induction false} ShlIs(w: Width, d: nat, c: nat)
    requires c >= 1
    ensures ShlSteps(w, d, c) == (d * Pow2(c) % Base(w), d * Pow2(c) / Base(w) % 2 == 1)
    decreases c
  {
    hide Pow2, Base, ShlSteps;
    ShlNext(w, d, c);
    if c > 1 {
      var e, k := 2 * d % Base(w), 2 * d / Base(w);
      ShlIs(w, e, c - 1);
      DivMod(2 * d, Base(w));
      Doubled(c - 1);
      Doubled(c - 2);
      ShlStep(d, Base(w), Pow2(c - 2), e, k, e * Pow2(c - 1), d * Pow2(c));
    }
  }

  lemma ShlNext(w: Width, d: nat, c: nat)
    requires c >= 1
    ensures c == 1 ==> ShlSteps(w, d, c) == (d * Pow2(c) % Base(w), d * Pow2(c) / Base(w) % 2 == 1)
    ensures c > 1 ==> ShlSteps(w, d, c) == ShlSteps(w, 2 * d % Base(w), c - 1)
  {
    if c == 1 { assert Pow2(1) == 2; }
  }

  /** One doubling taken modulo b does not change what 2 * p more make of the number. */
  lemma ShlStep(d: nat, b: nat, p: nat, e: nat, k: nat, low: nat, high: nat)
    requires b > 0 && 2 * d == e + k * b && low == e * (2 * p) && high == d * (2 * (2 * p))
    ensures high % b == low % b && high / b % 2 == low / b % 2
  {
    Regroup(d, e, k, 2 * p, b);
    var m := k * p;
    DoubleFactor(p, k);
    SameRemainder(high, low, 2 * m, b);
  }

  lemma SameRemainder(high: int, low: int, m: int, b: int)
    requires b > 0 && high == low + m * b
    ensures high % b == low % b && high / b == low / b + m
  {
    DivShifted(low, m, b);
    DivMod(low, b);
    DivMod(high, b);
    var q := low / b;
    assert (q + m) * b == q * b + m * b;
  }

  lemma DivMod(n: int, p: int)
    requires p > 0
    ensures n == (n / p) * p + n % p
  {}

  lemma Regroup(d: int, e: int, k: int, p: int, b: int)
    requires 2 * d == e + k * b
    ensures d * (2 * p) == e * p + (k * p) * b
  {
    assert d * (2 * p) == (2 * d) * p;
    assert (e + k * b) * p == e * p + (k * b) * p;
    assert (k * b) * p == (k * p) * b;
  }

  // ---------- the program's shifts ----------

  /** x | y */
  function Or(x: nat, y: nat): nat {
    if x == 0 && y == 0 then 0 else 2 * Or(x / 2, y / 2) + if x % 2 == 1 || y % 2 == 1 then 1 else 0
  }

  /** Bits that do not meet add up. */
  lemma {:induction false} OrApart(x: nat, y: nat, k: nat)
    requires x < Pow2(k)
    ensures Or(x, y * Pow2(k)) == x + y * Pow2(k)
  {
    if k == 0 {
      OrZero(y);
    } else {
      var p := Pow2(k - 1);
      assert y * (2 * p) == 2 * (y * p);
      OrApart(x / 2, y, k - 1);
    }
  }

  lemma {:induction false} OrZero(y: nat)
    ensures Or(0, y) == y
  {
    if y > 0 { OrZero(y / 2); }
  }

  /** x >> k, for k below 32 */
  function ShiftRight(x: U32, k: nat): (r: U32)
    requires k < 32
    ensures r == x / Pow2(k)
  {
    DivBounds(x, Pow2(k));
    assert 0 <= x / Pow2(k) <= x by { QuotientSmall(x, Pow2(k)); }
    x / Pow2(k)
  }

  /** The flags of a shift; OF is not touched. */
  function ShiftFlags(w: Width, f: Flags, s: nat, carry: bool): Flags {
    Flags(carry, EvenParity(s), s == 0, 2 * s >= Base(w), f.OF)
  }

  /** The C expressions for the three results and their carries. */
  lemma ShlByExpressions(w: Width, d: U32, c: nat)
    requires d < Base(w) && 1 <= c <= w && c < 32
    ensures ShlSteps(w, d, c) == (Mask(w, ShiftLeft(d, c)), ShiftRight(d, w - c) % 2 == 1)
  {
    hide Pow2, ShlSteps, Mask, Wrap, Base;
    ShlIs(w, d, c);
    Pow2Width(w);
    Pow2Sum(c, w - c);
    var p, q := Pow2(c), Pow2(w - c);
    DivCommon(d, q, p);
    MaskWraps(w, d * p);
  }

  lemma MaskWraps(w: Width, x: nat)
    ensures Mask(w, Wrap(x)) == x % Base(w)
  {
    if w == 8 { LowBits8(x); } else if w == 16 { LowBits16(x); }
  }

  lemma LowBits8(x: nat)
    ensures x % 0x1_0000_0000 % 0x100 == x % 0x100
  {
    var q, y := x / 0x1_0000_0000, x % 0x1_0000_0000;
    var a, r := y / 0x100, y % 0x100;
    Rest8(x, q * 0x100_0000 + a, r);
  }

  lemma Rest8(x: nat, n: nat, r: nat)
    requires x == n * 0x100 + r && r < 0x100
    ensures x % 0x100 == r
  {}

  lemma LowBits16(x: nat)
    ensures x % 0x1_0000_0000 % 0x1_0000 == x % 0x1_0000
  {
    var q, y := x / 0x1_0000_0000, x % 0x1_0000_0000;
    var a, r := y / 0x1_0000, y % 0x1_0000;
    Rest16(x, q * 0x1_0000 + a, r);
  }

  lemma Rest16(x: nat, n: nat, r: nat)
    requires x == n * 0x1_0000 + r && r < 0x1_0000
    ensures x % 0x1_0000 == r
  {}

  lemma DivCommon(n: nat, q: nat, p: nat)
    requires p > 0 && q > 0
    ensures n * p / (p * q) == n / q
  {
    DivBounds(n, q);
    ScaledBounds(n, q, p, n / q);
    Times(1, p, q);
    DivUnique(n * p, p * q, n / q);
  }

  lemma ScaledBounds(n: int, q: int, p: int, r: int)
    requires p > 0 && r * q <= n < (r + 1) * q
    ensures r * (p * q) <= n * p < (r + 1) * (p * q)
  {
    Exchange(r, p, q);
    Exchange(r + 1, p, q);
    Times(r * q, n, p);
    Times(n + 1, (r + 1) * q, p);
  }

  lemma Exchange(r: int, p: int, q: int)
    ensures r * (p * q) == (r * q) * p
  {}

  /** dest >> src, with ones from the top if the sign bit is set. */
  function Filled(w: Width, d: U32, c: nat): nat
    requires 1 <= c < 32 && (c <= w || TopBit(w, d) % 2 == 0)
  {
    if TopBit(w, d) % 2 == 1 then Or(ShiftRight(d, c), ShiftLeft(0xffff_ffff, w - c)) else ShiftRight(d, c)
  }

  lemma SarByExpressions(w: Width, d: U32, c: nat)
    requires d < Base(w) && 1 <= c < 32 && (c <= w || 2 * d < Base(w))
    ensures c <= w || TopBit(w, d) % 2 == 0
    ensures Filled(w, d, c) < 0x1_0000_0000
    ensures SarSteps(w, d, c) == (Mask(w, Filled(w, d, c)), ShiftRight(d, c - 1) % 2 == 1)
  {
    hide Pow2, SarSteps, ShiftRight, ShiftLeft, Or, Mask, Base, TopBit;
    SarIs(w, d, c);
    TopBitIs(w, d);
    if 2 * d >= Base(w) {
      QuotientBelow(w, d, c);
      NegativeParts(w, d, c);
      HighOr(ShiftRight(d, c), w - c);
      SignedIs(w, ShiftRight(d, c), Pow2(w - c), SarSteps(w, d, c).0);
    } else {
      SignedSmall(w, ShiftRight(d, c), SarSteps(w, d, c).0);
    }
  }

  lemma QuotientBelow(w: Width, d: U32, c: nat)
    requires d < Base(w) && 1 <= c <= w && c < 32
    ensures ShiftRight(d, c) < Pow2(w - c) <= Base(w)
  {
    hide Pow2, Base;
    Pow2Width(w);
    Pow2Sum(c, w - c);
    SmallQuotient(d, Pow2(c), Pow2(w - c));
    Times(1, Pow2(c), Pow2(w - c));
  }

  /** A negative operand's reading, shifted, and its lowest bit. */
  lemma NegativeParts(w: Width, d: U32, c: nat)
    requires d < Base(w) <= 2 * d && 1 <= c <= w && c < 32
    ensures Signed(Base(w), d) / Pow2(c) == ShiftRight(d, c) - Pow2(w - c)
    ensures Signed(Base(w), d) / Pow2(c - 1) % 2 == ShiftRight(d, c - 1) % 2
  {
    hide Pow2, Base;
    Pow2Width(w);
    Pow2Sum(c, w - c);
    Pow2Sum(c - 1, w - c + 1);
    Doubled(w - c);
    NegativeShifts(d, Base(w), Pow2(c), Pow2(w - c), Pow2(c - 1));
  }

  lemma NegativeShifts(d: int, b: int, p: int, q: int, o: int)
    requires p > 0 && o > 0 && p * q == b && o * (2 * q) == b
    ensures (d - b) / p == d / p - q && (d - b) / o % 2 == d / o % 2
  {
    ShiftedDown(d, b, p, q);
    ShiftedDown(d, b, o, 2 * q);
    EvenLess(d / o, q);
  }

  lemma EvenLess(n: int, q: int)
    ensures (n - 2 * q) % 2 == n % 2
  {}

  lemma ShiftedDown(d: int, b: int, p: int, q: int)
    requires p > 0 && p * q == b
    ensures (d - b) / p == d / p - q
  {
    NegateProduct(p, q);
    DivShifted(d, -q, p);
  }

  lemma NegateProduct(p: int, q: int)
    ensures -q * p == -(p * q)
  {}

  lemma SmallQuotient(d: nat, p: nat, q: nat)
    requires p > 0 && d < p * q
    ensures d / p < q
  {
    DivBounds(d, p);
    var r := d / p;
    if r >= q { Times(q, r, p); }
  }

  lemma HighOr(s: nat, k: nat)
    requires k < 32 && s < Pow2(k)
    ensures Or(s, ShiftLeft(0xffff_ffff, k)) == s + (0x1_0000_0000 - Pow2(k))
  {
    hide Pow2, Or, ShiftLeft;
    HighOnes(k);
    OrApart(s, Pow2(32 - k) - 1, k);
  }

  /** 0xffffffff << k */
  lemma HighOnes(k: nat)
    requires k < 32
    ensures ShiftLeft(0xffff_ffff, k) == 0x1_0000_0000 - Pow2(k) == (Pow2(32 - k) - 1) * Pow2(k)
  {
    hide Pow2, Wrap;
    Pow2Sum(32 - k, k);
    Pow2Width(32);
    LessOne(Pow2(32 - k), Pow2(k));
    WrapHigh(Pow2(k));
  }

  lemma LessOne(q: nat, p: nat)
    requires q > 0
    ensures (q - 1) * p == q * p - p && p <= q * p
  {
    Times(1, q, p + 1);
  }

  lemma WrapHigh(p: nat)
    requires p <= 0x1_0000_0000
    ensures p > 0 ==> Wrap(0xffff_ffff * p) == 0x1_0000_0000 - p
  {
    if p > 0 { assert 0xffff_ffff * p == (p - 1) * 0x1_0000_0000 + (0x1_0000_0000 - p); }
  }

  /** A number is known by its signed reading. */
  lemma SignedIs(w: Width, s: nat, q: nat, r: nat)
    requires r < Base(w) && s < q <= Base(w)
    requires Signed(Base(w), r) == s - q && s - q < 0
    ensures s + (0x1_0000_0000 - q) < 0x1_0000_0000 && Mask(w, s + (0x1_0000_0000 - q)) == r
  {}

  lemma SignedSmall(w: Width, s: nat, r: nat)
    requires r < Base(w) && Signed(Base(w), r) == s
    ensures Mask(w, s) == r
  {}

  lemma SignedSmallMask(w: Width, s: nat)
    requires s < Base(w)
    ensures Mask(w, s) == s
  {}

  /** A count of 0 leaves the number alone; the program clears CF then, and sets the other flags. */
  function ShlBy(w: Width, d: nat, c: nat): (nat, bool) { if c == 0 then (d, false) else ShlSteps(w, d, c) }

  lemma ShlByZero(w: Width, d: U32)
    requires d < Base(w) && w < 32
    ensures Mask(w, ShiftLeft(d, 0)) == d && ShiftRight(d, w) == 0
  {
    Pow2Width(w);
    assert Pow2(0) == 1;
    SmallQuotient(d, Pow2(w), 1);
    SignedSmallMask(w, d);
  }

  /** The flags of a shift to the left, in terms of the product; OF stays. */
  lemma ShlFlags(w: Width, f: Flags, d: nat, c: nat)
    requires d < Base(w)
    ensures var (s, out) := ShlBy(w, d, c);
            var g, product := ShiftFlags(w, f, s, out), d * Pow2(c);
            && (g.ZF <==> product % Base(w) == 0)
            && (g.SF <==> product % Base(w) / (Base(w) / 2) == 1)
            && (g.PF <==> !XorOfBits(product % Base(w), 8))
            && (g.CF <==> c > 0 && product / Base(w) % 2 == 1)
            && g.OF == f.OF
  {
    hide Pow2, ShlSteps, XorOfBits, EvenParity;
    if c == 0 { PowZero(); } else { ShlIs(w, d, c); }
    var s := ShlBy(w, d, c).0;
    DivBounds(d * Pow2(c), Base(w));
    assert s == d * Pow2(c) % Base(w);
    EvenParityIff(s);
    HalvesOfBase(w, s);
  }

  lemma PowZero()
    ensures Pow2(0) == 1
  {}

  /** Of one to the right: ZF says that nothing but places shifted out was set. */
  lemma ShrFlags(w: Width, f: Flags, d: nat, c: nat)
    requires d < Base(w) && c >= 1
    ensures var (s, out) := ShrSteps(d, c);
            var g := ShiftFlags(w, f, s, out);
            && (g.ZF <==> d < Pow2(c)) && !g.SF
            && (g.PF <==> !XorOfBits(d / Pow2(c), 8))
            && (g.CF <==> d / Pow2(c - 1) % 2 == 1)
            && g.OF == f.OF
  {
    hide Pow2, ShrSteps, XorOfBits, EvenParity;
    ShrIs(d, c);
    var s := d / Pow2(c);
    QuotientSmall(d, Pow2(c));
    EvenParityIff(s);
    DivBounds(d, Pow2(c));
    Doubled(c - 1);
    HalfAtMost(d, s, Pow2(c - 1));
    if s > 0 { Times(1, s, Pow2(c)); }
  }

  lemma HalfAtMost(d: nat, s: nat, p: nat)
    requires p > 0 && s * (2 * p) <= d
    ensures 2 * s <= d
  {
    assert s * (2 * p) == (2 * s) * p;
    Times(1, p, 2 * s + 1);
  }

  /** And of an arithmetic one: ZF and SF are those of the signed quotient. */
  lemma SarFlags(w: Width, f: Flags, d: nat, c: nat)
    requires d < Base(w) && c >= 1
    ensures var (s, out) := SarSteps(w, d, c);
            var g, x := ShiftFlags(w, f, s, out), Signed(Base(w), d);
            && (g.ZF <==> 0 <= x < Pow2(c)) && (g.SF <==> x < 0)
            && (g.PF <==> !XorOfBits(x / Pow2(c) % Base(w), 8))
            && (g.CF <==> x / Pow2(c - 1) % 2 == 1)
            && g.OF == f.OF
  {
    hide Pow2, SarSteps, XorOfBits, EvenParity;
    SarIs(w, d, c);
    var s, x := SarSteps(w, d, c).0, Signed(Base(w), d);
    EvenParityIff(s);
    SignedIff(w, s, x / Pow2(c));
    DivBounds(x, Pow2(c));
    SignOfQuotient(x, Pow2(c), x / Pow2(c));
  }

  lemma SignOfQuotient(x: int, p: nat, q: int)
    requires p > 0 && q * p <= x < (q + 1) * p
    ensures q < 0 <==> x < 0
    ensures q == 0 <==> 0 <= x < p
  {
    if q < 0 { Times(q + 1, 0, p); }
    if q > 0 { Times(1, q, p); }
  }

  /** alu_shl, and alu_sal which is the same */
  method AluShl(cpu: Cpu, srcIn: U32, destIn: U32, w: Width) returns (s: U32)
    requires Mask(w, srcIn) <= w && w - Mask(w, srcIn) < 32 && Mask(w, srcIn) < 32
    modifies cpu
    ensures var (r, out) := ShlBy(w, Mask(w, destIn), Mask(w, srcIn));
            s == r && cpu.eflags == ShiftFlags(w, old(cpu.eflags), s, out)
  {
    hide Pow2, ShlSteps, ShiftLeft, ShiftRight;
    var src, dest := Mask(w, srcIn), Mask(w, destIn);
    s := Mask(w, ShiftLeft(dest, src));
    if src == 0 { ShlByZero(w, dest); } else { ShlByExpressions(w, dest, src); }
    TopBitIs(w, s);
    cpu.eflags := cpu.eflags.(CF := ShiftRight(dest, w - src) % 2 == 1);
    cpu.eflags := cpu.eflags.(ZF := s == 0, SF := TopBit(w, s) == 1, PF := EvenParity(s));
  }

  /** alu_shr */
  method AluShr(cpu: Cpu, srcIn: U32, destIn: U32, w: Width) returns (s: U32)
    requires 1 <= Mask(w, srcIn) < 32
    modifies cpu
    ensures var (r, out) := ShrSteps(Mask(w, destIn), Mask(w, srcIn));
            s == r && cpu.eflags == ShiftFlags(w, old(cpu.eflags), s, out)
  {
    hide Pow2, ShrSteps;
    var src, dest := Mask(w, srcIn), Mask(w, destIn);
    s := ShiftRight(dest, src);
    ShrIs(dest, src);
    QuotientSmall(dest, Pow2(src));
    SignedSmallMask(w, s);
    s := Mask(w, s);
    TopBitIs(w, s);
    cpu.eflags := cpu.eflags.(CF := ShiftRight(dest, src - 1) % 2 == 1);
    cpu.eflags := cpu.eflags.(ZF := s == 0, SF := TopBit(w, s) == 1, PF := EvenParity(s));
  }

  /** alu_sar */
  method AluSar(cpu: Cpu, srcIn: U32, destIn: U32, w: Width) returns (s: U32)
    requires 1 <= Mask(w, srcIn) < 32 && (Mask(w, srcIn) <= w || 2 * Mask(w, destIn) < Base(w))
    modifies cpu
    ensures var (r, out) := SarSteps(w, Mask(w, destIn), Mask(w, srcIn));
            s == r && cpu.eflags == ShiftFlags(w, old(cpu.eflags), s, out)
  {
    var src, dest := Mask(w, srcIn), Mask(w, destIn);
    hide Pow2, SarSteps, ShiftRight, ShiftLeft, Or, Mask, Base;
    SarByExpressions(w, dest, src);
    var sign := TopBit(w, dest) % 2;
    s := ShiftRight(dest, src);
    if sign == 1 { s := Or(s, ShiftLeft(0xffff_ffff, w - src)); }
    s := Mask(w, s);
    TopBitIs(w, s);
    cpu.eflags := cpu.eflags.(CF := ShiftRight(dest, src - 1) % 2 == 1);
    cpu.eflags := cpu.eflags.(ZF := s == 0, SF := TopBit(w, s) == 1, PF := EvenParity(s));
  }
}
