/** Numbers of any length, least significant limb first: an add followed by adc up the chain, a
    sub followed by sbb, and the conditions that the last limb's flags decide. */
module AluChains {
  import opened Alu

  predicate Limbs(w: Width, a: seq<nat>) { forall i :: 0 <= i < |a| ==> a[i] < Base(w) }

  /** x times the base, one limb up. */
  function Up(w: Width, x: int): int {
    if w == 8 then 0x100 * x else if w == 16 then 0x1_0000 * x else 0x1_0000_0000 * x
  }

  /** The base to the power k. */
  function Power(w: Width, k: nat): (p: nat)
    ensures p > 0 && (k > 0 ==> p % 2 == 0)
  {
    if k == 0 then 1 else Up(w, Power(w, k - 1))
  }

  /** The unsigned number ... */
  function Num(w: Width, a: seq<nat>): nat { if a == [] then 0 else a[0] + Up(w, Num(w, a[1..])) }

  /** ... and the two's-complement number a limb sequence stands for: only the top limb is signed. */
  function SignedNum(w: Width, a: seq<nat>): int
    requires a != []
  {
    if |a| == 1 then Signed(Base(w), a[0]) else a[0] + Up(w, SignedNum(w, a[1..]))
  }

  /** A carry of one turn around a modulus p. */
  function Turn(p: int, c: bool): int { if c then p else 0 }

  /** The limbs a chain leaves in memory and the flags its last instruction leaves. */
  datatype Outcome = Outcome(limbs: seq<nat>, flags: Flags)

  /** One alu_add (carry false) or alu_adc on the lowest limb, alu_adc on the others. */
  function SumChain(w: Width, src: seq<nat>, dest: seq<nat>, carry: bool): (o: Outcome)
    requires src != [] && |src| == |dest| && Limbs(w, src) && Limbs(w, dest)
    ensures |o.limbs| == |src| && Limbs(w, o.limbs)
  {
    var (s, f) := SumLimb(w, src[0], dest[0], carry);
    if |src| == 1 then Outcome([s], f)
    else
      var rest := SumChain(w, src[1..], dest[1..], f.CF);
      Outcome([s] + rest.limbs, rest.flags)
  }

  /** One alu_sub (borrow false) or alu_sbb on the lowest limb, alu_sbb on the others. */
  function DifferenceChain(w: Width, src: seq<nat>, dest: seq<nat>, borrow: bool): (o: Outcome)
    requires src != [] && |src| == |dest| && Limbs(w, src) && Limbs(w, dest)
    ensures |o.limbs| == |src| && Limbs(w, o.limbs)
  {
    var (s, f) := DifferenceLimb(w, src[0], dest[0], borrow);
    if |src| == 1 then Outcome([s], f)
    else
      var rest := DifferenceChain(w, src[1..], dest[1..], f.CF);
      Outcome([s] + rest.limbs, rest.flags)
  }

  // ---------- one limb up: linear facts ----------

  /** x = low + base*y with a limb as low part: signs and ranges are those of y. */
  lemma StepUp(w: Width, low: nat, y: int, p: nat)
    requires low < Base(w) && p % 2 == 0
    ensures low + Up(w, y) < 0 <==> y < 0
    ensures Fits(Up(w, p), low + Up(w, y)) <==> Fits(p, y)
    ensures 2 * (low + Up(w, y)) >= Up(w, p) <==> 2 * y >= p
    ensures low + Up(w, y) < Up(w, p) <==> y < p
  {
    var h := p / 2;
    assert p == 2 * h;
  }

  /** The equation of the low limb and that of the others make the equation of the whole. */
  lemma Combine(w: Width, x0: int, y0: int, c0: int, s: int, c: int, x: int, y: int)
    requires s - Up(w, c) == x0 - y0 - c0
    ensures (x0 + Up(w, x)) - (y0 + Up(w, y)) - c0 == s + Up(w, x - y - c)
  {}

  lemma UpSum(w: Width, x: int, y: int)
    ensures Up(w, x + y) == Up(w, x) + Up(w, y)
  {}

  lemma UpTurn(w: Width, p: int, c: bool)
    ensures Turn(Up(w, p), c) == Up(w, Turn(p, c))
  {}

  lemma SumLimbEquation(w: Width, src: nat, dest: nat, carry: bool)
    requires src < Base(w) && dest < Base(w)
    ensures var (s, f) := SumLimb(w, src, dest, carry);
            s < Base(w) && s - Up(w, -(Bit(f.CF) as int)) == dest - (-(src as int)) - (-(Bit(carry) as int))
  {}

  lemma DifferenceLimbEquation(w: Width, src: nat, dest: nat, borrow: bool)
    requires src < Base(w) && dest < Base(w)
    ensures var (s, f) := DifferenceLimb(w, src, dest, borrow);
            s < Base(w) && s - Up(w, Bit(f.CF)) == dest - src - Bit(borrow)
  {}

  /** The signed reading is the unsigned one less a full turn when the top bit is set. */
  lemma {:induction false} SignedNumIs(w: Width, a: seq<nat>)
    requires a != [] && Limbs(w, a)
    ensures Num(w, a) < Power(w, |a|)
    ensures SignedNum(w, a) == Signed(Power(w, |a|), Num(w, a))
  {
    if |a| == 1 {
      SingleLimb(w, a[0], a);
    } else {
      SignedNumIs(w, a[1..]);
      var y, p := Num(w, a[1..]), Power(w, |a| - 1);
      StepUp(w, a[0], y, p);
      UpSum(w, y as int - p, p);
    }
  }

  lemma SingleLimb(w: Width, x: nat, a: seq<nat>)
    requires a == [x]
    ensures Num(w, a) == x && SignedNum(w, a) == Signed(Base(w), x) && Power(w, 1) == Base(w)
  {
    assert a[1..] == [] && Power(w, 0) == 1;
  }

  // ---------- the chains are exact ----------

  ghost predicate SumExact(w: Width, src: seq<nat>, dest: seq<nat>, carry: bool, o: Outcome)
    requires src != [] && |src| == |dest|
  {
    var p := Power(w, |src|);
    && Num(w, o.limbs) + Turn(p, o.flags.CF) == Num(w, src) + Num(w, dest) + Bit(carry)
    && (o.flags.OF <==> !Fits(p, SignedNum(w, src) + SignedNum(w, dest) + Bit(carry)))
    && (o.flags.SF <==> 2 * Num(w, o.limbs) >= p)
  }

  /** Limbs plus final CF are the exact sum, final OF is signed overflow of the whole number. */
  lemma {:induction false} SumChainExact(w: Width, src: seq<nat>, dest: seq<nat>, carry: bool)
    requires src != [] && |src| == |dest| && Limbs(w, src) && Limbs(w, dest)
    ensures SumExact(w, src, dest, carry, SumChain(w, src, dest, carry))
  {
    hide Up, EvenParity;
    if |src| == 1 {
      SingleLimb(w, src[0], src);
      SingleLimb(w, dest[0], dest);
      SingleLimb(w, SumLimb(w, src[0], dest[0], carry).0, SumChain(w, src, dest, carry).limbs);
    } else {
      var c := SumLimb(w, src[0], dest[0], carry).1.CF;
      SumChainExact(w, src[1..], dest[1..], c);
      SumStep(w, src, dest, carry, SumChain(w, src[1..], dest[1..], c));
    }
  }

  lemma SumStep(w: Width, src: seq<nat>, dest: seq<nat>, carry: bool, rest: Outcome)
    requires |src| > 1 && |src| == |dest| && Limbs(w, src) && Limbs(w, dest)
    requires SumExact(w, src[1..], dest[1..], SumLimb(w, src[0], dest[0], carry).1.CF, rest)
    ensures SumExact(w, src, dest, carry, Outcome([SumLimb(w, src[0], dest[0], carry).0] + rest.limbs, rest.flags))
  {
    hide Up, Fits, Signed, EvenParity;
    var s, c := SumLimb(w, src[0], dest[0], carry).0, -(Bit(SumLimb(w, src[0], dest[0], carry).1.CF) as int);
    var p, z := Power(w, |src| - 1), Num(w, rest.limbs);
    var x, y := Num(w, dest[1..]), -(Num(w, src[1..]) as int);
    var u, v := SignedNum(w, dest[1..]), -SignedNum(w, src[1..]);
    assert ([s] + rest.limbs)[1..] == rest.limbs;
    SumLimbEquation(w, src[0], dest[0], carry);
    Combine(w, dest[0], -(src[0] as int), -(Bit(carry) as int), s, c, x, y);
    Combine(w, dest[0], -(src[0] as int), -(Bit(carry) as int), s, c, u, v);
    UpTurn(w, p, rest.flags.CF);
    UpSum(w, z, Turn(p, rest.flags.CF));
    StepUp(w, s, u - v - c, p);
    StepUp(w, s, z, p);
    UpNegated(w, Num(w, src[1..]));
    UpNegated(w, SignedNum(w, src[1..]));
  }

  lemma UpNegated(w: Width, x: int)
    ensures Up(w, -x) == -Up(w, x)
  {}

  /** Final CF is unsigned less-than, final SF != OF is signed less-than. */
  ghost predicate DifferenceExact(w: Width, src: seq<nat>, dest: seq<nat>, borrow: bool, o: Outcome)
    requires src != [] && |src| == |dest|
  {
    var p := Power(w, |src|);
    && Num(w, o.limbs) - Turn(p, o.flags.CF) == Num(w, dest) - Num(w, src) - Bit(borrow)
    && (o.flags.CF <==> Num(w, dest) - Num(w, src) - Bit(borrow) < 0)
    && (o.flags.OF <==> !Fits(p, SignedNum(w, dest) - SignedNum(w, src) - Bit(borrow)))
    && (o.flags.SF != o.flags.OF <==> SignedNum(w, dest) - SignedNum(w, src) - Bit(borrow) < 0)
  }

  lemma {:induction false} DifferenceChainExact(w: Width, src: seq<nat>, dest: seq<nat>, borrow: bool)
    requires src != [] && |src| == |dest| && Limbs(w, src) && Limbs(w, dest)
    ensures DifferenceExact(w, src, dest, borrow, DifferenceChain(w, src, dest, borrow))
  {
    hide Up, EvenParity;
    if |src| == 1 {
      SingleLimb(w, src[0], src);
      SingleLimb(w, dest[0], dest);
      SingleLimb(w, DifferenceLimb(w, src[0], dest[0], borrow).0, DifferenceChain(w, src, dest, borrow).limbs);
    } else {
      var c := DifferenceLimb(w, src[0], dest[0], borrow).1.CF;
      DifferenceChainExact(w, src[1..], dest[1..], c);
      DifferenceStep(w, src, dest, borrow, DifferenceChain(w, src[1..], dest[1..], c));
    }
  }

  lemma DifferenceStep(w: Width, src: seq<nat>, dest: seq<nat>, borrow: bool, rest: Outcome)
    requires |src| > 1 && |src| == |dest| && Limbs(w, src) && Limbs(w, dest)
    requires DifferenceExact(w, src[1..], dest[1..], DifferenceLimb(w, src[0], dest[0], borrow).1.CF, rest)
    ensures DifferenceExact(w, src, dest, borrow,
                            Outcome([DifferenceLimb(w, src[0], dest[0], borrow).0] + rest.limbs, rest.flags))
  {
    hide Up, Fits, Signed, EvenParity;
    var s, c := DifferenceLimb(w, src[0], dest[0], borrow).0, Bit(DifferenceLimb(w, src[0], dest[0], borrow).1.CF);
    var p, z := Power(w, |src| - 1), Num(w, rest.limbs);
    var x, y := Num(w, dest[1..]), Num(w, src[1..]);
    var u, v := SignedNum(w, dest[1..]), SignedNum(w, src[1..]);
    assert ([s] + rest.limbs)[1..] == rest.limbs;
    DifferenceLimbEquation(w, src[0], dest[0], borrow);
    Combine(w, dest[0], src[0], Bit(borrow), s, c, x, y);
    Combine(w, dest[0], src[0], Bit(borrow), s, c, u, v);
    UpTurn(w, p, rest.flags.CF);
    UpSum(w, x as int - y - c, Turn(p, rest.flags.CF));
    StepUp(w, s, x as int - y - c, p);
    StepUp(w, s, u - v - c, p);
  }

  /** Subtracting what was added gives back every limb, whatever the carry out was. */
  lemma {:induction false} DifferenceUndoesSum(w: Width, src: seq<nat>, dest: seq<nat>, carry: bool)
    requires src != [] && |src| == |dest| && Limbs(w, src) && Limbs(w, dest)
    ensures var sum := SumChain(w, src, dest, carry);
            var back := DifferenceChain(w, src, sum.limbs, carry);
            back.limbs == dest && back.flags.CF == sum.flags.CF
  {
    var (s, f) := SumLimb(w, src[0], dest[0], carry);
    var (d, g) := DifferenceLimb(w, src[0], s, carry);
    assert d == dest[0] && g.CF == f.CF;
    if |src| == 1 {
      assert dest == [dest[0]];
    } else {
      var rest := SumChain(w, src[1..], dest[1..], f.CF);
      DifferenceUndoesSum(w, src[1..], dest[1..], f.CF);
      assert ([s] + rest.limbs)[1..] == rest.limbs;
      assert dest == [dest[0]] + dest[1..];
    }
  }

  // ---------- condition codes ----------

  predicate CondE(f: Flags) { f.ZF }
  predicate CondA(f: Flags) { !f.CF && !f.ZF }
  predicate CondAE(f: Flags) { !f.CF }
  predicate CondB(f: Flags) { f.CF }
  predicate CondBE(f: Flags) { f.CF || f.ZF }
  predicate CondG(f: Flags) { !f.ZF && f.SF == f.OF }
  predicate CondGE(f: Flags) { f.SF == f.OF }
  predicate CondL(f: Flags) { f.SF != f.OF }
  predicate CondLE(f: Flags) { f.ZF || f.SF != f.OF }

  /** After a compare of single limbs every condition is the order it is named for. */
  lemma CompareConditions(w: Width, src: nat, dest: nat)
    requires src < Base(w) && dest < Base(w)
    ensures var b, f := Base(w), DifferenceLimb(w, src, dest, false).1;
            && (CondE(f) <==> dest == src) && (CondA(f) <==> dest > src) && (CondAE(f) <==> dest >= src)
            && (CondB(f) <==> dest < src) && (CondBE(f) <==> dest <= src)
            && (CondG(f) <==> Signed(b, dest) > Signed(b, src)) && (CondGE(f) <==> Signed(b, dest) >= Signed(b, src))
            && (CondL(f) <==> Signed(b, dest) < Signed(b, src)) && (CondLE(f) <==> Signed(b, dest) <= Signed(b, src))
  {}

  /** After a whole chain the four conditions that do not look at ZF still are. */
  lemma ChainConditions(w: Width, src: seq<nat>, dest: seq<nat>)
    requires src != [] && |src| == |dest| && Limbs(w, src) && Limbs(w, dest)
    ensures var f := DifferenceChain(w, src, dest, false).flags;
            && (CondB(f) <==> Num(w, dest) < Num(w, src)) && (CondAE(f) <==> Num(w, dest) >= Num(w, src))
            && (CondL(f) <==> SignedNum(w, dest) < SignedNum(w, src))
            && (CondGE(f) <==> SignedNum(w, dest) >= SignedNum(w, src))
  {
    DifferenceChainExact(w, src, dest, false);
  }

  /** The last limb is zero exactly if the number has no part there. */
  lemma {:induction false} TopLimbZero(w: Width, a: seq<nat>)
    requires a != [] && Limbs(w, a)
    ensures a[|a| - 1] == 0 <==> Num(w, a) < Power(w, |a| - 1)
  {
    if |a| == 1 {
      SingleLimb(w, a[0], a);
      assert Power(w, 0) == 1;
    } else {
      hide Up;
      TopLimbZero(w, a[1..]);
      assert a[1..][|a| - 2] == a[|a| - 1];
      BelowUp(w, a[0], Num(w, a[1..]), Power(w, |a| - 2));
    }
  }

  lemma BelowUp(w: Width, low: nat, y: nat, p: nat)
    requires low < Base(w)
    ensures low + Up(w, y) < Up(w, p) <==> y < p
  {}

  /** ZF of a sum looks at the last limb only, too. */
  lemma {:induction false} SumChainZero(w: Width, src: seq<nat>, dest: seq<nat>, carry: bool)
    requires src != [] && |src| == |dest| && Limbs(w, src) && Limbs(w, dest)
    ensures var o := SumChain(w, src, dest, carry); o.flags.ZF <==> Num(w, o.limbs) < Power(w, |src| - 1)
  {
    hide EvenParity, Fits, Signed, Num, Power, Up;
    SumLastLimb(w, src, dest, carry);
    TopLimbZero(w, SumChain(w, src, dest, carry).limbs);
  }

  lemma {:induction false} SumLastLimb(w: Width, src: seq<nat>, dest: seq<nat>, carry: bool)
    requires src != [] && |src| == |dest| && Limbs(w, src) && Limbs(w, dest)
    ensures var o := SumChain(w, src, dest, carry); o.flags.ZF <==> o.limbs[|o.limbs| - 1] == 0
  {
    hide EvenParity, Fits, Signed;
    if |src| > 1 {
      var (s, f) := SumLimb(w, src[0], dest[0], carry);
      SumLastLimb(w, src[1..], dest[1..], f.CF);
      var rest := SumChain(w, src[1..], dest[1..], f.CF);
      assert ([s] + rest.limbs)[|rest.limbs|] == rest.limbs[|rest.limbs| - 1];
    }
  }

  /** ZF looks at the last limb only. */
  lemma {:induction false} ChainZero(w: Width, src: seq<nat>, dest: seq<nat>, borrow: bool)
    requires src != [] && |src| == |dest| && Limbs(w, src) && Limbs(w, dest)
    ensures var o := DifferenceChain(w, src, dest, borrow); o.flags.ZF <==> o.limbs[|o.limbs| - 1] == 0
  {
    hide EvenParity, Fits, Signed;
    if |src| > 1 {
      var (s, f) := DifferenceLimb(w, src[0], dest[0], borrow);
      ChainZero(w, src[1..], dest[1..], f.CF);
      var rest := DifferenceChain(w, src[1..], dest[1..], f.CF);
      assert ([s] + rest.limbs)[|rest.limbs|] == rest.limbs[|rest.limbs| - 1];
    }
  }

  /** dest - src modulo B^n. */
  function Wrapped(w: Width, src: seq<nat>, dest: seq<nat>): int
    requires |src| == |dest|
  {
    Num(w, dest) - Num(w, src) + Turn(Power(w, |src|), Num(w, dest) < Num(w, src))
  }

  /** The difference is not zero, but it is in its last limb. */
  predicate Unseen(w: Width, src: seq<nat>, dest: seq<nat>)
    requires src != [] && |src| == |dest|
  {
    0 < Wrapped(w, src, dest) < Power(w, |src| - 1)
  }

  /** After a whole chain the conditions that look at ZF are the orders they are named for exactly
      when the difference does not hide below a zero last limb, or hides there but the other flag
      has decided already. */
  lemma ZeroConditionsIff(w: Width, src: seq<nat>, dest: seq<nat>)
    requires src != [] && |src| == |dest| && Limbs(w, src) && Limbs(w, dest)
    ensures var f, x, y := DifferenceChain(w, src, dest, false).flags, Num(w, dest), Num(w, src);
            && ((CondE(f) <==> x == y) <==> !Unseen(w, src, dest))
            && ((CondA(f) <==> x > y) <==> !(Unseen(w, src, dest) && x >= y))
            && ((CondBE(f) <==> x <= y) <==> !(Unseen(w, src, dest) && x >= y))
    ensures var f, x, y := DifferenceChain(w, src, dest, false).flags, SignedNum(w, dest), SignedNum(w, src);
            && ((CondG(f) <==> x > y) <==> !(Unseen(w, src, dest) && x >= y))
            && ((CondLE(f) <==> x <= y) <==> !(Unseen(w, src, dest) && x >= y))
  {
    hide DifferenceChain, Num, SignedNum, Power;
    ChainConditions(w, src, dest);
    ZeroFlagIs(w, src, dest);
    SameSigned(w, src, dest);
  }

  lemma ZeroFlagIs(w: Width, src: seq<nat>, dest: seq<nat>)
    requires src != [] && |src| == |dest| && Limbs(w, src) && Limbs(w, dest)
    ensures DifferenceChain(w, src, dest, false).flags.ZF <==> Wrapped(w, src, dest) < Power(w, |src| - 1)
    ensures Wrapped(w, src, dest) >= 0 && (Wrapped(w, src, dest) == 0 <==> Num(w, dest) == Num(w, src))
  {
    hide DifferenceChain, Num, SignedNum, Power;
    var o := DifferenceChain(w, src, dest, false);
    DifferenceChainExact(w, src, dest, false);
    ChainZero(w, src, dest, false);
    TopLimbZero(w, o.limbs);
    SignedNumIs(w, src);
    SignedNumIs(w, dest);
  }

  lemma SameSigned(w: Width, src: seq<nat>, dest: seq<nat>)
    requires src != [] && |src| == |dest| && Limbs(w, src) && Limbs(w, dest)
    ensures SignedNum(w, dest) == SignedNum(w, src) <==> Num(w, dest) == Num(w, src)
  {
    SignedNumIs(w, src);
    SignedNumIs(w, dest);
  }
}
