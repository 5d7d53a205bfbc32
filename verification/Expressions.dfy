/** Expression trees, their C meaning and their printed form (section 6.5 of ISO/IEC 9899:2011),
    and what eval makes of the printed form.  All operands are of type uint32_t, as in eval: the
    text 6 stands for the C constant cast to that type. */
module Expressions {
  import opened Tokens
  import opened Evaluator
  import opened Lexer
  import opened Words

  datatype Tree =
    | Leaf(token: Token)
    | Binary(op: Kind, left: Tree, right: Tree)
    | LogicalNot(arg: Tree)
    | Negate(arg: Tree)
    | Dereference(arg: Tree)

  predicate IsLeaf(k: Kind) { k == Num || k == Hex || k == Reg || k == Symb }

  /** How tightly C binds a binary operator; 0 for anything else. */
  function Precedence(k: Kind): (p: nat)
    ensures p <= 10
  {
    match k
    case Star | Slash | Percent => 10
    case Plus | Minus => 9
    case Sl | Sr => 8
    case Lt | Gt | Le | Ge => 7
    case Eq | Neq => 6
    case Amp => 5
    case Caret => 4
    case Bar => 3
    case And => 2
    case Or => 1
    case _ => 0
  }

  predicate WellFormed(t: Tree) {
    match t
    case Leaf(token) => IsLeaf(token.kind)
    case Binary(op, l, r) => Precedence(op) > 0 && WellFormed(l) && WellFormed(r)
    case LogicalNot(e) => WellFormed(e)
    case Negate(e) => WellFormed(e)
    case Dereference(e) => WellFormed(e)
  }

  // ---------- the meaning in C ----------

  /** The word with these bits. */
  function WordOf(bit: nat -> bool): U32 { ToWord(NumberOf(bit, 32)) }

  /** The binary operators of C on 32-bit unsigned operands, by the numbers they denote. */
  function BinaryMeaning(k: Kind, x: U32, y: U32): Outcome {
    match k
    case Plus => Val((x + y) % 0x1_0000_0000)
    case Minus => Val(if x >= y then x - y else x - y + 0x1_0000_0000)
    case Star => Val((x * y) % 0x1_0000_0000)
    case Slash => if y > 0 then Val(Quotient(x, y)) else Fault
    case Percent => if y > 0 then Val(x % y) else Fault
    case Sl => if y < 32 then Val((x * Pow2(y)) % 0x1_0000_0000) else Fault
    case Sr => if y < 32 then Val(Quotient(x, Pow2(y))) else Fault
    case Lt => Val(Truth(x < y))
    case Gt => Val(Truth(y < x))
    case Le => Val(Truth(!(y < x)))
    case Ge => Val(Truth(!(x < y)))
    case Eq => Val(Truth(x == y))
    case Neq => Val(Truth(!(x == y)))
    case Amp => Val(WordOf((j: nat) => BitAt(x, j) && BitAt(y, j)))
    case Caret => Val(WordOf((j: nat) => BitAt(x, j) != BitAt(y, j)))
    case Bar => Val(WordOf((j: nat) => BitAt(x, j) || BitAt(y, j)))
    case _ => Fault
  }

  /** The value of an expression in C, with the short circuit of && and ||. */
  function Meaning(t: Tree, env: Env): Outcome {
    match t
    case Leaf(token) => LeafValue(token, env)
    case Binary(op, l, r) =>
      var x := Meaning(l, env);
      if x.Fault? then Fault
      else if op == And && x.v == 0 then Val(0)
      else if op == Or && x.v != 0 then Val(1)
      else
        var y := Meaning(r, env);
        if y.Fault? then Fault
        else if op == And || op == Or then Val(Truth(y.v != 0))
        else BinaryMeaning(op, x.v, y.v)
    case LogicalNot(e) => var x := Meaning(e, env); if x.Fault? then Fault else Val(if x.v == 0 then 1 else 0)
    case Negate(e) =>
      var x := Meaning(e, env);
      if x.Fault? then Fault else Val(if x.v == 0 then 0 else 0x1_0000_0000 - x.v)
    case Dereference(e) =>
      var x := Meaning(e, env);
      if x.Val? && x.v in env.memory then Val(env.memory[x.v]) else Fault
  }

  predicate UsesOr(t: Tree) {
    match t
    case Leaf(_) => false
    case Binary(op, l, r) => op == Or || UsesOr(l) || UsesOr(r)
    case LogicalNot(e) => UsesOr(e)
    case Negate(e) => UsesOr(e)
    case Dereference(e) => UsesOr(e)
  }

  /** Every subexpression has a value, also one that a short circuit would skip. */
  predicate AllDefined(t: Tree, env: Env) {
    Meaning(t, env).Val?
    && match t
       case Leaf(_) => true
       case Binary(_, l, r) => AllDefined(l, env) && AllDefined(r, env)
       case LogicalNot(e) => AllDefined(e, env)
       case Negate(e) => AllDefined(e, env)
       case Dereference(e) => AllDefined(e, env)
  }

  /** The tree has no ||, and every part of it is defined. */
  predicate Sound(t: Tree, env: Env) { !UsesOr(t) && AllDefined(t, env) }

  /** The monitor computes the C value of sound trees, and fails on the others. */
  function Expected(t: Tree, env: Env): Outcome { if Sound(t, env) then Meaning(t, env) else Fault }

  // ---------- printing ----------

  function Op(k: Kind): seq<Token> { [Token(k, "")] }

  /** t as an operand that must bind at least as tightly as min, with parentheses where precedence
      and left associativity need them, where the monitor binds a negation no tighter than a binary
      minus, and where its marking pass would not look for a negation or dereference: `marked` says
      that it does here.  The operand of a unary operator is a primary. */
  function Print(t: Tree, min: nat, marked: bool): (ts: seq<Token>)
    requires WellFormed(t)
    ensures ts != []
    decreases t, 1
  {
    if NeedsParens(t, min, marked) then Op(LParen) + Bare(t, true) + Op(RParen) else Bare(t, marked)
  }

  /** The same without outer parentheses. */
  function Bare(t: Tree, marked: bool): (ts: seq<Token>)
    requires WellFormed(t)
    ensures ts != [] && (!t.Leaf? ==> |ts| > 1)
    decreases t, 0
  {
    match t
    case Leaf(token) => [token]
    case Binary(op, l, r) => Print(l, Precedence(op), marked) + Op(op) + Print(r, Precedence(op) + 1, Check(op))
    case LogicalNot(e) => Op(Not) + Print(e, 12, false)
    case Negate(e) => Op(Neg) + Print(e, 12, false)
    case Dereference(e) => Op(Deref) + Print(e, 12, false)
  }

  predicate NeedsParens(t: Tree, min: nat, marked: bool) {
    Tightness(t) < min || ((t.Negate? || t.Dereference?) && !marked)
  }

  /** How tightly the monitor binds the root; a leaf and a prefix operator on its level stay whole. */
  function Tightness(t: Tree): nat {
    match t
    case Leaf(_) => 12
    case Binary(op, _, _) => Precedence(op)
    case LogicalNot(_) => 11
    case Negate(_) => 9
    case Dereference(_) => 11
  }

  // ---------- the shape of printed expressions ----------

  /** Nested, and outside parentheses only operators of level low or more. */
  ghost predicate Shape(ts: seq<Token>, low: int) {
    Nested(ts) && forall i :: 0 <= i < |ts| && Depth(ts, i) == 0 ==> Level(ts[i].kind) == -1 || Level(ts[i].kind) >= low
  }

  lemma ShapeWeaken(ts: seq<Token>, low: int, lower: int)
    requires Shape(ts, low) && lower <= low
    ensures Shape(ts, lower)
  {}

  lemma ShapeSingle(k: Token, low: int)
    requires k.kind != LParen && k.kind != RParen && (Level(k.kind) == -1 || Level(k.kind) >= low)
    ensures Shape([k], low)
  {
    assert Depth([k], 1) == 0;
  }

  lemma ShapeConcat(a: seq<Token>, b: seq<Token>, low: int)
    requires Shape(a, low) && Shape(b, low)
    ensures Shape(a + b, low)
  {
    hide Level, Depth;
    var ts := a + b;
    forall i | 0 <= i <= |ts|
      ensures Depth(ts, i) >= 0
      ensures i < |ts| && Depth(ts, i) == 0 ==> Level(ts[i].kind) == -1 || Level(ts[i].kind) >= low
    {
      if i < |a| {
        DepthOfPrefix(a, b, i);
        assert ts[i] == a[i];
      } else {
        DepthOfSuffix(a, b, i - |a|);
        assert i < |ts| ==> ts[i] == b[i - |a|];
      }
    }
    DepthOfSuffix(a, b, |b|);
  }

  /** Inside "(" ts ")" the depth is one more than inside ts. */
  lemma DepthInParens(ts: seq<Token>, i: nat)
    requires 0 < i <= |ts| + 1
    ensures Depth(Op(LParen) + ts + Op(RParen), i) == 1 + Depth(ts, i - 1)
  {
    var whole := Op(LParen) + (ts + Op(RParen));
    assert Op(LParen) + ts + Op(RParen) == whole;
    DepthOfSuffix(Op(LParen), ts + Op(RParen), i - 1);
    DepthOfPrefix(ts, Op(RParen), i - 1);
    assert Depth(Op(LParen), 1) == 1;
  }

  lemma EnclosesParens(ts: seq<Token>)
    requires Nested(ts)
    ensures Encloses(Op(LParen) + ts + Op(RParen))
  {
    var whole := Op(LParen) + ts + Op(RParen);
    forall i | 0 < i < |whole| ensures Depth(whole, i) > 0 { DepthInParens(ts, i); }
    assert whole[|whole| - 1].kind == RParen && whole[0].kind == LParen;
    DepthInParens(ts, |ts| + 1);
    assert Depth(whole, |whole|) == Depth(whole, |whole| - 1) + Weight(RParen);
  }

  lemma EnclosedShape(ts: seq<Token>, low: int)
    requires Encloses(ts)
    ensures Shape(ts, low)
  {
    hide Level, Weight;
    ParenthesisFacts(LParen);
    assert Depth(ts, 0) == 0;
  }

  lemma ShapeParens(ts: seq<Token>, low: int, high: int)
    requires Shape(ts, low)
    ensures Shape(Op(LParen) + ts + Op(RParen), high)
    ensures Encloses(Op(LParen) + ts + Op(RParen))
  {
    EnclosesParens(ts);
    EnclosedShape(Op(LParen) + ts + Op(RParen), high);
  }

  lemma LevelIsPrecedence(k: Kind)
    requires Precedence(k) > 0
    ensures Level(k) == Precedence(k) - 1 && k != LParen && k != RParen
  {}

  lemma {:induction false} PrintShape(t: Tree, min: nat, marked: bool)
    requires WellFormed(t) && min <= 12
    ensures Shape(Print(t, min, marked), min - 1)
    decreases t, 1
  {
    if NeedsParens(t, min, marked) {
      BareShape(t, true);
      ShapeParens(Bare(t, true), Tightness(t) - 1, min - 1);
    } else {
      BareShape(t, marked);
      ShapeWeaken(Bare(t, marked), Tightness(t) - 1, min - 1);
    }
  }

  lemma {:induction false} BareShape(t: Tree, marked: bool)
    requires WellFormed(t)
    ensures Shape(Bare(t, marked), Tightness(t) - 1)
    decreases t, 0
  {
    match t
    case Leaf(token) => ShapeSingle(token, 11);
    case Binary(op, l, r) =>
      var a, b := Print(l, Precedence(op), marked), Print(r, Precedence(op) + 1, Check(op));
      PrintShape(l, Precedence(op), marked);
      PrintShape(r, Precedence(op) + 1, Check(op));
      LevelIsPrecedence(op);
      ShapeSingle(Token(op, ""), Level(op));
      ShapeWeaken(b, Level(op) + 1, Level(op));
      ShapeConcat(a, Op(op), Level(op));
      ShapeConcat(a + Op(op), b, Level(op));
    case LogicalNot(e) => UnaryShape(Not, e, 10);
    case Negate(e) => UnaryShape(Neg, e, 8);
    case Dereference(e) => UnaryShape(Deref, e, 10);
  }

  lemma {:induction false} UnaryShape(k: Kind, e: Tree, low: int)
    requires WellFormed(e) && (k == Not || k == Neg || k == Deref) && low <= Level(k)
    ensures Shape(Op(k) + Print(e, 12, false), low)
    decreases e, 2
  {
    PrintShape(e, 12, false);
    ShapeWeaken(Print(e, 12, false), 11, low);
    ShapeSingle(Token(k, ""), low);
    ShapeConcat(Op(k), Print(e, 12, false), low);
  }

  // ---------- evaluation of printed expressions ----------

  lemma DepthAtRoot(a: seq<Token>, k: Kind, b: seq<Token>)
    requires Nested(a) && Level(k) > 0
    ensures Depth(a + Op(k) + b, |a|) == 0 && Depth(a + Op(k) + b, |a| + 1) == 0
    ensures k != LParen && k != RParen
  {
    var ts := a + Op(k) + b;
    assert ts == a + (Op(k) + b);
    DepthOfPrefix(a, Op(k) + b, |a|);
    ParenthesisFacts(k);
    assert Depth(ts, |a| + 1) == Depth(ts, |a|) + Weight(ts[|a|].kind);
  }

  /** An operator with lower-binding text nowhere to its left and nothing as low to its right is
      the dominant one. */
  lemma SplitAtRoot(a: seq<Token>, k: Kind, b: seq<Token>)
    requires Level(k) > 0 && Shape(a, Level(k)) && Shape(b, Level(k) + 1)
    requires a == [] ==> k == Not || k == Neg || k == Deref
    requires b != []
    ensures DominantOf(a + Op(k) + b) == |a| && CheckParaOf(a + Op(k) + b) == NotPaired
  {
    hide Level, Depth, Weight;
    var ts := a + Op(k) + b;
    assert ts[|a|].kind == k;
    DepthAtRoot(a, k, b);
    forall j | Candidate(ts, j)
      ensures Level(k) <= Level(ts[j].kind) && (j > |a| ==> Level(k) < Level(ts[j].kind))
    {
      if j < |a| {
        assert ts == a + (Op(k) + b);
        DepthOfPrefix(a, Op(k) + b, j);
        assert ts[j] == a[j];
      } else if j > |a| {
        DepthOfPrefix(a + Op(k), b, |a| + 1);
        DepthOfSuffix(a + Op(k), b, j - |a| - 1);
        assert ts[j] == b[j - |a| - 1];
      }
    }
    DominantIs(ts, |a|);
    assert 0 <= |a| < |ts| - 1;
  }

  /** eval splits there. */
  lemma EvalSplit(a: seq<Token>, k: Kind, b: seq<Token>, env: Env)
    requires Level(k) > 0 && Shape(a, Level(k)) && Shape(b, Level(k) + 1)
    requires a == [] ==> k == Not || k == Neg || k == Deref
    requires b != []
    ensures Eval(a + Op(k) + b, env) ==
            ApplyBoth(k, Eval(a, env), Eval(b, env), env)
  {
    hide Apply, LeafValue, CheckParaOf, DominantOf, Shape;
    SplitAtRoot(a, k, b);
    var ts := a + Op(k) + b;
    assert ts[..|a|] == a && ts[|a| + 1..] == b && ts[|a|].kind == k;
  }

  lemma EvalParens(ts: seq<Token>, low: int, env: Env)
    requires Shape(ts, low)
    ensures Eval(Op(LParen) + ts + Op(RParen), env) == Eval(ts, env)
  {
    ShapeParens(ts, low, low);
    var whole := Op(LParen) + ts + Op(RParen);
    assert whole[1..|whole| - 1] == ts;
  }

  /** A range with a || anywhere, its parentheses balanced or not, never gets past an assertion: || has
      level 0, which dominant_op does not select, so in the end it is a leaf or nothing is selected. */
  lemma {:induction false} OrFaults(ts: seq<Token>, j: nat, env: Env)
    requires j < |ts| && ts[j].kind == Or
    ensures Eval(ts, env) == Fault
    decreases |ts|
  {
    hide Level, Weight, Apply, ApplyBoth, LeafValue, Eval, CheckParaOf, Depth, Nested, IsDominant;
    var op := DominantOf(ts);
    EvalLong(ts, env);
    if |ts| == 1 {
      OrIsNoLeaf(ts[0], env);
    } else if CheckParaOf(ts) == Paired {
      PairedEnds(ts);
      OrFaults(ts[1..|ts| - 1], j - 1, env);
    } else if CheckParaOf(ts) == NotPaired && op != -1 {
      DominantIsCandidate(ts);
      OrIsNoCandidate();
      if j < op { OrFaults(ts[..op], j, env); } else { OrFaults(ts[op + 1..], j - op - 1, env); }
      FaultEither(ts[op].kind, Eval(ts[..op], env), Eval(ts[op + 1..], env), env);
    }
  }

  /** check_para reports an error exactly on a parenthesised range with one more closing parenthesis. */
  lemma OverClosedIff(ts: seq<Token>)
    ensures CheckParaOf(ts) == Unbalanced
            <==> ts != [] && ts[|ts| - 1].kind == RParen && CheckParaOf(ts[..|ts| - 1]) == Paired
  {
    hide Level;
    if |ts| >= 2 {
      var n := |ts| - 1;
      forall i | 0 <= i <= n ensures Depth(ts[..n], i) == Depth(ts, i) {
        assert ts == ts[..n] + [ts[n]];
        DepthOfPrefix(ts[..n], [ts[n]], i);
      }
      assert Depth(ts, n) == Depth(ts, n - 1) + Weight(ts[n - 1].kind);
      assert Depth(ts, n + 1) == Depth(ts, n) + Weight(ts[n].kind);
    }
  }

  /** Only a range whose parentheses balance has a value; every other ends in a failed assertion. */
  lemma {:induction false} ValueNeedsNesting(ts: seq<Token>, env: Env)
    requires Eval(ts, env).Val?
    ensures Nested(ts)
    decreases |ts|
  {
    hide Level, Weight, Apply, LeafValue, Eval, CheckParaOf, Depth, Nested, IsDominant;
    var op := DominantOf(ts);
    EvalLong(ts, env);
    if |ts| <= 1 {
      NestedShort(ts, env);
    } else if CheckParaOf(ts) == Paired {
      PairedNested(ts);
    } else if CheckParaOf(ts) == NotPaired && op != -1 {
      DominantIsCandidate(ts);
      var a, b := ts[..op], ts[op + 1..];
      ValueNeedsNesting(a, env);
      ValueNeedsNesting(b, env);
      NestedAround(a, ts[op], b);
      assert ts == a + [ts[op]] + b;
    }
  }

  lemma NestedShort(ts: seq<Token>, env: Env)
    requires |ts| <= 1 && Eval(ts, env).Val?
    ensures Nested(ts)
  {
    assert |ts| == 1 ==> Weight(ts[0].kind) == 0 && Depth(ts, 1) == 0;
  }

  lemma PairedNested(ts: seq<Token>)
    requires CheckParaOf(ts) == Paired
    ensures Nested(ts)
  {}

  lemma NestedAround(a: seq<Token>, t: Token, b: seq<Token>)
    requires Nested(a) && Nested(b) && Level(t.kind) > 0
    ensures Nested(a + [t] + b)
  {
    hide Level, Depth;
    ShapeWeakest(a);
    ShapeWeakest(b);
    ParenthesisFacts(t.kind);
    ShapeSingle(t, -1);
    ShapeConcat(a, [t], -1);
    ShapeConcat(a + [t], b, -1);
  }

  lemma ShapeWeakest(ts: seq<Token>)
    requires Nested(ts)
    ensures Shape(ts, -1)
  {}

  lemma PairedEnds(ts: seq<Token>)
    requires CheckParaOf(ts) == Paired
    ensures ts != [] && ts[0].kind == LParen && ts[|ts| - 1].kind == RParen
  {}

  lemma FaultEither(k: Kind, o1: Outcome, o2: Outcome, env: Env)
    requires o1 == Fault || o2 == Fault
    ensures ApplyBoth(k, o1, o2, env) == Fault
  {}

  lemma DominantIsCandidate(ts: seq<Token>)
    requires DominantOf(ts) != -1
    ensures Candidate(ts, DominantOf(ts))
  {}

  lemma OrIsNoCandidate()
    ensures Level(Or) == 0
  {}

  lemma OrIsNoLeaf(t: Token, env: Env)
    requires t.kind == Or
    ensures LeafValue(t, env) == Fault
  {}

  // ---------- the theorem ----------

  /** The program's bitwise operators, computed from the lowest bit up, have the bits C gives them. */
  lemma BitsAreMeaning(x: U32, y: U32)
    ensures BitAnd(x, y) == WordOf((j: nat) => BitAt(x, j) && BitAt(y, j))
    ensures BitXor(x, y) == WordOf((j: nat) => BitAt(x, j) != BitAt(y, j))
    ensures BitOr(x, y) == WordOf((j: nat) => BitAt(x, j) || BitAt(y, j))
  {
    BitwiseWord((a, b) => a && b, x, y, (j: nat) => BitAt(x, j) && BitAt(y, j));
    BitwiseWord((a, b) => a != b, x, y, (j: nat) => BitAt(x, j) != BitAt(y, j));
    BitwiseWord((a, b) => a || b, x, y, (j: nat) => BitAt(x, j) || BitAt(y, j));
  }

  lemma BitwiseWord(f: (bool, bool) -> bool, x: U32, y: U32, bit: nat -> bool)
    requires forall j: nat :: bit(j) == f(BitAt(x, j), BitAt(y, j))
    ensures Bitwise(f, x, y, 32) == WordOf(bit)
  {
    hide BitAt, Bitwise, NumberOf;
    BitwiseIs(f, x, y, 32);
    NumberOfSame((j: nat) => f(BitAt(x, j), BitAt(y, j)), bit, 32);
  }

  /** The bits of the results of & ^ and |: for all 32 places, those C gives them. */
  lemma BitwiseBits(x: U32, y: U32, j: nat, env: Env)
    requires j < 32
    ensures var r := Apply(Amp, x, y, env);
            r.Val? && (r.v / Pow2(j) % 2 == 1 <==> x / Pow2(j) % 2 == 1 && y / Pow2(j) % 2 == 1)
    ensures var r := Apply(Caret, x, y, env);
            r.Val? && (r.v / Pow2(j) % 2 == 1 <==> !(x / Pow2(j) % 2 == 1 <==> y / Pow2(j) % 2 == 1))
    ensures var r := Apply(Bar, x, y, env);
            r.Val? && (r.v / Pow2(j) % 2 == 1 <==> x / Pow2(j) % 2 == 1 || y / Pow2(j) % 2 == 1)
  {
    hide Pow2;
    BitwiseAt((a, b) => a && b, x, y, 32, j);
    BitwiseAt((a, b) => a != b, x, y, 32, j);
    BitwiseAt((a, b) => a || b, x, y, 32, j);
  }

  /** The program's switch and the C operators agree, && and || being C's on two defined operands. */
  lemma ApplyIsMeaning(k: Kind, x: U32, y: U32, env: Env)
    requires Precedence(k) > 0
    ensures Apply(k, x, y, env)
            == if k == And then Val(if x == 0 || y == 0 then 0 else 1)
               else if k == Or then Val(if x == 0 && y == 0 then 0 else 1)
               else BinaryMeaning(k, x, y)
  {
    hide Pow2, BitAnd, BitXor, BitOr, Quotient, WordOf, BitAt;
    BitsAreMeaning(x, y);
  }

  lemma ApplyUnary(x: U32, env: Env)
    ensures Apply(Not, 0, x, env) == Val(if x == 0 then 1 else 0)
    ensures Apply(Neg, 0, x, env) == Val(if x == 0 then 0 else 0x1_0000_0000 - x)
    ensures Apply(Deref, 0, x, env) == if x in env.memory then Val(env.memory[x]) else Fault
  {}

  /** What the monitor makes of a node, from what it makes of the operands. */
  lemma ExpectedBinary(op: Kind, l: Tree, r: Tree, env: Env)
    requires Precedence(op) > 1
    ensures Expected(Binary(op, l, r), env) == ApplyBoth(op, Expected(l, env), Expected(r, env), env)
  {
    hide Apply, BinaryMeaning;
    var x, y := Meaning(l, env), Meaning(r, env);
    if x.Val? && y.Val? { ApplyIsMeaning(op, x.v, y.v, env); }
  }

  lemma ExpectedUnary(e: Tree, env: Env)
    ensures Expected(LogicalNot(e), env) == ApplyBoth(Not, Val(0), Expected(e, env), env)
    ensures Expected(Negate(e), env) == ApplyBoth(Neg, Val(0), Expected(e, env), env)
    ensures Expected(Dereference(e), env) == ApplyBoth(Deref, Val(0), Expected(e, env), env)
  {
    hide Apply;
    var x := Meaning(e, env);
    if x.Val? { ApplyUnary(x.v, env); }
  }

  /** eval on the printed tokens of any tree, || included, gives exactly Expected: it terminates,
      finds the root at every level, and fails exactly where Expected says so. */
  lemma {:induction false} EvalPrint(t: Tree, min: nat, marked: bool, env: Env)
    requires WellFormed(t) && min <= 12
    ensures Eval(Print(t, min, marked), env) == Expected(t, env)
    decreases t, 1
  {
    hide Eval, Expected;
    if NeedsParens(t, min, marked) {
      EvalBare(t, true, env);
      BareShape(t, true);
      EvalParens(Bare(t, true), Tightness(t) - 1, env);
    } else {
      EvalBare(t, marked, env);
    }
  }

  lemma {:induction false} EvalBare(t: Tree, marked: bool, env: Env)
    requires WellFormed(t)
    ensures Eval(Bare(t, marked), env) == Expected(t, env)
    decreases t, 0
  {
    hide Eval, Expected, Apply, ApplyBoth, LeafValue, Level;
    match t
    case Leaf(token) =>
      EvalLeaf(token, env);
    case Binary(op, l, r) =>
      var a, b := Print(l, Precedence(op), marked), Print(r, Precedence(op) + 1, Check(op));
      PrintShape(l, Precedence(op), marked);
      PrintShape(r, Precedence(op) + 1, Check(op));
      LevelIsPrecedence(op);
      if op == Or {
        OrAtRoot(a, b, env);
        ExpectedOr(l, r, env);
      } else {
        EvalPrint(l, Precedence(op), marked, env);
        EvalPrint(r, Precedence(op) + 1, Check(op), env);
        EvalSplit(a, op, b, env);
        ExpectedBinary(op, l, r, env);
      }
    case LogicalNot(e) => EvalUnary(Not, e, env);
    case Negate(e) => EvalUnary(Neg, e, env);
    case Dereference(e) => EvalUnary(Deref, e, env);
  }

  lemma EvalLeaf(token: Token, env: Env)
    ensures Eval([token], env) == Expected(Leaf(token), env)
  {}

  lemma ExpectedOr(l: Tree, r: Tree, env: Env)
    ensures Expected(Binary(Or, l, r), env) == Fault
  {}

  lemma OrAtRoot(a: seq<Token>, b: seq<Token>, env: Env)
    ensures Eval(a + Op(Or) + b, env) == Fault
  {
    OrFaults(a + Op(Or) + b, |a|, env);
  }

  /** A prefix operator: the empty range to its left evaluates to 0. */
  lemma EvalPrefix(k: Kind, b: seq<Token>, env: Env)
    requires (k == Not || k == Neg || k == Deref) && b != [] && Shape(b, Level(k) + 1)
    ensures Eval(Op(k) + b, env) == ApplyBoth(k, Val(0), Eval(b, env), env)
  {
    hide Eval, Apply, ApplyBoth, Level, Shape;
    UnaryLevel(k);
    ShapeEmpty(Level(k));
    EvalSplit([], k, b, env);
    EvalEmpty(env);
    assert [] + Op(k) + b == Op(k) + b;
  }

  lemma {:induction false} EvalUnary(k: Kind, e: Tree, env: Env)
    requires WellFormed(e) && (k == Not || k == Neg || k == Deref)
    ensures Eval(Op(k) + Print(e, 12, false), env)
            == Expected(if k == Not then LogicalNot(e) else if k == Neg then Negate(e) else Dereference(e), env)
    decreases e, 2
  {
    hide Eval, Expected, Apply, ApplyBoth, Shape;
    EvalPrint(e, 12, false, env);
    PrintShape(e, 12, false);
    ShapeWeaken(Print(e, 12, false), 11, Level(k) + 1);
    EvalPrefix(k, Print(e, 12, false), env);
    ExpectedUnary(e, env);
  }

  lemma UnaryLevel(k: Kind)
    requires k == Not || k == Neg || k == Deref
    ensures Level(k) > 0
  {}

  lemma ShapeEmpty(low: int)
    ensures Shape([], low)
  {}

  lemma EvalEmpty(env: Env)
    ensures Eval([], env) == Val(0)
  {}
}
