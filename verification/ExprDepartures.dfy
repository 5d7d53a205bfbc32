/** Where the monitor's expressions depart from C: a negation in front of an operator, the short
    circuit of && and ||, and a minus the marking pass does not take for a negation. */
module ExprDepartures {
  import opened Tokens
  import opened Evaluator
  import opened Lexer
  import opened Expressions
  import opened ExprText
  import opened Words

  // ---------- a negation left without parentheses ----------

  /** "-e op r", printed as C reads it: the negation binds tighter than op. */
  function Negated(e: Tree, op: Kind, r: Tree): seq<Token>
    requires WellFormed(e) && WellFormed(r)
  {
    Op(Neg) + Print(e, 12, false) + Op(op) + Print(r, Precedence(op) + 1, Check(op))
  }

  /** The place of op in it. */
  function RootOf(e: Tree): nat
    requires WellFormed(e)
  {
    1 + |Print(e, 12, false)|
  }

  lemma NegatedLow(e: Tree, op: Kind, r: Tree, env: Env)
    requires WellFormed(e) && WellFormed(r) && Precedence(op) > 1 && Level(op) <= Level(Neg)
    ensures DominantOf(Negated(e, op, r)) == RootOf(e)
    ensures Eval(Negated(e, op, r), env) == Expected(Binary(op, Negate(e), r), env)
  {
    hide Level, Eval, Expected, Apply, ApplyBoth, Shape, CheckParaOf, DominantOf, Print, Check;
    var a, b := Op(Neg) + Print(e, 12, false), Print(r, Precedence(op) + 1, Check(op));
    LevelIsPrecedence(op);
    UnaryShape(Neg, e, Level(Neg));
    ShapeWeaken(a, Level(Neg), Level(op));
    PrintShape(r, Precedence(op) + 1, Check(op));
    SplitAtRoot(a, op, b);
    EvalSplit(a, op, b, env);
    EvalUnary(Neg, e, env);
    EvalPrint(r, Precedence(op) + 1, Check(op), env);
    ExpectedBinary(op, Negate(e), r, env);
  }

  lemma NegatedHigh(e: Tree, op: Kind, r: Tree, env: Env)
    requires WellFormed(e) && WellFormed(r) && Level(op) == 9 && Precedence(op) == 10
    ensures DominantOf(Negated(e, op, r)) == 0
    ensures Eval(Negated(e, op, r), env) == Expected(Negate(Binary(op, e, r)), env)
  {
    hide Level, Eval, Expected, Apply, ApplyBoth, Shape, CheckParaOf, DominantOf, Print, Check;
    var rest := Print(e, 12, false) + Op(op) + Print(r, 11, Check(op));
    ProductRest(e, op, r, env);
    assert Negated(e, op, r) == [] + Op(Neg) + rest;
    NegLevel();
    ShapeEmpty(Level(Neg));
    SplitAtRoot([], Neg, rest);
    EvalSplit([], Neg, rest, env);
    EvalEmpty(env);
    ExpectedUnary(Binary(op, e, r), env);
  }

  lemma ProductRest(e: Tree, op: Kind, r: Tree, env: Env)
    requires WellFormed(e) && WellFormed(r) && Level(op) == 9 && Precedence(op) == 10
    ensures var rest := Print(e, 12, false) + Op(op) + Print(r, 11, Check(op));
            Shape(rest, 9) && Eval(rest, env) == Expected(Binary(op, e, r), env)
  {
    hide Level, Eval, Expected, Apply, ApplyBoth, Shape, CheckParaOf, DominantOf, Print, Check;
    var a, b := Print(e, 12, false), Print(r, 11, Check(op));
    PrintShape(e, 12, false);
    PrintShape(r, 11, Check(op));
    OperatorShape(op);
    ShapeWeaken(a, 11, 9);
    ShapeConcat(a, Op(op), 9);
    ShapeWeaken(b, 10, 9);
    ShapeConcat(a + Op(op), b, 9);
    EvalSplit(a, op, b, env);
    EvalPrint(e, 12, false, env);
    EvalPrint(r, 11, Check(op), env);
    ExpectedBinary(op, e, r, env);
  }

  lemma OperatorShape(op: Kind)
    requires Level(op) == 9
    ensures Shape(Op(op), 9)
  {
    ShapeSingle(Token(op, ""), 9);
  }

  lemma NegLevel()
    ensures Level(Neg) == 8
  {}

  /** The operator after an unparenthesised negation is evaluated last, as in C, exactly if it is on
      the level of binary minus or a lower one that dominant_op selects at all. */
  lemma NegatedRootIff(e: Tree, op: Kind, r: Tree)
    requires WellFormed(e) && WellFormed(r) && Precedence(op) > 0
    ensures DominantOf(Negated(e, op, r)) == RootOf(e) <==> 0 < Level(op) <= Level(Neg)
  {
    hide Eval, Expected;
    var env := Env(map[], map[], map[]);
    if op == Or {
      assert Negated(e, op, r)[RootOf(e)].kind == Or;
    } else if Level(op) <= Level(Neg) {
      NegatedLow(e, op, r, env);
    } else {
      NegatedHigh(e, op, r, env);
    }
  }

  /** When negating the quotient, remainder or product is the same as negating the left operand. */
  predicate NegationPasses(op: Kind, x: U32, y: U32) {
    match op
    case Slash => y <= 1 || x == 0 || (x < y && x + y > 0x1_0000_0000)
    case Percent =>
      y == 0 || x == 0 || (x < y && x + y > 0x1_0000_0000) || (x % y == 0 && 0x1_0000_0000 % y == 0)
    case _ => true
  }

  /** What the monitor makes of an unparenthesised negation in front of any operator but ||, against
      what it should make of it. */
  lemma NegatedExpectedIff(e: Tree, op: Kind, r: Tree, env: Env)
    requires WellFormed(e) && WellFormed(r) && Precedence(op) > 1
    ensures !(Sound(e, env) && Sound(r, env)) ==> Eval(Negated(e, op, r), env) == Fault
    ensures Sound(e, env) && Sound(r, env) ==>
              (Eval(Negated(e, op, r), env) == Expected(Binary(op, Negate(e), r), env)
               <==> NegationPasses(op, Meaning(e, env).v, Meaning(r, env).v))
  {
    hide Eval, Meaning, Apply, NegationPasses, Negated, AllDefined, UsesOr, Sound, Expected;
    ExpectedParts(e, env);
    ExpectedParts(r, env);
    ExpectedUnary(e, env);
    ExpectedBinary(op, e, r, env);
    ExpectedBinary(op, Negate(e), r, env);
    if Level(op) <= Level(Neg) {
      NegatedLow(e, op, r, env);
      PassesBelow(op);
    } else {
      NegatedHigh(e, op, r, env);
      ExpectedUnary(Binary(op, e, r), env);
      if Sound(e, env) && Sound(r, env) {
        ApplyUnary(Meaning(e, env).v, env);
        NegationAfter(op, Meaning(e, env).v, Meaning(r, env).v, env);
      }
    }
  }

  lemma ExpectedParts(t: Tree, env: Env)
    ensures Expected(t, env) == (if Sound(t, env) then Meaning(t, env) else Fault)
    ensures Sound(t, env) ==> Meaning(t, env).Val?
  {}

  /** Between sound operands the root decides. */
  lemma SoundRoot(op: Kind, l: Tree, r: Tree, env: Env)
    requires Sound(l, env) && Sound(r, env) && op != Or
    ensures Expected(Binary(op, l, r), env) == Meaning(Binary(op, l, r), env)
  {
    hide Meaning;
  }

  lemma SoundNegate(e: Tree, env: Env)
    requires Sound(e, env)
    ensures Sound(Negate(e), env)
  {}

  /** An unparenthesised negation in front of any operator but || has C's value (on uint32_t) if and
      only if, between sound operands, the operator is neither / nor % or the operands are ones for
      which it does not matter; beside others the monitor fails, and C must leave it undefined too. */
  lemma NegatedValueIff(e: Tree, op: Kind, r: Tree, env: Env)
    requires WellFormed(e) && WellFormed(r) && Precedence(op) > 1
    ensures Eval(Negated(e, op, r), env) == Meaning(Binary(op, Negate(e), r), env)
            <==> if Sound(e, env) && Sound(r, env) then NegationPasses(op, Meaning(e, env).v, Meaning(r, env).v)
                 else Meaning(Binary(op, Negate(e), r), env) == Fault
  {
    hide Eval, Meaning, NegationPasses, Negated, Sound, Expected;
    NegatedExpectedIff(e, op, r, env);
    if Sound(e, env) && Sound(r, env) {
      SoundNegate(e, env);
      SoundRoot(op, Negate(e), r, env);
    }
  }

  lemma PassesBelow(op: Kind)
    requires Level(op) <= Level(Neg)
    ensures forall x: U32, y: U32 :: NegationPasses(op, x, y)
  {}

  lemma NegationAfter(op: Kind, x: U32, y: U32, env: Env)
    requires op == Star || op == Slash || op == Percent
    ensures ApplyBoth(Neg, Val(0), Apply(op, x, y, env), env) == Apply(op, Negate32(x), y, env)
            <==> NegationPasses(op, x, y)
  {
    match op
    case Star => NegatedProduct(x, y); ApplyUnary(Wrap(x * y), env);
    case Slash =>
      if y > 0 {
        NegatedQuotient(x, y);
        ApplyUnary(Quotient(x, y), env);
      }
    case Percent =>
      if y > 0 {
        NegatedRemainder(x, y);
        ApplyUnary(x % y, env);
      }
  }

  lemma NegatedProduct(x: U32, y: U32)
    ensures Negate32(Wrap(x * y)) == Wrap(Negate32(x) * y)
  {
    var p := x * y;
    if x > 0 {
      ProductOfDifference(x, y);
      var q := p / 0x1_0000_0000;
      assert p == q * 0x1_0000_0000 + Wrap(p);
      if Wrap(p) == 0 {
        WordsOf(Negate32(x) * y, y - q, 0);
      } else {
        WordsOf(Negate32(x) * y, y - q - 1, 0x1_0000_0000 - Wrap(p));
      }
    }
  }

  lemma ProductOfDifference(x: U32, y: U32)
    ensures (0x1_0000_0000 - x) * y == 0x1_0000_0000 * y - x * y
  {}

  lemma WordsOf(n: int, q: int, r: int)
    requires n == q * 0x1_0000_0000 + r && 0 <= r < 0x1_0000_0000
    ensures Wrap(n) == r
  {}

  lemma NegatedQuotient(x: U32, y: U32)
    requires y > 0
    ensures Negate32(x / y) == Negate32(x) / y <==> y == 1 || x == 0 || (x < y && x + y > 0x1_0000_0000)
  {
    if y > 1 && x > 0 {
      Halves(x, y);
      Halves(Negate32(x), y);
      SmallQuotients(x, y);
      SmallQuotients(Negate32(x), y);
    }
  }

  lemma Halves(x: U32, y: U32)
    requires y > 1
    ensures x / y <= x / 2
  {
    DivisionParts(x, y);
    SmallQuotients(x, y);
    var q := x / y;
    AtLeast(q, 2, y);
  }

  lemma AtLeast(q: int, k: int, y: int)
    requires q >= 0 && k <= y
    ensures k * q <= q * y
  {}

  lemma DivisionParts(x: int, y: int)
    requires y > 0
    ensures (x / y) * y + x % y == x && 0 <= x % y < y
  {}

  lemma SmallQuotients(x: U32, y: U32)
    requires y > 0
    ensures x / y == 0 <==> x < y
  {
    DivisionParts(x, y);
    var q := x / y;
    if q > 0 { assert q * y >= y; }
  }

  lemma NegatedRemainder(x: U32, y: U32)
    requires y > 0
    ensures Negate32(x % y) == Negate32(x) % y
            <==> x == 0 || (x < y && x + y > 0x1_0000_0000) || (x % y == 0 && 0x1_0000_0000 % y == 0)
  {
    if x > 0 {
      var r, m := x % y, Negate32(x);
      DivisionParts(x, y);
      DivisionParts(m, y);
      SmallQuotients(x, y);
      SmallQuotients(m, y);
      if r == 0 {
        Multiples(x, m, y);
      } else if m < y {
        assert m % y == m;
      }
    }
  }

  lemma Multiples(x: int, m: int, y: int)
    requires y > 0 && x % y == 0
    ensures m % y == 0 <==> (x + m) % y == 0
  {
    DivisionParts(x, y);
    DivisionParts(m, y);
    DivisionParts(x + m, y);
    var a, b, c := x / y, m / y, (x + m) / y;
    if m % y == 0 {
      assert x + m == (a + b) * y;
      MultipleOf(a + b, y);
    } else if (x + m) % y == 0 {
      assert m == (c - a) * y;
      MultipleOf(c - a, y);
    }
  }

  lemma MultipleOf(q: int, y: int)
    requires y > 0
    ensures (q * y) % y == 0
  {
    DivisionParts(q * y, y);
    var d := q - q * y / y;
    assert d * y == (q * y) % y;
    OnlyZero(d, y);
  }

  lemma OnlyZero(d: int, y: int)
    requires 0 <= d * y < y
    ensures d == 0
  {
    if d != 0 { AtLeast(if d > 0 then y else -d, if d > 0 then 1 else 0, if d > 0 then d else y); }
  }

  // ---------- inputs that fail ----------

  /** What expr makes of tokens written as text. */
  lemma ExprOfTokens(ts: seq<Token>, env: Env)
    requires AllWritable(ts) && |ts| <= MAX_TOKENS
    ensures ExprOf(Render(ts), env) == (match Eval(Mark(Unmark(ts)), env) case Val(v) => Value(v) case Fault => Fails)
  {
    hide Lex, Eval, Mark;
    LexRender(ts);
  }

  /** An unparenthesised negation is at least read as one. */
  lemma NegatedText(e: Tree, op: Kind, r: Tree)
    requires WellFormed(e) && WellFormed(r) && Precedence(op) > 0
    ensures Mark(Unmark(Negated(e, op, r))) == Negated(e, op, r)
  {
    hide Marked, Mark, Unmark;
    NegatedMarked(e, op, r);
    MarkUnmark(Negated(e, op, r));
  }

  lemma NegatedMarked(e: Tree, op: Kind, r: Tree)
    requires WellFormed(e) && WellFormed(r) && Precedence(op) > 0
    ensures Marked(LParen, Negated(e, op, r))
  {
    hide Marked, Print, EndsOperand, Check, Precedence;
    NotUnary(op);
    ParenthesisChecked();
    UnaryMarked(LParen, Neg, e);
    PrintMarked(r, Precedence(op) + 1, Check(op), op);
    MarkedBinary(LParen, Op(Neg) + Print(e, 12, false), op, Print(r, Precedence(op) + 1, Check(op)));
  }

  /** The number d in decimal. */
  function Number(d: nat): Tree
    requires d < 10
  {
    Leaf(Token(Num, Decimal(d)))
  }

  lemma NumberIs(d: nat, env: Env)
    requires d < 10
    ensures Number(d).Leaf? && WellFormed(Number(d)) && WritableTree(Number(d)) && AllWritable([Number(d).token])
    ensures Meaning(Number(d), env) == Val(d) && Expected(Number(d), env) == Val(d)
    ensures Eval([Number(d).token], env) == Val(d)
    ensures forall min: nat, marked :: min <= 12 ==> Print(Number(d), min, marked) == [Number(d).token]
  {
    hide Decimal, Writable, LeafValue;
    DecimalRoundTrip(d, env);
  }

  lemma NegatedQuotientMeans(env: Env)
    ensures Meaning(Binary(Slash, Negate(Number(6)), Number(4)), env) == Val(0x3FFF_FFFE)
    ensures Expected(Negate(Binary(Slash, Number(6), Number(4))), env) == Val(0xFFFF_FFFF)
  {
    hide *;
    NumberValue(6, env);
    NumberValue(4, env);
    SlashSteps(env);
    MinusSix();
    MeaningNegate(Number(6), env);
    MeaningSteps(Slash, Negate(Number(6)), Number(4), env);
    ExpectedOfQuotient(Number(6), Number(4), env);
  }

  lemma NumberValue(d: nat, env: Env)
    requires d < 10
    ensures Meaning(Number(d), env) == Val(d) && Expected(Number(d), env) == Val(d)
  {
    NumberIs(d, env);
  }

  lemma MinusSix()
    ensures Negate32(6) == 0xFFFF_FFFA
  {}

  lemma ExpectedOfQuotient(l: Tree, r: Tree, env: Env)
    requires Expected(l, env).Val? && Expected(r, env).Val?
    requires Apply(Slash, Expected(l, env).v, Expected(r, env).v, env) == Val(1)
    ensures Expected(Negate(Binary(Slash, l, r)), env) == Apply(Neg, 0, 1, env)
  {
    hide Expected, Apply;
    ExpectedBinary(Slash, l, r, env);
    ExpectedUnary(Binary(Slash, l, r), env);
  }

  lemma MeaningSteps(op: Kind, l: Tree, r: Tree, env: Env)
    requires Meaning(l, env).Val? && op != And && op != Or
    ensures Meaning(Binary(op, l, r), env)
            == if Meaning(r, env).Fault? then Fault else BinaryMeaning(op, Meaning(l, env).v, Meaning(r, env).v)
  {
    hide BinaryMeaning, LeafValue;
  }

  lemma MeaningNegate(e: Tree, env: Env)
    requires Meaning(e, env).Val?
    ensures Meaning(Negate(e), env) == Val(Negate32(Meaning(e, env).v))
  {}

  lemma SlashSteps(env: Env)
    ensures BinaryMeaning(Slash, 0xFFFF_FFFA, 4) == Val(0x3FFF_FFFE)
    ensures Apply(Slash, 6, 4, env) == Val(1) && Apply(Neg, 0, 1, env) == Val(0xFFFF_FFFF)
  {}

  lemma NegatedWritable()
    ensures WellFormed(Number(6)) && WellFormed(Number(4))
    ensures AllWritable(Negated(Number(6), Slash, Number(4))) && |Negated(Number(6), Slash, Number(4))| == 4
  {
    hide Readable, Number, Bare;
    NumberIs(6, Env(map[], map[], map[]));
    NumberIs(4, Env(map[], map[], map[]));
    WritableOp(Neg);
    WritableOp(Slash);
  }

  /** "-6 / 4" is -(6 / 4). */
  lemma NegationMisread(env: Env)
    ensures ExprOf(Render(Negated(Number(6), Slash, Number(4))), env) == Value(0xFFFF_FFFF)
    ensures Meaning(Binary(Slash, Negate(Number(6)), Number(4)), env) == Val(0x3FFF_FFFE)
  {
    hide Eval, DominantOf, Mark, Lex, Render, ExprOf, Expected, Meaning, Number, Negated, Print, Writable;
    NumberIs(6, env);
    NumberIs(4, env);
    NegatedHigh(Number(6), Slash, Number(4), env);
    NegatedQuotientMeans(env);
    NegatedWritable();
    NegatedText(Number(6), Slash, Number(4));
    ExprOfTokens(Negated(Number(6), Slash, Number(4)), env);
  }

  /** "1 || 0" fails, where C has 1. */
  lemma OrNeverWorks(env: Env)
    ensures ExprOf(Render(Print(Binary(Or, Number(1), Number(0)), 0, true)), env) == Fails
    ensures Meaning(Binary(Or, Number(1), Number(0)), env) == Val(1)
  {
    hide Eval, Lex, Mark, ExprOf, Print;
    NumberIs(1, env);
    NumberIs(0, env);
    BinaryWritable(Or, 1, Number(0), 1, 0, true);
    ExprOfText(Binary(Or, Number(1), Number(0)), env);
  }

  /** "0 && 1 / 0" fails, where C does not look at the right operand. */
  lemma NoShortCircuit(env: Env)
    ensures var t := Binary(And, Number(0), Binary(Slash, Number(1), Number(0)));
            ExprOf(Render(Print(t, 0, true)), env) == Fails && Meaning(t, env) == Val(0)
  {
    hide Eval, Lex, Mark, ExprOf, Print, Expected, Meaning, LeafValue, Number, Writable;
    NumberIs(1, env);
    NumberIs(0, env);
    ZeroAndAnything(Binary(Slash, Number(1), Number(0)), env);
    DivisionByZero(env);
    BinaryWritable(Slash, 1, Number(0), 1, 3, Check(And));
    BinaryWritable(And, 0, Binary(Slash, Number(1), Number(0)), 3, 0, true);
    ExprOfText(Binary(And, Number(0), Binary(Slash, Number(1), Number(0))), env);
  }

  lemma DivisionByZero(env: Env)
    ensures Expected(Binary(Slash, Number(1), Number(0)), env) == Fault
  {
    hide Expected, Meaning;
    NumberIs(1, env);
    NumberIs(0, env);
    ExpectedBinary(Slash, Number(1), Number(0), env);
  }

  lemma ZeroAndAnything(r: Tree, env: Env)
    ensures Meaning(Binary(And, Number(0), r), env) == Val(0)
    ensures Expected(r, env) == Fault ==> Expected(Binary(And, Number(0), r), env) == Fault
  {
    NumberIs(0, env);
    hide Number, LeafValue;
    ExpectedBinary(And, Number(0), r, env);
  }

  lemma BinaryWritable(op: Kind, d: nat, r: Tree, n: nat, min: nat, marked: bool)
    requires d < 10 && WellFormed(r) && WritableTree(r) && min <= Precedence(op) && Precedence(op) > 0
    requires |Print(r, Precedence(op) + 1, Check(op))| == n
    ensures WellFormed(Binary(op, Number(d), r)) && WritableTree(Binary(op, Number(d), r))
    ensures |Print(Binary(op, Number(d), r), min, marked)| == n + 2
  {
    hide Number, Readable, Check, Print;
    NumberIs(d, Env(map[], map[], map[]));
    PrintBinary(op, Number(d), r, min, marked);
  }

  lemma PrintBinary(op: Kind, l: Tree, r: Tree, min: nat, marked: bool)
    requires WellFormed(l) && WellFormed(r) && 0 < Precedence(op) && min <= Precedence(op)
    ensures Print(Binary(op, l, r), min, marked)
            == Print(l, Precedence(op), marked) + Op(op) + Print(r, Precedence(op) + 1, Check(op))
  {
    hide Check, Precedence;
  }

  // ---------- a minus or a star that is not marked ----------

  /** The operators after which the marking pass does not look for a unary one. */
  predicate Unchecked(op: Kind) { op == Plus || op == Minus || op == Sl || op == Sr }

  /** The tokens of "e op -r" and "e op *r", the second operator being k. */
  function Unmarked(e: Tree, op: Kind, k: Kind, r: Tree): seq<Token>
    requires WellFormed(e) && WellFormed(r)
  {
    Print(e, 9, true) + Op(op) + Op(k) + Print(r, 12, false)
  }

  /** The pass leaves that minus or star binary after + - << and >>, and makes a negation or
      dereference of it after any other binary operator. */
  lemma UnmarkedText(e: Tree, op: Kind, k: Kind, r: Tree)
    requires WellFormed(e) && WellFormed(r) && Precedence(op) > 0 && (k == Minus || k == Star)
    ensures Mark(Unmark(Unmarked(e, op, k, r)))
            == Unmarked(e, op, if Unchecked(op) then k else if k == Minus then Neg else Deref, r)
  {
    hide Marked, Mark, Print, MarkedAt, Unmarked, Unmark, Precedence;
    var read := if Unchecked(op) then k else if k == Minus then Neg else Deref;
    NotUnary(op);
    CheckedIff(op);
    UnmarkedMarked(e, op, read, r);
    MarkUnmark(Unmarked(e, op, read, r));
    SameSigns(e, op, k, r);
  }

  /** make_token does not tell a minus from a negation, nor a star from a dereference. */
  lemma SameSigns(e: Tree, op: Kind, k: Kind, r: Tree)
    requires WellFormed(e) && WellFormed(r) && (k == Minus || k == Star)
    ensures Unmark(Unmarked(e, op, if k == Minus then Neg else Deref, r)) == Unmark(Unmarked(e, op, k, r))
  {
    hide Print, WellFormed;
    var a, z, unary := Print(e, 9, true) + Op(op), Print(r, 12, false), if k == Minus then Neg else Deref;
    assert UnmarkOne(Token(unary, "")) == UnmarkOne(Token(k, ""));
    assert forall i: nat :: i < |a + Op(k) + z| && i != |a| ==> (a + Op(unary) + z)[i] == (a + Op(k) + z)[i];
    assert (a + Op(unary) + z)[|a|] == Token(unary, "") && (a + Op(k) + z)[|a|] == Token(k, "");
  }

  lemma CheckedIff(op: Kind)
    requires Precedence(op) > 0
    ensures Check(op) <==> !Unchecked(op)
  {}

  lemma UnmarkedMarked(e: Tree, op: Kind, k: Kind, r: Tree)
    requires WellFormed(e) && WellFormed(r) && op != Neg && op != Deref
    requires if Check(op) then k == Neg || k == Deref else k == Minus || k == Star
    ensures Marked(LParen, Unmarked(e, op, k, r))
  {
    hide Marked, Print, Check, EndsOperand;
    var a, z := Print(e, 9, true), Print(r, 12, false);
    ParenthesisChecked();
    PrintMarked(e, 9, true, LParen);
    PrintMarked(r, 12, false, k);
    AfterOperand(a);
    AppendOperator(LParen, a, op);
    AppendOperator(LParen, a + Op(op), k);
    assert (a + Op(op) + Op(k))[|a| + 1].kind == k;
    MarkedConcat(LParen, a + Op(op) + Op(k), z);
  }

  lemma AppendOperator(prev: Kind, a: seq<Token>, k: Kind)
    requires a != [] && Marked(prev, a)
    requires if Check(a[|a| - 1].kind) then k != Minus && k != Star else k != Neg && k != Deref
    ensures Marked(prev, a + Op(k)) && (a + Op(k))[|a|].kind == k
  {
    MarkedSingle(a[|a| - 1].kind, k);
    MarkedConcat(prev, a, Op(k));
  }

  lemma LastIsDominant(ts: seq<Token>, k: nat)
    requires k + 1 == |ts| && Candidate(ts, k)
    requires forall j :: Candidate(ts, j) ==> Level(ts[k].kind) <= Level(ts[j].kind) && j <= k
    ensures DominantOf(ts) == k
  {
    DominantIs(ts, k);
  }

  /** A sign at the end of a range has the empty range, which is 0, for its right operand. */
  lemma TrailingSign(a: seq<Token>, op: Kind, env: Env)
    requires a != [] && Shape(a, 8) && (op == Plus || op == Minus)
    ensures Shape(a + Op(op), 8)
    ensures Eval(a + Op(op), env) == ApplyBoth(op, Eval(a, env), Val(0), env)
  {
    hide Level, Depth, Weight, Eval, Apply, ApplyBoth, IsDominant;
    var ts := a + Op(op);
    SignLevels();
    ShapeSingle(Token(op, ""), 8);
    ShapeConcat(a, Op(op), 8);
    DepthOfPrefix(a, Op(op), |a|);
    assert ts[|a|].kind == op;
    forall j | Candidate(ts, j) ensures Level(op) <= Level(ts[j].kind) && j <= |a| {
      if j < |a| {
        DepthOfPrefix(a, Op(op), j);
        assert ts[j] == a[j];
      }
    }
    LastIsDominant(ts, |a|);
    EvalLong(ts, env);
    EvalEmpty(env);
    assert ts[..|a|] == a && ts[|a| + 1..] == [];
  }

  lemma SignLevels()
    ensures Level(Minus) == 8 && Level(Plus) == 8 && Level(Star) == 9 && Level(Sl) == 7 && Level(Sr) == 7
  {}

  lemma FirstIsDominant(ts: seq<Token>)
    requires ts != [] && Candidate(ts, 0)
    requires forall j :: j > 0 ==> !Candidate(ts, j)
    ensures DominantOf(ts) == 0
  {
    DominantIs(ts, 0);
  }

  /** A primary has no operator outside parentheses. */
  lemma NoCandidateAfter(a: seq<Token>, b: seq<Token>, j: int)
    requires Shape(b, 11) && Depth(a, |a|) == 0 && j >= |a|
    ensures !Candidate(a + b, j)
  {
    hide Level, Depth;
    if j < |a + b| {
      DepthOfSuffix(a, b, j - |a|);
      assert (a + b)[j] == b[j - |a|];
      PrimaryLevels(b[j - |a|].kind);
    }
  }

  lemma PrimaryLevels(k: Kind)
    ensures Level(k) <= 10
  {}

  lemma SignDepth(k: Kind)
    requires Level(k) > 0
    ensures Depth(Op(k), 0) == 0 && Depth(Op(k), 1) == 0
  {}

  /** A minus or star at the start of a range has the empty range, which is 0, for its left operand. */
  lemma LeadingSign(k: Kind, b: seq<Token>, env: Env)
    requires b != [] && Shape(b, 11) && (k == Minus || k == Star)
    ensures Shape(Op(k) + b, Level(k))
    ensures Eval(Op(k) + b, env) == ApplyBoth(k, Val(0), Eval(b, env), env)
  {
    hide Level, Depth, Weight, Eval, Apply, ApplyBoth, IsDominant;
    var ts := Op(k) + b;
    SignLevels();
    ShapeSingle(Token(k, ""), Level(k));
    ShapeWeaken(b, 11, Level(k));
    ShapeConcat(Op(k), b, Level(k));
    SignDepth(k);
    DepthOfPrefix(Op(k), b, 0);
    forall j | j > 0 ensures !Candidate(ts, j) { NoCandidateAfter(Op(k), b, j); }
    FirstIsDominant(ts);
    EvalLong(ts, env);
    EvalEmpty(env);
    assert ts[..0] == [] && ts[1..] == b;
  }

  lemma UnmarkedMinusEval(e: Tree, op: Kind, r: Tree, env: Env)
    requires WellFormed(e) && WellFormed(r) && (op == Plus || op == Minus)
    ensures Eval(Unmarked(e, op, Minus, r), env)
            == ApplyBoth(Minus, ApplyBoth(op, Expected(e, env), Val(0), env), Expected(r, env), env)
  {
    hide Eval, Expected, Shape, Level, DominantOf, CheckParaOf, Apply, ApplyBoth, Print;
    PrintShape(e, 9, true);
    PrintShape(r, 12, false);
    ShapeWeaken(Print(r, 12, false), 11, 9);
    SignLevels();
    TrailingSign(Print(e, 9, true), op, env);
    EvalSplit(Print(e, 9, true) + Op(op), Minus, Print(r, 12, false), env);
    EvalPrint(e, 9, true, env);
    EvalPrint(r, 12, false, env);
  }

  lemma UnmarkedStarEval(e: Tree, op: Kind, r: Tree, env: Env)
    requires WellFormed(e) && WellFormed(r) && Unchecked(op)
    ensures Eval(Unmarked(e, op, Star, r), env)
            == ApplyBoth(op, Expected(e, env), ApplyBoth(Star, Val(0), Expected(r, env), env), env)
  {
    SignLevels();
    LooserSplit(e, op, Star, r, env);
  }

  lemma UnmarkedShiftEval(e: Tree, op: Kind, r: Tree, env: Env)
    requires WellFormed(e) && WellFormed(r) && (op == Sl || op == Sr)
    ensures Eval(Unmarked(e, op, Minus, r), env)
            == ApplyBoth(op, Expected(e, env), ApplyBoth(Minus, Val(0), Expected(r, env), env), env)
  {
    SignLevels();
    LooserSplit(e, op, Minus, r, env);
  }

  /** Where the first operator binds less tightly than the second, it is evaluated last. */
  lemma LooserSplit(e: Tree, op: Kind, k: Kind, r: Tree, env: Env)
    requires WellFormed(e) && WellFormed(r) && Unchecked(op) && (k == Minus || k == Star) && Level(op) < Level(k)
    ensures Eval(Unmarked(e, op, k, r), env)
            == ApplyBoth(op, Expected(e, env), ApplyBoth(k, Val(0), Expected(r, env), env), env)
  {
    hide Eval, Expected, Shape, Level, DominantOf, CheckParaOf, Apply, ApplyBoth, Print;
    var a, b := Print(e, 9, true), Print(r, 12, false);
    SignLevels();
    PrintShape(e, 9, true);
    PrintShape(r, 12, false);
    LeadingSign(k, b, env);
    ShapeWeaken(a, 8, Level(op));
    ShapeWeaken(Op(k) + b, Level(k), Level(op) + 1);
    EvalSplit(a, op, Op(k) + b, env);
    EvalPrint(e, 9, true, env);
    EvalPrint(r, 12, false, env);
    assert a + Op(op) + (Op(k) + b) == Unmarked(e, op, k, r);
  }

  /** "e + -r" still has C's value, though as e + 0 - r, and so have shifts by -r; "e - -r" is evaluated
      as e - r, which is C's value if and only if r is 0 or 2^31 (or, beside operands that are not
      sound, C leaves it undefined). */
  lemma UnmarkedMinusIff(e: Tree, op: Kind, r: Tree, env: Env)
    requires WellFormed(e) && WellFormed(r) && Unchecked(op)
    ensures Eval(Unmarked(e, op, Minus, r), env) == Meaning(Binary(op, e, Negate(r)), env)
            <==> if Sound(e, env) && Sound(r, env)
                 then op != Minus || Meaning(r, env).v == 0 || Meaning(r, env).v == 0x8000_0000
                 else Meaning(Binary(op, e, Negate(r)), env) == Fault
  {
    hide Eval, Meaning, Apply, Expected, Sound, Unmarked;
    if op == Sl || op == Sr { UnmarkedShiftEval(e, op, r, env); } else { UnmarkedMinusEval(e, op, r, env); }
    ExpectedParts(e, env);
    ExpectedParts(r, env);
    if Sound(e, env) && Sound(r, env) {
      SoundNegate(r, env);
      SoundRoot(op, e, Negate(r), env);
      ExpectedBinary(op, e, Negate(r), env);
      ExpectedUnary(r, env);
      ApplyUnary(Meaning(r, env).v, env);
      if op == Sl || op == Sr {
        SignValues(0, Meaning(r, env).v, env);
      } else {
        SignsOfValues(op, Meaning(e, env).v, Meaning(r, env).v, env);
      }
    }
  }

  lemma SignsOfValues(op: Kind, x: U32, y: U32, env: Env)
    requires op == Plus || op == Minus
    ensures Apply(op, x, 0, env) == Val(x) && Apply(Minus, x, y, env).Val? && Apply(op, x, Negate32(y), env).Val?
    ensures Apply(Minus, x, y, env) == Apply(op, x, Negate32(y), env) <==> op == Plus || y == 0 || y == 0x8000_0000
  {
    hide Apply;
    SignValues(x, y, env);
    SignValues(x, 0, env);
    SignValues(x, Negate32(y), env);
  }

  lemma SignValues(x: U32, y: U32, env: Env)
    ensures Apply(Plus, x, y, env) == Val(if x + y < 0x1_0000_0000 then x + y else x + y - 0x1_0000_0000)
    ensures Apply(Minus, x, y, env) == Val(if x >= y then x - y else x - y + 0x1_0000_0000)
  {}

  /** "e + *r", "e - *r", "e << *r" and "e >> *r" are evaluated as e, which is C's value if and only if
      r points to a zero, or e is 0 and is shifted by less than 32 places (or, beside operands that are
      not sound, C leaves it undefined). */
  lemma UnmarkedStarIff(e: Tree, op: Kind, r: Tree, env: Env)
    requires WellFormed(e) && WellFormed(r) && Unchecked(op)
    ensures Eval(Unmarked(e, op, Star, r), env) == Meaning(Binary(op, e, Dereference(r)), env)
            <==> if Sound(e, env) && Sound(r, env)
                 then Meaning(r, env).v in env.memory
                      && StaysPut(op, Meaning(e, env).v, env.memory[Meaning(r, env).v])
                 else Meaning(Binary(op, e, Dereference(r)), env) == Fault
  {
    hide Eval, Apply, Expected, Sound, Unmarked, Meaning, StaysPut;
    UnmarkedStarEval(e, op, r, env);
    ExpectedParts(e, env);
    ExpectedParts(r, env);
    if Sound(e, env) && Sound(r, env) {
      var x, y := Meaning(e, env).v, Meaning(r, env).v;
      TimesZero(y, env);
      ByZero(op, x, env);
      MeaningOfSign(op, e, r, env);
      if y in env.memory { StaysPutIff(op, x, env.memory[y], env); }
    }
  }

  /** Adding, subtracting or shifting by m leaves x as it is. */
  predicate StaysPut(op: Kind, x: U32, m: U32) {
    m == 0 || ((op == Sl || op == Sr) && x == 0 && m < 32)
  }

  lemma TimesZero(y: U32, env: Env)
    ensures Apply(Star, 0, y, env) == Val(0)
  {}

  lemma ByZero(op: Kind, x: U32, env: Env)
    requires Unchecked(op)
    ensures Apply(op, x, 0, env) == Val(x)
  {
    assert Pow2(0) == 1;
  }

  lemma StaysPutIff(op: Kind, x: U32, m: U32, env: Env)
    requires Unchecked(op)
    ensures Apply(op, x, m, env) == Val(x) <==> StaysPut(op, x, m)
  {
    ByZero(op, x, env);
    if op == Plus || op == Minus {
      SignValues(x, m, env);
    } else if 0 < m < 32 {
      hide Pow2, Quotient, ShiftLeft;
      assert Pow2(m) == 2 * Pow2(m - 1) by { Doubled(m - 1); }
      if op == Sl { LeftMoves(x, m); } else { RightMoves(x, Pow2(m - 1)); }
    }
  }

  lemma RightMoves(x: U32, p: nat)
    requires p > 0
    ensures Quotient(x, 2 * p) == x <==> x == 0
  {
    var q := Quotient(x, 2 * p);
    assert q * (2 * p) == 2 * (q * p);
    if q > 0 { QuotientBelowHalf(q, p); }
  }

  lemma QuotientBelowHalf(q: nat, p: nat)
    requires p > 0
    ensures q <= q * p
  {
    Times(1, p, q + 1);
  }

  /** A number that a shift to the left does not change has no lowest one. */
  lemma LeftMoves(x: U32, m: nat)
    requires 0 < m < 32
    ensures ShiftLeft(x, m) == x <==> x == 0
  {
    if ShiftLeft(x, m) == x {
      hide Pow2;
      Doubled(m - 1);
      Pow2Of32();
      var y := Divisible(x, Pow2(m - 1), x * Pow2(m) / 0x1_0000_0000, 32);
      NoMultiple(x, y, Pow2(32));
    }
  }

  lemma NoMultiple(x: nat, y: int, w: nat)
    requires x == y * w && x < w
    ensures x == 0
  {}

  /** x * 2p = x + q * 2^32 makes x a multiple of 2^k for every k up to 32. */
  lemma {:induction false} Divisible(x: nat, p: nat, q: nat, k: nat) returns (y: int)
    requires x * (2 * p) == x + q * Pow2(32) && k <= 32
    ensures x == y * Pow2(k)
  {
    if k == 0 {
      y := x;
    } else {
      hide Pow2;
      y := Divisible(x, p, q, k - 1);
      Doubled(k - 1);
      Pow2Sum(k - 1, 33 - k);
      Doubled(32 - k);
      EvenFactor(y, Pow2(k - 1), p, q, Pow2(32 - k));
      y := y * p - q * Pow2(32 - k);
    }
  }

  lemma EvenFactor(y: int, w: nat, p: nat, q: nat, r: nat)
    requires w > 0 && (y * w) * (2 * p) == y * w + q * (w * (2 * r))
    ensures y * w == (y * p - q * r) * (2 * w)
  {
    assert (y * w) * (2 * p) == (y * p) * (2 * w);
    assert q * (w * (2 * r)) == (q * r) * (2 * w);
    assert (y * p - q * r) * (2 * w) == (y * p) * (2 * w) - (q * r) * (2 * w);
  }

  lemma MeaningOfSign(op: Kind, e: Tree, r: Tree, env: Env)
    requires Meaning(e, env).Val? && Meaning(r, env).Val? && Unchecked(op)
    ensures var y := Meaning(r, env).v;
            Meaning(Binary(op, e, Dereference(r)), env)
            == if y in env.memory then Apply(op, Meaning(e, env).v, env.memory[y], env) else Fault
  {
    hide Apply, BinaryMeaning, Meaning;
    MeaningSteps(op, e, Dereference(r), env);
    MeaningDereference(r, env);
    var x, y := Meaning(e, env).v, Meaning(r, env).v;
    if y in env.memory { ApplyIsMeaning(op, x, env.memory[y], env); }
  }

  lemma MeaningDereference(r: Tree, env: Env)
    requires Meaning(r, env).Val?
    ensures var y := Meaning(r, env).v;
            Meaning(Dereference(r), env) == if y in env.memory then Val(env.memory[y]) else Fault
  {
    hide LeafValue, BinaryMeaning;
  }

  // ---------- a unary operator after another ----------

  /** "! -r", "- *r" and so on, as the marking pass leaves them. */
  function Stacked(k: Kind, sign: Kind, r: Tree): seq<Token>
    requires WellFormed(r)
  {
    Op(k) + Op(sign) + Print(r, 12, false)
  }

  lemma StackedText(k: Kind, sign: Kind, r: Tree)
    requires WellFormed(r) && (k == Not || k == Neg || k == Deref) && (sign == Minus || sign == Star)
    ensures Mark(Unmark(Stacked(k, sign, r))) == Stacked(k, sign, r)
  {
    hide Marked, Mark, Unmark, Print, EndsOperand;
    PrintMarked(r, 12, false, sign);
    MarkedSingle(LParen, k);
    NotAfterUnary(k);
    MarkedSingle(k, sign);
    MarkedConcat(LParen, Op(k), Op(sign));
    assert (Op(k) + Op(sign))[1].kind == sign;
    MarkedConcat(LParen, Op(k) + Op(sign), Print(r, 12, false));
    MarkUnmark(Stacked(k, sign, r));
  }

  lemma NotAfterUnary(k: Kind)
    requires k == Not || k == Neg || k == Deref
    ensures !Check(k) && Check(LParen)
  {}

  /** The monitor fails on a unary operator that follows another, except that - *r is always 0. */
  lemma StackedEval(k: Kind, sign: Kind, r: Tree, env: Env)
    requires WellFormed(r) && (k == Not || k == Neg || k == Deref) && (sign == Minus || sign == Star)
    ensures Eval(Stacked(k, sign, r), env)
            == if k == Neg && sign == Star && Sound(r, env) then Val(0) else Fault
  {
    hide Level, Depth, Weight, Eval, Expected, Apply, ApplyBoth, Print, Shape, DominantOf, Sound;
    PrintShape(r, 12, false);
    UnaryLevels();
    if k == Neg && sign == Star { NegatedStar(r, env); } else { StackedFails(k, sign, Print(r, 12, false), env); }
  }

  lemma NegatedStar(r: Tree, env: Env)
    requires WellFormed(r)
    ensures Eval(Stacked(Neg, Star, r), env) == if Sound(r, env) then Val(0) else Fault
  {
    hide Level, Eval, Expected, Apply, ApplyBoth, Print, Shape, Sound;
    var b := Print(r, 12, false);
    PrintShape(r, 12, false);
    UnaryLevels();
    LeadingSign(Star, b, env);
    EvalPrefix(Neg, Op(Star) + b, env);
    assert Op(Neg) + (Op(Star) + b) == Stacked(Neg, Star, r);
    EvalPrint(r, 12, false, env);
    ExpectedParts(r, env);
    NegatedZero(Expected(r, env), env);
  }

  /** The first operator is left alone on its side. */
  lemma StackedFails(k: Kind, sign: Kind, b: seq<Token>, env: Env)
    requires Shape(b, 11) && (k == Not || k == Neg || k == Deref) && (sign == Minus || sign == Star)
    requires Level(sign) <= Level(k) && Level(sign) > 0
    ensures Eval(Op(k) + Op(sign) + b, env) == Fault
  {
    hide Level, Depth, Eval, Apply, ApplyBoth, Shape, DominantOf;
    var ts := Op(k) + (Op(sign) + b);
    SecondIsDominant(k, sign, b);
    NotPairedAt(k, Op(sign) + b);
    assert ts == Op(k) + Op(sign) + b && ts[..1] == Op(k);
    EvalLong(ts, env);
    EvalLong(Op(k), env);
    FaultEither(sign, Fault, Eval(ts[2..], env), env);
  }

  lemma UnaryLevels()
    ensures Level(Neg) == 8 && Level(Minus) == 8 && Level(Star) == 9 && Level(Not) == 10 && Level(Deref) == 10
  {}

  lemma NotPairedAt(k: Kind, b: seq<Token>)
    requires k != LParen
    ensures CheckParaOf(Op(k) + b) == NotPaired
  {}

  lemma NegatedZero(o: Outcome, env: Env)
    ensures ApplyBoth(Neg, Val(0), ApplyBoth(Star, Val(0), o, env), env) == if o.Val? then Val(0) else Fault
  {
    if o.Val? { TimesZero(o.v, env); }
  }

  lemma SecondIsDominant(k: Kind, sign: Kind, b: seq<Token>)
    requires Shape(b, 11) && (k == Not || k == Neg || k == Deref) && (sign == Minus || sign == Star)
    requires Level(sign) <= Level(k) && Level(sign) > 0
    ensures DominantOf(Op(k) + (Op(sign) + b)) == 1
  {
    hide Level, Depth, Shape;
    var a := Op(k) + Op(sign);
    var ts := a + b;
    assert ts == Op(k) + (Op(sign) + b);
    UnaryLevel(k);
    SignDepth(k);
    SignDepth(sign);
    DepthOfSuffix(Op(k), Op(sign), 1);
    DepthOfSuffix(Op(k), Op(sign), 0);
    DepthOfPrefix(a, b, 0);
    DepthOfPrefix(a, b, 1);
    DepthOfPrefix(Op(k), Op(sign), 0);
    assert ts[1].kind == sign && ts[0].kind == k;
    forall j | j > 1 ensures !Candidate(ts, j) { NoCandidateAfter(a, b, j); }
    DominantIs(ts, 1);
  }

  /** "5 - - 3" gives 2, where C has 8. */
  lemma UnmarkedMinus(env: Env)
    ensures ExprOf(Render(Unmarked(Number(5), Minus, Minus, Number(3))), env) == Value(2)
    ensures Meaning(Binary(Minus, Number(5), Negate(Number(3))), env) == Val(8)
  {
    hide Eval, Mark, Lex, DominantOf, CheckParaOf, Expected, Render, ExprOf, Number, Apply, Unmarked, Writable, Meaning;
    NumberIs(5, env);
    NumberIs(3, env);
    UnmarkedText(Number(5), Minus, Minus, Number(3));
    UnmarkedMinusEval(Number(5), Minus, Number(3), env);
    SignValues(5, 0, env);
    SignValues(5, 3, env);
    UnmarkedWritable();
    ExprOfTokens(Unmarked(Number(5), Minus, Minus, Number(3)), env);
    FiveAndThree(env);
  }

  lemma UnmarkedWritable()
    ensures WellFormed(Number(5)) && WellFormed(Number(3))
    ensures var ts := Unmarked(Number(5), Minus, Minus, Number(3)); AllWritable(ts) && |ts| == 4
  {
    hide Writable, Number;
    NumberIs(5, Env(map[], map[], map[]));
    NumberIs(3, Env(map[], map[], map[]));
    WritableOp(Minus);
  }

  lemma FiveAndThree(env: Env)
    ensures Meaning(Binary(Minus, Number(5), Negate(Number(3))), env) == Val(8)
  {
    hide Number, LeafValue;
    NumberIs(5, env);
    NumberIs(3, env);
    MeaningNegate(Number(3), env);
  }
}
