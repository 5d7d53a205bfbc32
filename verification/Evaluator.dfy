/** eval: the recursion over token ranges, and the methods over the global token array. */
module Evaluator {
  import opened Tokens
  import opened Words

  /** A failed assertion, or an operation C leaves undefined, is a fault. */
  datatype Outcome = Val(v: U32) | Fault

  /** Registers, the symbol table and memory, as the evaluator reads them. */
  datatype Env = Env(regs: map<string, U32>, symbols: map<string, U32>, memory: map<U32, U32>)

  const REGISTERS: set<string> := {"$eax", "$ecx", "$edx", "$ebx", "$esp", "$ebp", "$esi", "$edi", "$eip"}

  function Digit(c: char): nat {
    if '0' <= c <= '9' then c as int - '0' as int
    else if 'a' <= c <= 'f' then c as int - 'a' as int + 10
    else if 'A' <= c <= 'F' then c as int - 'A' as int + 10
    else 16
  }

  function DigitsValue(s: string, base: nat): nat {
    if s == "" then 0 else DigitsValue(s[..|s| - 1], base) * base + Digit(s[|s| - 1])
  }

  /** sscanf with %d is defined up to 2^31 - 1, with %x up to 2^32 - 1. */
  function LeafValue(t: Token, env: Env): Outcome {
    match t.kind
    case Num => var n := DigitsValue(t.str, 10); if n < 0x8000_0000 then Val(n) else Fault
    case Hex =>
      var n := if |t.str| < 2 then 0 else DigitsValue(t.str[2..], 16); if n < 0x1_0000_0000 then Val(n) else Fault
    case Reg => if t.str in REGISTERS && t.str in env.regs then Val(env.regs[t.str]) else Fault
    case Symb => if t.str in env.symbols then Val(env.symbols[t.str]) else Fault
    case _ => Fault
  }

  function Truth(b: bool): U32 { if b then 1 else 0 }
  function BitAnd(x: U32, y: U32): U32 { ToWord(Bitwise((a, b) => a && b, x, y, 32)) }
  function BitXor(x: U32, y: U32): U32 { ToWord(Bitwise((a, b) => a != b, x, y, 32)) }
  function BitOr(x: U32, y: U32): U32 { ToWord(Bitwise((a, b) => a || b, x, y, 32)) }

  function Quotient(x: U32, y: nat): (q: U32)
    requires y > 0
    ensures q * y <= x < (q + 1) * y
  {
    DivBounds(x, y);
    QuotientSmall(x, y);
    x / y
  }

  /** The switch at the end of eval. */
  function Apply(k: Kind, val1: U32, val2: U32, env: Env): Outcome {
    match k
    case Plus => Val(Wrap(val1 as int + val2))
    case Minus => Val(Wrap(val1 as int - val2))
    case Star => Val(Wrap(val1 * val2))
    case Slash => if val2 == 0 then Fault else Val(Quotient(val1, val2))
    case Percent => if val2 == 0 then Fault else Val(val1 % val2)
    case Lt => Val(Truth(val1 < val2))
    case Gt => Val(Truth(val1 > val2))
    case Amp => Val(BitAnd(val1, val2))
    case Caret => Val(BitXor(val1, val2))
    case Bar => Val(BitOr(val1, val2))
    case Sl => if val2 >= 32 then Fault else Val(ShiftLeft(val1, val2))
    case Sr => if val2 >= 32 then Fault else Val(Quotient(val1, Pow2(val2)))
    case Eq => Val(Truth(val1 == val2))
    case Le => Val(Truth(val1 <= val2))
    case Ge => Val(Truth(val1 >= val2))
    case Neq => Val(Truth(val1 != val2))
    case And => Val(Truth(val1 != 0 && val2 != 0))
    case Or => Val(Truth(val1 != 0 || val2 != 0))
    case Not => Val(Truth(val2 == 0))
    case Neg => Val(Wrap(-(val2 as int)))
    case Deref => if val2 in env.memory then Val(env.memory[val2]) else Fault
    case _ => Fault
  }

  /** Both operands are evaluated before the switch. */
  function ApplyBoth(k: Kind, o1: Outcome, o2: Outcome, env: Env): Outcome {
    if o1.Fault? || o2.Fault? then Fault else Apply(k, o1.v, o2.v, env)
  }

  /** What eval returns for a range of tokens. */
  ghost function Eval(ts: seq<Token>, env: Env): Outcome
    decreases |ts|
  {
    if ts == [] then Val(0)
    else if |ts| == 1 then LeafValue(ts[0], env)
    else match CheckParaOf(ts)
      case Paired => Eval(ts[1..|ts| - 1], env)
      case Unbalanced => Fault
      case NotPaired =>
        var op := DominantOf(ts);
        if op == -1 then Fault
        else ApplyBoth(ts[op].kind, Eval(ts[..op], env), Eval(ts[op + 1..], env), env)
  }

  /** One step of eval. */
  lemma EvalLong(ts: seq<Token>, env: Env)
    ensures |ts| == 0 ==> Eval(ts, env) == Val(0)
    ensures |ts| == 1 ==> Eval(ts, env) == LeafValue(ts[0], env)
    ensures |ts| > 1 && CheckParaOf(ts) == Paired ==> Eval(ts, env) == Eval(ts[1..|ts| - 1], env)
    ensures |ts| > 1 && CheckParaOf(ts) == Unbalanced ==> Eval(ts, env) == Fault
    ensures |ts| > 1 && CheckParaOf(ts) == NotPaired ==>
              Eval(ts, env) == if DominantOf(ts) == -1 then Fault
                               else ApplyBoth(ts[DominantOf(ts)].kind, Eval(ts[..DominantOf(ts)], env),
                                              Eval(ts[DominantOf(ts) + 1..], env), env)
  {}

  /** The level, place and depth that dominant_op's loop carries say what the tokens so far say. */
  ghost predicate DominantSoFar(ts: seq<Token>, i: nat, op: int, level: int, cnt: int)
    requires i <= |ts|
  {
    && cnt == Depth(ts, i)
    && (op == -1 ==> level == 100 && forall j :: 0 <= j < i ==> !Candidate(ts, j))
    && (op != -1 ==>
          && op < i && Candidate(ts, op) && level == Level(ts[op].kind)
          && forall j :: 0 <= j < i && Candidate(ts, j) ==>
               level <= Level(ts[j].kind) && (j > op ==> level < Level(ts[j].kind)))
  }

  lemma DominantStep(ts: seq<Token>, i: nat, op: int, level: int, cnt: int)
    requires i < |ts| && DominantSoFar(ts, i, op, level, cnt)
    ensures ts[i].kind == LParen ==> DominantSoFar(ts, i + 1, op, level, cnt + 1)
    ensures ts[i].kind == RParen ==> DominantSoFar(ts, i + 1, op, level, cnt - 1)
    ensures var k := ts[i].kind;
            k != LParen && k != RParen ==>
              if cnt <= 0 && 0 < Level(k) <= level then DominantSoFar(ts, i + 1, i, Level(k), cnt)
              else DominantSoFar(ts, i + 1, op, level, cnt)
  {
    hide Level, Weight;
    ParenthesisFacts(ts[i].kind);
    assert Depth(ts, i + 1) == cnt + Weight(ts[i].kind);
    assert Candidate(ts, i) <==> cnt <= 0 && Level(ts[i].kind) > 0;
  }

  lemma DominantStart(ts: seq<Token>)
    ensures DominantSoFar(ts, 0, -1, 100, 0)
  {}

  lemma DominantFound(ts: seq<Token>, op: int, level: int, cnt: int)
    requires DominantSoFar(ts, |ts|, op, level, cnt)
    ensures DominantOf(ts) == op && op < |ts|
  {
    if op == -1 {
      forall i: int ensures !IsDominant(ts, i) {}
    } else {
      assert IsDominant(ts, op);
      DominantIs(ts, op);
    }
  }

  const MAX_TOKENS := 32
}
