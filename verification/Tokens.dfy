/** The monitor's tokens, and the two facts about a token range that its evaluator computes with
    loops: where the parentheses pair up and which operator binds last. */
module Tokens {
  datatype Kind =
    | Plus | Minus | Star | Slash | Percent | LParen | RParen | Lt | Gt | Le | Ge | Eq | Neq
    | Sl | Sr | And | Or | Not | Caret | Bar | Amp | Neg | Deref | Num | Hex | Reg | Symb

  datatype Token = Token(kind: Kind, str: string)

  /** The level dominant_op gives a token; -1 for everything that is no operator. */
  function Level(k: Kind): (r: int)
    ensures -1 <= r <= 10
  {
    match k
    case Or => 0
    case And => 1
    case Bar => 2
    case Caret => 3
    case Amp => 4
    case Eq | Neq => 5
    case Lt | Gt | Le | Ge => 6
    case Sl | Sr => 7
    case Plus | Minus | Neg => 8
    case Percent | Star | Slash => 9
    case Not | Deref => 10
    case _ => -1
  }

  function Weight(k: Kind): int {
    match k
    case LParen => 1
    case RParen => -1
    case _ => 0
  }

  lemma ParenthesisFacts(k: Kind)
    ensures k == LParen ==> Weight(k) == 1 && Level(k) == -1
    ensures k == RParen ==> Weight(k) == -1 && Level(k) == -1
    ensures k != LParen && k != RParen ==> Weight(k) == 0
  {}

  /** Opening minus closing parentheses among the first i tokens. */
  function Depth(ts: seq<Token>, i: nat): int
    requires i <= |ts|
  {
    if i == 0 then 0 else Depth(ts, i - 1) + Weight(ts[i - 1].kind)
  }

  lemma {:induction false} DepthOfPrefix(a: seq<Token>, b: seq<Token>, i: nat)
    requires i <= |a|
    ensures Depth(a + b, i) == Depth(a, i)
  {
    if i > 0 { DepthOfPrefix(a, b, i - 1); }
  }

  lemma {:induction false} DepthOfSuffix(a: seq<Token>, b: seq<Token>, i: nat)
    requires i <= |b|
    ensures Depth(a + b, |a| + i) == Depth(a, |a|) + Depth(b, i)
  {
    if i == 0 {
      DepthOfPrefix(a, b, |a|);
    } else {
      DepthOfSuffix(a, b, i - 1);
      assert |a| + i - 1 == |a| + (i - 1);
    }
  }

  /** Every parenthesis closes one opened before it, and all are closed. */
  ghost predicate Nested(ts: seq<Token>) {
    (forall i :: 0 <= i <= |ts| ==> Depth(ts, i) >= 0) && Depth(ts, |ts|) == 0
  }

  datatype Verdict = Paired | NotPaired | Unbalanced

  /** The outermost parenthesis opens at the first token and closes at the last. */
  ghost predicate Encloses(ts: seq<Token>) {
    ts != [] && ts[0].kind == LParen && ts[|ts| - 1].kind == RParen
    && (forall i :: 0 < i < |ts| ==> Depth(ts, i) > 0) && Depth(ts, |ts|) == 0
  }

  /** The last token closes a parenthesis that was never opened: what check_para reports as an
      error.  A stray closing one further left makes it give up first. */
  ghost predicate ClosesTooMuch(ts: seq<Token>) {
    |ts| >= 2 && ts[0].kind == LParen && ts[|ts| - 1].kind == RParen
    && (forall i :: 0 < i < |ts| - 1 ==> Depth(ts, i) > 0) && Depth(ts, |ts| - 1) == 0
  }

  ghost function CheckParaOf(ts: seq<Token>): Verdict {
    if Encloses(ts) then Paired else if ClosesTooMuch(ts) then Unbalanced else NotPaired
  }

  /** An operator dominant_op may choose: outside parentheses and of positive level. */
  ghost predicate Candidate(ts: seq<Token>, i: int) {
    0 <= i < |ts| && Depth(ts, i) <= 0 && Level(ts[i].kind) > 0
  }

  /** The lowest level wins, and among equals the rightmost. */
  ghost predicate IsDominant(ts: seq<Token>, op: int) {
    && Candidate(ts, op)
    && forall j :: Candidate(ts, j) ==>
         Level(ts[op].kind) <= Level(ts[j].kind) && (j > op ==> Level(ts[op].kind) < Level(ts[j].kind))
  }

  lemma DominantUnique(ts: seq<Token>, i: int, j: int)
    requires IsDominant(ts, i) && IsDominant(ts, j)
    ensures i == j
  {}

  /** The dominant operator's place, or -1. */
  ghost function DominantOf(ts: seq<Token>): (op: int)
    ensures op != -1 ==> IsDominant(ts, op)
  {
    if exists i: int :: IsDominant(ts, i) then var i: int :| IsDominant(ts, i); i else -1
  }

  lemma DominantIs(ts: seq<Token>, op: int)
    requires IsDominant(ts, op)
    ensures DominantOf(ts) == op
  {
    DominantUnique(ts, op, DominantOf(ts));
  }
}
