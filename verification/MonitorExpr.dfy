/** The monitor's expression evaluator: methods over the global token array. */
module MonitorExpr {
  import opened Tokens
  import opened Evaluator
  import opened Lexer

  class Monitor {
    const tokens: array<Token>
    var nrToken: nat

    constructor ()
      ensures tokens.Length == MAX_TOKENS && fresh(tokens) && nrToken == 0
    {
      tokens := new Token[MAX_TOKENS](_ => Token(Num, ""));
      nrToken := 0;
    }

    method CheckPara(p: nat, q: nat) returns (r: bool, success: bool)
      requires p <= q < tokens.Length
      ensures CheckParaOf(tokens[p..q + 1]) ==
              if !success then Unbalanced else if r then Paired else NotPaired
    {
      ghost var ts := tokens[p..q + 1];
      if tokens[p].kind != LParen || tokens[q].kind != RParen { return false, true; }
      var cnt, i := 0, p;
      while i <= q
        invariant p <= i <= q + 1 && cnt == Depth(ts, i - p)
        invariant forall k :: 0 < k <= i - p && k < |ts| - 1 ==> Depth(ts, k) > 0
        invariant i == q + 1 ==> forall k :: 0 < k < |ts| ==> Depth(ts, k) > 0
        invariant cnt >= 0
      {
        assert tokens[i] == ts[i - p];
        if tokens[i].kind == LParen {
          cnt := cnt + 1;
        } else if tokens[i].kind == RParen {
          if cnt == 0 { return false, false; }
          cnt := cnt - 1;
          if cnt == 0 && i < q - 1 {
            assert Depth(ts, i - p + 1) == 0;
            return false, true;
          }
        }
        i := i + 1;
      }
      return cnt == 0, true;
    }

    method DominantOp(p: nat, q: nat) returns (op: int)
      requires p <= q < tokens.Length
      ensures op != -1 ==> p <= op <= q && DominantOf(tokens[p..q + 1]) == op - p
      ensures op == -1 ==> DominantOf(tokens[p..q + 1]) == -1
    {
      hide Level, Weight, Depth, DominantSoFar;
      ghost var ts := tokens[p..q + 1];
      DominantStart(ts);
      op := -1;
      var level, cnt, i := 100, 0, p;
      while i <= q
        invariant p <= i <= q + 1 && (op == -1 || p <= op)
        invariant DominantSoFar(ts, i - p, if op == -1 then -1 else op - p, level, cnt)
      {
        assert tokens[i] == ts[i - p];
        DominantStep(ts, i - p, if op == -1 then -1 else op - p, level, cnt);
        if tokens[i].kind == LParen {
          cnt := cnt + 1;
        } else if tokens[i].kind == RParen {
          cnt := cnt - 1;
        } else if cnt <= 0 {
          var clevel := Level(tokens[i].kind);
          if clevel > 0 && clevel <= level { level, op := clevel, i; }
        }
        i := i + 1;
      }
      DominantFound(ts, if op == -1 then -1 else op - p, level, cnt);
    }

    /** An empty range, p > q in the program, is lo == hi here. */
    method EvalRange(lo: nat, hi: nat, env: Env) returns (r: Outcome)
      requires lo <= hi <= tokens.Length
      ensures r == Eval(tokens[lo..hi], env)
      decreases hi - lo
    {
      hide CheckParaOf, IsDominant, Apply, LeafValue, Eval;
      ghost var ts := tokens[lo..hi];
      EvalLong(ts, env);
      if lo == hi { return Val(0); }
      if lo + 1 == hi { return LeafValue(tokens[lo], env); }
      assert tokens[lo..hi - 1 + 1] == ts;
      var paired, success := CheckPara(lo, hi - 1);
      if !success { return Fault; }
      if paired {
        assert ts[1..|ts| - 1] == tokens[lo + 1..hi - 1];
        r := EvalRange(lo + 1, hi - 1, env);
        return r;
      }
      var op := DominantOp(lo, hi - 1);
      if op == -1 { return Fault; }
      assert ts[..op - lo] == tokens[lo..op] && ts[op - lo + 1..] == tokens[op + 1..hi];
      var r1 := EvalRange(lo, op, env);
      var r2 := EvalRange(op + 1, hi, env);
      if r1.Fault? || r2.Fault? { return Fault; }
      return Apply(tokens[op].kind, r1.v, r2.v, env);
    }

    ghost predicate Valid()
      reads this
    {
      tokens.Length == MAX_TOKENS && nrToken <= MAX_TOKENS
    }

    method FindRule(s: string) returns (i: nat)
      ensures i == FirstMatch(s, 0)
    {
      i := 0;
      while i < NR_REGEX && MatchLen(RuleAt(i).pattern, s) == 0
        invariant i <= NR_REGEX && FirstMatch(s, i) == FirstMatch(s, 0)
      {
        i := i + 1;
      }
    }

    method MakeToken(e: string) returns (outcome: Lexed)
      requires Valid()
      modifies this, tokens
      ensures Valid()
      ensures Lex(e, 0) == if outcome.Tokens? then Tokens(tokens[..nrToken]) else outcome
    {
      hide MatchLen, RuleAt, FirstMatch, Lex, Prepend;
      assert e[0..] == e;
      var position := 0;
      nrToken := 0;
      while position < |e|
        invariant Valid() && position <= |e|
        invariant Lex(e, 0) == PrependAll(tokens[..nrToken], Lex(e[position..], nrToken))
      {
        ghost var before := tokens[..nrToken];
        LexStep(e, position, nrToken);
        var i := FindRule(e[position..]);
        if i == NR_REGEX { return NoMatch; }
        var n := MatchLen(RuleAt(i).pattern, e[position..]);
        match RuleAt(i).action {
          case Skip =>
          case Emit(k) =>
            if nrToken == MAX_TOKENS || (HasText(k) && n >= 32) { return Broken; }
            var t := Token(k, if HasText(k) then e[position..position + n] else "");
            PrependAllSnoc(before, t, Lex(e[position + n..], nrToken + 1));
            tokens[nrToken] := t;
            nrToken := nrToken + 1;
            assert tokens[..nrToken] == before + [t];
        }
        position := position + n;
      }
      LexEnd(nrToken);
      assert e[position..] == "";
      return Tokens([]);
    }

    /** The value of e, or the way it fails. */
    method Expr(e: string, env: Env) returns (r: Result)
      requires Valid()
      modifies this, tokens
      ensures Valid() && r == ExprOf(e, env)
    {
      hide Lex, Eval, Mark;
      var outcome := MakeToken(e);
      MarkEmpty();
      if outcome.NoMatch? { return Unrecognised; }
      if outcome.Broken? { return Fails; }
      ghost var raw := tokens[..nrToken];
      var i := 0;
      while i < nrToken
        invariant Valid() && i <= nrToken == |raw|
        invariant forall k :: 0 <= k < i ==> tokens[k] == Mark(raw[..i])[k]
        invariant forall k :: i <= k < nrToken ==> tokens[k] == raw[k]
      {
        MarkStep(raw, i);
        if tokens[i].kind == Minus && (i == 0 || Check(tokens[i - 1].kind)) {
          tokens[i] := Token(Neg, tokens[i].str);
        } else if tokens[i].kind == Star && (i == 0 || Check(tokens[i - 1].kind)) {
          tokens[i] := Token(Deref, tokens[i].str);
        }
        i := i + 1;
      }
      assert tokens[0..nrToken] == Mark(raw[..i]);
      assert raw[..i] == raw;
      var o := EvalRange(0, nrToken, env);
      return if o.Val? then Value(o.v) else Fails;
    }
  }
}
