/** make_token and expr: the rule table, first match in table order, the token buffer's limits and
    the pass that tells negation and dereference from minus and times. */
module Lexer {
  import opened Tokens
  import opened Evaluator
  import opened Words

  /** The regular expressions of the table; a match is anchored at the current position and as
      long as possible. */
  datatype Pattern = Spaces | Text(text: string) | HexNumber | DecNumber | RegisterName | Identifier
  datatype Action = Skip | Emit(kind: Kind)
  datatype Rule = Rule(pattern: Pattern, action: Action)

  const NR_REGEX := 26

  function RuleAt(j: nat): Rule
    requires j < NR_REGEX
  {
    match j
    case 0 => Rule(Spaces, Skip)
    case 1 => Rule(Text("+"), Emit(Plus))
    case 2 => Rule(HexNumber, Emit(Hex))
    case 3 => Rule(DecNumber, Emit(Num))
    case 4 => Rule(RegisterName, Emit(Reg))
    case 5 => Rule(Identifier, Emit(Symb))
    case 6 => Rule(Text("*"), Emit(Star))
    case 7 => Rule(Text("/"), Emit(Slash))
    case 8 => Rule(Text("-"), Emit(Minus))
    case 9 => Rule(Text("%"), Emit(Percent))
    case 10 => Rule(Text("<<"), Emit(Sl))
    case 11 => Rule(Text(">>"), Emit(Sr))
    case 12 => Rule(Text("<="), Emit(Le))
    case 13 => Rule(Text(">="), Emit(Ge))
    case 14 => Rule(Text("=="), Emit(Eq))
    case 15 => Rule(Text("("), Emit(LParen))
    case 16 => Rule(Text(")"), Emit(RParen))
    case 17 => Rule(Text("!="), Emit(Neq))
    case 18 => Rule(Text("<"), Emit(Lt))
    case 19 => Rule(Text(">"), Emit(Gt))
    case 20 => Rule(Text("&&"), Emit(And))
    case 21 => Rule(Text("||"), Emit(Or))
    case 22 => Rule(Text("!"), Emit(Not))
    case 23 => Rule(Text("^"), Emit(Caret))
    case 24 => Rule(Text("|"), Emit(Bar))
    case _ => Rule(Text("&"), Emit(Amp))
  }

  datatype Class = Blank | DecDigit | HexDigit | Letter | Word

  predicate IsLetter(c: char) { 'a' <= c <= 'z' || 'A' <= c <= 'Z' }

  predicate InClass(c: char, cls: Class) {
    match cls
    case Blank => c == ' '
    case DecDigit => '0' <= c <= '9'
    case HexDigit => '0' <= c <= '9' || 'a' <= c <= 'f' || 'A' <= c <= 'F'
    case Letter => IsLetter(c)
    case Word => IsLetter(c) || '0' <= c <= '9' || c == '_'
  }

  /** How many leading characters belong to a class. */
  function Run(s: string, cls: Class): (n: nat)
    ensures n <= |s|
  {
    if s != "" && InClass(s[0], cls) then 1 + Run(s[1..], cls) else 0
  }

  /** The length of the match at the start of s; 0 is no match. */
  function MatchLen(p: Pattern, s: string): (n: nat)
    ensures n <= |s|
  {
    match p
    case Spaces => Run(s, Blank)
    case Text(text) => if text <= s then |text| else 0
    case HexNumber =>
      if |s| >= 2 && s[0] == '0' && (s[1] == 'x' || s[1] == 'X') && Run(s[2..], HexDigit) > 0
      then 2 + Run(s[2..], HexDigit) else 0
    case DecNumber => Run(s, DecDigit)
    case RegisterName => if s != "" && s[0] == '$' && Run(s[1..], Letter) > 0 then 1 + Run(s[1..], Letter) else 0
    case Identifier => if s != "" && (IsLetter(s[0]) || s[0] == '_') then 1 + Run(s[1..], Word) else 0
  }

  /** The first rule from i on that matches, or NR_REGEX. */
  function FirstMatch(s: string, i: nat): (r: nat)
    requires i <= NR_REGEX
    ensures i <= r <= NR_REGEX
    ensures r < NR_REGEX ==> MatchLen(RuleAt(r).pattern, s) > 0
    ensures forall j :: i <= j < r ==> MatchLen(RuleAt(j).pattern, s) == 0
    decreases NR_REGEX - i
  {
    if i == NR_REGEX || MatchLen(RuleAt(i).pattern, s) > 0 then i else FirstMatch(s, i + 1)
  }

  predicate HasText(k: Kind) { k == Num || k == Hex || k == Reg || k == Symb }

  /** A text longer than 31 characters fails an assertion, a 33rd token overruns the buffer. */
  datatype Lexed = Tokens(ts: seq<Token>) | NoMatch | Broken

  function Lex(e: string, count: nat): Lexed
    decreases |e|
  {
    if e == "" then Tokens([])
    else
      var i := FirstMatch(e, 0);
      if i == NR_REGEX then NoMatch
      else
        var n := MatchLen(RuleAt(i).pattern, e);
        match RuleAt(i).action
        case Skip => Lex(e[n..], count)
        case Emit(k) =>
          if count >= MAX_TOKENS || (HasText(k) && n >= 32) then Broken
          else Prepend(Token(k, if HasText(k) then e[..n] else ""), Lex(e[n..], count + 1))
  }

  function Prepend(t: Token, l: Lexed): Lexed {
    match l
    case Tokens(ts) => Tokens([t] + ts)
    case _ => l
  }

  // ---------- negation and dereference ----------

  /** The tokens after which a minus or a star is unary. */
  predicate Check(k: Kind) {
    k == LParen || k == Eq || k == Neq || k == Le || k == Ge || k == Star || k == Slash || k == Percent
    || k == Lt || k == Gt || k == And || k == Or || k == Amp || k == Bar || k == Caret
  }

  function MarkOne(t: Token, unary: bool): Token {
    if t.kind == Minus && unary then Token(Neg, t.str)
    else if t.kind == Star && unary then Token(Deref, t.str)
    else t
  }

  /** expr's pass, left to right; the token before is the one already marked. */
  function Mark(ts: seq<Token>): (r: seq<Token>)
    ensures |r| == |ts|
  {
    if ts == [] then []
    else
      var before := Mark(ts[..|ts| - 1]);
      before + [MarkOne(ts[|ts| - 1], before == [] || Check(before[|before| - 1].kind))]
  }

  lemma MarkEmpty()
    ensures Mark([]) == []
  {}

  lemma MarkStep(ts: seq<Token>, i: nat)
    requires i < |ts|
    ensures var before := Mark(ts[..i]);
            Mark(ts[..i + 1]) == before + [MarkOne(ts[i], i == 0 || Check(before[i - 1].kind))]
  {
    assert ts[..i + 1][..i] == ts[..i];
  }

  /** What expr returns: a failed match and a fault are different failures. */
  datatype Result = Value(v: U32) | Unrecognised | Fails

  ghost function ExprOf(e: string, env: Env): Result {
    match Lex(e, 0)
    case NoMatch => Unrecognised
    case Broken => Fails
    case Tokens(ts) =>
      match Eval(Mark(ts), env)
      case Val(v) => Value(v)
      case Fault => Fails
  }

  /** One match of make_token's loop. */
  lemma LexStep(e: string, position: nat, count: nat)
    requires position < |e|
    ensures var rest := e[position..];
            var i := FirstMatch(rest, 0);
            if i == NR_REGEX then Lex(rest, count) == NoMatch
            else
              var n := MatchLen(RuleAt(i).pattern, rest);
              match RuleAt(i).action
              case Skip => Lex(rest, count) == Lex(e[position + n..], count)
              case Emit(k) =>
                if count >= MAX_TOKENS || (HasText(k) && n >= 32) then Lex(rest, count) == Broken
                else Lex(rest, count)
                     == Prepend(Token(k, if HasText(k) then e[position..position + n] else ""),
                                Lex(e[position + n..], count + 1))
  {
    hide FirstMatch, MatchLen, RuleAt;
    var rest := e[position..];
    var i := FirstMatch(rest, 0);
    if i < NR_REGEX {
      var n := MatchLen(RuleAt(i).pattern, rest);
      assert rest[n..] == e[position + n..] && rest[..n] == e[position..position + n];
    }
  }

  lemma LexEnd(count: nat)
    ensures Lex("", count) == Tokens([])
  {}

  function PrependAll(a: seq<Token>, l: Lexed): Lexed {
    match l
    case Tokens(ts) => Tokens(a + ts)
    case _ => l
  }

  lemma PrependAllSnoc(a: seq<Token>, t: Token, l: Lexed)
    ensures PrependAll(a, Prepend(t, l)) == PrependAll(a + [t], l)
  {
    if l.Tokens? { assert a + ([t] + l.ts) == (a + [t]) + l.ts; }
  }
}
