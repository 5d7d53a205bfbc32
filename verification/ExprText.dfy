/** From a tree to text and back: rendering the printed tokens with separating spaces, scanning
    them with make_token and marking the unary operators gives the printed tokens again, so expr
    on the text returns the tree's value. */
module ExprText {
  import opened Tokens
  import opened Evaluator
  import opened Lexer
  import opened Expressions

  function OperatorText(k: Kind): string {
    match k
    case Plus => "+"
    case Minus | Neg => "-"
    case Star | Deref => "*"
    case Slash => "/"
    case Percent => "%"
    case LParen => "("
    case RParen => ")"
    case Lt => "<"
    case Gt => ">"
    case Le => "<="
    case Ge => ">="
    case Eq => "=="
    case Neq => "!="
    case Sl => "<<"
    case Sr => ">>"
    case And => "&&"
    case Or => "||"
    case Not => "!"
    case Caret => "^"
    case Bar => "|"
    case Amp => "&"
    case _ => ""
  }

  function TextOf(t: Token): string { if HasText(t.kind) then t.str else OperatorText(t.kind) }

  function Render(ts: seq<Token>): string {
    if ts == [] then "" else TextOf(ts[0]) + (" " + Render(ts[1..]))
  }

  /** The place of a token's rule in the table. */
  function RuleOf(k: Kind): (j: nat)
    ensures j < NR_REGEX
  {
    match k
    case Plus => 1 case Hex => 2 case Num => 3 case Reg => 4 case Symb => 5
    case Star | Deref => 6 case Slash => 7 case Minus | Neg => 8 case Percent => 9
    case Sl => 10 case Sr => 11 case Le => 12 case Ge => 13 case Eq => 14
    case LParen => 15 case RParen => 16 case Neq => 17 case Lt => 18 case Gt => 19
    case And => 20 case Or => 21 case Not => 22 case Caret => 23 case Bar => 24 case Amp => 25
  }

  // ---------- what a number, a register and a name are ----------

  const DECIMAL := "0123456789"
  const HEXADECIMAL := "0123456789abcdefABCDEF"
  const LETTERS := Chars('a', 'z') + Chars('A', 'Z')

  /** The characters from first to last, as in a bracket expression. */
  function Chars(first: char, last: char): (s: string)
    requires first <= last <= 'z'
    ensures forall c :: c in s <==> first <= c <= last
  {
    if first == last then [last] else Chars(first, (last as int - 1) as char) + [last]
  }

  predicate Over(s: string, chars: string) { forall i :: 0 <= i < |s| ==> s[i] in chars }

  /** The texts that are one number, register or name, by the characters they are made of. */
  predicate Spelled(k: Kind, s: string)
    requires HasText(k)
  {
    match k
    case Num => s != "" && Over(s, DECIMAL)
    case Hex => |s| > 2 && s[0] == '0' && s[1] in "xX" && Over(s[2..], HEXADECIMAL)
    case Reg => |s| > 1 && s[0] == '$' && Over(s[1..], LETTERS)
    case Symb => s != "" && s[0] in LETTERS + "_" && Over(s[1..], LETTERS + DECIMAL + "_")
  }

  lemma LettersAre(c: char)
    ensures c in LETTERS <==> 'a' <= c <= 'z' || 'A' <= c <= 'Z'
  {}

  lemma DecimalsAre(c: char)
    ensures c in DECIMAL <==> '0' <= c <= '9'
  {
    if '0' <= c <= '9' { assert DECIMAL[c as int - '0' as int] == c; }
  }

  lemma HexadecimalsAre(c: char)
    ensures c in HEXADECIMAL <==> '0' <= c <= '9' || 'a' <= c <= 'f' || 'A' <= c <= 'F'
  {
    if '0' <= c <= '9' { assert HEXADECIMAL[c as int - '0' as int] == c; }
    if 'a' <= c <= 'f' { assert HEXADECIMAL[c as int - 'a' as int + 10] == c; }
    if 'A' <= c <= 'F' { assert HEXADECIMAL[c as int - 'A' as int + 16] == c; }
  }

  lemma ClassesAre(c: char)
    ensures InClass(c, DecDigit) <==> c in DECIMAL
    ensures InClass(c, HexDigit) <==> c in HEXADECIMAL
    ensures InClass(c, Letter) <==> c in LETTERS
    ensures InClass(c, Word) <==> c in LETTERS + DECIMAL + "_"
  {
    hide DECIMAL, HEXADECIMAL, LETTERS;
    LettersAre(c);
    DecimalsAre(c);
    HexadecimalsAre(c);
  }

  lemma {:induction false} RunAll(s: string, cls: Class)
    ensures Run(s, cls) == |s| <==> forall i :: 0 <= i < |s| ==> InClass(s[i], cls)
  {
    hide InClass;
    if s != "" {
      RunAll(s[1..], cls);
      assert forall i :: 0 < i < |s| ==> s[i] == s[1..][i - 1];
      assert forall i :: 0 <= i < |s| - 1 ==> s[1..][i] == s[i + 1];
    }
  }

  lemma RunIsOver(s: string, cls: Class, chars: string)
    requires forall c :: InClass(c, cls) <==> c in chars
    ensures Run(s, cls) == |s| <==> Over(s, chars)
  {
    hide InClass, Run;
    RunAll(s, cls);
    assert forall i :: 0 <= i < |s| ==> (InClass(s[i], cls) <==> s[i] in chars);
  }

  lemma RunOver(s: string)
    ensures Run(s, DecDigit) == |s| <==> Over(s, DECIMAL)
    ensures Run(s, HexDigit) == |s| <==> Over(s, HEXADECIMAL)
    ensures Run(s, Letter) == |s| <==> Over(s, LETTERS)
    ensures Run(s, Word) == |s| <==> Over(s, LETTERS + DECIMAL + "_")
  {
    hide InClass, Run, Over, DECIMAL, HEXADECIMAL, LETTERS;
    forall c
      ensures InClass(c, DecDigit) <==> c in DECIMAL
      ensures InClass(c, HexDigit) <==> c in HEXADECIMAL
      ensures InClass(c, Letter) <==> c in LETTERS
      ensures InClass(c, Word) <==> c in LETTERS + DECIMAL + "_"
    {
      ClassesAre(c);
    }
    RunIsOver(s, DecDigit, DECIMAL);
    RunIsOver(s, HexDigit, HEXADECIMAL);
    RunIsOver(s, Letter, LETTERS);
    RunIsOver(s, Word, LETTERS + DECIMAL + "_");
  }

  lemma NumberIff(s: string)
    ensures Spelled(Num, s) <==> s != "" && MatchLen(DecNumber, s) == |s|
    ensures Spelled(Hex, s) <==> s != "" && MatchLen(HexNumber, s) == |s|
  {
    hide InClass, Over, Run;
    RunOver(s);
    if |s| >= 2 { RunOver(s[2..]); }
    assert forall c: char :: c in "xX" <==> c == 'x' || c == 'X';
  }

  lemma NameIff(s: string)
    ensures Spelled(Reg, s) <==> s != "" && MatchLen(RegisterName, s) == |s|
    ensures Spelled(Symb, s) <==> s != "" && MatchLen(Identifier, s) == |s|
  {
    hide InClass, Over, Run;
    if s != "" {
      RunOver(s[1..]);
      LetterStart(s[0]);
    }
  }

  lemma LetterStart(c: char)
    ensures IsLetter(c) || c == '_' <==> c in LETTERS + "_"
  {
    LettersAre(c);
  }

  /** Exactly the texts spelled so are read in full by their rule. */
  lemma SpelledIff(k: Kind, s: string)
    requires HasText(k)
    ensures Spelled(k, s) <==> s != "" && MatchLen(RuleAt(RuleOf(k)).pattern, s) == |s|
  {
    hide Spelled, MatchLen;
    NumberIff(s);
    NameIff(s);
  }

  /** A token as make_token can make it, whatever its length. */
  predicate Readable(t: Token) { if HasText(t.kind) then Spelled(t.kind, t.str) else t.str == "" }

  /** It fits the buffer, too. */
  predicate Writable(t: Token) { Readable(t) && |t.str| < 32 }

  predicate AllReadable(ts: seq<Token>) { forall i :: 0 <= i < |ts| ==> Readable(ts[i]) }
  predicate AllWritable(ts: seq<Token>) { forall i :: 0 <= i < |ts| ==> Writable(ts[i]) }

  /** What make_token can tell apart: it has no unary minus and no dereference. */
  function UnmarkKind(k: Kind): Kind { if k == Neg then Minus else if k == Deref then Star else k }
  function UnmarkOne(t: Token): Token { Token(UnmarkKind(t.kind), t.str) }
  function Unmark(ts: seq<Token>): seq<Token> { seq(|ts|, i requires 0 <= i < |ts| => UnmarkOne(ts[i])) }

  // ---------- which rule matches first ----------

  /** What the first two characters must be for rule j to match. */
  predicate Starts(j: nat, c0: char, c1: char)
    requires j < NR_REGEX
  {
    match j
    case 0 => c0 == ' '
    case 1 => c0 == '+'
    case 2 => c0 == '0' && (c1 == 'x' || c1 == 'X')
    case 3 => '0' <= c0 <= '9'
    case 4 => c0 == '$'
    case 5 => IsLetter(c0) || c0 == '_'
    case 6 => c0 == '*'
    case 7 => c0 == '/'
    case 8 => c0 == '-'
    case 9 => c0 == '%'
    case 10 => c0 == '<' && c1 == '<'
    case 11 => c0 == '>' && c1 == '>'
    case 12 => c0 == '<' && c1 == '='
    case 13 => c0 == '>' && c1 == '='
    case 14 => c0 == '=' && c1 == '='
    case 15 => c0 == '('
    case 16 => c0 == ')'
    case 17 => c0 == '!' && c1 == '='
    case 18 => c0 == '<'
    case 19 => c0 == '>'
    case 20 => c0 == '&' && c1 == '&'
    case 21 => c0 == '|' && c1 == '|'
    case 22 => c0 == '!'
    case 23 => c0 == '^'
    case 24 => c0 == '|'
    case _ => c0 == '&'
  }

  lemma MatchNeeds(j: nat, s: string)
    requires j < NR_REGEX && |s| >= 2 && MatchLen(RuleAt(j).pattern, s) > 0
    ensures Starts(j, s[0], s[1])
  {}

  lemma FirstMatchIs(s: string, j: nat)
    requires j < NR_REGEX && |s| >= 2 && MatchLen(RuleAt(j).pattern, s) > 0
    requires forall i :: 0 <= i < j ==> !Starts(i, s[0], s[1])
    ensures FirstMatch(s, 0) == j
  {
    var r := FirstMatch(s, 0);
    if r < j { MatchNeeds(r, s); }
  }

  lemma ReadInFull(t: Token)
    requires HasText(t.kind) && Readable(t)
    ensures t.str != "" && MatchLen(RuleAt(RuleOf(t.kind)).pattern, t.str) == |t.str|
  {
    hide Spelled, MatchLen;
    SpelledIff(t.kind, t.str);
  }

  lemma {:induction false} RunStops(a: string, b: string, cls: Class)
    requires Run(a, cls) == |a| && (b == "" || !InClass(b[0], cls))
    ensures Run(a + b, cls) == |a|
  {
    if a == "" {
      assert a + b == b;
    } else {
      RunStops(a[1..], b, cls);
      assert (a + b)[1..] == a[1..] + b;
    }
  }

  lemma RunNext(a: string, cls: Class, i: nat)
    requires Run(a, cls) == |a| && i < |a| && i < 2
    ensures InClass(a[i], cls)
  {}

  /** A written number or name is followed by a space, so its rule reads no further. */
  lemma TextMatches(t: Token, rest: string)
    requires HasText(t.kind) && Readable(t)
    ensures MatchLen(RuleAt(RuleOf(t.kind)).pattern, t.str + (" " + rest)) == |t.str|
  {
    hide Run, InClass, Readable;
    ReadInFull(t);
    var s, b := t.str, " " + rest;
    assert (s + b)[1..] == s[1..] + b;
    NoRunFromBlank();
    match t.kind
    case Num => RunStops(s, b, DecDigit);
    case Hex => HexMatches(t, rest);
    case Reg => RunStops(s[1..], b, Letter);
    case Symb => RunStops(s[1..], b, Word);
  }

  lemma HexMatches(t: Token, rest: string)
    requires t.kind == Hex && Readable(t)
    ensures MatchLen(RuleAt(RuleOf(Hex)).pattern, t.str + (" " + rest)) == |t.str|
  {
    hide Run, InClass, Readable;
    ReadInFull(t);
    var s, b := t.str, " " + rest;
    NoRunFromBlank();
    RunStops(s[2..], b, HexDigit);
    assert (s + b)[2..] == s[2..] + b;
  }

  lemma NoRunFromBlank()
    ensures forall cls: Class :: cls != Blank ==> !InClass(' ', cls)
  {}

  lemma TextRule(t: Token, rest: string)
    requires HasText(t.kind) && Readable(t)
    ensures FirstMatch(t.str + (" " + rest), 0) == RuleOf(t.kind)
  {
    hide FirstMatch, Readable;
    ReadInFull(t);
    TextMatches(t, rest);
    var s := t.str + (" " + rest);
    if t.kind == Num {
      RunNext(t.str, DecDigit, 0);
      if |t.str| > 1 { RunNext(t.str, DecDigit, 1); }
      assert s[0] == t.str[0] && s[1] == (if |t.str| > 1 then t.str[1] else ' ');
    }
    FirstMatchIs(s, RuleOf(t.kind));
  }

  lemma OperatorPattern(k: Kind)
    requires !HasText(k)
    ensures RuleAt(RuleOf(k)).pattern == Text(OperatorText(k))
  {}

  lemma OperatorMatches(k: Kind, rest: string)
    requires !HasText(k)
    ensures MatchLen(RuleAt(RuleOf(k)).pattern, OperatorText(k) + (" " + rest)) == |OperatorText(k)|
  {
    hide RuleAt, RuleOf, OperatorText;
    OperatorPattern(k);
    assert OperatorText(k) <= OperatorText(k) + (" " + rest);
  }

  lemma OperatorStarts(k: Kind)
    requires !HasText(k)
    ensures |OperatorText(k)| == 1 || |OperatorText(k)| == 2
    ensures |OperatorText(k)| == 1 ==> forall i :: 0 <= i < RuleOf(k) ==> !Starts(i, OperatorText(k)[0], ' ')
    ensures |OperatorText(k)| == 2 ==> forall i :: 0 <= i < RuleOf(k) ==>
              !Starts(i, OperatorText(k)[0], OperatorText(k)[1])
  {}

  lemma OperatorRule(k: Kind, rest: string)
    requires !HasText(k)
    ensures FirstMatch(OperatorText(k) + (" " + rest), 0) == RuleOf(k)
  {
    hide MatchLen, RuleAt, OperatorText, RuleOf, Starts, FirstMatch;
    OperatorMatches(k, rest);
    OperatorStarts(k);
    FirstMatchIs(OperatorText(k) + (" " + rest), RuleOf(k));
  }

  // ---------- scanning the rendered text ----------

  lemma RuleEmits(t: Token, rest: string)
    requires Readable(t)
    ensures var s := TextOf(t) + (" " + rest);
            && FirstMatch(s, 0) == RuleOf(t.kind)
            && MatchLen(RuleAt(RuleOf(t.kind)).pattern, s) == |TextOf(t)|
            && RuleAt(RuleOf(t.kind)).action == Emit(UnmarkKind(t.kind))
            && HasText(UnmarkKind(t.kind)) == HasText(t.kind)
  {
    hide MatchLen, FirstMatch, Readable;
    if HasText(t.kind) {
      TextRule(t, rest);
      TextMatches(t, rest);
    } else {
      OperatorRule(t.kind, rest);
      OperatorMatches(t.kind, rest);
    }
  }

  lemma BlankSkips(rest: string)
    requires rest == "" || rest[0] != ' '
    ensures FirstMatch(" " + rest, 0) == 0 && MatchLen(RuleAt(0).pattern, " " + rest) == 1 && RuleAt(0).action == Skip
  {
    assert (" " + rest)[1..] == rest;
    assert Run(rest, Blank) == 0;
    assert Run(" " + rest, Blank) == 1;
  }

  /** The next token is appended if there is room for it, both in the buffer and in its 31 characters. */
  lemma LexToken(t: Token, rest: string, count: nat)
    requires Readable(t) && (rest == "" || rest[0] != ' ')
    ensures Lex(TextOf(t) + (" " + rest), count)
            == if count >= MAX_TOKENS || |t.str| >= 32 then Broken else Prepend(UnmarkOne(t), Lex(rest, count + 1))
  {
    hide MatchLen, FirstMatch, RuleAt, RuleOf, Lex, Prepend, Spelled;
    var e, n := TextOf(t) + (" " + rest), |TextOf(t)|;
    assert e[0..] == e && e[0 + n..] == " " + rest && e[0..0 + n] == TextOf(t);
    RuleEmits(t, rest);
    LexStep(e, 0, count);
    BlankSkips(rest);
    assert (" " + rest)[0..] == " " + rest && (" " + rest)[0 + 1..] == rest;
    LexStep(" " + rest, 0, count + 1);
  }

  lemma RenderStart(ts: seq<Token>, rest: string)
    requires AllReadable(ts) && (rest == "" || rest[0] != ' ')
    ensures Render(ts) + rest == "" || (Render(ts) + rest)[0] != ' '
  {
    hide Readable, TextOf;
    if ts != [] {
      assert Readable(ts[0]);
      NotBlank(ts[0]);
      FirstCharacter(TextOf(ts[0]), " " + Render(ts[1..]), rest);
    }
  }

  lemma FirstCharacter(s: string, more: string, rest: string)
    requires s != ""
    ensures (s + more + rest)[0] == s[0]
  {}

  lemma NotBlank(t: Token)
    requires Readable(t)
    ensures TextOf(t) != "" && TextOf(t)[0] != ' '
  {
    if HasText(t.kind) {
      hide Readable, FirstMatch;
      ReadInFull(t);
    }
  }

  /** make_token reads back every token sequence it is given the text of, if it has room for it: up to
      32 tokens with up to 31 characters each.  Then it goes on with the rest of the text. */
  lemma {:induction false} LexThen(ts: seq<Token>, rest: string, count: nat)
    requires AllReadable(ts) && (rest == "" || rest[0] != ' ')
    ensures Lex(Render(ts) + rest, count)
            == if ts == [] || (count + |ts| <= 32 && AllWritable(ts))
               then PrependAll(Unmark(ts), Lex(rest, count + |ts|)) else Broken
  {
    hide Lex, Readable, TextOf;
    if ts == [] {
      assert Unmark(ts) == [] && Render(ts) + rest == rest;
    } else {
      var t, more := ts[0], Render(ts[1..]) + rest;
      assert Readable(t) && AllReadable(ts[1..]);
      assert Render(ts) + rest == TextOf(t) + (" " + more);
      LexThen(ts[1..], rest, count + 1);
      RenderStart(ts[1..], rest);
      LexToken(t, more, count);
      assert [UnmarkOne(t)] + Unmark(ts[1..]) == Unmark(ts);
      assert AllWritable(ts) <==> Writable(t) && AllWritable(ts[1..]);
      if ts[1..] == [] { assert Unmark(ts) == [UnmarkOne(t)]; }
    }
  }

  lemma LexRender(ts: seq<Token>)
    requires AllReadable(ts)
    ensures Lex(Render(ts), 0) == if |ts| <= 32 && AllWritable(ts) then Tokens(Unmark(ts)) else Broken
  {
    hide Lex, Readable;
    LexThen(ts, "", 0);
    LexEnd(|ts|);
    assert Render(ts) + "" == Render(ts);
    assert Unmark(ts) + [] == Unmark(ts);
  }

  // ---------- what is no token ----------

  const SIGNS := " +-*/%()<>!^|&_"

  /** Some rule of the table matches at the start of s. */
  predicate CanStart(s: string) {
    s != ""
    && (s[0] in SIGNS || s[0] in LETTERS || s[0] in DECIMAL
        || "==" <= s || (|s| > 1 && s[0] == '$' && s[1] in LETTERS))
  }

  lemma CanStartIff(s: string)
    ensures FirstMatch(s, 0) < NR_REGEX <==> CanStart(s)
  {
    hide FirstMatch, MatchLen, CanStart, RuleAt;
    var r := FirstMatch(s, 0);
    if r < NR_REGEX { MatchCanStart(r, s); }
    if CanStart(s) {
      var j := SomeRule(s);
      assert MatchLen(RuleAt(j).pattern, s) > 0;
    }
  }

  lemma MatchCanStart(j: nat, s: string)
    requires j < NR_REGEX && MatchLen(RuleAt(j).pattern, s) > 0
    ensures CanStart(s)
  {
    hide LETTERS, DECIMAL;
    LettersAre(s[0]);
    DecimalsAre(s[0]);
    if |s| > 1 { LettersAre(s[1]); }
    SignsAre(s[0]);
  }

  lemma SignsAre(c: char)
    ensures c in SIGNS <==> c == ' ' || c == '+' || c == '-' || c == '*' || c == '/' || c == '%' || c == '(' || c == ')'
                            || c == '<' || c == '>' || c == '!' || c == '^' || c == '|' || c == '&' || c == '_'
  {}

  lemma SomeRule(s: string) returns (j: nat)
    requires CanStart(s)
    ensures j < NR_REGEX && MatchLen(RuleAt(j).pattern, s) > 0
  {
    hide LETTERS, DECIMAL, SIGNS;
    LettersAre(s[0]);
    DecimalsAre(s[0]);
    if |s| > 1 { LettersAre(s[1]); }
    SignsAre(s[0]);
    if s[0] in LETTERS || s[0] == '_' { j := 5; }
    else if s[0] in DECIMAL { j := 3; }
    else if s[0] == '$' { j := 4; assert s[1..][0] == s[1]; }
    else { j := SignRule(s[0]); }
  }

  /** The rule that matches a sign by itself. */
  function SignRule(c: char): (j: nat)
    ensures j < NR_REGEX
  {
    match c
    case ' ' => 0 case '+' => 1 case '*' => 6 case '/' => 7 case '-' => 8 case '%' => 9 case '=' => 14
    case '(' => 15 case ')' => 16 case '<' => 18 case '>' => 19 case '!' => 22 case '^' => 23 case '|' => 24
    case _ => 25
  }

  /** After tokens that fit the buffer, expr reports text that no rule matches. */
  lemma UnrecognisedText(ts: seq<Token>, s: string, env: Env)
    requires AllWritable(ts) && |ts| <= 32 && s != "" && !CanStart(s)
    ensures ExprOf(Render(ts) + s, env) == Unrecognised
  {
    hide Lex, Readable, Eval, Mark, CanStart, FirstMatch;
    CanStartIff(s);
    BlankStarts(s);
    LexStep(s, 0, |ts|);
    assert s[0..] == s;
    LexThen(ts, s, 0);
  }

  lemma BlankStarts(s: string)
    requires s != "" && !CanStart(s)
    ensures s[0] != ' '
  {}

  // ---------- the marking pass ----------

  function Before(prev: Kind, ts: seq<Token>, i: nat): Kind
    requires i < |ts|
  {
    if i == 0 then prev else ts[i - 1].kind
  }

  /** Unary operators stand where the pass finds them, binary minus and times where it does not.
      Standing first counts as following an opening parenthesis. */
  ghost predicate Marked(prev: Kind, ts: seq<Token>) { forall i: nat :: i < |ts| ==> MarkedAt(prev, ts, i) }

  ghost predicate MarkedAt(prev: Kind, ts: seq<Token>, i: nat)
    requires i < |ts|
  {
    && (ts[i].kind == Neg || ts[i].kind == Deref ==> Check(Before(prev, ts, i)))
    && (ts[i].kind == Minus || ts[i].kind == Star ==> !Check(Before(prev, ts, i)))
  }

  lemma MarkedSnoc(ts: seq<Token>)
    requires ts != []
    ensures var n := |ts| - 1;
            Marked(LParen, ts)
            <==> Marked(LParen, ts[..n]) && MarkOne(UnmarkOne(ts[n]), Check(Before(LParen, ts, n))) == ts[n]
  {
    hide MarkedAt, MarkOne, UnmarkOne, Check;
    var n := |ts| - 1;
    forall i: nat | i < n ensures MarkedAt(LParen, ts[..n], i) == MarkedAt(LParen, ts, i) { MarkedAtFront(ts, n, i); }
    MarkedAtLast(ts, n);
  }

  lemma MarkedAtFront(ts: seq<Token>, n: nat, i: nat)
    requires i < n <= |ts|
    ensures MarkedAt(LParen, ts[..n], i) == MarkedAt(LParen, ts, i)
  {}

  lemma MarkedAtLast(ts: seq<Token>, n: nat)
    requires n < |ts|
    ensures MarkedAt(LParen, ts, n) <==> MarkOne(UnmarkOne(ts[n]), Check(Before(LParen, ts, n))) == ts[n]
  {
    MarkOneIff(ts[n], Check(Before(LParen, ts, n)));
  }

  lemma MarkOneIff(t: Token, unary: bool)
    ensures MarkOne(UnmarkOne(t), unary) == t
            <==> (t.kind == Neg || t.kind == Deref ==> unary) && (t.kind == Minus || t.kind == Star ==> !unary)
  {}

  /** The pass finds the unary operators again exactly in the sequences that are Marked: any other
      sequence comes back changed. */
  lemma {:induction false} MarkUnmark(ts: seq<Token>)
    ensures Mark(Unmark(ts)) == ts <==> Marked(LParen, ts)
  {
    hide Marked, MarkOne;
    if ts == [] {
      MarkedEmpty();
    } else {
      var n := |ts| - 1;
      var front := Mark(Unmark(ts[..n]));
      assert Unmark(ts)[..n] == Unmark(ts[..n]);
      MarkUnmark(ts[..n]);
      MarkedSnoc(ts);
      assert Check(LParen);
      assert ts == ts[..n] + [ts[n]];
      assert Mark(Unmark(ts))[..n] == front && |front| == n;
    }
  }

  lemma MarkedEmpty()
    ensures Marked(LParen, [])
  {}

  lemma MarkedConcat(prev: Kind, a: seq<Token>, b: seq<Token>)
    requires a != [] && Marked(prev, a) && Marked(a[|a| - 1].kind, b)
    ensures Marked(prev, a + b)
  {
    var ts := a + b;
    forall i: nat | i < |ts| ensures MarkedAt(prev, ts, i) {
      if i < |a| {
        assert MarkedAt(prev, a, i) && ts[i] == a[i] && Before(prev, ts, i) == Before(prev, a, i);
      } else {
        var p, j := a[|a| - 1].kind, i - |a|;
        assert MarkedAt(p, b, j) && ts[i] == b[j] && Before(prev, ts, i) == Before(p, b, j);
      }
    }
  }

  lemma MarkedSingle(prev: Kind, k: Kind)
    requires k == Neg || k == Deref ==> Check(prev)
    requires k == Minus || k == Star ==> !Check(prev)
    ensures Marked(prev, Op(k)) && Op(k)[|Op(k)| - 1].kind == k
  {}

  ghost predicate EndsOperand(ts: seq<Token>) {
    ts != [] && (HasText(ts[|ts| - 1].kind) || ts[|ts| - 1].kind == RParen)
  }

  lemma {:induction false} PrintMarked(t: Tree, min: nat, marked: bool, prev: Kind)
    requires WellFormed(t) && min <= 12 && (marked ==> Check(prev))
    ensures Marked(prev, Print(t, min, marked)) && EndsOperand(Print(t, min, marked))
    decreases t, 1
  {
    if NeedsParens(t, min, marked) {
      ParenthesisChecked();
      BareMarked(t, true, LParen);
      var bare := Bare(t, true);
      MarkedSingle(prev, LParen);
      MarkedConcat(prev, Op(LParen), bare);
      MarkedSingle(bare[|bare| - 1].kind, RParen);
      var inner := Op(LParen) + bare;
      assert inner[|inner| - 1] == bare[|bare| - 1];
      MarkedConcat(prev, inner, Op(RParen));
    } else {
      BareMarked(t, marked, prev);
    }
  }

  lemma {:induction false} BareMarked(t: Tree, marked: bool, prev: Kind)
    requires WellFormed(t) && (marked ==> Check(prev)) && (t.Negate? || t.Dereference? ==> marked)
    ensures Marked(prev, Bare(t, marked)) && EndsOperand(Bare(t, marked))
    decreases t, 0
  {
    match t
    case Leaf(token) =>
    case Binary(op, l, r) =>
      var a, b := Print(l, Precedence(op), marked), Print(r, Precedence(op) + 1, Check(op));
      PrintMarked(l, Precedence(op), marked, prev);
      NotUnary(op);
      PrintMarked(r, Precedence(op) + 1, Check(op), op);
      MarkedBinary(prev, a, op, b);
    case LogicalNot(e) => UnaryMarked(prev, Not, e);
    case Negate(e) => UnaryMarked(prev, Neg, e);
    case Dereference(e) => UnaryMarked(prev, Deref, e);
  }

  lemma ParenthesisChecked()
    ensures Check(LParen)
  {}

  lemma NotUnary(op: Kind)
    requires Precedence(op) > 0
    ensures op != Neg && op != Deref
  {}

  lemma AfterOperand(a: seq<Token>)
    requires EndsOperand(a)
    ensures !Check(a[|a| - 1].kind)
  {}

  lemma MarkedBinary(prev: Kind, a: seq<Token>, op: Kind, b: seq<Token>)
    requires Marked(prev, a) && EndsOperand(a) && Marked(op, b) && EndsOperand(b) && op != Neg && op != Deref
    ensures Marked(prev, a + Op(op) + b) && EndsOperand(a + Op(op) + b)
  {
    hide Marked, Check, HasText;
    AfterOperand(a);
    MarkedSingle(a[|a| - 1].kind, op);
    MarkedConcat(prev, a, Op(op));
    var c := a + Op(op);
    assert c[|c| - 1].kind == op;
    MarkedConcat(prev, c, b);
    assert (c + b)[|c + b| - 1] == b[|b| - 1];
  }

  lemma {:induction false} UnaryMarked(prev: Kind, k: Kind, e: Tree)
    requires WellFormed(e) && (k == Not || k == Neg || k == Deref) && (k != Not ==> Check(prev))
    ensures Marked(prev, Op(k) + Print(e, 12, false)) && EndsOperand(Op(k) + Print(e, 12, false))
    decreases e, 2
  {
    hide Marked;
    PrintMarked(e, 12, false, k);
    MarkedSingle(prev, k);
    MarkedConcat(prev, Op(k), Print(e, 12, false));
  }

  // ---------- the round trip ----------

  predicate WritableTree(t: Tree) {
    match t
    case Leaf(token) => Writable(token)
    case Binary(_, l, r) => WritableTree(l) && WritableTree(r)
    case LogicalNot(e) => WritableTree(e)
    case Negate(e) => WritableTree(e)
    case Dereference(e) => WritableTree(e)
  }

  lemma WritableOp(k: Kind)
    requires !HasText(k)
    ensures AllWritable(Op(k))
  {}

  lemma WritableConcat(a: seq<Token>, b: seq<Token>)
    requires AllWritable(a) && AllWritable(b)
    ensures AllWritable(a + b)
  {}

  lemma {:induction false} PrintWritable(t: Tree, min: nat, marked: bool)
    requires WellFormed(t) && WritableTree(t) && min <= 12
    ensures AllWritable(Print(t, min, marked))
    decreases t, 1
  {
    hide Writable;
    BareWritable(t, true);
    BareWritable(t, marked);
    WritableOp(LParen);
    WritableOp(RParen);
    WritableConcat(Op(LParen), Bare(t, true));
    WritableConcat(Op(LParen) + Bare(t, true), Op(RParen));
  }

  lemma {:induction false} BareWritable(t: Tree, marked: bool)
    requires WellFormed(t) && WritableTree(t)
    ensures AllWritable(Bare(t, marked))
    decreases t, 0
  {
    hide Writable;
    match t
    case Leaf(_) =>
    case Binary(op, l, r) =>
      var a, b := Print(l, Precedence(op), marked), Print(r, Precedence(op) + 1, Check(op));
      PrintWritable(l, Precedence(op), marked);
      PrintWritable(r, Precedence(op) + 1, Check(op));
      WritableOp(op);
      WritableConcat(a, Op(op));
      WritableConcat(a + Op(op), b);
    case LogicalNot(e) => UnaryWritable(Not, e);
    case Negate(e) => UnaryWritable(Neg, e);
    case Dereference(e) => UnaryWritable(Deref, e);
  }

  lemma {:induction false} UnaryWritable(k: Kind, e: Tree)
    requires WellFormed(e) && WritableTree(e) && !HasText(k)
    ensures AllWritable(Op(k) + Print(e, 12, false))
    decreases e, 2
  {
    hide Writable;
    PrintWritable(e, 12, false);
    WritableOp(k);
    WritableConcat(Op(k), Print(e, 12, false));
  }

  /** expr on the text of a tree. */
  lemma ExprOfText(t: Tree, env: Env)
    requires WellFormed(t) && WritableTree(t) && |Print(t, 0, true)| <= MAX_TOKENS
    ensures ExprOf(Render(Print(t, 0, true)), env)
            == match Expected(t, env)
               case Val(v) => Value(v)
               case Fault => Fails
  {
    hide Eval, Lex, Mark, Expected, Print, Marked;
    var ts := Print(t, 0, true);
    PrintWritable(t, 0, true);
    LexRender(ts);
    ParenthesisChecked();
    PrintMarked(t, 0, true, LParen);
    MarkUnmark(ts);
    EvalPrint(t, 0, true, env);
  }

  // ---------- numbers ----------

  /** n in positional notation, |digits| being the base. */
  function Numeral(n: nat, digits: string): (s: string)
    requires |digits| >= 2
    ensures s != "" && Over(s, digits)
  {
    if n < |digits| then [digits[n]] else Numeral(n / |digits|, digits) + [digits[n % |digits|]]
  }

  function Decimal(n: nat): string { Numeral(n, "0123456789") }
  function Hexadecimal(n: nat, capitals: bool): string {
    if capitals then "0X" + Numeral(n, "0123456789ABCDEF") else "0x" + Numeral(n, "0123456789abcdef")
  }

  lemma DigitsAre(d: nat)
    requires d < 16
    ensures d < 10 ==> Digit("0123456789"[d]) == d
    ensures Digit("0123456789abcdef"[d]) == d && Digit("0123456789ABCDEF"[d]) == d
  {
    if d < 10 {
      assert "0123456789abcdef"[d] == (d + '0' as int) as char && "0123456789ABCDEF"[d] == (d + '0' as int) as char;
    }
  }

  lemma DigitsSnoc(s: string, c: char, base: nat)
    ensures DigitsValue(s + [c], base) == DigitsValue(s, base) * base + Digit(c)
  {
    assert (s + [c])[..|s|] == s;
  }

  lemma {:induction false} NumeralReads(n: nat, digits: string)
    requires |digits| >= 2 && forall d :: 0 <= d < |digits| ==> Digit(digits[d]) == d
    ensures DigitsValue(Numeral(n, digits), |digits|) == n
  {
    hide Digit, DigitsValue;
    var b := |digits|;
    if n < b {
      DigitsSnoc("", digits[n], b);
      NoDigits(b);
      assert "" + [digits[n]] == [digits[n]];
    } else {
      NumeralReads(n / b, digits);
      DigitsSnoc(Numeral(n / b, digits), digits[n % b], b);
      DivMod(n, b);
    }
  }

  lemma NoDigits(base: nat)
    ensures DigitsValue("", base) * base == 0
  {}

  lemma DivMod(n: nat, b: nat)
    requires b > 0
    ensures n / b * b + n % b == n
  {}

  function Power(b: nat, k: nat): nat { if k == 0 then 1 else b * Power(b, k - 1) }

  lemma {:induction false} NumeralLength(n: nat, digits: string, k: nat)
    requires |digits| >= 2 && k > 0 && n < Power(|digits|, k)
    ensures |Numeral(n, digits)| <= k
  {
    var b := |digits|;
    if n >= b {
      Below(n, b, Power(b, k - 1));
      assert k > 1 by { assert Power(b, 0) == 1; }
      NumeralLength(n / b, digits, k - 1);
    }
  }

  lemma Below(n: nat, b: nat, p: nat)
    requires b > 0 && n < b * p
    ensures n / b < p
  {
    DivMod(n, b);
  }

  lemma OverMore(s: string, some: string, more: string)
    requires Over(s, some) && forall c :: c in some ==> c in more
    ensures Over(s, more)
  {}

  /** A number is read back as itself from its decimal text below 2^31; beyond, sscanf promises nothing. */
  lemma DecimalRoundTrip(n: nat, env: Env)
    ensures Readable(Token(Num, Decimal(n)))
    ensures n < 0x8000_0000 ==> Writable(Token(Num, Decimal(n)))
    ensures LeafValue(Token(Num, Decimal(n)), env) == if n < 0x8000_0000 then Val(n) else Fault
  {
    forall d | 0 <= d < 10 ensures Digit("0123456789"[d]) == d { DigitsAre(d); }
    NumeralReads(n, "0123456789");
    if n < 0x8000_0000 {
      assert Power(10, 10) == 10000000000;
      NumeralLength(n, "0123456789", 10);
    }
  }

  lemma SixteenDigits()
    ensures forall d :: 0 <= d < 16 ==> Digit("0123456789abcdef"[d]) == d && Digit("0123456789ABCDEF"[d]) == d
    ensures forall d :: 0 <= d < 16 ==> "0123456789abcdef"[d] in HEXADECIMAL && "0123456789ABCDEF"[d] in HEXADECIMAL
  {
    forall d | 0 <= d < 16
      ensures Digit("0123456789abcdef"[d]) == d && Digit("0123456789ABCDEF"[d]) == d
      ensures "0123456789abcdef"[d] in HEXADECIMAL && "0123456789ABCDEF"[d] in HEXADECIMAL
    {
      DigitsAre(d);
      assert "0123456789abcdef"[d] == HEXADECIMAL[d];
      assert "0123456789ABCDEF"[d] == if d < 10 then HEXADECIMAL[d] else HEXADECIMAL[d + 6];
    }
  }

  /** And from its hexadecimal text, with small letters or capitals, below 2^32. */
  lemma HexadecimalRoundTrip(n: nat, capitals: bool, env: Env)
    ensures Readable(Token(Hex, Hexadecimal(n, capitals)))
    ensures n < 0x1_0000_0000 ==> Writable(Token(Hex, Hexadecimal(n, capitals)))
    ensures LeafValue(Token(Hex, Hexadecimal(n, capitals)), env) == if n < 0x1_0000_0000 then Val(n) else Fault
  {
    SixteenDigits();
    HexadecimalText(n, if capitals then "0123456789ABCDEF" else "0123456789abcdef", if capitals then 'X' else 'x', env);
  }

  lemma HexadecimalText(n: nat, digits: string, x: char, env: Env)
    requires |digits| == 16 && x in "xX"
    requires forall d :: 0 <= d < 16 ==> Digit(digits[d]) == d && digits[d] in HEXADECIMAL
    ensures var s := ['0', x] + Numeral(n, digits);
            && Readable(Token(Hex, s)) && (n < 0x1_0000_0000 ==> Writable(Token(Hex, s)))
            && LeafValue(Token(Hex, s), env) == if n < 0x1_0000_0000 then Val(n) else Fault
  {
    hide Digit, DigitsValue, Numeral, Power, HEXADECIMAL;
    NumeralReads(n, digits);
    OverMore(Numeral(n, digits), digits, HEXADECIMAL);
    assert (['0', x] + Numeral(n, digits))[2..] == Numeral(n, digits);
    if n < 0x1_0000_0000 {
      EightDigits();
      NumeralLength(n, digits, 8);
    }
  }

  lemma EightDigits()
    ensures Power(16, 8) == 0x1_0000_0000
  {}

  // ---------- registers ----------

  const REGISTER_NAMES := ["ax", "bx", "cx", "dx", "si", "di", "sp", "bp", "ip"]

  lemma RegistersAre(s: string)
    ensures s in REGISTERS <==> |s| == 4 && s[..2] == "$e" && s[2..] in REGISTER_NAMES
  {
    if |s| == 4 && s[..2] == "$e" && s[2..] in REGISTER_NAMES {
      assert s == "$e" + s[2..];
      assert s[2..] == "ax" ==> s == "$eax";
      assert s[2..] == "bx" ==> s == "$ebx";
      assert s[2..] == "cx" ==> s == "$ecx";
      assert s[2..] == "dx" ==> s == "$edx";
      assert s[2..] == "si" ==> s == "$esi";
      assert s[2..] == "di" ==> s == "$edi";
      assert s[2..] == "sp" ==> s == "$esp";
      assert s[2..] == "bp" ==> s == "$ebp";
      assert s[2..] == "ip" ==> s == "$eip";
    }
  }

  /** A register has a value if it is one of the nine the monitor knows, in small letters. */
  lemma RegisterValue(s: string, env: Env)
    ensures LeafValue(Token(Reg, s), env)
            == if |s| == 4 && s[..2] == "$e" && s[2..] in REGISTER_NAMES && s in env.regs
               then Val(env.regs[s]) else Fault
  {
    hide REGISTERS, REGISTER_NAMES;
    RegistersAre(s);
  }
}
