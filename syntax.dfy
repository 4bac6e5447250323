/**
 * The closed condition language of rule packs: a tokenizer and a
 * recursive-descent parser for the Python expression subset that rule
 * conditions use. Text outside this grammar is a syntax error, so no other
 * construct of the host language can be reached from a condition.
 */
module Syntax {
  import opened Results
  import opened Values

  datatype Token =
    | Ident(name: string)
    | Keyword(word: string)
    | NumberLit(value: real)
    | StringLit(text: string)
    | Punct(symbol: string)

  datatype CmpOp = Eq | NotEq | Lt | LtE | Gt | GtE | In | NotIn

  datatype Expr =
    | Name(id: string)
    | Const(value: Value)
    | Display(kind: SeqKind, items: seq<Expr>)
    | Not(operand: Expr)
    | And(left: Expr, right: Expr)
    | Or(left: Expr, right: Expr)
    | Compare(op: CmpOp, left: Expr, right: Expr)

  datatype SyntaxError = SyntaxError(reason: string)

  /** Words of the language; they never become names. */
  const LanguageKeywords: set<string> := {"and", "or", "not", "in", "None", "True", "False"}

  /** Python's other reserved words: each starts a construct outside the grammar. */
  const OtherKeywords: set<string> :=
    {"as", "assert", "async", "await", "break", "class", "continue", "def", "del", "elif",
     "else", "except", "finally", "for", "from", "global", "if", "import", "is", "lambda",
     "nonlocal", "pass", "raise", "return", "try", "while", "with", "yield"}

  const TwoCharOperators: set<string> := {"==", "!=", "<=", ">="}
  const OneCharPunct: set<char> := {'<', '>', '(', ')', '[', ']', ','}

  predicate IsLetter(c: char) { 'a' <= c <= 'z' || 'A' <= c <= 'Z' || c == '_' }
  predicate IsDigit(c: char) { '0' <= c <= '9' }
  predicate IsIdentChar(c: char) { IsLetter(c) || IsDigit(c) }

  /** End of the identifier characters starting at `i`. */
  function IdentEnd(s: string, i: nat): (j: nat)
    requires i <= |s|
    ensures i <= j <= |s|
    ensures forall k | i <= k < j :: IsIdentChar(s[k])
    ensures j < |s| ==> !IsIdentChar(s[j])
    decreases |s| - i
  {
    if i < |s| && IsIdentChar(s[i]) then IdentEnd(s, i + 1) else i
  }

  /** End of the run of decimal digits starting at `i`. */
  function DigitsEnd(s: string, i: nat): (j: nat)
    requires i <= |s|
    ensures i <= j <= |s|
    ensures forall k | i <= k < j :: IsDigit(s[k])
    ensures j < |s| ==> !IsDigit(s[j])
    decreases |s| - i
  {
    if i < |s| && IsDigit(s[i]) then DigitsEnd(s, i + 1) else i
  }

  /** Position of the first `q` at or after `i`, or `|s|` when there is none. */
  function QuoteEnd(s: string, i: nat, q: char): (j: nat)
    requires i <= |s|
    ensures i <= j <= |s|
    ensures forall k | i <= k < j :: s[k] != q
    ensures j < |s| ==> s[j] == q
    decreases |s| - i
  {
    if i < |s| && s[i] != q then QuoteEnd(s, i + 1, q) else i
  }

  function DigitsValue(d: string): nat
    requires forall k | 0 <= k < |d| :: IsDigit(d[k])
  {
    if d == [] then 0
    else
      assert IsDigit(d[|d| - 1]);
      DigitsValue(d[..|d| - 1]) * 10 + (d[|d| - 1] as int - '0' as int)
  }

  function Pow10(k: nat): (p: nat)
    ensures p > 0
  {
    if k == 0 then 1 else 10 * Pow10(k - 1)
  }

  /** Python refuses decimal integer literals such as `01` (zeros alone are allowed). */
  predicate LeadingZero(d: string)
  {
    |d| > 1 && d[0] == '0' && exists k | 0 <= k < |d| :: d[k] != '0'
  }

  /** The tokens of `s[i..]`, left to right. */
  function Tokenize(s: string, i: nat): Result<seq<Token>, SyntaxError>
    requires i <= |s|
    decreases |s| - i
  {
    if i == |s| then Ok([])
    else
      var c := s[i];
      if c == ' ' || c == '\t' then Tokenize(s, i + 1)
      else if IsLetter(c) then
        var j := IdentEnd(s, i);
        var word := s[i..j];
        if word in OtherKeywords then Err(SyntaxError("reserved word outside the grammar"))
        else
          var rest :- Tokenize(s, j);
          Ok([if word in LanguageKeywords then Keyword(word) else Ident(word)] + rest)
      else if IsDigit(c) then
        var j := DigitsEnd(s, i);
        if j < |s| && s[j] == '.' then
          var k := DigitsEnd(s, j + 1);
          var value := DigitsValue(s[i..j]) as real + DigitsValue(s[j + 1..k]) as real / Pow10(k - j - 1) as real;
          var rest :- Tokenize(s, k);
          Ok([NumberLit(value)] + rest)
        else if LeadingZero(s[i..j]) then Err(SyntaxError("leading zeros in decimal integer literal"))
        else
          var rest :- Tokenize(s, j);
          Ok([NumberLit(DigitsValue(s[i..j]) as real)] + rest)
      else if c == '\'' || c == '"' then
        var j := QuoteEnd(s, i + 1, c);
        if j == |s| then Err(SyntaxError("unterminated string literal"))
        else if '\\' in s[i + 1..j] || '\n' in s[i + 1..j] then Err(SyntaxError("escape or line break in string literal"))
        else
          var rest :- Tokenize(s, j + 1);
          Ok([StringLit(s[i + 1..j])] + rest)
      else if i + 1 < |s| && s[i..i + 2] in TwoCharOperators then
        var rest :- Tokenize(s, i + 2);
        Ok([Punct(s[i..i + 2])] + rest)
      else if c in OneCharPunct then
        var rest :- Tokenize(s, i + 1);
        Ok([Punct([c])] + rest)
      else Err(SyntaxError("invalid character"))
  }

  /** A comparison operator at the head of `ts`, with the number of tokens it spans. */
  function ComparisonAt(ts: seq<Token>): (r: Option<(CmpOp, nat)>)
    ensures r.Some? ==> 1 <= r.value.1 <= |ts|
  {
    if ts == [] then None
    else if ts[0] == Punct("==") then Some((Eq, 1))
    else if ts[0] == Punct("!=") then Some((NotEq, 1))
    else if ts[0] == Punct("<") then Some((Lt, 1))
    else if ts[0] == Punct("<=") then Some((LtE, 1))
    else if ts[0] == Punct(">") then Some((Gt, 1))
    else if ts[0] == Punct(">=") then Some((GtE, 1))
    else if ts[0] == Keyword("in") then Some((In, 1))
    else if |ts| > 1 && ts[0] == Keyword("not") && ts[1] == Keyword("in") then Some((NotIn, 2))
    else None
  }

  // disjunction  ::= conjunction ("or" conjunction)*
  // conjunction  ::= negation ("and" negation)*
  // negation     ::= "not" negation | comparison
  // comparison   ::= atom (cmp_op atom)*          (chains mean "and" of neighbours)
  // atom         ::= NAME | NUMBER | STRING | None | True | False
  //                | "(" ")" | "(" disjunction ")" | "(" disjunction "," [items] ")"
  //                | "[" "]" | "[" disjunction ("," disjunction)* [","] "]"

  function ParseDisjunction(ts: seq<Token>): (r: Result<(Expr, seq<Token>), SyntaxError>)
    ensures r.Ok? ==> |r.value.1| < |ts|
    decreases |ts|, 4
  {
    var p :- ParseConjunction(ts);
    OrTail(p.0, p.1)
  }

  function OrTail(left: Expr, ts: seq<Token>): (r: Result<(Expr, seq<Token>), SyntaxError>)
    ensures r.Ok? ==> |r.value.1| <= |ts|
    decreases |ts|, 0
  {
    if |ts| > 0 && ts[0] == Keyword("or") then
      var p :- ParseConjunction(ts[1..]);
      OrTail(Or(left, p.0), p.1)
    else Ok((left, ts))
  }

  function ParseConjunction(ts: seq<Token>): (r: Result<(Expr, seq<Token>), SyntaxError>)
    ensures r.Ok? ==> |r.value.1| < |ts|
    decreases |ts|, 3
  {
    var p :- ParseNegation(ts);
    AndTail(p.0, p.1)
  }

  function AndTail(left: Expr, ts: seq<Token>): (r: Result<(Expr, seq<Token>), SyntaxError>)
    ensures r.Ok? ==> |r.value.1| <= |ts|
    decreases |ts|, 0
  {
    if |ts| > 0 && ts[0] == Keyword("and") then
      var p :- ParseNegation(ts[1..]);
      AndTail(And(left, p.0), p.1)
    else Ok((left, ts))
  }

  function ParseNegation(ts: seq<Token>): (r: Result<(Expr, seq<Token>), SyntaxError>)
    ensures r.Ok? ==> |r.value.1| < |ts|
    decreases |ts|, 2
  {
    if |ts| > 0 && ts[0] == Keyword("not") then
      var p :- ParseNegation(ts[1..]);
      Ok((Not(p.0), p.1))
    else ParseComparison(ts)
  }

  function ParseComparison(ts: seq<Token>): (r: Result<(Expr, seq<Token>), SyntaxError>)
    ensures r.Ok? ==> |r.value.1| < |ts|
    decreases |ts|, 1
  {
    var p :- ParseAtom(ts);
    ComparisonTail(p.0, None, p.1)
  }

  /** `prev` is the last operand read; `acc` the conjunction of the comparisons so far. */
  function ComparisonTail(prev: Expr, acc: Option<Expr>, ts: seq<Token>): (r: Result<(Expr, seq<Token>), SyntaxError>)
    ensures r.Ok? ==> |r.value.1| <= |ts|
    decreases |ts|, 0
  {
    match ComparisonAt(ts)
    case None => Ok((if acc.Some? then acc.value else prev, ts))
    case Some(opAndWidth) =>
      var p :- ParseAtom(ts[opAndWidth.1..]);
      var cmp := Compare(opAndWidth.0, prev, p.0);
      ComparisonTail(p.0, Some(if acc.Some? then And(acc.value, cmp) else cmp), p.1)
  }

  function ParseAtom(ts: seq<Token>): (r: Result<(Expr, seq<Token>), SyntaxError>)
    ensures r.Ok? ==> |r.value.1| < |ts|
    decreases |ts|, 0
  {
    if ts == [] then Err(SyntaxError("unexpected end of expression"))
    else match ts[0]
      case Ident(n) => Ok((Name(n), ts[1..]))
      case NumberLit(v) => Ok((Const(Num(v)), ts[1..]))
      case StringLit(t) => Ok((Const(Str(t)), ts[1..]))
      case Keyword(w) =>
        if w == "None" then Ok((Const(Null), ts[1..]))
        else if w == "True" then Ok((Const(Bool(true)), ts[1..]))
        else if w == "False" then Ok((Const(Bool(false)), ts[1..]))
        else Err(SyntaxError("unexpected keyword"))
      case Punct(p) =>
        if p == "(" then
          if |ts| > 1 && ts[1] == Punct(")") then Ok((Display(TupleKind, []), ts[2..]))
          else
            var first :- ParseDisjunction(ts[1..]);
            if |first.1| > 0 && first.1[0] == Punct(")") then Ok((first.0, first.1[1..]))
            else if |first.1| > 0 && first.1[0] == Punct(",") then
              var items :- ItemsTail([first.0], first.1, ")");
              Ok((Display(TupleKind, items.0), items.1))
            else Err(SyntaxError("expected ')'"))
        else if p == "[" then
          if |ts| > 1 && ts[1] == Punct("]") then Ok((Display(ListKind, []), ts[2..]))
          else
            var first :- ParseDisjunction(ts[1..]);
            var items :- ItemsTail([first.0], first.1, "]");
            Ok((Display(ListKind, items.0), items.1))
        else Err(SyntaxError("unexpected symbol"))
  }

  /** The rest of a tuple or list display after its first item, up to and including `close`. */
  function ItemsTail(items: seq<Expr>, ts: seq<Token>, close: string): (r: Result<(seq<Expr>, seq<Token>), SyntaxError>)
    ensures r.Ok? ==> |r.value.1| < |ts|
    decreases |ts|, 0
  {
    if ts == [] then Err(SyntaxError("unclosed display"))
    else if ts[0] == Punct(close) then Ok((items, ts[1..]))
    else if ts[0] == Punct(",") then
      if |ts| > 1 && ts[1] == Punct(close) then Ok((items, ts[2..]))
      else
        var p :- ParseDisjunction(ts[1..]);
        ItemsTail(items + [p.0], p.1, close)
    else Err(SyntaxError("expected ',' or closing bracket"))
  }

  /** An expression that spans all of `ts`. */
  function Parse(ts: seq<Token>): Result<Expr, SyntaxError>
  {
    var p :- ParseDisjunction(ts);
    if p.1 == [] then Ok(p.0) else Err(SyntaxError("unexpected token after expression"))
  }

  /** A first line that starts with a blank, which `compile` refuses as an indent. */
  predicate Indented(text: string)
  {
    |text| > 0 && (text[0] == ' ' || text[0] == '\t')
  }

  /**
   * `compile(text, "<rules>", "eval")` restricted to the condition language.
   * Blanks are skipped between tokens but not before the first one.
   */
  function Compile(text: string): Result<Expr, SyntaxError>
  {
    if Indented(text) then Err(SyntaxError("unexpected indent"))
    else
      var ts :- Tokenize(text, 0);
      Parse(ts)
  }

  /** A name the tokenizer reads as one identifier token. */
  predicate IsIdentifier(x: string)
  {
    |x| > 0 && IsLetter(x[0]) && (forall k | 0 <= k < |x| :: IsIdentChar(x[k]))
    && x !in OtherKeywords && x !in LanguageKeywords
  }

  lemma {:induction false} IdentEndAt(s: string, i: nat, j: nat)
    requires i <= j <= |s|
    requires forall k | i <= k < j :: IsIdentChar(s[k])
    requires j == |s| || !IsIdentChar(s[j])
    ensures IdentEnd(s, i) == j
    decreases j - i
  {
    if i < j {
      IdentEndAt(s, i + 1, j);
    }
  }

  lemma TokenizeSpace(s: string, i: nat)
    requires i < |s| && s[i] == ' '
    ensures Tokenize(s, i) == Tokenize(s, i + 1)
  {}

  lemma TokenizeWord(s: string, i: nat, j: nat, rest: seq<Token>)
    requires i < |s| && IsLetter(s[i]) && IdentEnd(s, i) == j
    requires s[i..j] !in OtherKeywords
    requires Tokenize(s, j) == Ok(rest)
    ensures Tokenize(s, i) == Ok([if s[i..j] in LanguageKeywords then Keyword(s[i..j]) else Ident(s[i..j])] + rest)
  {}

  lemma TokenizeOperator(s: string, i: nat, rest: seq<Token>)
    requires i + 1 < |s| && s[i..i + 2] in TwoCharOperators
    requires !IsLetter(s[i]) && !IsDigit(s[i]) && s[i] != ' ' && s[i] != '\t' && s[i] != '\'' && s[i] != '"'
    requires Tokenize(s, i + 2) == Ok(rest)
    ensures Tokenize(s, i) == Ok([Punct(s[i..i + 2])] + rest)
  {}

  /** `<name> != None` is read as three tokens. */
  lemma TokenizeNotNone(x: string)
    requires IsIdentifier(x)
    ensures Tokenize(x + " != None", 0) == Ok([Ident(x), Punct("!="), Keyword("None")])
  {
    var tail := " != None";
    var t := x + tail;
    var n := |x|;
    assert |t| == n + 8;
    assert forall k | 0 <= k < 8 :: t[n + k] == tail[k];
    IdentEndAt(t, n + 4, n + 8);
    assert t[n + 4..n + 8] == "None";
    assert "None" !in OtherKeywords && "None" in LanguageKeywords;
    TokenizeWord(t, n + 4, n + 8, []);
    assert [Keyword("None")] + [] == [Keyword("None")];
    TokenizeSpace(t, n + 3);
    assert t[n + 1..n + 3] == "!=";
    TokenizeOperator(t, n + 1, [Keyword("None")]);
    assert [Punct("!=")] + [Keyword("None")] == [Punct("!="), Keyword("None")];
    TokenizeSpace(t, n);
    IdentEndAt(t, 0, n);
    assert t[0..n] == x;
    TokenizeWord(t, 0, n, [Punct("!="), Keyword("None")]);
    assert [Ident(x)] + [Punct("!="), Keyword("None")] == [Ident(x), Punct("!="), Keyword("None")];
  }

  /** `<name> != None` compiles to the comparison of that name with `None`. */
  lemma CompileNotNone(x: string)
    requires IsIdentifier(x)
    ensures Compile(x + " != None") == Ok(Compare(NotEq, Name(x), Const(Null)))
  {
    TokenizeNotNone(x);
    ParseNameNotNone(x);
  }

  /** A bare name compiles to itself, but not once a blank precedes it. */
  lemma CompileName(x: string)
    requires IsIdentifier(x)
    ensures Compile(x) == Ok(Name(x))
    ensures Compile(" " + x).Err? && Compile("\t" + x).Err?
  {
    IdentEndAt(x, 0, |x|);
    assert x[0..|x|] == x;
    TokenizeWord(x, 0, |x|, []);
    assert [Ident(x)] + [] == [Ident(x)];
    var ts := [Ident(x)];
    assert ParseAtom(ts) == Ok((Name(x), []));
    assert ParseComparison(ts) == Ok((Name(x), []));
    assert ParseNegation(ts) == Ok((Name(x), []));
    assert ParseConjunction(ts) == Ok((Name(x), []));
    assert ParseDisjunction(ts) == Ok((Name(x), []));
    assert (" " + x)[0] == ' ' && ("\t" + x)[0] == '\t';
  }

  lemma ParseNameNotNone(x: string)
    ensures Parse([Ident(x), Punct("!="), Keyword("None")]) == Ok(Compare(NotEq, Name(x), Const(Null)))
  {
    var ts := [Ident(x), Punct("!="), Keyword("None")];
    var cmp := Compare(NotEq, Name(x), Const(Null));
    assert ts[1..][1..] == [Keyword("None")];
    assert ParseAtom([Keyword("None")]) == Ok((Const(Null), []));
    assert ComparisonTail(Name(x), None, ts[1..]) == Ok((cmp, []));
    assert ParseComparison(ts) == Ok((cmp, []));
    assert ParseNegation(ts) == Ok((cmp, []));
    assert AndTail(cmp, []) == Ok((cmp, []));
    assert ParseConjunction(ts) == Ok((cmp, []));
    assert OrTail(cmp, []) == Ok((cmp, []));
    assert ParseDisjunction(ts) == Ok((cmp, []));
  }
}
