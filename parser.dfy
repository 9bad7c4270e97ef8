/** The grammar engine. The grammar's eight productions are ambiguous; the
    precedence table (BICOND < IMPLIES < OR < AND, all left-associative, and
    prefix NOT binding tightest) makes them deterministic. Here that table is
    realised by precedence climbing: `ParseLevel(ks, l)` reads one operand whose
    top connective has level at least `l`. */
module Parser {
  import opened Tokens
  import opened Ast
  import Lexer

  datatype Result<T, E> = Ok(value: T) | Err(error: E)

  /** Where parsing stopped: at a token, identified by the number of tokens
      from it to the end of the input (so at least 1), or at the end. */
  datatype Failure = AtToken(remaining: nat) | AtEnd

  /** A failure names a token of `ks`, or the end. */
  predicate FailsIn(ks: seq<Kind>, e: Failure) {
    e.AtToken? ==> 1 <= e.remaining <= |ks|
  }

  type Parsed = Result<(Formula, seq<Kind>), Failure>

  /** One operand at level `lvl` (1..4: a chain of connectives of that level
      over operands of the next level; 5: a prefix-negated, parenthesised or
      atomic formula), and the tokens after it. */
  function ParseLevel(ks: seq<Kind>, lvl: nat): (r: Parsed)
    requires 1 <= lvl <= NotLevel
    ensures r.Ok? ==> |r.value.1| < |ks|
    ensures r.Err? ==> FailsIn(ks, r.error)
    decreases |ks|, 1 + NotLevel - lvl
  {
    if lvl == NotLevel then ParseUnary(ks)
    else
      var first := ParseLevel(ks, lvl + 1);
      if first.Err? then first
      else
        var (left, rest) := first.value;
        ParseTail(rest, lvl, left)
  }

  /** After an operand `acc` at level `lvl`: while a connective of exactly that
      level follows, read the next operand one level up and group to the left. */
  function ParseTail(ks: seq<Kind>, lvl: nat, acc: Formula): (r: Parsed)
    requires 1 <= lvl <= NotLevel
    ensures r.Ok? ==> |r.value.1| <= |ks|
    ensures r.Err? ==> FailsIn(ks, r.error)
    decreases |ks|, 0
  {
    if |ks| > 0 && IsBinary(ks[0]) && Level(ks[0]) == lvl then
      var next := ParseLevel(ks[1..], lvl + 1);
      if next.Err? then next
      else
        var (right, rest) := next.value;
        ParseTail(rest, lvl, Bin(ks[0], acc, right))
    else Ok((acc, ks))
  }

  /** A variable, a constant, a negation of a unary operand, or a
      parenthesised formula. */
  function ParseUnary(ks: seq<Kind>): (r: Parsed)
    ensures r.Ok? ==> |r.value.1| < |ks|
    ensures r.Err? ==> FailsIn(ks, r.error)
    decreases |ks|, 0
  {
    if |ks| == 0 then Err(AtEnd)
    else if ks[0].VAR? then Ok((Var(ks[0].letter), ks[1..]))
    else if ks[0].CONST? then Ok((Const(ks[0].bit), ks[1..]))
    else if ks[0] == NOT then
      var operand := ParseUnary(ks[1..]);
      if operand.Err? then operand
      else
        var (g, rest) := operand.value;
        Ok((Not(g), rest))
    else if ks[0] == LPAREN then
      var inner := ParseLevel(ks[1..], 1);
      if inner.Err? then inner
      else
        var (g, rest) := inner.value;
        if |rest| == 0 then Err(AtEnd)
        else if rest[0] == RPAREN then Ok((g, rest[1..]))
        else Err(AtToken(|rest|))
    else Err(AtToken(|ks|))
  }

  /** A whole token sequence is one formula, with nothing after it. */
  function Parse(ks: seq<Kind>): (r: Result<Formula, Failure>)
    ensures r.Err? ==> FailsIn(ks, r.error)
  {
    match ParseLevel(ks, 1)
    case Err(e) => Err(e)
    case Ok((f, rest)) => if rest == [] then Ok(f) else Err(AtToken(|rest|))
  }

  /** The single syntax diagnostic: the offending token, or the end of input. */
  datatype SyntaxError = UnexpectedToken(token: Token) | UnexpectedEnd

  /** Parsing a token stream; a failure is reported with the token it occurred at. */
  function ParseTokens(ts: seq<Token>): (r: Result<Formula, SyntaxError>)
    ensures r.Ok? <==> Parse(Kinds(ts)).Ok?
    ensures r.Ok? ==> r.value == Parse(Kinds(ts)).value
    ensures r.Err? && r.error.UnexpectedToken? ==> r.error.token in ts
    ensures Parse(Kinds(ts)).Err? && Parse(Kinds(ts)).error.AtToken? ==>
              r == Err(UnexpectedToken(ts[|ts| - Parse(Kinds(ts)).error.remaining]))
    ensures r == Err(UnexpectedEnd) <==> Parse(Kinds(ts)) == Err(AtEnd)
  {
    match Parse(Kinds(ts))
    case Ok(f) => Ok(f)
    case Err(AtEnd) => Err(UnexpectedEnd)
    case Err(AtToken(n)) => Err(UnexpectedToken(ts[|ts| - n]))
  }

  /** Parsing an input string: it is tokenized first, and characters the
      tokenizer rejects are skipped, so a syntax error always blames a token
      read from the input, never a rejected character. */
  function ParseString(s: string): (r: Result<Formula, SyntaxError>)
    ensures r.Err? && r.error.UnexpectedToken? ==>
              r.error.token in Lexer.Lex(s).tokens && Lexer.SpelledAt(s, r.error.token.pos, r.error.token.kind)
  {
    Lexer.LexSound(s);
    ParseTokens(Lexer.Lex(s).tokens)
  }
}
