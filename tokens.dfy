/** Token kinds of the propositional-logic front end, their spellings in the
    input text, and the operator precedence table. */
module Tokens {

  /** A propositional variable is a single letter in the range p..z. */
  type Letter = c: char | 'p' <= c <= 'z' witness 'p'

  /** A constant is the digit 0 or the digit 1. */
  type Bit = c: char | c == '0' || c == '1' witness '0'

  /** The nine token kinds; VAR and CONST carry the character they were read from. */
  datatype Kind =
    | VAR(letter: Letter)
    | CONST(bit: Bit)
    | NOT
    | AND
    | OR
    | IMPLIES
    | BICOND
    | LPAREN
    | RPAREN

  /** A token is its kind and the 0-based offset in the input where its lexeme starts. */
  datatype Token = Token(kind: Kind, pos: nat)

  /** A lexical error is the illegal character and its offset. */
  datatype LexError = LexError(ch: char, pos: nat)

  /** The text a token of kind `k` is read from (the token's lexeme). */
  function Spelling(k: Kind): (s: string)
    ensures 1 <= |s| <= 3
    ensures forall i :: 0 <= i < |s| ==> s[i] != ' ' && s[i] != '\t'
    ensures k.VAR? <==> |s| == 1 && 'p' <= s[0] <= 'z'
    ensures k.CONST? <==> |s| == 1 && (s[0] == '0' || s[0] == '1')
  {
    match k
    case VAR(c) => [c]
    case CONST(b) => [b]
    case NOT => "~"
    case AND => "^"
    case OR => "o"
    case IMPLIES => "=>"
    case BICOND => "<=>"
    case LPAREN => "("
    case RPAREN => ")"
  }

  /** The four binary connectives. */
  predicate IsBinary(k: Kind) {
    k == AND || k == OR || k == IMPLIES || k == BICOND
  }

  type BinKind = k: Kind | IsBinary(k) witness AND

  /** Binding strength of a binary connective, from the precedence table:
      BICOND binds loosest, AND tightest; NOT (level 5) binds tighter still.
      The contract is the table itself, one row per level, and says that no
      two connectives share a row. What the rows mean for grouping is proved
      about the parser: `Printer.PrecedenceOrder`, `Printer.NotBindsTightest`
      and, for every input, `Precedence.ParsePrecedence`. */
  function Level(k: BinKind): (l: nat)
    ensures 1 <= l <= 4
    ensures k == BICOND <==> l == 1
    ensures k == IMPLIES <==> l == 2
    ensures k == OR <==> l == 3
    ensures k == AND <==> l == 4
  {
    match k
    case BICOND => 1
    case IMPLIES => 2
    case OR => 3
    case AND => 4
  }

  /** The binding level of prefix negation, above every binary connective. */
  const NotLevel: nat := 5

  /** The kinds of a token sequence, in order. */
  function Kinds(ts: seq<Token>): (ks: seq<Kind>)
    ensures |ks| == |ts|
    ensures forall i :: 0 <= i < |ts| ==> ks[i] == ts[i].kind
  {
    if ts == [] then [] else [ts[0].kind] + Kinds(ts[1..])
  }

  lemma KindsCons(t: Token, ts: seq<Token>)
    ensures Kinds([t] + ts) == [t.kind] + Kinds(ts)
  {
    assert ([t] + ts)[1..] == ts;
  }
}
