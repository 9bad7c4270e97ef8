/** Two ways of writing a tree back as tokens, used as reference definitions
    for the grammar engine: `Show` puts parentheses only where the precedence
    table needs them, `Full` parenthesises every connective. Reading either
    back yields the tree again; for `Show` this is exactly the statement that
    the engine honours the declared precedence and left associativity. */
module Printer {
  import opened Tokens
  import opened Ast
  import opened Parser
  import opened ParserLemmas
  import Lexer

  /** The binding level of a tree's top node. */
  function Prec(f: Formula): nat {
    if f.Bin? then Level(f.op) else NotLevel
  }

  /** The tokens of `f` where an operand of level `ctx` is expected: a tree
      whose top connective binds more loosely is parenthesised; the left
      operand of a connective may be a chain of the same level, the right one
      may not (left associativity). */
  function Show(f: Formula, ctx: nat): seq<Kind>
    requires 1 <= ctx <= NotLevel
    decreases f, if Prec(f) < ctx then 1 else 0
  {
    if Prec(f) < ctx then [LPAREN] + Show(f, 1) + [RPAREN]
    else
      match f
      case Var(c) => [VAR(c)]
      case Const(b) => [CONST(b)]
      case Not(g) => [NOT] + Show(g, NotLevel)
      case Bin(op, l, r) => Show(l, Level(op)) + [op] + Show(r, Level(op) + 1)
  }

  /** The fully parenthesised tokens of `f`. */
  function Full(f: Formula): seq<Kind> {
    match f
    case Var(c) => [VAR(c)]
    case Const(b) => [CONST(b)]
    case Not(g) => [NOT] + Full(g)
    case Bin(op, l, r) => [LPAREN] + Full(l) + [op] + Full(r) + [RPAREN]
  }

  /** Reading the shortest text of `f` at level `lvl` reads exactly `f` and
      leaves the engine in the connective loop of that level. */
  lemma {:induction false} ShowParse(f: Formula, lvl: nat, rest: seq<Kind>)
    requires 1 <= lvl <= NotLevel && Ends(rest, lvl + 1)
    ensures ParseLevel(Show(f, lvl) + rest, lvl) == ParseTail(rest, lvl, f)
    decreases f, if Prec(f) < lvl then 1 else 0, NotLevel - lvl, 1
  {
    if f.Bin? && Level(f.op) == lvl {
      ShowChain(f, rest);
    } else if lvl < NotLevel {
      assert Show(f, lvl) == Show(f, lvl + 1);
      ShowParse(f, lvl + 1, rest);
      assert ParseTail(rest, lvl + 1, f) == Ok((f, rest));
    } else {
      ShowUnary(f, rest);
    }
  }

  /** The connective loop of `ShowParse`: after the left operand, the
      connective of the same level and the right operand one level up are
      read, and the loop continues with the grouped tree. */
  lemma {:induction false} ShowChain(f: Formula, rest: seq<Kind>)
    requires f.Bin? && Ends(rest, Level(f.op) + 1)
    ensures ParseLevel(Show(f, Level(f.op)) + rest, Level(f.op)) == ParseTail(rest, Level(f.op), f)
    decreases f, 0, 0, 1
  {
    var lvl := Level(f.op);
    var right := Show(f.right, lvl + 1) + rest;
    var tail := [f.op] + right;
    ChainLeft(f, rest);
    ChainRight(f, rest);
    assert tail[0] == f.op && tail[1..] == right;
    TailCompose(Show(f, lvl) + rest, tail, lvl, f.left, f.right, rest);
  }

  /** The left operand of a chain is read up to its connective. */
  lemma {:induction false} ChainLeft(f: Formula, rest: seq<Kind>)
    requires f.Bin?
    ensures ParseLevel(Show(f, Level(f.op)) + rest, Level(f.op)) ==
            ParseTail([f.op] + (Show(f.right, Level(f.op) + 1) + rest), Level(f.op), f.left)
    decreases f, 0, 0, 0
  {
    var lvl := Level(f.op);
    var tail := [f.op] + (Show(f.right, lvl + 1) + rest);
    assert Show(f, lvl) + rest == Show(f.left, lvl) + tail;
    ShowParse(f.left, lvl, tail);
  }

  /** The right operand of a chain is read one level up and stops there. */
  lemma {:induction false} ChainRight(f: Formula, rest: seq<Kind>)
    requires f.Bin? && Ends(rest, Level(f.op) + 1)
    ensures ParseLevel(Show(f.right, Level(f.op) + 1) + rest, Level(f.op) + 1) == Ok((f.right, rest))
    decreases f, 0, 0, 0
  {
    var lvl := Level(f.op);
    ShowParse(f.right, lvl + 1, rest);
    TailStop(rest, lvl + 1, f.right);
  }

  /** The unary level of `ShowParse`: a negation, an atom or a parenthesised
      formula is read by one call of the unary rule. */
  lemma {:induction false} ShowUnary(f: Formula, rest: seq<Kind>)
    ensures ParseUnary(Show(f, NotLevel) + rest) == Ok((f, rest))
    decreases f, 0, if f.Bin? then NotLevel else 0, 0
  {
    var ks := Show(f, NotLevel) + rest;
    if f.Bin? {
      var inner := Show(f, 1) + ([RPAREN] + rest);
      assert ks == [LPAREN] + inner && ks[1..] == inner;
      ShowParse(f, 1, [RPAREN] + rest);
      assert ParseTail([RPAREN] + rest, 1, f) == Ok((f, [RPAREN] + rest));
    } else if f.Not? {
      assert ks[1..] == Show(f.child, NotLevel) + rest;
      ShowUnary(f.child, rest);
    } else {
      assert ks[1..] == rest;
    }
  }

  /** Precedence and associativity, for every tree: its shortest text reads
      back as exactly that tree. */
  lemma ShowRoundTrip(f: Formula)
    ensures Parse(Show(f, 1)) == Ok(f)
  {
    ShowParse(f, 1, []);
    assert Show(f, 1) + [] == Show(f, 1);
    assert ParseTail([], 1, f) == Ok((f, []));
  }

  lemma {:induction false} FullParse(f: Formula, rest: seq<Kind>)
    ensures ParseUnary(Full(f) + rest) == Ok((f, rest))
    decreases f, 1
  {
    var ks := Full(f) + rest;
    match f
    case Var(_) =>
      assert ks[1..] == rest;
    case Const(_) =>
      assert ks[1..] == rest;
    case Not(g) =>
      assert ks[1..] == Full(g) + rest;
      FullParse(g, rest);
    case Bin(op, l, r) =>
      var close := [RPAREN] + rest;
      var inner := Full(l) + [op] + Full(r) + close;
      assert ks == [LPAREN] + inner && ks[1..] == inner;
      FullConnective(f, close);
  }

  /** Inside the parentheses of a fully parenthesised connective: both
      operands and the connective between them are read as one formula. */
  lemma {:induction false} FullConnective(f: Formula, close: seq<Kind>)
    requires f.Bin? && close != [] && close[0] == RPAREN
    ensures ParseLevel(Full(f.left) + [f.op] + Full(f.right) + close, 1) == Ok((f, close))
    decreases f, 0
  {
    var lvl := Level(f.op);
    var afterLeft := [f.op] + Full(f.right) + close;
    var inner := Full(f.left) + afterLeft;
    assert inner == Full(f.left) + [f.op] + Full(f.right) + close;
    assert ParseLevel(inner, lvl + 1) == Ok((f.left, afterLeft)) by {
      FullParse(f.left, afterLeft);
      LevelLift(inner, NotLevel, lvl + 1);
    }
    assert ParseLevel(afterLeft[1..], lvl + 1) == Ok((f.right, close)) by {
      assert afterLeft[1..] == Full(f.right) + close;
      FullParse(f.right, close);
      LevelLift(Full(f.right) + close, NotLevel, lvl + 1);
    }
    assert afterLeft[0] == f.op;
    assert ParseLevel(inner, lvl) == Ok((f, close)) by {
      LevelStep(inner, lvl, f.left, afterLeft);
      TailCompose(inner, afterLeft, lvl, f.left, f.right, close);
      TailStop(close, lvl, f);
    }
    LevelLift(inner, lvl, 1);
  }

  /** Every tree's fully parenthesised text reads back as that tree. */
  lemma FullRoundTrip(f: Formula)
    ensures Parse(Full(f)) == Ok(f)
  {
    FullParse(f, []);
    assert Full(f) + [] == Full(f);
    LevelLift(Full(f), NotLevel, 1);
  }

  /** Re-parsing the fully parenthesised re-serialisation of an accepted
      formula yields the same tree. */
  lemma ReparseFull(ks: seq<Kind>)
    requires Parse(ks).Ok?
    ensures Parse(Full(Parse(ks).value)) == Parse(ks)
  {
    FullRoundTrip(Parse(ks).value);
  }

  /** Round trip through the whole front end: the minimal text of a tree,
      tokenized and parsed, is that tree. */
  lemma TextRoundTrip(f: Formula)
    ensures ParseString(Lexer.Render(Show(f, 1))) == Ok(f)
  {
    Lexer.LexRender(Show(f, 1));
    ShowRoundTrip(f);
  }

  /** The same for the fully parenthesized text. */
  lemma FullTextRoundTrip(f: Formula)
    ensures ParseString(Lexer.Render(Full(f))) == Ok(f)
  {
    Lexer.LexRender(Full(f));
    FullRoundTrip(f);
  }

  /** A tree that is not a binary connective is written the same way in
      every context. */
  lemma ShowOperand(f: Formula, ctx: nat)
    requires 1 <= ctx <= NotLevel && !f.Bin?
    ensures Show(f, ctx) == Show(f, NotLevel)
  {
  }

  /** The precedence table on two connectives: between operands `a o1 b o2 c`,
      the tighter-binding connective groups first, and for equal binding the
      left one does (left associativity). */
  lemma PrecedenceOrder(a: Formula, b: Formula, c: Formula, o1: BinKind, o2: BinKind)
    requires !a.Bin? && !b.Bin? && !c.Bin?
    ensures Parse(Show(a, NotLevel) + [o1] + Show(b, NotLevel) + [o2] + Show(c, NotLevel)) ==
            Ok(if Level(o1) < Level(o2) then Bin(o1, a, Bin(o2, b, c)) else Bin(o2, Bin(o1, a, b), c))
  {
    if Level(o1) < Level(o2) {
      GroupsRight(a, b, c, o1, o2);
    } else {
      GroupsLeft(a, b, c, o1, o2);
    }
  }

  lemma GroupsRight(a: Formula, b: Formula, c: Formula, o1: BinKind, o2: BinKind)
    requires !a.Bin? && !b.Bin? && !c.Bin? && Level(o1) < Level(o2)
    ensures Parse(Show(a, NotLevel) + [o1] + Show(b, NotLevel) + [o2] + Show(c, NotLevel)) == Ok(Bin(o1, a, Bin(o2, b, c)))
  {
    var sa, sb, sc := Show(a, NotLevel), Show(b, NotLevel), Show(c, NotLevel);
    var g := Bin(o2, b, c);
    ShowOperand(a, Level(o1));
    ShowOperand(b, Level(o2));
    ShowOperand(c, Level(o2) + 1);
    assert Show(g, Level(o1) + 1) == sb + [o2] + sc;
    assert Show(Bin(o1, a, g), 1) == sa + [o1] + (sb + [o2] + sc);
    assert sa + [o1] + (sb + [o2] + sc) == sa + [o1] + sb + [o2] + sc;
    ShowRoundTrip(Bin(o1, a, g));
  }

  lemma GroupsLeft(a: Formula, b: Formula, c: Formula, o1: BinKind, o2: BinKind)
    requires !a.Bin? && !b.Bin? && !c.Bin? && Level(o1) >= Level(o2)
    ensures Parse(Show(a, NotLevel) + [o1] + Show(b, NotLevel) + [o2] + Show(c, NotLevel)) == Ok(Bin(o2, Bin(o1, a, b), c))
  {
    var sa, sb, sc := Show(a, NotLevel), Show(b, NotLevel), Show(c, NotLevel);
    var g := Bin(o1, a, b);
    ShowOperand(a, Level(o1));
    ShowOperand(b, Level(o1) + 1);
    ShowOperand(c, Level(o2) + 1);
    assert Show(g, Level(o2)) == sa + [o1] + sb;
    assert Show(Bin(o2, g, c), 1) == sa + [o1] + sb + [o2] + sc;
    ShowRoundTrip(Bin(o2, g, c));
  }

  /** Prefix negation binds tighter than every connective: `~a o b` is the
      connective applied to the negation of `a`. */
  lemma NotBindsTightest(a: Formula, b: Formula, o: BinKind)
    requires !a.Bin? && !b.Bin?
    ensures Parse([NOT] + Show(a, NotLevel) + [o] + Show(b, NotLevel)) == Ok(Bin(o, Not(a), b))
  {
    ShowOperand(b, Level(o) + 1);
    ShowRoundTrip(Bin(o, Not(a), b));
  }
}
