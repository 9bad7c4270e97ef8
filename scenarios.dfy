/** The sample expressions the front end is exercised with, worked through
    the model. */
module Scenarios {
  import opened Tokens
  import opened Ast
  import opened Lexer
  import opened Parser
  import opened Printer
  import opened Export

  const P: Formula := Var('p')
  const Q: Formula := Var('q')

  lemma {:induction false} RenderCat(a: seq<Kind>, b: seq<Kind>)
    ensures Render(a + b) == Render(a) + Render(b)
    decreases |a|
  {
    if a != [] {
      assert (a + b)[1..] == a[1..] + b;
      RenderCat(a[1..], b);
    } else {
      assert a + b == b;
    }
  }

  /** The text of a fully parenthesised tree, node by node. */
  lemma FullText(f: Formula)
    ensures f.Var? ==> Render(Full(f)) == [f.letter]
    ensures f.Const? ==> Render(Full(f)) == [f.bit]
    ensures f.Not? ==> Render(Full(f)) == "~" + Render(Full(f.child))
    ensures f.Bin? ==> Render(Full(f)) == "(" + Render(Full(f.left)) + Spelling(f.op) + Render(Full(f.right)) + ")"
  {
    if f.Not? {
      RenderCat([NOT], Full(f.child));
    } else if f.Bin? {
      var a, b, c, d := [LPAREN] + Full(f.left), [f.op], Full(f.right), [RPAREN];
      RenderCat(a + b + c, d);
      RenderCat(a + b, c);
      RenderCat(a, b);
      RenderCat([LPAREN], Full(f.left));
      assert Render(d) == ")" && Render(b) == Spelling(f.op) && Render([LPAREN]) == "(";
    }
  }

  // The well-formed samples are fully parenthesised texts; each reads back
  // as the tree it writes.

  lemma SampleVar()
    ensures ParseString("p") == Ok(P)
  {
    FullText(P);
    FullTextRoundTrip(P);
  }

  lemma SampleNot()
    ensures ParseString("~q") == Ok(Not(Q))
  {
    FullText(Q);
    FullText(Not(Q));
    FullTextRoundTrip(Not(Q));
  }

  lemma SampleAnd()
    ensures ParseString("(p^q)") == Ok(Bin(AND, P, Q))
  {
    var f := Bin(AND, P, Q);
    FullText(P);
    FullText(Q);
    FullText(f);
    assert Render(Full(f)) == "(p^q)";
    FullTextRoundTrip(f);
  }

  lemma SampleImplies()
    ensures ParseString("(0=>(ros))") == Ok(Bin(IMPLIES, Const('0'), Bin(OR, Var('r'), Var('s'))))
  {
    ImpliesText();
    FullTextRoundTrip(Bin(IMPLIES, Const('0'), Bin(OR, Var('r'), Var('s'))));
  }

  lemma ImpliesText()
    ensures Render(Full(Bin(IMPLIES, Const('0'), Bin(OR, Var('r'), Var('s'))))) == "(0=>(ros))"
  {
    var g := Bin(OR, Var('r'), Var('s'));
    FullText(Var('r'));
    FullText(Var('s'));
    FullText(Const('0'));
    FullText(g);
    FullText(Bin(IMPLIES, Const('0'), g));
    assert Render(Full(g)) == "(ros)";
    assert Spelling(IMPLIES) == "=>" && Render(Full(Const('0'))) == "0";
    assert "(" + "0" + "=>" + "(ros)" + ")" == "(0=>(ros))";
  }

  lemma SampleBicond()
    ensures ParseString("(p<=>~p)") == Ok(Bin(BICOND, P, Not(P)))
  {
    var f := Bin(BICOND, P, Not(P));
    FullText(P);
    FullText(Not(P));
    FullText(f);
    assert Render(Full(f)) == "(p<=>~p)";
    FullTextRoundTrip(f);
  }

  lemma SampleNested()
    ensures ParseString("((p=>q)^p)") == Ok(Bin(AND, Bin(IMPLIES, P, Q), P))
  {
    NestedText();
    FullTextRoundTrip(Bin(AND, Bin(IMPLIES, P, Q), P));
  }

  lemma NestedText()
    ensures Render(Full(Bin(AND, Bin(IMPLIES, P, Q), P))) == "((p=>q)^p)"
  {
    var g := Bin(IMPLIES, P, Q);
    FullText(P);
    FullText(Q);
    FullText(g);
    FullText(Bin(AND, g, P));
    assert Render(Full(g)) == "(p=>q)";
  }

  /** A text of one-character lexemes is the spelling of its kinds. */
  lemma {:induction false} RenderSingles(ks: seq<Kind>, s: string)
    requires |ks| == |s| && forall j :: 0 <= j < |ks| ==> Spelling(ks[j]) == [s[j]]
    ensures Render(ks) == s
    decreases |ks|
  {
    if ks != [] {
      RenderSingles(ks[1..], s[1..]);
    }
  }

  /** A connective with no left operand: the diagnostic names the connective,
      the first token, at offset 0. */
  lemma SampleLeadingConnective()
    ensures Lex("^(p^q)").errors == []
    ensures ParseString("^(p^q)") == Err(UnexpectedToken(Token(AND, 0)))
  {
    var ts := Lex("^(p^q)").tokens;
    LeadingConnectiveLex("^(p^q)");
    LeadingConnectiveParse();
    assert ts[|ts| - 6] == Token(AND, 0);
  }

  lemma LeadingConnectiveLex(s: string)
    requires s == "^(p^q)"
    ensures Kinds(Lex(s).tokens) == [AND, LPAREN, VAR('p'), AND, VAR('q'), RPAREN]
    ensures Lex(s).tokens[0] == Token(AND, 0) && Lex(s).errors == []
  {
    var ks := [AND, LPAREN, VAR('p'), AND, VAR('q'), RPAREN];
    RenderSingles(ks, s);
    assert s[0..] == s;
    LexRenderFrom(s, 0, ks);
    LexEmitsOne(s, 0, AND);
  }

  lemma LeadingConnectiveParse()
    ensures Parse([AND, LPAREN, VAR('p'), AND, VAR('q'), RPAREN]) == Err(AtToken(6))
  {
    var ks := [AND, LPAREN, VAR('p'), AND, VAR('q'), RPAREN];
    assert ParseUnary(ks) == Err(AtToken(6));
    assert ParseLevel(ks, 3) == Err(AtToken(6));
  }

  /** An illegal character inside a formula is reported with its offset and
      skipped; the rest is parsed as if it were not there. */
  lemma SampleIllegalCharacter()
    ensures Lex("(*(p^(qor))os)").errors == [LexError('*', 1)]
    ensures ParseString("(*(p^(qor))os)") == Ok(Bin(OR, Bin(AND, P, Bin(OR, Q, Var('r'))), Var('s')))
  {
    var s := "(*(p^(qor))os)";
    IllegalStar(s, 1);
    IllegalCharacterLex(s, 0, LPAREN);
    IllegalCharacterRest(s);
    var rest := LexFrom(s, 2);
    assert s[1] == '*' && rest.errors == [];
    assert Lex(s).errors == [LexError('*', 1)] + rest.errors;
    KindsCons(Token(LPAREN, 0), rest.tokens);
    assert Kinds(Lex(s).tokens) == [LPAREN] + IllegalRest;
    IllegalCharacterTree();
  }

  /** The tokens of the illegal-character sample after the `*`. */
  const IllegalRest: seq<Kind> := [LPAREN, VAR('p'), AND, LPAREN, VAR('q'), OR, VAR('r'), RPAREN, RPAREN, OR, VAR('s'), RPAREN]

  /** A one-character lexeme followed by an illegal character. */
  lemma IllegalCharacterLex(s: string, i: nat, k: Kind)
    requires i + 1 < |s| && Spelling(k) == [s[i]] && MatchAt(s, i + 1).Illegal?
    ensures LexFrom(s, i).tokens == [Token(k, i)] + LexFrom(s, i + 2).tokens
    ensures LexFrom(s, i).errors == [LexError(s[i + 1], i + 1)] + LexFrom(s, i + 2).errors
  {
    LexSkipsIllegal(s, i + 1);
    LexEmitsOne(s, i, k);
  }

  lemma IllegalCharacterRest(s: string)
    requires s == "(*(p^(qor))os)"
    ensures Kinds(LexFrom(s, 2).tokens) == IllegalRest && LexFrom(s, 2).errors == []
  {
    RenderSingles(IllegalRest, s[2..]);
    LexRenderFrom(s, 2, IllegalRest);
  }

  /** `*` starts no token. */
  lemma IllegalStar(s: string, i: nat)
    requires i < |s| && s[i] == '*'
    ensures MatchAt(s, i).Illegal?
  {
  }

  lemma IllegalCharacterTree()
    ensures Parse([LPAREN] + IllegalRest) == Ok(Bin(OR, Bin(AND, P, Bin(OR, Q, Var('r'))), Var('s')))
  {
    var g := Bin(OR, Q, Var('r'));
    var h := Bin(AND, P, g);
    var f := Bin(OR, h, Var('s'));
    assert Full(g) == [LPAREN, VAR('q'), OR, VAR('r'), RPAREN];
    assert Full(h) == [LPAREN, VAR('p'), AND] + Full(g) + [RPAREN];
    assert Full(f) == [LPAREN] + Full(h) + [OR, VAR('s'), RPAREN];
    assert Full(f) == [LPAREN] + IllegalRest;
    FullRoundTrip(f);
  }

  /** Blanks and tabs are skipped, and without parentheses the precedence
      table decides: AND binds tighter than OR. */
  lemma SampleBlanks()
    ensures Lex("p o\tq ^ r").errors == []
    ensures ParseString("p o\tq ^ r") == Ok(Bin(OR, P, Bin(AND, Q, Var('r'))))
  {
    var s, ks := "p o\tq ^ r", [VAR('p'), OR, VAR('q'), AND, VAR('r')];
    forall j | 0 <= j < |ks|
      ensures Spelling(ks[j]) == [s[2 * j]]
    {
    }
    LexSpaced(s, 0, ks);
    BlanksTree();
  }

  /** Tokenizing from a one-character lexeme. */
  lemma LexEmitsOne(s: string, i: nat, k: Kind)
    requires i < |s| && Spelling(k) == [s[i]]
    ensures LexFrom(s, i).tokens == [Token(k, i)] + LexFrom(s, i + 1).tokens
    ensures LexFrom(s, i).errors == LexFrom(s, i + 1).errors
  {
    assert s[i..i + 1] == [s[i]];
    LexEmits(s, i, k);
  }

  /** One-character lexemes separated by single blanks, from offset `i`. */
  predicate Spaced(s: string, i: nat, ks: seq<Kind>) {
    && |ks| > 0 && i + 2 * |ks| - 1 == |s|
    && (forall j :: 0 <= j < |ks| ==> Spelling(ks[j]) == [s[i + 2 * j]])
    && (forall j :: 0 <= j < |ks| - 1 ==> IsBlank(s[i + 2 * j + 1]))
  }

  lemma SpacedTail(s: string, i: nat, ks: seq<Kind>)
    requires Spaced(s, i, ks) && |ks| > 1
    ensures Spelling(ks[0]) == [s[i]] && IsBlank(s[i + 1]) && Spaced(s, i + 2, ks[1..])
  {
    assert Spelling(ks[0]) == [s[i + 2 * 0]];
    assert IsBlank(s[i + 2 * 0 + 1]);
    forall j | 0 <= j < |ks| - 1
      ensures Spelling(ks[1..][j]) == [s[i + 2 + 2 * j]]
    {
      assert ks[1..][j] == ks[j + 1];
      assert i + 2 * (j + 1) == i + 2 + 2 * j;
    }
    forall j | 0 <= j < |ks| - 2
      ensures IsBlank(s[i + 2 + 2 * j + 1])
    {
      assert i + 2 * (j + 1) + 1 == i + 2 + 2 * j + 1;
    }
  }

  /** A one-character lexeme followed by a blank. */
  lemma SpacedStep(s: string, i: nat, k: Kind)
    requires i + 1 < |s| && Spelling(k) == [s[i]] && IsBlank(s[i + 1])
    ensures LexFrom(s, i).tokens == [Token(k, i)] + LexFrom(s, i + 2).tokens
    ensures LexFrom(s, i).errors == LexFrom(s, i + 2).errors
  {
    LexSkipsBlank(s, i + 1);
    LexEmitsOne(s, i, k);
  }

  /** The blanks between one-character lexemes are skipped and no error is
      reported. */
  lemma {:induction false} LexSpaced(s: string, i: nat, ks: seq<Kind>)
    requires Spaced(s, i, ks)
    ensures Kinds(LexFrom(s, i).tokens) == ks && LexFrom(s, i).errors == []
    decreases |ks|
  {
    if |ks| == 1 {
      assert Spelling(ks[0]) == [s[i + 2 * 0]];
      LexEmitsOne(s, i, ks[0]);
      assert LexFrom(s, i + 1).tokens == [];
      KindsCons(Token(ks[0], i), []);
    } else {
      SpacedTail(s, i, ks);
      SpacedStep(s, i, ks[0]);
      LexSpaced(s, i + 2, ks[1..]);
      KindsCons(Token(ks[0], i), LexFrom(s, i + 2).tokens);
      assert ks == [ks[0]] + ks[1..];
    }
  }

  lemma BlanksTree()
    ensures Parse([VAR('p'), OR, VAR('q'), AND, VAR('r')]) == Ok(Bin(OR, P, Bin(AND, Q, Var('r'))))
  {
    var f := Bin(OR, P, Bin(AND, Q, Var('r')));
    assert Show(f, 1) == [VAR('p'), OR, VAR('q'), AND, VAR('r')];
    ShowRoundTrip(f);
  }

  /** The export of `(p^q)`: three nodes in pre-order and two edges from the
      connective to its operands. */
  method SampleExport() returns (nodes: seq<GraphNode>, edges: seq<Edge>)
    ensures nodes == [GraphNode(0, "^"), GraphNode(1, "p"), GraphNode(2, "q")]
    ensures edges == [Edge(0, 1), Edge(0, 2)]
  {
    nodes, edges := GenerateSyntaxTree(Bin(AND, P, Q));
  }
}
