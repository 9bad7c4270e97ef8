/** The tokenizer: the token rules, the error rule that skips one illegal
    character, and the loop that pulls tokens until the input is exhausted. */
module Lexer {
  import opened Tokens

  /** The text of kind `k` occurs in `s` starting at offset `i`. */
  predicate SpelledAt(s: string, i: nat, k: Kind) {
    var w := Spelling(k);
    && i + |w| <= |s|
    && s[i] == w[0]
    && (|w| > 1 ==> s[i + 1] == w[1])
    && (|w| > 2 ==> s[i + 2] == w[2])
  }

  /** `SpelledAt` is the lexeme occurring as a slice of the input. */
  lemma SpelledAtSlice(s: string, i: nat, k: Kind)
    ensures SpelledAt(s, i, k) <==> i + |Spelling(k)| <= |s| && s[i..i + |Spelling(k)|] == Spelling(k)
  {
    var w := Spelling(k);
    if i + |w| <= |s| && s[i..i + |w|] == w {
      assert s[i] == s[i..i + |w|][0];
      if |w| > 1 { assert s[i + 1] == s[i..i + |w|][1]; }
      if |w| > 2 { assert s[i + 2] == s[i..i + |w|][2]; }
    }
    if SpelledAt(s, i, k) {
      assert s[i..i + |w|] == w;
    }
  }

  predicate IsBlank(c: char) {
    c == ' ' || c == '\t'
  }

  /** What the scanner finds at one offset: a token of some width, an ignored
      blank, or an illegal character. */
  datatype Scan = Tok(kind: Kind, width: nat) | Blank | Illegal

  /** One scanning step at offset `i`: blanks are ignored, the token rules are
      tried, and a character no rule matches is illegal. */
  function MatchAt(s: string, i: nat): (r: Scan)
    requires i < |s|
    ensures r.Blank? <==> IsBlank(s[i])
    ensures r.Tok? ==> r.width == |Spelling(r.kind)| && SpelledAt(s, i, r.kind)
    ensures r.Illegal? ==> !IsBlank(s[i]) && forall k :: !SpelledAt(s, i, k)
  {
    var c := s[i];
    if IsBlank(c) then Blank
    else if 'p' <= c <= 'z' then Tok(VAR(c), 1)
    else if c == '0' || c == '1' then Tok(CONST(c), 1)
    else if c == '~' then Tok(NOT, 1)
    else if c == '^' then Tok(AND, 1)
    else if c == 'o' then Tok(OR, 1)
    else if c == '(' then Tok(LPAREN, 1)
    else if c == ')' then Tok(RPAREN, 1)
    else if c == '=' && i + 1 < |s| && s[i + 1] == '>' then Tok(IMPLIES, 2)
    else if c == '<' && i + 2 < |s| && s[i + 1] == '=' && s[i + 2] == '>' then Tok(BICOND, 3)
    else
      assert forall k :: SpelledAt(s, i, k) ==> s[i] == Spelling(k)[0];
      Illegal
  }

  /** The token rules never overlap: whatever kind is spelled at `i`, the
      scanner reads exactly that kind there. */
  lemma MatchUnique(s: string, i: nat, k: Kind)
    requires i < |s| && SpelledAt(s, i, k)
    ensures MatchAt(s, i) == Tok(k, |Spelling(k)|)
  {
    assert s[i] == Spelling(k)[0];
    if k.IMPLIES? {
      assert s[i + 1] == Spelling(k)[1];
    } else if k.BICOND? {
      assert s[i + 1] == Spelling(k)[1] && s[i + 2] == Spelling(k)[2];
    }
  }

  datatype LexResult = LexResult(tokens: seq<Token>, errors: seq<LexError>)

  /** Tokens are in input order and their lexemes do not overlap. */
  ghost predicate Ordered(ts: seq<Token>) {
    forall j :: 0 <= j < |ts| - 1 ==> ts[j].pos + |Spelling(ts[j].kind)| <= ts[j + 1].pos
  }

  /** Error offsets strictly increase. */
  ghost predicate ErrorsOrdered(es: seq<LexError>) {
    forall j :: 0 <= j < |es| - 1 ==> es[j].pos < es[j + 1].pos
  }

  /** The offset after one scanning step: past the token, or past the one
      blank or illegal character. */
  function Advance(s: string, i: nat): (j: nat)
    requires i < |s|
    ensures i < j <= |s|
  {
    var m := MatchAt(s, i);
    if m.Tok? then i + m.width else i + 1
  }

  /** Tokenizing the input from offset `i` to its end. */
  function LexFrom(s: string, i: nat): (r: LexResult)
    requires i <= |s|
    ensures forall e :: e in r.errors ==> i <= e.pos < |s|
    decreases |s| - i
  {
    if i == |s| then LexResult([], [])
    else
      var m := MatchAt(s, i);
      var rest := LexFrom(s, Advance(s, i));
      LexResult((if m.Tok? then [Token(m.kind, i)] else []) + rest.tokens,
                (if m.Illegal? then [LexError(s[i], i)] else []) + rest.errors)
  }

  lemma {:induction false} LexFromTokensSound(s: string, i: nat)
    requires i <= |s|
    ensures forall t :: t in LexFrom(s, i).tokens ==> i <= t.pos && SpelledAt(s, t.pos, t.kind)
    ensures Ordered(LexFrom(s, i).tokens)
    decreases |s| - i
  {
    if i < |s| {
      var m := MatchAt(s, i);
      var rest := LexFrom(s, Advance(s, i)).tokens;
      LexFromTokensSound(s, Advance(s, i));
      if m.Tok? {
        assert |rest| > 0 ==> rest[0] in rest;
        OrderedCons(Token(m.kind, i), rest);
      } else {
        assert LexFrom(s, i).tokens == rest;
      }
    }
  }

  lemma {:induction false} LexFromErrorsSound(s: string, i: nat)
    requires i <= |s|
    ensures forall e :: e in LexFrom(s, i).errors ==>
              i <= e.pos < |s| && s[e.pos] == e.ch && MatchAt(s, e.pos).Illegal?
    decreases |s| - i
  {
    if i < |s| {
      LexFromErrorsSound(s, Advance(s, i));
    }
  }

  lemma {:induction false} LexFromErrorsOrdered(s: string, i: nat)
    requires i <= |s|
    ensures ErrorsOrdered(LexFrom(s, i).errors)
    decreases |s| - i
  {
    if i < |s| {
      var rest := LexFrom(s, Advance(s, i)).errors;
      LexFromErrorsOrdered(s, Advance(s, i));
      LexFromErrorsSound(s, Advance(s, i));
      if MatchAt(s, i).Illegal? {
        assert |rest| > 0 ==> rest[0] in rest;
        ErrorsOrderedCons(LexError(s[i], i), rest);
      } else {
        assert LexFrom(s, i).errors == rest;
      }
    }
  }

  lemma OrderedCons(t: Token, rest: seq<Token>)
    requires Ordered(rest) && (rest == [] || t.pos + |Spelling(t.kind)| <= rest[0].pos)
    ensures Ordered([t] + rest)
  {
    var ts := [t] + rest;
    forall j | 0 <= j < |ts| - 1
      ensures ts[j].pos + |Spelling(ts[j].kind)| <= ts[j + 1].pos
    {
      if j > 0 {
        assert ts[j] == rest[j - 1] && ts[j + 1] == rest[j];
      }
    }
  }

  lemma ErrorsOrderedCons(e: LexError, rest: seq<LexError>)
    requires ErrorsOrdered(rest) && (rest == [] || e.pos < rest[0].pos)
    ensures ErrorsOrdered([e] + rest)
  {
    var es := [e] + rest;
    forall j | 0 <= j < |es| - 1
      ensures es[j].pos < es[j + 1].pos
    {
      if j > 0 {
        assert es[j] == rest[j - 1] && es[j + 1] == rest[j];
      }
    }
  }

  /** Tokenizing a whole input: each character yields at most one token or
      one error. */
  function Lex(s: string): (r: LexResult)
    ensures |r.tokens| + |r.errors| <= |s|
  {
    LexFromCount(s, 0);
    LexFrom(s, 0)
  }

  /** Every token stands at its offset in the input, tokens come left to
      right without overlapping, and every error is a character at which no
      token rule and no blank matches, reported with its offset, in order. */
  lemma LexSound(s: string)
    ensures forall t :: t in Lex(s).tokens ==> SpelledAt(s, t.pos, t.kind)
    ensures forall e :: e in Lex(s).errors ==>
              e.pos < |s| && s[e.pos] == e.ch && !IsBlank(e.ch) && forall k :: !SpelledAt(s, e.pos, k)
    ensures Ordered(Lex(s).tokens) && ErrorsOrdered(Lex(s).errors)
  {
    LexFromTokensSound(s, 0);
    LexFromErrorsSound(s, 0);
    LexFromErrorsOrdered(s, 0);
  }

  /** A blank is ignored: tokenizing from it is tokenizing from the next
      character. */
  lemma LexSkipsBlank(s: string, i: nat)
    requires i < |s| && IsBlank(s[i])
    ensures LexFrom(s, i).tokens == LexFrom(s, i + 1).tokens
    ensures LexFrom(s, i).errors == LexFrom(s, i + 1).errors
  {
  }

  /** A character that starts no token is reported with its offset and
      skipped, exactly one position. */
  lemma LexSkipsIllegal(s: string, i: nat)
    requires i < |s| && MatchAt(s, i).Illegal?
    ensures LexFrom(s, i).tokens == LexFrom(s, i + 1).tokens
    ensures LexFrom(s, i).errors == [LexError(s[i], i)] + LexFrom(s, i + 1).errors
  {
  }

  /** Where a kind is spelled, that token is emitted with its offset, and
      tokenizing goes on after its spelling. */
  lemma LexEmits(s: string, i: nat, k: Kind)
    requires i < |s| && SpelledAt(s, i, k)
    ensures LexFrom(s, i).tokens == [Token(k, i)] + LexFrom(s, i + |Spelling(k)|).tokens
    ensures LexFrom(s, i).errors == LexFrom(s, i + |Spelling(k)|).errors
  {
    MatchUnique(s, i, k);
  }

  /** The lexemes of a token sequence, concatenated. */
  function Lexemes(ts: seq<Token>): string {
    if ts == [] then [] else Spelling(ts[0].kind) + Lexemes(ts[1..])
  }

  /** The text of a kind sequence: the spellings, concatenated. */
  function Render(ks: seq<Kind>): string {
    if ks == [] then [] else Spelling(ks[0]) + Render(ks[1..])
  }

  function ErrorPositions(es: seq<LexError>): set<nat> {
    set e | e in es :: e.pos
  }

  /** The characters of `s` from offset `i` on that are neither blanks nor at
      an offset in `dropped`. */
  function KeptFrom(s: string, i: nat, dropped: set<nat>): string
    requires i <= |s|
    decreases |s| - i
  {
    if i == |s| then []
    else if IsBlank(s[i]) || i in dropped then KeptFrom(s, i + 1, dropped)
    else [s[i]] + KeptFrom(s, i + 1, dropped)
  }

  lemma {:induction false} KeptSpan(s: string, i: nat, j: nat, dropped: set<nat>)
    requires i <= j <= |s|
    requires forall p :: i <= p < j ==> !IsBlank(s[p]) && p !in dropped
    ensures KeptFrom(s, i, dropped) == s[i..j] + KeptFrom(s, j, dropped)
    decreases j - i
  {
    if i < j {
      var rest := KeptFrom(s, i + 1, dropped);
      KeptSpan(s, i + 1, j, dropped);
      assert KeptFrom(s, i, dropped) == [s[i]] + rest;
      assert s[i..j] == [s[i]] + s[i + 1..j];
      assert [s[i]] + (s[i + 1..j] + KeptFrom(s, j, dropped)) == ([s[i]] + s[i + 1..j]) + KeptFrom(s, j, dropped);
    } else {
      assert s[i..j] == [];
    }
  }

  /** Only the offsets from `i` on matter to `KeptFrom(s, i, _)`. */
  lemma {:induction false} KeptAgree(s: string, i: nat, d1: set<nat>, d2: set<nat>)
    requires i <= |s|
    requires forall p :: i <= p < |s| ==> (p in d1 <==> p in d2)
    ensures KeptFrom(s, i, d1) == KeptFrom(s, i, d2)
    decreases |s| - i
  {
    if i < |s| {
      KeptAgree(s, i + 1, d1, d2);
    }
  }

  /** Errors found from offset `i` on lie at or after `i`. */
  lemma ErrorsAtOrAfter(s: string, i: nat, p: nat)
    requires i <= |s| && p < i
    ensures p !in ErrorPositions(LexFrom(s, i).errors)
  {
    var es := LexFrom(s, i).errors;
    assert forall e :: e in es ==> e.pos != p;
  }

  /** What tokenizing from `i` keeps of the input: the lexemes of its tokens
      are the input from `i` on without blanks and without the offsets it
      reports as errors. */
  predicate KeepsText(s: string, i: nat)
    requires i <= |s|
  {
    Lexemes(LexFrom(s, i).tokens) == KeptFrom(s, i, ErrorPositions(LexFrom(s, i).errors))
  }

  lemma {:induction false} KeptFromLex(s: string, i: nat)
    requires i <= |s|
    ensures KeepsText(s, i)
    decreases |s| - i
  {
    if i < |s| {
      KeptFromLex(s, Advance(s, i));
      KeptStep(s, i);
    } else {
      KeptEnd(s);
    }
  }

  /** One scanning step keeps the text: at a token, or at a skipped
      character. */
  lemma KeptStep(s: string, i: nat)
    requires i < |s|
    ensures KeepsText(s, Advance(s, i)) ==> KeepsText(s, i)
  {
    var m := MatchAt(s, i);
    if m.Tok? {
      KeptToken(s, i, m.kind, m.width);
    } else {
      KeptSkip(s, i);
    }
  }

  /** Nothing is left to keep at the end of the input. */
  lemma KeptEnd(s: string)
    ensures KeepsText(s, |s|)
  {
    assert LexFrom(s, |s|) == LexResult([], []);
    assert ErrorPositions([]) == {};
  }

  /** One step of `KeptFromLex` at a blank or an illegal character. */
  lemma KeptSkip(s: string, i: nat)
    requires i < |s| && !MatchAt(s, i).Tok?
    ensures KeepsText(s, i + 1) ==> KeepsText(s, i)
  {
    var r, rest := LexFrom(s, i), LexFrom(s, i + 1);
    var e, e' := ErrorPositions(r.errors), ErrorPositions(rest.errors);
    assert Advance(s, i) == i + 1;
    if MatchAt(s, i).Illegal? {
      assert r.errors == [LexError(s[i], i)] + rest.errors;
      assert e == {i} + e';
      assert r.tokens == rest.tokens;
      ErrorsAtOrAfter(s, i + 1, i);
    } else {
      assert IsBlank(s[i]) && r == rest;
    }
    assert KeptFrom(s, i, e) == KeptFrom(s, i + 1, e);
    KeptAgree(s, i + 1, e, e');
  }

  /** One step of `KeptFromLex` at a token. */
  lemma KeptToken(s: string, i: nat, k: Kind, w: nat)
    requires i < |s| && MatchAt(s, i) == Tok(k, w)
    ensures i + w <= |s|
    ensures KeepsText(s, i + w) ==> KeepsText(s, i)
  {
    var r, rest := LexFrom(s, i), LexFrom(s, i + w);
    var e := ErrorPositions(rest.errors);
    assert Advance(s, i) == i + w && w == |Spelling(k)|;
    assert s[i..i + w] == Spelling(k);
    assert r.errors == rest.errors;
    forall p | i <= p < i + w
      ensures !IsBlank(s[p]) && p !in e
    {
      assert s[p] == Spelling(k)[p - i];
      ErrorsAtOrAfter(s, i + w, p);
    }
    KeptSpan(s, i, i + w, e);
    assert r.tokens == [Token(k, i)] + rest.tokens;
    assert Lexemes(r.tokens) == Spelling(k) + Lexemes(rest.tokens);
  }

  /** Order is preserved and nothing is lost or invented: the token lexemes,
      concatenated left to right, are the input with its blanks and its
      illegal characters removed. */
  lemma LexKeepsText(s: string)
    ensures Lexemes(Lex(s).tokens) == KeptFrom(s, 0, ErrorPositions(Lex(s).errors))
  {
    KeptFromLex(s, 0);
  }

  /** From offset `i` to its end, `s` is exactly the lexemes of `ks`. */
  predicate RendersAt(s: string, i: nat, ks: seq<Kind>)
    decreases ks
  {
    if ks == [] then i == |s|
    else SpelledAt(s, i, ks[0]) && RendersAt(s, i + |Spelling(ks[0])|, ks[1..])
  }

  lemma {:induction false} SliceRendersAt(s: string, i: nat, ks: seq<Kind>)
    requires i <= |s| && s[i..] == Render(ks)
    ensures RendersAt(s, i, ks)
    decreases ks
  {
    if ks == [] {
      assert |s[i..]| == 0;
    } else {
      RenderHead(s, i, ks);
      SliceRendersAt(s, i + |Spelling(ks[0])|, ks[1..]);
    }
  }

  lemma {:induction false} LexRendersAt(s: string, i: nat, ks: seq<Kind>)
    requires RendersAt(s, i, ks)
    ensures Kinds(LexFrom(s, i).tokens) == ks && LexFrom(s, i).errors == []
    decreases ks
  {
    if ks != [] {
      LexRendersAt(s, i + |Spelling(ks[0])|, ks[1..]);
      LexEmitsKinds(s, i, ks[0], ks[1..]);
      HeadTail(ks);
    }
  }

  /** Text that renders `ks` from offset `i` on tokenizes, from `i`, to
      exactly `ks` and no lexical error. */
  lemma LexRenderFrom(s: string, i: nat, ks: seq<Kind>)
    requires i <= |s| && s[i..] == Render(ks)
    ensures Kinds(LexFrom(s, i).tokens) == ks && LexFrom(s, i).errors == []
  {
    SliceRendersAt(s, i, ks);
    LexRendersAt(s, i, ks);
  }

  /** One more token in front of a result whose kinds are the tail of `ks`. */
  lemma LexEmitsKinds(s: string, i: nat, k: Kind, rest: seq<Kind>)
    requires SpelledAt(s, i, k)
    requires Kinds(LexFrom(s, i + |Spelling(k)|).tokens) == rest && LexFrom(s, i + |Spelling(k)|).errors == []
    ensures Kinds(LexFrom(s, i).tokens) == [k] + rest && LexFrom(s, i).errors == []
  {
    SpelledInside(s, i, k);
    LexEmits(s, i, k);
    KindsCons(Token(k, i), LexFrom(s, i + |Spelling(k)|).tokens);
  }

  lemma SpelledInside(s: string, i: nat, k: Kind)
    requires SpelledAt(s, i, k)
    ensures i < |s|
  {
  }

  lemma HeadTail<T>(xs: seq<T>)
    requires xs != []
    ensures xs == [xs[0]] + xs[1..]
  {
  }

  /** Text that renders a non-empty kind sequence starts with the first
      kind's lexeme, followed by the rendering of the others. */
  lemma RenderHead(s: string, i: nat, ks: seq<Kind>)
    requires i <= |s| && s[i..] == Render(ks) && ks != []
    ensures i < |s| && SpelledAt(s, i, ks[0])
    ensures i + |Spelling(ks[0])| <= |s| && s[i + |Spelling(ks[0])|..] == Render(ks[1..])
  {
    var w := |Spelling(ks[0])|;
    assert s[i..][..w] == Spelling(ks[0]);
    assert s[i..i + w] == s[i..][..w];
    SpelledAtSlice(s, i, ks[0]);
    assert s[i + w..] == s[i..][w..];
  }

  /** Reading back the text of any kind sequence yields exactly those kinds
      and no lexical error. */
  lemma LexRender(ks: seq<Kind>)
    ensures Kinds(Lex(Render(ks)).tokens) == ks && Lex(Render(ks)).errors == []
  {
    var s := Render(ks);
    assert s[0..] == s;
    LexRenderFrom(s, 0, ks);
  }

  /** The scanner state of one tokenizer run: the input, the cursor, and the
      lexical errors reported so far. */
  class Lexer {
    const input: string
    var pos: nat
    var errors: seq<LexError>

    constructor (s: string)
      ensures input == s && pos == 0 && errors == []
    {
      input := s;
      pos := 0;
      errors := [];
    }

    /** Returns the next token, or None at the end of the input; ignored
        blanks are passed over and each illegal character is reported and
        skipped by exactly one position. */
    method NextToken() returns (t: Option<Token>)
      requires pos <= |input|
      modifies this`pos, this`errors
      ensures old(pos) <= pos <= |input|
      ensures t.None? ==> pos == |input| && LexFrom(input, old(pos)).tokens == []
      ensures t.Some? ==> old(pos) < pos
      ensures t.Some? ==> LexFrom(input, old(pos)).tokens == [t.value] + LexFrom(input, pos).tokens
      ensures errors + LexFrom(input, pos).errors == old(errors) + LexFrom(input, old(pos)).errors
    {
      while pos < |input|
        invariant old(pos) <= pos <= |input|
        invariant LexFrom(input, old(pos)).tokens == LexFrom(input, pos).tokens
        invariant errors + LexFrom(input, pos).errors == old(errors) + LexFrom(input, old(pos)).errors
        decreases |input| - pos
      {
        var m := MatchAt(input, pos);
        var here := LexFrom(input, pos);
        var next := LexFrom(input, Advance(input, pos));
        if m.Tok? {
          t := Some(Token(m.kind, pos));
          pos := pos + m.width;
          assert here.tokens == [t.value] + next.tokens;
          assert here.errors == next.errors;
          return;
        } else if m.Illegal? {
          var e := LexError(input[pos], pos);
          assert here.errors == [e] + next.errors;
          assert (errors + [e]) + next.errors == errors + here.errors;
          errors := errors + [e];
          pos := pos + 1;
          assert here.tokens == next.tokens;
        } else {
          pos := pos + 1;
          assert here == next;
        }
      }
      t := None;
    }
  }

  datatype Option<T> = None | Some(value: T)

  /** Tokenizes `s`: pulls tokens until the scanner reports the end, and
      returns them with the lexical errors met on the way. */
  method Tokenize(s: string) returns (tokens: seq<Token>, errors: seq<LexError>)
    ensures tokens == Lex(s).tokens && errors == Lex(s).errors
  {
    var lexer := new Lexer(s);
    tokens := [];
    while true
      invariant lexer.input == s && lexer.pos <= |s|
      invariant tokens + LexFrom(s, lexer.pos).tokens == Lex(s).tokens
      invariant lexer.errors + LexFrom(s, lexer.pos).errors == Lex(s).errors
      decreases |s| - lexer.pos
    {
      var t := lexer.NextToken();
      if t.None? {
        break;
      }
      tokens := tokens + [t.value];
    }
    errors := lexer.errors;
  }

  /** A token step moves past exactly its lexeme; a blank or an illegal
      character is skipped on its own. */
  lemma AdvanceSkips(s: string, i: nat)
    requires i < |s|
    ensures MatchAt(s, i).Tok? ==> s[i..Advance(s, i)] == Spelling(MatchAt(s, i).kind)
    ensures !MatchAt(s, i).Tok? ==> Advance(s, i) == i + 1
  {
    if MatchAt(s, i).Tok? {
      SpelledAtSlice(s, i, MatchAt(s, i).kind);
    }
  }

  /** Each scanning step consumes at least one character and yields at most
      one token or one error. */
  lemma {:induction false} LexFromCount(s: string, i: nat)
    requires i <= |s|
    ensures |LexFrom(s, i).tokens| + |LexFrom(s, i).errors| <= |s| - i
    decreases |s| - i
  {
    if i < |s| {
      LexFromCount(s, Advance(s, i));
    }
  }
}
