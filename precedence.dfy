/** The grammar with the precedence table built in: one rule per row of the
    table. At level 1..4 a formula is either a formula of the next level, or
    a formula of the same level, a connective of exactly that level and a
    formula of the next level (so each row is left-associative); at level 5
    it is a variable, a constant, NOT before a level-5 formula, or any
    formula in parentheses. Unlike the grammar as written, this grammar gives
    every token sequence at most one tree, and the engine returns a tree for
    a token sequence exactly when this grammar derives that tree from it. */
module Precedence {
  import opened Tokens
  import opened Ast
  import opened Parser
  import opened ParserLemmas
  import Grammar

  /** `ks` derives `f` as a formula of level `lvl`. */
  ghost predicate PrecDerives(ks: seq<Kind>, f: Formula, lvl: nat)
    requires 1 <= lvl <= NotLevel
    decreases |ks|, NotLevel - lvl
  {
    if lvl == NotLevel then
      (f.Var? && ks == [VAR(f.letter)]) ||
      (f.Const? && ks == [CONST(f.bit)]) ||
      (f.Not? && 0 < |ks| && ks[0] == NOT && PrecDerives(ks[1..], f.child, NotLevel)) ||
      (2 <= |ks| && ks[0] == LPAREN && ks[|ks| - 1] == RPAREN && PrecDerives(ks[1..|ks| - 1], f, 1))
    else
      PrecDerives(ks, f, lvl + 1) ||
      (f.Bin? && Level(f.op) == lvl &&
       exists i :: 0 < i < |ks| - 1 && ks[i] == f.op &&
                   PrecDerives(ks[..i], f.left, lvl) && PrecDerives(ks[i + 1..], f.right, lvl + 1))
  }

  /** Completeness at one level: a derivation of `f` at level `lvl`, followed
      by input that no connective of a tighter level starts, is read as `f`,
      and the engine goes on with the connective loop of that level. */
  lemma {:induction false} PrecParse(ks: seq<Kind>, f: Formula, lvl: nat, rest: seq<Kind>)
    requires 1 <= lvl <= NotLevel && PrecDerives(ks, f, lvl) && Ends(rest, lvl + 1)
    ensures ParseLevel(ks + rest, lvl) == ParseTail(rest, lvl, f)
    decreases |ks|, NotLevel - lvl, 1
  {
    if lvl == NotLevel {
      PrecUnary(ks, f, rest);
      TailStop(rest, lvl, f);
    } else if PrecDerives(ks, f, lvl + 1) {
      PrecParse(ks, f, lvl + 1, rest);
      TailStop(rest, lvl + 1, f);
      LevelStep(ks + rest, lvl, f, rest);
    } else {
      var i :| 0 < i < |ks| - 1 && ks[i] == f.op &&
               PrecDerives(ks[..i], f.left, lvl) && PrecDerives(ks[i + 1..], f.right, lvl + 1);
      var tail := ks[i..] + rest;
      assert ks + rest == ks[..i] + tail;
      assert tail[0] == f.op && tail[1..] == ks[i + 1..] + rest;
      PrecParse(ks[..i], f.left, lvl, tail);
      PrecParse(ks[i + 1..], f.right, lvl + 1, rest);
      TailStop(rest, lvl + 1, f.right);
      TailCompose(ks + rest, tail, lvl, f.left, f.right, rest);
    }
  }

  /** Completeness at the unary level: the unary rule reads exactly `f`. */
  lemma {:induction false} PrecUnary(ks: seq<Kind>, f: Formula, rest: seq<Kind>)
    requires PrecDerives(ks, f, NotLevel)
    ensures ParseUnary(ks + rest) == Ok((f, rest))
    decreases |ks|, 0, 0
  {
    var kr := ks + rest;
    assert kr[0] == ks[0] && kr[1..] == ks[1..] + rest;
    if f.Var? && ks == [VAR(f.letter)] {
    } else if f.Const? && ks == [CONST(f.bit)] {
    } else if f.Not? && 0 < |ks| && ks[0] == NOT && PrecDerives(ks[1..], f.child, NotLevel) {
      PrecUnary(ks[1..], f.child, rest);
    } else {
      var inner := ks[1..|ks| - 1];
      var close := [RPAREN] + rest;
      assert ks[1..] == inner + [RPAREN];
      assert kr[1..] == inner + close;
      PrecParse(inner, f, 1, close);
      TailStop(close, 1, f);
      assert close[0] == RPAREN && close[1..] == rest;
    }
  }

  /** The engine read `f` at level `lvl` from a prefix of `ks` and left
      `rest`, which is the rest of `ks`. */
  ghost predicate PrecReads(ks: seq<Kind>, f: Formula, rest: seq<Kind>, lvl: nat)
    requires 1 <= lvl <= NotLevel
  {
    |rest| <= |ks| && ks[|ks| - |rest|..] == rest && PrecDerives(ks[..|ks| - |rest|], f, lvl)
  }

  /** After a derivation `pre` of the tree so far, the engine read the rest of
      `f` from a prefix of `ks` and left `rest`. */
  ghost predicate PrecReadsAfter(pre: seq<Kind>, ks: seq<Kind>, f: Formula, rest: seq<Kind>, lvl: nat)
    requires 1 <= lvl <= NotLevel
  {
    |rest| <= |ks| && ks[|ks| - |rest|..] == rest && PrecDerives(pre + ks[..|ks| - |rest|], f, lvl)
  }

  lemma {:induction false} PrecNonEmpty(ks: seq<Kind>, f: Formula, lvl: nat)
    requires 1 <= lvl <= NotLevel && PrecDerives(ks, f, lvl)
    ensures |ks| > 0
    decreases NotLevel - lvl
  {
    if lvl < NotLevel && PrecDerives(ks, f, lvl + 1) {
      PrecNonEmpty(ks, f, lvl + 1);
    }
  }

  /** One turn of the connective loop is a use of the rule of its level: the
      text so far at that level, the connective, and the right operand's text
      one level up. */
  lemma PrecGroupStep(pre: seq<Kind>, ks: seq<Kind>, acc: Formula, right: Formula, mid: seq<Kind>, lvl: nat)
    requires 1 <= lvl < NotLevel && |ks| > 0 && IsBinary(ks[0]) && Level(ks[0]) == lvl
    requires PrecDerives(pre, acc, lvl) && PrecReads(ks[1..], right, mid, lvl + 1)
    ensures |mid| < |ks| && ks[|ks| - |mid|..] == mid
    ensures PrecDerives(pre + ks[..|ks| - |mid|], Bin(ks[0], acc, right), lvl)
  {
    var seg := ks[..|ks| - |mid|];
    var whole := pre + seg;
    PrecNonEmpty(pre, acc, lvl);
    PrecNonEmpty(ks[1..][..|ks| - 1 - |mid|], right, lvl + 1);
    assert ks[1..][..|ks| - 1 - |mid|] == seg[1..];
    assert ks[1..][|ks| - 1 - |mid|..] == ks[|ks| - |mid|..];
    assert whole[..|pre|] == pre && whole[|pre|] == ks[0] && whole[|pre| + 1..] == seg[1..];
  }

  /** The rest of the connective loop continues from the grouped tree. */
  lemma PrecChainStep(pre: seq<Kind>, ks: seq<Kind>, mid: seq<Kind>, f: Formula, rest: seq<Kind>, lvl: nat)
    requires 1 <= lvl <= NotLevel && |mid| <= |ks| && ks[|ks| - |mid|..] == mid
    requires PrecReadsAfter(pre + ks[..|ks| - |mid|], mid, f, rest, lvl)
    ensures PrecReadsAfter(pre, ks, f, rest, lvl)
  {
    Grammar.SuffixSplit(ks, mid, rest);
    var seg := ks[..|ks| - |mid|];
    assert (pre + seg) + mid[..|mid| - |rest|] == pre + (seg + mid[..|mid| - |rest|]);
  }

  /** The connective loop after a first operand read from the start. */
  lemma PrecChainStart(ks: seq<Kind>, mid: seq<Kind>, f: Formula, rest: seq<Kind>, lvl: nat)
    requires 1 <= lvl <= NotLevel && |mid| <= |ks| && ks[|ks| - |mid|..] == mid
    requires PrecReadsAfter(ks[..|ks| - |mid|], mid, f, rest, lvl)
    ensures PrecReads(ks, f, rest, lvl)
  {
    Grammar.SuffixSplit(ks, mid, rest);
  }

  /** Soundness at one level: what the engine reads at level `lvl` is
      derived at that level. */
  lemma {:induction false} PrecLevelSound(ks: seq<Kind>, lvl: nat)
    requires 1 <= lvl <= NotLevel && ParseLevel(ks, lvl).Ok?
    ensures PrecReads(ks, ParseLevel(ks, lvl).value.0, ParseLevel(ks, lvl).value.1, lvl)
    decreases |ks|, 1 + NotLevel - lvl
  {
    if lvl == NotLevel {
      PrecUnarySound(ks);
    } else {
      var (left, mid) := ParseLevel(ks, lvl + 1).value;
      var (f, rest) := ParseLevel(ks, lvl).value;
      PrecLevelSound(ks, lvl + 1);
      var seg := ks[..|ks| - |mid|];
      assert PrecDerives(seg, left, lvl);
      PrecTailSound(mid, lvl, left, seg);
      PrecChainStart(ks, mid, f, rest, lvl);
    }
  }

  lemma {:induction false} PrecTailSound(ks: seq<Kind>, lvl: nat, acc: Formula, pre: seq<Kind>)
    requires 1 <= lvl < NotLevel && ParseTail(ks, lvl, acc).Ok? && PrecDerives(pre, acc, lvl)
    ensures PrecReadsAfter(pre, ks, ParseTail(ks, lvl, acc).value.0, ParseTail(ks, lvl, acc).value.1, lvl)
    decreases |ks|, 0
  {
    if |ks| > 0 && IsBinary(ks[0]) && Level(ks[0]) == lvl {
      var (right, mid) := ParseLevel(ks[1..], lvl + 1).value;
      PrecLevelSound(ks[1..], lvl + 1);
      PrecGroupStep(pre, ks, acc, right, mid, lvl);
      PrecTailSound(mid, lvl, Bin(ks[0], acc, right), pre + ks[..|ks| - |mid|]);
      PrecChainStep(pre, ks, mid, ParseTail(ks, lvl, acc).value.0, ParseTail(ks, lvl, acc).value.1, lvl);
    } else {
      assert ks[..0] == [] && pre + [] == pre;
    }
  }

  lemma {:induction false} PrecUnarySound(ks: seq<Kind>)
    requires ParseUnary(ks).Ok?
    ensures PrecReads(ks, ParseUnary(ks).value.0, ParseUnary(ks).value.1, NotLevel)
    decreases |ks|, 0
  {
    if ks[0].VAR? || ks[0].CONST? {
      assert ks[..1] == [ks[0]];
    } else if ks[0] == NOT {
      PrecUnarySound(ks[1..]);
      NotSound(ks, ParseUnary(ks[1..]).value.0, ParseUnary(ks[1..]).value.1);
    } else {
      PrecLevelSound(ks[1..], 1);
      ParenSound(ks, ParseLevel(ks[1..], 1).value.0, ParseLevel(ks[1..], 1).value.1);
    }
  }

  /** NOT before what was read at the unary level is read at that level. */
  lemma NotSound(ks: seq<Kind>, g: Formula, rest: seq<Kind>)
    requires 0 < |ks| && ks[0] == NOT && PrecReads(ks[1..], g, rest, NotLevel)
    ensures PrecReads(ks, Not(g), rest, NotLevel)
  {
    var seg := ks[..|ks| - |rest|];
    assert seg[1..] == ks[1..][..|ks| - 1 - |rest|];
    assert ks[1..][|ks| - 1 - |rest|..] == ks[|ks| - |rest|..];
  }

  /** A formula read in parentheses is read at the unary level. */
  lemma ParenSound(ks: seq<Kind>, g: Formula, mid: seq<Kind>)
    requires 0 < |ks| && ks[0] == LPAREN && PrecReads(ks[1..], g, mid, 1)
    requires 0 < |mid| && mid[0] == RPAREN
    ensures PrecReads(ks, g, mid[1..], NotLevel)
  {
    var rest := mid[1..];
    var seg := ks[..|ks| - |rest|];
    assert seg[1..|seg| - 1] == ks[1..][..|ks| - 1 - |mid|];
    assert seg[|seg| - 1] == mid[0];
    assert ks[1..][|ks| - 1 - |mid|..] == mid;
    assert mid[1..] == ks[|ks| - |rest|..];
  }

  /** The precedence table decides every input: the engine returns `f` for
      `ks` exactly when the grammar of the table derives `f` from `ks`. */
  lemma ParsePrecedence(ks: seq<Kind>, f: Formula)
    ensures Parse(ks) == Ok(f) <==> PrecDerives(ks, f, 1)
  {
    if PrecDerives(ks, f, 1) {
      PrecParse(ks, f, 1, []);
      assert ks + [] == ks;
      TailStop([], 1, f);
    }
    if Parse(ks) == Ok(f) {
      PrecLevelSound(ks, 1);
      assert ks[..|ks| - 0] == ks;
    }
  }

  /** The grammar of the table is unambiguous: a token sequence derives at
      most one tree. */
  lemma PrecUnambiguous(ks: seq<Kind>, f: Formula, g: Formula)
    requires PrecDerives(ks, f, 1) && PrecDerives(ks, g, 1)
    ensures f == g
  {
    ParsePrecedence(ks, f);
    ParsePrecedence(ks, g);
  }

  /** The grammar of the table only selects among the trees of the grammar as
      written: whatever it derives, the eight productions derive too. */
  lemma PrecRefines(ks: seq<Kind>, f: Formula)
    requires PrecDerives(ks, f, 1)
    ensures Grammar.Derives(ks, f)
  {
    ParsePrecedence(ks, f);
    Grammar.ParseSound(ks);
  }
}
