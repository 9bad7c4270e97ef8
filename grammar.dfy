/** The grammar as written: eight productions over `formula`, ambiguous on
    their own. A token sequence derives a tree when one of the productions
    builds that tree from derivations of its parts. The engine is sound for
    it: whatever it accepts is derived by the grammar, and the tree it
    returns is one of the trees the grammar allows (the one the precedence
    table selects). */
module Grammar {
  import opened Tokens
  import opened Ast
  import opened Parser

  /** `ks` derives `f`: a variable or a constant alone; NOT followed by a
      derivation of the operand; a derivation of the left operand, the
      connective, a derivation of the right operand; or a derivation of `f`
      in parentheses (which adds no node). */
  ghost predicate Derives(ks: seq<Kind>, f: Formula)
    decreases |ks|
  {
    (f.Var? && ks == [VAR(f.letter)]) ||
    (f.Const? && ks == [CONST(f.bit)]) ||
    (f.Not? && 0 < |ks| && ks[0] == NOT && Derives(ks[1..], f.child)) ||
    (f.Bin? && exists i :: 0 < i < |ks| - 1 && ks[i] == f.op && Derives(ks[..i], f.left) && Derives(ks[i + 1..], f.right)) ||
    (2 <= |ks| && ks[0] == LPAREN && ks[|ks| - 1] == RPAREN && Derives(ks[1..|ks| - 1], f))
  }

  /** The engine read `f` from a prefix of `ks` and left `rest`, which is the
      rest of `ks`. */
  ghost predicate Reads(ks: seq<Kind>, f: Formula, rest: seq<Kind>) {
    |rest| <= |ks| && ks[|ks| - |rest|..] == rest && Derives(ks[..|ks| - |rest|], f)
  }

  lemma DerivesNonEmpty(ks: seq<Kind>, f: Formula)
    requires Derives(ks, f)
    ensures |ks| > 0
  {
  }

  /** Two consecutive reads compose: if `mid` is what is left of `ks` and
      `rest` what is left of `mid`, then `rest` is what is left of `ks`, and
      the text read is the two pieces read. */
  lemma SuffixSplit(ks: seq<Kind>, mid: seq<Kind>, rest: seq<Kind>)
    requires |mid| <= |ks| && ks[|ks| - |mid|..] == mid
    requires |rest| <= |mid| && mid[|mid| - |rest|..] == rest
    ensures ks[|ks| - |rest|..] == rest
    ensures ks[..|ks| - |mid|] + mid[..|mid| - |rest|] == ks[..|ks| - |rest|]
  {
    var a, b := |ks| - |mid|, |ks| - |rest|;
    assert ks[a..][|mid| - |rest|..] == ks[b..];
    assert ks[a..][..|mid| - |rest|] == ks[a..b];
    assert ks[..a] + ks[a..b] == ks[..b];
  }

  lemma {:induction false} LevelSound(ks: seq<Kind>, lvl: nat)
    requires 1 <= lvl <= NotLevel && ParseLevel(ks, lvl).Ok?
    ensures Reads(ks, ParseLevel(ks, lvl).value.0, ParseLevel(ks, lvl).value.1)
    decreases |ks|, 1 + NotLevel - lvl
  {
    if lvl == NotLevel {
      UnarySound(ks);
    } else {
      var (left, mid) := ParseLevel(ks, lvl + 1).value;
      var (f, rest) := ParseLevel(ks, lvl).value;
      LevelSound(ks, lvl + 1);
      var seg := ks[..|ks| - |mid|];
      TailSound(mid, lvl, left, seg);
      ChainStart(ks, mid, f, rest);
    }
  }

  /** After a derivation `pre` of the tree so far, the engine read `f`'s
      remaining part from a prefix of `ks` and left `rest`. */
  ghost predicate ReadsAfter(pre: seq<Kind>, ks: seq<Kind>, f: Formula, rest: seq<Kind>) {
    |rest| <= |ks| && ks[|ks| - |rest|..] == rest && Derives(pre + ks[..|ks| - |rest|], f)
  }

  /** One turn of the connective loop is a use of the connective production:
      the text so far, the connective, and the right operand's text. */
  lemma GroupStep(pre: seq<Kind>, ks: seq<Kind>, acc: Formula, right: Formula, mid: seq<Kind>)
    requires |ks| > 0 && IsBinary(ks[0]) && Derives(pre, acc)
    requires Reads(ks[1..], right, mid)
    ensures |mid| < |ks| && ks[|ks| - |mid|..] == mid
    ensures Derives(pre + ks[..|ks| - |mid|], Bin(ks[0], acc, right))
  {
    var seg := ks[..|ks| - |mid|];
    var whole := pre + seg;
    DerivesNonEmpty(pre, acc);
    DerivesNonEmpty(ks[1..][..|ks| - 1 - |mid|], right);
    assert ks[1..][..|ks| - 1 - |mid|] == seg[1..];
    assert ks[1..][|ks| - 1 - |mid|..] == ks[|ks| - |mid|..];
    assert whole[..|pre|] == pre && whole[|pre|] == ks[0] && whole[|pre| + 1..] == seg[1..];
  }

  /** The rest of the connective loop continues from the grouped tree. */
  lemma ChainStep(pre: seq<Kind>, ks: seq<Kind>, mid: seq<Kind>, f: Formula, rest: seq<Kind>)
    requires |mid| <= |ks| && ks[|ks| - |mid|..] == mid
    requires ReadsAfter(pre + ks[..|ks| - |mid|], mid, f, rest)
    ensures ReadsAfter(pre, ks, f, rest)
  {
    SuffixSplit(ks, mid, rest);
    var seg := ks[..|ks| - |mid|];
    assert (pre + seg) + mid[..|mid| - |rest|] == pre + (seg + mid[..|mid| - |rest|]);
  }

  /** The connective loop after a first operand read from the start. */
  lemma ChainStart(ks: seq<Kind>, mid: seq<Kind>, f: Formula, rest: seq<Kind>)
    requires |mid| <= |ks| && ks[|ks| - |mid|..] == mid
    requires ReadsAfter(ks[..|ks| - |mid|], mid, f, rest)
    ensures Reads(ks, f, rest)
  {
    SuffixSplit(ks, mid, rest);
  }

  lemma {:induction false} TailSound(ks: seq<Kind>, lvl: nat, acc: Formula, pre: seq<Kind>)
    requires 1 <= lvl <= NotLevel && ParseTail(ks, lvl, acc).Ok? && Derives(pre, acc)
    ensures ReadsAfter(pre, ks, ParseTail(ks, lvl, acc).value.0, ParseTail(ks, lvl, acc).value.1)
    decreases |ks|, 0
  {
    if |ks| > 0 && IsBinary(ks[0]) && Level(ks[0]) == lvl {
      var (right, mid) := ParseLevel(ks[1..], lvl + 1).value;
      var grouped := Bin(ks[0], acc, right);
      LevelSound(ks[1..], lvl + 1);
      GroupStep(pre, ks, acc, right, mid);
      TailSound(mid, lvl, grouped, pre + ks[..|ks| - |mid|]);
      ChainStep(pre, ks, mid, ParseTail(ks, lvl, acc).value.0, ParseTail(ks, lvl, acc).value.1);
    } else {
      assert ks[..0] == [] && pre + [] == pre;
    }
  }

  lemma {:induction false} UnarySound(ks: seq<Kind>)
    requires ParseUnary(ks).Ok?
    ensures Reads(ks, ParseUnary(ks).value.0, ParseUnary(ks).value.1)
    decreases |ks|, 0
  {
    var (f, rest) := ParseUnary(ks).value;
    if ks[0].VAR? || ks[0].CONST? {
      assert ks[..1] == [ks[0]];
    } else if ks[0] == NOT {
      var (g, mid) := ParseUnary(ks[1..]).value;
      UnarySound(ks[1..]);
      var seg := ks[..|ks| - |rest|];
      assert seg[1..] == ks[1..][..|ks| - 1 - |rest|];
      assert ks[1..][|ks| - 1 - |rest|..] == ks[|ks| - |rest|..];
    } else {
      var (g, mid) := ParseLevel(ks[1..], 1).value;
      LevelSound(ks[1..], 1);
      var seg := ks[..|ks| - |rest|];
      assert seg[1..|seg| - 1] == ks[1..][..|ks| - 1 - |mid|];
      assert seg[|seg| - 1] == mid[0];
      assert ks[1..][|ks| - 1 - |mid|..] == mid;
      assert mid[1..] == ks[|ks| - |rest|..];
    }
  }

  /** Soundness: every tree the engine returns is derived by the grammar from
      the whole input. */
  lemma ParseSound(ks: seq<Kind>)
    requires Parse(ks).Ok?
    ensures Derives(ks, Parse(ks).value)
  {
    LevelSound(ks, 1);
    assert ks[..|ks| - 0] == ks;
  }
}
