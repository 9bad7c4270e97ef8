/** Facts about the grammar engine that do not depend on any printer: when an
    operand stops, and how the engine treats input that follows a complete
    formula (which is what makes parentheses transparent). */
module ParserLemmas {
  import opened Tokens
  import opened Ast
  import opened Parser

  /** `rest` cannot continue an operand read at level `lvl`: it is empty, or
      it starts with something other than a connective of level `lvl` or above. */
  predicate Ends(rest: seq<Kind>, lvl: nat) {
    rest == [] || !IsBinary(rest[0]) || Level(rest[0]) < lvl
  }

  /** One turn of the connective loop. */
  lemma TailStep(ks: seq<Kind>, lvl: nat, acc: Formula, right: Formula, rest: seq<Kind>)
    requires 1 <= lvl < NotLevel && |ks| > 0 && IsBinary(ks[0]) && Level(ks[0]) == lvl
    requires ParseLevel(ks[1..], lvl + 1) == Ok((right, rest))
    ensures ParseTail(ks, lvl, acc) == ParseTail(rest, lvl, Bin(ks[0], acc, right))
  {
  }

  /** Two turns of reading combined: a left operand ending before a connective
      of the loop's level, then the right operand after it. */
  lemma TailCompose(ks: seq<Kind>, tail: seq<Kind>, lvl: nat, left: Formula, right: Formula, rest: seq<Kind>)
    requires 1 <= lvl < NotLevel && |tail| > 0 && IsBinary(tail[0]) && Level(tail[0]) == lvl
    requires ParseLevel(ks, lvl) == ParseTail(tail, lvl, left)
    requires ParseLevel(tail[1..], lvl + 1) == Ok((right, rest))
    ensures ParseLevel(ks, lvl) == ParseTail(rest, lvl, Bin(tail[0], left, right))
  {
    TailStep(tail, lvl, left, right, rest);
  }

  /** The connective loop stops where no connective of its level follows. */
  lemma TailStop(ks: seq<Kind>, lvl: nat, acc: Formula)
    requires 1 <= lvl <= NotLevel && (ks == [] || !IsBinary(ks[0]) || Level(ks[0]) != lvl)
    ensures ParseTail(ks, lvl, acc) == Ok((acc, ks))
  {
  }

  /** Below the unary level, an operand is the next level's operand followed
      by the connective loop. */
  lemma LevelStep(ks: seq<Kind>, lvl: nat, left: Formula, rest: seq<Kind>)
    requires 1 <= lvl < NotLevel && ParseLevel(ks, lvl + 1) == Ok((left, rest))
    ensures ParseLevel(ks, lvl) == ParseTail(rest, lvl, left)
  {
  }

  /** An operand read at a higher level is also the operand read at a lower
      level when no connective of the levels in between follows it. */
  lemma {:induction false} LevelLift(ks: seq<Kind>, m: nat, lvl: nat)
    requires 1 <= lvl <= m <= NotLevel
    requires ParseLevel(ks, m).Ok? && Ends(ParseLevel(ks, m).value.1, lvl)
    ensures ParseLevel(ks, lvl) == ParseLevel(ks, m)
    decreases m - lvl
  {
    if lvl < m {
      LevelLift(ks, m, lvl + 1);
    }
  }

  /** Input that follows the text read does not disturb the engine, as long
      as it does not start with a connective. */
  predicate Inert(ext: seq<Kind>) {
    ext == [] || !IsBinary(ext[0])
  }

  lemma {:induction false} ExtendLevel(ks: seq<Kind>, lvl: nat, ext: seq<Kind>)
    requires 1 <= lvl <= NotLevel && Inert(ext)
    requires ParseLevel(ks, lvl).Ok?
    ensures ParseLevel(ks + ext, lvl) ==
            Ok((ParseLevel(ks, lvl).value.0, ParseLevel(ks, lvl).value.1 + ext))
    decreases |ks|, 1 + NotLevel - lvl
  {
    if lvl == NotLevel {
      ExtendUnary(ks, ext);
    } else {
      var (left, rest) := ParseLevel(ks, lvl + 1).value;
      ExtendLevel(ks, lvl + 1, ext);
      ExtendTail(rest, lvl, left, ext);
    }
  }

  lemma {:induction false} ExtendTail(ks: seq<Kind>, lvl: nat, acc: Formula, ext: seq<Kind>)
    requires 1 <= lvl <= NotLevel && Inert(ext)
    requires ParseTail(ks, lvl, acc).Ok?
    ensures ParseTail(ks + ext, lvl, acc) ==
            Ok((ParseTail(ks, lvl, acc).value.0, ParseTail(ks, lvl, acc).value.1 + ext))
    decreases |ks|, 0
  {
    if |ks| > 0 {
      assert (ks + ext)[0] == ks[0];
      if IsBinary(ks[0]) && Level(ks[0]) == lvl {
        assert (ks + ext)[1..] == ks[1..] + ext;
        var (right, rest) := ParseLevel(ks[1..], lvl + 1).value;
        ExtendLevel(ks[1..], lvl + 1, ext);
        ExtendTail(rest, lvl, Bin(ks[0], acc, right), ext);
      }
    } else {
      assert ks + ext == ext;
    }
  }

  lemma {:induction false} ExtendUnary(ks: seq<Kind>, ext: seq<Kind>)
    requires Inert(ext)
    requires ParseUnary(ks).Ok?
    ensures ParseUnary(ks + ext) ==
            Ok((ParseUnary(ks).value.0, ParseUnary(ks).value.1 + ext))
    decreases |ks|, 0
  {
    var ke := ks + ext;
    assert ke[0] == ks[0];
    assert ke[1..] == ks[1..] + ext;
    if ks[0] == NOT {
      ExtendUnary(ks[1..], ext);
    } else if ks[0] == LPAREN {
      var (g, rest) := ParseLevel(ks[1..], 1).value;
      ExtendLevel(ks[1..], 1, ext);
      assert ParseLevel(ke[1..], 1) == Ok((g, rest + ext));
      assert (rest + ext)[0] == rest[0];
      assert (rest + ext)[1..] == rest[1..] + ext;
    }
  }

  lemma UnaryParen(ks: seq<Kind>, f: Formula)
    requires ParseLevel(ks + [RPAREN], 1) == Ok((f, [RPAREN]))
    ensures ParseUnary([LPAREN] + ks + [RPAREN]) == Ok((f, []))
  {
    var wrapped := [LPAREN] + ks + [RPAREN];
    assert wrapped[0] == LPAREN && wrapped[1..] == ks + [RPAREN];
  }

  /** Parentheses are transparent: wrapping a formula in a pair of
      parentheses yields exactly the same tree, with no extra node. */
  lemma ParenTransparent(ks: seq<Kind>)
    requires Parse(ks).Ok?
    ensures Parse([LPAREN] + ks + [RPAREN]) == Parse(ks)
  {
    var f := Parse(ks).value;
    assert ParseLevel(ks, 1) == Ok((f, []));
    ExtendLevel(ks, 1, [RPAREN]);
    assert [] + [RPAREN] == [RPAREN];
    UnaryParen(ks, f);
    var wrapped := [LPAREN] + ks + [RPAREN];
    LevelLift(wrapped, NotLevel, 1);
  }
}
