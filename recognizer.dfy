/** A left-to-right recognizer for the formula language. It reads one token at
    a time and keeps only whether an operand is expected and how many
    parentheses are open. It gets stuck at the first token that no formula can
    continue with, and the grammar engine reports its error at that token. */
module Recognizer {
  import opened Tokens
  import opened Parser
  import opened ParserLemmas

  /** Expecting an operand (at the start, after a connective, NOT or an
      opening parenthesis), or just after a complete operand. */
  datatype Mode = Operand | Operator

  /** The mode and the number of parentheses still open. */
  datatype State = State(mode: Mode, depth: nat)

  /** Where the recognizer stopped: at a token it cannot take, counted from
      the end of the input as a `Failure` is, or after the whole input. */
  datatype Outcome = Stuck(remaining: nat) | Done(state: State)

  const Start := State(Operand, 0)
  const Accept := State(Operator, 0)

  /** An operand is a letter, a digit, NOT or an opening parenthesis; after an
      operand come a connective or a closing parenthesis that has a partner. */
  predicate CanStep(st: State, k: Kind) {
    if st.mode == Operand then !IsBinary(k) && k != RPAREN
    else IsBinary(k) || (k == RPAREN && st.depth > 0)
  }

  function Next(st: State, k: Kind): State
    requires CanStep(st, k)
  {
    if st.mode == Operand then
      if k == LPAREN then State(Operand, st.depth + 1)
      else if k == NOT then st
      else State(Operator, st.depth)
    else if k == RPAREN then State(Operator, st.depth - 1)
    else State(Operand, st.depth)
  }

  function Run(ks: seq<Kind>, st: State): (o: Outcome)
    ensures o.Stuck? ==> 1 <= o.remaining <= |ks|
    decreases |ks|
  {
    if ks == [] then Done(st)
    else if !CanStep(st, ks[0]) then Stuck(|ks|)
    else Run(ks[1..], Next(st, ks[0]))
  }

  /** Running over two pieces is running over the first, then over the second
      from where the first stopped. */
  lemma {:induction false} RunCat(a: seq<Kind>, b: seq<Kind>, st: State)
    ensures Run(a, st).Stuck? ==> Run(a + b, st) == Stuck(Run(a, st).remaining + |b|)
    ensures Run(a, st).Done? ==> Run(a + b, st) == Run(b, Run(a, st).state)
    decreases |a|
  {
    if a != [] {
      assert (a + b)[0] == a[0] && (a + b)[1..] == a[1..] + b;
      if CanStep(st, a[0]) {
        RunCat(a[1..], b, Next(st, a[0]));
      }
    } else {
      assert a + b == b;
    }
  }

  /** Where the recognizer gets stuck, everything before that token is read
      and the token itself is refused. */
  lemma StuckPrefix(ks: seq<Kind>, st: State, n: nat)
    requires Run(ks, st) == Stuck(n)
    ensures n <= |ks| && Run(ks[..|ks| - n], st).Done?
    ensures Run(ks[..|ks| - n + 1], st).Stuck?
  {
    var m := |ks| - n;
    var pre, post := ks[..m], ks[m..];
    assert ks == pre + post;
    RunCat(pre, post, st);
    var s := Run(pre, st).state;
    assert post[1..] == ks[m + 1..];
    assert !CanStep(s, ks[m]);
    assert ks[..m + 1] == pre + [ks[m]];
    RunCat(pre, [ks[m]], st);
  }

  /** The tokens that finish a formula from state `st`: an operand if one is
      expected, then one closing parenthesis per open one. */
  function Close(st: State): seq<Kind> {
    (if st.mode == Operand then [VAR('p')] else []) + Closers(st.depth)
  }

  function Closers(n: nat): (cs: seq<Kind>)
    ensures |cs| == n
  {
    if n == 0 then [] else [RPAREN] + Closers(n - 1)
  }

  lemma {:induction false} ClosersRun(n: nat)
    ensures Run(Closers(n), State(Operator, n)) == Done(Accept)
  {
    if n > 0 {
      ClosersRun(n - 1);
    }
  }

  /** Every state the recognizer reaches can still be finished. */
  lemma CloseRun(st: State)
    ensures Run(Close(st), st) == Done(Accept)
  {
    ClosersRun(st.depth);
    if st.mode == Operand {
      RunCat([VAR('p')], Closers(st.depth), st);
    } else {
      assert Close(st) == Closers(st.depth);
    }
  }

  /** The input ran out while an operand or a closing parenthesis was still
      owed, compared with `d` parentheses open at the start. */
  predicate Unfinished(o: Outcome, d: nat) {
    o.Done? && (o.state.mode == Operand || o.state.depth > d)
  }

  /** What the engine does on one operand agrees with the recognizer started
      with `d` parentheses open: a successful read takes it from expecting an
      operand to just after one; a failure at a token is where it gets stuck;
      a failure at the end is an input that ran out too early. */
  lemma {:induction false} UnaryRun(ks: seq<Kind>, d: nat)
    ensures ParseUnary(ks).Ok? ==>
              Run(ks, State(Operand, d)) == Run(ParseUnary(ks).value.1, State(Operator, d))
    ensures ParseUnary(ks).Err? && ParseUnary(ks).error.AtToken? ==>
              Run(ks, State(Operand, d)) == Stuck(ParseUnary(ks).error.remaining)
    ensures ParseUnary(ks) == Err(AtEnd) ==> Unfinished(Run(ks, State(Operand, d)), d)
    decreases |ks|, 0
  {
    if |ks| > 0 {
      var o := State(Operand, d);
      if ks[0].VAR? || ks[0].CONST? {
        assert Run(ks, o) == Run(ks[1..], State(Operator, d));
      } else if ks[0] == NOT {
        UnaryRun(ks[1..], d);
        assert Run(ks, o) == Run(ks[1..], o);
      } else if ks[0] == LPAREN {
        var inner := ParseLevel(ks[1..], 1);
        LevelRun(ks[1..], 1, d + 1);
        assert Run(ks, o) == Run(ks[1..], State(Operand, d + 1));
        if inner.Ok? {
          var rest := inner.value.1;
          var after := State(Operator, d + 1);
          if rest != [] {
            assert !IsBinary(rest[0]);
            if rest[0] == RPAREN {
              assert Run(rest, after) == Run(rest[1..], State(Operator, d));
            } else {
              assert Run(rest, after) == Stuck(|rest|);
            }
          }
        }
      } else {
        assert !CanStep(o, ks[0]);
      }
    }
  }

  lemma {:induction false} LevelRun(ks: seq<Kind>, lvl: nat, d: nat)
    requires 1 <= lvl <= NotLevel
    ensures ParseLevel(ks, lvl).Ok? ==>
              Run(ks, State(Operand, d)) == Run(ParseLevel(ks, lvl).value.1, State(Operator, d)) &&
              Ends(ParseLevel(ks, lvl).value.1, lvl)
    ensures ParseLevel(ks, lvl).Err? && ParseLevel(ks, lvl).error.AtToken? ==>
              Run(ks, State(Operand, d)) == Stuck(ParseLevel(ks, lvl).error.remaining)
    ensures ParseLevel(ks, lvl) == Err(AtEnd) ==> Unfinished(Run(ks, State(Operand, d)), d)
    decreases |ks|, 1 + NotLevel - lvl
  {
    if lvl == NotLevel {
      UnaryRun(ks, d);
    } else {
      LevelRun(ks, lvl + 1, d);
      var first := ParseLevel(ks, lvl + 1);
      if first.Ok? {
        TailRun(first.value.1, lvl, first.value.0, d);
      }
    }
  }

  /** The connective loop of one level, entered just after an operand. */
  lemma {:induction false} TailRun(ks: seq<Kind>, lvl: nat, acc: Ast.Formula, d: nat)
    requires 1 <= lvl <= NotLevel && Ends(ks, lvl + 1)
    ensures ParseTail(ks, lvl, acc).Ok? ==>
              Run(ks, State(Operator, d)) == Run(ParseTail(ks, lvl, acc).value.1, State(Operator, d)) &&
              Ends(ParseTail(ks, lvl, acc).value.1, lvl)
    ensures ParseTail(ks, lvl, acc).Err? && ParseTail(ks, lvl, acc).error.AtToken? ==>
              Run(ks, State(Operator, d)) == Stuck(ParseTail(ks, lvl, acc).error.remaining)
    ensures ParseTail(ks, lvl, acc) == Err(AtEnd) ==> Unfinished(Run(ks, State(Operator, d)), d)
    decreases |ks|, 0
  {
    if |ks| > 0 && IsBinary(ks[0]) && Level(ks[0]) == lvl {
      var next := ParseLevel(ks[1..], lvl + 1);
      LevelRun(ks[1..], lvl + 1, d);
      assert Run(ks, State(Operator, d)) == Run(ks[1..], State(Operand, d));
      if next.Ok? {
        TailRun(next.value.1, lvl, Ast.Bin(ks[0], acc, next.value.0), d);
      }
    }
  }

  /** The engine accepts exactly what the recognizer accepts, and fails at a
      token exactly where the recognizer gets stuck. */
  lemma ParseRun(ks: seq<Kind>)
    ensures Parse(ks).Ok? <==> Run(ks, Start) == Done(Accept)
    ensures Run(ks, Start).Stuck? ==> Parse(ks) == Err(AtToken(Run(ks, Start).remaining))
    ensures Parse(ks) == Err(AtEnd) <==> Run(ks, Start).Done? && Run(ks, Start) != Done(Accept)
  {
    LevelRun(ks, 1, 0);
    var r := ParseLevel(ks, 1);
    if r.Ok? && r.value.1 != [] {
      var rest := r.value.1;
      assert !IsBinary(rest[0]);
      assert Run(rest, Accept) == Stuck(|rest|);
    }
  }
}
