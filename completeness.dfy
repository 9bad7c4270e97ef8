/** The grammar engine against the grammar itself: it accepts exactly the
    token sequences the grammar derives, and when it fails, the token it
    blames is the first one that no derivable sequence continues with. */
module Completeness {
  import opened Tokens
  import opened Ast
  import opened Parser
  import opened Grammar
  import opened Recognizer

  /** `w` begins some sequence the grammar derives. */
  ghost predicate Begins(w: seq<Kind>) {
    exists x: seq<Kind>, f: Formula :: Derives(w + x, f)
  }

  /** NOT before an operand is an operand. */
  lemma RunNot(ks: seq<Kind>, d: nat)
    requires 0 < |ks| && ks[0] == NOT && Run(ks[1..], State(Operand, d)) == Done(State(Operator, d))
    ensures Run(ks, State(Operand, d)) == Done(State(Operator, d))
  {
  }

  /** Two operands around a connective are an operand. */
  lemma RunBin(ks: seq<Kind>, i: nat, d: nat)
    requires 0 < i < |ks| - 1 && IsBinary(ks[i])
    requires Run(ks[..i], State(Operand, d)) == Done(State(Operator, d))
    requires Run(ks[i + 1..], State(Operand, d)) == Done(State(Operator, d))
    ensures Run(ks, State(Operand, d)) == Done(State(Operator, d))
  {
    var tail := ks[i..];
    assert ks == ks[..i] + tail;
    RunCat(ks[..i], tail, State(Operand, d));
    assert tail[0] == ks[i] && tail[1..] == ks[i + 1..];
  }

  /** An operand in parentheses is an operand. */
  lemma RunParen(ks: seq<Kind>, d: nat)
    requires 2 <= |ks| && ks[0] == LPAREN && ks[|ks| - 1] == RPAREN
    requires Run(ks[1..|ks| - 1], State(Operand, d + 1)) == Done(State(Operator, d + 1))
    ensures Run(ks, State(Operand, d)) == Done(State(Operator, d))
  {
    var inner := ks[1..|ks| - 1];
    assert ks[1..] == inner + [RPAREN];
    RunCat(inner, [RPAREN], State(Operand, d + 1));
    assert Run([RPAREN], State(Operator, d + 1)) == Run([], State(Operator, d));
  }

  /** A derivation takes the recognizer from expecting an operand to just
      after one, at the same depth. */
  lemma {:induction false} DerivesRun(ks: seq<Kind>, f: Formula, d: nat)
    requires Derives(ks, f)
    ensures Run(ks, State(Operand, d)) == Done(State(Operator, d))
    decreases |ks|
  {
    if 2 <= |ks| && ks[0] == LPAREN && ks[|ks| - 1] == RPAREN && Derives(ks[1..|ks| - 1], f) {
      DerivesRun(ks[1..|ks| - 1], f, d + 1);
      RunParen(ks, d);
    } else {
      match f
      case Var(_) =>
        assert Run(ks, State(Operand, d)) == Run([], State(Operator, d));
      case Const(_) =>
        assert Run(ks, State(Operand, d)) == Run([], State(Operator, d));
      case Not(g) =>
        DerivesRun(ks[1..], g, d);
        RunNot(ks, d);
      case Bin(op, l, r) =>
        var i :| 0 < i < |ks| - 1 && ks[i] == op && Derives(ks[..i], l) && Derives(ks[i + 1..], r);
        DerivesRun(ks[..i], l, d);
        DerivesRun(ks[i + 1..], r, d);
        RunBin(ks, i, d);
    }
  }

  /** Completeness: the engine accepts every token sequence the grammar
      derives. With soundness, it accepts exactly those. */
  lemma ParseComplete(ks: seq<Kind>, f: Formula)
    requires Derives(ks, f)
    ensures Parse(ks).Ok?
  {
    DerivesRun(ks, f, 0);
    ParseRun(ks);
  }

  /** The engine accepts a token sequence exactly when the grammar derives it. */
  lemma ParseExactlyDerivable(ks: seq<Kind>)
    ensures Parse(ks).Ok? <==> exists f :: Derives(ks, f)
  {
    if Parse(ks).Ok? {
      ParseSound(ks);
      assert Derives(ks, Parse(ks).value);
    } else {
      forall f | Derives(ks, f)
        ensures false
      {
        ParseComplete(ks, f);
      }
    }
  }

  /** Whatever the recognizer has read without getting stuck begins a
      derivable sequence. */
  lemma DoneBegins(w: seq<Kind>)
    requires Run(w, Start).Done?
    ensures Begins(w)
  {
    var x := Close(Run(w, Start).state);
    CloseRun(Run(w, Start).state);
    RunCat(w, x, Start);
    ParseRun(w + x);
    ParseSound(w + x);
  }

  /** Once the recognizer is stuck, no continuation can be derived. */
  lemma StuckBeginsNothing(w: seq<Kind>)
    requires Run(w, Start).Stuck?
    ensures !Begins(w)
  {
    if Begins(w) {
      var x, f :| Derives(w + x, f);
      DerivesRun(w + x, f, 0);
      RunCat(w, x, Start);
      assert false;
    }
  }

  /** A syntax error at a token blames the first token that no derivable
      sequence continues with: everything before it begins a formula, and
      with it nothing does. */
  lemma ErrorAtFirstBadToken(ks: seq<Kind>, n: nat)
    requires Parse(ks) == Err(AtToken(n))
    ensures 1 <= n <= |ks|
    ensures Begins(ks[..|ks| - n]) && !Begins(ks[..|ks| - n + 1])
  {
    ParseRun(ks);
    StuckPrefix(ks, Start, n);
    DoneBegins(ks[..|ks| - n]);
    StuckBeginsNothing(ks[..|ks| - n + 1]);
  }

  /** A syntax error at the end of input: the input begins a formula but is
      not one. */
  lemma ErrorAtEnd(ks: seq<Kind>)
    requires Parse(ks) == Err(AtEnd)
    ensures Begins(ks)
    ensures forall f :: !Derives(ks, f)
  {
    ParseRun(ks);
    DoneBegins(ks);
    forall f | Derives(ks, f)
      ensures false
    {
      ParseComplete(ks, f);
    }
  }
}
