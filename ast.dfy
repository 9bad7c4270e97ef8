/** The syntax tree the grammar actions build. A node's arity is fixed by its
    constructor: leaves have no child, negation one, a connective two. */
module Ast {
  import opened Tokens

  datatype Formula =
    | Var(letter: Letter)
    | Const(bit: Bit)
    | Not(child: Formula)
    | Bin(op: BinKind, left: Formula, right: Formula)

  /** Number of nodes in the tree. */
  function Size(f: Formula): (n: nat)
    ensures n >= 1
  {
    match f
    case Var(_) => 1
    case Const(_) => 1
    case Not(g) => 1 + Size(g)
    case Bin(_, l, r) => 1 + Size(l) + Size(r)
  }

  /** Number of children of the node `f`. */
  function Arity(f: Formula): nat {
    match f
    case Var(_) => 0
    case Const(_) => 0
    case Not(_) => 1
    case Bin(_, _, _) => 2
  }

  /** The children of a node, in order (left before right). */
  function Children(f: Formula): (cs: seq<Formula>)
    ensures |cs| == Arity(f)
    ensures forall i :: 0 <= i < |cs| ==> Size(cs[i]) < Size(f)
  {
    match f
    case Var(_) => []
    case Const(_) => []
    case Not(g) => [g]
    case Bin(_, l, r) => [l, r]
  }

  /** The token a node was built from: its letter, its bit, or its operator. */
  function Head(f: Formula): Kind {
    match f
    case Var(c) => VAR(c)
    case Const(b) => CONST(b)
    case Not(_) => NOT
    case Bin(op, _, _) => op
  }

  /** The label of a node: the letter or bit of a leaf, the operator symbol
      otherwise. */
  function Label(f: Formula): string {
    match f
    case Var(c) => [c]
    case Const(b) => [b]
    case Not(_) => Spelling(NOT)
    case Bin(op, _, _) => Spelling(op)
  }

  /** Every node has a value, so its label is that value: the lexeme of the
      token the node was built from. */
  lemma LabelLexeme(f: Formula)
    ensures Label(f) == Spelling(Head(f))
  {
  }
}
