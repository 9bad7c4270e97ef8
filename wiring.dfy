/** Where the export's edges go: each edge leaves the node whose child it
    enters. In pre-order, child `i` of a node comes right after the node and
    the whole subtrees of the children before it. */
module Wiring {
  import opened Tokens
  import opened Ast
  import opened Export

  /** The total size of the trees `cs`. */
  function Sizes(cs: seq<Formula>): nat {
    if cs == [] then 0 else Size(cs[0]) + Sizes(cs[1..])
  }

  /** How far after node `p` its child `i` comes in pre-order: past `p`
      itself and the subtrees of the children before it. */
  function ChildOffset(p: Formula, i: nat): nat
    requires i <= Arity(p)
  {
    1 + Sizes(Children(p)[..i])
  }

  lemma ChildOffsets(p: Formula)
    ensures Arity(p) > 0 ==> ChildOffset(p, 0) == 1
    ensures p.Bin? ==> ChildOffset(p, 1) == 1 + Size(p.left)
  {
    if Arity(p) > 0 {
      assert Children(p)[..0] == [];
    }
    if p.Bin? {
      var first := Children(p)[..1];
      assert first == [p.left] && first[1..] == [];
    }
  }

  /** Child `i` of node `k` of the pre-order listing `ps` is the subtree
      listed at `c = k + ChildOffset(ps[k], i)`, and the edge entering node
      `base + c` leaves node `base + k`. */
  predicate WiredAt(es: seq<Edge>, base: nat, ps: seq<Formula>, k: nat, i: nat)
    requires k < |ps| && i < Arity(ps[k])
  {
    var c := k + ChildOffset(ps[k], i);
    c < |ps| && ps[c] == Children(ps[k])[i] && c <= |es| && es[c - 1] == Edge(base + k, base + c)
  }

  /** Every node is wired to each of its children. */
  predicate Wired(es: seq<Edge>, base: nat, ps: seq<Formula>) {
    forall k, i :: 0 <= k < |ps| && 0 <= i < Arity(ps[k]) ==> WiredAt(es, base, ps, k, i)
  }

  /** Wiring of a node with one child: the edge to the child's root, then the
      child's edges, numbered one further. */
  lemma WiredOne(es: seq<Edge>, ps: seq<Formula>, root: Formula, base: nat, c: seq<Edge>, pc: seq<Formula>)
    requires Arity(root) == 1 && 0 < |pc| && pc[0] == Children(root)[0]
    requires Wired(c, base + 1, pc)
    requires es == [Edge(base, base + 1)] + c && ps == [root] + pc
    ensures Wired(es, base, ps)
  {
    forall k, i | 0 <= k < |ps| && 0 <= i < Arity(ps[k])
      ensures WiredAt(es, base, ps, k, i)
    {
      if k == 0 {
        ChildOffsets(root);
      } else {
        assert ps[k] == pc[k - 1];
        assert WiredAt(c, base + 1, pc, k - 1, i);
        var o := ChildOffset(pc[k - 1], i);
        assert ps[k + o] == pc[k - 1 + o];
        assert es[k + o - 1] == c[k - 1 + o - 1];
      }
    }
  }

  /** Wiring of a node with two children: the edge to the left root, the left
      edges, the edge to the right root, the right edges. */
  lemma WiredTwo(es: seq<Edge>, ps: seq<Formula>, root: Formula, base: nat,
                 l: seq<Edge>, pl: seq<Formula>, r: seq<Edge>, pr: seq<Formula>, mid: nat)
    requires root.Bin? && |pl| == Size(root.left) && |l| == |pl| - 1 && mid == base + 1 + |pl|
    requires 0 < |pl| && pl[0] == root.left && 0 < |pr| && pr[0] == root.right
    requires Wired(l, base + 1, pl) && Wired(r, mid, pr)
    requires es == [Edge(base, base + 1)] + l + [Edge(base, mid)] + r && ps == [root] + pl + pr
    ensures Wired(es, base, ps)
  {
    forall k, i | 0 <= k < |ps| && 0 <= i < Arity(ps[k])
      ensures WiredAt(es, base, ps, k, i)
    {
      if k == 0 {
        ChildOffsets(root);
      } else if k <= |pl| {
        assert ps[k] == pl[k - 1];
        assert WiredAt(l, base + 1, pl, k - 1, i);
        var o := ChildOffset(pl[k - 1], i);
        assert ps[k + o] == pl[k - 1 + o];
        assert es[k + o - 1] == l[k - 1 + o - 1];
      } else {
        var m := k - 1 - |pl|;
        assert ps[k] == pr[m];
        assert WiredAt(r, mid, pr, m, i);
        var o := ChildOffset(pr[m], i);
        assert ps[k + o] == pr[m + o];
        assert es[k + o - 1] == r[m + o - 1];
      }
    }
  }

  lemma NotWired(f: Formula, base: nat)
    requires f.Not?
    requires Wired(ExportTree(f.child, base + 1).edges, base + 1, Preorder(f.child))
    ensures Wired(ExportTree(f, base).edges, base, Preorder(f))
  {
    WiredOne(ExportTree(f, base).edges, Preorder(f), f, base, ExportTree(f.child, base + 1).edges, Preorder(f.child));
  }

  lemma BinWired(f: Formula, base: nat, mid: nat)
    requires f.Bin? && mid == base + 1 + Size(f.left)
    requires Wired(ExportTree(f.left, base + 1).edges, base + 1, Preorder(f.left))
    requires Wired(ExportTree(f.right, mid).edges, mid, Preorder(f.right))
    ensures Wired(ExportTree(f, base).edges, base, Preorder(f))
  {
    var l, pl := ExportTree(f.left, base + 1).edges, Preorder(f.left);
    var r, pr := ExportTree(f.right, mid).edges, Preorder(f.right);
    var es, ps := ExportTree(f, base).edges, Preorder(f);
    assert es == [Edge(base, base + 1)] + l + [Edge(base, mid)] + r by { BinTreeEdges(f, base); }
    assert ps == [f] + pl + pr by { PreorderBin(f); }
    WiredTwo(es, ps, f, base, l, pl, r, pr, mid);
  }

  /** Edges: for every node and every child of it, the edge that enters the
      child's root leaves that node, as the export loop draws one edge from
      each node to each of its children. */
  lemma {:induction false} ExportWiring(f: Formula, base: nat)
    ensures Wired(ExportTree(f, base).edges, base, Preorder(f))
  {
    match f
    case Var(_) =>
    case Const(_) =>
    case Not(_) =>
      ExportWiring(f.child, base + 1);
      NotWired(f, base);
    case Bin(_, _, _) =>
      var mid := base + 1 + Size(f.left);
      ExportWiring(f.left, base + 1);
      ExportWiring(f.right, mid);
      BinWired(f, base, mid);
  }

  /** For `(p o q) ^ r` the export draws the edge to `r` from the root:
      the edges are 0→1, 1→2, 1→3, 0→4, and an edge list that instead
      draws 1→4 is not wired to that tree. */
  lemma WiringSample()
    ensures ExportTree(Bin(AND, Bin(OR, Var('p'), Var('q')), Var('r')), 0).edges ==
            [Edge(0, 1), Edge(1, 2), Edge(1, 3), Edge(0, 4)]
    ensures !Wired([Edge(0, 1), Edge(0, 2), Edge(1, 3), Edge(1, 4)], 0,
                   Preorder(Bin(AND, Bin(OR, Var('p'), Var('q')), Var('r'))))
  {
    var f := Bin(AND, Bin(OR, Var('p'), Var('q')), Var('r'));
    ChildOffsets(f);
    assert !WiredAt([Edge(0, 1), Edge(0, 2), Edge(1, 3), Edge(1, 4)], 0, Preorder(f), 0, 1);
  }
}
