/** Exporting a syntax tree as a directed graph: one node per tree node,
    labelled with the node's value, and one edge from each node to each of its
    children. Nodes are numbered by a counter in the order they are emitted,
    which is pre-order (a node, then its children left to right, each with its
    whole subtree). */
module Export {
  import opened Tokens
  import opened Ast

  datatype GraphNode = GraphNode(id: nat, text: string)
  datatype Edge = Edge(parent: nat, child: nat)
  datatype Graph = Graph(nodes: seq<GraphNode>, edges: seq<Edge>)

  /** The graph of `f` when its root gets number `base`, in pre-order: the
      root, then for each child the edge to it followed by the child's own
      graph, numbered on from where the previous child stopped. */
  function ExportTree(f: Formula, base: nat): (g: Graph)
    ensures |g.nodes| == Size(f) && |g.edges| == Size(f) - 1
  {
    var root := GraphNode(base, Label(f));
    match f
    case Var(_) => Graph([root], [])
    case Const(_) => Graph([root], [])
    case Not(c) =>
      var gc := ExportTree(c, base + 1);
      Graph([root] + gc.nodes, [Edge(base, base + 1)] + gc.edges)
    case Bin(_, l, r) =>
      var gl, gr := ExportTree(l, base + 1), ExportTree(r, base + 1 + Size(l));
      Graph([root] + gl.nodes + gr.nodes,
            [Edge(base, base + 1)] + gl.edges + [Edge(base, base + 1 + Size(l))] + gr.edges)
  }

  /** The graphs of the children `cs` of node `parent`, the first one rooted
      at `base`, each preceded by the edge from `parent` to its root: what
      the export loop has emitted after a prefix of the children. Each child
      brings one edge more than its own graph, so the forest has as many
      edges as nodes. */
  function ExportForest(cs: seq<Formula>, parent: nat, base: nat): (g: Graph)
    ensures |g.edges| == |g.nodes|
    decreases |cs|
  {
    if cs == [] then Graph([], [])
    else
      var init := ExportForest(cs[..|cs| - 1], parent, base);
      var root := base + |init.nodes|;
      var last := ExportTree(cs[|cs| - 1], root);
      Graph(init.nodes + last.nodes, init.edges + [Edge(parent, root)] + last.edges)
  }

  /** The export of a connective: its node, the edge to the left operand and
      the left operand's graph, then the edge to the right operand and the
      right operand's graph, numbered on from where the left one stopped. */
  lemma BinTreeNodes(f: Formula, base: nat)
    requires f.Bin?
    ensures ExportTree(f, base).nodes ==
            [GraphNode(base, Label(f))] + ExportTree(f.left, base + 1).nodes +
            ExportTree(f.right, base + 1 + Size(f.left)).nodes
  {
  }

  lemma BinTreeEdges(f: Formula, base: nat)
    requires f.Bin?
    ensures ExportTree(f, base).edges ==
            [Edge(base, base + 1)] + ExportTree(f.left, base + 1).edges +
            [Edge(base, base + 1 + Size(f.left))] + ExportTree(f.right, base + 1 + Size(f.left)).edges
  {
  }

  /** The loop over a node's children emits exactly the pre-order graph: the
      node, then the forest of its children numbered from the next number. */
  lemma TreeForest(f: Formula, base: nat)
    ensures ExportTree(f, base).nodes ==
            [GraphNode(base, Label(f))] + ExportForest(Children(f), base, base + 1).nodes
    ensures ExportTree(f, base).edges == ExportForest(Children(f), base, base + 1).edges
  {
    var root := [GraphNode(base, Label(f))];
    match f
    case Var(_) =>
      assert root + [] == root;
    case Const(_) =>
      assert root + [] == root;
    case Not(c) =>
      assert Children(f) == [c];
      ForestOfOne(c, base, base + 1);
    case Bin(_, _, _) =>
      BinForestNodes(f, base);
      BinForestEdges(f, base);
  }

  lemma BinForestNodes(f: Formula, base: nat)
    requires f.Bin?
    ensures ExportTree(f, base).nodes ==
            [GraphNode(base, Label(f))] + ExportForest(Children(f), base, base + 1).nodes
  {
    var l, r := f.left, f.right;
    var mid := base + 1 + Size(l);
    var root := [GraphNode(base, Label(f))];
    var gl, gr := ExportTree(l, base + 1).nodes, ExportTree(r, mid).nodes;
    ForestOfTwo(l, r, base, base + 1, mid);
    assert ExportForest([l, r], base, base + 1).nodes == gl + gr;
    Regroup(root, gl, gr);
    assert root + (gl + gr) == root + gl + gr;
    BinTreeNodes(f, base);
    assert ExportTree(f, base).nodes == root + gl + gr;
    assert Children(f) == [l, r];
  }

  lemma BinForestEdges(f: Formula, base: nat)
    requires f.Bin?
    ensures ExportTree(f, base).edges == ExportForest(Children(f), base, base + 1).edges
  {
    var l, r := f.left, f.right;
    var mid := base + 1 + Size(l);
    var gl, gr := ExportTree(l, base + 1).edges, ExportTree(r, mid).edges;
    var e0, e1 := [Edge(base, base + 1)], [Edge(base, mid)];
    assert Children(f) == [l, r];
    BinTreeEdges(f, base);
    assert ExportTree(f, base).edges == e0 + gl + e1 + gr;
    ForestOfTwo(l, r, base, base + 1, mid);
    assert ExportForest([l, r], base, base + 1).edges == e0 + gl + e1 + gr;
  }

  lemma ForestOfOne(c: Formula, parent: nat, base: nat)
    ensures ExportForest([c], parent, base).nodes == ExportTree(c, base).nodes
    ensures ExportForest([c], parent, base).edges == [Edge(parent, base)] + ExportTree(c, base).edges
  {
    var t := ExportTree(c, base);
    assert [c][..0] == [];
    assert ExportForest([c][..0], parent, base) == Graph([], []);
    assert [] + t.nodes == t.nodes;
    assert [] + [Edge(parent, base)] + t.edges == [Edge(parent, base)] + t.edges;
  }

  /** The forest of two children, the second rooted at `mid`. */
  lemma ForestOfTwo(l: Formula, r: Formula, parent: nat, base: nat, mid: nat)
    requires mid == base + Size(l)
    ensures ExportForest([l, r], parent, base).nodes ==
            ExportTree(l, base).nodes + ExportTree(r, mid).nodes
    ensures ExportForest([l, r], parent, base).edges ==
            [Edge(parent, base)] + ExportTree(l, base).edges + [Edge(parent, mid)] + ExportTree(r, mid).edges
  {
    var cs := [l, r];
    var one, tr := ExportForest([l], parent, base), ExportTree(r, mid);
    assert cs[..1] == [l] && cs[1] == r;
    ForestOfOne(l, parent, base);
    assert ExportForest(cs, parent, base) == Graph(one.nodes + tr.nodes, one.edges + [Edge(parent, mid)] + tr.edges);
  }

  /** The nodes of `g` are numbered consecutively from `base`; edge `j`
      enters node `base + 1 + j` and leaves a node numbered before it. */
  predicate TreeNumbered(g: Graph, base: nat) {
    (forall k :: 0 <= k < |g.nodes| ==> g.nodes[k].id == base + k) &&
    (forall j :: 0 <= j < |g.edges| ==> g.edges[j].child == base + 1 + j) &&
    (forall j :: 0 <= j < |g.edges| ==> base <= g.edges[j].parent < g.edges[j].child)
  }

  lemma NotNumbered(f: Formula, base: nat)
    requires f.Not? && TreeNumbered(ExportTree(f.child, base + 1), base + 1)
    ensures TreeNumbered(ExportTree(f, base), base)
  {
    var gc := ExportTree(f.child, base + 1);
    var g := ExportTree(f, base);
    forall k | 0 < k < |g.nodes|
      ensures g.nodes[k].id == base + k
    {
      assert g.nodes[k] == gc.nodes[k - 1];
    }
    forall j | 0 < j < |g.edges|
      ensures g.edges[j].child == base + 1 + j && base <= g.edges[j].parent < g.edges[j].child
    {
      assert g.edges[j] == gc.edges[j - 1];
    }
  }

  lemma BinNumbered(f: Formula, base: nat)
    requires f.Bin? && TreeNumbered(ExportTree(f.left, base + 1), base + 1)
    requires TreeNumbered(ExportTree(f.right, base + 1 + Size(f.left)), base + 1 + Size(f.left))
    ensures TreeNumbered(ExportTree(f, base), base)
  {
    var mid := base + 1 + Size(f.left);
    var gl, gr := ExportTree(f.left, base + 1), ExportTree(f.right, mid);
    var g := ExportTree(f, base);
    assert g.nodes == [g.nodes[0]] + gl.nodes + gr.nodes;
    forall k | 0 < k < |g.nodes|
      ensures g.nodes[k].id == base + k
    {
      if k <= |gl.nodes| {
        assert g.nodes[k] == gl.nodes[k - 1];
      } else {
        assert g.nodes[k] == gr.nodes[k - 1 - |gl.nodes|];
      }
    }
    var e0, e1 := [Edge(base, base + 1)], [Edge(base, mid)];
    assert g.edges == e0 + gl.edges + e1 + gr.edges;
    forall j | 0 < j < |g.edges|
      ensures g.edges[j].child == base + 1 + j && base <= g.edges[j].parent < g.edges[j].child
    {
      if j <= |gl.edges| {
        assert g.edges[j] == gl.edges[j - 1];
      } else if j > |gl.edges| + 1 {
        assert g.edges[j] == gr.edges[j - 2 - |gl.edges|];
      }
    }
  }

  /** Numbering: the counter gives the nodes consecutive numbers in emission
      order, every node but the root is entered by exactly one edge, and
      every edge goes from an earlier node to a later one. */
  lemma {:induction false} TreeNumbering(f: Formula, base: nat)
    ensures TreeNumbered(ExportTree(f, base), base)
  {
    match f
    case Var(_) =>
    case Const(_) =>
    case Not(c) =>
      TreeNumbering(c, base + 1);
      NotNumbered(f, base);
    case Bin(_, l, r) =>
      TreeNumbering(l, base + 1);
      TreeNumbering(r, base + 1 + Size(l));
      BinNumbered(f, base);
  }

  /** The forest of one more child: the forest so far, the edge to the new
      child's root, and the child's graph. */
  lemma ForestStep(cs: seq<Formula>, i: nat, parent: nat, base: nat, root: nat)
    requires i < |cs|
    requires root == base + |ExportForest(cs[..i], parent, base).nodes|
    ensures ExportForest(cs[..i + 1], parent, base) ==
            Graph(ExportForest(cs[..i], parent, base).nodes + ExportTree(cs[i], root).nodes,
                  ExportForest(cs[..i], parent, base).edges + [Edge(parent, root)] + ExportTree(cs[i], root).edges)
  {
    var c := cs[..i + 1];
    assert c[..|c| - 1] == cs[..i] && c[|c| - 1] == cs[i];
  }

  lemma Regroup<T>(a: seq<T>, b: seq<T>, c: seq<T>)
    ensures (a + b) + c == a + (b + c)
  {
  }

  /** One turn of the export loop over the children of node `id`, for the
      nodes: the child's subtree extends the nodes of the first `i` children
      to those of the first `i + 1`. */
  lemma ChildNodes(cs: seq<Formula>, i: nat, id: nat, nodes0: seq<GraphNode>, nodesPrev: seq<GraphNode>)
    requires i < |cs| && |nodes0| == id + 1
    requires nodesPrev == nodes0 + ExportForest(cs[..i], id, id + 1).nodes
    ensures nodesPrev + ExportTree(cs[i], |nodesPrev|).nodes == nodes0 + ExportForest(cs[..i + 1], id, id + 1).nodes
  {
    var before := ExportForest(cs[..i], id, id + 1);
    var tree := ExportTree(cs[i], |nodesPrev|);
    ForestStep(cs, i, id, id + 1, |nodesPrev|);
    Regroup(nodes0, before.nodes, tree.nodes);
  }

  /** The same turn for the edges: the edge to child `i` and the child's
      subtree extend the edges of the first `i` children. */
  lemma ChildEdges(cs: seq<Formula>, i: nat, id: nat, nodes0: seq<GraphNode>, nodesPrev: seq<GraphNode>, edges0: seq<Edge>)
    requires i < |cs| && |nodes0| == id + 1
    requires nodesPrev == nodes0 + ExportForest(cs[..i], id, id + 1).nodes
    ensures edges0 + ExportForest(cs[..i], id, id + 1).edges + [Edge(id, |nodesPrev|)] + ExportTree(cs[i], |nodesPrev|).edges
            == edges0 + ExportForest(cs[..i + 1], id, id + 1).edges
  {
    var before := ExportForest(cs[..i], id, id + 1);
    var e := [Edge(id, |nodesPrev|)];
    var tree := ExportTree(cs[i], |nodesPrev|);
    ForestStep(cs, i, id, id + 1, |nodesPrev|);
    Regroup(edges0, before.edges, e);
    Regroup(edges0, before.edges + e, tree.edges);
  }

  /** The graph being built: the nodes and edges emitted so far. */
  class SyntaxGraph {
    var nodes: seq<GraphNode>
    var edges: seq<Edge>

    constructor ()
      ensures nodes == [] && edges == []
    {
      nodes := [];
      edges := [];
    }

    /** Emits `f`'s node under the next free number, then, child by child,
        the edge to the child and the child's subtree. */
    method AddTree(f: Formula)
      modifies this
      ensures nodes == old(nodes) + ExportTree(f, |old(nodes)|).nodes
      ensures edges == old(edges) + ExportTree(f, |old(nodes)|).edges
      decreases Size(f)
    {
      var id := |nodes|;
      nodes := nodes + [GraphNode(id, Label(f))];
      ghost var nodes0, edges0 := nodes, edges;
      var cs := Children(f);
      var i := 0;
      while i < |cs|
        invariant 0 <= i <= |cs|
        invariant nodes == nodes0 + ExportForest(cs[..i], id, id + 1).nodes
        invariant edges == edges0 + ExportForest(cs[..i], id, id + 1).edges
      {
        ghost var nodesPrev := nodes;
        edges := edges + [Edge(id, |nodes|)];
        AddTree(cs[i]);
        ChildNodes(cs, i, id, nodes0, nodesPrev);
        ChildEdges(cs, i, id, nodes0, nodesPrev, edges0);
        i := i + 1;
      }
      assert cs[..i] == cs;
      TreeForest(f, id);
      Regroup(old(nodes), [GraphNode(id, Label(f))], ExportForest(cs, id, id + 1).nodes);
    }
  }

  /** Exports the whole tree of `f` into a fresh graph, the root numbered 0. */
  method GenerateSyntaxTree(f: Formula) returns (nodes: seq<GraphNode>, edges: seq<Edge>)
    ensures nodes == ExportTree(f, 0).nodes && edges == ExportTree(f, 0).edges
    ensures |nodes| == Size(f) && |edges| == |nodes| - 1
  {
    var g := new SyntaxGraph();
    g.AddTree(f);
    nodes, edges := g.nodes, g.edges;
  }

  /** The nodes of `f` in pre-order: the node, then each child's subtree. */
  function Preorder(f: Formula): (ps: seq<Formula>)
    ensures |ps| == Size(f) && ps[0] == f
  {
    match f
    case Var(_) => [f]
    case Const(_) => [f]
    case Not(g) => [f] + Preorder(g)
    case Bin(_, l, r) => [f] + Preorder(l) + Preorder(r)
  }

  lemma PreorderBin(f: Formula)
    requires f.Bin?
    ensures Preorder(f) == [f] + Preorder(f.left) + Preorder(f.right)
  {
  }

  /** Node `k` of `ns` carries the label of tree node `ps[k]`, for every `k`. */
  predicate Labelled(ns: seq<GraphNode>, ps: seq<Formula>) {
    |ns| == |ps| && forall k :: 0 <= k < |ns| ==> ns[k].text == Label(ps[k])
  }

  lemma LabelledCat(a: seq<GraphNode>, pa: seq<Formula>, b: seq<GraphNode>, pb: seq<Formula>)
    requires Labelled(a, pa) && Labelled(b, pb)
    ensures Labelled(a + b, pa + pb)
  {
    forall k | |a| <= k < |a| + |b|
      ensures (a + b)[k].text == Label((pa + pb)[k])
    {
      assert (a + b)[k] == b[k - |a|] && (pa + pb)[k] == pb[k - |a|];
    }
  }

  lemma NotLabels(f: Formula, base: nat)
    requires f.Not?
    requires Labelled(ExportTree(f.child, base + 1).nodes, Preorder(f.child))
    ensures Labelled(ExportTree(f, base).nodes, Preorder(f))
  {
    var root := [GraphNode(base, Label(f))];
    LabelledCat(root, [f], ExportTree(f.child, base + 1).nodes, Preorder(f.child));
  }

  lemma BinLabels(f: Formula, base: nat)
    requires f.Bin?
    requires Labelled(ExportTree(f.left, base + 1).nodes, Preorder(f.left))
    requires Labelled(ExportTree(f.right, base + 1 + Size(f.left)).nodes, Preorder(f.right))
    ensures Labelled(ExportTree(f, base).nodes, Preorder(f))
  {
    PreorderBin(f);
    LabelledJoin(ExportTree(f, base).nodes, Preorder(f), GraphNode(base, Label(f)), f,
                 ExportTree(f.left, base + 1).nodes, Preorder(f.left),
                 ExportTree(f.right, base + 1 + Size(f.left)).nodes, Preorder(f.right));
  }

  /** A node labelled like tree node `y`, then two labelled runs. */
  lemma LabelledJoin(ns: seq<GraphNode>, ps: seq<Formula>, x: GraphNode, y: Formula,
                     b: seq<GraphNode>, pb: seq<Formula>, c: seq<GraphNode>, pc: seq<Formula>)
    requires x.text == Label(y) && Labelled(b, pb) && Labelled(c, pc)
    requires ns == [x] + b + c && ps == [y] + pb + pc
    ensures Labelled(ns, ps)
  {
    LabelledCat([x], [y], b, pb);
    LabelledCat([x] + b, [y] + pb, c, pc);
  }

  /** Labels: node `k` of the export carries the label of the `k`-th node of
      the tree in pre-order. */
  lemma {:induction false} ExportLabels(f: Formula, base: nat)
    ensures Labelled(ExportTree(f, base).nodes, Preorder(f))
  {
    match f
    case Var(_) =>
    case Const(_) =>
    case Not(c) =>
      ExportLabels(c, base + 1);
      NotLabels(f, base);
    case Bin(_, l, r) =>
      ExportLabels(l, base + 1);
      ExportLabels(r, base + 1 + Size(l));
      BinLabels(f, base);
  }

  /** The number of edges of `es` that leave node `p`. */
  function OutDegree(es: seq<Edge>, p: nat): nat {
    if es == [] then 0 else (if es[0].parent == p then 1 else 0) + OutDegree(es[1..], p)
  }

  lemma {:induction false} OutDegreeCat(a: seq<Edge>, b: seq<Edge>, p: nat)
    ensures OutDegree(a + b, p) == OutDegree(a, p) + OutDegree(b, p)
    decreases |a|
  {
    if a == [] {
      assert a + b == b;
    } else {
      assert (a + b)[1..] == a[1..] + b;
      OutDegreeCat(a[1..], b, p);
    }
  }

  lemma {:induction false} OutDegreeNone(es: seq<Edge>, p: nat)
    requires forall j :: 0 <= j < |es| ==> es[j].parent != p
    ensures OutDegree(es, p) == 0
    decreases |es|
  {
    if es != [] {
      OutDegreeNone(es[1..], p);
    }
  }

  /** Node `lo + k` has as many outgoing edges in `es` as tree node `ps[k]`
      has children, for every `k`. */
  predicate Degrees(es: seq<Edge>, lo: nat, ps: seq<Formula>) {
    forall k :: 0 <= k < |ps| ==> OutDegree(es, lo + k) == Arity(ps[k])
  }

  /** Every edge of `es` leaves a node numbered in `[lo, hi)`. */
  predicate ParentsIn(es: seq<Edge>, lo: nat, hi: nat) {
    forall j :: 0 <= j < |es| ==> lo <= es[j].parent < hi
  }

  /** The edges of a subtree's graph leave nodes of that subtree only. */
  lemma SubtreeParents(f: Formula, base: nat)
    ensures ParentsIn(ExportTree(f, base).edges, base, base + Size(f))
  {
    TreeNumbering(f, base);
  }

  lemma NoneOutside(es: seq<Edge>, lo: nat, hi: nat, p: nat)
    requires ParentsIn(es, lo, hi) && (p < lo || hi <= p)
    ensures OutDegree(es, p) == 0
  {
    OutDegreeNone(es, p);
  }

  /** Degrees of a node with one child: the edge to the child's root, then
      the child's edges. */
  lemma JoinOne(es: seq<Edge>, ps: seq<Formula>, root: Formula, base: nat, c: seq<Edge>, pc: seq<Formula>)
    requires Arity(root) == 1
    requires Degrees(c, base + 1, pc) && ParentsIn(c, base + 1, base + 1 + |pc|)
    requires es == [Edge(base, base + 1)] + c && ps == [root] + pc
    ensures Degrees(es, base, ps)
  {
    forall k | 0 <= k < |ps|
      ensures OutDegree([Edge(base, base + 1)] + c, base + k) == Arity(ps[k])
    {
      OutDegreeCat([Edge(base, base + 1)], c, base + k);
      assert OutDegree([Edge(base, base + 1)], base + k) == if k == 0 then 1 else 0;
      if k == 0 {
        NoneOutside(c, base + 1, base + 1 + |pc|, base);
      } else {
        assert ps[k] == pc[k - 1] && base + k == base + 1 + (k - 1);
      }
    }
  }

  /** Degrees of a node with two children: the edge to the left root, the
      left edges, the edge to the right root, the right edges. */
  lemma JoinTwo(es: seq<Edge>, ps: seq<Formula>, root: Formula, base: nat, mid: nat, hi: nat,
                l: seq<Edge>, pl: seq<Formula>, r: seq<Edge>, pr: seq<Formula>)
    requires Arity(root) == 2 && mid == base + 1 + |pl| && hi == mid + |pr|
    requires Degrees(l, base + 1, pl) && ParentsIn(l, base + 1, mid)
    requires Degrees(r, mid, pr) && ParentsIn(r, mid, hi)
    requires es == [Edge(base, base + 1)] + l + [Edge(base, mid)] + r && ps == [root] + pl + pr
    ensures Degrees(es, base, ps)
  {
    var e0, e1 := [Edge(base, base + 1)], [Edge(base, mid)];
    forall k | 0 <= k < |ps|
      ensures OutDegree(e0 + l + e1 + r, base + k) == Arity(ps[k])
    {
      var p := base + k;
      OutDegreeCat(e0 + l + e1, r, p);
      OutDegreeCat(e0 + l, e1, p);
      OutDegreeCat(e0, l, p);
      assert OutDegree(e0, p) == OutDegree(e1, p) == if k == 0 then 1 else 0;
      if k == 0 {
        NoneOutside(l, base + 1, mid, p);
        NoneOutside(r, mid, hi, p);
      } else if p < mid {
        NoneOutside(r, mid, hi, p);
        assert ps[k] == pl[k - 1] && p == base + 1 + (k - 1);
      } else {
        NoneOutside(l, base + 1, mid, p);
        assert ps[k] == pr[k - 1 - |pl|] && p == mid + (k - 1 - |pl|);
      }
    }
  }

  lemma NotDegrees(f: Formula, base: nat)
    requires f.Not?
    requires Degrees(ExportTree(f.child, base + 1).edges, base + 1, Preorder(f.child))
    ensures Degrees(ExportTree(f, base).edges, base, Preorder(f))
  {
    SubtreeParents(f.child, base + 1);
    JoinOne(ExportTree(f, base).edges, Preorder(f), f, base, ExportTree(f.child, base + 1).edges, Preorder(f.child));
  }

  lemma BinDegrees(f: Formula, base: nat)
    requires f.Bin?
    requires Degrees(ExportTree(f.left, base + 1).edges, base + 1, Preorder(f.left))
    requires Degrees(ExportTree(f.right, base + 1 + Size(f.left)).edges, base + 1 + Size(f.left), Preorder(f.right))
    ensures Degrees(ExportTree(f, base).edges, base, Preorder(f))
  {
    var mid := base + 1 + Size(f.left);
    var hi := mid + Size(f.right);
    var l, r := ExportTree(f.left, base + 1).edges, ExportTree(f.right, mid).edges;
    SubtreeParents(f.left, base + 1);
    SubtreeParents(f.right, mid);
    BinTreeEdges(f, base);
    PreorderBin(f);
    JoinTwo(ExportTree(f, base).edges, Preorder(f), f, base, mid, hi, l, Preorder(f.left), r, Preorder(f.right));
  }

  /** Edges: every node of the export has exactly one outgoing edge per
      child of the tree node it stands for. */
  lemma {:induction false} ExportDegrees(f: Formula, base: nat)
    ensures Degrees(ExportTree(f, base).edges, base, Preorder(f))
  {
    match f
    case Var(_) =>
    case Const(_) =>
    case Not(c) =>
      ExportDegrees(c, base + 1);
      NotDegrees(f, base);
    case Bin(_, l, r) =>
      ExportDegrees(l, base + 1);
      ExportDegrees(r, base + 1 + Size(l));
      BinDegrees(f, base);
  }
}
