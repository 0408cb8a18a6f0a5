/** The shape the search keeps its arena in: a tree rooted at `root` whose
    parent links mirror the child edges, whose ids grow away from the root,
    whose positions follow from the moves on the edges, and whose counters
    satisfy `wins <= games` and "a node's playouts are its edges' playouts". */
module TreeInvariant {
  import opened Util
  import opened GameContract
  import opened Tree
  import opened Arena

  /** Edge `i` of node `x` leads to a stored node that points back to `x`,
      has a larger id, and holds the position the edge's move produces. */
  ghost predicate EdgeLinked<G, M, P>(ops: GameOps<G, M, P>, ns: Nodes<G, M, P>, x: NodeId, i: int)
    requires x in ns && 0 <= i < |ns[x].children|
  {
    var (mv, e) := ns[x].children[i];
    && e.node in ns
    && x < e.node
    && ns[e.node].parent == Some(x)
    && ops.makeMove(ns[x].game, mv) == Some(ns[e.node].game)
  }

  ghost predicate NodeLinked<G, M, P>(ops: GameOps<G, M, P>, ns: Nodes<G, M, P>, x: NodeId)
    requires x in ns
  {
    && ops.valid(ns[x].game)
    && ns[x].player == ops.curPlayer(ns[x].game)
    && KeysDistinct(ns[x].children)
    && forall i :: 0 <= i < |ns[x].children| ==> EdgeLinked(ops, ns, x, i)
  }

  /** A non-root node's parent is stored and lists it as a child. */
  ghost predicate ParentListed<G, M, P>(ns: Nodes<G, M, P>, x: NodeId)
    requires x in ns
  {
    && ns[x].parent.Some?
    && ns[x].parent.value in ns
    && x in Kids(ns[ns[x].parent.value].children)
  }

  ghost predicate Linked<G, M, P>(ops: GameOps<G, M, P>, l: NodeList<G, M, P>, root: NodeId)
  {
    && IdsIssued(l)
    && root in l.nodes
    && l.nodes[root].parent == None
    && (forall x :: x in l.nodes ==> NodeLinked(ops, l.nodes, x))
    && (forall x :: x in l.nodes && x != root ==> ParentListed(l.nodes, x))
  }

  ghost predicate EdgeStatsOk(e: Edge)
  {
    e.wins <= e.games && (e.games == 0 <==> e.uct == Inf)
  }

  ghost predicate NodeStatsOk<G, M, P>(n: Node<G, M, P>)
  {
    && n.games == SumGames(n.children)
    && forall i :: 0 <= i < |n.children| ==> EdgeStatsOk(n.children[i].1)
  }

  ghost predicate StatsOk<G, M, P>(l: NodeList<G, M, P>)
  {
    forall x :: x in l.nodes ==> NodeStatsOk(l.nodes[x])
  }

  ghost predicate Valid<G, M, P>(ops: GameOps<G, M, P>, l: NodeList<G, M, P>, root: NodeId)
  {
    Linked(ops, l, root) && StatsOk(l)
  }

  /** Two arenas that differ only in counters and scores. */
  ghost predicate SameShape<G, M, P>(a: NodeList<G, M, P>, b: NodeList<G, M, P>)
  {
    a.nextId == b.nextId && a.nodes.Keys == b.nodes.Keys && Shape(a) == Shape(b)
  }

  /** Every node's skeleton, by id. */
  function Shape<G, M, P>(l: NodeList<G, M, P>): map<NodeId, (G, P, Option<NodeId>, seq<(M, NodeId)>)>
  {
    map x | x in l.nodes :: Skeleton(l.nodes[x])
  }

  /** Same shape, node by node. */
  lemma ShapeAt<G, M, P>(a: NodeList<G, M, P>, b: NodeList<G, M, P>, x: NodeId)
    requires SameShape(a, b) && x in a.nodes
    ensures x in b.nodes && NodeSameShape(a.nodes[x], b.nodes[x])
  {
    assert x in Shape(a);
  }

  /** Replacing one node by one of the same skeleton keeps the shape. */
  lemma ShapeUpdate<G, M, P>(l: NodeList<G, M, P>, x: NodeId, n: Node<G, M, P>)
    requires x in l.nodes && NodeSameShape(l.nodes[x], n)
    ensures SameShape(l, NodeList(l.nodes[x := n], l.nextId))
  {
    var r := NodeList(l.nodes[x := n], l.nextId);
    assert Shape(r).Keys == Shape(l).Keys;
    forall y | y in Shape(l) ensures Shape(r)[y] == Shape(l)[y] {
      if y != x {
        assert r.nodes[y] == l.nodes[y];
      }
    }
  }

  /** What backpropagation must not change about a node. */
  function Skeleton<G, M, P>(n: Node<G, M, P>): (G, P, Option<NodeId>, seq<(M, NodeId)>)
  {
    (n.game, n.player, n.parent, seq(|n.children|, i requires 0 <= i < |n.children| => (n.children[i].0, n.children[i].1.node)))
  }

  ghost predicate NodeSameShape<G, M, P>(n: Node<G, M, P>, n': Node<G, M, P>)
  {
    Skeleton(n) == Skeleton(n')
  }

  /** Equal skeletons, field by field. */
  lemma SkeletonParts<G, M, P>(n: Node<G, M, P>, n': Node<G, M, P>)
    requires NodeSameShape(n, n')
    ensures n.game == n'.game && n.player == n'.player && n.parent == n'.parent
    ensures |n.children| == |n'.children|
    ensures forall i :: 0 <= i < |n.children| ==>
      n.children[i].0 == n'.children[i].0 && n.children[i].1.node == n'.children[i].1.node
  {
    var s, s' := Skeleton(n).3, Skeleton(n').3;
    assert |s| == |n.children| && |s'| == |n'.children|;
    forall i | 0 <= i < |n.children|
      ensures n.children[i].0 == n'.children[i].0 && n.children[i].1.node == n'.children[i].1.node
    {
      assert s[i] == s'[i];
    }
  }

  lemma SkeletonIntro<G, M, P>(n: Node<G, M, P>, n': Node<G, M, P>)
    requires n.game == n'.game && n.player == n'.player && n.parent == n'.parent
    requires |n.children| == |n'.children|
    requires forall i :: 0 <= i < |n.children| ==>
      n.children[i].0 == n'.children[i].0 && n.children[i].1.node == n'.children[i].1.node
    ensures NodeSameShape(n, n')
  {
    var s, s' := Skeleton(n).3, Skeleton(n').3;
    assert s == s' by {
      assert |s| == |s'|;
      forall i | 0 <= i < |s| ensures s[i] == s'[i] { }
    }
  }

  lemma KidsSameShape<G, M, P>(n: Node<G, M, P>, n': Node<G, M, P>)
    requires NodeSameShape(n, n')
    ensures Kids(n.children) == Kids(n'.children)
  {
    SkeletonParts(n, n');
  }

  /** Counter and score updates cannot break the tree's links. */
  lemma LinkedSameShape<G, M, P>(ops: GameOps<G, M, P>, a: NodeList<G, M, P>, b: NodeList<G, M, P>, root: NodeId)
    requires Linked(ops, a, root) && SameShape(a, b)
    ensures Linked(ops, b, root)
  {
    forall x | x in b.nodes
      ensures NodeLinked(ops, b.nodes, x)
    {
      NodeLinkedSameShape(ops, a, b, x);
    }
    forall x | x in b.nodes && x != root
      ensures ParentListed(b.nodes, x)
    {
      ParentListedSameShape(a, b, x);
    }
    ShapeAt(a, b, root);
    SkeletonParts(a.nodes[root], b.nodes[root]);
  }

  lemma NodeLinkedSameShape<G, M, P>(ops: GameOps<G, M, P>, a: NodeList<G, M, P>, b: NodeList<G, M, P>, x: NodeId)
    requires SameShape(a, b) && x in a.nodes && NodeLinked(ops, a.nodes, x)
    ensures x in b.nodes && NodeLinked(ops, b.nodes, x)
  {
    ShapeAt(a, b, x);
    SkeletonParts(a.nodes[x], b.nodes[x]);
    forall i | 0 <= i < |b.nodes[x].children|
      ensures EdgeLinked(ops, b.nodes, x, i)
    {
      EdgeLinkedSameShape(ops, a, b, x, i);
    }
  }

  lemma EdgeLinkedSameShape<G, M, P>(ops: GameOps<G, M, P>, a: NodeList<G, M, P>, b: NodeList<G, M, P>, x: NodeId, i: nat)
    requires SameShape(a, b) && x in a.nodes && NodeLinked(ops, a.nodes, x) && i < |a.nodes[x].children|
    ensures x in b.nodes && i < |b.nodes[x].children| && EdgeLinked(ops, b.nodes, x, i)
  {
    assert EdgeLinked(ops, a.nodes, x, i);
    ShapeAt(a, b, x);
    SkeletonParts(a.nodes[x], b.nodes[x]);
    var y := a.nodes[x].children[i].1.node;
    ShapeAt(a, b, y);
    SkeletonParts(a.nodes[y], b.nodes[y]);
  }

  lemma ParentListedSameShape<G, M, P>(a: NodeList<G, M, P>, b: NodeList<G, M, P>, x: NodeId)
    requires SameShape(a, b) && x in a.nodes && ParentListed(a.nodes, x)
    ensures x in b.nodes && ParentListed(b.nodes, x)
  {
    ShapeAt(a, b, x);
    SkeletonParts(a.nodes[x], b.nodes[x]);
    var p := a.nodes[x].parent.value;
    ShapeAt(a, b, p);
    KidsSameShape(a.nodes[p], b.nodes[p]);
  }

  // ---------------------------------------------------------------------
  // Paths in a linked arena

  lemma KidsParent<G, M, P>(ops: GameOps<G, M, P>, l: NodeList<G, M, P>, root: NodeId, x: NodeId, y: NodeId)
    requires Linked(ops, l, root) && x in l.nodes && y in Kids(l.nodes[x].children)
    ensures y in l.nodes && x < y && l.nodes[y].parent == Some(x)
  {
    var cs := l.nodes[x].children;
    var i :| 0 <= i < |cs| && Kids(cs)[i] == y;
    assert NodeLinked(ops, l.nodes, x);
    assert EdgeLinked(ops, l.nodes, x, i);
  }

  lemma PathPrefix<G, M, P>(ns: Nodes<G, M, P>, p: seq<NodeId>, k: nat, except: Option<NodeId>)
    requires IsPath(ns, p, except) && 0 < k <= |p|
    ensures IsPath(ns, p[..k], except)
  {
    var q := p[..k];
    forall i | 0 < i < |q|
      ensures Step(ns, q[i - 1], q[i], except)
    {
      assert Step(ns, p[i - 1], p[i], except);
    }
  }

  lemma PathSuffix<G, M, P>(ns: Nodes<G, M, P>, p: seq<NodeId>, k: nat, except: Option<NodeId>)
    requires IsPath(ns, p, except) && k < |p|
    ensures IsPath(ns, p[k..], except)
  {
    var q := p[k..];
    forall i | 0 < i < |q|
      ensures Step(ns, q[i - 1], q[i], except)
    {
      assert Step(ns, p[k + i - 1], p[k + i], except);
    }
  }

  lemma PathSnoc<G, M, P>(ns: Nodes<G, M, P>, p: seq<NodeId>, y: NodeId, except: Option<NodeId>)
    requires IsPath(ns, p, except) && y in ns && Step(ns, p[|p| - 1], y, except)
    ensures IsPath(ns, p + [y], except)
  {
    var q := p + [y];
    forall i | 0 < i < |q|
      ensures Step(ns, q[i - 1], q[i], except)
    {
      if i < |p| {
        assert Step(ns, p[i - 1], p[i], except);
      }
    }
  }

  /** Dropping the exclusion keeps a path a path. */
  lemma PathForget<G, M, P>(ns: Nodes<G, M, P>, p: seq<NodeId>, except: Option<NodeId>)
    requires IsPath(ns, p, except)
    ensures IsPath(ns, p, None)
  {
    forall i | 0 < i < |p|
      ensures Step(ns, p[i - 1], p[i], None)
    {
      assert Step(ns, p[i - 1], p[i], except);
    }
  }

  /** Where every edge points back, ids strictly increase along a path. */
  lemma {:induction false} PathIdsGrow<G, M, P>(ns: Nodes<G, M, P>, p: seq<NodeId>, except: Option<NodeId>, i: nat, j: nat)
    requires PointsBack(ns) && IsPath(ns, p, except)
    requires i < j < |p|
    ensures p[i] < p[j]
    decreases j - i
  {
    PathStepAt(ns, p, j, except);
    if i < j - 1 {
      PathIdsGrow(ns, p, except, i, j - 1);
    }
  }

  /** Parent links determine paths backwards: of two paths that end at the
      same node, the shorter is a suffix of the longer. */
  lemma PathsConverge<G, M, P>(ops: GameOps<G, M, P>, l: NodeList<G, M, P>, root: NodeId,
                               p: seq<NodeId>, q: seq<NodeId>)
    requires Linked(ops, l, root)
    requires IsPath(l.nodes, p, None) && IsPath(l.nodes, q, None)
    requires |p| <= |q| && p[|p| - 1] == q[|q| - 1]
    ensures p == q[|q| - |p|..]
  {
    LinkedPointsBack(ops, l, root);
    PathsSuffix(l.nodes, p, q);
  }

  lemma PathsSuffix<G, M, P>(ns: Nodes<G, M, P>, p: seq<NodeId>, q: seq<NodeId>)
    requires PointsBack(ns) && IsPath(ns, p, None) && IsPath(ns, q, None)
    requires |p| <= |q| && p[|p| - 1] == q[|q| - 1]
    ensures p == q[|q| - |p|..]
  {
    forall i | 0 <= i < |p|
      ensures p[i] == q[|q| - |p| + i]
    {
      PathsAgreeFromEnd(ns, p, q, |p| - 1 - i);
    }
  }

  /** Every child is stored, has a larger id and names its parent. */
  ghost predicate PointsBack<G, M, P>(ns: Nodes<G, M, P>)
  {
    forall x, z :: x in ns && z in Kids(ns[x].children) ==> z in ns && x < z && ns[z].parent == Some(x)
  }

  lemma LinkedPointsBack<G, M, P>(ops: GameOps<G, M, P>, l: NodeList<G, M, P>, root: NodeId)
    requires Linked(ops, l, root)
    ensures PointsBack(l.nodes)
  {
    forall x | x in l.nodes
      ensures forall z :: z in Kids(l.nodes[x].children) ==> z in l.nodes && x < z && l.nodes[z].parent == Some(x)
    {
      NodePointsBack(ops, l.nodes, x);
    }
  }

  lemma NodePointsBack<G, M, P>(ops: GameOps<G, M, P>, ns: Nodes<G, M, P>, x: NodeId)
    requires x in ns && NodeLinked(ops, ns, x)
    ensures forall z :: z in Kids(ns[x].children) ==> z in ns && x < z && ns[z].parent == Some(x)
  {
    var cs := ns[x].children;
    forall z | z in Kids(cs)
      ensures z in ns && x < z && ns[z].parent == Some(x)
    {
      var i :| 0 <= i < |cs| && Kids(cs)[i] == z;
      assert EdgeLinked(ops, ns, x, i);
    }
  }

  /** The two paths agree `j` steps back from their common end. */
  lemma {:induction false} PathsAgreeFromEnd<G, M, P>(ns: Nodes<G, M, P>, p: seq<NodeId>, q: seq<NodeId>, j: nat)
    requires PointsBack(ns) && IsPath(ns, p, None) && IsPath(ns, q, None)
    requires j < |p| <= |q| && p[|p| - 1] == q[|q| - 1]
    ensures p[|p| - 1 - j] == q[|q| - 1 - j]
    decreases j
  {
    if j > 0 {
      PathsAgreeFromEnd(ns, p, q, j - 1);
      var a, c := |p| - j, |q| - j;
      PathStepAt(ns, p, a, None);
      PathStepAt(ns, q, c, None);
      SameParent(ns, p[a - 1], q[c - 1], p[a]);
    }
  }

  lemma PathStepAt<G, M, P>(ns: Nodes<G, M, P>, p: seq<NodeId>, i: nat, except: Option<NodeId>)
    requires IsPath(ns, p, except) && 0 < i < |p|
    ensures Step(ns, p[i - 1], p[i], except)
  {
  }

  /** Two nodes with a common child are the same node. */
  lemma SameParent<G, M, P>(ns: Nodes<G, M, P>, x: NodeId, x': NodeId, z: NodeId)
    requires PointsBack(ns) && Step(ns, x, z, None) && Step(ns, x', z, None)
    ensures x == x'
  {
  }

  /** Every stored node hangs below the root. */
  lemma {:induction false} AllReachable<G, M, P>(ops: GameOps<G, M, P>, l: NodeList<G, M, P>, root: NodeId, x: NodeId)
    requires Linked(ops, l, root) && x in l.nodes
    ensures Reaches(l.nodes, root, x, None)
    decreases x
  {
    if x == root {
      assert IsPath(l.nodes, [root], None);
    } else {
      assert ParentListed(l.nodes, x);
      var y := l.nodes[x].parent.value;
      KidsParent(ops, l, root, y, x);
      AllReachable(ops, l, root, y);
      var p :| IsPath(l.nodes, p, None) && p[0] == root && p[|p| - 1] == y;
      PathSnoc(l.nodes, p, x, None);
      assert (p + [x])[0] == root;
    }
  }

  /** The root is never the target of an edge. */
  lemma RootNotChild<G, M, P>(ops: GameOps<G, M, P>, l: NodeList<G, M, P>, root: NodeId, x: NodeId)
    requires Linked(ops, l, root) && x in l.nodes
    ensures root !in Kids(l.nodes[x].children)
  {
    if root in Kids(l.nodes[x].children) {
      KidsParent(ops, l, root, x, root);
    }
  }
}
