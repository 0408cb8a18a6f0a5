/** The `MakeMove` request: the search tree is re-rooted at the node the
    move leads to (created on the spot if the move was never expanded), and
    everything outside the new root's subtree is dropped from the arena. */
module Rerooting {
  import opened Util
  import opened GameContract
  import opened Tree
  import opened Arena
  import opened TreeInvariant

  /** What the handler needs in order not to panic: the root is stored, and
      either the move has an edge whose target is stored, or the move is one
      the game accepts. */
  ghost predicate RerootDefined<G, M, P>(ops: GameOps<G, M, P>, l: NodeList<G, M, P>, root: NodeId, mv: M)
  {
    && root in l.nodes
    && var cs := l.nodes[root].children;
       match Find(cs, mv)
       case Some(i) => cs[i].1.node in l.nodes
       case None => ops.makeMove(l.nodes[root].game, mv).Some?
  }

  /** The handler: locate (or create) the new root, then prune the arena to
      its subtree. Returns the new arena and the new root's id. */
  function Reroot<G, M(==), P>(ops: GameOps<G, M, P>, l: NodeList<G, M, P>, root: NodeId, mv: M): (r: (NodeList<G, M, P>, NodeId))
    requires RerootDefined(ops, l, root, mv)
    ensures r.1 in r.0.nodes && r.0.nodes[r.1].parent == None
    ensures r.1 != root ==> root !in r.0.nodes
  {
    var (l3, id) := LocateNewRoot(ops, l, root, mv);
    (Prune(l3, root, id), id)
  }

  /** The first block of the handler: take the root out, look the move up
      among its edges (or add a fresh root-like node for the position the
      move produces), and put the root back. */
  function LocateNewRoot<G, M(==), P>(ops: GameOps<G, M, P>, l: NodeList<G, M, P>, root: NodeId, mv: M): (r: (NodeList<G, M, P>, NodeId))
    requires RerootDefined(ops, l, root, mv)
    ensures r.1 in r.0.nodes
  {
    var (l1, rt) := Take(l, root);
    var found := Find(rt.children, mv);
    var (l2, id) :=
      if found.Some? then (l1, rt.children[found.value].1.node)
      else Add(l1, NewRoot(ops, ops.makeMove(rt.game, mv).value));
    (Restore(l2, root, rt), id)
  }

  /** The second block: take the new root out, drop the old root with
      everything below it except the new root, and put the new root back
      without a parent. */
  function Prune<G, M, P>(l: NodeList<G, M, P>, root: NodeId, id: NodeId): (r: NodeList<G, M, P>)
    requires id in l.nodes
    ensures id in r.nodes && r.nodes[id].parent == None
    ensures id != root ==> root !in r.nodes
  {
    var (l4, newRt) := Take(l, id);
    var l5 := NodeList(DropNode(l4.nodes, root, id), l4.nextId);
    DropNodeSub(l4.nodes, root, id);
    Restore(l5, id, newRt.(parent := None))
  }

  // ---------------------------------------------------------------------
  // The move has an edge: the new tree is the edge target's subtree

  /** Re-rooting at an existing child keeps exactly the child's subtree,
      every kept node as it was (the new root loses its parent link), and
      the id counter; the new root holds the position the move produces. */
  lemma RerootToChild<G, M, P>(ops: GameOps<G, M, P>, l: NodeList<G, M, P>, root: NodeId, mv: M)
    requires Valid(ops, l, root) && Find(l.nodes[root].children, mv).Some?
    ensures RerootDefined(ops, l, root, mv)
    ensures var t := l.nodes[root].children[Find(l.nodes[root].children, mv).value].1.node;
            var r := Reroot(ops, l, root, mv);
      && r.1 == t
      && r.0.nextId == l.nextId
      && IsSubtree(l.nodes, t, r.0.nodes)
      && ops.makeMove(l.nodes[root].game, mv) == Some(r.0.nodes[t].game)
  {
    var cs := l.nodes[root].children;
    var i := Find(cs, mv).value;
    var t := cs[i].1.node;
    assert NodeLinked(ops, l.nodes, root);
    assert EdgeLinked(ops, l.nodes, root, i);
    assert Kids(cs)[i] == t;
    RerootEdgeShape(ops, l, root, mv);
    ChildSubtree(ops, l, root, t);
  }

  /** Unfolding the handler when the move has an edge to a stored node
      other than the root. */
  lemma RerootEdgeShape<G, M, P>(ops: GameOps<G, M, P>, l: NodeList<G, M, P>, root: NodeId, mv: M)
    requires root in l.nodes && Find(l.nodes[root].children, mv).Some?
    requires var t := l.nodes[root].children[Find(l.nodes[root].children, mv).value].1.node;
      t in l.nodes && t != root
    ensures RerootDefined(ops, l, root, mv)
    ensures var t := l.nodes[root].children[Find(l.nodes[root].children, mv).value].1.node;
      Reroot(ops, l, root, mv) ==
        (NodeList(DropNode(l.nodes - {t}, root, t)[t := l.nodes[t].(parent := None)], l.nextId), t)
  {
    TakeRestore(l, root);
    assert LocateNewRoot(ops, l, root, mv) == (l, l.nodes[root].children[Find(l.nodes[root].children, mv).value].1.node);
  }

  /** What the handler's `drop_node` leaves when `t` is a child of the root:
      the subtree below `t`. */
  lemma ChildSubtree<G, M, P>(ops: GameOps<G, M, P>, l: NodeList<G, M, P>, root: NodeId, t: NodeId)
    requires Linked(ops, l, root) && t in l.nodes && t in Kids(l.nodes[root].children)
    ensures IsSubtree(l.nodes, t, DropNode(l.nodes - {t}, root, t)[t := l.nodes[t].(parent := None)])
  {
    KidsParent(ops, l, root, root, t);
    var ns4 := l.nodes - {t};
    var dn := DropNode(ns4, root, t);
    forall z | z != t
      ensures z in dn <==> Reaches(l.nodes, t, z, None)
    {
      ChildSubtreeMember(ops, l, root, t, z);
    }
    ChildSubtreeMember(ops, l, root, t, t);
    DropNodeKeeps(ns4, root, t);
    IsSubtreeIntro(l.nodes, t, dn);
  }

  lemma IsSubtreeIntro<G, M, P>(ns: Nodes<G, M, P>, t: NodeId, dn: Nodes<G, M, P>)
    requires t in ns && Reaches(ns, t, t, None)
    requires forall z :: z != t ==> (z in dn <==> Reaches(ns, t, z, None))
    requires forall z :: z in dn ==> z in ns - {t} && dn[z] == (ns - {t})[z]
    ensures IsSubtree(ns, t, dn[t := ns[t].(parent := None)])
  {
  }

  lemma DropNodeKeeps<G, M, P>(ns: Nodes<G, M, P>, id: NodeId, except: NodeId)
    ensures forall z :: z in DropNode(ns, id, except) ==> z in ns && DropNode(ns, id, except)[z] == ns[z]
  {
    DropNodeExact(ns, id, except);
  }

  lemma ChildSubtreeMember<G, M, P>(ops: GameOps<G, M, P>, l: NodeList<G, M, P>, root: NodeId, t: NodeId, z: NodeId)
    requires Linked(ops, l, root) && t in l.nodes && t in Kids(l.nodes[root].children) && root < t
    ensures z == t || (z in DropNode(l.nodes - {t}, root, t) <==> Reaches(l.nodes, t, z, None))
    ensures Reaches(l.nodes, t, t, None)
  {
    DropNodeExact(l.nodes - {t}, root, t);
    assert IsPath(l.nodes, [t], None);
    if z != t && z in l.nodes {
      SubtreeIff(ops, l, root, t, z);
    }
  }

  /** With `t` a child of the root, a node other than `t` is reachable from
      the root around `t` exactly when it is not below `t`. */
  lemma SubtreeIff<G, M, P>(ops: GameOps<G, M, P>, l: NodeList<G, M, P>, root: NodeId, t: NodeId, z: NodeId)
    requires Linked(ops, l, root) && t in Kids(l.nodes[root].children)
    requires z in l.nodes && z != t
    ensures Reaches(l.nodes - {t}, root, z, Some(t)) <==> !Reaches(l.nodes, t, z, None)
  {
    KidsParent(ops, l, root, root, t);
    if !Reaches(l.nodes, t, z, None) {
      AroundChild(ops, l, root, t, z);
    }
    if Reaches(l.nodes - {t}, root, z, Some(t)) && Reaches(l.nodes, t, z, None) {
      NotBothWays(ops, l, root, t, z);
    }
  }

  /** A node not below the child `t` is reached from the root by a path that
      avoids `t`. */
  lemma AroundChild<G, M, P>(ops: GameOps<G, M, P>, l: NodeList<G, M, P>, root: NodeId, t: NodeId, z: NodeId)
    requires Linked(ops, l, root) && t in l.nodes && root < t
    requires z in l.nodes && !Reaches(l.nodes, t, z, None)
    ensures Reaches(l.nodes - {t}, root, z, Some(t))
  {
    AllReachable(ops, l, root, z);
    var p :| IsPath(l.nodes, p, None) && p[0] == root && p[|p| - 1] == z;
    forall j | 0 <= j < |p|
      ensures p[j] != t
    {
      if j > 0 && p[j] == t {
        PathSuffix(l.nodes, p, j, None);
      }
    }
    PathAvoiding(l.nodes, p, t);
  }

  /** A path that never visits `t` is a path of the arena without `t`. */
  lemma PathAvoiding<G, M, P>(ns: Nodes<G, M, P>, p: seq<NodeId>, t: NodeId)
    requires IsPath(ns, p, None) && forall j :: 0 <= j < |p| ==> p[j] != t
    ensures IsPath(ns - {t}, p, Some(t))
  {
    forall j | 0 < j < |p|
      ensures Step(ns - {t}, p[j - 1], p[j], Some(t))
    {
      assert Step(ns, p[j - 1], p[j], None);
    }
  }

  /** No node is both below the child `t` and reachable from the root
      around `t`. */
  lemma NotBothWays<G, M, P>(ops: GameOps<G, M, P>, l: NodeList<G, M, P>, root: NodeId, t: NodeId, z: NodeId)
    requires Linked(ops, l, root) && t in Kids(l.nodes[root].children) && root < t
    ensures Reaches(l.nodes - {t}, root, z, Some(t)) ==> !Reaches(l.nodes, t, z, None)
  {
    var ns := l.nodes;
    if Reaches(ns - {t}, root, z, Some(t)) && Reaches(ns, t, z, None) {
      var p :| IsPath(ns - {t}, p, Some(t)) && p[0] == root && p[|p| - 1] == z;
      var q :| IsPath(ns, q, None) && q[0] == t && q[|q| - 1] == z;
      AvoidingPathForget(ns, p, t);
      PathCons(ns, root, q, None);
      var p' := [root] + q;
      assert p'[0] == root && p'[|p'| - 1] == z && p'[1] == t;
      assert |p| > 1 ==> Step(ns - {t}, p[0], p[1], Some(t));
      PathFromRootUnique(ops, l, root, p, p');
    }
  }

  lemma AvoidingPathForget<G, M, P>(ns: Nodes<G, M, P>, p: seq<NodeId>, t: NodeId)
    requires IsPath(ns - {t}, p, Some(t))
    ensures IsPath(ns, p, None)
  {
    PathMono(ns - {t}, ns, p, Some(t));
    PathForget(ns, p, Some(t));
  }

  /** Paths from the root are unique. */
  lemma PathFromRootUnique<G, M, P>(ops: GameOps<G, M, P>, l: NodeList<G, M, P>, root: NodeId, p: seq<NodeId>, q: seq<NodeId>)
    requires Linked(ops, l, root) && IsPath(l.nodes, p, None) && IsPath(l.nodes, q, None)
    requires p[0] == root && q[0] == root && p[|p| - 1] == q[|q| - 1]
    ensures p == q
  {
    if |p| <= |q| {
      PathsConverge(ops, l, root, p, q);
      StartsAtRoot(ops, l, root, q, |q| - |p|);
    } else {
      PathsConverge(ops, l, root, q, p);
      StartsAtRoot(ops, l, root, p, |p| - |q|);
    }
  }

  /** On a path, the root can only come first. */
  lemma StartsAtRoot<G, M, P>(ops: GameOps<G, M, P>, l: NodeList<G, M, P>, root: NodeId, p: seq<NodeId>, k: nat)
    requires Linked(ops, l, root) && IsPath(l.nodes, p, None) && k < |p| && p[k] == root
    ensures k == 0
  {
    if k > 0 {
      assert Step(l.nodes, p[k - 1], p[k], None);
      RootNotChild(ops, l, root, p[k - 1]);
    }
  }

  // ---------------------------------------------------------------------
  // A subtree cut out of a valid tree is a valid tree

  /** The arena `rn` keeps exactly the nodes below `t`, unchanged except that
      `t` forgets its parent. */
  ghost predicate IsSubtree<G, M, P>(ns: Nodes<G, M, P>, t: NodeId, rn: Nodes<G, M, P>)
  {
    && t in ns
    && (forall z :: z in rn <==> Reaches(ns, t, z, None))
    && (forall z :: z in rn && z != t ==> rn[z] == ns[z])
    && t in rn && rn[t] == ns[t].(parent := None)
  }

  /** The subtree below any node of a valid tree, cut loose, is a valid tree
      rooted at that node with the same id counter. */
  lemma SubtreeValid<G, M, P>(ops: GameOps<G, M, P>, l: NodeList<G, M, P>, root: NodeId, t: NodeId, rn: Nodes<G, M, P>)
    requires Valid(ops, l, root) && IsSubtree(l.nodes, t, rn)
    ensures Valid(ops, NodeList(rn, l.nextId), t)
  {
    var r := NodeList(rn, l.nextId);
    LinkedPointsBack(ops, l, root);
    forall z | z in rn
      ensures z in l.nodes && z < l.nextId
    {
      SubtreeStored(l.nodes, t, rn, z);
    }
    forall x | x in rn
      ensures NodeLinked(ops, rn, x)
    {
      SubtreeStored(l.nodes, t, rn, x);
      assert NodeLinked(ops, l.nodes, x);
      forall i | 0 <= i < |rn[x].children|
        ensures EdgeLinked(ops, rn, x, i)
      {
        assert EdgeLinked(ops, l.nodes, x, i);
        SubtreeEdge(l.nodes, t, rn, x, i);
      }
    }
    forall x | x in rn && x != t
      ensures ParentListed(rn, x)
    {
      SubtreeParent(ops, l, root, t, rn, x);
    }
    forall x | x in rn
      ensures NodeStatsOk(rn[x])
    {
      SubtreeStored(l.nodes, t, rn, x);
      assert NodeStatsOk(l.nodes[x]);
    }
  }

  lemma SubtreeStored<G, M, P>(ns: Nodes<G, M, P>, t: NodeId, rn: Nodes<G, M, P>, z: NodeId)
    requires IsSubtree(ns, t, rn) && z in rn
    ensures z in ns && rn[z].children == ns[z].children && rn[z].game == ns[z].game
    ensures rn[z].player == ns[z].player && rn[z].games == ns[z].games
  {
    var p :| IsPath(ns, p, None) && p[0] == t && p[|p| - 1] == z;
  }

  /** An edge out of a subtree node leads to a subtree node other than the
      subtree's root, which still points back. */
  lemma SubtreeEdge<G, M, P>(ns: Nodes<G, M, P>, t: NodeId, rn: Nodes<G, M, P>, x: NodeId, i: nat)
    requires PointsBack(ns) && IsSubtree(ns, t, rn) && x in rn
    requires x in ns && i < |ns[x].children| && ns[x].children[i].1.node in ns
    ensures var y := ns[x].children[i].1.node; y in rn && y != t && rn[y] == ns[y]
  {
    var y := ns[x].children[i].1.node;
    var p :| IsPath(ns, p, None) && p[0] == t && p[|p| - 1] == x;
    assert Kids(ns[x].children)[i] == y;
    PathSnoc(ns, p, y, None);
    var q := p + [y];
    assert q[0] == t && q[|q| - 1] == y;
    if y == t {
      PathIdsGrow(ns, q, None, 0, |q| - 1);
    }
  }

  /** A subtree node other than the subtree's root has its parent in the
      subtree, listing it as a child. */
  lemma SubtreeParent<G, M, P>(ops: GameOps<G, M, P>, l: NodeList<G, M, P>, root: NodeId, t: NodeId,
                               rn: Nodes<G, M, P>, x: NodeId)
    requires Linked(ops, l, root) && IsSubtree(l.nodes, t, rn) && x in rn && x != t
    ensures ParentListed(rn, x)
  {
    var ns := l.nodes;
    var p :| IsPath(ns, p, None) && p[0] == t && p[|p| - 1] == x;
    var y := p[|p| - 2];
    assert Step(ns, y, x, None);
    KidsParent(ops, l, root, y, x);
    PathPrefix(ns, p, |p| - 1, None);
    assert p[..|p| - 1][0] == t && p[..|p| - 1][|p| - 2] == y;
    assert Reaches(ns, t, y, None);
    SubtreeStored(ns, t, rn, y);
  }

  /** Re-rooting at an existing child gives a valid tree rooted there. */
  lemma RerootToChildValid<G, M, P>(ops: GameOps<G, M, P>, l: NodeList<G, M, P>, root: NodeId, mv: M)
    requires Valid(ops, l, root) && Find(l.nodes[root].children, mv).Some?
    ensures RerootDefined(ops, l, root, mv)
    ensures Valid(ops, Reroot(ops, l, root, mv).0, Reroot(ops, l, root, mv).1)
  {
    RerootToChild(ops, l, root, mv);
    var r := Reroot(ops, l, root, mv);
    SubtreeValid(ops, l, root, r.1, r.0.nodes);
  }

  // ---------------------------------------------------------------------
  // The move has no edge: the new tree is a single fresh node

  /** Re-rooting along a move the tree has not expanded drops the whole
      tree and keeps only a fresh node, under the next id, for the position
      the move produces. */
  lemma RerootFresh<G, M, P>(ops: GameOps<G, M, P>, l: NodeList<G, M, P>, root: NodeId, mv: M)
    requires Linked(ops, l, root) && Find(l.nodes[root].children, mv).None?
    requires ops.makeMove(l.nodes[root].game, mv).Some?
    ensures RerootDefined(ops, l, root, mv)
    ensures var r := Reroot(ops, l, root, mv);
      && r.1 == l.nextId
      && r.0.nextId == l.nextId + 1
      && r.0.nodes == map[l.nextId := NewRoot(ops, ops.makeMove(l.nodes[root].game, mv).value)]
  {
    RerootFreshShape(ops, l, root, mv);
    var n := NewRoot(ops, ops.makeMove(l.nodes[root].game, mv).value);
    PruneFresh(l.nodes, root, l.nextId, n, l.nextId + 1);
    DropAll(ops, l, root);
  }

  /** Unfolding the handler when the move has no edge. */
  lemma RerootFreshShape<G, M, P>(ops: GameOps<G, M, P>, l: NodeList<G, M, P>, root: NodeId, mv: M)
    requires IdsIssued(l) && root in l.nodes && Find(l.nodes[root].children, mv).None?
    requires ops.makeMove(l.nodes[root].game, mv).Some?
    ensures RerootDefined(ops, l, root, mv)
    ensures var n := NewRoot(ops, ops.makeMove(l.nodes[root].game, mv).value);
      Reroot(ops, l, root, mv) == (Prune(NodeList(l.nodes[l.nextId := n], l.nextId + 1), root, l.nextId), l.nextId)
  {
    LocateFresh(ops, l, root, mv);
  }

  /** With no edge for the move, the first block just adds the fresh node. */
  lemma LocateFresh<G, M, P>(ops: GameOps<G, M, P>, l: NodeList<G, M, P>, root: NodeId, mv: M)
    requires IdsIssued(l) && root in l.nodes && Find(l.nodes[root].children, mv).None?
    requires ops.makeMove(l.nodes[root].game, mv).Some?
    ensures RerootDefined(ops, l, root, mv)
    ensures LocateNewRoot(ops, l, root, mv) ==
      (NodeList(l.nodes[l.nextId := NewRoot(ops, ops.makeMove(l.nodes[root].game, mv).value)], l.nextId + 1), l.nextId)
  {
    var n := NewRoot(ops, ops.makeMove(l.nodes[root].game, mv).value);
    assert l.nextId !in l.nodes;
    CheckOutAndBack(l.nodes, root, l.nextId, n);
  }

  /** Pruning at a node added under a free id keeps it, without a parent,
      next to what `drop_node` leaves of the rest. */
  lemma PruneFresh<G, M, P>(ns: Nodes<G, M, P>, root: NodeId, id: NodeId, n: Node<G, M, P>, next: NodeId)
    requires id !in ns && n.parent == None
    ensures Prune(NodeList(ns[id := n], next), root, id) == NodeList(DropNode(ns, root, id)[id := n], next)
  {
    assert ns[id := n] - {id} == ns;
  }

  /** Taking `root` out, storing `n` under a free id and putting `root`
      back stores `n` next to the original nodes. */
  lemma CheckOutAndBack<G, M, P>(ns: Nodes<G, M, P>, root: NodeId, id: NodeId, n: Node<G, M, P>)
    requires root in ns && id !in ns
    ensures (ns - {root})[id := n][root := ns[root]] == ns[id := n]
  {
  }

  /** Dropping the root of a linked arena, with an id that is not stored as
      the exception, empties it. */
  lemma DropAll<G, M, P>(ops: GameOps<G, M, P>, l: NodeList<G, M, P>, root: NodeId)
    requires Linked(ops, l, root)
    ensures DropNode(l.nodes, root, l.nextId) == map[]
  {
    forall z | z in l.nodes
      ensures Reaches(l.nodes, root, z, Some(l.nextId))
    {
      ReachesAvoidingFresh(ops, l, root, z);
    }
    DropReachedAll(l.nodes, root, l.nextId);
  }

  /** No path needs the unissued id `l.nextId`. */
  lemma ReachesAvoidingFresh<G, M, P>(ops: GameOps<G, M, P>, l: NodeList<G, M, P>, root: NodeId, z: NodeId)
    requires Linked(ops, l, root) && z in l.nodes
    ensures Reaches(l.nodes, root, z, Some(l.nextId))
  {
    AllReachable(ops, l, root, z);
    var p :| IsPath(l.nodes, p, None) && p[0] == root && p[|p| - 1] == z;
    assert l.nextId !in l.nodes;
    PathAvoiding(l.nodes, p, l.nextId);
    assert l.nodes - {l.nextId} == l.nodes;
  }

  /** The fresh single-node tree is valid, the move being legal from a
      reachable position. */
  lemma RerootFreshValid<G(!new), M(!new), P>(ops: GameOps<G, M, P>, l: NodeList<G, M, P>, root: NodeId, mv: M)
    requires Lawful(ops) && Valid(ops, l, root) && Find(l.nodes[root].children, mv).None?
    requires ops.makeMove(l.nodes[root].game, mv).Some?
    ensures RerootDefined(ops, l, root, mv)
    ensures Valid(ops, Reroot(ops, l, root, mv).0, Reroot(ops, l, root, mv).1)
  {
    RerootFresh(ops, l, root, mv);
    var g := l.nodes[root].game;
    assert NodeLinked(ops, l.nodes, root);
    MoveStaysValid(ops, g, mv);
    SingleNodeValid(ops, l.nextId, ops.makeMove(g, mv).value, l.nextId + 1);
  }

  /** A legal move from a valid position leads to a valid position. */
  lemma MoveStaysValid<G(!new), M(!new), P>(ops: GameOps<G, M, P>, g: G, mv: M)
    requires Lawful(ops) && ops.valid(g) && ops.makeMove(g, mv).Some?
    ensures ops.valid(ops.makeMove(g, mv).value)
  {
    assert ops.makeMoveMut(g, mv).0 && ops.makeMove(g, mv).value == ops.makeMoveMut(g, mv).1;
  }

  /** A lone fresh root for a valid position is a valid tree. */
  lemma SingleNodeValid<G, M, P>(ops: GameOps<G, M, P>, id: NodeId, g: G, next: NodeId)
    requires ops.valid(g) && id < next
    ensures Valid(ops, NodeList(map[id := NewRoot(ops, g)], next), id)
  {
    var ns := map[id := NewRoot(ops, g)];
    assert NodeLinked(ops, ns, id);
  }

  // ---------------------------------------------------------------------
  // Both cases

  /** The move is one the handler can carry out: an edge of the root, or a
      move the game accepts. */
  ghost predicate MoveAcceptable<G, M, P>(ops: GameOps<G, M, P>, l: NodeList<G, M, P>, root: NodeId, mv: M)
    requires root in l.nodes
  {
    Find(l.nodes[root].children, mv).Some? || ops.makeMove(l.nodes[root].game, mv).Some?
  }

  /** Re-rooting keeps the tree invariant, and the new root holds the
      position the move produces from the old root. */
  lemma RerootKeepsValid<G(!new), M(!new), P>(ops: GameOps<G, M, P>, l: NodeList<G, M, P>, root: NodeId, mv: M)
    requires Lawful(ops) && Valid(ops, l, root) && MoveAcceptable(ops, l, root, mv)
    ensures RerootDefined(ops, l, root, mv)
    ensures var r := Reroot(ops, l, root, mv);
      && Valid(ops, r.0, r.1)
      && ops.makeMove(l.nodes[root].game, mv) == Some(r.0.nodes[r.1].game)
  {
    if Find(l.nodes[root].children, mv).Some? {
      RerootToChild(ops, l, root, mv);
      RerootToChildValid(ops, l, root, mv);
    } else {
      RerootFresh(ops, l, root, mv);
      RerootFreshValid(ops, l, root, mv);
    }
  }
}
