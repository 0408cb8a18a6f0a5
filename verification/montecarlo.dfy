/** One step of the Monte Carlo tree search (`montecarlo`): select a path of
    best-scoring edges from the root, expand the leaf with one fresh edge per
    legal move, and add one batch of playout results to every edge on the path.

    Scores are abstract (`Score`): the UCT formula is a parameter `uct`
    returning a finite non-negative value, and `Inf` marks an edge that has
    never been played out. The random pick among equally good edges is the
    oracle `tie`, consulted with the current path length. The playout batch
    the thread pool returns is an input (`Batch`). */
module MonteCarlo {
  import opened Util
  import opened GameContract
  import opened Tree
  import opened Arena
  import opened TreeInvariant

  // ---------------------------------------------------------------------
  // all_max

  /** The entries of `cs` whose score is `mx`, in order. */
  function Ties<M>(cs: Children<M>, mx: Score): Children<M>
  {
    if |cs| == 0 then []
    else Ties(cs[..|cs| - 1], mx) + (if cs[|cs| - 1].1.uct == mx then [cs[|cs| - 1]] else [])
  }

  lemma {:induction false} TiesMembers<M>(cs: Children<M>, mx: Score)
    ensures forall x :: x in Ties(cs, mx) ==> x in cs && x.1.uct == mx
    ensures forall i :: 0 <= i < |cs| && cs[i].1.uct == mx ==> cs[i] in Ties(cs, mx)
  {
    if |cs| > 0 {
      var n := |cs| - 1;
      TiesMembers(cs[..n], mx);
      assert forall i :: 0 <= i < n ==> cs[..n][i] == cs[i];
    }
  }

  lemma {:induction false} TiesBelow<M>(cs: Children<M>, mx: Score)
    requires forall i :: 0 <= i < |cs| ==> ScoreLt(cs[i].1.uct, mx)
    ensures Ties(cs, mx) == []
  {
    if |cs| > 0 {
      TiesBelow(cs[..|cs| - 1], mx);
    }
  }

  lemma ScoreLtTrans(a: Score, b: Score, c: Score)
    requires ScoreLe(a, b) && ScoreLt(b, c)
    ensures ScoreLt(a, c)
  {
  }

  /** `all_max`: the highest score (folding from 0) and exactly the entries
      that have it. */
  function AllMax<M>(cs: Children<M>): (r: (Score, Children<M>))
    ensures forall i :: 0 <= i < |cs| ==> ScoreLe(cs[i].1.uct, r.0)
    ensures r.1 == Ties(cs, r.0)
    ensures |cs| > 0 ==> |r.1| > 0
  {
    if |cs| == 0 then (Fin(0.0), [])
    else
      var pre := cs[..|cs| - 1];
      var (mx, items) := AllMax(pre);
      var e := cs[|cs| - 1];
      if e.1.uct == mx then (mx, items + [e])
      else if ScoreLt(mx, e.1.uct) then
        forall i | 0 <= i < |pre| ensures ScoreLt(pre[i].1.uct, e.1.uct) {
          ScoreLtTrans(pre[i].1.uct, mx, e.1.uct);
        }
        TiesBelow(pre, e.1.uct);
        (e.1.uct, [e])
      else (mx, items)
  }

  /** The entry the tie-break picks out of the maximal ones. */
  function Choose<M>(cs: Children<M>, k: nat): (r: (Score, M, Edge))
    requires |cs| > 0
    ensures (r.1, r.2) in cs && r.2.uct == r.0
    ensures forall i :: 0 <= i < |cs| ==> ScoreLe(cs[i].1.uct, r.0)
  {
    var am := AllMax(cs);
    TiesMembers(cs, am.0);
    var x := am.1[k % |am.1|];
    assert x in Ties(cs, am.0);
    (am.0, x.0, x.1)
  }

  // ---------------------------------------------------------------------
  // Arenas the search can walk

  /** Every move the rules list for `g` can be made (expansion unwraps it). */
  ghost predicate MovesSucceed<G, M, P>(ops: GameOps<G, M, P>, g: G)
  {
    forall m :: m in ops.availableMoves(g) ==> ops.makeMove(g, m).Some?
  }

  ghost predicate WalkableAt<G, M, P>(ops: GameOps<G, M, P>, ns: Nodes<G, M, P>, x: NodeId)
    requires x in ns
  {
    && KeysDistinct(ns[x].children)
    && (forall i :: 0 <= i < |ns[x].children| ==>
          ns[x].children[i].1.node in ns && x < ns[x].children[i].1.node)
    && MovesSucceed(ops, ns[x].game)
  }

  /** What one search step needs of the arena: ids come from the counter,
      every edge leads to a stored node with a larger id, and every listed
      move of a stored position can be made. */
  ghost predicate Walkable<G, M, P>(ops: GameOps<G, M, P>, l: NodeList<G, M, P>)
  {
    && IdsIssued(l)
    && forall x :: x in l.nodes ==> WalkableAt(ops, l.nodes, x)
  }

  /** The tree invariant gives everything the search step needs. */
  lemma ValidWalkable<G(!new), M(!new), P>(ops: GameOps<G, M, P>, l: NodeList<G, M, P>, root: NodeId)
    requires Lawful(ops) && Valid(ops, l, root)
    ensures Walkable(ops, l)
  {
    forall x | x in l.nodes
      ensures WalkableAt(ops, l.nodes, x)
    {
      assert NodeLinked(ops, l.nodes, x);
      var cs := l.nodes[x].children;
      forall i | 0 <= i < |cs|
        ensures cs[i].1.node in l.nodes && x < cs[i].1.node
      {
        assert EdgeLinked(ops, l.nodes, x, i);
      }
      forall m | m in ops.availableMoves(l.nodes[x].game)
        ensures ops.makeMove(l.nodes[x].game, m).Some?
      {
        ListedMoveSucceeds(ops, l.nodes[x].game, m);
      }
    }
  }

  // ---------------------------------------------------------------------
  // Expansion

  /** The edges expansion creates: one per move, never played out, pointing
      at consecutive fresh ids. */
  function FreshEdges<M>(moves: seq<M>, base: NodeId): (r: Children<M>)
    ensures |r| == |moves|
    ensures forall i :: 0 <= i < |moves| ==> r[i] == (moves[i], Edge(0, 0, Inf, 0, base + i))
  {
    seq(|moves|, i requires 0 <= i < |moves| => (moves[i], Edge(0, 0, Inf, 0, base + i)))
  }

  lemma FreshEdgesCons<M>(moves: seq<M>, base: NodeId)
    requires |moves| > 0
    ensures FreshEdges(moves, base) == [(moves[0], Edge(0, 0, Inf, 0, base))] + FreshEdges(moves[1..], base + 1)
  {
  }

  /** The node half of the loop over the legal moves: `nodes.add` a child
      holding each move's position. The ids it hands out are consecutive from
      the counter, which is how the edge half below names them. */
  function AddNodes<G, M, P>(ops: GameOps<G, M, P>, l: NodeList<G, M, P>, x: NodeId, g: G, moves: seq<M>): NodeList<G, M, P>
    requires forall m :: m in moves ==> ops.makeMove(g, m).Some?
    decreases |moves|
  {
    if |moves| == 0 then l
    else AddNodes(ops, Add(l, NewChild(ops, ops.makeMove(g, moves[0]).value, x)).0, x, g, moves[1..])
  }

  /** The loop hands out one fresh id per move and leaves the stored nodes
      alone. */
  lemma {:induction false} AddNodesIds<G, M, P>(ops: GameOps<G, M, P>, l: NodeList<G, M, P>, x: NodeId, g: G, moves: seq<M>)
    requires forall m :: m in moves ==> ops.makeMove(g, m).Some?
    ensures var r := AddNodes(ops, l, x, g, moves);
      && r.nextId == l.nextId + |moves|
      && (forall k :: k in r.nodes <==> k in l.nodes || l.nextId <= k < r.nextId)
      && (forall k :: k in l.nodes && !(l.nextId <= k < r.nextId) ==> r.nodes[k] == l.nodes[k])
    decreases |moves|
  {
    if |moves| > 0 {
      var l1 := AddNodesStep(ops, l, x, g, moves);
      AddNodesIds(ops, l1, x, g, moves[1..]);
    }
  }

  /** The `i`-th added node holds the position after the `i`-th move and
      names `x` as its parent. */
  lemma {:induction false} AddNodesFresh<G, M, P>(ops: GameOps<G, M, P>, l: NodeList<G, M, P>, x: NodeId, g: G,
                                                   moves: seq<M>, i: nat)
    requires forall m :: m in moves ==> ops.makeMove(g, m).Some?
    requires i < |moves|
    ensures var r := AddNodes(ops, l, x, g, moves);
      l.nextId + i in r.nodes && r.nodes[l.nextId + i] == NewChild(ops, ops.makeMove(g, moves[i]).value, x)
    decreases |moves|
  {
    AddNodesIds(ops, l, x, g, moves);
    if i == 0 {
      AddNodesFirst(ops, l, x, g, moves);
    } else {
      var l1 := AddNodesStep(ops, l, x, g, moves);
      AddNodesFresh(ops, l1, x, g, moves[1..], i - 1);
      assert moves[1..][i - 1] == moves[i];
    }
  }

  /** One round of the loop: add the first move's child, then the rest. */
  lemma AddNodesStep<G, M, P>(ops: GameOps<G, M, P>, l: NodeList<G, M, P>, x: NodeId, g: G, moves: seq<M>)
    returns (l1: NodeList<G, M, P>)
    requires forall m :: m in moves ==> ops.makeMove(g, m).Some?
    requires |moves| > 0
    ensures l1 == Add(l, NewChild(ops, ops.makeMove(g, moves[0]).value, x)).0 && l1.nextId == l.nextId + 1
    ensures forall m :: m in moves[1..] ==> ops.makeMove(g, m).Some?
    ensures AddNodes(ops, l, x, g, moves) == AddNodes(ops, l1, x, g, moves[1..])
  {
    l1 := Add(l, NewChild(ops, ops.makeMove(g, moves[0]).value, x)).0;
  }

  lemma AddNodesFirst<G, M, P>(ops: GameOps<G, M, P>, l: NodeList<G, M, P>, x: NodeId, g: G, moves: seq<M>)
    requires forall m :: m in moves ==> ops.makeMove(g, m).Some?
    requires |moves| > 0
    ensures var r := AddNodes(ops, l, x, g, moves);
      l.nextId in r.nodes && r.nodes[l.nextId] == NewChild(ops, ops.makeMove(g, moves[0]).value, x)
  {
    var l1 := AddNodesStep(ops, l, x, g, moves);
    AddNodesIds(ops, l1, x, g, moves[1..]);
    assert l.nextId in l1.nodes && l1.nodes[l.nextId] == NewChild(ops, ops.makeMove(g, moves[0]).value, x);
  }

  /** The edge half of the loop: `children.insert` a never-played edge per
      move, pointing at the id `nodes.add` returned for it. */
  function InsertEdges<M(!new,==)>(cs: Children<M>, moves: seq<M>, base: NodeId): (r: Children<M>)
    ensures forall i :: 0 <= i < |r| ==> r[i].1.uct == Inf || (i < |cs| && r[i] == cs[i])
    ensures |r| == 0 <==> |cs| == 0 && |moves| == 0
    decreases |moves|
  {
    if |moves| == 0 then cs
    else InsertEdges(Insert(cs, moves[0], Edge(0, 0, Inf, 0, base)), moves[1..], base + 1)
  }

  /** The edge half keeps moves distinct whatever the moves are. */
  lemma {:induction false} InsertEdgesDistinct<M(!new)>(cs: Children<M>, moves: seq<M>, base: NodeId)
    requires KeysDistinct(cs)
    ensures KeysDistinct(InsertEdges(cs, moves, base))
    decreases |moves|
  {
    if |moves| > 0 {
      InsertEdgesDistinct(Insert(cs, moves[0], Edge(0, 0, Inf, 0, base)), moves[1..], base + 1);
    }
  }

  /** With distinct moves and no clashing entry, the edge half appends
      exactly the fresh edges. */
  lemma {:induction false} InsertEdgesAppend<M(!new)>(cs: Children<M>, moves: seq<M>, base: NodeId)
    requires Distinct(moves) && forall m :: m in moves ==> Find(cs, m).None?
    ensures InsertEdges(cs, moves, base) == cs + FreshEdges(moves, base)
    decreases |moves|
  {
    if |moves| == 0 {
      assert cs + FreshEdges(moves, base) == cs;
    } else {
      var cs1 := cs + [(moves[0], Edge(0, 0, Inf, 0, base))];
      InsertFirstEdge(cs, moves, base);
      StillAbsent(cs, moves, base);
      DistinctTail(moves);
      InsertEdgesAppend(cs1, moves[1..], base + 1);
      AppendFresh(cs, moves, base);
    }
  }

  lemma AppendFresh<M>(cs: Children<M>, moves: seq<M>, base: NodeId)
    requires |moves| > 0
    ensures (cs + [(moves[0], Edge(0, 0, Inf, 0, base))]) + FreshEdges(moves[1..], base + 1) == cs + FreshEdges(moves, base)
  {
    FreshEdgesCons(moves, base);
  }

  lemma DistinctTail<T>(s: seq<T>)
    requires Distinct(s) && |s| > 0
    ensures Distinct(s[1..])
  {
    forall i, j | 0 <= i < j < |s| - 1
      ensures s[1..][i] != s[1..][j]
    {
      assert s[1..][i] == s[i + 1] && s[1..][j] == s[j + 1];
    }
  }

  lemma InsertFirstEdge<M(!new)>(cs: Children<M>, moves: seq<M>, base: NodeId)
    requires |moves| > 0 && Find(cs, moves[0]).None?
    ensures InsertEdges(cs, moves, base) == InsertEdges(cs + [(moves[0], Edge(0, 0, Inf, 0, base))], moves[1..], base + 1)
  {
    assert Insert(cs, moves[0], Edge(0, 0, Inf, 0, base)) == cs + [(moves[0], Edge(0, 0, Inf, 0, base))];
  }

  lemma StillAbsent<M>(cs: Children<M>, moves: seq<M>, base: NodeId)
    requires Distinct(moves) && |moves| > 0 && forall m :: m in moves ==> Find(cs, m).None?
    ensures forall m :: m in moves[1..] ==> Find(cs + [(moves[0], Edge(0, 0, Inf, 0, base))], m).None?
  {
    var cs1 := cs + [(moves[0], Edge(0, 0, Inf, 0, base))];
    forall m | m in moves[1..]
      ensures Find(cs1, m).None?
    {
      var j :| 0 <= j < |moves[1..]| && moves[1..][j] == m;
      assert moves[j + 1] == m && m != moves[0];
      assert Find(cs, m).None?;
      assert forall i :: 0 <= i < |cs1| ==> cs1[i].0 != m;
    }
  }

  /** Expanding node `x`: take it out, run the loop over its position's
      legal moves, put it back with the new edges. */
  function Expand<G, M(!new,==), P>(ops: GameOps<G, M, P>, l: NodeList<G, M, P>, x: NodeId): (r: NodeList<G, M, P>)
    requires IdsIssued(l) && x in l.nodes && l.nodes[x].children == []
    requires MovesSucceed(ops, l.nodes[x].game)
    ensures IdsIssued(r)
    ensures r.nextId == l.nextId + |ops.availableMoves(l.nodes[x].game)|
    ensures forall k :: k in r.nodes <==> k in l.nodes || l.nextId <= k < r.nextId
    ensures forall k :: k in l.nodes && k != x ==> r.nodes[k] == l.nodes[k]
    ensures r.nodes[x] == l.nodes[x].(children := r.nodes[x].children)
    ensures forall i :: 0 <= i < |r.nodes[x].children| ==> r.nodes[x].children[i].1.uct == Inf
    ensures |r.nodes[x].children| == 0 <==> ops.availableMoves(l.nodes[x].game) == []
    ensures KeysDistinct(r.nodes[x].children)
  {
    var (l1, n) := Take(l, x);
    var moves := ops.availableMoves(n.game);
    var l2 := AddNodes(ops, l1, x, n.game, moves);
    AddNodesIds(ops, l1, x, n.game, moves);
    var cs := InsertEdges(n.children, moves, l1.nextId);
    assert KeysDistinct(cs) by {
      InsertEdgesDistinct(n.children, moves, l1.nextId);
    }
    Restore(l2, x, n.(children := cs))
  }

  /** What expansion adds: the fresh nodes, and (for distinct moves, as the
      rules guarantee) exactly one fresh edge per move, in move order. */
  lemma ExpandAdds<G, M(!new), P>(ops: GameOps<G, M, P>, l: NodeList<G, M, P>, x: NodeId)
    requires IdsIssued(l) && x in l.nodes && l.nodes[x].children == []
    requires MovesSucceed(ops, l.nodes[x].game)
    ensures var g := l.nodes[x].game;
      forall i :: 0 <= i < |ops.availableMoves(g)| ==>
        Expand(ops, l, x).nodes[l.nextId + i] == NewChild(ops, ops.makeMove(g, ops.availableMoves(g)[i]).value, x)
    ensures Distinct(ops.availableMoves(l.nodes[x].game)) ==>
      Expand(ops, l, x).nodes[x].children == FreshEdges(ops.availableMoves(l.nodes[x].game), l.nextId)
  {
    var g := l.nodes[x].game;
    var moves := ops.availableMoves(g);
    forall i | 0 <= i < |moves|
      ensures Expand(ops, l, x).nodes[l.nextId + i] == NewChild(ops, ops.makeMove(g, moves[i]).value, x)
    {
      ExpandNodeAt(ops, l, x, i);
    }
    if Distinct(moves) {
      ExpandEdges(ops, l, x);
    }
  }

  /** The `i`-th node expansion adds. */
  lemma ExpandNodeAt<G, M(!new), P>(ops: GameOps<G, M, P>, l: NodeList<G, M, P>, x: NodeId, i: nat)
    requires IdsIssued(l) && x in l.nodes && l.nodes[x].children == []
    requires MovesSucceed(ops, l.nodes[x].game)
    requires i < |ops.availableMoves(l.nodes[x].game)|
    ensures var g := l.nodes[x].game;
      && l.nextId + i in Expand(ops, l, x).nodes
      && Expand(ops, l, x).nodes[l.nextId + i] == NewChild(ops, ops.makeMove(g, ops.availableMoves(g)[i]).value, x)
  {
    var (l1, n) := Take(l, x);
    AddNodesFresh(ops, l1, x, n.game, ops.availableMoves(n.game), i);
  }

  /** The edges expansion gives `x`, for distinct moves. */
  lemma ExpandEdges<G, M(!new), P>(ops: GameOps<G, M, P>, l: NodeList<G, M, P>, x: NodeId)
    requires IdsIssued(l) && x in l.nodes && l.nodes[x].children == []
    requires MovesSucceed(ops, l.nodes[x].game)
    requires Distinct(ops.availableMoves(l.nodes[x].game))
    ensures Expand(ops, l, x).nodes[x].children == FreshEdges(ops.availableMoves(l.nodes[x].game), l.nextId)
  {
    var (l1, n) := Take(l, x);
    InsertEdgesAppend(n.children, ops.availableMoves(n.game), l1.nextId);
  }

  /** Every listed move of `g` can be made and leads to a reachable state. */
  ghost predicate MovesSound<G, M, P>(ops: GameOps<G, M, P>, g: G)
  {
    && Distinct(ops.availableMoves(g))
    && forall m :: m in ops.availableMoves(g) ==>
         ops.makeMove(g, m).Some? && ops.valid(ops.makeMove(g, m).value)
  }

  lemma LawfulMovesSound<G(!new), M(!new), P>(ops: GameOps<G, M, P>, g: G)
    requires Lawful(ops) && ops.valid(g)
    ensures MovesSound(ops, g)
  {
    forall m | m in ops.availableMoves(g)
      ensures ops.makeMove(g, m).Some? && ops.valid(ops.makeMove(g, m).value)
    {
      ListedMoveSucceeds(ops, g, m);
    }
  }

  /** Expanding a childless node of a valid tree gives a valid tree. */
  lemma ExpandKeepsValid<G(!new), M(!new), P>(ops: GameOps<G, M, P>, l: NodeList<G, M, P>, root: NodeId, x: NodeId)
    requires Lawful(ops) && Valid(ops, l, root)
    requires x in l.nodes && l.nodes[x].children == []
    ensures MovesSucceed(ops, l.nodes[x].game)
    ensures Valid(ops, Expand(ops, l, x), root)
  {
    assert NodeLinked(ops, l.nodes, x);
    LawfulMovesSound(ops, l.nodes[x].game);
    ExpandValid(ops, l, root, x);
  }

  lemma ExpandValid<G, M(!new), P>(ops: GameOps<G, M, P>, l: NodeList<G, M, P>, root: NodeId, x: NodeId)
    requires Valid(ops, l, root)
    requires x in l.nodes && l.nodes[x].children == []
    requires MovesSound(ops, l.nodes[x].game)
    ensures Valid(ops, Expand(ops, l, x), root)
  {
    var r := Expand(ops, l, x);
    forall z | z in r.nodes
      ensures NodeLinked(ops, r.nodes, z)
    {
      ExpandNodeLinked(ops, l, root, x, z);
    }
    forall z | z in r.nodes
      ensures NodeStatsOk(r.nodes[z])
    {
      ExpandNodeStats(ops, l, root, x, z);
    }
    forall z | z in r.nodes && z != root
      ensures ParentListed(r.nodes, z)
    {
      ExpandParentListed(ops, l, root, x, z);
    }
  }

  lemma ExpandNodeLinked<G, M(!new), P>(ops: GameOps<G, M, P>, l: NodeList<G, M, P>, root: NodeId, x: NodeId, z: NodeId)
    requires Valid(ops, l, root)
    requires x in l.nodes && l.nodes[x].children == []
    requires MovesSound(ops, l.nodes[x].game)
    requires z in Expand(ops, l, x).nodes
    ensures NodeLinked(ops, Expand(ops, l, x).nodes, z)
  {
    if z in l.nodes {
      assert NodeLinked(ops, l.nodes, z);
      if z == x {
        ExpandedEdgesLinked(ops, l, x);
      } else {
        ExpandOldLinked(ops, l, x, z);
      }
    } else {
      ExpandFreshLinked(ops, l, x, z);
    }
  }

  lemma ExpandNodeStats<G, M(!new), P>(ops: GameOps<G, M, P>, l: NodeList<G, M, P>, root: NodeId, x: NodeId, z: NodeId)
    requires Valid(ops, l, root)
    requires x in l.nodes && l.nodes[x].children == []
    requires MovesSound(ops, l.nodes[x].game)
    requires z in Expand(ops, l, x).nodes
    ensures NodeStatsOk(Expand(ops, l, x).nodes[z])
  {
    if z in l.nodes {
      assert NodeStatsOk(l.nodes[z]);
      ExpandOldStats(ops, l, x, z);
    } else {
      var _ := ExpandFresh(ops, l, x, z);
    }
  }

  lemma ExpandParentListed<G, M(!new), P>(ops: GameOps<G, M, P>, l: NodeList<G, M, P>, root: NodeId, x: NodeId, z: NodeId)
    requires Valid(ops, l, root)
    requires x in l.nodes && l.nodes[x].children == []
    requires MovesSound(ops, l.nodes[x].game)
    requires z in Expand(ops, l, x).nodes && z != root
    ensures ParentListed(Expand(ops, l, x).nodes, z)
  {
    if z in l.nodes {
      assert ParentListed(l.nodes, z);
      ExpandOldParent(ops, l, x, z);
    } else {
      ExpandFreshParent(ops, l, x, z);
    }
  }

  /** The node expansion adds at id `z` is the child for the `i`-th move. */
  lemma ExpandFresh<G, M(!new), P>(ops: GameOps<G, M, P>, l: NodeList<G, M, P>, x: NodeId, z: NodeId) returns (i: nat)
    requires IdsIssued(l) && x in l.nodes && l.nodes[x].children == []
    requires MovesSucceed(ops, l.nodes[x].game)
    requires z in Expand(ops, l, x).nodes && z !in l.nodes
    ensures var g := l.nodes[x].game; var moves := ops.availableMoves(g);
      && i < |moves| && z == l.nextId + i
      && Expand(ops, l, x).nodes[z] == NewChild(ops, ops.makeMove(g, moves[i]).value, x)
  {
    i := z - l.nextId;
    ExpandNodeAt(ops, l, x, i);
  }

  lemma ExpandFreshLinked<G, M(!new), P>(ops: GameOps<G, M, P>, l: NodeList<G, M, P>, x: NodeId, z: NodeId)
    requires IdsIssued(l) && x in l.nodes && l.nodes[x].children == []
    requires MovesSound(ops, l.nodes[x].game)
    requires z in Expand(ops, l, x).nodes && z !in l.nodes
    ensures NodeLinked(ops, Expand(ops, l, x).nodes, z)
  {
    var i := ExpandFresh(ops, l, x, z);
    var moves := ops.availableMoves(l.nodes[x].game);
    assert moves[i] in moves;
  }

  lemma ExpandFreshParent<G, M(!new), P>(ops: GameOps<G, M, P>, l: NodeList<G, M, P>, x: NodeId, z: NodeId)
    requires IdsIssued(l) && x in l.nodes && l.nodes[x].children == []
    requires MovesSound(ops, l.nodes[x].game)
    requires z in Expand(ops, l, x).nodes && z !in l.nodes
    ensures ParentListed(Expand(ops, l, x).nodes, z)
  {
    var r := Expand(ops, l, x);
    var i := ExpandFresh(ops, l, x, z);
    ExpandEdges(ops, l, x);
    assert Kids(r.nodes[x].children)[i] == z;
  }

  lemma ExpandOldLinked<G, M(!new), P>(ops: GameOps<G, M, P>, l: NodeList<G, M, P>, x: NodeId, z: NodeId)
    requires IdsIssued(l) && x in l.nodes && l.nodes[x].children == []
    requires MovesSucceed(ops, l.nodes[x].game)
    requires z in l.nodes && z != x && NodeLinked(ops, l.nodes, z)
    ensures z in Expand(ops, l, x).nodes && NodeLinked(ops, Expand(ops, l, x).nodes, z)
  {
    var r := Expand(ops, l, x);
    forall i | 0 <= i < |r.nodes[z].children|
      ensures EdgeLinked(ops, r.nodes, z, i)
    {
      assert EdgeLinked(ops, l.nodes, z, i);
    }
  }

  lemma ExpandOldStats<G, M(!new), P>(ops: GameOps<G, M, P>, l: NodeList<G, M, P>, x: NodeId, z: NodeId)
    requires IdsIssued(l) && x in l.nodes && l.nodes[x].children == []
    requires MovesSound(ops, l.nodes[x].game)
    requires z in l.nodes && NodeStatsOk(l.nodes[z])
    ensures z in Expand(ops, l, x).nodes && NodeStatsOk(Expand(ops, l, x).nodes[z])
  {
    if z == x {
      var r := Expand(ops, l, x);
      ExpandEdges(ops, l, x);
      SumGamesZero(r.nodes[x].children);
    }
  }

  lemma ExpandOldParent<G, M(!new), P>(ops: GameOps<G, M, P>, l: NodeList<G, M, P>, x: NodeId, z: NodeId)
    requires IdsIssued(l) && x in l.nodes && l.nodes[x].children == []
    requires MovesSucceed(ops, l.nodes[x].game)
    requires z in l.nodes && ParentListed(l.nodes, z)
    ensures z in Expand(ops, l, x).nodes && ParentListed(Expand(ops, l, x).nodes, z)
  {
    var p := l.nodes[z].parent.value;
    assert p != x;
  }

  lemma ExpandedEdgesLinked<G, M(!new), P>(ops: GameOps<G, M, P>, l: NodeList<G, M, P>, x: NodeId)
    requires IdsIssued(l) && x in l.nodes && l.nodes[x].children == []
    requires MovesSound(ops, l.nodes[x].game)
    ensures KeysDistinct(Expand(ops, l, x).nodes[x].children)
    ensures forall i :: 0 <= i < |Expand(ops, l, x).nodes[x].children| ==> EdgeLinked(ops, Expand(ops, l, x).nodes, x, i)
  {
    var r := Expand(ops, l, x);
    ExpandEdges(ops, l, x);
    forall i | 0 <= i < |r.nodes[x].children|
      ensures EdgeLinked(ops, r.nodes, x, i)
    {
      ExpandedEdgeLinked(ops, l, x, i);
    }
  }

  lemma ExpandedEdgeLinked<G, M(!new), P>(ops: GameOps<G, M, P>, l: NodeList<G, M, P>, x: NodeId, i: nat)
    requires IdsIssued(l) && x in l.nodes && l.nodes[x].children == []
    requires MovesSound(ops, l.nodes[x].game)
    requires i < |Expand(ops, l, x).nodes[x].children|
    ensures EdgeLinked(ops, Expand(ops, l, x).nodes, x, i)
  {
    var r := Expand(ops, l, x);
    var g := l.nodes[x].game;
    var moves := ops.availableMoves(g);
    ExpandEdges(ops, l, x);
    assert r.nodes[x].children[i] == (moves[i], Edge(0, 0, Inf, 0, l.nextId + i));
    ExpandNodeAt(ops, l, x, i);
    assert moves[i] in moves;
  }

  // ---------------------------------------------------------------------
  // Selection

  /** The edge a path entry `(node, move)` names exists. */
  ghost predicate Names<G, M, P>(ns: Nodes<G, M, P>, s: (NodeId, M))
  {
    s.0 in ns && Find(ns[s.0].children, s.1).Some?
  }

  /** The edge a path entry names. */
  ghost function Taken<G, M, P>(ns: Nodes<G, M, P>, s: (NodeId, M)): Edge
    requires Names(ns, s)
  {
    ns[s.0].children[Find(ns[s.0].children, s.1).value].1
  }

  /** `steps` leads edge by edge from node `from` to node `to`. */
  ghost predicate Chain<G, M, P>(ns: Nodes<G, M, P>, steps: seq<(NodeId, M)>, from: NodeId, to: NodeId)
  {
    && (forall i :: 0 <= i < |steps| ==> Names(ns, steps[i]))
    && (|steps| == 0 ==> from == to)
    && (|steps| > 0 ==> steps[0].0 == from && Taken(ns, steps[|steps| - 1]).node == to)
    && (forall i :: 0 < i < |steps| ==> Taken(ns, steps[i - 1]).node == steps[i].0)
  }

  lemma ChainCons<G, M, P>(ns: Nodes<G, M, P>, s: (NodeId, M), steps: seq<(NodeId, M)>, from: NodeId, to: NodeId)
    requires Names(ns, s) && Chain(ns, steps, Taken(ns, s).node, to)
    ensures Chain(ns, [s] + steps, s.0, to)
  {
    var q := [s] + steps;
    forall i | 0 < i < |q|
      ensures Taken(ns, q[i - 1]).node == q[i].0
    {
      if i > 1 {
        assert q[i - 1] == steps[i - 2] && q[i] == steps[i - 1];
      }
    }
  }

  /** The edge taken out of a node scores at least as well as its siblings. */
  ghost predicate Greedy<G, M, P>(ns: Nodes<G, M, P>, s: (NodeId, M))
  {
    Names(ns, s) && forall j :: 0 <= j < |ns[s.0].children| ==> ScoreLe(ns[s.0].children[j].1.uct, Taken(ns, s).uct)
  }

  /** Where the descent ended and how the arena changed. */
  datatype Descent<G, M, P> = Descent(
    arena: NodeList<G, M, P>,
    path: seq<(NodeId, M)>,
    target: NodeId,
    expanded: Option<NodeId>)

  /** The selection loop from node `cur`, `depth` edges below the root.
      A node with children hands over to a best edge (the tie-break picks
      among equals); the descent stops on an edge never played out. A node
      without children is expanded; if it gains children the loop takes one
      of them (all fresh, so it stops there, see `ExpansionStopsSelection`),
      otherwise the node itself is the one to simulate. */
  function Select<G, M(!new,==), P>(ops: GameOps<G, M, P>, l: NodeList<G, M, P>, cur: NodeId, depth: nat,
                                     tie: nat -> nat): (r: Descent<G, M, P>)
    requires Walkable(ops, l) && cur in l.nodes
    ensures r.expanded.None? ==> r.arena == l
    ensures r.expanded.Some? ==>
      var x := r.expanded.value;
      && x in l.nodes && l.nodes[x].children == [] && MovesSucceed(ops, l.nodes[x].game)
      && r.arena == Expand(ops, l, x)
    decreases l.nextId - cur
  {
    assert WalkableAt(ops, l.nodes, cur);
    var cs := l.nodes[cur].children;
    if |cs| > 0 then
      var (mx, mv, e) := Choose(cs, tie(depth));
      if mx == Inf then Descent(l, [(cur, mv)], e.node, None)
      else
        var d := Select(ops, l, e.node, depth + 1, tie);
        d.(path := [(cur, mv)] + d.path)
    else
      var l' := Expand(ops, l, cur);
      var cs' := l'.nodes[cur].children;
      if |cs'| == 0 then Descent(l', [], cur, Some(cur))
      else
        var (_, mv, e) := Choose(cs', tie(depth));
        Descent(l', [(cur, mv)], e.node, Some(cur))
  }

  /** The node `Select` expands is the one the descent stopped on: the
      target itself, or the node the last step leaves. */
  lemma {:induction false} SelectExpandsEnd<G, M(!new), P>(ops: GameOps<G, M, P>, l: NodeList<G, M, P>, cur: NodeId,
                                                                depth: nat, tie: nat -> nat)
    requires Walkable(ops, l) && cur in l.nodes
    ensures var r := Select(ops, l, cur, depth, tie);
      r.expanded.Some? ==>
        r.expanded.value == r.target || (|r.path| > 0 && r.path[|r.path| - 1].0 == r.expanded.value)
    decreases l.nextId - cur
  {
    assert WalkableAt(ops, l.nodes, cur);
    var cs := l.nodes[cur].children;
    if |cs| > 0 {
      var (mx, mv, e) := Choose(cs, tie(depth));
      if mx != Inf {
        SelectExpandsEnd(ops, l, e.node, depth + 1, tie);
      }
    }
  }

  /** A node the search cannot go beyond: no edges and no legal moves. */
  ghost predicate Terminal<G, M, P>(ops: GameOps<G, M, P>, ns: Nodes<G, M, P>, x: NodeId)
  {
    x in ns && ns[x].children == [] && ops.availableMoves(ns[x].game) == []
  }

  /** What a descent promises: it follows edges from `from` to `target`,
      each taken edge is a best one at its node, it passes only through edges
      already played out, and it ends on a never-played edge or at a
      terminal node. */
  ghost predicate Descends<G, M, P>(ops: GameOps<G, M, P>, d: Descent<G, M, P>, from: NodeId)
  {
    var ns := d.arena.nodes;
    && Chain(ns, d.path, from, d.target)
    && (forall i :: 0 <= i < |d.path| ==> Greedy(ns, d.path[i]))
    && (forall i :: 0 <= i < |d.path| - 1 ==> Taken(ns, d.path[i]).uct != Inf)
    && ((|d.path| > 0 && Taken(ns, d.path[|d.path| - 1]).uct == Inf) || Terminal(ops, ns, d.target))
  }

  /** The entry `Choose` returns is the one its move names. */
  lemma ChosenIsTaken<G, M, P>(ns: Nodes<G, M, P>, x: NodeId, k: nat)
    requires x in ns && |ns[x].children| > 0 && KeysDistinct(ns[x].children)
    ensures var c := Choose(ns[x].children, k);
      Greedy(ns, (x, c.1)) && Taken(ns, (x, c.1)) == c.2
  {
    var cs := ns[x].children;
    var c := Choose(cs, k);
    var j :| 0 <= j < |cs| && cs[j] == (c.1, c.2);
    FindDistinct(cs, j);
  }

  lemma {:induction false} SelectDescends<G, M(!new), P>(ops: GameOps<G, M, P>, l: NodeList<G, M, P>, cur: NodeId,
                                                        depth: nat, tie: nat -> nat)
    requires Walkable(ops, l) && cur in l.nodes
    ensures Descends(ops, Select(ops, l, cur, depth, tie), cur)
    decreases l.nextId - cur
  {
    assert WalkableAt(ops, l.nodes, cur);
    var cs := l.nodes[cur].children;
    if |cs| > 0 {
      var (mx, mv, e) := Choose(cs, tie(depth));
      if mx == Inf {
        StopDescends(ops, Descent(l, [(cur, mv)], e.node, None), cur, tie(depth));
      } else {
        ChosenIsTaken(l.nodes, cur, tie(depth));
        var d := Select(ops, l, e.node, depth + 1, tie);
        SelectDescends(ops, l, e.node, depth + 1, tie);
        SelectKeeps(ops, l, e.node, depth + 1, tie, cur);
        DescendsCons(ops, l, cur, (cur, mv), d);
      }
    } else {
      var l' := Expand(ops, l, cur);
      var cs' := l'.nodes[cur].children;
      if |cs'| > 0 {
        var (mx, mv, e) := Choose(cs', tie(depth));
        assert mx == Inf;
        StopDescends(ops, Descent(l', [(cur, mv)], e.node, Some(cur)), cur, tie(depth));
      } else {
        assert Terminal(ops, l'.nodes, cur);
      }
    }
  }

  /** In a tree whose edge statistics hold, an edge named by a path entry
      scores Inf exactly when it has never been played out. */
  lemma TakenUnplayed<G, M, P>(ns: Nodes<G, M, P>, s: (NodeId, M))
    requires Names(ns, s) && NodeStatsOk(ns[s.0])
    ensures Taken(ns, s).games == 0 <==> Taken(ns, s).uct == Inf
  {
    assert EdgeStatsOk(ns[s.0].children[Find(ns[s.0].children, s.1).value].1);
  }

  /** The descent's edges read as play counts: it passes only through
      edges already played out, and it stops on an edge never played out
      or at a terminal node. */
  ghost predicate StopsUnplayed<G, M, P>(ops: GameOps<G, M, P>, d: Descent<G, M, P>)
    requires forall i :: 0 <= i < |d.path| ==> Names(d.arena.nodes, d.path[i])
  {
    var ns := d.arena.nodes;
    && (forall i :: 0 <= i < |d.path| - 1 ==> Taken(ns, d.path[i]).games > 0)
    && ((|d.path| > 0 && Taken(ns, d.path[|d.path| - 1]).games == 0) || Terminal(ops, ns, d.target))
  }

  lemma DescendsUnplayed<G, M, P>(ops: GameOps<G, M, P>, d: Descent<G, M, P>, from: NodeId)
    requires Descends(ops, d, from) && StatsOk(d.arena)
    ensures StopsUnplayed(ops, d)
  {
    var ns := d.arena.nodes;
    forall i | 0 <= i < |d.path|
      ensures Taken(ns, d.path[i]).games == 0 <==> Taken(ns, d.path[i]).uct == Inf
    {
      TakenUnplayed(ns, d.path[i]);
    }
  }

  /** Under lawful rules, selection in a valid tree passes only through
      edges already played out and stops on one never played out, or at a
      node with no legal move. */
  lemma SelectStopsUnplayed<G(!new), M(!new), P>(ops: GameOps<G, M, P>, l: NodeList<G, M, P>, root: NodeId,
                                                 cur: NodeId, depth: nat, tie: nat -> nat)
    requires Lawful(ops) && Valid(ops, l, root) && cur in l.nodes
    ensures Walkable(ops, l)
    ensures var d := Select(ops, l, cur, depth, tie);
      (forall i :: 0 <= i < |d.path| ==> Names(d.arena.nodes, d.path[i])) && StopsUnplayed(ops, d)
  {
    ValidWalkable(ops, l, root);
    var d := Select(ops, l, cur, depth, tie);
    SelectDescends(ops, l, cur, depth, tie);
    if d.expanded.Some? {
      ExpandKeepsValid(ops, l, root, d.expanded.value);
    }
    DescendsUnplayed(ops, d, cur);
  }

  /** A descent of one best edge that was never played out. */
  lemma StopDescends<G, M, P>(ops: GameOps<G, M, P>, d: Descent<G, M, P>, cur: NodeId, k: nat)
    requires cur in d.arena.nodes && |d.arena.nodes[cur].children| > 0 && KeysDistinct(d.arena.nodes[cur].children)
    requires var c := Choose(d.arena.nodes[cur].children, k);
      c.0 == Inf && d.path == [(cur, c.1)] && d.target == c.2.node
    ensures Descends(ops, d, cur)
  {
    ChosenIsTaken(d.arena.nodes, cur, k);
  }

  /** Prepending a best, already played-out edge out of an untouched node
      to a descent from its target gives a descent. */
  lemma DescendsCons<G, M, P>(ops: GameOps<G, M, P>, l: NodeList<G, M, P>, cur: NodeId, s: (NodeId, M), d: Descent<G, M, P>)
    requires s.0 == cur && cur in l.nodes && cur in d.arena.nodes && d.arena.nodes[cur] == l.nodes[cur]
    requires Greedy(l.nodes, s) && Taken(l.nodes, s).uct != Inf
    requires Descends(ops, d, Taken(l.nodes, s).node)
    ensures Descends(ops, d.(path := [s] + d.path), cur)
  {
    DescendsPrepend(ops, d, s);
  }

  /** A descent leaves every node that has children as it was. */
  lemma SelectKeeps<G, M(!new), P>(ops: GameOps<G, M, P>, l: NodeList<G, M, P>, cur: NodeId, depth: nat,
                                   tie: nat -> nat, y: NodeId)
    requires Walkable(ops, l) && cur in l.nodes
    requires y in l.nodes && |l.nodes[y].children| > 0
    ensures var d := Select(ops, l, cur, depth, tie); y in d.arena.nodes && d.arena.nodes[y] == l.nodes[y]
  {
  }

  lemma DescendsPrepend<G, M, P>(ops: GameOps<G, M, P>, d: Descent<G, M, P>, s: (NodeId, M))
    requires Greedy(d.arena.nodes, s) && Taken(d.arena.nodes, s).uct != Inf
    requires Descends(ops, d, Taken(d.arena.nodes, s).node)
    ensures Descends(ops, d.(path := [s] + d.path), s.0)
  {
    var ns := d.arena.nodes;
    ChainCons(ns, s, d.path, s.0, d.target);
    GreedyCons(ns, s, d.path);
    PlayedCons(ns, s, d.path);
    if |d.path| > 0 {
      assert ([s] + d.path)[|d.path|] == d.path[|d.path| - 1];
    }
  }

  lemma GreedyCons<G, M, P>(ns: Nodes<G, M, P>, s: (NodeId, M), path: seq<(NodeId, M)>)
    requires Greedy(ns, s) && forall i :: 0 <= i < |path| ==> Greedy(ns, path[i])
    ensures forall i :: 0 <= i < |[s] + path| ==> Greedy(ns, ([s] + path)[i])
  {
    forall i | 0 < i < |[s] + path|
      ensures Greedy(ns, ([s] + path)[i])
    {
      assert ([s] + path)[i] == path[i - 1];
    }
  }

  /** Every step but the last went through a played-out edge. */
  lemma PlayedCons<G, M, P>(ns: Nodes<G, M, P>, s: (NodeId, M), path: seq<(NodeId, M)>)
    requires Names(ns, s) && Taken(ns, s).uct != Inf
    requires forall i :: 0 <= i < |path| ==> Names(ns, path[i])
    requires forall i :: 0 <= i < |path| - 1 ==> Taken(ns, path[i]).uct != Inf
    ensures forall i :: 0 <= i < |[s] + path| - 1 ==> Taken(ns, ([s] + path)[i]).uct != Inf
  {
    forall i | 0 < i < |[s] + path| - 1
      ensures Taken(ns, ([s] + path)[i]).uct != Inf
    {
      assert ([s] + path)[i] == path[i - 1];
    }
  }

  /** Once a node is expanded the loop takes one of its new edges, and since
      none has been played out the descent stops there: this is why `Select`
      need not loop after an expansion. */
  lemma ExpansionStopsSelection<G, M(!new), P>(ops: GameOps<G, M, P>, l: NodeList<G, M, P>, x: NodeId)
    requires IdsIssued(l) && x in l.nodes && l.nodes[x].children == []
    requires MovesSucceed(ops, l.nodes[x].game) && ops.availableMoves(l.nodes[x].game) != []
    ensures |Expand(ops, l, x).nodes[x].children| > 0
    ensures AllMax(Expand(ops, l, x).nodes[x].children).0 == Inf
  {
    var cs := Expand(ops, l, x).nodes[x].children;
    assert ScoreLe(cs[0].1.uct, AllMax(cs).0);
  }

  // ---------------------------------------------------------------------
  // Backpropagation

  /** The playout results the thread pool hands back for one step: how many
      playouts ran and how many each player won. */
  datatype Batch<P> = Batch(num: nat, wins: map<P, nat>)

  /** No player won more playouts than were run. */
  ghost predicate BatchSound<P>(b: Batch<P>)
  {
    forall p :: p in b.wins ==> b.wins[p] <= b.num
  }

  /** The UCT scores of a node's played-out edges, recomputed from the node's
      new total; never-played edges keep their score. */
  function Rescore<M>(cs: Children<M>, total: nat, uct: (nat, nat, nat) -> NonNeg): (r: Children<M>)
    ensures |r| == |cs|
    ensures forall j :: 0 <= j < |cs| ==> r[j].0 == cs[j].0 && r[j].1 == cs[j].1.(uct := r[j].1.uct)
    ensures forall j :: 0 <= j < |cs| && cs[j].1.games == 0 ==> r[j] == cs[j]
    ensures forall j :: 0 <= j < |cs| && cs[j].1.games != 0 ==> r[j].1.uct.Fin?
  {
    seq(|cs|, j requires 0 <= j < |cs| =>
      if cs[j].1.games != 0 then (cs[j].0, cs[j].1.(uct := Fin(uct(cs[j].1.wins, cs[j].1.games, total))))
      else cs[j])
  }

  /** Node `n` after a batch went through its `i`-th edge: the node's
      playout count and the edge's playout count grow by the batch size, the
      edge's visit count by one and its wins by what the batch credits the
      player to move at `n`; then the node's edges are rescored. */
  function Bumped<G, M, P>(n: Node<G, M, P>, i: nat, b: Batch<P>, uct: (nat, nat, nat) -> NonNeg): (r: Node<G, M, P>)
    requires i < |n.children|
  {
    var e := n.children[i].1;
    var e' := e.(games := e.games + b.num, wins := e.wins + GetOr(b.wins, n.player, 0),
                 simulations := e.simulations + 1);
    var games := n.games + b.num;
    n.(games := games, children := Rescore(n.children[i := (n.children[i].0, e')], games, uct))
  }

  /** One entry `(x, mv)` of the path: bump node `x` through its edge for
      `mv`. */
  function BackpropOne<G, M(==), P>(l: NodeList<G, M, P>, s: (NodeId, M), b: Batch<P>,
                                     uct: (nat, nat, nat) -> NonNeg): (r: NodeList<G, M, P>)
    requires Names(l.nodes, s)
    ensures SameShape(l, r)
    ensures forall y :: y in l.nodes && y != s.0 ==> r.nodes[y] == l.nodes[y]
  {
    var n := l.nodes[s.0];
    var i := Find(n.children, s.1).value;
    BumpedSameShape(n, i, b, uct);
    ShapeUpdate(l, s.0, Bumped(n, i, b, uct));
    NodeList(l.nodes[s.0 := Bumped(n, i, b, uct)], l.nextId)
  }

  lemma BumpedSameShape<G, M, P>(n: Node<G, M, P>, i: nat, b: Batch<P>, uct: (nat, nat, nat) -> NonNeg)
    requires i < |n.children|
    ensures NodeSameShape(n, Bumped(n, i, b, uct))
  {
    SkeletonIntro(n, Bumped(n, i, b, uct));
  }

  /** The counters one entry changes: the node's playouts, and the taken
      edge's playouts, wins and visits; the other edges keep their counters,
      and a never-played edge keeps its score too. */
  lemma BackpropOneCounts<G, M, P>(l: NodeList<G, M, P>, s: (NodeId, M), b: Batch<P>, uct: (nat, nat, nat) -> NonNeg)
    requires Names(l.nodes, s)
    ensures var r := BackpropOne(l, s, b, uct);
      && r.nodes[s.0].games == l.nodes[s.0].games + b.num
      && Names(r.nodes, s)
      && Taken(r.nodes, s).games == Taken(l.nodes, s).games + b.num
      && Taken(r.nodes, s).wins == Taken(l.nodes, s).wins + GetOr(b.wins, l.nodes[s.0].player, 0)
      && Taken(r.nodes, s).simulations == Taken(l.nodes, s).simulations + 1
    ensures var cs, cs' := l.nodes[s.0].children, BackpropOne(l, s, b, uct).nodes[s.0].children;
      forall j :: 0 <= j < |cs| && cs[j].0 != s.1 ==>
        && cs'[j].1.games == cs[j].1.games && cs'[j].1.wins == cs[j].1.wins
        && cs'[j].1.simulations == cs[j].1.simulations
        && (cs[j].1.games == 0 ==> cs'[j] == cs[j])
  {
    var n := l.nodes[s.0];
    var i := Find(n.children, s.1).value;
    var r := BackpropOne(l, s, b, uct);
    assert r.nodes[s.0] == Bumped(n, i, b, uct);
    FindSameKeys(n.children, r.nodes[s.0].children, s.1);
  }

  /** One backpropagation entry keeps `wins <= games`, "never played means
      scored `Inf`" and "a node's playouts are its edges' playouts", as long
      as nobody won more playouts than the batch ran. */
  lemma BackpropOneStats<G, M, P>(l: NodeList<G, M, P>, s: (NodeId, M), b: Batch<P>, uct: (nat, nat, nat) -> NonNeg)
    requires Names(l.nodes, s) && StatsOk(l) && BatchSound(b)
    ensures StatsOk(BackpropOne(l, s, b, uct))
  {
    var r := BackpropOne(l, s, b, uct);
    var n := l.nodes[s.0];
    var i := Find(n.children, s.1).value;
    assert r.nodes[s.0] == Bumped(n, i, b, uct);
    assert NodeStatsOk(n);
    BumpedStats(n, i, b, uct);
    forall y | y in r.nodes
      ensures NodeStatsOk(r.nodes[y])
    {
      if y != s.0 {
        assert NodeStatsOk(l.nodes[y]);
      }
    }
  }

  lemma BumpedStats<G, M, P>(n: Node<G, M, P>, i: nat, b: Batch<P>, uct: (nat, nat, nat) -> NonNeg)
    requires NodeStatsOk(n) && i < |n.children| && BatchSound(b)
    ensures NodeStatsOk(Bumped(n, i, b, uct))
  {
    BumpedSum(n, i, b, uct);
    forall j | 0 <= j < |n.children|
      ensures EdgeStatsOk(Bumped(n, i, b, uct).children[j].1)
    {
      BumpedEdge(n, i, b, uct, j);
    }
  }

  /** The node's count stays the sum of its edges' counts: both grow by the
      batch size, and rescoring leaves counts alone. */
  lemma BumpedSum<G, M, P>(n: Node<G, M, P>, i: nat, b: Batch<P>, uct: (nat, nat, nat) -> NonNeg)
    requires n.games == SumGames(n.children) && i < |n.children|
    ensures Bumped(n, i, b, uct).games == SumGames(Bumped(n, i, b, uct).children)
  {
    var e := n.children[i].1;
    var e' := e.(games := e.games + b.num, wins := e.wins + GetOr(b.wins, n.player, 0),
                 simulations := e.simulations + 1);
    var cs1 := n.children[i := (n.children[i].0, e')];
    var bn := Bumped(n, i, b, uct);
    assert bn.children == Rescore(cs1, n.games + b.num, uct) && bn.games == n.games + b.num;
    RescoreSum(cs1, n.games + b.num, uct);
    SumGamesUpdate(n.children, i, (n.children[i].0, e'));
    assert SumGames(cs1) == SumGames(n.children) + b.num;
  }

  lemma RescoreSum<M>(cs: Children<M>, total: nat, uct: (nat, nat, nat) -> NonNeg)
    ensures SumGames(Rescore(cs, total, uct)) == SumGames(cs)
  {
    var r := Rescore(cs, total, uct);
    forall j | 0 <= j < |cs|
      ensures cs[j].1.games == r[j].1.games
    {
    }
    SumGamesSame(cs, r);
  }

  /** Each edge keeps `wins <= games`, and an edge left unplayed keeps its
      infinite score. */
  lemma BumpedEdge<G, M, P>(n: Node<G, M, P>, i: nat, b: Batch<P>, uct: (nat, nat, nat) -> NonNeg, j: nat)
    requires i < |n.children| && j < |n.children| && BatchSound(b) && EdgeStatsOk(n.children[j].1)
    ensures EdgeStatsOk(Bumped(n, i, b, uct).children[j].1)
  {
    if j == i {
      assert GetOr(b.wins, n.player, 0) <= b.num;
    }
  }

  /** Backpropagation along the whole path, first entry first. The source
      unwraps the edge each entry names, so every entry must name one. */
  function Backprop<G, M(==), P>(l: NodeList<G, M, P>, path: seq<(NodeId, M)>, b: Batch<P>,
                                  uct: (nat, nat, nat) -> NonNeg): (r: NodeList<G, M, P>)
    requires forall i :: 0 <= i < |path| ==> Names(l.nodes, path[i])
    ensures SameShape(l, r)
  {
    BackpropShape(l, path, |path|, b, uct);
    BackpropUpTo(l, path, |path|, b, uct)
  }

  /** Backpropagation along the first `n` entries of the path. An entry that
      names no edge is skipped; under `Backprop`'s precondition there is
      none. */
  function BackpropUpTo<G, M(==), P>(l: NodeList<G, M, P>, path: seq<(NodeId, M)>, n: nat, b: Batch<P>,
                                      uct: (nat, nat, nat) -> NonNeg): NodeList<G, M, P>
    requires n <= |path|
    decreases n
  {
    if n == 0 then l
    else
      BackpropStep(BackpropUpTo(l, path, n - 1, b, uct), path[n - 1], b, uct)
  }

  /** One entry of the fold: `BackpropOne` where the entry names an edge. */
  function BackpropStep<G, M(==), P>(pre: NodeList<G, M, P>, s: (NodeId, M), b: Batch<P>,
                                      uct: (nat, nat, nat) -> NonNeg): NodeList<G, M, P>
  {
    if s.0 in pre.nodes && Find(pre.nodes[s.0].children, s.1).Some? then BackpropOne(pre, s, b, uct) else pre
  }

  /** A step leaves every node but the entry's own as it was. */
  lemma BackpropStepKeeps<G, M, P>(pre: NodeList<G, M, P>, s: (NodeId, M), b: Batch<P>, uct: (nat, nat, nat) -> NonNeg,
                                   y: NodeId)
    requires y in pre.nodes && y != s.0
    ensures var r := BackpropStep(pre, s, b, uct); y in r.nodes && r.nodes[y] == pre.nodes[y]
  {
  }

  /** A step bumps the entry's node through the edge it names. */
  lemma BackpropStepBumps<G, M, P>(pre: NodeList<G, M, P>, s: (NodeId, M), b: Batch<P>, uct: (nat, nat, nat) -> NonNeg)
    requires Names(pre.nodes, s)
    ensures var r := BackpropStep(pre, s, b, uct);
      s.0 in r.nodes && r.nodes[s.0] == Bumped(pre.nodes[s.0], Find(pre.nodes[s.0].children, s.1).value, b, uct)
  {
  }

  lemma {:induction false} BackpropShape<G, M, P>(l: NodeList<G, M, P>, path: seq<(NodeId, M)>, n: nat, b: Batch<P>,
                                                  uct: (nat, nat, nat) -> NonNeg)
    requires n <= |path|
    ensures SameShape(l, BackpropUpTo(l, path, n, b, uct))
    decreases n
  {
    if n > 0 {
      BackpropShape(l, path, n - 1, b, uct);
    }
  }

  /** A node that none of the first `n` entries names is left as it was. */
  lemma {:induction false} BackpropFrame<G, M, P>(l: NodeList<G, M, P>, path: seq<(NodeId, M)>, n: nat, b: Batch<P>,
                                                  uct: (nat, nat, nat) -> NonNeg, y: NodeId)
    requires n <= |path| && y in l.nodes && forall i :: 0 <= i < n ==> path[i].0 != y
    ensures var r := BackpropUpTo(l, path, n, b, uct); y in r.nodes && r.nodes[y] == l.nodes[y]
    decreases n
  {
    if n > 0 {
      BackpropFrame(l, path, n - 1, b, uct, y);
      BackpropStepKeeps(BackpropUpTo(l, path, n - 1, b, uct), path[n - 1], b, uct, y);
    }
  }

  /** Nodes off the path keep their state. */
  lemma BackpropOffPath<G, M, P>(l: NodeList<G, M, P>, path: seq<(NodeId, M)>, b: Batch<P>, uct: (nat, nat, nat) -> NonNeg)
    requires forall i :: 0 <= i < |path| ==> Names(l.nodes, path[i])
    ensures var r := Backprop(l, path, b, uct);
      forall y :: y in l.nodes && (forall i :: 0 <= i < |path| ==> path[i].0 != y) ==> r.nodes[y] == l.nodes[y]
  {
    forall y | y in l.nodes && (forall i :: 0 <= i < |path| ==> path[i].0 != y)
      ensures Backprop(l, path, b, uct).nodes[y] == l.nodes[y]
    {
      BackpropFrame(l, path, |path|, b, uct, y);
    }
  }

  /** Backpropagation keeps the counters consistent. */
  lemma BackpropStats<G, M, P>(l: NodeList<G, M, P>, path: seq<(NodeId, M)>, b: Batch<P>, uct: (nat, nat, nat) -> NonNeg)
    requires forall i :: 0 <= i < |path| ==> Names(l.nodes, path[i])
    requires StatsOk(l) && BatchSound(b)
    ensures StatsOk(Backprop(l, path, b, uct))
  {
    BackpropUpToStats(l, path, |path|, b, uct);
  }

  lemma {:induction false} BackpropUpToStats<G, M, P>(l: NodeList<G, M, P>, path: seq<(NodeId, M)>, n: nat, b: Batch<P>,
                                                      uct: (nat, nat, nat) -> NonNeg)
    requires n <= |path| && StatsOk(l) && BatchSound(b)
    ensures StatsOk(BackpropUpTo(l, path, n, b, uct))
    decreases n
  {
    if n > 0 {
      BackpropUpToStats(l, path, n - 1, b, uct);
      BackpropStepStats(BackpropUpTo(l, path, n - 1, b, uct), path[n - 1], b, uct);
    }
  }

  /** One step of the fold keeps the counters consistent. */
  lemma BackpropStepStats<G, M, P>(pre: NodeList<G, M, P>, s: (NodeId, M), b: Batch<P>, uct: (nat, nat, nat) -> NonNeg)
    requires StatsOk(pre) && BatchSound(b)
    ensures StatsOk(BackpropStep(pre, s, b, uct))
  {
    if Names(pre.nodes, s) {
      BackpropOneStats(pre, s, b, uct);
    }
  }

  /** Backpropagation keeps the tree invariant. */
  lemma BackpropValid<G, M, P>(ops: GameOps<G, M, P>, l: NodeList<G, M, P>, root: NodeId, path: seq<(NodeId, M)>,
                               b: Batch<P>, uct: (nat, nat, nat) -> NonNeg)
    requires forall i :: 0 <= i < |path| ==> Names(l.nodes, path[i])
    requires Valid(ops, l, root) && BatchSound(b)
    ensures Valid(ops, Backprop(l, path, b, uct), root)
  {
    var r := Backprop(l, path, b, uct);
    LinkedSameShape(ops, l, r, root);
    BackpropStats(l, path, b, uct);
  }

  /** No node appears twice on the path. */
  ghost predicate NodesDistinct<M>(path: seq<(NodeId, M)>)
  {
    forall i, j :: 0 <= i < j < |path| ==> path[i].0 != path[j].0
  }

  /** Along a path through distinct nodes, every node on it is bumped
      exactly once, through the edge the path names. */
  lemma BackpropOnPath<G, M, P>(l: NodeList<G, M, P>, path: seq<(NodeId, M)>, b: Batch<P>,
                                uct: (nat, nat, nat) -> NonNeg, k: nat)
    requires forall i :: 0 <= i < |path| ==> Names(l.nodes, path[i])
    requires NodesDistinct(path) && k < |path|
    ensures var x := path[k].0;
      Backprop(l, path, b, uct).nodes[x] == Bumped(l.nodes[x], Find(l.nodes[x].children, path[k].1).value, b, uct)
  {
    BackpropUpToOnPath(l, path, |path|, b, uct, k);
  }

  lemma {:induction false} BackpropUpToOnPath<G, M, P>(l: NodeList<G, M, P>, path: seq<(NodeId, M)>, n: nat,
                                                       b: Batch<P>, uct: (nat, nat, nat) -> NonNeg, k: nat)
    requires k < n <= |path| && Names(l.nodes, path[k])
    requires forall i :: 0 <= i < n && i != k ==> path[i].0 != path[k].0
    ensures var x, r := path[k].0, BackpropUpTo(l, path, n, b, uct);
      x in r.nodes && r.nodes[x] == Bumped(l.nodes[x], Find(l.nodes[x].children, path[k].1).value, b, uct)
    decreases n
  {
    var pre := BackpropUpTo(l, path, n - 1, b, uct);
    if k == n - 1 {
      BackpropFrame(l, path, n - 1, b, uct, path[k].0);
      BackpropStepBumps(pre, path[k], b, uct);
    } else {
      BackpropUpToOnPath(l, path, n - 1, b, uct, k);
      BackpropStepKeeps(pre, path[n - 1], b, uct, path[k].0);
    }
  }

  // ---------------------------------------------------------------------
  // The whole step

  /** What one step reports: the new arena, the path it backpropagated
      along, the node it simulated from and the number of playouts. */
  datatype StepResult<G, M, P> = StepResult(arena: NodeList<G, M, P>, path: seq<(NodeId, M)>, target: NodeId, num: nat)

  /** `montecarlo`: select (expanding at the leaf), take the batch of
      playouts run from the target, backpropagate it along the path and
      return the playout count. */
  function Step<G, M(!new,==), P>(ops: GameOps<G, M, P>, l: NodeList<G, M, P>, root: NodeId, tie: nat -> nat,
                                   batch: Batch<P>, uct: (nat, nat, nat) -> NonNeg): (r: StepResult<G, M, P>)
    requires Walkable(ops, l) && root in l.nodes
    ensures r.num == batch.num
  {
    var d := Select(ops, l, root, 0, tie);
    SelectDescends(ops, l, root, 0, tie);
    StepResult(Backprop(d.arena, d.path, batch, uct), d.path, d.target, batch.num)
  }

  /** A search step keeps the tree invariant, as long as the batch credits
      no player more wins than it ran playouts. */
  lemma StepKeepsValid<G(!new), M(!new), P>(ops: GameOps<G, M, P>, l: NodeList<G, M, P>, root: NodeId, tie: nat -> nat,
                                               batch: Batch<P>, uct: (nat, nat, nat) -> NonNeg)
    requires Lawful(ops) && Valid(ops, l, root) && BatchSound(batch)
    ensures Walkable(ops, l)
    ensures Valid(ops, Step(ops, l, root, tie, batch, uct).arena, root)
  {
    ValidWalkable(ops, l, root);
    var d := Select(ops, l, root, 0, tie);
    SelectDescends(ops, l, root, 0, tie);
    if d.expanded.Some? {
      ExpandKeepsValid(ops, l, root, d.expanded.value);
    }
    BackpropValid(ops, d.arena, root, d.path, batch, uct);
  }

  /** Expanding a node that has no legal moves changes nothing. */
  lemma ExpandNothing<G, M(!new), P>(ops: GameOps<G, M, P>, l: NodeList<G, M, P>, x: NodeId)
    requires IdsIssued(l) && x in l.nodes && l.nodes[x].children == []
    requires ops.availableMoves(l.nodes[x].game) == []
    ensures Expand(ops, l, x) == l
  {
    var r := Expand(ops, l, x);
    assert r.nodes == l.nodes;
  }

  /** The step backpropagates along an empty path exactly when the root is
      terminal, and then it leaves the arena as it was. */
  lemma StepAtTerminalRoot<G, M(!new), P>(ops: GameOps<G, M, P>, l: NodeList<G, M, P>, root: NodeId, tie: nat -> nat,
                                             batch: Batch<P>, uct: (nat, nat, nat) -> NonNeg)
    requires Walkable(ops, l) && root in l.nodes
    ensures Step(ops, l, root, tie, batch, uct).path == [] <==> Terminal(ops, l.nodes, root)
    ensures Terminal(ops, l.nodes, root) ==>
      Step(ops, l, root, tie, batch, uct).arena == l && Step(ops, l, root, tie, batch, uct).target == root
  {
    if Terminal(ops, l.nodes, root) {
      ExpandNothing(ops, l, root);
    }
  }

  /** In a linked arena node ids grow along a chain of edges, so a chain
      never visits a node twice. */
  lemma {:induction false} ChainIncreasing<G, M, P>(ops: GameOps<G, M, P>, l: NodeList<G, M, P>, root: NodeId,
                                                    steps: seq<(NodeId, M)>, from: NodeId, to: NodeId, i: nat, j: nat)
    requires Linked(ops, l, root) && Chain(l.nodes, steps, from, to) && i < j < |steps|
    ensures steps[i].0 < steps[j].0
    decreases j - i
  {
    var s := steps[j - 1];
    var k := Find(l.nodes[s.0].children, s.1).value;
    assert Taken(l.nodes, s).node == steps[j].0;
    assert NodeLinked(ops, l.nodes, s.0);
    assert EdgeLinked(ops, l.nodes, s.0, k);
    if i < j - 1 {
      ChainIncreasing(ops, l, root, steps, from, to, i, j - 1);
    }
  }

  lemma ChainDistinct<G, M, P>(ops: GameOps<G, M, P>, l: NodeList<G, M, P>, root: NodeId,
                               steps: seq<(NodeId, M)>, from: NodeId, to: NodeId)
    requires Linked(ops, l, root) && Chain(l.nodes, steps, from, to)
    ensures NodesDistinct(steps)
  {
    forall i, j | 0 <= i < j < |steps|
      ensures steps[i].0 != steps[j].0
    {
      ChainIncreasing(ops, l, root, steps, from, to, i, j);
    }
  }

  /** What one step does to the counters: each node on the selected path
      (all distinct) is bumped once through the edge the path names, and
      every node off the path keeps the state selection left it in. */
  lemma StepBumpsPath<G(!new), M(!new), P>(ops: GameOps<G, M, P>, l: NodeList<G, M, P>, root: NodeId, tie: nat -> nat,
                                              batch: Batch<P>, uct: (nat, nat, nat) -> NonNeg, k: nat)
    requires Lawful(ops) && Valid(ops, l, root)
    ensures Walkable(ops, l)
    ensures var d, r := Select(ops, l, root, 0, tie), Step(ops, l, root, tie, batch, uct);
      && r.path == d.path && NodesDistinct(r.path)
      && r.arena.nodes.Keys == d.arena.nodes.Keys
      && (forall y :: y in d.arena.nodes && (forall i :: 0 <= i < |r.path| ==> r.path[i].0 != y) ==>
            r.arena.nodes[y] == d.arena.nodes[y])
      && (k < |r.path| ==>
            var x := r.path[k].0;
            && Names(d.arena.nodes, r.path[k])
            && r.arena.nodes[x] == Bumped(d.arena.nodes[x], Find(d.arena.nodes[x].children, r.path[k].1).value, batch, uct))
  {
    ValidWalkable(ops, l, root);
    var d := Select(ops, l, root, 0, tie);
    SelectDescends(ops, l, root, 0, tie);
    if d.expanded.Some? {
      ExpandKeepsValid(ops, l, root, d.expanded.value);
    }
    ChainDistinct(ops, d.arena, root, d.path, root, d.target);
    BackpropOffPath(d.arena, d.path, batch, uct);
    if k < |d.path| {
      BackpropOnPath(d.arena, d.path, batch, uct, k);
    }
  }
}
