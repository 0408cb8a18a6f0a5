/** The search tree's records: a node per explored position and, per legal
    move out of it, an edge (`Child`) carrying the move's statistics.

    A node's children are the Rust `HashMap<Move, Child>`; here they are the
    map's entries in its iteration order, with distinct moves. */
module Tree {
  import opened Util
  import opened GameContract

  type NodeId = nat

  type NonNeg = r: real | r >= 0.0

  /** The UCT selection score: `Inf` for an edge never played out, otherwise a
      finite non-negative value. */
  datatype Score = Inf | Fin(value: NonNeg)

  predicate ScoreLt(a: Score, b: Score)
  {
    match (a, b)
    case (Fin(x), Fin(y)) => x < y
    case (Fin(_), Inf) => true
    case (Inf, _) => false
  }

  predicate ScoreLe(a: Score, b: Score)
  {
    a == b || ScoreLt(a, b)
  }

  /** Rust `Child`. `games` and `wins` count playouts, `simulations` counts
      how often the edge was on a backpropagated path. */
  datatype Edge = Edge(games: nat, wins: nat, uct: Score, simulations: nat, node: NodeId)

  type Children<M> = seq<(M, Edge)>

  /** Rust `MoveTreeNode`. */
  datatype Node<G, M, P> = Node(
    game: G,
    player: P,
    games: nat,
    parent: Option<NodeId>,
    children: Children<M>)

  function NewRoot<G, M, P>(ops: GameOps<G, M, P>, game: G): (n: Node<G, M, P>)
    ensures n.game == game && n.player == ops.curPlayer(game)
    ensures n.games == 0 && n.children == []
    ensures n.parent == None
  {
    Node(game, ops.curPlayer(game), 0, None, [])
  }

  function NewChild<G, M, P>(ops: GameOps<G, M, P>, game: G, parent: NodeId): (n: Node<G, M, P>)
    ensures n.game == game && n.player == ops.curPlayer(game)
    ensures n.games == 0 && n.children == []
    ensures n.parent == Some(parent)
  {
    Node(game, ops.curPlayer(game), 0, Some(parent), [])
  }

  predicate KeysDistinct<M(==)>(cs: Children<M>)
  {
    forall i, j :: 0 <= i < j < |cs| ==> cs[i].0 != cs[j].0
  }

  /** `children.get(&mv)`: the position of the entry for `mv`. */
  function Find<M(==)>(cs: Children<M>, mv: M): (r: Option<nat>)
    ensures r.Some? ==> r.value < |cs| && cs[r.value].0 == mv
    ensures r.None? <==> forall i :: 0 <= i < |cs| ==> cs[i].0 != mv
  {
    if |cs| == 0 then None
    else if cs[0].0 == mv then Some(0)
    else match Find(cs[1..], mv)
      case Some(i) => Some(i + 1)
      case None => None
  }

  /** `children.insert(mv, e)`: overwrite the entry for `mv` or add one. */
  function Insert<M(!new,==)>(cs: Children<M>, mv: M, e: Edge): (r: Children<M>)
    ensures Find(r, mv).Some? && r[Find(r, mv).value].1 == e
    ensures forall m :: m != mv ==> Find(r, m) == Find(cs, m)
    ensures |r| == |cs| || |r| == |cs| + 1
    ensures forall i :: 0 <= i < |cs| && cs[i].0 != mv ==> r[i] == cs[i]
    ensures KeysDistinct(cs) ==> KeysDistinct(r)
    ensures Find(cs, mv).None? ==> r == cs + [(mv, e)]
    ensures forall i :: 0 <= i < |r| ==> r[i] == (mv, e) || (i < |cs| && r[i] == cs[i])
  {
    match Find(cs, mv)
    case Some(i) =>
      var r := cs[i := (mv, e)];
      forall m { FindSameKeys(cs, r, m); }
      r
    case None =>
      var r := cs + [(mv, e)];
      forall m { FindAppend(cs, (mv, e), m); }
      r
  }

  /** `Find` looks at the keys only. */
  lemma {:induction false} FindSameKeys<M>(a: Children<M>, b: Children<M>, m: M)
    requires |a| == |b| && forall i :: 0 <= i < |a| ==> a[i].0 == b[i].0
    ensures Find(a, m) == Find(b, m)
  {
    if |a| > 0 && a[0].0 != m {
      FindSameKeys(a[1..], b[1..], m);
    }
  }

  lemma {:induction false} FindAppend<M>(cs: Children<M>, x: (M, Edge), m: M)
    ensures Find(cs + [x], m) ==
      (if Find(cs, m).Some? then Find(cs, m) else if x.0 == m then Some(|cs|) else None)
  {
    if |cs| > 0 && cs[0].0 != m {
      assert (cs + [x])[1..] == cs[1..] + [x];
      FindAppend(cs[1..], x, m);
    }
  }

  /** The ids the node's edges point to. */
  function Kids<M>(cs: Children<M>): (r: seq<NodeId>)
    ensures |r| == |cs|
    ensures forall i :: 0 <= i < |cs| ==> r[i] == cs[i].1.node
  {
    seq(|cs|, i requires 0 <= i < |cs| => cs[i].1.node)
  }

  /** Sum of the edges' playout counts. */
  function SumGames<M>(cs: Children<M>): nat
  {
    if |cs| == 0 then 0 else SumGames(cs[..|cs| - 1]) + cs[|cs| - 1].1.games
  }

  /** `SumGames` looks at the playout counts only. */
  lemma {:induction false} SumGamesSame<M>(a: Children<M>, b: Children<M>)
    requires |a| == |b| && forall i :: 0 <= i < |a| ==> a[i].1.games == b[i].1.games
    ensures SumGames(a) == SumGames(b)
  {
    if |a| > 0 {
      SumGamesSame(a[..|a| - 1], b[..|b| - 1]);
    }
  }

  /** Changing one edge's count changes the sum by the difference. */
  lemma {:induction false} SumGamesUpdate<M>(cs: Children<M>, i: nat, x: (M, Edge))
    requires i < |cs|
    ensures SumGames(cs[i := x]) + cs[i].1.games == SumGames(cs) + x.1.games
  {
    var n := |cs| - 1;
    if i < n {
      assert cs[i := x][..n] == cs[..n][i := x];
      SumGamesUpdate(cs[..n], i, x);
    } else {
      assert cs[i := x][..n] == cs[..n];
    }
  }

  /** Appending edges adds their counts. */
  lemma {:induction false} SumGamesAppend<M>(a: Children<M>, b: Children<M>)
    ensures SumGames(a + b) == SumGames(a) + SumGames(b)
    decreases |b|
  {
    if |b| > 0 {
      var n := |b| - 1;
      assert (a + b)[..|a + b| - 1] == a + b[..n];
      SumGamesAppend(a, b[..n]);
    } else {
      assert a + b == a;
    }
  }

  /** Edges that were never played out sum to nothing. */
  lemma {:induction false} SumGamesZero<M>(cs: Children<M>)
    requires forall i :: 0 <= i < |cs| ==> cs[i].1.games == 0
    ensures SumGames(cs) == 0
  {
    if |cs| > 0 {
      SumGamesZero(cs[..|cs| - 1]);
    }
  }

  /** With distinct moves, looking an entry's move up finds that entry. */
  lemma FindDistinct<M>(cs: Children<M>, i: nat)
    requires KeysDistinct(cs) && i < |cs|
    ensures Find(cs, cs[i].0) == Some(i)
  {
    var r := Find(cs, cs[i].0);
    assert r.Some?;
  }
}
