/** The engine thread: the arena with its current root and the running
    playout count, the two requests it answers (`Info` and `MakeMove`),
    and the loop that answers every pending request and then runs one
    search step. */
module Engine {
  import opened Util
  import opened GameContract
  import opened Tree
  import opened Arena
  import opened TreeInvariant
  import opened MonteCarlo
  import opened Rerooting

  // ---------------------------------------------------------------------
  // best_move

  /** The entry `best_move` picks: `max_by` on the edges' visit counts,
      which keeps the later of two equal entries, so the result is the
      last entry with the most visits. */
  function BestIndex<M>(cs: Children<M>): (r: Option<nat>)
    ensures r.None? <==> |cs| == 0
    ensures r.Some? ==> r.value < |cs|
    ensures r.Some? ==> forall j :: 0 <= j < |cs| ==> cs[j].1.simulations <= cs[r.value].1.simulations
    ensures r.Some? ==> forall j :: r.value < j < |cs| ==> cs[j].1.simulations < cs[r.value].1.simulations
  {
    if |cs| == 0 then None
    else
      var last := |cs| - 1;
      match BestIndex(cs[..last])
      case None => Some(last)
      case Some(i) =>
        assert forall j :: 0 <= j < last ==> cs[..last][j] == cs[j];
        if cs[i].1.simulations <= cs[last].1.simulations then Some(last) else Some(i)
  }

  /** The two properties single the entry out: no other entry has the most
      visits with only fewer-visited entries after it. */
  lemma BestIndexUnique<M>(cs: Children<M>, k: nat)
    requires k < |cs|
    requires forall j :: 0 <= j < |cs| ==> cs[j].1.simulations <= cs[k].1.simulations
    requires forall j :: k < j < |cs| ==> cs[j].1.simulations < cs[k].1.simulations
    ensures BestIndex(cs) == Some(k)
  {
  }

  /** `best_move`: the move of the root's most visited edge, if any. */
  function BestMove<G, M, P>(l: NodeList<G, M, P>, root: NodeId): (r: Option<M>)
    requires root in l.nodes
    ensures r.None? <==> l.nodes[root].children == []
    ensures r.Some? ==> exists i :: 0 <= i < |l.nodes[root].children| && l.nodes[root].children[i].0 == r.value
  {
    var cs := l.nodes[root].children;
    match BestIndex(cs)
    case None => None
    case Some(i) => Some(cs[i].0)
  }

  // ---------------------------------------------------------------------
  // Info

  /** The confidence figure: the best edge's wins over its playouts (a
      quotient the model leaves unevaluated), or zero without a move. */
  datatype Confidence = Zero | Ratio(wins: nat, games: nat)

  /** The `Info` response; the elapsed time is not modelled. */
  datatype InfoReply<M> = InfoReply(bestMove: Option<M>, confidence: Confidence, totalSims: nat)

  /** Engine state between requests: the arena, the current root and the
      playouts counted so far. */
  datatype State<G, M, P> = State(arena: NodeList<G, M, P>, root: NodeId, numSims: nat)

  /** The `Info` handler: the best move, the statistics of the edge the
      root's map returns for it, and the playout count. */
  function Info<G, M(==), P>(e: State<G, M, P>): (r: InfoReply<M>)
    requires e.root in e.arena.nodes
    ensures r.bestMove == BestMove(e.arena, e.root) && r.totalSims == e.numSims
    ensures r.confidence.Zero? <==> r.bestMove.None?
  {
    var cs := Get(e.arena, e.root).children;
    var mv := BestMove(e.arena, e.root);
    var confidence :=
      match mv
      case None => Zero
      case Some(m) =>
        var j := Find(cs, m);
        if j.Some? then Ratio(cs[j.value].1.wins, cs[j.value].1.games) else Zero;
    InfoReply(mv, confidence, e.numSims)
  }

  /** In a tree whose root has distinct moves, `Info` reports the last most
      visited edge and that same edge's statistics; with consistent
      counters the reported wins never exceed the reported playouts. */
  lemma InfoReportsBest<G, M, P>(e: State<G, M, P>)
    requires e.root in e.arena.nodes && KeysDistinct(e.arena.nodes[e.root].children)
    requires |e.arena.nodes[e.root].children| > 0
    ensures var cs := e.arena.nodes[e.root].children;
            var i := BestIndex(cs).value;
      && Info(e).bestMove == Some(cs[i].0)
      && Info(e).confidence == Ratio(cs[i].1.wins, cs[i].1.games)
      && (forall j :: 0 <= j < |cs| ==> cs[j].1.simulations <= cs[i].1.simulations)
    ensures NodeStatsOk(e.arena.nodes[e.root]) ==> Info(e).confidence.wins <= Info(e).confidence.games
  {
    var cs := e.arena.nodes[e.root].children;
    var i := BestIndex(cs).value;
    FindDistinct(cs, i);
    assert EdgeStatsOk(cs[i].1) <== NodeStatsOk(e.arena.nodes[e.root]);
  }

  // ---------------------------------------------------------------------
  // Requests

  datatype Request<M> = InfoRequest | MakeMove(mv: M)

  datatype Response<M> = InfoResponse(info: InfoReply<M>) | Ok

  /** The engine at start-up: an empty arena holding just the root for the
      initial position, and no playouts. */
  function Init<G, M, P>(ops: GameOps<G, M, P>, game: G): (e: State<G, M, P>)
    ensures e.arena.nodes == map[e.root := NewRoot(ops, game)]
    ensures e.root < e.arena.nextId && e.numSims == 0
  {
    var (l, root) := Add(EmptyList(), NewRoot(ops, game));
    State(l, root, 0)
  }

  /** Starting from a reachable position gives a valid tree. */
  lemma InitValid<G, M, P>(ops: GameOps<G, M, P>, game: G)
    requires ops.valid(game)
    ensures Valid(ops, Init(ops, game).arena, Init(ops, game).root)
  {
    var e := Init(ops, game);
    assert NodeLinked(ops, e.arena.nodes, e.root);
  }

  /** The handler would not panic on this request. */
  ghost predicate CanHandle<G, M, P>(ops: GameOps<G, M, P>, e: State<G, M, P>, req: Request<M>)
  {
    && e.root in e.arena.nodes
    && (req.MakeMove? ==> RerootDefined(ops, e.arena, e.root, req.mv))
  }

  /** One request: `Info` reports and changes nothing; `MakeMove` re-roots
      the tree and answers `Ok`. */
  function Handle<G, M(==), P>(ops: GameOps<G, M, P>, e: State<G, M, P>, req: Request<M>): (r: (State<G, M, P>, Response<M>))
    requires CanHandle(ops, e, req)
    ensures r.0.numSims == e.numSims
    ensures r.0.root in r.0.arena.nodes
    ensures req.InfoRequest? <==> r.1.InfoResponse?
  {
    match req
    case InfoRequest => (e, InfoResponse(Info(e)))
    case MakeMove(mv) =>
      var (l, root) := Reroot(ops, e.arena, e.root, mv);
      (State(l, root, e.numSims), Ok)
  }

  /** The request is one the handler can carry out in a valid tree: `Info`
      always, `MakeMove` for an expanded or legal move. */
  ghost predicate Acceptable<G, M, P>(ops: GameOps<G, M, P>, e: State<G, M, P>, req: Request<M>)
  {
    && e.root in e.arena.nodes
    && (req.MakeMove? ==> MoveAcceptable(ops, e.arena, e.root, req.mv))
  }

  /** Handling an acceptable request keeps the tree valid; `Info` leaves
      the engine as it was, and after `MakeMove` the root holds the
      position the move produces from the old root. */
  lemma HandleKeepsValid<G(!new), M(!new), P>(ops: GameOps<G, M, P>, e: State<G, M, P>, req: Request<M>)
    requires Lawful(ops) && Valid(ops, e.arena, e.root) && Acceptable(ops, e, req)
    ensures CanHandle(ops, e, req)
    ensures Valid(ops, Handle(ops, e, req).0.arena, Handle(ops, e, req).0.root)
    ensures req.InfoRequest? ==> Handle(ops, e, req).0 == e
    ensures req.MakeMove? ==>
      ops.makeMove(e.arena.nodes[e.root].game, req.mv) ==
        Some(Handle(ops, e, req).0.arena.nodes[Handle(ops, e, req).0.root].game)
  {
    if req.MakeMove? {
      RerootKeepsValid(ops, e.arena, e.root, req.mv);
    }
  }

  // ---------------------------------------------------------------------
  // The loop

  /** One search step, its playouts added to the count. */
  function Think<G, M(!new,==), P>(ops: GameOps<G, M, P>, e: State<G, M, P>, tie: nat -> nat, batch: Batch<P>,
                                    uct: (nat, nat, nat) -> NonNeg): (r: State<G, M, P>)
    requires Walkable(ops, e.arena) && e.root in e.arena.nodes
    ensures r.root == e.root && r.numSims == e.numSims + batch.num
  {
    var s := MonteCarlo.Step(ops, e.arena, e.root, tie, batch, uct);
    State(s.arena, e.root, e.numSims + s.num)
  }

  /** A search step keeps the tree valid. */
  lemma ThinkKeepsValid<G(!new), M(!new), P>(ops: GameOps<G, M, P>, e: State<G, M, P>, tie: nat -> nat, batch: Batch<P>,
                                                uct: (nat, nat, nat) -> NonNeg)
    requires Lawful(ops) && Valid(ops, e.arena, e.root) && BatchSound(batch)
    ensures Walkable(ops, e.arena)
    ensures Valid(ops, Think(ops, e, tie, batch, uct).arena, e.root)
  {
    StepKeepsValid(ops, e.arena, e.root, tie, batch, uct);
  }

  /** Every request in turn can be handled without panicking. */
  ghost predicate AllHandleable<G, M, P>(ops: GameOps<G, M, P>, e: State<G, M, P>, reqs: seq<Request<M>>)
    decreases |reqs|
  {
    |reqs| == 0 || (CanHandle(ops, e, reqs[0]) && AllHandleable(ops, Handle(ops, e, reqs[0]).0, reqs[1..]))
  }

  /** Every request in turn is acceptable in the state the earlier ones
      leave. */
  ghost predicate AllAcceptable<G, M, P>(ops: GameOps<G, M, P>, e: State<G, M, P>, reqs: seq<Request<M>>)
    decreases |reqs|
  {
    |reqs| == 0 ||
      (Acceptable(ops, e, reqs[0]) && CanHandle(ops, e, reqs[0]) && AllAcceptable(ops, Handle(ops, e, reqs[0]).0, reqs[1..]))
  }

  /** One reply per request, in order, each of the kind its request asks
      for. */
  predicate Answers<M>(reqs: seq<Request<M>>, resps: seq<Response<M>>)
  {
    |resps| == |reqs| && forall i :: 0 <= i < |reqs| ==> (reqs[i].InfoRequest? <==> resps[i].InfoResponse?)
  }

  lemma AnswersCons<M>(reqs: seq<Request<M>>, resp: Response<M>, rest: seq<Response<M>>)
    requires |reqs| > 0 && (reqs[0].InfoRequest? <==> resp.InfoResponse?) && Answers(reqs[1..], rest)
    ensures Answers(reqs, [resp] + rest)
  {
    forall i | 0 < i < |reqs|
      ensures reqs[i].InfoRequest? <==> ([resp] + rest)[i].InfoResponse?
    {
      assert reqs[i] == reqs[1..][i - 1];
    }
  }

  /** The inner `while let`: answer the pending requests in arrival order. */
  function HandleAll<G, M(==), P>(ops: GameOps<G, M, P>, e: State<G, M, P>, reqs: seq<Request<M>>): (r: (State<G, M, P>, seq<Response<M>>))
    requires AllHandleable(ops, e, reqs)
    ensures Answers(reqs, r.1)
    ensures r.0.numSims == e.numSims
    ensures |reqs| == 0 ==> r.0 == e
    ensures |reqs| > 0 ==> r.0.root in r.0.arena.nodes
    decreases |reqs|
  {
    if |reqs| == 0 then (e, [])
    else
      var (e1, resp) := Handle(ops, e, reqs[0]);
      var (e2, rest) := HandleAll(ops, e1, reqs[1..]);
      AnswersCons(reqs, resp, rest);
      (e2, [resp] + rest)
  }

  /** Answering acceptable requests one after another keeps the tree
      valid. */
  lemma {:induction false} HandleAllKeepsValid<G(!new), M(!new), P>(ops: GameOps<G, M, P>, e: State<G, M, P>,
                                                                   reqs: seq<Request<M>>)
    requires Lawful(ops) && Valid(ops, e.arena, e.root) && AllAcceptable(ops, e, reqs)
    ensures AllHandleable(ops, e, reqs)
    ensures Valid(ops, HandleAll(ops, e, reqs).0.arena, HandleAll(ops, e, reqs).0.root)
    decreases |reqs|
  {
    if |reqs| > 0 {
      HandleKeepsValid(ops, e, reqs[0]);
      HandleAllKeepsValid(ops, Handle(ops, e, reqs[0]).0, reqs[1..]);
    }
  }

  /** One turn of the engine loop: answer the pending requests, then run
      one search step from the (possibly new) root. */
  function Round<G, M(!new,==), P>(ops: GameOps<G, M, P>, e: State<G, M, P>, reqs: seq<Request<M>>, tie: nat -> nat,
                                    batch: Batch<P>, uct: (nat, nat, nat) -> NonNeg): (r: (State<G, M, P>, seq<Response<M>>))
    requires e.root in e.arena.nodes
    requires AllHandleable(ops, e, reqs) && Walkable(ops, HandleAll(ops, e, reqs).0.arena)
    ensures |r.1| == |reqs| && r.0.numSims == e.numSims + batch.num
  {
    var (e1, resps) := HandleAll(ops, e, reqs);
    (Think(ops, e1, tie, batch, uct), resps)
  }

  /** The engine loop keeps the tree valid forever: every turn, with
      acceptable requests and a sound batch, leads from a valid tree to a
      valid tree. */
  lemma RoundKeepsValid<G(!new), M(!new), P>(ops: GameOps<G, M, P>, e: State<G, M, P>, reqs: seq<Request<M>>,
                                                tie: nat -> nat, batch: Batch<P>, uct: (nat, nat, nat) -> NonNeg)
    requires Lawful(ops) && Valid(ops, e.arena, e.root) && AllAcceptable(ops, e, reqs) && BatchSound(batch)
    ensures AllHandleable(ops, e, reqs) && Walkable(ops, HandleAll(ops, e, reqs).0.arena)
    ensures Valid(ops, Round(ops, e, reqs, tie, batch, uct).0.arena, Round(ops, e, reqs, tie, batch, uct).0.root)
  {
    HandleAllKeepsValid(ops, e, reqs);
    var e1 := HandleAll(ops, e, reqs).0;
    ThinkKeepsValid(ops, e1, tie, batch, uct);
  }
}
