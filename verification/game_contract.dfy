/** The abstract game interface the search engine is written against
    (the `Game` trait: legal moves, functional and in-place move application,
    player to move, winner).

    The interface is a record of functions over a state type `G`, move type
    `M` and player type `P`. It carries one member the trait does not have:
    `valid`, the set of states the rules can actually reach. The laws the
    search relies on (every listed move is accepted, for one) hold only for
    such states, and `Lawful` states them. */
module GameContract {
  import opened Util

  datatype GameOps<!G, !M, P> = GameOps(
    availableMoves: G -> seq<M>,
    makeMove: (G, M) -> Option<G>,
    makeMoveMut: (G, M) -> (bool, G),
    curPlayer: G -> P,
    winner: G -> Option<P>,
    valid: G -> bool)

  /** The functional move is the in-place move applied to a copy. */
  ghost predicate CopyMoveAgrees<G(!new), M(!new), P>(ops: GameOps<G, M, P>)
  {
    forall g, m :: ops.makeMove(g, m) ==
      (if ops.makeMoveMut(g, m).0 then Some(ops.makeMoveMut(g, m).1) else None)
  }

  /** A rejected in-place move changes nothing. */
  ghost predicate RejectUnchanged<G(!new), M(!new), P>(ops: GameOps<G, M, P>)
  {
    forall g, m :: !ops.makeMoveMut(g, m).0 ==> ops.makeMoveMut(g, m).1 == g
  }

  /** Reachable states stay reachable under accepted moves. */
  ghost predicate ValidClosed<G(!new), M(!new), P>(ops: GameOps<G, M, P>)
  {
    forall g, m :: ops.valid(g) && ops.makeMoveMut(g, m).0 ==> ops.valid(ops.makeMoveMut(g, m).1)
  }

  /** In a reachable state every listed move is accepted. */
  ghost predicate ListedAccepted<G(!new), M(!new), P>(ops: GameOps<G, M, P>)
  {
    forall g, m :: ops.valid(g) && m in ops.availableMoves(g) ==> ops.makeMoveMut(g, m).0
  }

  /** A decided game has no moves left. */
  ghost predicate DecidedIsTerminal<G(!new), M(!new), P>(ops: GameOps<G, M, P>)
  {
    forall g :: ops.winner(g).Some? ==> ops.availableMoves(g) == []
  }

  /** Move lists have no repetitions (they become map keys). */
  ghost predicate MovesDistinct<G(!new), M(!new), P>(ops: GameOps<G, M, P>)
  {
    forall g :: Distinct(ops.availableMoves(g))
  }

  ghost predicate Lawful<G(!new), M(!new), P>(ops: GameOps<G, M, P>)
  {
    && CopyMoveAgrees(ops)
    && RejectUnchanged(ops)
    && ValidClosed(ops)
    && ListedAccepted(ops)
    && DecidedIsTerminal(ops)
    && MovesDistinct(ops)
  }

  /** What the expansion step relies on when it unwraps `make_move`:
      a listed move from a reachable state yields a reachable state. */
  lemma ListedMoveSucceeds<G(!new), M(!new), P>(ops: GameOps<G, M, P>, g: G, m: M)
    requires Lawful(ops)
    requires ops.valid(g) && m in ops.availableMoves(g)
    ensures ops.makeMove(g, m).Some?
    ensures ops.valid(ops.makeMove(g, m).value)
  {
    assert ops.makeMoveMut(g, m).0;
  }
}
