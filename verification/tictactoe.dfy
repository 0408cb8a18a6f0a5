/** Ultimate Tic-Tac-Toe: a 3x3 arrangement of 3x3 sub-boards. Sub-board `a`
    and cell `b` are numbered 0..8 row by row. A move `(a, b)` must be played
    in the sub-board named by the previous move's cell (the restriction)
    unless that sub-board is already won; a sub-board is won by three in a
    row, and the game by three won sub-boards in a row. */
module TicTacToe {
  import opened Util
  import opened GameContract

  datatype Player = X | O

  function Other(p: Player): Player
  {
    match p
    case X => O
    case O => X
  }

  type Idx = i: int | 0 <= i < 9

  type Cell = Option<Player>

  /** One 3x3 board, cells numbered row by row. */
  type Grid = g: seq<Cell> | |g| == 9
    witness [None, None, None, None, None, None, None, None, None]

  const EmptyGrid: Grid := [None, None, None, None, None, None, None, None, None]

  type Board = b: seq<Grid> | |b| == 9
    witness [EmptyGrid, EmptyGrid, EmptyGrid, EmptyGrid, EmptyGrid, EmptyGrid, EmptyGrid, EmptyGrid, EmptyGrid]

  /** `(index_a, index_b)`: sub-board, then cell within it. */
  type Move = (Idx, Idx)

  datatype State = State(
    board: Board,
    winners: Grid,          // winner of each sub-board
    restriction: Option<Idx>,
    player: Player,         // to move; the winner once the game is over
    gameOver: bool)

  // ---------------------------------------------------------------------
  // Lines

  /** Cells `i`, `j`, `k` all hold `p`. */
  predicate Owns(g: Grid, p: Player, i: Idx, j: Idx, k: Idx)
  {
    g[i] == Some(p) && g[j] == Some(p) && g[k] == Some(p)
  }

  predicate RowOwned(g: Grid, p: Player, r: int)
    requires 0 <= r < 3
  {
    Owns(g, p, 3 * r, 3 * r + 1, 3 * r + 2)
  }

  predicate ColumnOwned(g: Grid, p: Player, c: int)
    requires 0 <= c < 3
  {
    Owns(g, p, c, c + 3, c + 6)
  }

  /** Reference definition of a win: one of the three rows, three columns
      or two diagonals belongs to `p`. */
  ghost predicate ThreeInARow(g: Grid, p: Player)
  {
    || (exists r :: 0 <= r < 3 && RowOwned(g, p, r))
    || (exists c :: 0 <= c < 3 && ColumnOwned(g, p, c))
    || Owns(g, p, 0, 4, 8)
    || Owns(g, p, 2, 4, 6)
  }

  function CheckLine(a: Cell, b: Cell, c: Cell): (r: Cell)
    ensures forall p :: r == Some(p) <==> (a == Some(p) && b == Some(p) && c == Some(p))
  {
    match (a, b, c)
    case (Some(a2), Some(b2), Some(c2)) => if a2 == b2 && a2 == c2 then a else None
    case _ => None
  }

  /** The diagonal tests that follow the row/column loop. */
  function CheckDiagonals(g: Grid): (r: Cell)
    ensures r.Some? ==> Owns(g, r.value, 0, 4, 8) || Owns(g, r.value, 2, 4, 6)
    ensures r.None? ==> forall p :: !Owns(g, p, 0, 4, 8) && !Owns(g, p, 2, 4, 6)
  {
    var d := CheckLine(g[0], g[4], g[8]);
    if d.Some? then d else CheckLine(g[2], g[4], g[6])
  }

  /** Iterations `i..2` of the loop that tests column `i`, then row `i`. */
  function CheckFrom(g: Grid, i: nat): (r: Cell)
    requires i <= 3
    ensures r.Some? ==> ThreeInARow(g, r.value)
    ensures r.None? ==> forall p :: !Owns(g, p, 0, 4, 8) && !Owns(g, p, 2, 4, 6)
    ensures r.None? ==> forall p, k :: i <= k < 3 ==> !RowOwned(g, p, k) && !ColumnOwned(g, p, k)
    decreases 3 - i
  {
    if i == 3 then CheckDiagonals(g)
    else
      var col := CheckLine(g[i], g[i + 3], g[i + 6]);
      if col.Some? then
        assert ColumnOwned(g, col.value, i);
        col
      else
        var row := CheckLine(g[3 * i], g[3 * i + 1], g[3 * i + 2]);
        if row.Some? then
          assert RowOwned(g, row.value, i);
          row
        else
          CheckFrom(g, i + 1)
  }

  /** `check_for_winner`: some player owning a line, or `None` when no line
      is owned. */
  function CheckForWinner(g: Grid): (r: Cell)
    ensures r.Some? ==> ThreeInARow(g, r.value)
    ensures r.None? <==> forall p :: !ThreeInARow(g, p)
  {
    CheckFrom(g, 0)
  }

  // ---------------------------------------------------------------------
  // The game

  function New(): (s: State)
    ensures forall a: Idx, b: Idx :: s.board[a][b] == None
    ensures forall a: Idx :: s.winners[a] == None
    ensures s.restriction == None && s.player == X && !s.gameOver
  {
    State([EmptyGrid, EmptyGrid, EmptyGrid, EmptyGrid, EmptyGrid, EmptyGrid, EmptyGrid, EmptyGrid, EmptyGrid],
          EmptyGrid, None, X, false)
  }

  /** Moves are listed in increasing `9 * a + b` order. */
  function Key(m: Move): int
  {
    9 * m.0 + m.1
  }

  predicate Increasing(ms: seq<Move>)
  {
    forall i, j :: 0 <= i < j < |ms| ==> Key(ms[i]) < Key(ms[j])
  }

  /** The empty cells `b'`, `b <= b' < 9`, of sub-board `a`. */
  function EmptyCells(g: Grid, a: Idx, b: nat): (r: seq<Move>)
    ensures forall m :: m in r <==> m.0 == a && b <= m.1 && g[m.1] == None
    ensures forall m :: m in r ==> 9 * a + b <= Key(m) < 9 * a + 9
    ensures Increasing(r)
    decreases 9 - b
  {
    if b >= 9 then []
    else
      var rest := EmptyCells(g, a, b + 1);
      if g[b] == None then [(a, b)] + rest else rest
  }

  /** The empty cells of the sub-boards `a'`, `a <= a' < 9`, that have no
      winner. */
  function OpenBoards(s: State, a: nat): (r: seq<Move>)
    ensures forall m :: m in r <==> a <= m.0 && s.winners[m.0] == None && s.board[m.0][m.1] == None
    ensures forall m :: m in r ==> 9 * a <= Key(m)
    ensures Increasing(r)
    decreases 9 - a
  {
    if a >= 9 then []
    else
      var rest := OpenBoards(s, a + 1);
      if s.winners[a] == None then EmptyCells(s.board[a], a, 0) + rest else rest
  }

  lemma IncreasingDistinct(ms: seq<Move>)
    requires Increasing(ms)
    ensures Distinct(ms)
  {
  }

  function AvailableMoves(s: State): (r: seq<Move>)
    ensures s.gameOver ==> r == []
    ensures !s.gameOver && s.restriction.Some? ==>
      forall m :: m in r <==> m.0 == s.restriction.value && s.board[m.0][m.1] == None
    ensures !s.gameOver && s.restriction.None? ==>
      forall m :: m in r <==> s.winners[m.0] == None && s.board[m.0][m.1] == None
    ensures Distinct(r)
  {
    var r :=
      if s.gameOver then []
      else match s.restriction
        case Some(a) => EmptyCells(s.board[a], a, 0)
        case None => OpenBoards(s, 0);
    IncreasingDistinct(r);
    r
  }

  /** The four checks `make_move_mut` performs before it plays. */
  predicate Accepts(s: State, m: Move)
  {
    && !s.gameOver
    && (s.restriction.None? || m.0 == s.restriction.value)
    && s.winners[m.0] == None
    && s.board[m.0][m.1] == None
  }

  function MakeMoveMut(s: State, m: Move): (r: (bool, State))
    // a rejected move leaves the state as it was
    ensures r.0 <==> Accepts(s, m)
    ensures !r.0 ==> r.1 == s
    // exactly cell (a, b) changes, to the player who was to move
    ensures r.0 ==> forall a: Idx, b: Idx ::
      r.1.board[a][b] == (if a == m.0 && b == m.1 then Some(s.player) else s.board[a][b])
    // a decided sub-board keeps its winner; only sub-board a can be awarded
    ensures forall a: Idx :: s.winners[a].Some? ==> r.1.winners[a] == s.winners[a]
    ensures r.0 ==> forall a: Idx :: a != m.0 ==> r.1.winners[a] == s.winners[a]
    ensures r.0 ==> r.1.winners[m.0] == CheckForWinner(r.1.board[m.0])
    // the next move goes to sub-board b unless it is already won
    ensures r.0 ==> r.1.restriction.Some? ==> r.1.restriction.value == m.1
    ensures r.0 ==> (r.1.restriction.None? <==> r.1.winners[m.1].Some?)
    // the game ends exactly when the won sub-boards form a line
    ensures r.0 ==> (r.1.gameOver <==> exists p :: ThreeInARow(r.1.winners, p))
    ensures r.0 && r.1.gameOver ==> ThreeInARow(r.1.winners, r.1.player)
    ensures r.0 && !r.1.gameOver ==> r.1.player == Other(s.player)
  {
    var (a, b) := m;
    if s.gameOver then (false, s)
    else if s.restriction.Some? && a != s.restriction.value then (false, s)
    else if s.winners[a].Some? then (false, s)
    else if s.board[a][b].None? then
      var board := s.board[a := s.board[a][b := Some(s.player)]];
      var winners :=
        match CheckForWinner(board[a])
        case Some(w) => s.winners[a := Some(w)]
        case None => s.winners;
      var restriction := if winners[b].None? then Some(b) else None;
      match CheckForWinner(winners)
      case Some(p) => (true, State(board, winners, restriction, p, true))
      case None => (true, State(board, winners, restriction, Other(s.player), false))
    else (false, s)
  }

  /** `make_move`: the in-place move applied to a copy; the receiver is a
      value and cannot change. */
  function MakeMove(s: State, m: Move): (r: Option<State>)
    ensures r.Some? <==> Accepts(s, m)
    ensures r.Some? ==> r.value.board[m.0][m.1] == Some(s.player)
  {
    var (ok, s') := MakeMoveMut(s, m);
    if ok then Some(s') else None
  }

  /** `get_cur_player`: the player whose mark the next accepted move
      writes. */
  function CurPlayer(s: State): (r: Player)
    ensures forall m: Move :: Accepts(s, m) ==> MakeMoveMut(s, m).1.board[m.0][m.1] == Some(r)
  {
    s.player
  }

  /** X opens, and the turn passes to the other player after every accepted
      move that does not end the game. */
  lemma CurPlayerAlternates(s: State, m: Move)
    ensures CurPlayer(New()) == X
    ensures Accepts(s, m) && !MakeMoveMut(s, m).1.gameOver ==>
      CurPlayer(MakeMoveMut(s, m).1) == Other(CurPlayer(s))
  {
  }

  function Winner(s: State): (r: Option<Player>)
    ensures r.Some? <==> s.gameOver
  {
    if s.gameOver then Some(s.player) else None
  }

  // ---------------------------------------------------------------------
  // Reachable states

  /** What holds of every state play can reach from `New()`. */
  predicate Reachable(s: State)
  {
    && (forall a | 0 <= a < 9 :: s.winners[a] == CheckForWinner(s.board[a]))
    && (s.restriction.Some? ==> s.winners[s.restriction.value] == None)
    && s.gameOver == CheckForWinner(s.winners).Some?
    && (s.gameOver ==> s.player == CheckForWinner(s.winners).value)
  }

  lemma {:induction false} NewReachable()
    ensures Reachable(New())
  {
    var s := New();
    assert forall p :: !ThreeInARow(EmptyGrid, p);
    assert CheckForWinner(EmptyGrid) == None;
  }

  lemma {:induction false} MoveKeepsReachable(s: State, m: Move)
    requires Reachable(s)
    requires MakeMoveMut(s, m).0
    ensures Reachable(MakeMoveMut(s, m).1)
  {
    var s' := MakeMoveMut(s, m).1;
    forall a: Idx
      ensures s'.winners[a] == CheckForWinner(s'.board[a])
    {
      if a != m.0 {
        assert s'.board[a] == s.board[a];
      }
    }
  }

  /** Every move `available_moves` lists is accepted by `make_move_mut`; the
      search unwraps `make_move` on exactly these moves. */
  lemma {:induction false} ListedMovesAccepted(s: State, m: Move)
    requires Reachable(s)
    requires m in AvailableMoves(s)
    ensures MakeMoveMut(s, m).0
  {
  }

  /** The game is over exactly when `get_winner` reports the owner of a line
      of won sub-boards. */
  lemma {:induction false} WinnerIsLineOwner(s: State)
    requires Reachable(s)
    ensures Winner(s) == CheckForWinner(s.winners)
    ensures Winner(s).Some? ==> ThreeInARow(s.winners, Winner(s).value)
  {
  }

  /** The rules as an instance of the game interface. */
  function Rules(): GameOps<State, Move, Player>
  {
    GameOps(AvailableMoves, MakeMove, MakeMoveMut, CurPlayer, Winner, Reachable)
  }

  lemma RulesLawful()
    ensures Lawful(Rules())
  {
    var ops := Rules();
    forall g, m | ops.valid(g) && ops.makeMoveMut(g, m).0
      ensures ops.valid(ops.makeMoveMut(g, m).1)
    {
      MoveKeepsReachable(g, m);
    }
    forall g, m | ops.valid(g) && m in ops.availableMoves(g)
      ensures ops.makeMoveMut(g, m).0
    {
      ListedMovesAccepted(g, m);
    }
  }
}
