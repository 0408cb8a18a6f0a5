# Ultimate Tic-Tac-Toe with a Monte Carlo tree search player, in Dafny

This project models an Ultimate Tic-Tac-Toe engine. It has two halves:
- the rules: nine 3x3 sub-boards; each move sends the opponent to the sub-board that matches the cell just played; a won sub-board counts as one cell of the meta-board;
- the AI that plays the game: a Monte Carlo tree search over an arena of move-tree nodes.

The model covers:
- the rules as a state machine: line detection, legal moves under the move restriction, move application, awarding sub-boards, and the end of the game;
- the abstract game interface the search is written against, as a record of functions (`GameOps`) plus the laws the search relies on (`Lawful`). The rules are proved to satisfy them;
- the move-tree records (`Child` edges and `MoveTreeNode` nodes) and the `NodeList` arena:
  - fresh ids,
  - take/restore check-out,
  - recursive `drop_node` that spares one subtree;
- the tree invariant the search keeps (`TreeInvariant.Valid`):
  - parent links mirror child edges;
  - ids grow away from the root;
  - each edge's move produces its child's position;
  - every edge has `wins <= games`;
  - a node's playout count is the sum of its edges' counts;
- one search step (`montecarlo`):
  - `all_max` tie collection;
  - the selection descent that stops on a never-played edge;
  - expansion with one zeroed edge per legal move;
  - backpropagation of playouts, wins and visit counts along the path;
- the engine thread's two request handlers:
  - Info: `best_move` and the confidence of its edge;
  - MakeMove: re-rooting the tree at the played move, dropping everything outside the new root's subtree;
- the playout pool:
  - a worker's random playout and its counting loop;
  - the fold in `simulate` that merges the workers' reports.

Floating-point scores, threads, channels, clocks and randomness are replaced by parameters; see "Left out".

Files:
- `util.dfy`: `Option`, maps with default, map sums;
- `game_contract.dfy`: the game interface and its laws;
- `tictactoe.dfy`: the rules;
- `tree.dfy`: edges, nodes, the children list;
- `arena.dfy`: `NodeList` and `drop_node`;
- `tree_invariant.dfy`: the tree invariant and path facts;
- `montecarlo.dfy`: the search step;
- `reroot.dfy`: the MakeMove handler;
- `engine.dfy`: `best_move`, Info, the request loop;
- `sim_pool.dfy`: playouts and result merging.

A node's children, a Rust `HashMap<Move, Child>`, are modelled as the map's entries in iteration order: a sequence of `(move, edge)` pairs with distinct moves (`Tree.KeysDistinct`). Lookup (`Tree.Find`) and `insert` (`Tree.Insert`) behave as the map's do.

## Model

| member | source | states |
|---|---|---|
| TicTacToe.CheckLine | src/game/mod.rs:19-24 | the result is `Some(p)` exactly when all three cells hold `p` |
| TicTacToe.CheckForWinner | src/game/mod.rs:26-46 | a reported player owns a whole row, column or diagonal of the grid; the result is `None` exactly when no player owns any of the eight lines |
| TicTacToe.New | src/game/mod.rs:67-75 | every cell is empty, no sub-board has a winner, there is no restriction, X is to move and the game is not over |
| TicTacToe.AvailableMoves | src/game/mod.rs:188-215 | no moves once the game is over; under a restriction, exactly the empty cells of that sub-board; otherwise exactly the empty cells of the sub-boards nobody has won; no move is listed twice |
| TicTacToe.MakeMoveMut | src/game/mod.rs:217-267 | the move is accepted exactly when the game is running, it respects the restriction, its sub-board is undecided and its cell is empty; a rejected move changes nothing; an accepted one changes only its cell, to the player who was to move; a decided sub-board keeps its winner and only the played sub-board can be awarded; the next restriction is the played cell's sub-board unless that one is won; the game ends exactly when the won sub-boards form a line, and then the line's owner is recorded as the player, otherwise the player toggles |
| TicTacToe.MakeMove | src/game/mod.rs:269-276 | `Some` exactly when the in-place move accepts, and then the played cell holds the mover |
| TicTacToe.CurPlayer | src/game/mod.rs:278-280 | the player reported to move is the one whose mark the next accepted move writes |
| TicTacToe.CurPlayerAlternates | src/game/mod.rs:252-261 | X opens the game, and after an accepted move that does not end it the player to move is the other one |
| TicTacToe.Winner | src/game/mod.rs:282-288 | `Some` exactly when the game is over |
| TicTacToe.NewReachable | src/game/mod.rs:67-75 | the initial position satisfies the reachability invariant: each sub-board's recorded winner is its line owner, the restriction never names a won sub-board, and the game is over exactly when the meta-board has a line |
| TicTacToe.MoveKeepsReachable | src/game/mod.rs:236-261 | an accepted move keeps the reachability invariant |
| TicTacToe.ListedMovesAccepted | src/game/mod.rs:188-236 | in a reachable position every listed move is accepted |
| TicTacToe.WinnerIsLineOwner | src/game/mod.rs:252-288 | in a reachable position `get_winner` reports exactly the owner of a line of won sub-boards |
| TicTacToe.RulesLawful | src/ai/game.rs:3-14 | the rules satisfy every law of the game interface: the copying move agrees with the in-place one, rejection changes nothing, reachable positions stay reachable, listed moves are accepted, a decided game lists no moves, and listed moves are distinct |
| GameContract.ListedMoveSucceeds | src/ai/montecarlo.rs:57-58 | for lawful rules, unwrapping `make_move` on a listed move of a reachable position cannot fail, and yields a reachable position |
| Tree.NewRoot | src/ai/tree.rs:25-36 | a root node stores the position and its player to move, has no playouts, no children and no parent |
| Tree.NewChild | src/ai/tree.rs:38-49 | a child node stores the position and its player to move, has no playouts, no children and the given parent |
| Tree.Find | src/ai/ai.rs:145 | a found position holds the move; `None` exactly when no entry has the move |
| Tree.Insert | src/ai/montecarlo.rs:60-66 | afterwards the move maps to the new edge and every other move finds what it found before; an absent move is appended, a present one is overwritten in place; distinct moves stay distinct |
| Arena.EmptyList | src/ai/ai.rs:38-43 | the new arena is empty and its id counter is ahead of every stored id |
| Arena.Add | src/ai/ai.rs:45-51 | the returned id is not in use, the node is stored under it, nothing else changes, and the counter moves past it |
| Arena.AddNeverReuses | src/ai/ai.rs:45-51 | an id handed out earlier is never handed out again by a later `add` |
| Arena.Take | src/ai/ai.rs:73-75 | the node leaves the arena and every other node stays |
| Arena.Restore | src/ai/ai.rs:77-79 | the node is stored under the id and every other entry is unchanged |
| Arena.TakeRestore | src/ai/ai.rs:73-79 | taking a node out and putting it back leaves the arena as it was |
| Arena.RestoreTake | src/ai/ai.rs:73-79 | putting a node under a free id and taking it out gives back the arena and the node |
| Arena.DropNode | src/ai/ai.rs:61-71 | the arena never grows, which bounds the recursion, and an absent id changes nothing |
| Arena.DropNodeSub | src/ai/ai.rs:61-71 | the dropped node is gone, and every node that stays is stored as it was: nothing is added or changed |
| Arena.DropNodeExact | src/ai/ai.rs:61-71 | a node survives `drop_node(id, except)` exactly when no edge path from `id` that avoids `except` reaches it; survivors are unchanged |
| Arena.DropNodeClosed | src/ai/ai.rs:61-71 | whatever `drop_node` removes, it also removes every node an edge leads to from it, except the spared node |
| TreeInvariant.AllReachable | src/ai/ai.rs:141-164 | in a linked tree every stored node hangs below the root |
| TreeInvariant.PathsConverge | src/ai/ai.rs:141-164 | in a linked tree two edge paths that end at the same node agree on their common tail: the tree has no sharing |
| MonteCarlo.AllMax | src/ai/montecarlo.rs:12-28 | folding from 0, the score returned bounds every entry's score, the list returned is exactly the entries that have that score, and it is non-empty for a non-empty input |
| MonteCarlo.Choose | src/ai/montecarlo.rs:42-43 | the picked entry is one of the node's entries and its score is maximal among them |
| MonteCarlo.Expand | src/ai/montecarlo.rs:55-74 | the expanded node gains one edge per legal move, all never played, with distinct moves; one fresh node is added per move; no other node changes; the node stays childless exactly when there is no legal move |
| MonteCarlo.ExpandAdds | src/ai/montecarlo.rs:57-67 | the `i`-th fresh node is a child node, with the expanded node as parent, of the position the `i`-th legal move produces; with distinct moves the edges are exactly one zeroed, unscored edge per move, pointing at those nodes in order |
| MonteCarlo.AddNodesIds | src/ai/montecarlo.rs:57-59 | the expansion loop hands out one fresh id per legal move, consecutively from the counter, and leaves every stored node alone |
| MonteCarlo.ExpandKeepsValid | src/ai/montecarlo.rs:55-74 | expanding a childless node of a valid tree under lawful rules cannot fail, and it keeps the tree valid |
| MonteCarlo.ExpansionStopsSelection | src/ai/montecarlo.rs:49-71 | a node that gains children on expansion has best score infinity, so the selection loop stops at one of its fresh edges |
| MonteCarlo.Select | src/ai/montecarlo.rs:37-77 | a descent either leaves the arena alone or expands exactly one childless node it reached |
| MonteCarlo.SelectExpandsEnd | src/ai/montecarlo.rs:37-67 | the node a descent expands is where it stopped: the target itself, or the node the last step of the path leaves |
| MonteCarlo.SelectDescends | src/ai/montecarlo.rs:37-53 | the path leads edge by edge from the root to the target; each taken edge scores at least as well as its siblings; every edge but the last has a finite score; the descent ends on an edge scored infinity or at a node with no legal move |
| MonteCarlo.SelectStopsUnplayed | src/ai/montecarlo.rs:37-53 | under lawful rules in a valid tree, where an edge scores infinity exactly while it has no playouts, every edge the descent passes has been played out, and the descent ends on an edge never played out or at a node with no legal move |
| MonteCarlo.Rescore | src/ai/montecarlo.rs:102-107 | only scores change; never-played edges keep their entry and played edges get a finite score |
| MonteCarlo.BackpropOneCounts | src/ai/montecarlo.rs:87-100 | for a path entry, the node's playouts and the named edge's playouts grow by the batch size, its visit count by one and its wins by the batch's wins for the node's player; the counters of the other edges are unchanged |
| MonteCarlo.BackpropStats | src/ai/montecarlo.rs:87-108 | if no player won more playouts than the batch holds, backpropagation keeps `wins <= games` on every edge, "a node's playouts are its edges' playouts" on every node, and a score of infinity on exactly the never-played edges |
| MonteCarlo.BackpropValid | src/ai/montecarlo.rs:87-108 | backpropagating a sound batch keeps the tree valid |
| MonteCarlo.BackpropOffPath | src/ai/montecarlo.rs:87-108 | a node that no path entry names is left exactly as it was |
| MonteCarlo.BackpropOnPath | src/ai/montecarlo.rs:87-108 | along a path with distinct nodes, each node on the path ends up bumped exactly once, through the edge the path names |
| MonteCarlo.Step | src/ai/montecarlo.rs:30-112 | the step reports the batch's playout count, whatever the path was |
| MonteCarlo.StepKeepsValid | src/ai/montecarlo.rs:30-112 | under lawful rules, with a sound batch, a search step keeps the tree valid |
| MonteCarlo.StepAtTerminalRoot | src/ai/montecarlo.rs:69-87 | the path is empty exactly when the root has no children and no legal move, and then the arena is unchanged and the root is the simulated node |
| MonteCarlo.StepBumpsPath | src/ai/montecarlo.rs:86-108 | the step backpropagates along the selected path, whose nodes are distinct: each path node is bumped once through its named edge, and every node off the path is as selection and expansion left it |
| MonteCarlo.ChainIncreasing | src/ai/montecarlo.rs:37-53 | node ids strictly increase along any descent in a linked tree, so a descent never revisits a node |
| Rerooting.Reroot | src/ai/ai.rs:140-164 | the new root is stored without a parent, and the old root is gone unless it is the new root |
| Rerooting.RerootToChild | src/ai/ai.rs:143-161 | for a move with an edge, the new root is that edge's node, the id counter is unchanged, the arena is exactly that node's subtree with the node keeping its games and children and losing only its parent, and the move leads from the old root's position to the new root's |
| Rerooting.RerootFresh | src/ai/ai.rs:143-161 | for a move without an edge, the new root gets the next fresh id and holds a new root node for the position the move produces, and every old node is dropped |
| Rerooting.SubtreeValid | src/ai/ai.rs:154-161 | the subtree below any node of a valid tree, cut loose, is a valid tree rooted at that node |
| Rerooting.RerootKeepsValid | src/ai/ai.rs:140-164 | a move with an edge, or a move the game accepts, can be handled; the result is a valid tree; and the move leads from the old root's position to the new root's |
| Engine.BestIndex | src/ai/ai.rs:82-93 | `None` exactly for no children; otherwise an entry with the most visits, and every later entry has strictly fewer, so the last maximum is picked, as `max_by` does |
| Engine.BestIndexUnique | src/ai/ai.rs:82-93 | conversely, an entry with the most visits and strictly fewer visits on every later entry is the one picked |
| Engine.BestMove | src/ai/ai.rs:82-93 | `None` exactly when the root has no children; otherwise one of the root's moves |
| Engine.Info | src/ai/ai.rs:117-138 | the reply carries `best_move` and the simulation total, and the confidence is absent exactly when there is no best move |
| Engine.InfoReportsBest | src/ai/ai.rs:117-128 | with children, the reply names a most-visited move and the wins and playouts of that move's edge, which in a valid tree satisfy `wins <= games` |
| Engine.Init | src/ai/ai.rs:108-110 | the engine starts with one root node for the position and no simulations |
| Engine.InitValid | src/ai/ai.rs:108-110 | the initial tree is valid for a reachable position |
| Engine.Handle | src/ai/ai.rs:115-168 | a request leaves the simulation count alone and the root stored, and Info is answered with Info and MakeMove with Ok |
| Engine.HandleKeepsValid | src/ai/ai.rs:115-168 | an acceptable request keeps the tree valid; Info changes nothing, and MakeMove moves the root to the position the move produces |
| Engine.HandleAll | src/ai/ai.rs:115-169 | the queued requests get one reply each, of the matching kind, in order, and the simulation count is unchanged |
| Engine.HandleAllKeepsValid | src/ai/ai.rs:115-169 | a queue of acceptable requests keeps the tree valid |
| Engine.Think | src/ai/ai.rs:171 | a search step from the root adds the batch's playouts to the simulation total |
| Engine.ThinkKeepsValid | src/ai/ai.rs:171 | under lawful rules a search step with a sound batch keeps the tree valid |
| Engine.Round | src/ai/ai.rs:113-172 | one turn of the loop answers every queued request and adds the step's playouts to the total |
| Engine.RoundKeepsValid | src/ai/ai.rs:113-172 | a turn of the engine loop with acceptable requests and a sound batch keeps the tree valid |
| SimPool.Playout | src/ai/sim_thread_pool.rs:36-46 | a position that already has a winner or no legal move is itself the playout's end, with its winner; a finished playout stops only when the position has a winner or no legal move, and the winner it reports is the position's winner |
| SimPool.PlayoutIsListedRun | src/ai/sim_thread_pool.rs:35-46 | a finished playout ends in a position reached from the copy it started on by at most one move per pick, each listed in an undecided position and applied in place |
| SimPool.PlayoutEndsTerminal | src/ai/sim_thread_pool.rs:36-46 | under the game's laws, which make a decided game list no moves, a finished playout leaves no legal move |
| SimPool.PlayoutStaysValid | src/ai/sim_thread_pool.rs:36-46 | a playout from a reachable position ends in a reachable position |
| SimPool.CountPlayouts | src/ai/sim_thread_pool.rs:31-51 | a worker counts every playout once, credits each player with exactly the playouts it won, records only players who won, and credits in total the decided playouts, never more than it played |
| SimPool.TalliedSound | src/ai/sim_thread_pool.rs:48-51 | a report whose credited total is at most its playout count credits no single player more than that count |
| SimPool.MergeWins | src/ai/sim_thread_pool.rs:78-81 | the merged map gives each player the sum of both counts, a missing entry read as 0; its keys are the union of both maps' keys; and its total is the sum of both totals |
| SimPool.Simulate | src/ai/sim_thread_pool.rs:67-85 | the pool's playout count is the sum of the workers' counts; each player's wins are the sum of its per-worker wins; the keys are the union of the workers' keys; the credited total is the sum of the workers' credited totals |
| SimPool.TalliedTotals | src/ai/sim_thread_pool.rs:72-82 | if every worker credits at most its playout count, so do the merged totals |
| SimPool.PoolBatchSound | src/ai/sim_thread_pool.rs:67-85 | the merge of reports that each credit at most their playout count credits no player more wins than playouts ran, which is what backpropagation needs for `wins <= games` |
| SimPool.Pool | src/ai/sim_thread_pool.rs:31-85 | the workers' counting loops followed by `simulate` yield a batch that counts every playout of every worker and is sound for backpropagation |

## Left out

- Drawing and input: `draw`, `draw_board`, `line`, `click` (src/game/mod.rs:48-181), the debug `to_str` (src/game/mod.rs:291-319), and the window code in src/main.rs. These are rendering and pixel arithmetic.
- Threads and channels: the engine thread, the `try_recv` loop, `Ai::send`/`recv`, the pool's workers, `num_cpus` and the blocking `recv`. The engine loop is a function over a queue of requests (`Engine.Round`). The pool is a fold over the workers' reports (`SimPool.Simulate`).
- Clocks: the 25 ms playout budget and `time_elapsed` in the Info reply. A worker's run is given as the finite sequence of its playouts' outcomes, so the model does not bound how many playouts a worker runs.
- Randomness:
  - the random tie-break in selection is a parameter `tie` from depth to an index into the set of maximal entries;
  - a playout's random picks are a sequence of indices, taken modulo the number of legal moves.
- Floating point:
  - The UCT formula with `ln`, `sqrt` and the exploration factor is an abstract function from (wins, games, node total) to a non-negative real. An infinite score is the distinguished value `Inf`.
  - The Info confidence `wins as f64 / games as f64` is kept as the pair `Ratio(wins, games)`. The source divides 0 by 0 and reports NaN when the best edge has no playouts. The model only records the pair.
- Integer widths: the `u32` and `u64` counters are unbounded naturals, so wrap-around on overflow is not modelled. Moves are pairs of indices `0..8`. In the source, `make_move_mut` (src/game/mod.rs:217-235) with an out-of-range `usize` index returns `false` when the game is over or the first index differs from the restriction, and also when a sub-board index in range is already won. Otherwise it panics on the out-of-range index. `click` can build such a move. The model's move type admits only in-range indices, so neither these rejections nor the panic are modelled for them.
- Map iteration order: `HashMap` iteration order is unspecified. The children are a sequence in one fixed order, and the results of `all_max`, the tie-break and `best_move` are stated for that order.
- The source's `rand.choose` on an empty tie list would panic. `MonteCarlo.AllMax` proves the list is never empty for a node with children, so the model has no such case.
- SimPool.Playout: a run whose picks are exhausted before the game ends yields `None`. The model makes no claim about such a run; the source plays on until it ends.
- Engine.Think: the batch of playout results is an input to the step, not computed from the simulated position. `SimPool` proves the properties of the pool's batch that the step relies on.
- `get_mut` (src/ai/ai.rs:57-59) is folded into the functional updates of backpropagation. `get` is `Arena.Get`, whose precondition is the source's panic on an absent id.
- Rerooting.RerootDefined: the `expect("AI was asked to make an invalid move")` panic (src/ai/ai.rs:148) is not modelled. The re-rooting members require that the move has an edge or is accepted by the game. The callers in src/main.rs guarantee this. A clicked move is sent only after `click` accepted it (src/game/mod.rs:174-180, src/main.rs:69-70). The AI's own move is the `best_move` of an Info reply, so it names a root edge (src/main.rs:166-170).
- Arena.DropNode: its own contract only bounds the result's size, which the recursion's termination needs, and says an absent id changes nothing. What `drop_node` removes and keeps is proved apart, in `Arena.DropNodeSub` and `Arena.DropNodeExact`, so that unfolding the recursion stays cheap.
