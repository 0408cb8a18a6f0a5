/** The playout pool: each worker plays random games to the end from the
    position it is sent and reports how many it played and how many each
    player won; `simulate` adds the workers' reports up into the batch the
    search step backpropagates.

    Threads, channels, the time budget and the random generator are not
    modelled: a worker's run is the sequence of its playouts' outcomes, and
    a playout's random picks are a sequence of indices. */
module SimPool {
  import opened Util
  import opened GameContract
  import opened MonteCarlo

  // ---------------------------------------------------------------------
  // One playout

  /** How a playout ended: the final position and its winner, if any. */
  datatype PlayoutEnd<G, P> = PlayoutEnd(last: G, winner: Option<P>)

  /** One playout on a private copy of `g`: while nobody has won, apply the
      listed move the next pick selects; stop when there is a winner or no
      move is left. `None` when the picks run out first. */
  function Playout<G, M, P>(ops: GameOps<G, M, P>, g: G, picks: seq<nat>): (r: Option<PlayoutEnd<G, P>>)
    ensures r.Some? ==> r.value.winner == ops.winner(r.value.last)
    ensures r.Some? && r.value.winner.None? ==> ops.availableMoves(r.value.last) == []
    ensures ops.winner(g).Some? || ops.availableMoves(g) == [] ==> r == Some(PlayoutEnd(g, ops.winner(g)))
    decreases |picks|
  {
    if ops.winner(g).Some? then Some(PlayoutEnd(g, ops.winner(g)))
    else
      var moves := ops.availableMoves(g);
      if |moves| == 0 then Some(PlayoutEnd(g, None))
      else if |picks| == 0 then None
      else Playout(ops, ops.makeMoveMut(g, moves[picks[0] % |moves|]).1, picks[1..])
  }

  /** From a reachable position a playout only passes through reachable
      positions, so it ends in one: every move it applies is a listed move,
      which the rules accept. */
  lemma {:induction false} PlayoutStaysValid<G(!new), M(!new), P>(ops: GameOps<G, M, P>, g: G, picks: seq<nat>)
    requires Lawful(ops) && ops.valid(g)
    ensures Playout(ops, g, picks).Some? ==> ops.valid(Playout(ops, g, picks).value.last)
    decreases |picks|
  {
    if ops.winner(g).None? && |ops.availableMoves(g)| > 0 && |picks| > 0 {
      var moves := ops.availableMoves(g);
      var m := moves[picks[0] % |moves|];
      assert ops.makeMoveMut(g, m).0;
      PlayoutStaysValid(ops, ops.makeMoveMut(g, m).1, picks[1..]);
    }
  }

  /** `ms` leads from `g` to `last`: each move is listed in the position it is
      played from, nobody has won there yet, and it is applied in place. */
  ghost predicate ListedRun<G, M, P>(ops: GameOps<G, M, P>, g: G, ms: seq<M>, last: G)
    decreases |ms|
  {
    if |ms| == 0 then last == g
    else
      && ops.winner(g).None?
      && ms[0] in ops.availableMoves(g)
      && ListedRun(ops, ops.makeMoveMut(g, ms[0]).1, ms[1..], last)
  }

  /** A finished playout is reached from the position it was given by at
      most one listed move per pick. */
  lemma {:induction false} PlayoutIsListedRun<G, M, P>(ops: GameOps<G, M, P>, g: G, picks: seq<nat>)
    ensures Playout(ops, g, picks).Some? ==>
      exists ms :: |ms| <= |picks| && ListedRun(ops, g, ms, Playout(ops, g, picks).value.last)
    decreases |picks|
  {
    var r := Playout(ops, g, picks);
    if r.Some? {
      if ops.winner(g).Some? || |ops.availableMoves(g)| == 0 {
        assert ListedRun(ops, g, [], r.value.last);
      } else {
        var moves := ops.availableMoves(g);
        var m := moves[picks[0] % |moves|];
        var g' := ops.makeMoveMut(g, m).1;
        assert r == Playout(ops, g', picks[1..]);
        PlayoutIsListedRun(ops, g', picks[1..]);
        var ms :| |ms| <= |picks[1..]| && ListedRun(ops, g', ms, r.value.last);
        assert ([m] + ms)[1..] == ms;
        assert ListedRun(ops, g, [m] + ms, r.value.last);
      }
    }
  }

  /** Under the game's laws a finished playout leaves no legal move, whether
      it stopped on a winner or on an empty move list. */
  lemma PlayoutEndsTerminal<G(!new), M(!new), P>(ops: GameOps<G, M, P>, g: G, picks: seq<nat>)
    requires Lawful(ops)
    ensures Playout(ops, g, picks).Some? ==> ops.availableMoves(Playout(ops, g, picks).value.last) == []
  {
    var r := Playout(ops, g, picks);
    if r.Some? && r.value.winner.Some? {
      assert DecidedIsTerminal(ops);
    }
  }

  // ---------------------------------------------------------------------
  // A worker's tally

  /** How many of the outcomes credit player `p`. */
  function Wins<P(==)>(outcomes: seq<Option<P>>, p: P): nat
  {
    if |outcomes| == 0 then 0
    else Wins(outcomes[..|outcomes| - 1], p) + (if outcomes[|outcomes| - 1] == Some(p) then 1 else 0)
  }

  /** How many outcomes credit anybody. */
  function Decisive<P>(outcomes: seq<Option<P>>): nat
  {
    if |outcomes| == 0 then 0
    else Decisive(outcomes[..|outcomes| - 1]) + (if outcomes[|outcomes| - 1].Some? then 1 else 0)
  }

  /** A report credits no more wins, in total, than it counts playouts. */
  ghost predicate Tallied<P>(b: Batch<P>)
  {
    MapSum(b.wins) <= b.num
  }

  /** A worker's counting loop over its playouts' outcomes: every playout
      is counted, and a playout with a winner adds one to that player's
      entry, creating it at one. */
  method CountPlayouts<P(!new,==)>(outcomes: seq<Option<P>>) returns (r: Batch<P>)
    ensures r.num == |outcomes|
    ensures forall p :: GetOr(r.wins, p, 0) == Wins(outcomes, p)
    ensures forall p :: p in r.wins <==> Some(p) in outcomes
    ensures MapSum(r.wins) == Decisive(outcomes) <= r.num
  {
    var numSims := 0;
    var results: map<P, nat> := map[];
    var i := 0;
    while i < |outcomes|
      invariant i <= |outcomes| && numSims == i
      invariant forall p :: GetOr(results, p, 0) == Wins(outcomes[..i], p)
      invariant forall p :: p in results <==> Some(p) in outcomes[..i]
      invariant MapSum(results) == Decisive(outcomes[..i]) <= i
    {
      assert outcomes[..i + 1][..i] == outcomes[..i];
      numSims := numSims + 1;
      if outcomes[i].Some? {
        var winner := outcomes[i].value;
        var newVal := GetOr(results, winner, 0) + 1;
        MapSumUpdate(results, winner, newVal);
        results := results[winner := newVal];
      }
      i := i + 1;
    }
    assert outcomes[..i] == outcomes;
    r := Batch(numSims, results);
  }

  /** A tallied report is sound: no single player won more playouts than
      were run. */
  lemma TalliedSound<P>(b: Batch<P>)
    requires Tallied(b)
    ensures BatchSound(b)
  {
    forall p | p in b.wins
      ensures b.wins[p] <= b.num
    {
      MapSumBound(b.wins, p);
    }
  }

  // ---------------------------------------------------------------------
  // simulate: merging the workers' reports

  /** The workers' playout counts, summed. */
  function TotalSims<P>(replies: seq<Batch<P>>): nat
  {
    if |replies| == 0 then 0 else TotalSims(replies[..|replies| - 1]) + replies[|replies| - 1].num
  }

  /** Player `p`'s wins over all workers, a missing entry counting as zero. */
  function TotalWins<P>(replies: seq<Batch<P>>, p: P): nat
  {
    if |replies| == 0 then 0 else TotalWins(replies[..|replies| - 1], p) + GetOr(replies[|replies| - 1].wins, p, 0)
  }

  /** All wins credited by all workers. */
  ghost function TotalCredited<P>(replies: seq<Batch<P>>): nat
  {
    if |replies| == 0 then 0 else TotalCredited(replies[..|replies| - 1]) + MapSum(replies[|replies| - 1].wins)
  }

  /** `simulate`'s fold: add up the playout counts and, entry by entry,
      each worker's win table into the merged one. */
  method Simulate<P(!new,==)>(replies: seq<Batch<P>>) returns (r: Batch<P>)
    ensures r.num == TotalSims(replies)
    ensures forall p :: GetOr(r.wins, p, 0) == TotalWins(replies, p)
    ensures forall p :: p in r.wins <==> exists i :: 0 <= i < |replies| && p in replies[i].wins
    ensures MapSum(r.wins) == TotalCredited(replies)
  {
    var numSims := 0;
    var results: map<P, nat> := map[];
    var i := 0;
    while i < |replies|
      invariant i <= |replies|
      invariant numSims == TotalSims(replies[..i])
      invariant forall p :: GetOr(results, p, 0) == TotalWins(replies[..i], p)
      invariant forall p :: p in results <==> exists k :: 0 <= k < i && p in replies[k].wins
      invariant MapSum(results) == TotalCredited(replies[..i])
    {
      assert replies[..i + 1][..i] == replies[..i];
      var w := replies[i].wins;
      numSims := numSims + replies[i].num;
      ghost var before := results;
      results := MergeWins(results, w);
      forall p
        ensures GetOr(results, p, 0) == TotalWins(replies[..i + 1], p)
      {
        assert GetOr(before, p, 0) == TotalWins(replies[..i], p);
      }
      forall p
        ensures p in results <==> exists k :: 0 <= k < i + 1 && p in replies[k].wins
      {
        if p in w {
          assert 0 <= i < i + 1 && p in replies[i].wins;
        }
      }
      i := i + 1;
    }
    assert replies[..i] == replies;
    r := Batch(numSims, results);
  }

  /** The inner loop of the fold: add each entry of one worker's table into
      the merged table. */
  method MergeWins<P(!new,==)>(acc: map<P, nat>, w: map<P, nat>) returns (r: map<P, nat>)
    ensures forall p :: GetOr(r, p, 0) == GetOr(acc, p, 0) + GetOr(w, p, 0)
    ensures r.Keys == acc.Keys + w.Keys
    ensures MapSum(r) == MapSum(acc) + MapSum(w)
  {
    r := acc;
    var todo := w.Keys;
    RestrictEnds(w);
    while todo != {}
      invariant todo <= w.Keys
      invariant MergedSoFar(acc, w, todo, r)
      decreases todo
    {
      var p :| p in todo;
      var newVal := GetOr(r, p, 0) + w[p];
      MergeStep(acc, w, todo, r, p);
      r := r[p := newVal];
      todo := todo - {p};
    }
    assert MergedSoFar(acc, w, {}, r);
  }

  /** The entries of `w` outside `todo` have been added into `r`: in each
      entry's value, in the key set and in the sum. */
  ghost predicate MergedSoFar<K(!new)>(acc: map<K, nat>, w: map<K, nat>, todo: set<K>, r: map<K, nat>)
  {
    && EntriesMerged(acc, w, todo, r)
    && r.Keys == acc.Keys + (w.Keys - todo)
    && MapSum(r) + MapSum(Restrict(w, todo)) == MapSum(acc) + MapSum(w)
  }

  ghost predicate EntriesMerged<K(!new)>(acc: map<K, nat>, w: map<K, nat>, todo: set<K>, r: map<K, nat>)
  {
    forall p :: GetOr(r, p, 0) == GetOr(acc, p, 0) + (if p in w && p !in todo then w[p] else 0)
  }

  /** Adding one pending entry keeps the loop's invariant. */
  lemma MergeStep<K(!new)>(acc: map<K, nat>, w: map<K, nat>, todo: set<K>, r: map<K, nat>, p: K)
    requires p in todo && p in w && MergedSoFar(acc, w, todo, r)
    ensures MergedSoFar(acc, w, todo - {p}, r[p := GetOr(r, p, 0) + w[p]])
  {
    MergeStepEntries(acc, w, todo, r, p);
    MergeStepSum(r, w, todo, p);
  }

  lemma MergeStepEntries<K(!new)>(acc: map<K, nat>, w: map<K, nat>, todo: set<K>, r: map<K, nat>, p: K)
    requires p in todo && p in w && EntriesMerged(acc, w, todo, r)
    ensures EntriesMerged(acc, w, todo - {p}, r[p := GetOr(r, p, 0) + w[p]])
  {
    var r' := r[p := GetOr(r, p, 0) + w[p]];
    forall q
      ensures GetOr(r', q, 0) == GetOr(acc, q, 0) + (if q in w && q !in todo - {p} then w[q] else 0)
    {
      assert GetOr(r, q, 0) == GetOr(acc, q, 0) + (if q in w && q !in todo then w[q] else 0);
    }
  }

  /** Adding one pending entry into the merged table moves its value from
      the pending part of the sum to the merged part. */
  lemma MergeStepSum<K>(r: map<K, nat>, w: map<K, nat>, todo: set<K>, p: K)
    requires p in todo && p in w
    ensures MapSum(r[p := GetOr(r, p, 0) + w[p]]) + MapSum(Restrict(w, todo - {p})) == MapSum(r) + MapSum(Restrict(w, todo))
  {
    MapSumUpdate(r, p, GetOr(r, p, 0) + w[p]);
    RestrictRemove(w, todo, p);
  }

  /** The entries of `m` whose keys are in `keys`. */
  function Restrict<K, V>(m: map<K, V>, keys: set<K>): (r: map<K, V>)
    ensures r.Keys == m.Keys * keys
    ensures forall k :: k in r ==> r[k] == m[k]
  {
    map k | k in m && k in keys :: m[k]
  }

  lemma RestrictEnds<K>(m: map<K, nat>)
    ensures Restrict(m, m.Keys) == m
    ensures MapSum(Restrict(m, {})) == 0
  {
    assert Restrict(m, {}) == map[];
  }

  /** Taking one key out of the restriction takes its value out of the sum. */
  lemma RestrictRemove<K>(m: map<K, nat>, keys: set<K>, k: K)
    requires k in keys && k in m
    ensures MapSum(Restrict(m, keys)) == m[k] + MapSum(Restrict(m, keys - {k}))
  {
    MapSumRemove(Restrict(m, keys), k);
    assert Restrict(m, keys) - {k} == Restrict(m, keys - {k});
  }

  /** Tallied reports merge into a tallied, hence sound, batch: the bound
      `wins <= games` that backpropagation relies on holds for whatever the
      pool hands back. */
  lemma {:induction false} TalliedTotals<P>(replies: seq<Batch<P>>)
    requires forall i :: 0 <= i < |replies| ==> Tallied(replies[i])
    ensures TotalCredited(replies) <= TotalSims(replies)
  {
    if |replies| > 0 {
      var n := |replies| - 1;
      assert forall i :: 0 <= i < n ==> replies[..n][i] == replies[i];
      TalliedTotals(replies[..n]);
      assert Tallied(replies[n]);
    }
  }

  /** A worker's report is tallied, and so is the merge of any number of
      tallied reports. */
  lemma PoolBatchSound<P>(replies: seq<Batch<P>>, merged: Batch<P>)
    requires forall i :: 0 <= i < |replies| ==> Tallied(replies[i])
    requires merged.num == TotalSims(replies) && MapSum(merged.wins) == TotalCredited(replies)
    ensures Tallied(merged) && BatchSound(merged)
  {
    TalliedTotals(replies);
    TalliedSound(merged);
  }

  /** How many playouts the workers ran between them. */
  function Played<P>(outcomes: seq<seq<Option<P>>>): nat
  {
    if |outcomes| == 0 then 0 else Played(outcomes[..|outcomes| - 1]) + |outcomes[|outcomes| - 1]|
  }

  lemma {:induction false} TotalSimsPlayed<P>(outcomes: seq<seq<Option<P>>>, replies: seq<Batch<P>>)
    requires |replies| == |outcomes|
    requires forall i :: 0 <= i < |replies| ==> replies[i].num == |outcomes[i]|
    ensures TotalSims(replies) == Played(outcomes)
  {
    if |replies| > 0 {
      var n := |replies| - 1;
      TotalSimsPlayed(outcomes[..n], replies[..n]);
    }
  }

  /** One round of the pool: every worker counts its playouts, and
      `simulate` merges the reports into a batch that counts every playout
      and is sound for backpropagation. */
  method Pool<P(!new,==)>(outcomes: seq<seq<Option<P>>>) returns (b: Batch<P>)
    ensures b.num == Played(outcomes)
    ensures Tallied(b) && BatchSound(b)
  {
    var replies: seq<Batch<P>> := [];
    var i := 0;
    while i < |outcomes|
      invariant i <= |outcomes| && |replies| == i
      invariant forall k :: 0 <= k < i ==> Tallied(replies[k]) && replies[k].num == |outcomes[k]|
    {
      var rep := CountPlayouts(outcomes[i]);
      replies := replies + [rep];
      i := i + 1;
    }
    b := Simulate(replies);
    PoolBatchSound(replies, b);
    TotalSimsPlayed(outcomes, replies);
  }
}
