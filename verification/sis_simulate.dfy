/**
  The SIS simulation as the imperative procedure it is: two boolean buffers,
  `infected` and `nextInfected` (one flag per node), and an N x L integer
  matrix `ts` filled column by column. Each method is proved against the
  pure trajectory of module SISSpec.
 */
module SISSimulation {
  import opened Counting
  import opened SISSpec
  import opened SISProperties

  /** The 0/1 entry recorded in the time series for an infection flag. */
  function Indicator(b: bool): int
  {
    if b then 1 else 0
  }

  /**
    Visit node i once. If it is infected, mark every neighbour it transmits
    to in the staging buffer, then either cure it (clearing its own
    `infected` flag) or mark it in the staging buffer as still infected.
   */
  method VisitNode(e: Epidemic, t: nat, i: nat, infected: array<bool>, nextInfected: array<bool>)
    requires WellFormed(e.adj)
    requires infected.Length == |e.adj| && nextInfected.Length == |e.adj| && infected != nextInfected
    requires i < |e.adj|
    modifies infected, nextInfected
    ensures forall v :: 0 <= v < infected.Length ==>
      infected[v] == if v == i then old(infected[i]) && !Cured(e, t, i) else old(infected[v])
    ensures forall j :: 0 <= j < nextInfected.Length ==>
      nextInfected[j] == (old(nextInfected[j]) ||
        (old(infected[i]) && ((j in e.adj[i] && Transmits(e, t, i, j)) || (j == i && !Cured(e, t, i)))))
  {
    if infected[i] {
      var neighbours := e.adj[i];
      var m := 0;
      while m < |neighbours|
        invariant 0 <= m <= |neighbours|
        invariant forall v :: 0 <= v < infected.Length ==> infected[v] == old(infected[v])
        invariant forall j :: 0 <= j < nextInfected.Length ==>
          nextInfected[j] == (old(nextInfected[j]) || (j in neighbours[..m] && Transmits(e, t, i, j)))
      {
        var j := neighbours[m];
        assert neighbours[..m + 1] == neighbours[..m] + [j];
        if Transmits(e, t, i, j) {
          nextInfected[j] := true;
        }
        m := m + 1;
      }
      assert neighbours[..m] == neighbours;
      if Cured(e, t, i) {
        infected[i] := false;
      } else {
        nextInfected[i] := true;
      }
    }
  }

  /** The staging-buffer value of node j once the nodes in `visited` have been visited. */
  ghost predicate Marked(e: Epidemic, prev: seq<bool>, t: nat, visited: set<nat>, j: nat)
    requires |prev| == |e.adj|
  {
    (j in visited && j < |prev| && prev[j] && !Cured(e, t, j)) ||
    exists i :: 0 <= i < |prev| && i in visited && prev[i] && j in e.adj[i] && Transmits(e, t, i, j)
  }

  /** Visiting one more node i (infected as before) adds exactly its own marks. */
  lemma MarkedExtend(e: Epidemic, prev: seq<bool>, t: nat, visited: set<nat>, i: nat, j: nat)
    requires |prev| == |e.adj| && i < |prev|
    ensures Marked(e, prev, t, visited + {i}, j) ==
      (Marked(e, prev, t, visited, j) ||
       (prev[i] && ((j in e.adj[i] && Transmits(e, t, i, j)) || (j == i && !Cured(e, t, i)))))
  {
    if prev[i] && j in e.adj[i] && Transmits(e, t, i, j) {
      assert i in visited + {i};
    }
  }

  /**
    Visit every node once, in the order `order`. Whatever the order, the
    staging buffer ends up holding exactly the next state `Step`, and each
    node's own `infected` flag has been cleared exactly when it was infected
    and recovered.
   */
  method VisitNodes(e: Epidemic, t: nat, order: seq<nat>, infected: array<bool>, nextInfected: array<bool>)
    requires WellFormed(e.adj)
    requires infected.Length == |e.adj| && nextInfected.Length == |e.adj| && infected != nextInfected
    requires IsPermutation(order, |e.adj|)
    requires forall j :: 0 <= j < nextInfected.Length ==> !nextInfected[j]
    modifies infected, nextInfected
    ensures nextInfected[..] == Step(e, old(infected[..]), t)
    ensures forall v :: 0 <= v < infected.Length ==> infected[v] == (old(infected[v]) && !Cured(e, t, v))
  {
    var n := |e.adj|;
    ghost var prev := infected[..];
    ghost var visited: set<nat> := {};
    var k := 0;
    while k < n
      invariant 0 <= k <= n
      invariant forall v :: v in visited <==> exists m :: 0 <= m < k && order[m] == v
      invariant forall v :: 0 <= v < n ==>
        infected[v] == if v in visited then prev[v] && !Cured(e, t, v) else prev[v]
      invariant forall j :: 0 <= j < n ==> nextInfected[j] == Marked(e, prev, t, visited, j)
    {
      var i := order[k];
      assert i !in visited;
      VisitNode(e, t, i, infected, nextInfected);
      forall j | 0 <= j < n
        ensures nextInfected[j] == Marked(e, prev, t, visited + {i}, j)
      {
        MarkedExtend(e, prev, t, visited, i, j);
      }
      visited := visited + {i};
      k := k + 1;
    }
    PermutationCovers(order, n);
    forall v | 0 <= v < n
      ensures v in visited
    {
      assert v in order;
    }
    forall j | 0 <= j < n
      ensures nextInfected[j] == Step(e, prev, t)[j]
    {
      assert Marked(e, prev, t, visited, j) == ((prev[j] && !Cured(e, t, j)) || Reached(e, prev, t, j));
    }
  }

  /** Make the staged state current, then clear the staging buffer. */
  method Commit(infected: array<bool>, nextInfected: array<bool>)
    requires infected.Length == nextInfected.Length && infected != nextInfected
    modifies infected, nextInfected
    ensures infected[..] == old(nextInfected[..])
    ensures forall j :: 0 <= j < nextInfected.Length ==> !nextInfected[j]
  {
    for j := 0 to infected.Length
      invariant forall v :: 0 <= v < j ==> infected[v] == nextInfected[v]
      invariant nextInfected[..] == old(nextInfected[..])
    {
      infected[j] := nextInfected[j];
    }
    for j := 0 to nextInfected.Length
      invariant forall v :: 0 <= v < j ==> !nextInfected[v]
      invariant infected[..] == old(nextInfected[..])
    {
      nextInfected[j] := false;
    }
  }

  /** Write the current infection flags into column t of the time series; no other column changes. */
  method RecordColumn(ts: array2<int>, t: nat, infected: array<bool>)
    requires ts.Length0 == infected.Length && t < ts.Length1
    modifies ts
    ensures forall k, u :: 0 <= k < ts.Length0 && 0 <= u < ts.Length1 ==>
      ts[k, u] == if u == t then Indicator(infected[k]) else old(ts[k, u])
  {
    for k := 0 to ts.Length0
      invariant forall k', u :: 0 <= k' < ts.Length0 && 0 <= u < ts.Length1 ==>
        ts[k', u] == if u == t && k' < k then Indicator(infected[k']) else old(ts[k', u])
    {
      ts[k, t] := Indicator(infected[k]);
    }
  }

  /** The sum of column u of the time series, when that column records the state `col`. */
  method ColumnSum(ts: array2<int>, u: nat, ghost col: seq<bool>) returns (total: int)
    requires u < ts.Length1 && |col| == ts.Length0
    requires forall k :: 0 <= k < ts.Length0 ==> ts[k, u] == Indicator(col[k])
    ensures total == Count(col)
  {
    total := 0;
    for k := 0 to ts.Length0
      invariant total == Count(col[..k])
    {
      assert col[..k + 1][..k] == col[..k];
      total := total + ts[k, u];
    }
    assert col[..ts.Length0] == col;
  }

  /** The sum of the first k entries of column u of the time series. */
  ghost function ColumnTotal(ts: array2<int>, u: nat, k: nat): int
    requires u < ts.Length1 && k <= ts.Length0
    reads ts
  {
    if k == 0 then 0 else ColumnTotal(ts, u, k - 1) + ts[k - 1, u]
  }

  /** The sum of every entry in the first L columns of the time series. */
  ghost function SeriesTotal(ts: array2<int>, L: nat): int
    requires L <= ts.Length1
    reads ts
  {
    if L == 0 then 0 else SeriesTotal(ts, L - 1) + ColumnTotal(ts, L - 1, ts.Length0)
  }

  /** Column u of the time series records the state `col`. */
  ghost predicate Records(ts: array2<int>, u: nat, col: seq<bool>)
    reads ts
  {
    u < ts.Length1 && |col| == ts.Length0 &&
    forall k :: 0 <= k < ts.Length0 ==> ts[k, u] == Indicator(col[k])
  }

  /** A column that records the state `col` sums, over its first k entries, to the infected count among them. */
  lemma {:induction false} ColumnTotalIsCount(ts: array2<int>, u: nat, col: seq<bool>, k: nat)
    requires Records(ts, u, col) && k <= ts.Length0
    ensures ColumnTotal(ts, u, k) == Count(col[..k])
    decreases k
  {
    if k > 0 {
      ColumnTotalIsCount(ts, u, col, k - 1);
      assert col[..k][..k - 1] == col[..k - 1];
    }
  }

  /** A matrix whose columns record the trajectory sums to the total number of infections over them. */
  lemma {:induction false} SeriesTotalIsTotalInfected(ts: array2<int>, e: Epidemic, seeds: seq<bool>, L: nat)
    requires |seeds| == |e.adj| && L <= ts.Length1
    requires forall u :: 0 <= u < L ==> Records(ts, u, State(e, seeds, u))
    ensures SeriesTotal(ts, L) == TotalInfected(e, seeds, L)
    decreases L
  {
    if L > 0 {
      SeriesTotalIsTotalInfected(ts, e, seeds, L - 1);
      var col := State(e, seeds, L - 1);
      ColumnTotalIsCount(ts, L - 1, col, ts.Length0);
      assert col[..ts.Length0] == col;
    }
  }

  /**
    One time step t: visit every node in the order `order`, commit the
    staging buffer and record the new state as column t.
   */
  method Advance(e: Epidemic, t: nat, order: seq<nat>, infected: array<bool>, nextInfected: array<bool>,
                 ts: array2<int>)
    requires WellFormed(e.adj)
    requires infected.Length == |e.adj| && nextInfected.Length == |e.adj| && infected != nextInfected
    requires IsPermutation(order, |e.adj|)
    requires forall j :: 0 <= j < nextInfected.Length ==> !nextInfected[j]
    requires ts.Length0 == |e.adj| && t < ts.Length1
    modifies infected, nextInfected, ts
    ensures infected[..] == Step(e, old(infected[..]), t)
    ensures forall j :: 0 <= j < nextInfected.Length ==> !nextInfected[j]
    ensures forall k, u :: 0 <= k < ts.Length0 && 0 <= u < ts.Length1 ==>
      ts[k, u] == if u == t then Indicator(infected[k]) else old(ts[k, u])
  {
    VisitNodes(e, t, order, infected, nextInfected);
    Commit(infected, nextInfected);
    RecordColumn(ts, t, infected);
  }

  /**
    Seeding: reorder the vector of `numSeeds` ones followed by zeros by the
    permutation `seedPerm`, and write it both as column 0 of the time series
    and as the nodes' infection flags (a non-zero entry is infected).
   */
  method Seed(ts: array2<int>, infected: array<bool>, numSeeds: nat, seedPerm: seq<nat>)
    requires ts.Length0 == infected.Length && 1 <= ts.Length1
    requires IsPermutation(seedPerm, infected.Length) && numSeeds <= infected.Length
    modifies ts, infected
    ensures infected[..] == Seeds(numSeeds, seedPerm)
    ensures forall k, u :: 0 <= k < ts.Length0 && 0 <= u < ts.Length1 ==>
      ts[k, u] == if u == 0 then Indicator(infected[k]) else old(ts[k, u])
  {
    var n := infected.Length;
    var seedVector := seq(n, v => if v < numSeeds then 1 else 0);
    for k := 0 to n
      invariant forall k' :: 0 <= k' < k ==> infected[k'] == (seedPerm[k'] < numSeeds)
      invariant forall k', u :: 0 <= k' < n && 0 <= u < ts.Length1 ==>
        ts[k', u] == if u == 0 && k' < k then Indicator(infected[k']) else old(ts[k', u])
    {
      var s := seedVector[seedPerm[k]];
      ts[k, 0] := s;
      infected[k] := s != 0;
    }
  }

  /**
    The time loop: for t = 1 .. L-1, stop if column t - 1 sums to less than
    one, otherwise advance one step. Returns the columns computed, which
    form a trajectory from the seeds; the columns after an early stop are
    still the zeros the matrix was allocated with.
   */
  method RunSteps(e: Epidemic, ghost seeds: seq<bool>, visitOrders: seq<seq<nat>>,
                  infected: array<bool>, nextInfected: array<bool>, ts: array2<int>)
    returns (ghost cols: seq<seq<bool>>)
    requires WellFormed(e.adj) && |seeds| == |e.adj|
    requires infected.Length == |e.adj| && nextInfected.Length == |e.adj| && infected != nextInfected
    requires ts.Length0 == |e.adj| && ts.Length1 == |visitOrders| + 1
    requires forall t :: 0 <= t < |visitOrders| ==> IsPermutation(visitOrders[t], |e.adj|)
    requires infected[..] == seeds
    requires forall j :: 0 <= j < nextInfected.Length ==> !nextInfected[j]
    requires forall k, u :: 0 <= k < ts.Length0 && 0 <= u < ts.Length1 ==>
      ts[k, u] == if u == 0 then Indicator(seeds[k]) else 0
    modifies infected, nextInfected, ts
    ensures IsTrajectory(e, seeds, cols) && |cols| <= ts.Length1
    ensures infected[..] == cols[|cols| - 1]
    ensures forall k, u :: 0 <= k < ts.Length0 && 0 <= u < |cols| ==> ts[k, u] == Indicator(cols[u][k])
    ensures forall k, u :: 0 <= k < ts.Length0 && |cols| <= u < ts.Length1 ==> ts[k, u] == 0
    ensures |cols| < ts.Length1 ==> Count(cols[|cols| - 1]) == 0
  {
    var n, L := |e.adj|, ts.Length1;
    var t: nat := 1;
    cols := [infected[..]];
    while t < L
      invariant 1 <= t <= L && |cols| == t
      invariant IsTrajectory(e, seeds, cols)
      invariant infected[..] == cols[t - 1]
      invariant forall j :: 0 <= j < n ==> !nextInfected[j]
      invariant forall k, u :: 0 <= k < n && 0 <= u < L ==> ts[k, u] == if u < t then Indicator(cols[u][k]) else 0
    {
      // Stop once the previous column sums to less than one.
      var total := ColumnSum(ts, t - 1, cols[t - 1]);
      if total < 1 {
        break;
      }
      Advance(e, t, visitOrders[t - 1], infected, nextInfected, ts);
      TrajectoryExtend(e, seeds, cols, infected[..]);
      cols := cols + [infected[..]];
      t := t + 1;
    }
  }

  /**
    Simulate L time steps of the SIS epidemic on the graph `adj`.

    `seedPerm` is the random permutation applied to the vector of
    `numSeeds` ones followed by zeros; `visitOrders[t - 1]` is the random
    order in which the nodes are visited at step t; `draws` holds the
    uniform draws. An omitted or zero `beta` or `mu` is replaced by
    `betaDefault` or `muDefault`.

    Returns the N x L time series and the final infection flags of the
    nodes, i.e. the `infected` attributes of the graph the source keeps as
    its ground truth. With no nodes and no usable `mu`, the default
    `1 / N` divides by zero, so a caller must give a graph with a node or
    a non-zero `mu`.
   */
  method Simulate(adj: seq<seq<nat>>, L: int, numSeeds: int, beta: Option<real>, mu: Option<real>,
                  betaDefault: real, muDefault: real, seedPerm: seq<nat>,
                  visitOrders: seq<seq<nat>>, draws: Draws)
    returns (ts: array2<int>, final: seq<bool>)
    requires WellFormed(adj)
    requires L >= 1
    requires 0 <= numSeeds <= |adj|
    requires |adj| >= 1 || (mu.Some? && mu.value != 0.0)
    requires IsPermutation(seedPerm, |adj|)
    requires |visitOrders| == L - 1
    requires forall t :: 0 <= t < |visitOrders| ==> IsPermutation(visitOrders[t], |adj|)
    ensures ts.Length0 == |adj| && ts.Length1 == L
    ensures forall k, u :: 0 <= k < |adj| && 0 <= u < L ==> ts[k, u] == 0 || ts[k, u] == 1
    ensures forall k, u :: 0 <= k < |adj| && 0 <= u < L ==>
      ts[k, u] == Indicator(State(Epidemic(adj, draws, ResolveRate(beta, betaDefault), ResolveRate(mu, muDefault)),
                                  Seeds(numSeeds, seedPerm), u)[k])
    ensures ColumnTotal(ts, 0, |adj|) == numSeeds
    ensures ColumnTotal(ts, 0, |adj|) == numSeeds
    ensures SeriesTotal(ts, L) ==
      TotalInfected(Epidemic(adj, draws, ResolveRate(beta, betaDefault), ResolveRate(mu, muDefault)),
                    Seeds(numSeeds, seedPerm), L)
    ensures final == State(Epidemic(adj, draws, ResolveRate(beta, betaDefault), ResolveRate(mu, muDefault)),
                           Seeds(numSeeds, seedPerm), L - 1)
  {
    var n := |adj|;
    ts := new int[n, L]((k, u) => 0);
    var e := Epidemic(adj, draws, ResolveRate(beta, betaDefault), ResolveRate(mu, muDefault));

    var infected := new bool[n];
    var nextInfected := new bool[n](_ => false);
    Seed(ts, infected, numSeeds, seedPerm);
    ghost var seeds := Seeds(numSeeds, seedPerm);
    assert |seeds| == n;
    assert infected[..] == State(e, seeds, 0);

    ghost var cols := RunSteps(e, seeds, visitOrders, infected, nextInfected, ts);
    TrajectoryIsState(e, seeds, cols);
    if |cols| < L {
      ExtinctForever(e, seeds, |cols| - 1);
    }
    forall u | 0 <= u < L
      ensures Records(ts, u, State(e, seeds, u))
    {
    }
    SeriesTotalIsTotalInfected(ts, e, seeds, L);
    SeedCount(numSeeds, seedPerm, n);
    ColumnTotalIsCount(ts, 0, seeds, n);
    assert seeds[..n] == seeds;
    final := infected[..];
  }

  /**
    The small-seed scenario: on a complete graph of at least two nodes, a
    time series recorded from one seed with explicit rates beta = mu = 1
    and L >= 2 sums to more than one, whatever the draws and orders.
   */
  lemma SmallSeedSeriesSpreads(ts: array2<int>, adj: seq<seq<nat>>, perm: seq<nat>, draws: Draws,
                               betaDefault: real, muDefault: real, L: nat)
    requires |adj| >= 2 && IsComplete(adj) && IsPermutation(perm, |adj|) && L >= 2
    requires forall t, i, j :: draws.transmit(t, i, j) < 1.0
    requires forall t, i :: draws.cure(t, i) < 1.0
    requires ts.Length0 == |adj| && ts.Length1 == L
    requires forall k, u :: 0 <= k < |adj| && 0 <= u < L ==>
      ts[k, u] == Indicator(State(Epidemic(adj, draws, ResolveRate(Some(1.0), betaDefault),
                                           ResolveRate(Some(1.0), muDefault)), Seeds(1, perm), u)[k])
    ensures SeriesTotal(ts, L) > 1
  {
    var e := Epidemic(adj, draws, ResolveRate(Some(1.0), betaDefault), ResolveRate(Some(1.0), muDefault));
    forall u | 0 <= u < L
      ensures Records(ts, u, State(e, Seeds(1, perm), u))
    {
    }
    SeriesTotalIsTotalInfected(ts, e, Seeds(1, perm), L);
    CompleteGraphSpreads(adj, perm, draws, betaDefault, muDefault, L);
  }
}
