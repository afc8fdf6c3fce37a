/**
  The SIS (Susceptible-Infected-Susceptible) epidemic on a fixed contact
  network, as a pure specification.

  Nodes are the indices 0 .. N-1, the graph is an adjacency list over those
  indices, and the state of the network at one time step is a `seq<bool>`
  (entry j: node j is infected), which is column t of the N x L time series.
  The random draws of a run are given up front: `draws.transmit(t, i, j)` is
  the uniform number in [0, 1) drawn at step t when infected node i tries to
  infect its neighbour j, and `draws.cure(t, i)` the one drawn when node i
  tries to recover. A transmission succeeds when its draw is below beta, a
  cure when its draw is below mu.
 */
module SISSpec {
  import opened Counting

  datatype Option<T> = None | Some(value: T)

  /**
    The rate actually used for a supplied rate: an omitted rate, and also an
    explicit rate of zero (which is falsy), is replaced by the default; any
    other explicit value is kept.
   */
  function ResolveRate(given: Option<real>, fallback: real): (r: real)
    ensures given.Some? && given.value != 0.0 ==> r == given.value
    ensures given == None || given == Some(0.0) ==> r == fallback
  {
    match given
    case Some(rate) => if rate != 0.0 then rate else fallback
    case None => fallback
  }

  /** Every neighbour of every node is itself a node index. */
  predicate WellFormed(adj: seq<seq<nat>>)
  {
    forall i, k :: 0 <= i < |adj| && 0 <= k < |adj[i]| ==> adj[i][k] < |adj|
  }

  /** Every ordered pair of distinct nodes is an edge. */
  ghost predicate IsComplete(adj: seq<seq<nat>>)
  {
    forall i, j :: 0 <= i < |adj| && 0 <= j < |adj| && i != j ==> j in adj[i]
  }

  /** The outcomes of the uniform random draws of a run, indexed by step and node(s). */
  datatype Draws = Draws(transmit: (nat, nat, nat) -> real, cure: (nat, nat) -> real)

  /** Everything a run depends on besides its seeds: graph, draws and resolved rates. */
  datatype Epidemic = Epidemic(adj: seq<seq<nat>>, draws: Draws, beta: real, mu: real)

  /** At step t, infected node i passes the infection to neighbour j. */
  predicate Transmits(e: Epidemic, t: nat, i: nat, j: nat)
  {
    e.draws.transmit(t, i, j) < e.beta
  }

  /** At step t, infected node i recovers. */
  predicate Cured(e: Epidemic, t: nat, i: nat)
  {
    e.draws.cure(t, i) < e.mu
  }

  /** Some node infected in `prev` successfully transmits to j at step t. */
  ghost predicate Reached(e: Epidemic, prev: seq<bool>, t: nat, j: nat)
    requires |prev| == |e.adj|
  {
    exists i :: 0 <= i < |prev| && prev[i] && j in e.adj[i] && Transmits(e, t, i, j)
  }

  /**
    One synchronous step of the epidemic: node j is infected at step t
    exactly when it was infected before and did not recover, or when an
    infected node reached it. The order in which nodes are visited plays no
    part here; the simulation is proved to compute this for every order.
   */
  ghost function Step(e: Epidemic, prev: seq<bool>, t: nat): (next: seq<bool>)
    requires |prev| == |e.adj|
    ensures |next| == |prev|
  {
    seq(|prev|, j requires 0 <= j < |prev| => (prev[j] && !Cured(e, t, j)) || Reached(e, prev, t, j))
  }

  /**
    The state at time 0: the vector of `numSeeds` ones followed by zeros,
    reordered by the permutation `perm` (entry k takes position perm[k] of
    that vector).
   */
  ghost function Seeds(numSeeds: nat, perm: seq<nat>): (s: seq<bool>)
    ensures |s| == |perm|
    ensures forall k :: 0 <= k < |perm| ==> (s[k] <==> perm[k] < numSeeds)
  {
    seq(|perm|, k requires 0 <= k < |perm| => perm[k] < numSeeds)
  }

  /**
    Column t computed from column t - 1. When the previous column sums to
    less than one the step is never taken (the simulation stops), so the
    column keeps the zeros it was allocated with.
   */
  ghost function Next(e: Epidemic, prev: seq<bool>, t: nat): (next: seq<bool>)
    requires |prev| == |e.adj|
    ensures |next| == |prev|
    ensures Count(prev) < 1 ==> forall j :: 0 <= j < |next| ==> !next[j]
    ensures Count(prev) >= 1 ==> next == Step(e, prev, t)
  {
    if Count(prev) < 1 then Zeros(|prev|) else Step(e, prev, t)
  }

  /** Column t of the time series. */
  ghost function State(e: Epidemic, seeds: seq<bool>, t: nat): (s: seq<bool>)
    requires |seeds| == |e.adj|
    ensures |s| == |seeds|
    decreases t
  {
    if t == 0 then seeds else Next(e, State(e, seeds, t - 1), t)
  }

  /** `cols` holds the first |cols| columns of a run from `seeds`, each computed from the one before. */
  ghost predicate IsTrajectory(e: Epidemic, seeds: seq<bool>, cols: seq<seq<bool>>)
  {
    && |cols| >= 1 && cols[0] == seeds
    && (forall u :: 0 <= u < |cols| ==> |cols[u]| == |e.adj|)
    && (forall u :: 1 <= u < |cols| ==> cols[u] == Next(e, cols[u - 1], u))
  }

  /** The state at time t when every step is taken, with no check for extinction. */
  ghost function Evolve(e: Epidemic, seeds: seq<bool>, t: nat): (s: seq<bool>)
    requires |seeds| == |e.adj|
    ensures |s| == |seeds|
    decreases t
  {
    if t == 0 then seeds else Step(e, Evolve(e, seeds, t - 1), t)
  }

  /** The sum of the first L columns of the time series. */
  ghost function TotalInfected(e: Epidemic, seeds: seq<bool>, L: nat): (total: nat)
    requires |seeds| == |e.adj|
    ensures total <= L * |seeds|
  {
    if L == 0 then 0 else TotalInfected(e, seeds, L - 1) + Count(State(e, seeds, L - 1))
  }
}
