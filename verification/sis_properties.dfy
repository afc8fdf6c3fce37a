/**
  Properties of the SIS trajectory: the seed count, extinction being
  absorbing, what happens when every draw of a kind fails or succeeds, and
  the spread on a complete graph.
 */
module SISProperties {
  import opened Counting
  import opened SISSpec

  /** Column 0 holds exactly `numSeeds` infected nodes. */
  lemma SeedCount(numSeeds: nat, perm: seq<nat>, n: nat)
    requires IsPermutation(perm, n) && numSeeds <= n
    ensures Count(Seeds(numSeeds, perm)) == numSeeds
  {
    var seeds := Seeds(numSeeds, perm);
    var infected := TrueIndices(seeds);
    CountIsCard(seeds);
    ImageCard(infected, perm);
    PermutationCovers(perm, n);
    forall v: nat
      ensures v in Image(infected, perm) <==> v in Range(numSeeds)
    {
      InRange(numSeeds, v);
      if v < numSeeds {
        assert v in perm;
        var k :| 0 <= k < n && perm[k] == v;
        assert k in infected;
      }
    }
    assert Image(infected, perm) == Range(numSeeds);
    CardRange(numSeeds);
  }

  /** From a state with no infected node, a step infects nobody. */
  lemma StepOfExtinct(e: Epidemic, prev: seq<bool>, t: nat)
    requires |prev| == |e.adj| && Count(prev) == 0
    ensures Step(e, prev, t) == Zeros(|prev|)
  {
    CountZeroIffNone(prev);
  }

  /** Extinction is absorbing: once a column sums to zero, every later column is all zero. */
  lemma {:induction false} ExtinctionAbsorbing(e: Epidemic, seeds: seq<bool>, t: nat, u: nat)
    requires |seeds| == |e.adj| && t <= u
    requires Count(State(e, seeds, t)) == 0
    ensures State(e, seeds, u) == Zeros(|seeds|)
    decreases u
  {
    if u == t {
      CountZeroIffNone(State(e, seeds, t));
    } else {
      ExtinctionAbsorbing(e, seeds, t, u - 1);
    }
  }

  /** A sequence of columns built one step at a time is the trajectory. */
  lemma {:induction false} TrajectoryIsState(e: Epidemic, seeds: seq<bool>, cols: seq<seq<bool>>)
    requires |seeds| == |e.adj|
    requires IsTrajectory(e, seeds, cols)
    ensures forall u :: 0 <= u < |cols| ==> cols[u] == State(e, seeds, u)
    decreases |cols|
  {
    if |cols| > 1 {
      var init := cols[..|cols| - 1];
      assert IsTrajectory(e, seeds, init);
      TrajectoryIsState(e, seeds, init);
    }
  }

  /** A trajectory extended by the next column is a trajectory. */
  lemma TrajectoryExtend(e: Epidemic, seeds: seq<bool>, cols: seq<seq<bool>>, next: seq<bool>)
    requires IsTrajectory(e, seeds, cols)
    requires next == Next(e, cols[|cols| - 1], |cols|)
    ensures IsTrajectory(e, seeds, cols + [next])
  {
  }

  /** The same, for all later columns at once. */
  lemma ExtinctForever(e: Epidemic, seeds: seq<bool>, t: nat)
    requires |seeds| == |e.adj|
    requires Count(State(e, seeds, t)) == 0
    ensures forall u: nat :: t <= u ==> State(e, seeds, u) == Zeros(|seeds|)
  {
    forall u: nat | t <= u
      ensures State(e, seeds, u) == Zeros(|seeds|)
    {
      ExtinctionAbsorbing(e, seeds, t, u);
    }
  }

  /**
    Stopping at extinction changes no column: the trajectory with the check
    equals the one that takes every step.
   */
  lemma {:induction false} BreakChangesNothing(e: Epidemic, seeds: seq<bool>, t: nat)
    requires |seeds| == |e.adj|
    ensures State(e, seeds, t) == Evolve(e, seeds, t)
    decreases t
  {
    if t > 0 {
      BreakChangesNothing(e, seeds, t - 1);
      var prev := State(e, seeds, t - 1);
      if Count(prev) < 1 {
        StepOfExtinct(e, prev, t);
      }
      assert State(e, seeds, t) == Next(e, prev, t);
    }
  }

  /** If no transmission succeeds at step t, only previously infected nodes are infected, so the count cannot rise. */
  lemma NoTransmissionNoIncrease(e: Epidemic, prev: seq<bool>, t: nat)
    requires |prev| == |e.adj|
    requires forall i, j :: !Transmits(e, t, i, j)
    ensures forall j :: 0 <= j < |prev| && Step(e, prev, t)[j] ==> prev[j]
    ensures Count(Step(e, prev, t)) <= Count(prev)
  {
    CountMono(prev, Step(e, prev, t));
  }

  /** If no transmission and no cure succeeds at step t, the state is unchanged. */
  lemma NoDrawSucceeds(e: Epidemic, prev: seq<bool>, t: nat)
    requires |prev| == |e.adj|
    requires forall i, j :: !Transmits(e, t, i, j)
    requires forall i :: !Cured(e, t, i)
    ensures Step(e, prev, t) == prev
  {
  }

  /** If no transmission succeeds and every node recovers at step t, the epidemic is extinct after it. */
  lemma CureAllWithoutSpread(e: Epidemic, prev: seq<bool>, t: nat)
    requires |prev| == |e.adj|
    requires forall i, j :: !Transmits(e, t, i, j)
    requires forall i :: Cured(e, t, i)
    ensures Count(Step(e, prev, t)) == 0
  {
    CountZeroIffNone(Step(e, prev, t));
  }

  /** If no transmission ever succeeds, no column holds more infected nodes than the seeds. */
  lemma {:induction false} NeverTransmitBounded(e: Epidemic, seeds: seq<bool>, t: nat)
    requires |seeds| == |e.adj|
    requires forall u, i, j :: !Transmits(e, u, i, j)
    ensures Count(State(e, seeds, t)) <= Count(seeds)
    decreases t
  {
    if t > 0 {
      NeverTransmitBounded(e, seeds, t - 1);
      var prev := State(e, seeds, t - 1);
      if Count(prev) >= 1 {
        NoTransmissionNoIncrease(e, prev, t);
      }
    }
  }

  /** If no transmission and no cure ever succeeds, every column equals column 0. */
  lemma {:induction false} NeverDrawPersists(e: Epidemic, seeds: seq<bool>, t: nat)
    requires |seeds| == |e.adj|
    requires forall u, i, j :: !Transmits(e, u, i, j)
    requires forall u, i :: !Cured(e, u, i)
    ensures State(e, seeds, t) == seeds
    decreases t
  {
    if t > 0 {
      NeverDrawPersists(e, seeds, t - 1);
      if Count(seeds) < 1 {
        CountZeroIffNone(seeds);
        assert seeds == Zeros(|seeds|);
      } else {
        NoDrawSucceeds(e, seeds, t);
      }
    }
  }

  /**
    With beta = mu = 1 every draw in [0, 1) succeeds: each infected node
    recovers and infects all its neighbours, so the next state is exactly
    the set of neighbours of the infected nodes.
   */
  lemma CertainRatesStep(e: Epidemic, prev: seq<bool>, t: nat)
    requires |prev| == |e.adj|
    requires e.beta == 1.0 && e.mu == 1.0
    requires forall i, j :: e.draws.transmit(t, i, j) < 1.0
    requires forall i :: e.draws.cure(t, i) < 1.0
    ensures forall j :: 0 <= j < |prev| ==>
      (Step(e, prev, t)[j] <==> exists i :: 0 <= i < |prev| && prev[i] && j in e.adj[i])
  {
  }

  /** Later columns only add to the running total. */
  lemma {:induction false} TotalInfectedMono(e: Epidemic, seeds: seq<bool>, L: nat, L': nat)
    requires |seeds| == |e.adj| && L <= L'
    ensures TotalInfected(e, seeds, L) <= TotalInfected(e, seeds, L')
    decreases L'
  {
    if L < L' {
      TotalInfectedMono(e, seeds, L, L' - 1);
    }
  }

  /**
    On a complete graph of at least two nodes, one seed and explicit rates
    beta = mu = 1 make the infection reach a node other than the seed at
    step 1, so the whole time series sums to more than one.
   */
  lemma CompleteGraphSpreads(adj: seq<seq<nat>>, perm: seq<nat>, draws: Draws,
                             betaDefault: real, muDefault: real, L: nat)
    requires |adj| >= 2 && IsComplete(adj) && IsPermutation(perm, |adj|) && L >= 2
    requires forall t, i, j :: draws.transmit(t, i, j) < 1.0
    requires forall t, i :: draws.cure(t, i) < 1.0
    ensures TotalInfected(Epidemic(adj, draws, ResolveRate(Some(1.0), betaDefault),
                                   ResolveRate(Some(1.0), muDefault)), Seeds(1, perm), L) > 1
  {
    var e := Epidemic(adj, draws, ResolveRate(Some(1.0), betaDefault), ResolveRate(Some(1.0), muDefault));
    var n := |adj|;
    var seeds := Seeds(1, perm);
    SeedCount(1, perm, n);
    PermutationCovers(perm, n);
    assert 0 in perm;
    var s :| 0 <= s < n && perm[s] == 0;
    var other := if s == 0 then 1 else 0;
    assert seeds[s] && other in adj[s] && Transmits(e, 1, s, other);
    assert State(e, seeds, 1)[other];
    CountZeroIffNone(State(e, seeds, 1));
    TotalInfectedMono(e, seeds, 2, L);
  }
}
