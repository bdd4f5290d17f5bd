// nsga2/nsga2.py: the NSGA-II main class. Objective values are inputs (the
// evaluate hook is left to subclasses), random draws come from a RandomSource
// and the spread factor of simulated binary crossover is a parameter.
module Nsga2 {
  import opened Common
  import opened Random
  import opened Individuals
  import opened Populations
  import opened Ranking
  import opened Crowding
  import opened Operators
  import opened Mutation

  // ---------------------------------------------------------------------------
  // Dominance among the members of a population, by index
  // ---------------------------------------------------------------------------

  /** The members' objective lists are sols. */
  ghost predicate HasSolutions(S: seq<Individual>, sols: seq<seq<real>>)
    reads S
  {
    |S| == |sols| && forall k :: 0 <= k < |S| ==> S[k].solutions == sols[k]
  }

  /**
   * All objective lists have one length. The pairwise pass calls dominates in
   * both directions, which raises IndexError unless the lengths agree.
   */
  predicate SameWidth(sols: seq<seq<real>>)
  {
    forall a, b :: 0 <= a < |sols| && 0 <= b < |sols| ==> |sols[a]| == |sols[b]|
  }

  /** Entry (a, b) of R says whether member a dominates member b. */
  ghost predicate DominanceAt(R: Matrix, sols: seq<seq<real>>, a: nat, b: nat)
    requires |R| == |sols| && SameWidth(sols) && IsSquare(R) && a < |R| && b < |R|
  {
    R[a][b] == ObjectivesDominate(sols[a], sols[b])
  }

  /**
   * R is the dominance relation among the members whose objective lists are
   * sols. The entries are reached through DominanceAt only, so that the
   * definition of dominance is unfolded just where a proof asks for it.
   */
  ghost predicate IsDominance(R: Matrix, sols: seq<seq<real>>)
  {
    |R| == |sols| && SameWidth(sols) && IsSquare(R) &&
    forall a: nat, b: nat {:trigger DominanceAt(R, sols, a, b)} :: a < |R| && b < |R| ==> DominanceAt(R, sols, a, b)
  }

  /** The dominance matrix of sols. */
  ghost function DominanceMatrix(sols: seq<seq<real>>): (R: Matrix)
    requires SameWidth(sols)
    ensures IsDominance(R, sols)
  {
    var R := seq(|sols|, a requires 0 <= a < |sols| =>
      seq(|sols|, b requires 0 <= b < |sols| => ObjectivesDominate(sols[a], sols[b])));
    assert forall a: nat, b: nat :: a < |R| && b < |R| ==> DominanceAt(R, sols, a, b);
    R
  }

  lemma DominanceIsStrictOrder(R: Matrix, sols: seq<seq<real>>)
    requires IsDominance(R, sols)
    ensures StrictOrder(R)
  {
    forall a | 0 <= a < |R| ensures !R[a][a] {
      assert DominanceAt(R, sols, a, a);
      DominatesIrreflexive(sols[a]);
    }
    forall a, b, c | 0 <= a < |R| && 0 <= b < |R| && 0 <= c < |R| && R[a][b] && R[b][c]
      ensures R[a][c]
    {
      assert DominanceAt(R, sols, a, b) && DominanceAt(R, sols, b, c) && DominanceAt(R, sols, a, c);
      DominatesTransitive(sols[a], sols[b], sols[c]);
    }
  }

  // ---------------------------------------------------------------------------
  // The pairwise pass of fast_non_dominated_sort
  // ---------------------------------------------------------------------------

  /** One step of the inner loop, on indices. */
  lemma CompareStep(R: Matrix, sols: seq<seq<real>>, i: nat, j: nat)
    requires IsDominance(R, sols) && i < |R| && j < |R|
    ensures R[i][j] == ObjectivesDominate(sols[i], sols[j])
    ensures R[j][i] == ObjectivesDominate(sols[j], sols[i])
    ensures Dominated(R, i, j + 1) == Dominated(R, i, j) + (if R[i][j] then [j] else [])
    ensures |DominatorsBelow(R, i, j + 1)| == |DominatorsBelow(R, i, j)| + (if R[j][i] then 1 else 0)
    ensures (R[i][j] ==> !R[j][i]) && !R[i][i]
  {
    assert DominanceAt(R, sols, i, j) && DominanceAt(R, sols, j, i) && DominanceAt(R, sols, i, i);
    DominatorsBelowStep(R, i, j);
    assert j !in DominatorsBelow(R, i, j);
    DominatesIrreflexive(sols[i]);
    DominatesAsymmetric(sols[i], sols[j]);
  }

  /**
   * The body of the inner loop: current records that it dominates other, or
   * counts other among its dominators.
   */
  method CompareWith(current: Individual, other: Individual, ghost d: bool, ghost e: bool)
    requires |current.solutions| == |other.solutions|
    requires d == ObjectivesDominate(current.solutions, other.solutions)
    requires e == ObjectivesDominate(other.solutions, current.solutions)
    modifies current
    ensures current.dominatedBy == old(current.dominatedBy) + (if d then [other] else [])
    ensures current.dominationCount == old(current.dominationCount) + (if !d && e then 1 else 0)
    ensures current.solutions == old(current.solutions) && current.rank == old(current.rank)
    ensures current.crowdingDistance == old(current.crowdingDistance)
    ensures current.nonNormalizedSolutions == old(current.nonNormalizedSolutions)
  {
    var dominates := current.Dominates(other);
    if dominates {
      current.dominatedBy := current.dominatedBy + [other];
    } else {
      var dominated := other.Dominates(current);
      if dominated {
        current.dominationCount := current.dominationCount + 1;
      }
    }
  }

  /**
   * The inner loop of the pairwise pass for the member at index i: compares it
   * with everyone else, collecting whom it dominates and counting who
   * dominates it.
   */
  method CompareWithEveryone(S: seq<Individual>, i: nat, ghost sols: seq<seq<real>>, ghost R: Matrix)
    requires HasSolutions(S, sols) && IsDominance(R, sols) && i < |S|
    requires S[i].dominationCount == 0 && S[i].dominatedBy == []
    modifies S[i]
    ensures S[i].dominationCount == |Dominators(R, i)|
    ensures S[i].dominatedBy == Pick(S, Dominated(R, i, |S|))
    ensures S[i].solutions == old(S[i].solutions) && S[i].rank == old(S[i].rank)
    ensures S[i].crowdingDistance == old(S[i].crowdingDistance)
    ensures S[i].nonNormalizedSolutions == old(S[i].nonNormalizedSolutions)
  {
    var current := S[i];
    var j := 0;
    while j < |S|
      invariant 0 <= j <= |S|
      invariant current.dominationCount == |DominatorsBelow(R, i, j)|
      invariant current.dominatedBy == Pick(S, Dominated(R, i, j))
      invariant current.solutions == sols[i] && current.rank == old(current.rank)
      invariant current.crowdingDistance == old(current.crowdingDistance)
      invariant current.nonNormalizedSolutions == old(current.nonNormalizedSolutions)
      invariant forall k :: 0 <= k < |S| ==> S[k].solutions == sols[k]
    {
      CompareStep(R, sols, i, j);
      PickAppend(S, Dominated(R, i, j), j);
      if i != j {
        CompareWith(current, S[j], R[i][j], R[j][i]);
      }
      j := j + 1;
    }
  }

  /** Every member's dominated_by lists, in population order, whom it dominates. */
  ghost predicate Linked(S: seq<Individual>, R: Matrix)
    reads S
  {
    |S| == |R| && IsSquare(R) &&
    forall x :: 0 <= x < |S| ==> S[x].dominatedBy == Pick(S, Dominated(R, x, |S|))
  }

  /** The domination counts of the members are C. */
  ghost predicate Counts(S: seq<Individual>, C: seq<int>)
    reads S
  {
    |C| == |S| && forall x :: 0 <= x < |S| ==> S[x].dominationCount == C[x]
  }

  /** Member x knows how many dominate it and, in population order, whom it dominates. */
  ghost predicate Compared(S: seq<Individual>, R: Matrix, x: nat)
    requires IsSquare(R) && |S| == |R| && x < |S|
    reads S[x]
  {
    S[x].dominationCount == |Dominators(R, x)| && S[x].dominatedBy == Pick(S, Dominated(R, x, |S|))
  }

  /** Member x has rank 1 when nobody dominates it, and its former rank otherwise. */
  ghost predicate FirstRanked(S: seq<Individual>, R: Matrix, ranks: seq<Option<int>>, x: nat)
    requires IsSquare(R) && |S| == |R| && |ranks| == |S| && x < |S|
    reads S[x]
  {
    S[x].rank == if Dominators(R, x) == {} then Some(1) else ranks[x]
  }

  /** Member x is as reset_fronts left it: nothing counted, nothing listed, rank untouched. */
  ghost predicate Uncompared(S: seq<Individual>, ranks: seq<Option<int>>, x: nat)
    requires |ranks| == |S| && x < |S|
    reads S[x]
  {
    S[x].dominationCount == 0 && S[x].dominatedBy == [] && S[x].rank == ranks[x]
  }

  /**
   * The pairwise pass of fast_non_dominated_sort: every member learns whom it
   * dominates and how many dominate it, and the undominated ones form the
   * first front with rank 1.
   */
  method PairwisePass(S: seq<Individual>, front0: Population, ghost sols: seq<seq<real>>, ghost R: Matrix,
                      ghost ranks: seq<Option<int>>)
    requires HasSolutions(S, sols) && IsDominance(R, sols) && Distinct(S) && |ranks| == |S|
    requires forall x :: 0 <= x < |S| ==> Uncompared(S, ranks, x)
    requires front0.individuals == [] && front0.Valid()
    modifies (set x | x in S), front0
    ensures HasSolutions(S, sols)
    ensures forall x :: 0 <= x < |S| ==> Compared(S, R, x) && FirstRanked(S, R, ranks, x)
    ensures forall x :: 0 <= x < |S| ==>
              S[x].crowdingDistance == old(S[x].crowdingDistance) &&
              S[x].nonNormalizedSolutions == old(S[x].nonNormalizedSolutions)
    ensures front0.individuals == Pick(S, Undominated(R, |S|)) && front0.Valid()
    ensures front0.fronts == old(front0.fronts)
  {
    var i := 0;
    while i < |S|
      invariant 0 <= i <= |S|
      invariant HasSolutions(S, sols)
      invariant forall x :: 0 <= x < i ==> Compared(S, R, x) && FirstRanked(S, R, ranks, x)
      invariant forall x :: i <= x < |S| ==> Uncompared(S, ranks, x)
      invariant forall x :: 0 <= x < |S| ==>
                  S[x].crowdingDistance == old(S[x].crowdingDistance) &&
                  S[x].nonNormalizedSolutions == old(S[x].nonNormalizedSolutions)
      invariant front0.individuals == Pick(S, Undominated(R, i)) && front0.Valid()
      invariant front0.fronts == old(front0.fronts)
    {
      ProcessMember(S, i, front0, sols, R, ranks);
      i := i + 1;
    }
  }

  /** One round of the outer loop of the pairwise pass. */
  method ProcessMember(S: seq<Individual>, i: nat, front0: Population, ghost sols: seq<seq<real>>, ghost R: Matrix,
                       ghost ranks: seq<Option<int>>)
    requires HasSolutions(S, sols) && IsDominance(R, sols) && Distinct(S) && i < |S| && |ranks| == |S|
    requires Uncompared(S, ranks, i)
    requires front0.individuals == Pick(S, Undominated(R, i)) && front0.Valid()
    modifies S[i], front0
    ensures Compared(S, R, i) && FirstRanked(S, R, ranks, i)
    ensures S[i].solutions == old(S[i].solutions) && S[i].crowdingDistance == old(S[i].crowdingDistance)
    ensures S[i].nonNormalizedSolutions == old(S[i].nonNormalizedSolutions)
    ensures front0.individuals == Pick(S, Undominated(R, i + 1)) && front0.Valid()
    ensures front0.fronts == old(front0.fronts)
  {
    var current := S[i];
    CompareWithEveryone(S, i, sols, R);
    UndominatedMembers(R, i);
    if current.dominationCount == 0 {
      DistinctIndex(S, Undominated(R, i), i);
      if current !in front0.individuals {
        current.rank := Some(1);
        PickAppend(S, Undominated(R, i), i);
        front0.Insert(current);
      }
    }
  }

  // ---------------------------------------------------------------------------
  // The peeling of fast_non_dominated_sort
  // ---------------------------------------------------------------------------

  /** The members listed in G all carry rank r. */
  ghost predicate RankedAs(S: seq<Individual>, G: seq<nat>, r: int)
    reads S
  {
    forall t :: 0 <= t < |G| ==> G[t] < |S| && S[G[t]].rank == Some(r)
  }

  /** The fields of a member that the peeling reads or leaves alone. */
  datatype Snapshot = Snapshot(dominatedBy: seq<Individual>, solutions: seq<real>,
                               crowdingDistance: Option<real>, nonNormalizedSolutions: seq<real>)

  ghost function SnapshotOf(x: Individual): Snapshot
    reads x
  {
    Snapshot(x.dominatedBy, x.solutions, x.crowdingDistance, x.nonNormalizedSolutions)
  }

  /** The snapshots of all members. */
  ghost function Snapshots(S: seq<Individual>): (V: seq<Snapshot>)
    reads S
    ensures |V| == |S| && forall y :: 0 <= y < |S| ==> V[y] == SnapshotOf(S[y])
  {
    seq(|S|, y requires 0 <= y < |S| reads S => SnapshotOf(S[y]))
  }

  /** In the snapshots V, every member lists whom it dominates. */
  ghost predicate LinkedIn(V: seq<Snapshot>, S: seq<Individual>, R: Matrix)
  {
    |V| == |S| == |R| && IsSquare(R) &&
    forall y :: 0 <= y < |S| ==> V[y].dominatedBy == Pick(S, Dominated(R, y, |S|))
  }

  /** Member y still has the fields of its snapshot. */
  ghost predicate Same(S: seq<Individual>, V: seq<Snapshot>, y: nat)
    requires y < |S| == |V|
    reads S[y]
  {
    S[y].dominatedBy == V[y].dominatedBy && S[y].solutions == V[y].solutions &&
    S[y].crowdingDistance == V[y].crowdingDistance &&
    S[y].nonNormalizedSolutions == V[y].nonNormalizedSolutions
  }

  /**
   * Member y still has the fields of its snapshot, and once placed in F it
   * carries the number of its front as its rank.
   */
  ghost predicate Kept(S: seq<Individual>, F: seq<seq<nat>>, V: seq<Snapshot>, y: nat)
    requires y < |S| == |V|
    reads S[y]
  {
    Same(S, V, y) && (y in Placed(F, |F|) ==> S[y].rank == Some(RankIn(F, |F|, y)))
  }

  /** Population p holds the members of S at the indices I. */
  ghost predicate FrontIs(S: seq<Individual>, p: Population, I: seq<nat>)
    reads p
  {
    (forall t :: 0 <= t < |I| ==> I[t] < |S|) && p.individuals == Pick(S, I) && p.Valid()
  }

  /**
   * The state between two rounds of peeling: the fronts found so far, all
   * but the last non-empty, each held by its population, and every member
   * ranked by the front it sits in.
   */
  ghost predicate Peeling(S: seq<Individual>, R: Matrix, V: seq<Snapshot>, F: seq<seq<nat>>, C: seq<int>,
                          fronts: seq<Population>)
    reads S, fronts
  {
    |S| == |R| == |V| && |fronts| == |F| && PeelState(R, F, [], 0, {}, C) && Counts(S, C) && Bounded(F, |S|) &&
    (forall k :: 0 <= k < |F| - 1 ==> F[k] != []) &&
    (forall y :: 0 <= y < |S| ==> Kept(S, F, V, y)) &&
    (forall k :: 0 <= k < |fronts| ==> FrontIs(S, fronts[k], F[k]))
  }

  /** Once everything is placed, the rank of a member of front k is k + 1. */
  lemma RanksFromKept(S: seq<Individual>, F: seq<seq<nat>>, V: seq<Snapshot>, m: nat)
    requires Disjoint(F) && Bounded(F, |S|) && |S| == |V| && m <= |F|
    requires forall y :: 0 <= y < |S| ==> Kept(S, F, V, y)
    ensures forall y :: 0 <= y < |S| ==> Same(S, V, y)
    ensures forall k, t :: 0 <= k < m && 0 <= t < |F[..m][k]| ==> S[F[..m][k][t]].rank == Some(k + 1)
  {
    forall y | 0 <= y < |S| ensures Same(S, V, y) {
      assert Kept(S, F, V, y);
    }
    PlacedMembers(F, |F|);
    forall k, t | 0 <= k < m && 0 <= t < |F[..m][k]| ensures S[F[..m][k][t]].rank == Some(k + 1) {
      var y := F[k][t];
      assert F[..m][k] == F[k];
      assert Kept(S, F, V, y);
      RankInFront(F, |F|, k, y);
    }
  }

  /**
   * When the last front found comes out empty, the fronts before it, Fs and
   * fs, are the whole answer.
   */
  lemma PeelingDone(S: seq<Individual>, R: Matrix, V: seq<Snapshot>, F: seq<seq<nat>>, C: seq<int>,
                    fronts: seq<Population>, Fs: seq<seq<nat>>, fs: seq<Population>)
    requires StrictOrder(R) && Peeling(S, R, V, F, C, fronts) && |fronts[|fronts| - 1].individuals| == 0
    requires Fs == F[..|F| - 1] && fs == fronts[..|fronts| - 1]
    ensures Peeled(R, Fs) && Disjoint(Fs) && Bounded(Fs, |S|)
    ensures Everyone(|S|) <= Placed(Fs, |Fs|) && |fs| == |Fs|
    ensures forall k :: 0 <= k < |Fs| ==> Fs[k] != []
    ensures forall k :: 0 <= k < |fs| ==> FrontIs(S, fs[k], Fs[k])
    ensures forall y :: 0 <= y < |S| ==> Same(S, V, y)
    ensures forall k, t :: 0 <= k < |Fs| && 0 <= t < |Fs[k]| ==> S[Fs[k][t]].rank == Some(k + 1)
  {
    var m := |F| - 1;
    assert FrontIs(S, fronts[m], F[m]);
    PlacedAllBeforeEmpty(R, F);
    PeeledPrefix(R, F, m);
    DisjointPrefix(F, m);
    RanksFromKept(S, F, V, m);
    forall k | 0 <= k < m ensures FrontIs(S, fs[k], Fs[k]) {
      assert fs[k] == fronts[k] && Fs[k] == F[k];
    }
  }

  /** A fully walked last front G, held by next, extends the peeling state by one front. */
  lemma RoundDone(S: seq<Individual>, R: Matrix, V: seq<Snapshot>, F: seq<seq<nat>>, G: seq<nat>, C: seq<int>,
                  fronts: seq<Population>, next: Population)
    requires |S| == |R| == |V| && |fronts| == |F| > 0 && Bounded(F, |S|)
    requires Placed(F, |F| - 1) < Placed(F, |F|) <= Everyone(|S|)
    requires PeelState(R, F, G, |F[|F| - 1]|, {}, C) && Counts(S, C)
    requires forall k :: 0 <= k < |F| - 1 ==> F[k] != []
    requires forall y :: 0 <= y < |S| ==> Kept(S, F, V, y)
    requires RankedAs(S, G, |F| + 1) && next.individuals == Pick(S, G) && next.Valid()
    requires forall k :: 0 <= k < |fronts| ==> FrontIs(S, fronts[k], F[k])
    ensures Peeling(S, R, V, F + [G], C, fronts + [next])
    ensures Everyone(|S|) - Placed(F + [G], |F|) < Everyone(|S|) - Placed(F, |F| - 1)
  {
    PeelNextFront(R, F, G, C);
    KeptNext(S, F, G, V);
    forall k | 0 <= k < |fronts| + 1 ensures FrontIs(S, (fronts + [next])[k], (F + [G])[k]) {
      if k < |fronts| {
        assert FrontIs(S, fronts[k], F[k]);
      }
    }
    RestShrinks(Everyone(|S|), Placed(F, |F| - 1), Placed(F + [G], |F|));
  }

  /** One decrement of the peeling, in the heap and in the ghost state. */
  method ReleaseOneDominated(S: seq<Individual>, dominatedIndividual: Individual, next: Population, nextRank: int,
                             ghost R: Matrix, ghost F: seq<seq<nat>>, ghost V: seq<Snapshot>, ghost G: seq<nat>,
                             ghost p: nat, ghost Done: set<nat>, ghost C: seq<int>, ghost x: nat)
    returns (ghost G': seq<nat>, ghost C': seq<int>)
    requires PeelState(R, F, G, p, Done, C) && p < |F[|F| - 1]| && F[|F| - 1][p] < |R|
    requires x < |R| && R[F[|F| - 1][p]][x] && x !in Done
    requires |S| == |R| == |V| && dominatedIndividual == S[x] && Distinct(S) && Counts(S, C)
    requires forall y :: 0 <= y < |S| ==> Kept(S, F, V, y)
    requires RankedAs(S, G, nextRank) && next.individuals == Pick(S, G) && next.Valid()
    modifies dominatedIndividual, next
    ensures PeelState(R, F, G', p, Done + {x}, C') && Counts(S, C')
    ensures forall y :: 0 <= y < |S| ==> Kept(S, F, V, y)
    ensures RankedAs(S, G', nextRank) && next.individuals == Pick(S, G') && next.Valid()
    ensures next.fronts == old(next.fronts)
  {
    PeelRelease(R, F, G, p, Done, C, x);
    dominatedIndividual.dominationCount := dominatedIndividual.dominationCount - 1;
    G' := G;
    if dominatedIndividual.dominationCount == 0 {
      dominatedIndividual.rank := Some(nextRank);
      PickAppend(S, G, x);
      next.Insert(dominatedIndividual);
      G' := G + [x];
    }
    C' := C[x := C[x] - 1];
    forall y | 0 <= y < |S| ensures Kept(S, F, V, y) {
      assert old(Kept(S, F, V, y));
      if y != x {
        assert S[y] != S[x];
      }
    }
  }

  /**
   * The inner loops of the peeling for one member c of the front being
   * walked: every individual c dominates loses one from its count, and joins
   * the next front with rank nextRank when the count reaches zero.
   */
  method ReleaseDominated(S: seq<Individual>, individual: Individual, next: Population, nextRank: int,
                          ghost R: Matrix, ghost F: seq<seq<nat>>, ghost V: seq<Snapshot>, ghost G: seq<nat>,
                          ghost p: nat, ghost C: seq<int>)
    returns (ghost G': seq<nat>, ghost C': seq<int>)
    requires PeelState(R, F, G, p, {}, C) && p < |F[|F| - 1]| && F[|F| - 1][p] < |S| == |R| == |V|
    requires individual == S[F[|F| - 1][p]]
    requires individual.dominatedBy == Pick(S, Dominated(R, F[|F| - 1][p], |S|))
    requires Distinct(S) && Counts(S, C) && forall y :: 0 <= y < |S| ==> Kept(S, F, V, y)
    requires RankedAs(S, G, nextRank) && next.individuals == Pick(S, G) && next.Valid()
    modifies (set x | x in S), next
    ensures PeelState(R, F, G', p + 1, {}, C') && Counts(S, C')
    ensures forall y :: 0 <= y < |S| ==> Kept(S, F, V, y)
    ensures RankedAs(S, G', nextRank) && next.individuals == Pick(S, G') && next.Valid()
    ensures next.fronts == old(next.fronts)
  {
    ghost var c := F[|F| - 1][p];
    ghost var D := Dominated(R, c, |S|);
    DominatedMembers(R, c, |S|);
    var list := individual.dominatedBy;
    G', C' := G, C;
    ghost var Done: set<nat> := {};
    var t := 0;
    while t < |list|
      invariant 0 <= t <= |list|
      invariant Done == Elems(D[..t])
      invariant PeelState(R, F, G', p, Done, C') && Counts(S, C')
      invariant forall y :: 0 <= y < |S| ==> Kept(S, F, V, y)
      invariant RankedAs(S, G', nextRank) && next.individuals == Pick(S, G') && next.Valid()
      invariant next.fronts == old(next.fronts)
    {
      var dominatedIndividual := list[t];
      ghost var x := D[t];
      assert x !in Done;
      G', C' := ReleaseOneDominated(S, dominatedIndividual, next, nextRank, R, F, V, G', p, Done, C', x);
      Done := Done + {x};
      assert D[..t + 1] == D[..t] + [x];
      t := t + 1;
    }
    assert D[..t] == D;
    PeelAdvance(R, F, G', p, Done, C');
  }

  /**
   * One round of the peeling loop: walks the last front of F, releasing what
   * each member dominates, and fills next with the following front.
   */
  method WalkFront(S: seq<Individual>, front: Population, next: Population, nextRank: int,
                   ghost R: Matrix, ghost F: seq<seq<nat>>, ghost V: seq<Snapshot>, ghost C: seq<int>)
    returns (ghost G: seq<nat>, ghost C': seq<int>)
    requires PeelState(R, F, [], 0, {}, C) && Bounded(F, |S|)
    requires front.individuals == Pick(S, F[|F| - 1]) && front != next
    requires Distinct(S) && LinkedIn(V, S, R) && Counts(S, C) && forall y :: 0 <= y < |S| ==> Kept(S, F, V, y)
    requires next.individuals == [] && next.Valid()
    modifies (set x | x in S), next
    ensures PeelState(R, F, G, |F[|F| - 1]|, {}, C') && Counts(S, C')
    ensures forall y :: 0 <= y < |S| ==> Kept(S, F, V, y)
    ensures RankedAs(S, G, nextRank) && next.individuals == Pick(S, G) && next.Valid()
    ensures next.fronts == old(next.fronts)
  {
    G, C' := [], C;
    var p := 0;
    while p < |front.individuals|
      invariant 0 <= p <= |front.individuals| == |F[|F| - 1]|
      invariant PeelState(R, F, G, p, {}, C') && Counts(S, C')
      invariant forall y :: 0 <= y < |S| ==> Kept(S, F, V, y)
      invariant RankedAs(S, G, nextRank) && next.individuals == Pick(S, G) && next.Valid()
      invariant next.fronts == old(next.fronts)
    {
      var individual := front.individuals[p];
      ghost var c := F[|F| - 1][p];
      assert Kept(S, F, V, c);
      G, C' := ReleaseDominated(S, individual, next, nextRank, R, F, V, G, p, C');
      p := p + 1;
    }
  }

  /**
   * The first half of fast_non_dominated_sort: every member is compared
   * with every other and the undominated ones form the first front, with
   * rank 1. Returns the snapshot of the fields the peeling leaves alone
   * and the domination counts it starts from.
   */
  method RankFirstFront(S: seq<Individual>, front0: Population, ghost sols: seq<seq<real>>, ghost R: Matrix)
    returns (ghost V: seq<Snapshot>, ghost C: seq<int>)
    requires HasSolutions(S, sols) && IsDominance(R, sols) && StrictOrder(R) && Distinct(S)
    requires forall x :: x in S ==> x.dominationCount == 0 && x.dominatedBy == []
    requires front0.individuals == [] && front0.Valid()
    modifies (set x | x in S), front0
    ensures HasSolutions(S, sols) && LinkedIn(V, S, R)
    ensures PeelState(R, [Undominated(R, |S|)], [], 0, {}, C) && Counts(S, C)
    ensures FrontIs(S, front0, Undominated(R, |S|)) && front0.fronts == old(front0.fronts)
    ensures forall y :: 0 <= y < |S| ==> Kept(S, [Undominated(R, |S|)], V, y)
    ensures forall y :: 0 <= y < |S| ==>
              V[y].solutions == sols[y] && V[y].crowdingDistance == old(S[y].crowdingDistance) &&
              V[y].nonNormalizedSolutions == old(S[y].nonNormalizedSolutions)
  {
    ghost var ranks := seq(|S|, x requires 0 <= x < |S| reads S => S[x].rank);
    forall x | 0 <= x < |S| ensures Uncompared(S, ranks, x) {
      assert S[x] in S;
    }
    PairwisePass(S, front0, sols, R, ranks);
    ghost var F0 := Undominated(R, |S|);
    UndominatedMembers(R, |S|);
    FirstFront(R, F0);
    C := seq(|S|, x requires 0 <= x < |S| => |Dominators(R, x)|);
    PeelStart(R, F0, C);
    V := Snapshots(S);
    forall y | 0 <= y < |S| ensures V[y].dominatedBy == Pick(S, Dominated(R, y, |S|)) && S[y].dominationCount == C[y] {
      assert Compared(S, R, y);
    }
    KeptFirst(S, R, ranks, V);
  }

  /** The first front carries rank 1, and every snapshot is fresh. */
  lemma KeptFirst(S: seq<Individual>, R: Matrix, ranks: seq<Option<int>>, V: seq<Snapshot>)
    requires IsSquare(R) && |S| == |R| == |ranks| && V == Snapshots(S)
    requires forall x :: 0 <= x < |S| ==> FirstRanked(S, R, ranks, x)
    ensures forall y :: 0 <= y < |S| ==> Kept(S, [Undominated(R, |S|)], V, y)
  {
    var F := [Undominated(R, |S|)];
    UndominatedMembers(R, |S|);
    forall y | 0 <= y < |S| ensures Kept(S, F, V, y) {
      assert FirstRanked(S, R, ranks, y);
      if y in Placed(F, 1) {
        assert Placed(F, 1) == Elems(F[0]);
        assert RankIn(F, 1, y) == 1;
      }
    }
  }

  /** After a round, the members of the new front carry its number. */
  lemma KeptNext(S: seq<Individual>, F: seq<seq<nat>>, G: seq<nat>, V: seq<Snapshot>)
    requires |S| == |V| && RankedAs(S, G, |F| + 1)
    requires forall y :: 0 <= y < |S| ==> Kept(S, F, V, y)
    ensures forall y :: 0 <= y < |S| ==> Kept(S, F + [G], V, y)
  {
    PlacedAppend(F, G, |F|);
    assert (F + [G])[|F|] == G;
    assert Placed(F + [G], |F| + 1) == Placed(F, |F|) + Elems(G);
    forall y | 0 <= y < |S| ensures Kept(S, F + [G], V, y) {
      assert Kept(S, F, V, y);
      RankInNext(F, G, y);
      if y in G && y !in Placed(F, |F|) {
        var t :| 0 <= t < |G| && G[t] == y;
      }
    }
  }

  // ---------------------------------------------------------------------------
  // The two loops of sort_by_crowded_comparison
  // ---------------------------------------------------------------------------

  /**
   * The inner loop: worst starts as the member at position i and is
   * compared by crowded comparison with positions 1 .. |xs| - i - 1.
   */
  method ScanWorst(xs: seq<Individual>, i: nat, ghost rk: map<Individual, int>) returns (worst: Individual)
    requires i < |xs| && RankedBy(xs, rk)
    ensures worst == Worst(xs[i], xs, |xs| - i, rk)
  {
    worst := xs[i];
    var j := 1;
    while j < |xs| - i
      invariant 1 <= j <= |xs| - i
      invariant worst == Worst(xs[i], xs, j, rk)
    {
      CrowdedComparisonByRank(worst, xs[j], rk);
      worst := CrowdedComparison(worst, xs[j]);
      j := j + 1;
    }
  }

  /** One turn of the outer loop: the member the scan keeps is removed and appended. */
  method MoveWorstToEnd(p: Population, i: nat, ghost s: seq<Individual>, ghost rk: map<Individual, int>)
    requires i < Turns(|s|) && p.individuals == CrowdedTurns(s, rk, i) && RankedBy(s, rk)
    modifies p`individuals
    ensures p.individuals == CrowdedTurns(s, rk, i + 1)
  {
    CrowdedTurnsPermutes(s, rk, i);
    RankedByPermutation(s, p.individuals, rk);
    var worst := ScanWorst(p.individuals, i, rk);
    CrowdedTurnStep(s, rk, i, p.individuals, worst);
    p.individuals := RemoveFirst(p.individuals, worst) + [worst];
  }

  // ---------------------------------------------------------------------------
  // The main class
  // ---------------------------------------------------------------------------

  class NSGA2 {
    const generations: int
    /** N in the paper. */
    const populationSize: int
    const genomeMinValue: real
    const genomeMaxValue: real
    /** The distribution index of SBX, n_c in the paper. */
    const crossoverConstant: real
    /** The crossover probability, p_c in the paper. */
    const crossoverRate: real
    /** The length of every genome; the source fixes it at 1. */
    const genotypeQuantity: nat
    /** The mutation probability 1 / genotypeQuantity. */
    const mutationRate: real
    const genotypeMutationProbability: real
    const disturbPercent: real
    /**
     * The spread factor beta_bar of SBX for a draw u and parent genes
     * y1 < y2; the source computes it with real powers, which are not modelled.
     */
    const betaBar: (real, real, real) -> real
    /** R_t in the paper. */
    var population: Population

    constructor (generations: int, populationSize: int, genomeMinValue: real, genomeMaxValue: real,
                 crossoverConstant: real, crossoverRate: real, betaBar: (real, real, real) -> real)
      ensures this.generations == generations && this.populationSize == populationSize
      ensures this.genomeMinValue == genomeMinValue && this.genomeMaxValue == genomeMaxValue
      ensures this.crossoverConstant == crossoverConstant && this.crossoverRate == crossoverRate
      ensures this.betaBar == betaBar
      ensures genotypeQuantity == 1 && mutationRate == 1.0
      ensures genotypeMutationProbability == 0.5 && disturbPercent == 0.5
      ensures fresh(population) && population.individuals == [] && population.Valid()
      ensures population.genotypeQuantity == 1
      ensures population.genomeMinValue == genomeMinValue && population.genomeMaxValue == genomeMaxValue
    {
      this.generations := generations;
      this.populationSize := populationSize;
      this.genomeMinValue := genomeMinValue;
      this.genomeMaxValue := genomeMaxValue;
      this.crossoverConstant := crossoverConstant;
      this.crossoverRate := crossoverRate;
      this.betaBar := betaBar;
      genotypeQuantity := 1;
      mutationRate := 1.0 / 1.0;
      genotypeMutationProbability := 0.5;
      disturbPercent := 0.5;
      population := new Population(1, genomeMinValue, genomeMaxValue);
    }

    /** `new_population`: an empty population with this run's genome settings. */
    method NewPopulation() returns (p: Population)
      ensures fresh(p) && p.individuals == [] && p.Valid() && p.fronts == None
      ensures p.genotypeQuantity == genotypeQuantity
      ensures p.genomeMinValue == genomeMinValue && p.genomeMaxValue == genomeMaxValue
    {
      p := new Population(genotypeQuantity, genomeMinValue, genomeMaxValue);
    }

    /**
     * `fast_non_dominated_sort`, given the members' objective lists sols.
     * Each member must be listed once and all objective lists must have one
     * length.
     */
    method FastNonDominatedSort(ghost sols: seq<seq<real>>) returns (fronts: seq<Population>, ghost F: seq<seq<nat>>)
      requires population.Valid() && Distinct(population.individuals)
      requires HasSolutions(population.individuals, sols) && SameWidth(sols)
      modifies population, set x | x in population.individuals
      ensures population.individuals == old(population.individuals) && population.Valid()
      ensures population.fronts == Some([])
      ensures Peeled(DominanceMatrix(sols), F) && Disjoint(F) && Bounded(F, |sols|)
      ensures Everyone(|sols|) <= Placed(F, |F|) && |fronts| == |F|
      ensures forall k :: 0 <= k < |F| ==> F[k] != []
      ensures forall k :: 0 <= k < |fronts| ==> FrontIs(population.individuals, fronts[k], F[k])
      ensures forall k, t :: 0 <= k < |F| && 0 <= t < |F[k]| ==> population.individuals[F[k][t]].rank == Some(k + 1)
      ensures forall y :: 0 <= y < |sols| ==>
                var x := population.individuals[y];
                x.solutions == sols[y] &&
                x.dominatedBy == Pick(population.individuals, Dominated(DominanceMatrix(sols), y, |sols|)) &&
                x.crowdingDistance == old(population.individuals[y].crowdingDistance) &&
                x.nonNormalizedSolutions == old(population.individuals[y].nonNormalizedSolutions)
    {
      var S := population.individuals;
      ghost var R := DominanceMatrix(sols);
      DominanceIsStrictOrder(R, sols);
      ghost var V0 := Snapshots(S);
      population.ResetFronts();
      forall y | 0 <= y < |S|
        ensures S[y].crowdingDistance == V0[y].crowdingDistance
        ensures S[y].nonNormalizedSolutions == V0[y].nonNormalizedSolutions
      {
        assert S[y] in S;
      }
      var front0 := NewPopulation();
      ghost var V, C;
      V, C := RankFirstFront(S, front0, sols, R);
      fronts, F := PeelFronts(S, front0, R, V, C);
      forall y | 0 <= y < |S|
        ensures S[y].solutions == sols[y] && S[y].dominatedBy == Pick(S, Dominated(R, y, |S|))
        ensures S[y].crowdingDistance == V0[y].crowdingDistance
        ensures S[y].nonNormalizedSolutions == V0[y].nonNormalizedSolutions
      {
        assert Same(S, V, y);
      }
    }

    /**
     * One round of the peeling loop: walks the last front and appends the
     * next one, whose members are those whose count fell to zero.
     */
    method PeelRound(S: seq<Individual>, fronts: seq<Population>, ghost R: Matrix,
                     ghost V: seq<Snapshot>, ghost F: seq<seq<nat>>, ghost C: seq<int>)
      returns (next: Population, ghost G: seq<nat>, ghost C': seq<int>)
      requires Distinct(S) && LinkedIn(V, S, R) && Peeling(S, R, V, F, C, fronts)
      requires |fronts[|fronts| - 1].individuals| > 0
      modifies set x | x in S
      ensures fresh(next) && Peeling(S, R, V, F + [G], C', fronts + [next])
      ensures Everyone(|S|) - Placed(F + [G], |F|) < Everyone(|S|) - Placed(F, |F| - 1)
    {
      next := NewPopulation();
      var i := |fronts| - 1;
      assert FrontIs(S, fronts[i], F[i]);
      PeelGrows(R, F);
      G, C' := WalkFront(S, fronts[i], next, i + 2, R, F, V, C);
      assert forall k :: 0 <= k < |fronts| ==> FrontIs(S, fronts[k], F[k]);
      RoundDone(S, R, V, F, G, C', fronts, next);
    }

    /**
     * The peeling loop of fast_non_dominated_sort, from the first front on:
     * walks each front in turn and appends the next, until one comes out
     * empty; that one is dropped.
     */
    method PeelFronts(S: seq<Individual>, front0: Population, ghost R: Matrix, ghost V: seq<Snapshot>,
                      ghost C: seq<int>)
      returns (fronts: seq<Population>, ghost F: seq<seq<nat>>)
      requires StrictOrder(R) && |S| == |R| && Distinct(S) && LinkedIn(V, S, R)
      requires PeelState(R, [Undominated(R, |S|)], [], 0, {}, C) && Counts(S, C)
      requires FrontIs(S, front0, Undominated(R, |S|))
      requires forall y :: 0 <= y < |S| ==> Kept(S, [Undominated(R, |S|)], V, y)
      modifies set x | x in S
      ensures Peeled(R, F) && Disjoint(F) && Bounded(F, |S|)
      ensures Everyone(|S|) <= Placed(F, |F|) && |fronts| == |F|
      ensures forall k :: 0 <= k < |F| ==> F[k] != []
      ensures forall k :: 0 <= k < |fronts| ==> FrontIs(S, fronts[k], F[k])
      ensures forall y :: 0 <= y < |S| ==> Same(S, V, y)
      ensures forall k, t :: 0 <= k < |F| && 0 <= t < |F[k]| ==> S[F[k][t]].rank == Some(k + 1)
    {
      F := [Undominated(R, |S|)];
      ghost var C := C;
      assert Bounded(F, |S|);
      fronts := [front0];
      var i := 0;
      while |fronts[i].individuals| > 0
        invariant |fronts| == |F| == i + 1 && Peeling(S, R, V, F, C, fronts)
        decreases Everyone(|S|) - Placed(F, |F| - 1)
      {
        var next;
        ghost var G, C';
        next, G, C' := PeelRound(S, fronts, R, V, F, C);
        fronts, F, C := fronts + [next], F + [G], C';
        i := i + 1;
      }
      PeelingDone(S, R, V, F, C, fronts, F[..i], fronts[..i]);
      fronts, F := fronts[..i], F[..i];
    }

    /**
     * `crowding_distance_assignment`: each front in turn is reset and gets
     * one crowding pass per gene. The fronts must be distinct objects, and
     * Owner names the one front whose member list in Ms holds an individual,
     * as fast_non_dominated_sort returns them; P holds the fronts and F their
     * members.
     */
    method CrowdingDistanceAssignment(fronts: seq<Population>, ghost Ms: seq<seq<Individual>>,
                                      ghost Owner: map<Individual, nat>, ghost R: map<Individual, Rest>,
                                      ghost P: set<Population>, ghost F: set<Individual>)
      returns (ghost Ls: seq<seq<real>>, ghost Ds: seq<map<Individual, real>>, ghost Ks: seq<seq<Individual -> real>>)
      requires |Ms| == |fronts| && Owned(Ms, Owner)
      requires forall k :: 0 <= k < |fronts| ==> fronts[k].individuals == Ms[k] && fronts[k] in P
      requires forall j, k :: 0 <= j < k < |fronts| ==> fronts[j] != fronts[k]
      requires forall k :: 0 <= k < |Ms| ==> FrontReady(Ms[k], genotypeQuantity, R)
      requires forall k, x :: 0 <= k < |Ms| && x in Ms[k] ==> x in F
      modifies P, F
      ensures |Ls| == |Ds| == |Ks| == |fronts|
      ensures forall k :: 0 <= k < |fronts| ==> fronts[k].size == old(fronts[k].size)
      ensures forall k :: 0 <= k < |fronts| ==> CrowdedFront(fronts[k], Ms[k], genotypeQuantity, R, Ls[k], Ds[k], Ks[k])
    {
      Ls, Ds, Ks := [], [], [];
      var i := 0;
      while i < |fronts|
        invariant 0 <= i <= |fronts| && |Ls| == |Ds| == |Ks| == i
        invariant forall k :: 0 <= k < |fronts| ==> fronts[k].size == old(fronts[k].size)
        invariant CrowdedSoFar(fronts, Ms, genotypeQuantity, R, Ls, Ds, Ks)
        invariant ReadyFrom(fronts, Ms, genotypeQuantity, R, i)
      {
        ghost var L, D, keys := CrowdTurn(fronts, fronts[i], Ms, Owner, R, Ls, Ds, Ks);
        Ls, Ds, Ks := Ls + [L], Ds + [D], Ks + [keys];
        i := i + 1;
      }
    }

    /** The turn of front |Ls| in crowding_distance_assignment. */
    method CrowdTurn(fronts: seq<Population>, front: Population, ghost Ms: seq<seq<Individual>>,
                     ghost Owner: map<Individual, nat>, ghost R: map<Individual, Rest>,
                     ghost Ls: seq<seq<real>>, ghost Ds: seq<map<Individual, real>>, ghost Ks: seq<seq<Individual -> real>>)
      returns (ghost L: seq<real>, ghost D: map<Individual, real>, ghost keys: seq<Individual -> real>)
      requires |Ls| < |fronts| == |Ms| && Owned(Ms, Owner) && front == fronts[|Ls|]
      requires forall j, k :: 0 <= j < k < |fronts| ==> fronts[j] != fronts[k]
      requires CrowdedSoFar(fronts, Ms, genotypeQuantity, R, Ls, Ds, Ks)
      requires ReadyFrom(fronts, Ms, genotypeQuantity, R, |Ls|)
      modifies front`individuals, set x | x in Ms[|Ls|]
      ensures CrowdedSoFar(fronts, Ms, genotypeQuantity, R, Ls + [L], Ds + [D], Ks + [keys])
      ensures ReadyFrom(fronts, Ms, genotypeQuantity, R, |Ls| + 1)
      ensures forall k :: 0 <= k < |fronts| ==> fronts[k].size == old(fronts[k].size)
    {
      ghost var s := Fronts(fronts, Ms, Owner, genotypeQuantity, R, Ls, Ds, Ks);
      ReadyNow(fronts, Ms, genotypeQuantity, R, |Ls|);
      ghost var xs := front.individuals;
      L, D, keys := CrowdFront(front, genotypeQuantity, R, set x | x in Ms[|Ls|]);
      TurnKept(s);
      CrowdedSoFarExtended(fronts, Ms, genotypeQuantity, R, Ls, Ds, Ks, FrontCrowding(front, xs, genotypeQuantity, R, L, D, keys));
    }

    // -------------------------------------------------------------------------
    // Selection, variation and truncation
    // -------------------------------------------------------------------------

    /** The member get_random_individual returns for the uniform draw u. */
    ghost function Candidate(u: real): (x: Individual)
      requires 0.0 <= u < 1.0 && population.Valid() && population.size > 0
      reads this, population
      ensures x in population.individuals
    {
      population.individuals[RandIntOf(u, 0, population.size - 1)]
    }

    /** get_random_individual over the member list xs, for the uniform draw u. */
    function Drawn(xs: seq<Individual>, u: real): (x: Individual)
      requires |xs| > 0 && 0.0 <= u < 1.0
      ensures x in xs
    {
      xs[RandIntOf(u, 0, |xs| - 1)]
    }

    /** Every member of xs has its genome recorded in pre, with genotype_quantity genes at least. */
    predicate Holds(xs: seq<Individual>, pre: Memory)
    {
      forall x :: x in xs ==> x.genome in pre && |pre[x.genome]| >= genotypeQuantity
    }

    /** pre records the current genome of every member of xs. */
    ghost predicate Mirrors(xs: seq<Individual>, pre: Memory)
      reads set x | x in xs :: x.genome
    {
      forall x :: x in xs ==> x.genome in pre && pre[x.genome] == x.genome[..]
    }

    /**
     * The step of the loop of crossover that starts at draw d, over the
     * members xs with ranks rk and genomes pre: two tournaments, the gate,
     * then the parents' own genomes or their SBX children.
     */
    function CrossoverStepAt(xs: seq<Individual>, rk: map<Individual, int>, pre: Memory, stream: nat -> real, d: nat): (p: Pair)
      requires |xs| > 0 && Holds(xs, pre) && forall n: nat :: 0.0 <= stream(n) < 1.0
      ensures p.parent1 in xs && p.parent2 in xs && d + 5 <= p.next
      ensures p.kept <==> stream(d + 4) > crossoverRate
    {
      var p1 := Better(Drawn(xs, stream(d)), Drawn(xs, stream(d + 1)), rk);
      var p2 := Better(Drawn(xs, stream(d + 2)), Drawn(xs, stream(d + 3)), rk);
      if stream(d + 4) > crossoverRate then Pair(p1, p2, true, pre[p1.genome], pre[p2.genome], d + 5)
      else
        var c := SbxChildren(pre[p1.genome], pre[p2.genome], stream, d + 5, genotypeQuantity, betaBar);
        Pair(p1, p2, false, c.0, c.1, d + 5 + Differing(pre[p1.genome], pre[p2.genome], genotypeQuantity))
    }

    /**
     * The step of the loop of usual_crossover that starts at draw d, over the
     * members xs with genomes pre: two usual tournaments, then the parents'
     * SBX children.
     */
    function UsualStepAt(xs: seq<Individual>, pre: Memory, stream: nat -> real, d: nat): (p: Pair)
      requires |xs| > 0 && Holds(xs, pre) && forall n: nat :: 0.0 <= stream(n) < 1.0
      ensures p.parent1 in xs && p.parent2 in xs && d + 4 <= p.next && !p.kept
    {
      var a1, b1 := Drawn(xs, stream(d)), Drawn(xs, stream(d + 1));
      var a2, b2 := Drawn(xs, stream(d + 2)), Drawn(xs, stream(d + 3));
      var p1 := if FirstWinsUsual(pre[a1.genome], pre[b1.genome], genotypeQuantity) then a1 else b1;
      var p2 := if FirstWinsUsual(pre[a2.genome], pre[b2.genome], genotypeQuantity) then a2 else b2;
      var c := SbxChildren(pre[p1.genome], pre[p2.genome], stream, d + 4, genotypeQuantity, betaBar);
      Pair(p1, p2, false, c.0, c.1, d + 4 + Differing(pre[p1.genome], pre[p2.genome], genotypeQuantity))
    }

    /** The step of either loop that starts at draw d: crossover's when sel carries the ranks, usual_crossover's otherwise. */
    function StepAt(xs: seq<Individual>, sel: Selection, pre: Memory, stream: nat -> real, d: nat): (p: Pair)
      requires |xs| > 0 && Holds(xs, pre) && forall n: nat :: 0.0 <= stream(n) < 1.0
      ensures p.parent1 in xs && p.parent2 in xs && d + 4 <= p.next
      ensures sel.ByRank? ==> d + 5 <= p.next
      ensures sel.Usual? ==> !p.kept
    {
      match sel
      case ByRank(rk) => CrossoverStepAt(xs, rk, pre, stream, d)
      case Usual => UsualStepAt(xs, pre, stream, d)
    }

    /** The m steps of either loop taken from draw d on, each from the draw the one before ended on. */
    function Run(xs: seq<Individual>, sel: Selection, pre: Memory, stream: nat -> real, d: nat, m: nat): (ps: seq<Pair>)
      requires |xs| > 0 && Holds(xs, pre) && forall n: nat :: 0.0 <= stream(n) < 1.0
      ensures |ps| == m && d + 4 * m <= RunEnd(ps, d)
      ensures sel.ByRank? ==> d + 5 * m <= RunEnd(ps, d)
      ensures sel.Usual? ==> forall k :: 0 <= k < m ==> !ps[k].kept
      decreases m
    {
      if m == 0 then []
      else
        var p := StepAt(xs, sel, pre, stream, d);
        [p] + Run(xs, sel, pre, stream, p.next, m - 1)
    }

    /**
     * `sort_by_crowded_comparison`: a front of at least one member, each with
     * a rank and a crowding distance, is reordered as CrowdedOrder says.
     * Python's list.remove drops the first occurrence, and the size counter
     * is not touched.
     */
    method SortByCrowdedComparison(p: Population)
      requires |p.individuals| > 0 && Ranked(p.individuals)
      modifies p`individuals
      ensures p.individuals == CrowdedOrder(old(p.individuals), old(Ranks(p.individuals)))
    {
      ghost var s := p.individuals;
      ghost var rk := Ranks(s);
      var n := |p.individuals|;
      var i := 0;
      while i < n - 2
        invariant 0 <= i <= Turns(n)
        invariant p.individuals == CrowdedTurns(s, rk, i)
      {
        MoveWorstToEnd(p, i, s, rk);
        i := i + 1;
      }
      assert i == Turns(|s|);
      CrowdedLastStep(s, rk, p.individuals);
      var worst := p.individuals[0];
      p.individuals := RemoveFirst(p.individuals, worst) + [worst];
    }

    /**
     * `tournament_selection`: two members drawn with get_random_individual,
     * the winner chosen by crowded comparison. The winner's rank is the
     * smaller of the two.
     */
    method TournamentSelection(rng: RandomSource) returns (r: Individual)
      requires rng.Valid() && population.Valid() && population.size > 0
      requires Comparable(Candidate(rng.stream(rng.drawn)), Candidate(rng.stream(rng.drawn + 1)))
      modifies rng`drawn
      ensures rng.drawn == old(rng.drawn) + 2
      ensures r == CrowdedComparison(Candidate(rng.stream(old(rng.drawn))), Candidate(rng.stream(old(rng.drawn) + 1)))
      ensures r in population.individuals
    {
      var firstCandidate := population.GetRandomIndividual(rng);
      var secondCandidate := population.GetRandomIndividual(rng);
      r := CrowdedComparison(firstCandidate, secondCandidate);
    }

    /**
     * `usual_tournament_selection`: two members drawn with
     * get_random_individual; each gene scores for the candidate whose value
     * is strictly smaller, and the first candidate wins only on a strictly
     * higher score.
     */
    method UsualTournamentSelection(rng: RandomSource) returns (r: Individual)
      requires rng.Valid() && population.Valid() && population.size > 0
      requires Candidate(rng.stream(rng.drawn)).genome.Length >= genotypeQuantity
      requires Candidate(rng.stream(rng.drawn + 1)).genome.Length >= genotypeQuantity
      modifies rng`drawn
      ensures rng.drawn == old(rng.drawn) + 2
      ensures var a := Candidate(rng.stream(old(rng.drawn)));
              var b := Candidate(rng.stream(old(rng.drawn) + 1));
              r == if FirstWinsUsual(a.genome[..], b.genome[..], genotypeQuantity) then a else b
      ensures r in population.individuals
    {
      var firstCandidate := population.GetRandomIndividual(rng);
      var secondCandidate := population.GetRandomIndividual(rng);
      var firstCandidateScore, secondCandidateScore := 0, 0;
      var i := 0;
      while i < genotypeQuantity
        invariant 0 <= i <= genotypeQuantity
        invariant firstCandidateScore == Wins(firstCandidate.genome[..], secondCandidate.genome[..], i)
        invariant secondCandidateScore == Wins(secondCandidate.genome[..], firstCandidate.genome[..], i)
      {
        if firstCandidate.genome[i] < secondCandidate.genome[i] {
          firstCandidateScore := firstCandidateScore + 1;
        } else if secondCandidate.genome[i] < firstCandidate.genome[i] {
          secondCandidateScore := secondCandidateScore + 1;
        }
        i := i + 1;
      }
      if firstCandidateScore > secondCandidateScore {
        r := firstCandidate;
      } else {
        r := secondCandidate;
      }
    }

    /**
     * `simulated_binary_crossover`: two new genomes of genotype_quantity
     * genes, gene j as SbxGene gives it. A draw is taken only for genes on
     * which the parents differ by more than Eps.
     */
    method SimulatedBinaryCrossover(parent1: Individual, parent2: Individual, rng: RandomSource)
      returns (child1: array<real>, child2: array<real>)
      requires rng.Valid()
      requires parent1.genome.Length >= genotypeQuantity && parent2.genome.Length >= genotypeQuantity
      modifies rng`drawn
      ensures fresh(child1) && fresh(child2) && child1 != child2
      ensures child1.Length == genotypeQuantity && child2.Length == genotypeQuantity
      ensures rng.drawn == old(rng.drawn) + Differing(parent1.genome[..], parent2.genome[..], genotypeQuantity)
      ensures forall j :: 0 <= j < genotypeQuantity ==>
                (child1[j], child2[j]) ==
                SbxAt(parent1.genome[..], parent2.genome[..], rng.stream, old(rng.drawn), j, betaBar)
    {
      ghost var g1, g2 := parent1.genome[..], parent2.genome[..];
      ghost var first := rng.drawn;
      child1 := new real[genotypeQuantity];
      child2 := new real[genotypeQuantity];
      var j := 0;
      while j < genotypeQuantity
        invariant 0 <= j <= genotypeQuantity
        invariant rng.drawn == first + Differing(g1, g2, j)
        invariant forall k :: 0 <= k < j ==> (child1[k], child2[k]) == SbxAt(g1, g2, rng.stream, first, k, betaBar)
      {
        var a, b := parent1.genome[j], parent2.genome[j];
        var children := (a, b);
        if Abs(a - b) > Eps {
          var u := rng.Random();
          children := SbxGene(a, b, u, betaBar);
        }
        child1[j], child2[j] := children.0, children.1;
        assert (child1[j], child2[j]) == SbxAt(g1, g2, rng.stream, first, j, betaBar);
        j := j + 1;
      }
    }

    /** The values `mutation` reads. */
    function Settings(): (m: MutationSettings)
      ensures m.rate == mutationRate && m.p == genotypeMutationProbability && m.disturb == disturbPercent
      ensures m.lo == genomeMinValue && m.hi == genomeMaxValue
    {
      MutationSettings(mutationRate, genotypeMutationProbability, disturbPercent, genomeMinValue, genomeMaxValue)
    }

    /**
     * `mutation`: after one discarded draw, a uniform(0, 1) gate; above
     * mutation_rate the genome is returned untouched, otherwise each gene is
     * mutated in place as Mutated says. The genome itself is returned.
     */
    method Mutation(genome: array<real>, rng: RandomSource) returns (r: array<real>)
      requires rng.Valid()
      modifies genome, rng`drawn
      ensures r == genome
      ensures var gate := UniformOf(rng.stream(old(rng.drawn) + 1), 0.0, 1.0);
              var first := old(rng.drawn) + 2;
              if gate > mutationRate then
                genome[..] == old(genome[..]) && rng.drawn == first
              else
                genome[..] == Mutated(old(genome[..]), rng.stream, first, genotypeMutationProbability,
                                      disturbPercent, genomeMinValue, genomeMaxValue) &&
                rng.drawn == GeneDraw(rng.stream, first, genotypeMutationProbability, genome.Length)
    ensures (genome[..], rng.drawn) == MutationOf(old(genome[..]), rng.stream, old(rng.drawn), Settings())
    {
      var value := rng.Random();
      value := rng.Uniform(0.0, 1.0);
      if value > mutationRate {
        return genome;
      }
      ghost var g := genome[..];
      ghost var first := rng.drawn;
      var i := 0;
      while i < genome.Length
        invariant 0 <= i <= genome.Length && rng.drawn >= first
        invariant rng.drawn == GeneDraw(rng.stream, first, genotypeMutationProbability, i)
        invariant forall k :: 0 <= k < i ==>
                    genome[k] == MutatedGene(g, k, rng.stream, first, genotypeMutationProbability,
                                             disturbPercent, genomeMinValue, genomeMaxValue)
        invariant forall k :: i <= k < genome.Length ==> genome[k] == g[k]
      {
        var draw := rng.Random();
        if draw < genotypeMutationProbability {
          var sign := rng.Random();
          genome[i] := Disturbed(genome[i], sign, disturbPercent, genomeMinValue, genomeMaxValue);
        }
        assert genome[i] == MutatedGene(g, i, rng.stream, first, genotypeMutationProbability,
                                        disturbPercent, genomeMinValue, genomeMaxValue);
        i := i + 1;
      }
      assert genome[..] == Mutated(g, rng.stream, first, genotypeMutationProbability,
                                   disturbPercent, genomeMinValue, genomeMaxValue);
      r := genome;
    }

    /**
     * The last loop of crossover and usual_crossover: each genome in turn is
     * mutated in place and wrapped, uncopied, in a new member of a new
     * population. The arrays end as MutateAll says, an array listed twice
     * being mutated twice.
     */
    method NewOffspring(genomes: seq<array<real>>, rng: RandomSource, ids: IdCounter) returns (offspring: Population)
      requires rng.Valid()
      modifies (set g | g in genomes), rng`drawn, ids
      ensures fresh(offspring) && offspring.Valid() && |offspring.individuals| == |genomes|
      ensures offspring.genotypeQuantity == genotypeQuantity
      ensures ids.next == old(ids.next) + |genomes|
      ensures forall k :: 0 <= k < |genomes| ==>
                fresh(offspring.individuals[k]) && offspring.individuals[k].genome == genomes[k] &&
                offspring.individuals[k].name == Name(old(ids.next) + k)
      ensures MutatedUpTo(genomes, |genomes|, old(Contents(set g | g in genomes)), rng.stream, old(rng.drawn),
                          Contents(set g | g in genomes), rng.drawn)
    {
      ghost var start := Contents(set g | g in genomes);
      ghost var first := rng.drawn;
      ghost var cur: Memory := start;
      offspring := NewPopulation();
      ghost var made: seq<Individual> := [];
      var k := 0;
      while k < |genomes|
        invariant 0 <= k <= |genomes| && offspring.Valid() && offspring.individuals == made && |made| == k
        invariant ids.next == old(ids.next) + k
        invariant forall m :: 0 <= m < k ==> fresh(made[m])
        invariant Wraps(made, genomes, old(ids.next))
        invariant MutatedUpTo(genomes, k, start, rng.stream, first, cur, rng.drawn)
        invariant forall g :: g in genomes ==> g in cur && g[..] == cur[g]
      {
        ghost var h := genomes[k];
        ghost var was, d := cur, rng.drawn;
        var x := AddChild(offspring, genomes[k], rng, ids);
        cur := cur[h := h[..]];
        MutatedStep(genomes, k, start, rng.stream, first, was, h[..], d, rng.drawn);
        WrapsNext(made, genomes, old(ids.next), x);
        made := made + [x];
        k := k + 1;
      }
      MutatedAll(genomes, start, rng.stream, first, cur, rng.drawn);
      ContentsAre((set g | g in genomes), cur);
    }

    /**
     * The offspring loop has passed genomes[..k] to `mutation`, from contents
     * start and draw first: the arrays hold cur and drawn is the next draw.
     * The equation is kept behind a quantifier on MutateAll, so that only a
     * proof naming MutateAll unfolds it.
     */
    ghost predicate MutatedUpTo(genomes: seq<array<real>>, k: nat, start: Memory, stream: nat -> real, first: nat,
                                cur: Memory, drawn: nat)
    {
      k <= |genomes| && (forall g :: g in genomes ==> g in start) && (forall n: nat :: 0.0 <= stream(n) < 1.0) &&
      forall j {:trigger MutateAll(genomes, j, start, stream, first, Settings())} ::
        j == k ==> MutateAll(genomes, j, start, stream, first, Settings()) == (cur, drawn)
    }

    /** Mutating genomes[k] extends the offspring loop by one step. */
    lemma MutatedStep(genomes: seq<array<real>>, k: nat, start: Memory, stream: nat -> real, first: nat,
                      was: Memory, v: seq<real>, d: nat, d': nat)
      requires MutatedUpTo(genomes, k, start, stream, first, was, d) && k < |genomes| && genomes[k] in was
      requires (v, d') == MutationOf(was[genomes[k]], stream, d, Settings())
      ensures MutatedUpTo(genomes, k + 1, start, stream, first, was[genomes[k] := v], d')
    {
      var before := MutateAll(genomes, k, start, stream, first, Settings());
      assert before == (was, d);
      assert MutateAll(genomes, k + 1, start, stream, first, Settings()) == (was[genomes[k] := v], d');
    }

    /** The offspring loop ends as MutateAll over the whole list says. */
    lemma MutatedAll(genomes: seq<array<real>>, start: Memory, stream: nat -> real, first: nat, cur: Memory, d: nat)
      requires MutatedUpTo(genomes, |genomes|, start, stream, first, cur, d)
      ensures MutateAll(genomes, |genomes|, start, stream, first, Settings()) == (cur, d)
    {
    }

    /** One step of the offspring loop: mutate the genome, then add it to the offspring population. */
    method AddChild(offspring: Population, genome: array<real>, rng: RandomSource, ids: IdCounter)
      returns (ghost x: Individual)
      requires rng.Valid() && offspring.Valid()
      modifies genome, rng`drawn, ids, offspring
      ensures fresh(x) && x.genome == genome && x.name == Name(old(ids.next)) && ids.next == old(ids.next) + 1
      ensures offspring.individuals == old(offspring.individuals) + [x] && offspring.Valid()
      ensures (genome[..], rng.drawn) == MutationOf(old(genome[..]), rng.stream, old(rng.drawn), Settings())
    {
      var mutated := Mutation(genome, rng);
      offspring.NewIndividual(mutated, ids);
      x := offspring.individuals[|offspring.individuals| - 1];
    }

    /** The genome arrays of the current population. */
    ghost function ParentGenomes(): set<array<real>>
      reads this, population
    {
      GenomesOf(set x | x in population.individuals)
    }

    /** The contents of the genome arrays of the current population. */
    ghost function ParentContents(): (m: Memory)
      reads this, population, ParentGenomes()
      ensures m.Keys == ParentGenomes() && Mirrors(population.individuals, m)
    {
      Contents(ParentGenomes())
    }

    /**
     * `crossover`: for each step of range(0, population_size, 2), two parents
     * by tournament_selection and, unless the draw exceeds crossover_rate,
     * their SBX children, else the parents' own genomes. Every member needs
     * a rank and a crowding distance, and genotype_quantity genes.
     */
    method Crossover(rng: RandomSource, ids: IdCounter)
      returns (offspring: Population, ghost genomes: seq<array<real>>, ghost mid: Memory, ghost midDrawn: nat)
      requires rng.Valid() && population.Valid() && Ranked(population.individuals)
      requires populationSize > 0 ==> population.size > 0
      requires forall x :: x in population.individuals ==> x.genome.Length >= genotypeQuantity
      modifies rng`drawn, ids, ParentGenomes()
      ensures fresh(offspring) && offspring.Valid()
      ensures |offspring.individuals| == |genomes| == OffspringCount(populationSize)
      ensures ids.next == old(ids.next) + |genomes|
      ensures forall k :: 0 <= k < |genomes| ==>
                fresh(offspring.individuals[k]) && offspring.individuals[k].genome == genomes[k] &&
                offspring.individuals[k].name == Name(old(ids.next) + k)
      ensures forall k :: 0 <= k < |genomes| ==> fresh(genomes[k]) || genomes[k] in old(ParentGenomes())
      ensures populationSize <= 0 ==> genomes == [] && midDrawn == old(rng.drawn)
      ensures populationSize > 0 ==>
                Crossed(genomes, mid, population.individuals, ByRank(old(Ranks(population.individuals))), old(ParentContents()),
                        rng.stream, old(rng.drawn), midDrawn)
      ensures MutatedUpTo(genomes, |genomes|, mid, rng.stream, midDrawn, Contents(set g | g in genomes), rng.drawn)
      ensures forall g :: g in old(ParentGenomes()) && g !in genomes ==> g[..] == old(g[..])
    {
      ghost var rk, pre := Ranks(population.individuals), ParentContents();
      var made;
      made, mid := CrossoverMid(rng, rk, pre);
      genomes, midDrawn := made, rng.drawn;
      offspring := NewOffspring(made, rng, ids);
    }

    /** The loop of crossover, its result read as a memory of the contents the offspring start from. */
    method CrossoverMid(rng: RandomSource, ghost rk: map<Individual, int>, ghost pre: Memory)
      returns (genomes: seq<array<real>>, ghost mid: Memory)
      requires rng.Valid() && population.Valid() && Ranked(population.individuals)
      requires RankedBy(population.individuals, rk) && Mirrors(population.individuals, pre)
      requires populationSize > 0 ==> population.size > 0
      requires forall x :: x in population.individuals ==> x.genome.Length >= genotypeQuantity
      modifies rng`drawn
      ensures |genomes| == OffspringCount(populationSize) && mid == Contents(set g | g in genomes)
      ensures forall k :: 0 <= k < |genomes| ==> fresh(genomes[k]) || genomes[k] in ParentGenomes()
      ensures populationSize <= 0 ==> rng.drawn == old(rng.drawn)
      ensures populationSize > 0 ==> Crossed(genomes, mid, population.individuals, ByRank(rk), pre, rng.stream, old(rng.drawn), rng.drawn)
    {
      genomes := CrossoverGenomes(rng, rk, pre);
      mid := Contents(set g | g in genomes);
      if populationSize > 0 {
        assert |genomes| == 2 * (|genomes| / 2) by {
          OffspringCountBounds(populationSize);
        }
        YieldsInContents(genomes, Run(population.individuals, ByRank(rk), pre, rng.stream, old(rng.drawn), |genomes| / 2), mid);
      }
    }

    /**
     * The loop of crossover: the genome arrays the offspring are made from,
     * two per step, as the run of CrossoverStepAt over the members, their
     * ranks rk and their genomes pre says.
     */
    method CrossoverGenomes(rng: RandomSource, ghost rk: map<Individual, int>, ghost pre: Memory) returns (genomes: seq<array<real>>)
      requires rng.Valid() && population.Valid() && Ranked(population.individuals)
      requires RankedBy(population.individuals, rk) && Mirrors(population.individuals, pre)
      requires populationSize > 0 ==> population.size > 0
      requires forall x :: x in population.individuals ==> x.genome.Length >= genotypeQuantity
      modifies rng`drawn
      ensures |genomes| == OffspringCount(populationSize)
      ensures forall k :: 0 <= k < |genomes| ==> fresh(genomes[k]) || genomes[k] in ParentGenomes()
      ensures populationSize <= 0 ==> rng.drawn == old(rng.drawn)
      ensures populationSize > 0 ==>
                var ps := Run(population.individuals, ByRank(rk), pre, rng.stream, old(rng.drawn), |genomes| / 2);
                rng.drawn == RunEnd(ps, old(rng.drawn)) &&
                forall k :: 0 <= k < |ps| ==> Yields(genomes[2 * k], genomes[2 * k + 1], ps[k])
    {
      ghost var first := rng.drawn;
      ghost var xs := population.individuals;
      ghost var plan: seq<Pair> := [];
      if populationSize > 0 {
        plan := PlanRun(xs, ByRank(rk), pre, rng.stream, first, OffspringCount(populationSize) / 2);
      }
      genomes := [];
      var i := 0;
      ghost var n := 0;
      while i < populationSize
        invariant 0 <= i && (i == 0 || i - 2 < populationSize) && i == 2 * n
        invariant forall k :: 0 <= k < |genomes| ==> fresh(genomes[k]) || genomes[k] in ParentGenomes()
        invariant populationSize <= 0 ==> rng.drawn == first && genomes == []
        invariant populationSize > 0 ==>
                    |plan| == OffspringCount(populationSize) / 2 && RunRest(plan, 0, xs, ByRank(rk), pre, rng.stream, first) &&
                    RunRest(plan, n, xs, ByRank(rk), pre, rng.stream, rng.drawn) && rng.drawn == RunEnd(plan[..n], first) &&
                    YieldsAll(genomes, plan, n)
        invariant Mirrors(xs, pre) && RankedBy(xs, rk)
      {
        assert n < |plan| by {
          OffspringCountBounds(populationSize);
        }
        var child1, child2 := CrossoverStep(rng, plan, n, rk, pre);
        RunEndNext(plan, n, first);
        YieldsAllSnoc(genomes, plan, n, child1, child2);
        genomes := genomes + [child1, child2];
        i := i + 2;
        n := n + 1;
      }
      assert i % 2 == 0;
      OffspringLoopEnd(populationSize, i);
      if populationSize > 0 {
        RunRestDone(plan, genomes, xs, ByRank(rk), pre, rng.stream, first, rng.drawn);
      }
    }

    /** A plan carried out to its end gives what CrossoverGenomes promises. */
    lemma RunRestDone(plan: seq<Pair>, genomes: seq<array<real>>, xs: seq<Individual>, sel: Selection,
                            pre: Memory, stream: nat -> real, first: nat, e: nat)
      requires RunRest(plan, 0, xs, sel, pre, stream, first)
      requires YieldsAll(genomes, plan, |plan|) && e == RunEnd(plan[..|plan|], first)
      ensures var ps := Run(xs, sel, pre, stream, first, |genomes| / 2);
              e == RunEnd(ps, first) && forall k :: 0 <= k < |ps| ==> Yields(genomes[2 * k], genomes[2 * k + 1], ps[k])
    {
      RunRestWhole(plan, xs, sel, pre, stream, first);
      assert plan[..|plan|] == plan;
    }

    /** One step of the loop of crossover, carried out as the next step of the plan. */
    method CrossoverStep(rng: RandomSource, ghost plan: seq<Pair>, ghost n: nat, ghost rk: map<Individual, int>, ghost pre: Memory)
      returns (child1: array<real>, child2: array<real>)
      requires rng.Valid() && population.Valid() && population.size > 0 && Ranked(population.individuals)
      requires RankedBy(population.individuals, rk) && Mirrors(population.individuals, pre)
      requires forall x :: x in population.individuals ==> x.genome.Length >= genotypeQuantity
      requires RunRest(plan, n, population.individuals, ByRank(rk), pre, rng.stream, rng.drawn) && n < |plan|
      modifies rng`drawn
      ensures fresh(child1) || child1 in ParentGenomes()
      ensures fresh(child2) || child2 in ParentGenomes()
      ensures Yields(child1, child2, plan[n]) && rng.drawn == plan[n].next
      ensures RunRest(plan, n + 1, population.individuals, ByRank(rk), pre, rng.stream, rng.drawn)
      ensures RankedBy(population.individuals, rk) && Mirrors(population.individuals, pre)
    {
      ghost var d := rng.drawn;
      var parent1, parent2;
      child1, child2, parent1, parent2 := CrossoverPair(rng);
      CrossoverRestStep(plan, n, rk, pre, rng.stream, d, parent1, parent2, child1, child2, rng.drawn);
    }

    /**
     * One step of the loop of crossover: two parents by tournament_selection,
     * then, when the next draw exceeds crossover_rate, the parents' own
     * genome arrays, else their SBX children.
     */
    method CrossoverPair(rng: RandomSource)
      returns (child1: array<real>, child2: array<real>, parent1: Individual, parent2: Individual)
      requires rng.Valid() && population.Valid() && population.size > 0 && Ranked(population.individuals)
      requires forall x :: x in population.individuals ==> x.genome.Length >= genotypeQuantity
      modifies rng`drawn
      ensures var d := old(rng.drawn);
              parent1 == CrowdedComparison(Candidate(rng.stream(d)), Candidate(rng.stream(d + 1))) &&
              parent2 == CrowdedComparison(Candidate(rng.stream(d + 2)), Candidate(rng.stream(d + 3)))
      ensures rng.stream(old(rng.drawn) + 4) > crossoverRate ==>
                child1 == parent1.genome && child2 == parent2.genome && rng.drawn == old(rng.drawn) + 5
      ensures rng.stream(old(rng.drawn) + 4) <= crossoverRate ==>
                fresh(child1) && fresh(child2) &&
                child1.Length == genotypeQuantity && child2.Length == genotypeQuantity &&
                rng.drawn == old(rng.drawn) + 5 + Differing(parent1.genome[..], parent2.genome[..], genotypeQuantity) &&
                forall j :: 0 <= j < genotypeQuantity ==>
                  (child1[j], child2[j]) ==
                  SbxAt(parent1.genome[..], parent2.genome[..], rng.stream, old(rng.drawn) + 5, j, betaBar)
      ensures parent1 in population.individuals && parent2 in population.individuals
    {
      parent1 := TournamentSelection(rng);
      parent2 := TournamentSelection(rng);
      var gate := rng.Random();
      if gate > crossoverRate {
        child1, child2 := parent1.genome, parent2.genome;
      } else {
        child1, child2 := SimulatedBinaryCrossover(parent1, parent2, rng);
      }
    }

    /** What CrossoverPair finds out about its step is the step CrossoverStepAt defines. */
    /** tournament_selection on the draws u, v is Better over the ranks rk. */
    lemma TournamentIsBetter(rk: map<Individual, int>, u: real, v: real)
      requires population.Valid() && population.size > 0 && RankedBy(population.individuals, rk)
      requires 0.0 <= u < 1.0 && 0.0 <= v < 1.0
      ensures CrowdedComparison(Candidate(u), Candidate(v)) ==
              Better(Drawn(population.individuals, u), Drawn(population.individuals, v), rk)
    {
      CrowdedComparisonByRank(Candidate(u), Candidate(v), rk);
    }

    lemma CrossoverStepIs(rk: map<Individual, int>, pre: Memory, stream: nat -> real, d: nat,
                          parent1: Individual, parent2: Individual, child1: array<real>, child2: array<real>, e: nat)
      requires population.Valid() && population.size > 0 && RankedBy(population.individuals, rk)
      requires Mirrors(population.individuals, pre) && Holds(population.individuals, pre)
      requires forall n: nat :: 0.0 <= stream(n) < 1.0
      requires parent1 == CrowdedComparison(Candidate(stream(d)), Candidate(stream(d + 1)))
      requires parent2 == CrowdedComparison(Candidate(stream(d + 2)), Candidate(stream(d + 3)))
      requires stream(d + 4) > crossoverRate ==>
                 child1 == parent1.genome && child2 == parent2.genome && e == d + 5
      requires stream(d + 4) <= crossoverRate ==>
                 child1.Length == genotypeQuantity && child2.Length == genotypeQuantity &&
                 e == d + 5 + Differing(parent1.genome[..], parent2.genome[..], genotypeQuantity) &&
                 forall j :: 0 <= j < genotypeQuantity ==>
                   (child1[j], child2[j]) == SbxAt(parent1.genome[..], parent2.genome[..], stream, d + 5, j, betaBar)
      ensures var p := CrossoverStepAt(population.individuals, rk, pre, stream, d);
              Yields(child1, child2, p) && e == p.next
    {
      var xs := population.individuals;
      TournamentIsBetter(rk, stream(d), stream(d + 1));
      TournamentIsBetter(rk, stream(d + 2), stream(d + 3));
      var p := CrossoverStepAt(xs, rk, pre, stream, d);
      assert p.parent1 == parent1 && p.parent2 == parent2;
      if stream(d + 4) <= crossoverRate {
        var c := SbxChildren(parent1.genome[..], parent2.genome[..], stream, d + 5, genotypeQuantity, betaBar);
        assert child1[..] == c.0 && child2[..] == c.1;
      }
    }

    /**
     * plan[n..] is the run of the loop of crossover from draw e on. The
     * equation is kept behind a quantifier on Run, so that only a
     * proof naming Run unfolds it.
     */
    ghost predicate RunRest(plan: seq<Pair>, n: nat, xs: seq<Individual>, sel: Selection, pre: Memory,
                            stream: nat -> real, e: nat)
    {
      n <= |plan| && |xs| > 0 && Holds(xs, pre) && (forall k: nat :: 0.0 <= stream(k) < 1.0) &&
      forall m {:trigger Run(xs, sel, pre, stream, e, m)} ::
        m == |plan| - n ==> plan[n..] == Run(xs, sel, pre, stream, e, m)
    }

    /** The m steps of the loop of crossover from draw d, as a plan still to be carried out. */
    ghost method PlanRun(xs: seq<Individual>, sel: Selection, pre: Memory, stream: nat -> real, d: nat, m: nat)
      returns (plan: seq<Pair>)
      requires |xs| > 0 && Holds(xs, pre) && forall k: nat :: 0.0 <= stream(k) < 1.0
      ensures |plan| == m && RunRest(plan, 0, xs, sel, pre, stream, d)
    {
      plan := Run(xs, sel, pre, stream, d, m);
      assert plan[0..] == plan;
    }

    /** One CrossoverPair call carries out the next step of the plan. */
    lemma CrossoverRestStep(plan: seq<Pair>, n: nat, rk: map<Individual, int>, pre: Memory, stream: nat -> real, d: nat,
                            parent1: Individual, parent2: Individual, child1: array<real>, child2: array<real>, e: nat)
      requires population.Valid() && population.size > 0 && RankedBy(population.individuals, rk)
      requires Mirrors(population.individuals, pre)
      requires RunRest(plan, n, population.individuals, ByRank(rk), pre, stream, d) && n < |plan|
      requires parent1 == CrowdedComparison(Candidate(stream(d)), Candidate(stream(d + 1)))
      requires parent2 == CrowdedComparison(Candidate(stream(d + 2)), Candidate(stream(d + 3)))
      requires stream(d + 4) > crossoverRate ==>
                 child1 == parent1.genome && child2 == parent2.genome && e == d + 5
      requires stream(d + 4) <= crossoverRate ==>
                 child1.Length == genotypeQuantity && child2.Length == genotypeQuantity &&
                 e == d + 5 + Differing(parent1.genome[..], parent2.genome[..], genotypeQuantity) &&
                 forall j :: 0 <= j < genotypeQuantity ==>
                   (child1[j], child2[j]) == SbxAt(parent1.genome[..], parent2.genome[..], stream, d + 5, j, betaBar)
      ensures Yields(child1, child2, plan[n]) && e == plan[n].next
      ensures RunRest(plan, n + 1, population.individuals, ByRank(rk), pre, stream, e)
    {
      CrossoverStepIs(rk, pre, stream, d, parent1, parent2, child1, child2, e);
      RunRestNext(plan, n, population.individuals, ByRank(rk), pre, stream, d);
    }

    /** The next step of a plan is the step from the draw it starts at, and the rest starts where it ends. */
    lemma RunRestNext(plan: seq<Pair>, n: nat, xs: seq<Individual>, sel: Selection, pre: Memory,
                            stream: nat -> real, d: nat)
      requires RunRest(plan, n, xs, sel, pre, stream, d) && n < |plan|
      ensures plan[n] == StepAt(xs, sel, pre, stream, d)
      ensures RunRest(plan, n + 1, xs, sel, pre, stream, plan[n].next)
    {
      var m := |plan| - (n + 1);
      RunSucc(xs, sel, pre, stream, d, m);
      var p := StepAt(xs, sel, pre, stream, d);
      var rest := Run(xs, sel, pre, stream, p.next, m);
      assert plan[n..] == Run(xs, sel, pre, stream, d, m + 1) == [p] + rest;
      assert plan[n] == plan[n..][0] == p;
      assert plan[n + 1..] == plan[n..][1..] == ([p] + rest)[1..] == rest;
      RunRestIntro(plan, n + 1, xs, sel, pre, stream, p.next, m);
    }

    /** A plan whose tail from n is the run of the remaining steps from draw e is RunRest at n. */
    lemma RunRestIntro(plan: seq<Pair>, n: nat, xs: seq<Individual>, sel: Selection, pre: Memory,
                       stream: nat -> real, e: nat, m: nat)
      requires n <= |plan| && m == |plan| - n
      requires |xs| > 0 && Holds(xs, pre) && forall k: nat :: 0.0 <= stream(k) < 1.0
      requires plan[n..] == Run(xs, sel, pre, stream, e, m)
      ensures RunRest(plan, n, xs, sel, pre, stream, e)
    {
    }

    /** A run of m + 1 steps is one step followed by a run of m steps from where it ends. */
    lemma RunSucc(xs: seq<Individual>, sel: Selection, pre: Memory, stream: nat -> real, d: nat, m: nat)
      requires |xs| > 0 && Holds(xs, pre) && forall n: nat :: 0.0 <= stream(n) < 1.0
      ensures var p := StepAt(xs, sel, pre, stream, d);
              Run(xs, sel, pre, stream, d, m + 1) == [p] + Run(xs, sel, pre, stream, p.next, m)
    {
    }

    /**
     * The arrays of genomes, two by two, with their contents in mid, are what
     * the run of CrossoverStepAt from draw d yields, and the run ends at draw
     * e. The equation is kept behind a quantifier on Run, so that
     * only a proof naming the run unfolds it; CrossedIs spells it out.
     */
    ghost predicate Crossed(genomes: seq<array<real>>, mid: Memory, xs: seq<Individual>, sel: Selection,
                            pre: Memory, stream: nat -> real, d: nat, e: nat)
    {
      |xs| > 0 && Holds(xs, pre) && (forall k: nat :: 0.0 <= stream(k) < 1.0) &&
      forall m {:trigger Run(xs, sel, pre, stream, d, m)} :: m == |genomes| / 2 ==>
        e == RunEnd(Run(xs, sel, pre, stream, d, m), d) && PairsIn(genomes, mid, Run(xs, sel, pre, stream, d, m))
    }

    /** What Crossed says, in the open. */
    lemma CrossedIs(genomes: seq<array<real>>, mid: Memory, xs: seq<Individual>, sel: Selection,
                    pre: Memory, stream: nat -> real, d: nat, e: nat)
      requires Crossed(genomes, mid, xs, sel, pre, stream, d, e)
      ensures var ps := Run(xs, sel, pre, stream, d, |genomes| / 2);
              e == RunEnd(ps, d) && |genomes| == 2 * |ps| &&
              forall k :: 0 <= k < |ps| ==>
                mid[genomes[2 * k]] == ps[k].genes1 && mid[genomes[2 * k + 1]] == ps[k].genes2 &&
                (ps[k].kept ==> genomes[2 * k] == ps[k].parent1.genome && genomes[2 * k + 1] == ps[k].parent2.genome)
    {
      var ps := Run(xs, sel, pre, stream, d, |genomes| / 2);
    }

    /** A plan carried out from its start is the run itself. */
    lemma RunRestWhole(plan: seq<Pair>, xs: seq<Individual>, sel: Selection, pre: Memory, stream: nat -> real, d: nat)
      requires RunRest(plan, 0, xs, sel, pre, stream, d)
      ensures plan == Run(xs, sel, pre, stream, d, |plan|)
    {
      assert plan[0..] == Run(xs, sel, pre, stream, d, |plan|);
    }

    /**
     * `usual_crossover`: as crossover, with usual_tournament_selection and
     * SBX on every pair. Every genome array is a new one, so the parents are
     * left as they were and each offspring genome is mutated once.
     */
    method UsualCrossover(rng: RandomSource, ids: IdCounter)
      returns (offspring: Population, ghost genomes: seq<array<real>>, ghost mid: Memory, ghost midDrawn: nat)
      requires rng.Valid() && population.Valid()
      requires populationSize > 0 ==> population.size > 0
      requires forall x :: x in population.individuals ==> x.genome.Length >= genotypeQuantity
      modifies rng`drawn, ids
      ensures fresh(offspring) && offspring.Valid()
      ensures |offspring.individuals| == |genomes| == OffspringCount(populationSize)
      ensures ids.next == old(ids.next) + |genomes|
      ensures forall k :: 0 <= k < |genomes| ==>
                fresh(offspring.individuals[k]) && offspring.individuals[k].genome == genomes[k] &&
                offspring.individuals[k].name == Name(old(ids.next) + k)
      ensures forall k :: 0 <= k < |genomes| ==> fresh(genomes[k]) && genomes[k].Length == genotypeQuantity
      ensures Distinct(genomes)
      ensures populationSize <= 0 ==> genomes == [] && midDrawn == old(rng.drawn)
      ensures populationSize > 0 ==>
                Crossed(genomes, mid, population.individuals, Usual, old(ParentContents()), rng.stream, old(rng.drawn), midDrawn)
      ensures MutatedUpTo(genomes, |genomes|, mid, rng.stream, midDrawn, Contents(set g | g in genomes), rng.drawn)
    {
      ghost var pre := ParentContents();
      var made;
      made, mid := UsualMid(rng, pre);
      genomes, midDrawn := made, rng.drawn;
      offspring := NewOffspring(made, rng, ids);
    }

    /** The loop of usual_crossover, its result read as a memory of the contents the offspring start from. */
    method UsualMid(rng: RandomSource, ghost pre: Memory) returns (genomes: seq<array<real>>, ghost mid: Memory)
      requires rng.Valid() && population.Valid() && Mirrors(population.individuals, pre)
      requires populationSize > 0 ==> population.size > 0
      requires forall x :: x in population.individuals ==> x.genome.Length >= genotypeQuantity
      modifies rng`drawn
      ensures |genomes| == OffspringCount(populationSize) && mid == Contents(set g | g in genomes)
      ensures forall k :: 0 <= k < |genomes| ==> fresh(genomes[k]) && genomes[k].Length == genotypeQuantity
      ensures Distinct(genomes)
      ensures populationSize <= 0 ==> rng.drawn == old(rng.drawn)
      ensures populationSize > 0 ==> Crossed(genomes, mid, population.individuals, Usual, pre, rng.stream, old(rng.drawn), rng.drawn)
    {
      genomes := UsualGenomes(rng, pre);
      mid := Contents(set g | g in genomes);
      if populationSize > 0 {
        assert |genomes| == 2 * (|genomes| / 2) by {
          OffspringCountBounds(populationSize);
        }
        YieldsInContents(genomes, Run(population.individuals, Usual, pre, rng.stream, old(rng.drawn), |genomes| / 2), mid);
      }
    }

    /**
     * The loop of usual_crossover: new genome arrays, two per step, as the run
     * of UsualStepAt over the members and their genomes pre says.
     */
    method UsualGenomes(rng: RandomSource, ghost pre: Memory) returns (genomes: seq<array<real>>)
      requires rng.Valid() && population.Valid() && Mirrors(population.individuals, pre)
      requires populationSize > 0 ==> population.size > 0
      requires forall x :: x in population.individuals ==> x.genome.Length >= genotypeQuantity
      modifies rng`drawn
      ensures |genomes| == OffspringCount(populationSize)
      ensures forall k :: 0 <= k < |genomes| ==> fresh(genomes[k]) && genomes[k].Length == genotypeQuantity
      ensures Distinct(genomes)
      ensures populationSize <= 0 ==> rng.drawn == old(rng.drawn)
      ensures populationSize > 0 ==>
                var ps := Run(population.individuals, Usual, pre, rng.stream, old(rng.drawn), |genomes| / 2);
                rng.drawn == RunEnd(ps, old(rng.drawn)) &&
                forall k :: 0 <= k < |ps| ==> Yields(genomes[2 * k], genomes[2 * k + 1], ps[k])
    {
      ghost var first := rng.drawn;
      ghost var xs := population.individuals;
      ghost var plan: seq<Pair> := [];
      if populationSize > 0 {
        plan := PlanRun(xs, Usual, pre, rng.stream, first, OffspringCount(populationSize) / 2);
      }
      genomes := [];
      var i := 0;
      ghost var n := 0;
      while i < populationSize
        invariant 0 <= i && (i == 0 || i - 2 < populationSize) && i == 2 * n
        invariant forall k :: 0 <= k < |genomes| ==> fresh(genomes[k]) && genomes[k].Length == genotypeQuantity
        invariant Distinct(genomes)
        invariant populationSize <= 0 ==> rng.drawn == first && genomes == []
        invariant populationSize > 0 ==>
                    |plan| == OffspringCount(populationSize) / 2 && RunRest(plan, 0, xs, Usual, pre, rng.stream, first) &&
                    RunRest(plan, n, xs, Usual, pre, rng.stream, rng.drawn) && rng.drawn == RunEnd(plan[..n], first) &&
                    YieldsAll(genomes, plan, n)
        invariant Mirrors(xs, pre)
      {
        assert n < |plan| by {
          OffspringCountBounds(populationSize);
        }
        var child1, child2 := UsualStep(rng, plan, n, pre);
        RunEndNext(plan, n, first);
        YieldsAllSnoc(genomes, plan, n, child1, child2);
        DistinctSnoc(genomes, child1, child2);
        genomes := genomes + [child1, child2];
        i := i + 2;
        n := n + 1;
      }
      assert i % 2 == 0;
      OffspringLoopEnd(populationSize, i);
      if populationSize > 0 {
        RunRestDone(plan, genomes, xs, Usual, pre, rng.stream, first, rng.drawn);
      }
    }

    /** One step of the loop of usual_crossover, carried out as the next step of the plan. */
    method UsualStep(rng: RandomSource, ghost plan: seq<Pair>, ghost n: nat, ghost pre: Memory)
      returns (child1: array<real>, child2: array<real>)
      requires rng.Valid() && population.Valid() && population.size > 0 && Mirrors(population.individuals, pre)
      requires forall x :: x in population.individuals ==> x.genome.Length >= genotypeQuantity
      requires RunRest(plan, n, population.individuals, Usual, pre, rng.stream, rng.drawn) && n < |plan|
      modifies rng`drawn
      ensures fresh(child1) && fresh(child2) && child1 != child2
      ensures child1.Length == genotypeQuantity && child2.Length == genotypeQuantity
      ensures Yields(child1, child2, plan[n]) && rng.drawn == plan[n].next
      ensures RunRest(plan, n + 1, population.individuals, Usual, pre, rng.stream, rng.drawn)
      ensures Mirrors(population.individuals, pre)
    {
      ghost var d := rng.drawn;
      var parent1, parent2;
      child1, child2, parent1, parent2 := UsualPair(rng);
      UsualRestStep(plan, n, pre, rng.stream, d, parent1, parent2, child1, child2, rng.drawn);
    }

    /** One UsualPair call carries out the next step of the plan. */
    lemma UsualRestStep(plan: seq<Pair>, n: nat, pre: Memory, stream: nat -> real, d: nat,
                        parent1: Individual, parent2: Individual, child1: array<real>, child2: array<real>, e: nat)
      requires population.Valid() && population.size > 0 && Mirrors(population.individuals, pre)
      requires RunRest(plan, n, population.individuals, Usual, pre, stream, d) && n < |plan|
      requires var a1, b1 := Candidate(stream(d)), Candidate(stream(d + 1));
               var a2, b2 := Candidate(stream(d + 2)), Candidate(stream(d + 3));
               parent1 == (if FirstWinsUsual(a1.genome[..], b1.genome[..], genotypeQuantity) then a1 else b1) &&
               parent2 == (if FirstWinsUsual(a2.genome[..], b2.genome[..], genotypeQuantity) then a2 else b2)
      requires child1.Length == genotypeQuantity && child2.Length == genotypeQuantity
      requires e == d + 4 + Differing(parent1.genome[..], parent2.genome[..], genotypeQuantity)
      requires forall j :: 0 <= j < genotypeQuantity ==>
                 (child1[j], child2[j]) == SbxAt(parent1.genome[..], parent2.genome[..], stream, d + 4, j, betaBar)
      ensures Yields(child1, child2, plan[n]) && e == plan[n].next
      ensures RunRest(plan, n + 1, population.individuals, Usual, pre, stream, e)
    {
      UsualStepIs(pre, stream, d, parent1, parent2, child1, child2, e);
      RunRestNext(plan, n, population.individuals, Usual, pre, stream, d);
    }

    /** What UsualPair finds out about its step is the step UsualStepAt defines. */
    lemma UsualStepIs(pre: Memory, stream: nat -> real, d: nat,
                      parent1: Individual, parent2: Individual, child1: array<real>, child2: array<real>, e: nat)
      requires population.Valid() && population.size > 0
      requires Mirrors(population.individuals, pre) && Holds(population.individuals, pre)
      requires forall n: nat :: 0.0 <= stream(n) < 1.0
      requires var a1, b1 := Candidate(stream(d)), Candidate(stream(d + 1));
               var a2, b2 := Candidate(stream(d + 2)), Candidate(stream(d + 3));
               parent1 == (if FirstWinsUsual(a1.genome[..], b1.genome[..], genotypeQuantity) then a1 else b1) &&
               parent2 == (if FirstWinsUsual(a2.genome[..], b2.genome[..], genotypeQuantity) then a2 else b2)
      requires child1.Length == genotypeQuantity && child2.Length == genotypeQuantity
      requires e == d + 4 + Differing(parent1.genome[..], parent2.genome[..], genotypeQuantity)
      requires forall j :: 0 <= j < genotypeQuantity ==>
                 (child1[j], child2[j]) == SbxAt(parent1.genome[..], parent2.genome[..], stream, d + 4, j, betaBar)
      ensures var p := StepAt(population.individuals, Usual, pre, stream, d);
              Yields(child1, child2, p) && e == p.next
    {
      var p := UsualStepAt(population.individuals, pre, stream, d);
      assert p.parent1 == parent1 && p.parent2 == parent2;
      var c := SbxChildren(parent1.genome[..], parent2.genome[..], stream, d + 4, genotypeQuantity, betaBar);
      assert child1[..] == c.0 && child2[..] == c.1;
    }

    /**
     * One step of the loop of usual_crossover: two parents by
     * usual_tournament_selection from draws d to d + 3, then their SBX
     * children, with no crossover-rate gate, from draw d + 4 on.
     */
    method UsualPair(rng: RandomSource)
      returns (child1: array<real>, child2: array<real>, parent1: Individual, parent2: Individual)
      requires rng.Valid() && population.Valid() && population.size > 0
      requires forall x :: x in population.individuals ==> x.genome.Length >= genotypeQuantity
      modifies rng`drawn
      ensures var d := old(rng.drawn);
              var a1, b1 := Candidate(rng.stream(d)), Candidate(rng.stream(d + 1));
              var a2, b2 := Candidate(rng.stream(d + 2)), Candidate(rng.stream(d + 3));
              parent1 == (if FirstWinsUsual(a1.genome[..], b1.genome[..], genotypeQuantity) then a1 else b1) &&
              parent2 == (if FirstWinsUsual(a2.genome[..], b2.genome[..], genotypeQuantity) then a2 else b2)
      ensures parent1 in population.individuals && parent2 in population.individuals
      ensures fresh(child1) && fresh(child2) && child1 != child2
      ensures child1.Length == genotypeQuantity && child2.Length == genotypeQuantity
      ensures rng.drawn == old(rng.drawn) + 4 + Differing(parent1.genome[..], parent2.genome[..], genotypeQuantity)
      ensures forall j :: 0 <= j < genotypeQuantity ==>
                (child1[j], child2[j]) ==
                SbxAt(parent1.genome[..], parent2.genome[..], rng.stream, old(rng.drawn) + 4, j, betaBar)
    {
      parent1 := UsualTournamentSelection(rng);
      parent2 := UsualTournamentSelection(rng);
      child1, child2 := SimulatedBinaryCrossover(parent1, parent2, rng);
    }

    /**
     * The truncation step of `run`: fronts are taken whole while they fit in
     * population_size; the first that does not is sorted by crowded
     * comparison and cut down to the places left, and the result becomes the
     * population. Ms holds the fronts' member lists.
     */
    method Truncate(fronts: seq<Population>, ghost Ms: seq<seq<Individual>>) returns (cut: nat)
      requires |fronts| == |Ms| > 0
      requires forall k :: 0 <= k < |fronts| ==> fronts[k].Valid() && fronts[k].individuals == Ms[k]
      requires populationSize < Total(Ms, |Ms|)
      requires forall k :: 0 <= k < |Ms| ==> Ranked(Ms[k])
      requires populationSize >= 0 || Ms[0] != []
      modifies this, set k | 0 <= k < |fronts| :: fronts[k]
      ensures IsCut(Ms, populationSize, cut) && Ms[cut] != []
      ensures fresh(population) && population.Valid()
      ensures fronts[cut].individuals ==
              PyPrefix(CrowdedOrder(Ms[cut], old(Ranks(Ms[cut]))), populationSize - Total(Ms, cut))
      ensures population.individuals == Flatten(Ms[..cut]) + fronts[cut].individuals
    {
      var next;
      next, cut := TakeWholeFronts(fronts, Ms);
      CutFits(Ms, populationSize, cut);
      ghost var rk := Ranks(Ms[cut]);
      assert rk == old(Ranks(Ms[cut])) && fronts[cut].individuals == Ms[cut];
      SortByCrowdedComparison(fronts[cut]);
      assert fronts[cut].individuals == CrowdedOrder(Ms[cut], rk);
      var amountToInsert := populationSize - |next.individuals|;
      assert amountToInsert == populationSize - Total(Ms, cut);
      fronts[cut].individuals := PyPrefix(fronts[cut].individuals, amountToInsert);
      ghost var kept := fronts[cut].individuals;
      assert kept == PyPrefix(CrowdedOrder(Ms[cut], rk), populationSize - Total(Ms, cut));
      next.Union(fronts[cut]);
      population := next;
      assert fronts[cut].individuals == kept;
    }

    /** The loop of the truncation step: whole fronts, in order, while they fit. */
    method TakeWholeFronts(fronts: seq<Population>, ghost Ms: seq<seq<Individual>>) returns (next: Population, cut: nat)
      requires |fronts| == |Ms| > 0
      requires forall k :: 0 <= k < |fronts| ==> fronts[k].Valid() && fronts[k].individuals == Ms[k]
      requires populationSize < Total(Ms, |Ms|)
      ensures IsCut(Ms, populationSize, cut)
      ensures fresh(next) && next.Valid() && next.individuals == Flatten(Ms[..cut]) && next.size == Total(Ms, cut)
      ensures next.genotypeQuantity == genotypeQuantity
      ensures next.genomeMinValue == genomeMinValue && next.genomeMaxValue == genomeMaxValue
    {
      next := NewPopulation();
      cut := 0;
      while next.size + fronts[cut].size <= populationSize
        invariant 0 <= cut < |fronts| && fresh(next) && next.Valid()
        invariant next.individuals == Flatten(Ms[..cut]) && next.size == Total(Ms, cut)
        invariant forall j :: 0 < j <= cut ==> Total(Ms, j) <= populationSize
        invariant next.genotypeQuantity == genotypeQuantity
        invariant next.genomeMinValue == genomeMinValue && next.genomeMaxValue == genomeMaxValue
        decreases |fronts| - cut
      {
        next.Union(fronts[cut]);
        assert Ms[..cut + 1][..cut] == Ms[..cut];
        cut := cut + 1;
      }
    }
  }

  /** A member owned by front k is in no other front's list. */
  lemma OwnedApart(Ms: seq<seq<Individual>>, Owner: map<Individual, nat>, i: nat)
    requires Owned(Ms, Owner) && i < |Ms|
    ensures forall k, x :: 0 <= k < |Ms| && k != i && x in Ms[k] ==> x !in Ms[i]
  {
    forall k, x | 0 <= k < |Ms| && k != i && x in Ms[k] ensures x !in Ms[i] {
      assert Owner[x] == k;
    }
  }

  /**
   * The first |Ls| fronts are crowded, front k with genes Ls[k], earlier
   * distances Ds[k] and sort keys Ks[k].
   */
  ghost predicate CrowdedSoFar(fronts: seq<Population>, Ms: seq<seq<Individual>>, genotypeQuantity: nat,
                               R: map<Individual, Rest>, Ls: seq<seq<real>>, Ds: seq<map<Individual, real>>,
                               Ks: seq<seq<Individual -> real>>)
    reads set k | 0 <= k < |Ls| && k < |fronts| :: fronts[k]
    reads FrontMembers(fronts, |Ls|), GenomesOf(FrontMembers(fronts, |Ls|))
  {
    |Ls| == |Ds| == |Ks| && |Ls| <= |fronts| && |Ls| <= |Ms| &&
    forall k {:trigger CrowdedFront(fronts[k], Ms[k], genotypeQuantity, R, Ls[k], Ds[k], Ks[k])} ::
      0 <= k < |Ls| ==> CrowdedFront(fronts[k], Ms[k], genotypeQuantity, R, Ls[k], Ds[k], Ks[k])
  }

  /** The members of the first n fronts. */
  ghost function FrontMembers(fronts: seq<Population>, n: nat): (M: set<Individual>)
    reads set k | 0 <= k < n && k < |fronts| :: fronts[k]
    ensures forall k, x :: 0 <= k < n && k < |fronts| && x in fronts[k].individuals ==> x in M
  {
    set k, x | 0 <= k < n && k < |fronts| && x in fronts[k].individuals :: x
  }

  /** The genomes of the individuals in M. */
  /** The contents of the arrays G. */
  /**
   * One step of the loop of crossover or usual_crossover, as values: the two
   * parents, whether their own genome arrays were passed on (crossover's
   * gate), the contents of the two genomes the step yields, and the draw
   * after the step.
   */
  /** How the parents of a step are selected: tournament_selection over the ranks rk, or usual_tournament_selection. */
  datatype Selection = ByRank(rk: map<Individual, int>) | Usual

  datatype Pair = Pair(parent1: Individual, parent2: Individual, kept: bool,
                       genes1: seq<real>, genes2: seq<real>, next: nat)

  /** The arrays c1, c2 hold what step p yields, and are the parents' own arrays when p kept them. */
  ghost predicate Yields(c1: array<real>, c2: array<real>, p: Pair)
    reads c1, c2
  {
    (p.kept ==> c1 == p.parent1.genome && c2 == p.parent2.genome) && c1[..] == p.genes1 && c2[..] == p.genes2
  }

  /**
   * Memory mid holds, for the arrays of genomes taken two by two, the genes
   * the steps ps yield; a step that kept its parents passed their own arrays.
   */
  predicate PairsIn(genomes: seq<array<real>>, mid: Memory, ps: seq<Pair>)
  {
    |genomes| == 2 * |ps| &&
    forall k :: 0 <= k < |ps| ==>
      genomes[2 * k] in mid && genomes[2 * k + 1] in mid &&
      mid[genomes[2 * k]] == ps[k].genes1 && mid[genomes[2 * k + 1]] == ps[k].genes2 &&
      (ps[k].kept ==> genomes[2 * k] == ps[k].parent1.genome && genomes[2 * k + 1] == ps[k].parent2.genome)
  }

  /** What the arrays yield, read as a memory of their contents. */
  lemma YieldsInContents(genomes: seq<array<real>>, ps: seq<Pair>, mid: Memory)
    requires |genomes| == 2 * |ps| && forall k :: 0 <= k < |ps| ==> Yields(genomes[2 * k], genomes[2 * k + 1], ps[k])
    requires mid == Contents(set g | g in genomes)
    ensures PairsIn(genomes, mid, ps)
  {
    forall k | 0 <= k < |ps|
      ensures genomes[2 * k] in mid && genomes[2 * k + 1] in mid
    {
      assert genomes[2 * k] in genomes && genomes[2 * k + 1] in genomes;
    }
  }

  /** Two different arrays new to a list without repeats extend it without repeats. */
  lemma DistinctSnoc(genomes: seq<array<real>>, c1: array<real>, c2: array<real>)
    requires Distinct(genomes) && c1 != c2 && c1 !in genomes && c2 !in genomes
    ensures Distinct(genomes + [c1, c2])
  {
  }

  /** The arrays of genomes, two by two, hold what the first n steps of plan yield. */
  ghost predicate YieldsAll(genomes: seq<array<real>>, plan: seq<Pair>, n: nat)
    reads set g | g in genomes
  {
    |genomes| == 2 * n && n <= |plan| &&
    forall k :: 0 <= k < n ==> Yields(genomes[2 * k], genomes[2 * k + 1], plan[k])
  }

  /** Two more arrays yielding step n extend the genomes to n + 1 steps. */
  lemma YieldsAllSnoc(genomes: seq<array<real>>, plan: seq<Pair>, n: nat, c1: array<real>, c2: array<real>)
    requires YieldsAll(genomes, plan, n) && n < |plan| && Yields(c1, c2, plan[n])
    ensures YieldsAll(genomes + [c1, c2], plan, n + 1)
  {
    var g := genomes + [c1, c2];
    forall k | 0 <= k < n + 1
      ensures Yields(g[2 * k], g[2 * k + 1], plan[k])
    {
      if k < n {
        assert g[2 * k] == genomes[2 * k] && g[2 * k + 1] == genomes[2 * k + 1];
      }
    }
  }

  /** The draw after the steps ps taken from draw d: the one the last step ends on. */
  function RunEnd(ps: seq<Pair>, d: nat): nat
  {
    if ps == [] then d else ps[|ps| - 1].next
  }

  /** One step more of a plan ends where that step ends. */
  lemma RunEndNext(plan: seq<Pair>, n: nat, d: nat)
    requires n < |plan|
    ensures RunEnd(plan[..n + 1], d) == plan[n].next
  {
  }

  /** A memory with the keys G that agrees with every array of G is G's contents. */
  lemma ContentsAre(G: set<array<real>>, m: Memory)
    requires m.Keys == G && forall g :: g in G ==> m[g] == g[..]
    ensures m == Contents(G)
  {
  }

  /** The first |made| members wrap the first |made| genomes and are named from base on. */
  ghost predicate Wraps(made: seq<Individual>, genomes: seq<array<real>>, base: nat)
  {
    |made| <= |genomes| &&
    forall m :: 0 <= m < |made| ==> made[m].genome == genomes[m] && made[m].name == Name(base + m)
  }

  lemma WrapsNext(made: seq<Individual>, genomes: seq<array<real>>, base: nat, x: Individual)
    requires Wraps(made, genomes, base) && |made| < |genomes|
    requires x.genome == genomes[|made|] && x.name == Name(base + |made|)
    ensures Wraps(made + [x], genomes, base)
  {
  }

  ghost function Contents(G: set<array<real>>): (m: Memory)
    reads G
    ensures m.Keys == G && forall g :: g in G ==> m[g] == g[..]
  {
    map g | g in G :: g[..]
  }

  ghost function GenomesOf(M: set<Individual>): (G: set<array<real>>)
    ensures forall x :: x in M ==> x.genome in G
  {
    set x | x in M :: x.genome
  }

  /** The members of the lists from n on. */
  ghost function MembersFrom(Ms: seq<seq<Individual>>, n: nat): (M: set<Individual>)
    ensures forall k, x :: n <= k < |Ms| && x in Ms[k] ==> x in M
  {
    set k, x | n <= k < |Ms| && x in Ms[k] :: x
  }

  /** The fronts from n on still hold their lists Ms, ready for their turn. */
  ghost predicate ReadyFrom(fronts: seq<Population>, Ms: seq<seq<Individual>>, genotypeQuantity: nat,
                            R: map<Individual, Rest>, n: nat)
    reads set k | n <= k < |fronts| :: fronts[k]
    reads MembersFrom(Ms, n)
  {
    |fronts| == |Ms| &&
    forall k {:trigger FrontReady(Ms[k], genotypeQuantity, R)} :: n <= k < |fronts| ==>
      fronts[k].individuals == Ms[k] && FrontReady(Ms[k], genotypeQuantity, R)
  }

  /** Front n is ready for its turn. */
  lemma ReadyNow(fronts: seq<Population>, Ms: seq<seq<Individual>>, genotypeQuantity: nat,
                 R: map<Individual, Rest>, n: nat)
    requires ReadyFrom(fronts, Ms, genotypeQuantity, R, n) && n < |fronts|
    ensures n < |Ms| && fronts[n].individuals == Ms[n] && FrontReady(Ms[n], genotypeQuantity, R)
  {
    assert FrontReady(Ms[n], genotypeQuantity, R);
  }

  /** Front |Ls|, crowded as c records, extends CrowdedSoFar by one front. */
  lemma CrowdedSoFarExtended(fronts: seq<Population>, Ms: seq<seq<Individual>>, genotypeQuantity: nat,
                             R: map<Individual, Rest>, Ls: seq<seq<real>>, Ds: seq<map<Individual, real>>,
                             Ks: seq<seq<Individual -> real>>, c: FrontCrowding)
    requires CrowdedSoFar(fronts, Ms, genotypeQuantity, R, Ls, Ds, Ks) && |Ls| < |fronts| && |Ls| < |Ms|
    requires c.p == fronts[|Ls|] && c.xs == Ms[|Ls|] && c.genotypeQuantity == genotypeQuantity && c.R == R
    requires CrowdedFront(c.p, c.xs, c.genotypeQuantity, c.R, c.L, c.D, c.keys)
    ensures CrowdedSoFar(fronts, Ms, genotypeQuantity, R, Ls + [c.L], Ds + [c.D], Ks + [c.keys])
  {
    var L, D, keys := c.L, c.D, c.keys;
    forall k | 0 <= k < |Ls| + 1
      ensures CrowdedFront(fronts[k], Ms[k], genotypeQuantity, R, (Ls + [L])[k], (Ds + [D])[k], (Ks + [keys])[k])
    {
      if k < |Ls| {
        assert (Ls + [L])[k] == Ls[k] && (Ds + [D])[k] == Ds[k] && (Ks + [keys])[k] == Ks[k];
        assert CrowdedFront(fronts[k], Ms[k], genotypeQuantity, R, Ls[k], Ds[k], Ks[k]);
      }
    }
  }

  /**
   * The fronts of crowding_distance_assignment with their member lists Ms,
   * the owner of each member, and the genes, distances and sort keys of the
   * |Ls| fronts already crowded, gathered into one value for the two-state
   * lemmas below.
   */
  datatype Fronts = Fronts(fronts: seq<Population>, Ms: seq<seq<Individual>>, Owner: map<Individual, nat>,
                           genotypeQuantity: nat, R: map<Individual, Rest>,
                           Ls: seq<seq<real>>, Ds: seq<map<Individual, real>>, Ks: seq<seq<Individual -> real>>)

  /**
   * While front |Ls| takes its turn, the fronts before it stay crowded, the
   * fronts after it stay ready, and no front changes its size.
   */
  twostate lemma TurnKept(s: Fronts)
    requires |s.Ls| < |s.fronts| == |s.Ms| && Owned(s.Ms, s.Owner)
    requires old(CrowdedSoFar(s.fronts, s.Ms, s.genotypeQuantity, s.R, s.Ls, s.Ds, s.Ks))
    requires old(ReadyFrom(s.fronts, s.Ms, s.genotypeQuantity, s.R, |s.Ls|))
    requires forall k :: 0 <= k < |s.fronts| && k != |s.Ls| ==> unchanged(s.fronts[k])
    requires s.fronts[|s.Ls|].size == old(s.fronts[|s.Ls|].size)
    requires forall x :: x in s.Owner && x !in s.Ms[|s.Ls|] ==> unchanged(x)
    requires forall x :: x in s.Owner ==> unchanged(x.genome)
    ensures CrowdedSoFar(s.fronts, s.Ms, s.genotypeQuantity, s.R, s.Ls, s.Ds, s.Ks)
    ensures ReadyFrom(s.fronts, s.Ms, s.genotypeQuantity, s.R, |s.Ls| + 1)
    ensures forall k :: 0 <= k < |s.fronts| ==> s.fronts[k].size == old(s.fronts[k].size)
  {
    EarlierFrontsKept(s);
    LaterFrontsKept(s);
  }

  /** Fronts before the current one keep their crowding while the current one takes its turn. */
  twostate lemma EarlierFrontsKept(s: Fronts)
    requires |s.Ls| < |s.fronts| == |s.Ms| && Owned(s.Ms, s.Owner)
    requires old(CrowdedSoFar(s.fronts, s.Ms, s.genotypeQuantity, s.R, s.Ls, s.Ds, s.Ks))
    requires forall k :: 0 <= k < |s.fronts| && k != |s.Ls| ==> unchanged(s.fronts[k])
    requires forall x :: x in s.Owner && x !in s.Ms[|s.Ls|] ==> unchanged(x)
    requires forall x :: x in s.Owner ==> unchanged(x.genome)
    ensures CrowdedSoFar(s.fronts, s.Ms, s.genotypeQuantity, s.R, s.Ls, s.Ds, s.Ks)
  {
    OwnedApart(s.Ms, s.Owner, |s.Ls|);
    forall k | 0 <= k < |s.Ls| ensures CrowdedFront(s.fronts[k], s.Ms[k], s.genotypeQuantity, s.R, s.Ls[k], s.Ds[k], s.Ks[k]) {
      assert old(CrowdedFront(s.fronts[k], s.Ms[k], s.genotypeQuantity, s.R, s.Ls[k], s.Ds[k], s.Ks[k]));
      forall x | x in old(s.fronts[k].individuals) ensures unchanged(x) && unchanged(x.genome) {
        assert x in multiset(old(s.fronts[k].individuals));
        assert x in s.Ms[k] && x !in s.Ms[|s.Ls|];
      }
      CrowdedFrontKept(FrontCrowding(s.fronts[k], s.Ms[k], s.genotypeQuantity, s.R, s.Ls[k], s.Ds[k], s.Ks[k]));
    }
  }

  /** Fronts after the current one keep their members, and those stay ready. */
  twostate lemma LaterFrontsKept(s: Fronts)
    requires |s.Ls| < |s.fronts| == |s.Ms| && Owned(s.Ms, s.Owner)
    requires old(ReadyFrom(s.fronts, s.Ms, s.genotypeQuantity, s.R, |s.Ls|))
    requires forall k :: 0 <= k < |s.fronts| && k != |s.Ls| ==> unchanged(s.fronts[k])
    requires forall x :: x in s.Owner && x !in s.Ms[|s.Ls|] ==> unchanged(x)
    ensures ReadyFrom(s.fronts, s.Ms, s.genotypeQuantity, s.R, |s.Ls| + 1)
  {
    OwnedApart(s.Ms, s.Owner, |s.Ls|);
    forall k | |s.Ls| < k < |s.fronts|
      ensures s.fronts[k].individuals == s.Ms[k] && FrontReady(s.Ms[k], s.genotypeQuantity, s.R)
    {
      assert old(FrontReady(s.Ms[k], s.genotypeQuantity, s.R));
      assert forall x :: x in s.Ms[k] ==> x in s.Owner && x !in s.Ms[|s.Ls|];
    }
  }

  // ---------------------------------------------------------------------------
  // What the fronts of fast_non_dominated_sort mean, in terms of dominates
  // ---------------------------------------------------------------------------

  /** The first front is exactly the members that no member dominates. */
  lemma FirstFrontIsUndominated(sols: seq<seq<real>>, F: seq<seq<nat>>, x: nat)
    requires SameWidth(sols) && Peeled(DominanceMatrix(sols), F) && |F| > 0
    ensures x in F[0] <==> x < |sols| && forall y :: 0 <= y < |sols| ==> !ObjectivesDominate(sols[y], sols[x])
  {
    var R := DominanceMatrix(sols);
    FrontZeroUndominated(R, F, x);
    if x < |sols| {
      forall y | 0 <= y < |sols| ensures R[y][x] == ObjectivesDominate(sols[y], sols[x]) {
        assert DominanceAt(R, sols, y, x);
      }
      assert Dominators(R, x) == {} <==> forall y :: 0 <= y < |sols| ==> !R[y][x] by {
        if y :| 0 <= y < |sols| && R[y][x] {
          assert y in Dominators(R, x);
        }
      }
    }
  }

  /** No member of a front dominates another member of the same front. */
  lemma FrontHasNoDominatingPair(sols: seq<seq<real>>, F: seq<seq<nat>>, k: nat, a: nat, b: nat)
    requires SameWidth(sols) && Peeled(DominanceMatrix(sols), F) && Disjoint(F) && k < |F|
    requires a in F[k] && b in F[k]
    ensures a < |sols| && b < |sols| && !ObjectivesDominate(sols[a], sols[b])
  {
    var R := DominanceMatrix(sols);
    FrontIsAntichain(R, F, k, a, b);
    assert DominanceAt(R, sols, a, b);
  }

  /** Every member of a later front is dominated by some member of the front before it. */
  lemma LaterFrontIsDominated(sols: seq<seq<real>>, F: seq<seq<nat>>, k: nat, x: nat) returns (y: nat)
    requires SameWidth(sols) && Peeled(DominanceMatrix(sols), F) && Disjoint(F) && 0 < k < |F|
    requires x in F[k]
    ensures x < |sols| && y < |sols| && y in F[k - 1] && ObjectivesDominate(sols[y], sols[x])
  {
    var R := DominanceMatrix(sols);
    y := FrontHasPredecessor(R, F, k, x);
    assert DominanceAt(R, sols, y, x);
  }

  /**
   * The fronts partition the members: every member lies in exactly one front,
   * and only members appear.
   */
  lemma FrontsPartition(sols: seq<seq<real>>, F: seq<seq<nat>>, x: nat)
    requires Disjoint(F) && Bounded(F, |sols|) && Everyone(|sols|) <= Placed(F, |F|)
    ensures x < |sols| <==> exists k :: 0 <= k < |F| && x in F[k]
    ensures forall j, k :: 0 <= j < |F| && 0 <= k < |F| && x in F[j] && x in F[k] ==> j == k
  {
    PlacedMembers(F, |F|);
    if x < |sols| {
      assert x in Everyone(|sols|);
    }
    forall j, k | 0 <= j < |F| && 0 <= k < |F| && x in F[j] && x in F[k] ensures j == k {
      FrontUnique(F, j, k, x);
    }
  }
}
