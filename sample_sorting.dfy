// The non-dominated sorting of nsga2/sample/nsga2.py, on the prototype's own
// individuals: the pairwise pass fills domination_count and dominated_by and
// collects the first front, and the peeling walks each front to find the
// next. The index-level reasoning is the Ranking module's; the predicates here
// tie it to the heap, and the lemmas at the end say what the fronts mean in
// terms of dominates.
module SampleSorting {
  import opened Common
  import opened Ranking
  import opened SampleIndividuals
  import SamplePopulations

  // ---------------------------------------------------------------------------
  // Dominance among the members, by index
  // ---------------------------------------------------------------------------

  /** R[a][b] says whether member a dominates member b. */
  ghost predicate IsDominanceOf(R: Matrix, S: seq<Individual>)
  {
    |R| == |S| && IsSquare(R) &&
    forall a, b :: 0 <= a < |S| && 0 <= b < |S| ==> R[a][b] == S[a].Dominates(S[b])
  }

  /** The dominance matrix of the members S. */
  ghost function DominanceOf(S: seq<Individual>): (R: Matrix)
    ensures IsDominanceOf(R, S)
  {
    seq(|S|, a requires 0 <= a < |S| => seq(|S|, b requires 0 <= b < |S| => S[a].Dominates(S[b])))
  }

  lemma DominanceIsStrictOrder(S: seq<Individual>)
    ensures StrictOrder(DominanceOf(S))
  {
    var R := DominanceOf(S);
    forall a | 0 <= a < |R| ensures !R[a][a] {
      DominatesIrreflexive(S[a]);
    }
    forall a, b, c | 0 <= a < |R| && 0 <= b < |R| && 0 <= c < |R| && R[a][b] && R[b][c] ensures R[a][c] {
      DominatesTransitive(S[a], S[b], S[c]);
    }
  }

  // ---------------------------------------------------------------------------
  // The pairwise pass
  // ---------------------------------------------------------------------------

  /** One step of the inner loop, on indices. */
  lemma CompareStep(R: Matrix, S: seq<Individual>, i: nat, j: nat)
    requires IsDominanceOf(R, S) && i < |S| && j < |S|
    ensures Dominated(R, i, j + 1) == Dominated(R, i, j) + (if R[i][j] then [j] else [])
    ensures |DominatorsBelow(R, i, j + 1)| == |DominatorsBelow(R, i, j)| + (if R[j][i] then 1 else 0)
    ensures (R[i][j] ==> !R[j][i]) && !R[i][i]
  {
    DominatorsBelowStep(R, i, j);
    assert j !in DominatorsBelow(R, i, j);
    DominatesIrreflexive(S[i]);
    DominatesAsymmetric(S[i], S[j]);
  }

  /**
   * The body of the inner loop for i != j: current records that it dominates
   * other, or else counts other among its dominators.
   */
  method CompareWith(current: Individual, other: Individual)
    modifies current`dominatedBy, current`dominationCount
    ensures current.dominatedBy == old(current.dominatedBy) + (if current.Dominates(other) then [other] else [])
    ensures current.dominationCount ==
              old(current.dominationCount) + (if !current.Dominates(other) && other.Dominates(current) then 1 else 0)
  {
    if current.Dominates(other) {
      current.dominatedBy := current.dominatedBy + [other];
    } else if other.Dominates(current) {
      current.dominationCount := current.dominationCount + 1;
    }
  }

  /** Member x knows how many members dominate it and, in population order, whom it dominates. */
  ghost predicate Compared(S: seq<Individual>, R: Matrix, x: nat)
    requires IsSquare(R) && |S| == |R| && x < |S|
    reads S[x]
  {
    S[x].dominationCount == |Dominators(R, x)| && S[x].dominatedBy == Pick(S, Dominated(R, x, |S|))
  }

  /**
   * The inner loop for the member at index i: compares it with everyone
   * else, collecting whom it dominates and counting who dominates it.
   */
  method CompareWithEveryone(S: seq<Individual>, i: nat, ghost R: Matrix)
    requires IsDominanceOf(R, S) && i < |S|
    requires S[i].dominationCount == 0 && S[i].dominatedBy == []
    modifies {S[i]}`dominatedBy, {S[i]}`dominationCount
    ensures Compared(S, R, i)
  {
    var j := 0;
    while j < |S|
      invariant 0 <= j <= |S|
      invariant S[i].dominationCount == |DominatorsBelow(R, i, j)|
      invariant S[i].dominatedBy == Pick(S, Dominated(R, i, j))
    {
      var currentIndividual := S[i];
      var otherIndividual := S[j];
      CompareStep(R, S, i, j);
      PickAppend(S, Dominated(R, i, j), j);
      if i != j {
        CompareWith(currentIndividual, otherIndividual);
      }
      j := j + 1;
    }
  }

  /** Member x is as the constructor left it: nothing counted, nothing listed. */
  ghost predicate Uncompared(S: seq<Individual>, x: nat)
    requires x < |S|
    reads S[x]
  {
    S[x].dominationCount == 0 && S[x].dominatedBy == []
  }

  /**
   * The pairwise pass: every member learns whom it dominates and how many
   * dominate it, and the undominated ones, in population order, fill the
   * first front, which starts as the only (empty) front.
   */
  method PairwisePass(S: seq<Individual>, population: SamplePopulations.Population, ghost R: Matrix)
    requires IsDominanceOf(R, S) && Distinct(S) && population.fronts == [[]]
    requires forall x :: 0 <= x < |S| ==> Uncompared(S, x)
    modifies S`dominatedBy, S`dominationCount, population`fronts
    ensures forall x :: 0 <= x < |S| ==> Compared(S, R, x)
    ensures population.fronts == [Pick(S, Undominated(R, |S|))]
  {
    var i := 0;
    while i < |S|
      invariant 0 <= i <= |S|
      invariant forall x :: 0 <= x < i ==> Compared(S, R, x)
      invariant forall x :: i <= x < |S| ==> Uncompared(S, x)
      invariant population.fronts == [Pick(S, Undominated(R, i))]
    {
      ProcessMember(S, i, population, R);
      i := i + 1;
    }
  }

  /** One round of the outer loop of the pairwise pass. */
  method ProcessMember(S: seq<Individual>, i: nat, population: SamplePopulations.Population, ghost R: Matrix)
    requires IsDominanceOf(R, S) && Distinct(S) && i < |S| && Uncompared(S, i)
    requires population.fronts == [Pick(S, Undominated(R, i))]
    modifies {S[i]}`dominatedBy, {S[i]}`dominationCount, population`fronts
    ensures Compared(S, R, i)
    ensures population.fronts == [Pick(S, Undominated(R, i + 1))]
  {
    var currentIndividual := S[i];
    CompareWithEveryone(S, i, R);
    assert Compared(S, R, i);
    assert Undominated(R, i + 1) == Undominated(R, i) + (if Dominators(R, i) == {} then [i] else []);
    if currentIndividual.dominationCount == 0 {
      assert Dominators(R, i) == {};
      DistinctIndex(S, Undominated(R, i), i);
      if currentIndividual !in population.fronts[0] {
        PickAppend(S, Undominated(R, i), i);
        population.fronts := population.fronts[0 := population.fronts[0] + [currentIndividual]];
      }
    } else {
      assert Dominators(R, i) != {};
      assert Undominated(R, i + 1) == Undominated(R, i);
      assert population.fronts == old(population.fronts);
    }
  }

  // ---------------------------------------------------------------------------
  // The peeling
  // ---------------------------------------------------------------------------

  /** Every member lists, in population order, whom it dominates. */
  ghost predicate Linked(S: seq<Individual>, R: Matrix)
    reads S`dominatedBy
  {
    |S| == |R| && IsSquare(R) &&
    forall y :: 0 <= y < |S| ==> S[y].dominatedBy == Pick(S, Dominated(R, y, |S|))
  }

  /** The domination counts of the members are C. */
  ghost predicate Counts(S: seq<Individual>, C: seq<int>)
    reads S
  {
    |C| == |S| && forall x :: 0 <= x < |S| ==> S[x].dominationCount == C[x]
  }

  /** Every index in G is a member's. */
  ghost predicate Below(G: seq<nat>, n: nat)
  {
    forall t :: 0 <= t < |G| ==> G[t] < n
  }

  /** Front k, a list of members, holds the members of S at the indices F[k]. */
  ghost predicate FrontAt(S: seq<Individual>, fronts: seq<seq<Individual>>, F: seq<seq<nat>>, k: nat)
    requires k < |fronts| && k < |F|
  {
    Below(F[k], |S|) && fronts[k] == Pick(S, F[k])
  }

  /**
   * The state between two rounds of peeling: the fronts found so far, all
   * but the last non-empty, with the counts that the walks have left.
   */
  ghost predicate Peeling(S: seq<Individual>, R: Matrix, F: seq<seq<nat>>, C: seq<int>, fronts: seq<seq<Individual>>)
    reads S
  {
    |S| == |R| && |fronts| == |F| && PeelState(R, F, [], 0, {}, C) && Counts(S, C) && Bounded(F, |S|) &&
    (forall k :: 0 <= k < |F| - 1 ==> F[k] != []) &&
    (forall k :: 0 <= k < |fronts| ==> FrontAt(S, fronts, F, k))
  }

  /** One decrement of the peeling, in the heap and in the ghost state. */
  method ReleaseOneDominated(S: seq<Individual>, dominatedIndividual: Individual, currentFront: seq<Individual>,
                             ghost R: Matrix, ghost F: seq<seq<nat>>, ghost G: seq<nat>, ghost p: nat,
                             ghost Done: set<nat>, ghost C: seq<int>, ghost x: nat)
    returns (nextFront: seq<Individual>, ghost G': seq<nat>, ghost C': seq<int>)
    requires PeelState(R, F, G, p, Done, C) && p < |F[|F| - 1]| && F[|F| - 1][p] < |R|
    requires x < |R| && R[F[|F| - 1][p]][x] && x !in Done
    requires |S| == |R| && dominatedIndividual == S[x] && Distinct(S) && Counts(S, C)
    requires Below(G, |S|) && currentFront == Pick(S, G)
    modifies dominatedIndividual`dominationCount
    ensures PeelState(R, F, G', p, Done + {x}, C') && Counts(S, C')
    ensures Below(G', |S|) && nextFront == Pick(S, G')
  {
    PeelRelease(R, F, G, p, Done, C, x);
    dominatedIndividual.dominationCount := dominatedIndividual.dominationCount - 1;
    nextFront, G' := currentFront, G;
    if dominatedIndividual.dominationCount == 0 {
      PickAppend(S, G, x);
      nextFront, G' := currentFront + [dominatedIndividual], G + [x];
    }
    C' := C[x := C[x] - 1];
    forall y | 0 <= y < |S| ensures S[y].dominationCount == C'[y] {
      if y != x {
        assert S[y] != S[x];
      }
    }
  }

  /**
   * The inner loop of the peeling for the member at position p of the front
   * being walked: everyone it dominates loses one from its count, and joins
   * the front being built when the count reaches zero.
   */
  method ReleaseDominated(S: seq<Individual>, individual: Individual, currentFront: seq<Individual>,
                          ghost R: Matrix, ghost F: seq<seq<nat>>, ghost G: seq<nat>, ghost p: nat,
                          ghost C: seq<int>)
    returns (nextFront: seq<Individual>, ghost G': seq<nat>, ghost C': seq<int>)
    requires PeelState(R, F, G, p, {}, C) && p < |F[|F| - 1]| && F[|F| - 1][p] < |S| == |R|
    requires individual == S[F[|F| - 1][p]]
    requires individual.dominatedBy == Pick(S, Dominated(R, F[|F| - 1][p], |S|))
    requires Distinct(S) && Counts(S, C) && Below(G, |S|) && currentFront == Pick(S, G)
    modifies S`dominationCount
    ensures PeelState(R, F, G', p + 1, {}, C') && Counts(S, C')
    ensures Below(G', |S|) && nextFront == Pick(S, G')
  {
    ghost var c := F[|F| - 1][p];
    ghost var D := Dominated(R, c, |S|);
    DominatedMembers(R, c, |S|);
    var dominatedList := individual.dominatedBy;
    nextFront, G', C' := currentFront, G, C;
    ghost var Done: set<nat> := {};
    var t := 0;
    while t < |dominatedList|
      invariant 0 <= t <= |dominatedList|
      invariant Done == Elems(D[..t])
      invariant PeelState(R, F, G', p, Done, C') && Counts(S, C')
      invariant Below(G', |S|) && nextFront == Pick(S, G')
    {
      var dominatedIndividual := dominatedList[t];
      ghost var x := D[t];
      assert x !in Done;
      nextFront, G', C' := ReleaseOneDominated(S, dominatedIndividual, nextFront, R, F, G', p, Done, C', x);
      Done := Done + {x};
      assert D[..t + 1] == D[..t] + [x];
      t := t + 1;
    }
    assert D[..t] == D;
    PeelAdvance(R, F, G', p, Done, C');
  }

  /**
   * The body of the peeling loop: walks front, the last front found, and
   * returns the next one, the members whose count fell to zero.
   */
  method WalkFront(S: seq<Individual>, front: seq<Individual>, ghost R: Matrix, ghost F: seq<seq<nat>>,
                   ghost C: seq<int>)
    returns (currentFront: seq<Individual>, ghost G: seq<nat>, ghost C': seq<int>)
    requires PeelState(R, F, [], 0, {}, C) && Bounded(F, |S|) && |S| == |R|
    requires Below(F[|F| - 1], |S|) && front == Pick(S, F[|F| - 1])
    requires Distinct(S) && Linked(S, R) && Counts(S, C)
    modifies S`dominationCount
    ensures PeelState(R, F, G, |F[|F| - 1]|, {}, C') && Counts(S, C')
    ensures Below(G, |S|) && currentFront == Pick(S, G)
  {
    currentFront, G, C' := [], [], C;
    var p := 0;
    while p < |front|
      invariant 0 <= p <= |front| == |F[|F| - 1]|
      invariant PeelState(R, F, G, p, {}, C') && Counts(S, C')
      invariant Below(G, |S|) && currentFront == Pick(S, G)
    {
      var individual := front[p];
      currentFront, G, C' := ReleaseDominated(S, individual, currentFront, R, F, G, p, C');
      p := p + 1;
    }
  }

  /** A fully walked last front G, listed as next, extends the peeling state by one front. */
  lemma RoundDone(S: seq<Individual>, R: Matrix, F: seq<seq<nat>>, G: seq<nat>, C: seq<int>,
                  fronts: seq<seq<Individual>>, next: seq<Individual>)
    requires |S| == |R| && |fronts| == |F| > 0 && Bounded(F, |S|)
    requires Placed(F, |F| - 1) < Placed(F, |F|) <= Everyone(|S|)
    requires PeelState(R, F, G, |F[|F| - 1]|, {}, C) && Counts(S, C)
    requires forall k :: 0 <= k < |F| - 1 ==> F[k] != []
    requires Below(G, |S|) && next == Pick(S, G)
    requires forall k :: 0 <= k < |fronts| ==> FrontAt(S, fronts, F, k)
    ensures Peeling(S, R, F + [G], C, fronts + [next])
    ensures Everyone(|S|) - Placed(F + [G], |F|) < Everyone(|S|) - Placed(F, |F| - 1)
  {
    PeelNextFront(R, F, G, C);
    forall k | 0 <= k < |fronts| + 1 ensures FrontAt(S, fronts + [next], F + [G], k) {
      if k < |fronts| {
        assert FrontAt(S, fronts, F, k);
      }
    }
    RestShrinks(Everyone(|S|), Placed(F, |F| - 1), Placed(F + [G], |F|));
  }

  /**
   * One round of the peeling loop: walks the last front of fronts and
   * returns the next one.
   */
  method PeelRound(S: seq<Individual>, fronts: seq<seq<Individual>>, ghost R: Matrix, ghost F: seq<seq<nat>>,
                   ghost C: seq<int>)
    returns (currentFront: seq<Individual>, ghost G: seq<nat>, ghost C': seq<int>)
    requires Distinct(S) && Linked(S, R) && Peeling(S, R, F, C, fronts) && |fronts[|fronts| - 1]| > 0
    modifies S`dominationCount
    ensures Peeling(S, R, F + [G], C', fronts + [currentFront])
    ensures Everyone(|S|) - Placed(F + [G], |F|) < Everyone(|S|) - Placed(F, |F| - 1)
  {
    var i := |fronts| - 1;
    assert FrontAt(S, fronts, F, i);
    PeelGrows(R, F);
    currentFront, G, C' := WalkFront(S, fronts[i], R, F, C);
    RoundDone(S, R, F, G, C', fronts, currentFront);
  }

  /** The layering the sort produces: F peels S, and fronts lists the members of each layer. */
  ghost predicate Layered(S: seq<Individual>, F: seq<seq<nat>>, fronts: seq<seq<Individual>>)
  {
    var R := DominanceOf(S);
    Peeled(R, F) && Disjoint(F) && Bounded(F, |S|) && Everyone(|S|) <= Placed(F, |F|) && |fronts| == |F| &&
    forall k :: 0 <= k < |F| ==> F[k] != [] && FrontAt(S, fronts, F, k)
  }

  /**
   * When the last front found comes out empty, the fronts before it, Fs and
   * fs, are the whole answer.
   */
  lemma PeelingDone(S: seq<Individual>, R: Matrix, F: seq<seq<nat>>, C: seq<int>, fronts: seq<seq<Individual>>,
                    Fs: seq<seq<nat>>, fs: seq<seq<Individual>>)
    requires R == DominanceOf(S) && Peeling(S, R, F, C, fronts) && |fronts[|fronts| - 1]| == 0
    requires Fs == F[..|F| - 1] && fs == fronts[..|fronts| - 1]
    ensures Layered(S, Fs, fs)
  {
    var m := |F| - 1;
    assert FrontAt(S, fronts, F, m);
    DominanceIsStrictOrder(S);
    PlacedAllBeforeEmpty(R, F);
    PeeledPrefix(R, F, m);
    DisjointPrefix(F, m);
    forall k | 0 <= k < m ensures Fs[k] != [] && FrontAt(S, fs, Fs, k) {
      assert fs[k] == fronts[k] && Fs[k] == F[k];
      assert FrontAt(S, fronts, F, k);
    }
  }

  /**
   * non_dominated_sorting on the members S, which are distinct and fresh
   * from their constructor: every member learns whom it dominates and by how
   * many it is dominated, and the fronts become the layers F of S.
   */
  method SortFronts(S: seq<Individual>, population: SamplePopulations.Population) returns (ghost F: seq<seq<nat>>)
    requires Distinct(S) && population.fronts == []
    requires forall x :: 0 <= x < |S| ==> Uncompared(S, x)
    modifies S`dominatedBy, S`dominationCount, population`fronts
    ensures Layered(S, F, population.fronts)
  {
    ghost var R, C := SortFirstFront(S, population);
    F := PeelFronts(S, population, R, C);
  }

  /**
   * The first half of non_dominated_sorting, from an empty list of fronts:
   * the pairwise pass, after which the counts C are the numbers of
   * dominators and the first front lists the undominated members, which is
   * where the peeling starts.
   */
  method SortFirstFront(S: seq<Individual>, population: SamplePopulations.Population) returns (ghost R: Matrix, ghost C: seq<int>)
    requires Distinct(S) && population.fronts == []
    requires forall x :: 0 <= x < |S| ==> Uncompared(S, x)
    modifies S`dominatedBy, S`dominationCount, population`fronts
    ensures R == DominanceOf(S) && Linked(S, R)
    ensures PeelState(R, [Undominated(R, |S|)], [], 0, {}, C) && Counts(S, C)
    ensures population.fronts == [Pick(S, Undominated(R, |S|))]
  {
    population.fronts := population.fronts + [[]];
    R := DominanceOf(S);
    PairwisePass(S, population, R);
    ghost var F0 := Undominated(R, |S|);
    UndominatedMembers(R, |S|);
    FirstFront(R, F0);
    C := seq(|S|, x requires 0 <= x < |S| => |Dominators(R, x)|);
    PeelStart(R, F0, C);
    forall y | 0 <= y < |S| ensures S[y].dominatedBy == Pick(S, Dominated(R, y, |S|)) && S[y].dominationCount == C[y] {
      assert Compared(S, R, y);
    }
  }

  /**
   * The peeling loop, from the first front on: walks each front in turn and
   * appends the next, until one comes out empty; that one is deleted.
   */
  method PeelFronts(S: seq<Individual>, population: SamplePopulations.Population, ghost R: Matrix, ghost C: seq<int>)
    returns (ghost F: seq<seq<nat>>)
    requires R == DominanceOf(S) && Distinct(S) && Linked(S, R)
    requires PeelState(R, [Undominated(R, |S|)], [], 0, {}, C) && Counts(S, C)
    requires population.fronts == [Pick(S, Undominated(R, |S|))]
    modifies population`fronts, S`dominationCount
    ensures Layered(S, F, population.fronts)
  {
    F := [Undominated(R, |S|)];
    ghost var C := C;
    var fronts := population.fronts;
    assert FrontAt(S, fronts, F, 0);
    var i := 0;
    while |fronts[i]| > 0
      invariant |fronts| == |F| == i + 1 && Peeling(S, R, F, C, fronts)
      invariant Linked(S, R)
      decreases Everyone(|S|) - Placed(F, |F| - 1)
    {
      var currentFront;
      ghost var G, C';
      assert |fronts[|fronts| - 1]| > 0;
      currentFront, G, C' := PeelRound(S, fronts, R, F, C);
      fronts, F, C := fronts + [currentFront], F + [G], C';
      i := i + 1;
    }
    PeelingDone(S, R, F, C, fronts, F[..i], fronts[..i]);
    population.fronts, F := fronts[..|fronts| - 1], F[..i];
  }

  // ---------------------------------------------------------------------------
  // What the fronts mean, in terms of dominates
  // ---------------------------------------------------------------------------

  /** The member at index i lies in front k exactly when i is listed in F[k]. */
  lemma InFront(S: seq<Individual>, F: seq<seq<nat>>, fronts: seq<seq<Individual>>, k: nat, x: Individual)
    returns (i: nat)
    requires Layered(S, F, fronts) && k < |fronts| && x in fronts[k]
    ensures i < |S| && i in F[k] && S[i] == x
  {
    assert FrontAt(S, fronts, F, k);
    var t :| 0 <= t < |fronts[k]| && fronts[k][t] == x;
    i := F[k][t];
  }

  lemma IndexInFront(S: seq<Individual>, F: seq<seq<nat>>, fronts: seq<seq<Individual>>, k: nat, i: nat)
    requires Layered(S, F, fronts) && k < |fronts| && i in F[k]
    ensures i < |S| && S[i] in fronts[k]
  {
    assert FrontAt(S, fronts, F, k);
    var t :| 0 <= t < |F[k]| && F[k][t] == i;
    assert fronts[k][t] == S[i];
  }

  /** The first front is exactly the members that no member dominates. */
  lemma FirstFrontIsUndominated(S: seq<Individual>, F: seq<seq<nat>>, fronts: seq<seq<Individual>>, x: Individual)
    requires Layered(S, F, fronts) && |fronts| > 0
    ensures x in fronts[0] <==> x in S && forall y :: y in S ==> !y.Dominates(x)
  {
    var R := DominanceOf(S);
    if x in fronts[0] {
      var i := InFront(S, F, fronts, 0, x);
      FrontZeroUndominated(R, F, i);
      forall y | y in S ensures !y.Dominates(x) {
        var j :| 0 <= j < |S| && S[j] == y;
        assert j !in Dominators(R, i);
      }
    }
    if x in S && forall y :: y in S ==> !y.Dominates(x) {
      var i :| 0 <= i < |S| && S[i] == x;
      assert Dominators(R, i) == {};
      FrontZeroUndominated(R, F, i);
      IndexInFront(S, F, fronts, 0, i);
    }
  }

  /** No member of a front dominates another member of the same front. */
  lemma FrontHasNoDominatingPair(S: seq<Individual>, F: seq<seq<nat>>, fronts: seq<seq<Individual>>, k: nat,
                                 a: Individual, b: Individual)
    requires Layered(S, F, fronts) && k < |fronts| && a in fronts[k] && b in fronts[k]
    ensures !a.Dominates(b)
  {
    var i := InFront(S, F, fronts, k, a);
    var j := InFront(S, F, fronts, k, b);
    FrontIsAntichain(DominanceOf(S), F, k, i, j);
  }

  /** Every member of a later front is dominated by some member of the front before it. */
  lemma LaterFrontIsDominated(S: seq<Individual>, F: seq<seq<nat>>, fronts: seq<seq<Individual>>, k: nat,
                              x: Individual) returns (y: Individual)
    requires Layered(S, F, fronts) && 0 < k < |fronts| && x in fronts[k]
    ensures y in fronts[k - 1] && y.Dominates(x)
  {
    var i := InFront(S, F, fronts, k, x);
    var j := FrontHasPredecessor(DominanceOf(S), F, k, i);
    IndexInFront(S, F, fronts, k - 1, j);
    y := S[j];
  }

  /**
   * The fronts partition the members: a member of S lies in some front, only
   * members do, and none is listed twice.
   */
  lemma FrontsPartition(S: seq<Individual>, F: seq<seq<nat>>, fronts: seq<seq<Individual>>, x: Individual)
    requires Layered(S, F, fronts) && Distinct(S)
    ensures x in S <==> exists k :: 0 <= k < |fronts| && x in fronts[k]
    ensures Separate(fronts)
  {
    PlacedMembers(F, |F|);
    if x in S {
      var i :| 0 <= i < |S| && S[i] == x;
      assert i in Everyone(|S|);
      var k :| 0 <= k < |F| && i in F[k];
      IndexInFront(S, F, fronts, k, i);
    }
    if k :| 0 <= k < |fronts| && x in fronts[k] {
      var i := InFront(S, F, fronts, k, x);
    }
    forall a, b, i, j | 0 <= a < |fronts| && 0 <= b < |fronts| && 0 <= i < |fronts[a]| && 0 <= j < |fronts[b]| &&
      fronts[a][i] == fronts[b][j]
      ensures a == b && i == j
    {
      assert FrontAt(S, fronts, F, a) && FrontAt(S, fronts, F, b);
      var z := F[a][i];
      assert F[b][j] == z;
      FrontUnique(F, a, b, z);
      assert Distinct(F[a]);
    }
  }
}
