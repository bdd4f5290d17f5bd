// Crowding distance (section III-B of Deb et al., 2002) as nsga2/nsga2.py
// computes it: each front is sorted on one gene of the genome (not on the
// objectives), its two ends get sys.maxsize, and every interior member adds
// the gap between its neighbours' genes divided by the spread of the front.
module Crowding {
  import opened Common
  import opened Individuals
  import opened Populations

  /**
   * The key of list.sort(key=lambda x: x.genome[g]) over the members xs,
   * read off the genomes once: sorting does not change any genome.
   */
  function GeneKey(xs: seq<Individual>, g: int): (key: Individual -> real)
    requires HasGene(xs, g)
    reads set x | x in xs :: x.genome
    ensures forall x :: x in xs ==> key(x) == GeneAt(x, g)
  {
    var m := map x | x in xs :: GeneAt(x, g);
    x => if x in m then m[x] else 0.0
  }

  /** xs sorted on gene g, stably, as list.sort does. */
  function SortOnGene(xs: seq<Individual>, g: int): (r: seq<Individual>)
    requires HasGene(xs, g)
    reads set x | x in xs :: x.genome
    ensures multiset(r) == multiset(xs) && HasGene(r, g)
  {
    var key := GeneKey(xs, g);
    SortByKeySorted(xs, key);
    var r := SortByKey(xs, key);
    assert forall k :: 0 <= k < |r| ==> r[k] in multiset(xs);
    r
  }

  /** Sorting on a gene permutes the members and leaves their genes ascending. */
  lemma SortOnGeneSorted(xs: seq<Individual>, g: int)
    requires HasGene(xs, g)
    ensures multiset(SortOnGene(xs, g)) == multiset(xs)
    ensures HasGene(SortOnGene(xs, g), g)
    ensures SortedBy(Genes(SortOnGene(xs, g), g), Identity)
  {
    var key := GeneKey(xs, g);
    var ys := SortOnGene(xs, g);
    SortByKeySorted(xs, key);
    forall k | 0 <= k < |ys| ensures ys[k] in xs {
      assert ys[k] in multiset(xs);
    }
    var L := Genes(ys, g);
    forall a, b | 0 <= a < b < |L| ensures Identity(L[a]) <= Identity(L[b]) {
      assert key(ys[a]) <= key(ys[b]);
    }
  }

  /**
   * keys[g] gives every member of ys its gene g, for each of the n genes: the
   * keys of the n sorts of the genome loop of crowding_distance_assignment.
   */
  ghost predicate KeysMatch(ys: seq<Individual>, keys: seq<Individual -> real>, n: nat)
    reads set x | x in ys :: x.genome
  {
    |keys| == n && forall g {:trigger KeyIsGene(ys, keys[g], g)} :: 0 <= g < n ==> KeyIsGene(ys, keys[g], g)
  }

  /** key gives every member of ys its gene g. */
  ghost predicate KeyIsGene(ys: seq<Individual>, key: Individual -> real, g: nat)
    reads set x | x in ys :: x.genome
  {
    HasGene(ys, g) && forall x {:trigger key(x)} :: x in ys ==> key(x) == GeneAt(x, g)
  }

  /** The sort keys of the first n genes of the members of ys. */
  ghost function GeneKeys(ys: seq<Individual>, n: nat): (keys: seq<Individual -> real>)
    requires forall g :: 0 <= g < n ==> HasGene(ys, g)
    reads set x | x in ys :: x.genome
    ensures KeysMatch(ys, keys, n)
  {
    if n == 0 then []
    else
      var keys := GeneKeys(ys, n - 1) + [GeneKey(ys, n - 1)];
      assert forall x :: x in ys ==> n - 1 < x.genome.Length by {
        assert HasGene(ys, n - 1);
      }
      keys
  }

  /** KeysMatch is about the members, not their order. */
  lemma KeysMatchPermutation(xs: seq<Individual>, ys: seq<Individual>, keys: seq<Individual -> real>, n: nat)
    requires multiset(xs) == multiset(ys) && KeysMatch(xs, keys, n)
    ensures KeysMatch(ys, keys, n)
  {
    forall g | 0 <= g < n ensures KeyIsGene(ys, keys[g], g) {
      KeyIsGenePermutation(xs, ys, keys[g], g);
    }
  }

  /** So is KeyIsGene. */
  lemma KeyIsGenePermutation(xs: seq<Individual>, ys: seq<Individual>, key: Individual -> real, g: nat)
    requires multiset(xs) == multiset(ys) && KeyIsGene(xs, key, g)
    ensures KeyIsGene(ys, key, g)
  {
    HasGenePermutation(xs, ys, g + 1);
    assert HasGene(ys, g);
    forall x | x in ys ensures key(x) == GeneAt(x, g) {
      assert x in multiset(xs);
    }
  }

  /**
   * The order the genome loop of crowding_distance_assignment leaves a front,
   * listed as xs before it, in after its first n passes: pass g sorts stably
   * by keys[g], starting from the order the pass before left.
   */
  ghost function PassOrder(xs: seq<Individual>, keys: seq<Individual -> real>, n: nat): (r: seq<Individual>)
    requires n <= |keys|
  {
    if n == 0 then xs
    else SortByKey(PassOrder(xs, keys, n - 1), keys[n - 1])
  }

  /** The passes permute the members. */
  lemma {:induction false} PassOrderPermutes(xs: seq<Individual>, keys: seq<Individual -> real>, n: nat)
    requires n <= |keys|
    ensures multiset(PassOrder(xs, keys, n)) == multiset(xs)
  {
    if n > 0 {
      PassOrderPermutes(xs, keys, n - 1);
      SortByKeySorted(PassOrder(xs, keys, n - 1), keys[n - 1]);
    }
  }

  /**
   * ys is the order the first i passes leave xs in. It is stated for every n
   * equal to i so that the passes unfold only where a proof names PassOrder
   * itself, which keeps the sorts out of the genome loop's proof.
   */
  ghost predicate InPassOrder(ys: seq<Individual>, xs: seq<Individual>, keys: seq<Individual -> real>, i: nat)
  {
    i <= |keys| && forall n {:trigger PassOrder(xs, keys, n)} :: n == i && n <= |keys| ==> ys == PassOrder(xs, keys, n)
  }

  /**
   * The passes fix the order: any two key lists that give the members the
   * same genes give the same order.
   */
  lemma {:induction false} PassOrderDetermined(xs: seq<Individual>, keys1: seq<Individual -> real>,
                                               keys2: seq<Individual -> real>, n: nat)
    requires KeysMatch(xs, keys1, n) && KeysMatch(xs, keys2, n)
    ensures PassOrder(xs, keys1, n) == PassOrder(xs, keys2, n)
  {
    if n > 0 {
      PassOrderDetermined(xs, keys1[..n - 1], keys2[..n - 1], n - 1);
      PassOrderPrefix(xs, keys1, n - 1);
      PassOrderPrefix(xs, keys2, n - 1);
      var ys := PassOrder(xs, keys1, n - 1);
      PassOrderPermutes(xs, keys1, n - 1);
      SameMembers(xs, ys);
      assert KeyIsGene(xs, keys1[n - 1], n - 1) && KeyIsGene(xs, keys2[n - 1], n - 1);
      forall y | y in ys ensures keys1[n - 1](y) == keys2[n - 1](y) {
        assert y in multiset(ys);
        assert y in xs;
      }
      SortByKeyCongruent(ys, keys1[n - 1], keys2[n - 1]);
    }
  }

  /** The first n passes use only the first n keys. */
  lemma {:induction false} PassOrderPrefix(xs: seq<Individual>, keys: seq<Individual -> real>, n: nat)
    requires n < |keys|
    ensures PassOrder(xs, keys[..n], n) == PassOrder(xs, keys, n)
  {
    if n > 0 {
      PassOrderPrefix(xs, keys, n - 1);
      assert keys[..n][..n - 1] == keys[..n - 1];
      PassOrderPrefix(xs, keys[..n], n - 1);
      assert keys[..n][n - 1] == keys[n - 1];
    }
  }

  /** A pass sorting on gene g is a stable sort by any key giving each member its gene g. */
  lemma SortOnGeneByKey(ys: seq<Individual>, g: int, key: Individual -> real)
    requires HasGene(ys, g) && forall x :: x in ys ==> key(x) == GeneAt(x, g)
    ensures SortOnGene(ys, g) == SortByKey(ys, key)
  {
    SortByKeyCongruent(ys, GeneKey(ys, g), key);
  }

  /**
   * What the interior member at position i of a front sorted on one gene
   * adds: the gap between its neighbours' genes over the spread of the front,
   * or over 1 when all genes are equal.
   */
  function CrowdingGap(L: seq<real>, i: nat): real
    requires 0 < i < |L| - 1
  {
    var spread := L[|L| - 1] - L[0];
    (L[i + 1] - L[i - 1]) / (if spread == 0.0 then 1.0 else spread)
  }

  /**
   * On genes sorted ascending the gap is never negative and at most 1; when
   * all genes are equal it is the raw gap, which is 0.
   */
  lemma CrowdingGapBounds(L: seq<real>, i: nat)
    requires SortedBy(L, Identity) && 0 < i < |L| - 1
    ensures 0.0 <= CrowdingGap(L, i)
    ensures L[0] < L[|L| - 1] ==> CrowdingGap(L, i) <= 1.0
    ensures L[0] == L[|L| - 1] ==> CrowdingGap(L, i) == L[i + 1] - L[i - 1] == 0.0
  {
    var last := |L| - 1;
    assert Identity(L[0]) <= Identity(L[i - 1]) <= Identity(L[i + 1]) <= Identity(L[last]);
    var gap := L[i + 1] - L[i - 1];
    var spread := L[last] - L[0];
    if spread != 0.0 {
      Fraction(gap, spread);
    }
  }

  /**
   * The crowding distances one pass gives the members ys of a front sorted on
   * one gene, whose values are L: the ends get sys.maxsize, each interior
   * member its distance before the pass (in D) plus its gap.
   */
  ghost predicate Crowded(ys: seq<Individual>, L: seq<real>, D: map<Individual, real>)
    requires |L| == |ys| && forall x :: x in ys ==> x in D
    reads ys
  {
    (|ys| > 0 ==> ys[0].crowdingDistance == ys[|ys| - 1].crowdingDistance == Some(MaxSize as real)) &&
    forall i {:trigger CrowdingGap(L, i)} :: 0 < i < |ys| - 1 ==>
      ys[i].crowdingDistance == Some(D[ys[i]] + CrowdingGap(L, i))
  }

  /**
   * G lists the gap of every interior position of L. Instances are taken only
   * where a gap is named, which keeps the divisions out of the loop's proof.
   */
  ghost predicate GapsOf(L: seq<real>, G: seq<real>)
  {
    |G| == |L| && forall k {:trigger CrowdingGap(L, k)} :: 0 < k < |L| - 1 ==> G[k] == CrowdingGap(L, k)
  }

  /** D records the crowding distance of every member of ys. */
  ghost predicate DistancesIn(ys: seq<Individual>, D: map<Individual, real>)
    reads ys
  {
    forall x :: x in ys ==> x in D && x.crowdingDistance == Some(D[x])
  }

  /** The fields of x other than its crowding distance. */
  datatype Rest = Rest(solutions: seq<real>, nonNormalizedSolutions: seq<real>, dominationCount: int,
                       dominatedBy: seq<Individual>, rank: Option<int>)

  function RestOf(x: Individual): Rest
    reads x
  {
    Rest(x.solutions, x.nonNormalizedSolutions, x.dominationCount, x.dominatedBy, x.rank)
  }

  /** R records the fields other than the crowding distance of every member of ys. */
  ghost predicate RestsAre(ys: seq<Individual>, R: map<Individual, Rest>)
    reads ys
  {
    forall x :: x in ys ==> x in R && RestOf(x) == R[x]
  }

  /**
   * list.sort(key=lambda x: x.genome[g]) on the members of front p; S is the
   * sorted list and L its genes, both computed before the sort.
   */
  method SortFront(p: Population, g: nat, ghost S: seq<Individual>, ghost L: seq<real>,
                   ghost D: map<Individual, real>, ghost R: map<Individual, Rest>, ghost F: set<Individual>)
    requires Distinct(p.individuals) && HasGene(p.individuals, g)
    requires S == SortOnGene(p.individuals, g) && L == Genes(S, g)
    requires DistancesIn(p.individuals, D) && RestsAre(p.individuals, R)
    requires forall x :: x in p.individuals ==> x in F
    modifies p`individuals
    ensures p.individuals == S && Distinct(S) && HasGene(S, g) && |L| == |S|
    ensures DistancesIn(S, D) && RestsAre(S, R) && forall x :: x in S ==> x in F
    ensures forall k :: 0 <= k < |L| ==> GeneAt(S[k], g) == L[k]
  {
    PermutedMembers(p.individuals, S, D, R, F);
    var key := GeneKey(p.individuals, g);
    p.individuals := SortByKey(p.individuals, key);
  }

  /** A permutation of a front keeps what is recorded about its members. */
  lemma PermutedMembers(xs: seq<Individual>, S: seq<Individual>, D: map<Individual, real>,
                        R: map<Individual, Rest>, F: set<Individual>)
    requires multiset(S) == multiset(xs) && Distinct(xs)
    requires DistancesIn(xs, D) && RestsAre(xs, R) && forall x :: x in xs ==> x in F
    ensures Distinct(S) && DistancesIn(S, D) && RestsAre(S, R) && forall x :: x in S ==> x in F
  {
    forall x | x in S ensures x in xs {
      assert x in multiset(S);
    }
    DistinctPermutation(xs, S);
  }

  /** Every value of L lies between its first and its last. */
  ghost predicate Spans(L: seq<real>)
  {
    forall k :: 0 <= k < |L| ==> L[0] <= L[k] <= L[|L| - 1]
  }

  lemma SortedSpans(L: seq<real>)
    requires SortedBy(L, Identity)
    ensures Spans(L)
  {
    forall k | 0 <= k < |L| ensures L[0] <= L[k] <= L[|L| - 1] {
      assert Identity(L[0]) <= Identity(L[k]) <= Identity(L[|L| - 1]);
    }
  }

  /**
   * One turn of the genome loop of crowding_distance_assignment on front p:
   * sort on gene g, give both ends sys.maxsize, then add each interior
   * member's gap, dividing by the spread that get_extreme_neighbours reports.
   * Members must be listed once, or one would collect several gaps.
   */
  method CrowdingPass(p: Population, g: nat, ghost S: seq<Individual>, ghost L: seq<real>,
                      ghost D: map<Individual, real>, ghost F: set<Individual>)
    requires |p.individuals| > 0 && Distinct(p.individuals) && HasGene(p.individuals, g)
    requires S == SortOnGene(p.individuals, g) && L == Genes(S, g)
    requires DistancesIn(p.individuals, D) && forall x :: x in p.individuals ==> x in F
    modifies p`individuals, F
    ensures p.individuals == S && Distinct(S) && |L| == |S|
    ensures forall k :: 0 <= k < |L| ==> GeneAt(S[k], g) == L[k]
    ensures (forall x :: x in S ==> x in D) && Crowded(S, L, D)
    ensures forall x :: x in S ==> RestOf(x) == old(RestOf(x))
  {
    ghost var R := map x | x in p.individuals :: RestOf(x);
    SortOnGeneSorted(p.individuals, g);
    SortedSpans(L);
    SortFront(p, g, S, L, D, R, F);
    CrowdSorted(p, g, D, L, R, F);
  }

  /**
   * The distance part of one turn, on a front p already sorted on gene g,
   * whose genes are L.
   */
  method CrowdSorted(p: Population, g: nat, ghost D: map<Individual, real>, ghost L: seq<real>,
                     ghost R: map<Individual, Rest>, ghost F: set<Individual>)
    requires |p.individuals| > 0 && Distinct(p.individuals) && HasGene(p.individuals, g)
    requires |L| == |p.individuals| && Spans(L) && DistancesIn(p.individuals, D)
    requires forall k :: 0 <= k < |L| ==> GeneAt(p.individuals[k], g) == L[k]
    requires RestsAre(p.individuals, R) && forall x :: x in p.individuals ==> x in F
    modifies F
    ensures (forall x :: x in p.individuals ==> x in D) && Crowded(p.individuals, L, D)
    ensures RestsAre(p.individuals, R) && forall k :: 0 <= k < |L| ==> GeneAt(p.individuals[k], g) == L[k]
  {
    ghost var ys := p.individuals;
    SetEnds(p, g, D, L, R);
    var minValue, maxValue := p.GetExtremeNeighbours(g);
    assert minValue == L[0] && maxValue == L[|L| - 1] by {
      var G := Genes(ys, g);
      assert forall k :: 0 <= k < |G| ==> G[k] == L[k];
    }
    ghost var G := GapList(L);
    AddGaps(p, g, D, L, G, R, F, minValue, maxValue);
  }

  /** The gaps of all positions of L, one per position. */
  lemma GapList(L: seq<real>) returns (G: seq<real>)
    ensures GapsOf(L, G)
  {
    G := seq(|L|, k requires 0 <= k < |L| => if 0 < k < |L| - 1 then CrowdingGap(L, k) else 0.0);
  }

  /** Positions whose distance is the gap listed in G hold the distances Crowded asks for. */
  lemma CrowdedByGaps(ys: seq<Individual>, L: seq<real>, D: map<Individual, real>, G: seq<real>)
    requires |L| == |ys| && (forall x :: x in ys ==> x in D) && GapsOf(L, G)
    requires forall k :: 0 <= k < |L| ==>
               ys[k].crowdingDistance ==
                 if k == 0 || k == |L| - 1 then Some(MaxSize as real) else Some(D[ys[k]] + G[k])
    ensures Crowded(ys, L, D)
  {
    forall i | 0 < i < |ys| - 1 ensures ys[i].crowdingDistance == Some(D[ys[i]] + CrowdingGap(L, i)) {
      assert ys[i].crowdingDistance == Some(D[ys[i]] + G[i]);
    }
  }

  /** Both ends of the front get sys.maxsize; nothing else changes. */
  method SetEnds(p: Population, g: nat, ghost D: map<Individual, real>, ghost L: seq<real>,
                 ghost R: map<Individual, Rest>)
    requires |p.individuals| > 0 && Distinct(p.individuals) && HasGene(p.individuals, g)
    requires |L| == |p.individuals| && DistancesIn(p.individuals, D) && RestsAre(p.individuals, R)
    requires forall k :: 0 <= k < |L| ==> GeneAt(p.individuals[k], g) == L[k]
    modifies p.individuals[0], p.individuals[|p.individuals| - 1]
    ensures forall x :: x in p.individuals ==> x in D
    ensures forall k :: 0 <= k < |L| ==>
              p.individuals[k].crowdingDistance ==
                if k == 0 || k == |L| - 1 then Some(MaxSize as real) else Some(D[p.individuals[k]])
    ensures forall k :: 0 <= k < |L| ==> GeneAt(p.individuals[k], g) == L[k]
    ensures RestsAre(p.individuals, R)
  {
    var lastIndividualIndex := |p.individuals| - 1;
    p.individuals[0].crowdingDistance := Some(MaxSize as real);
    p.individuals[lastIndividualIndex].crowdingDistance := Some(MaxSize as real);
  }

  /**
   * The interior loop of one turn: every member strictly between the ends
   * adds its neighbours' gap over the spread maxValue - minValue, or over 1
   * when that spread is 0.
   */
  method AddGaps(p: Population, g: nat, ghost D: map<Individual, real>, ghost L: seq<real>,
                 ghost G: seq<real>, ghost R: map<Individual, Rest>, ghost F: set<Individual>,
                 minValue: real, maxValue: real)
    requires |p.individuals| > 0 && Distinct(p.individuals) && HasGene(p.individuals, g)
    requires |L| == |p.individuals| && minValue == L[0] && maxValue == L[|L| - 1] && GapsOf(L, G)
    requires forall k :: 0 <= k < |L| ==> GeneAt(p.individuals[k], g) == L[k]
    requires forall x :: x in p.individuals ==> x in D
    requires forall k :: 0 <= k < |L| ==>
               p.individuals[k].crowdingDistance ==
                 if k == 0 || k == |L| - 1 then Some(MaxSize as real) else Some(D[p.individuals[k]])
    requires RestsAre(p.individuals, R) && forall x :: x in p.individuals ==> x in F
    modifies F
    ensures Crowded(p.individuals, L, D) && RestsAre(p.individuals, R)
    ensures forall k :: 0 <= k < |L| ==> GeneAt(p.individuals[k], g) == L[k]
  {
    ghost var ys := p.individuals;
    var last := |p.individuals| - 1;
    var i := 1;
    while i < last
      invariant 1 <= i <= last + 1
      invariant ys[0].crowdingDistance == ys[last].crowdingDistance == Some(MaxSize as real)
      invariant forall k :: 0 < k < i && k < last ==> ys[k].crowdingDistance == Some(D[ys[k]] + G[k])
      invariant forall k :: i <= k < last ==> ys[k].crowdingDistance == Some(D[ys[k]])
      invariant RestsAre(ys, R) && forall k :: 0 <= k < |L| ==> GeneAt(ys[k], g) == L[k]
    {
      AddGap(p, g, D, L, G, minValue, maxValue, i);
      i := i + 1;
    }
    CrowdedByGaps(ys, L, D, G);
  }

  /** The body of the interior loop: the member at position i adds its gap. */
  method AddGap(p: Population, g: nat, ghost D: map<Individual, real>, ghost L: seq<real>,
                ghost G: seq<real>, minValue: real, maxValue: real, i: nat)
    requires 0 < i < |p.individuals| - 1 && HasGene(p.individuals, g)
    requires |L| == |p.individuals| && minValue == L[0] && maxValue == L[|L| - 1] && GapsOf(L, G)
    requires GeneAt(p.individuals[i - 1], g) == L[i - 1] && GeneAt(p.individuals[i + 1], g) == L[i + 1]
    requires p.individuals[i] in D && p.individuals[i].crowdingDistance == Some(D[p.individuals[i]])
    modifies p.individuals[i]
    ensures p.individuals[i].crowdingDistance == Some(D[p.individuals[i]] + G[i])
    ensures RestOf(p.individuals[i]) == old(RestOf(p.individuals[i]))
  {
    var rightNeighbourValue := GeneAt(p.individuals[i + 1], g);
    var leftNeighbourValue := GeneAt(p.individuals[i - 1], g);
    var x := p.individuals[i];
    assert G[i] == CrowdingGap(L, i);
    if maxValue - minValue == 0.0 {
      x.crowdingDistance := Some(x.crowdingDistance.value + (rightNeighbourValue - leftNeighbourValue) / 1.0);
    } else {
      x.crowdingDistance := Some(x.crowdingDistance.value + (rightNeighbourValue - leftNeighbourValue) / (maxValue - minValue));
    }
  }

  // ---------------------------------------------------------------------------
  // One front: the reset and the loop over the genes
  // ---------------------------------------------------------------------------

  /** The distance 0 for every member of ys. */
  ghost function Zeros(ys: seq<Individual>): (D: map<Individual, real>)
    ensures forall x :: x in ys ==> x in D && D[x] == 0.0
  {
    map x | x in ys :: 0.0
  }

  /** The distances the members of ys hold, where they hold one. */
  ghost function Recorded(ys: seq<Individual>): map<Individual, real>
    reads ys
  {
    map x | x in ys && x.crowdingDistance.Some? :: x.crowdingDistance.value
  }

  /**
   * After a pass on gene g: the genes of ys at g are L, ascending, and ys
   * holds the distances Crowded gives from the distances D before the pass.
   */
  ghost predicate CrowdedOn(ys: seq<Individual>, g: nat, L: seq<real>, D: map<Individual, real>)
    reads ys, set x | x in ys :: x.genome
  {
    HasGene(ys, g) && |L| == |ys| && (forall k :: 0 <= k < |ys| ==> GeneAt(ys[k], g) == L[k]) &&
    SortedBy(L, Identity) && (forall x :: x in ys ==> x in D) && Crowded(ys, L, D)
  }

  /** A permutation of the members has the same genes. */
  lemma HasGenePermutation(xs: seq<Individual>, ys: seq<Individual>, n: nat)
    requires multiset(ys) == multiset(xs) && forall g :: 0 <= g < n ==> HasGene(xs, g)
    ensures forall g :: 0 <= g < n ==> HasGene(ys, g)
  {
    forall k | 0 <= k < |ys| ensures ys[k] in xs {
      assert ys[k] in multiset(xs);
    }
    forall g | 0 <= g < n ensures HasGene(ys, g) {
      forall k | 0 <= k < |ys| ensures -(ys[k].genome.Length as int) <= g < ys[k].genome.Length {
        var j :| 0 <= j < |xs| && xs[j] == ys[k];
        assert HasGene(xs, g);
      }
    }
  }

  /** After a pass every member holds a distance, so Recorded lists them all. */
  lemma CrowdedRecorded(ys: seq<Individual>, g: nat, L: seq<real>, D: map<Individual, real>)
    requires CrowdedOn(ys, g, L, D)
    ensures DistancesIn(ys, Recorded(ys))
  {
    forall x | x in ys ensures x.crowdingDistance.Some? {
      var i :| 0 <= i < |ys| && ys[i] == x;
      if 0 < i < |ys| - 1 {
        assert ys[i].crowdingDistance == Some(D[ys[i]] + CrowdingGap(L, i));
      }
    }
  }

  /**
   * The reset loop of crowding_distance_assignment: every member's distance
   * becomes 0 (the source stores the integer 0).
   */
  method ResetDistances(p: Population, ghost F: set<Individual>)
    requires forall x :: x in p.individuals ==> x in F
    modifies F
    ensures DistancesIn(p.individuals, Zeros(p.individuals))
    ensures forall x :: x in p.individuals ==> RestOf(x) == old(RestOf(x))
  {
    ghost var R := map x | x in p.individuals :: RestOf(x);
    var k := 0;
    while k < |p.individuals|
      invariant 0 <= k <= |p.individuals|
      invariant forall j :: 0 <= j < k ==> p.individuals[j].crowdingDistance == Some(0.0)
      invariant RestsAre(p.individuals, R)
    {
      p.individuals[k].crowdingDistance := Some(0.0);
      k := k + 1;
    }
  }

  /**
   * What crowding_distance_assignment leaves in front p, whose members were
   * xs: xs in the order of the passes on each gene in turn, keys giving the
   * members their genes, with their other fields R; with no genes, all
   * distances 0; otherwise sorted on the last gene, whose values are L, and
   * Crowded from the distances D the last pass began with, which are all 0
   * when the genome has one gene.
   */
  ghost predicate CrowdedFront(p: Population, xs: seq<Individual>, genotypeQuantity: nat,
                               R: map<Individual, Rest>, L: seq<real>, D: map<Individual, real>,
                               keys: seq<Individual -> real>)
    reads p, p.individuals, set x | x in p.individuals :: x.genome
  {
    KeysMatch(p.individuals, keys, genotypeQuantity) && InPassOrder(p.individuals, xs, keys, genotypeQuantity) &&
    multiset(p.individuals) == multiset(xs) && Distinct(p.individuals) && RestsAre(p.individuals, R) &&
    (genotypeQuantity == 0 ==> DistancesIn(p.individuals, Zeros(p.individuals))) &&
    (genotypeQuantity > 0 ==> CrowdedOn(p.individuals, genotypeQuantity - 1, L, D)) &&
    (genotypeQuantity == 1 ==> forall x :: x in D ==> D[x] == 0.0)
  }

  /**
   * crowding_distance_assignment on one front p: reset, then one pass per
   * gene. An empty front with at least one gene raises IndexError; members
   * listed twice would collect two gaps, so each is listed once.
   */
  method CrowdFront(p: Population, genotypeQuantity: nat, ghost R: map<Individual, Rest>, ghost F: set<Individual>)
    returns (ghost L: seq<real>, ghost D: map<Individual, real>, ghost keys: seq<Individual -> real>)
    requires genotypeQuantity > 0 ==> |p.individuals| > 0
    requires Distinct(p.individuals) && forall g :: 0 <= g < genotypeQuantity ==> HasGene(p.individuals, g)
    requires RestsAre(p.individuals, R) && forall x :: x in p.individuals ==> x in F
    modifies p`individuals, F
    ensures CrowdedFront(p, old(p.individuals), genotypeQuantity, R, L, D, keys)
  {
    keys := GeneKeys(p.individuals, genotypeQuantity);
    ResetDistances(p, F);
    ghost var xs := p.individuals;
    ghost var last;
    GenomeLoopStart(p, keys, genotypeQuantity, R, F);
    L, D, last := CrowdGenes(p, genotypeQuantity, keys, R, F);
    GenomeLoopDone(p, xs, keys, genotypeQuantity, last, L, D, R, F);
  }

  /** The genome loop of crowding_distance_assignment, on a front whose distances are all 0. */
  method CrowdGenes(p: Population, genotypeQuantity: nat, ghost keys: seq<Individual -> real>,
                    ghost R: map<Individual, Rest>, ghost F: set<Individual>)
    returns (ghost L: seq<real>, ghost D: map<Individual, real>, ghost lastGene: nat)
    requires GenomeLoop(p, p.individuals, keys, genotypeQuantity, 0, 0, [], Zeros(p.individuals), R, F)
    modifies p`individuals, F
    ensures GenomeLoop(p, old(p.individuals), keys, genotypeQuantity, genotypeQuantity, lastGene, L, D, R, F)
  {
    ghost var xs := p.individuals;
    L, D := [], Zeros(p.individuals);
    lastGene := 0;
    var genomeIndex := 0;
    while genomeIndex < genotypeQuantity
      invariant genomeIndex <= genotypeQuantity
      invariant GenomeLoop(p, xs, keys, genotypeQuantity, genomeIndex, lastGene, L, D, R, F)
    {
      L, D := CrowdStep(p, xs, keys, genotypeQuantity, genomeIndex, lastGene, L, D, R, F);
      lastGene := genomeIndex;
      genomeIndex := genomeIndex + 1;
    }
  }

  /** Before the genome loop, a front whose distances are all 0 is as GenomeLoop describes at gene 0. */
  lemma GenomeLoopStart(p: Population, keys: seq<Individual -> real>, genotypeQuantity: nat,
                        R: map<Individual, Rest>, F: set<Individual>)
    requires genotypeQuantity > 0 ==> |p.individuals| > 0
    requires Distinct(p.individuals) && forall g :: 0 <= g < genotypeQuantity ==> HasGene(p.individuals, g)
    requires KeysMatch(p.individuals, keys, genotypeQuantity)
    requires RestsAre(p.individuals, R) && forall x :: x in p.individuals ==> x in F
    requires DistancesIn(p.individuals, Zeros(p.individuals))
    ensures GenomeLoop(p, p.individuals, keys, genotypeQuantity, 0, 0, [], Zeros(p.individuals), R, F)
  {
  }

  /** When the genome loop ends, the front is as CrowdedFront describes. */
  lemma GenomeLoopDone(p: Population, xs: seq<Individual>, keys: seq<Individual -> real>, genotypeQuantity: nat,
                       last: nat, L: seq<real>, D: map<Individual, real>, R: map<Individual, Rest>, F: set<Individual>)
    requires GenomeLoop(p, xs, keys, genotypeQuantity, genotypeQuantity, last, L, D, R, F)
    ensures CrowdedFront(p, xs, genotypeQuantity, R, L, D, keys)
  {
    assert p.individuals == PassOrder(xs, keys, genotypeQuantity);
    PassOrderPermutes(xs, keys, genotypeQuantity);
    KeysMatchPermutation(xs, p.individuals, keys, genotypeQuantity);
    if genotypeQuantity > 0 {
      CrowdedOnGene(p.individuals, last, genotypeQuantity - 1, L, D);
    }
  }

  /**
   * Where the genome loop of crowding_distance_assignment stands before pass i
   * on front p, whose members were xs: the passes so far have put them in
   * PassOrder, and the distances are all 0 before the first pass and Crowded
   * by the pass before, on gene last, otherwise.
   */
  ghost predicate GenomeLoop(p: Population, xs: seq<Individual>, keys: seq<Individual -> real>, genotypeQuantity: nat,
                             i: nat, last: nat, L: seq<real>, D: map<Individual, real>,
                             R: map<Individual, Rest>, F: set<Individual>)
    reads p, p.individuals, set x | x in p.individuals :: x.genome, set x | x in xs :: x.genome
  {
    i <= genotypeQuantity && KeysMatch(xs, keys, genotypeQuantity) &&
    InPassOrder(p.individuals, xs, keys, i) && Distinct(p.individuals) &&
    (genotypeQuantity > 0 ==> |p.individuals| > 0) &&
    (forall g :: 0 <= g < genotypeQuantity ==> HasGene(p.individuals, g)) &&
    RestsAre(p.individuals, R) && (forall x :: x in p.individuals ==> x in F) &&
    (i == 0 ==> DistancesIn(p.individuals, Zeros(p.individuals))) &&
    (i > 0 ==> last + 1 == i && CrowdedOn(p.individuals, last, L, D)) &&
    (i <= 1 ==> forall x :: x in D ==> D[x] == 0.0)
  }

  /** One turn of the genome loop: the pass on gene i. */
  method CrowdStep(p: Population, ghost xs: seq<Individual>, ghost keys: seq<Individual -> real>, genotypeQuantity: nat,
                   i: nat, ghost last: nat, ghost L: seq<real>, ghost D: map<Individual, real>,
                   ghost R: map<Individual, Rest>, ghost F: set<Individual>)
    returns (ghost L': seq<real>, ghost D': map<Individual, real>)
    requires i < genotypeQuantity && GenomeLoop(p, xs, keys, genotypeQuantity, i, last, L, D, R, F)
    modifies p`individuals, F
    ensures GenomeLoop(p, xs, keys, genotypeQuantity, i + 1, i, L', D', R, F)
  {
    ghost var ys := p.individuals;
    StepReady(p, xs, keys, genotypeQuantity, i, last, L, D, R, F);
    L', D' := CrowdGene(p, i, genotypeQuantity, keys[i], L, D, R, F, last);
    StepDone(p, xs, keys, genotypeQuantity, i, ys, L', D', R, F);
  }

  /** Before the pass on gene i the front is in the order of i passes and keys[i] reads gene i. */
  lemma StepReady(p: Population, xs: seq<Individual>, keys: seq<Individual -> real>, genotypeQuantity: nat,
                  i: nat, last: nat, L: seq<real>, D: map<Individual, real>,
                  R: map<Individual, Rest>, F: set<Individual>)
    requires i < genotypeQuantity && GenomeLoop(p, xs, keys, genotypeQuantity, i, last, L, D, R, F)
    ensures i < |keys| && p.individuals == PassOrder(xs, keys, i) && KeyIsGene(p.individuals, keys[i], i)
  {
    assert p.individuals == PassOrder(xs, keys, i);
    PassOrderPermutes(xs, keys, i);
    KeyIsGenePermutation(xs, p.individuals, keys[i], i);
  }

  /** After the pass on gene i the front is in the order of i + 1 passes, crowded on gene i. */
  lemma StepDone(p: Population, xs: seq<Individual>, keys: seq<Individual -> real>, genotypeQuantity: nat,
                 i: nat, ys: seq<Individual>, L': seq<real>, D': map<Individual, real>,
                 R: map<Individual, Rest>, F: set<Individual>)
    requires i < genotypeQuantity && KeysMatch(xs, keys, genotypeQuantity)
    requires i < |keys| && ys == PassOrder(xs, keys, i) && p.individuals == SortByKey(ys, keys[i])
    requires Distinct(p.individuals) && forall g :: 0 <= g < genotypeQuantity ==> HasGene(p.individuals, g)
    requires RestsAre(p.individuals, R) && forall x :: x in p.individuals ==> x in F
    requires |p.individuals| > 0 && CrowdedOn(p.individuals, i, L', D')
    requires i == 0 ==> forall x :: x in D' ==> D'[x] == 0.0
    ensures GenomeLoop(p, xs, keys, genotypeQuantity, i + 1, i, L', D', R, F)
  {
    PassOrderNext(xs, keys, i, ys, p.individuals);
  }

  /** One more stable pass extends the order of the passes. */
  lemma PassOrderNext(xs: seq<Individual>, keys: seq<Individual -> real>, i: nat, ys: seq<Individual>, zs: seq<Individual>)
    requires i < |keys| && ys == PassOrder(xs, keys, i) && zs == SortByKey(ys, keys[i])
    ensures InPassOrder(zs, xs, keys, i + 1)
  {
    assert zs == PassOrder(xs, keys, i + 1);
  }

  /** CrowdedOn names the gene by its value. */
  lemma CrowdedOnGene(ys: seq<Individual>, g: nat, g': nat, L: seq<real>, D: map<Individual, real>)
    requires g == g' && CrowdedOn(ys, g, L, D)
    ensures CrowdedOn(ys, g', L, D)
  {
  }

  /**
   * With one gene, as run configures it, the front ends in the order of one
   * stable sort on gene 0 of the members as they were listed before.
   */
  lemma CrowdedFrontOneGene(p: Population, xs: seq<Individual>, R: map<Individual, Rest>, L: seq<real>,
                            D: map<Individual, real>, keys: seq<Individual -> real>)
    requires CrowdedFront(p, xs, 1, R, L, D, keys)
    ensures HasGene(xs, 0) && p.individuals == SortOnGene(xs, 0)
  {
    assert p.individuals == PassOrder(xs, keys, 1);
    KeysMatchPermutation(p.individuals, xs, keys, 1);
    assert KeyIsGene(xs, keys[0], 0);
    SortOnGeneByKey(xs, 0, keys[0]);
  }

  /**
   * After a single-gene assignment every interior member of the front holds
   * its gap alone: at least 0, at most 1 when the genes are not all equal,
   * and exactly 0 when they are; the ends hold sys.maxsize.
   */
  lemma SingleGeneDistances(ys: seq<Individual>, L: seq<real>, D: map<Individual, real>, i: nat)
    requires CrowdedOn(ys, 0, L, D) && (forall x :: x in D ==> D[x] == 0.0) && i < |ys|
    ensures i == 0 || i == |ys| - 1 ==> ys[i].crowdingDistance == Some(MaxSize as real)
    ensures 0 < i < |ys| - 1 ==>
              ys[i].crowdingDistance.Some? && 0.0 <= ys[i].crowdingDistance.value &&
              (L[0] < L[|L| - 1] ==> ys[i].crowdingDistance.value <= 1.0) &&
              (L[0] == L[|L| - 1] ==> ys[i].crowdingDistance.value == 0.0)
  {
    if 0 < i < |ys| - 1 {
      CrowdingGapBounds(L, i);
      assert ys[i].crowdingDistance == Some(D[ys[i]] + CrowdingGap(L, i));
    }
  }

  /**
   * The body of the genome loop: the pass on gene g, a stable sort by
   * key, which gives each member its gene g.
   */
  method CrowdGene(p: Population, g: nat, genotypeQuantity: nat, ghost key: Individual -> real,
                   ghost L: seq<real>, ghost D: map<Individual, real>,
                   ghost R: map<Individual, Rest>, ghost F: set<Individual>, ghost lastGene: nat)
    returns (ghost L': seq<real>, ghost D': map<Individual, real>)
    requires |p.individuals| > 0 && Distinct(p.individuals) && g < genotypeQuantity
    requires forall g' :: 0 <= g' < genotypeQuantity ==> HasGene(p.individuals, g')
    requires KeyIsGene(p.individuals, key, g)
    requires RestsAre(p.individuals, R) && forall x :: x in p.individuals ==> x in F
    requires g == 0 ==> DistancesIn(p.individuals, Zeros(p.individuals))
    requires g > 0 ==> CrowdedOn(p.individuals, lastGene, L, D)
    modifies p`individuals, F
    ensures Distinct(p.individuals)
    ensures forall g' :: 0 <= g' < genotypeQuantity ==> HasGene(p.individuals, g')
    ensures RestsAre(p.individuals, R) && forall x :: x in p.individuals ==> x in F
    ensures p.individuals == SortByKey(old(p.individuals), key)
    ensures CrowdedOn(p.individuals, g, L', D')
    ensures g == 0 ==> forall x :: x in D' ==> D'[x] == 0.0
  {
    SortOnGeneByKey(p.individuals, g, key);
    L', D' := SortAndCrowd(p, g, genotypeQuantity, L, D, R, F, lastGene);
  }

  /** The pass on gene g: the front is sorted on gene g and crowded. */
  method SortAndCrowd(p: Population, g: nat, genotypeQuantity: nat, ghost L: seq<real>, ghost D: map<Individual, real>,
                      ghost R: map<Individual, Rest>, ghost F: set<Individual>, ghost lastGene: nat)
    returns (ghost L': seq<real>, ghost D': map<Individual, real>)
    requires |p.individuals| > 0 && Distinct(p.individuals) && g < genotypeQuantity
    requires forall g' :: 0 <= g' < genotypeQuantity ==> HasGene(p.individuals, g')
    requires RestsAre(p.individuals, R) && forall x :: x in p.individuals ==> x in F
    requires g == 0 ==> DistancesIn(p.individuals, Zeros(p.individuals))
    requires g > 0 ==> CrowdedOn(p.individuals, lastGene, L, D)
    modifies p`individuals, F
    ensures Distinct(p.individuals)
    ensures forall g' :: 0 <= g' < genotypeQuantity ==> HasGene(p.individuals, g')
    ensures RestsAre(p.individuals, R) && forall x :: x in p.individuals ==> x in F
    ensures p.individuals == old(SortOnGene(p.individuals, g))
    ensures CrowdedOn(p.individuals, g, L', D')
    ensures g == 0 ==> forall x :: x in D' ==> D'[x] == 0.0
  {
    if g == 0 {
      D' := Zeros(p.individuals);
    } else {
      CrowdedRecorded(p.individuals, lastGene, L, D);
      D' := Recorded(p.individuals);
    }
    ghost var S := SortOnGene(p.individuals, g);
    SortOnGeneSorted(p.individuals, g);
    L' := Genes(S, g);
    PermutedMembers(p.individuals, S, D', R, F);
    HasGenePermutation(p.individuals, S, genotypeQuantity);
    CrowdingPass(p, g, S, L', D', F);
  }

  // ---------------------------------------------------------------------------
  // All fronts
  // ---------------------------------------------------------------------------

  /**
   * Owner[x] is the index of the member list of Ms that holds x, so no
   * individual is listed in two of them.
   */
  ghost predicate Owned(Ms: seq<seq<Individual>>, Owner: map<Individual, nat>)
  {
    forall k, x :: 0 <= k < |Ms| && x in Ms[k] ==> x in Owner && Owner[x] == k
  }

  /**
   * What crowding_distance_assignment needs of a front with members xs: each
   * listed once, a gene at every index below genotypeQuantity, and at least
   * one member when there is a gene.
   */
  ghost predicate FrontReady(xs: seq<Individual>, genotypeQuantity: nat, R: map<Individual, Rest>)
    reads xs
  {
    (genotypeQuantity > 0 ==> |xs| > 0) && Distinct(xs) &&
    (forall g :: 0 <= g < genotypeQuantity ==> HasGene(xs, g)) && RestsAre(xs, R)
  }

  /** Lists with the same multiset have the same members. */
  lemma SameMembers(xs: seq<Individual>, ys: seq<Individual>)
    requires multiset(xs) == multiset(ys)
    ensures forall x :: x in xs <==> x in ys
  {
    forall x ensures x in xs <==> x in ys {
      assert x in xs <==> x in multiset(xs);
    }
  }

  /** The arguments of CrowdedFront, gathered into one value for the two-state lemma below. */
  datatype FrontCrowding = FrontCrowding(p: Population, xs: seq<Individual>, genotypeQuantity: nat,
                                         R: map<Individual, Rest>, L: seq<real>, D: map<Individual, real>,
                                         keys: seq<Individual -> real>)

  /** CrowdedFront of p holds on as long as p, its members and their genomes are left alone. */
  twostate lemma CrowdedFrontKept(c: FrontCrowding)
    requires old(CrowdedFront(c.p, c.xs, c.genotypeQuantity, c.R, c.L, c.D, c.keys)) && unchanged(c.p)
    requires forall x :: x in old(c.p.individuals) ==> unchanged(x) && unchanged(x.genome)
    ensures CrowdedFront(c.p, c.xs, c.genotypeQuantity, c.R, c.L, c.D, c.keys)
  {
    var ys := c.p.individuals;
    assert KeysMatch(ys, c.keys, c.genotypeQuantity);
    assert RestsAre(ys, c.R);
    if c.genotypeQuantity > 0 {
      assert CrowdedOn(ys, c.genotypeQuantity - 1, c.L, c.D);
    } else {
      assert DistancesIn(ys, Zeros(ys));
    }
  }
}
