// nsga2/sample/nsga2.py: the main class of the two-objective prototype. It
// owns one population and offers the two steps of a generation, the
// non-dominated sorting into fronts and the crowding distance sorting that
// cuts the fronts down to the size of the next generation, and a selection
// sort of a list of members by x + y.
module SampleNsga2 {
  import opened Common
  import opened Operators
  import opened Ranking
  import opened SampleIndividuals
  import opened SamplePopulations
  import opened SampleSorting
  import opened SampleCrowding

  /** The key sort_individuals orders by: x + y. */
  function Sum(x: Individual): int
  {
    x.xValue + x.yValue
  }

  /** Sum as a sort key. */
  function SumKey(x: Individual): real
  {
    Sum(x) as real
  }

  // ---------------------------------------------------------------------------
  // The step of sort_individuals on values: the lowest member moves to slot i
  // ---------------------------------------------------------------------------

  /**
   * pop(m) followed by insert(i, ...) with i <= m: the member at m moves to
   * slot i and the ones from i up to m move one slot right.
   */
  function Rotated<T>(s: seq<T>, i: nat, m: nat): (r: seq<T>)
    requires i <= m < |s|
    ensures |r| == |s|
    ensures forall k :: 0 <= k < i ==> r[k] == s[k]
    ensures r[i] == s[m]
    ensures forall k :: i < k <= m ==> r[k] == s[k - 1]
    ensures forall k :: m < k < |s| ==> r[k] == s[k]
  {
    s[..i] + [s[m]] + s[i..m] + s[m + 1..]
  }

  /** Moving one member permutes the list. */
  lemma RotatedPermutes<T>(s: seq<T>, i: nat, m: nat)
    requires i <= m < |s|
    ensures multiset(Rotated(s, i, m)) == multiset(s)
  {
    assert s == s[..i] + s[i..m] + [s[m]] + s[m + 1..];
  }

  /** The members of s + t with key k are those of s followed by those of t. */
  lemma {:induction false} WithKeyConcat<T>(s: seq<T>, t: seq<T>, key: T -> real, k: real)
    ensures WithKey(s + t, key, k) == WithKey(s, key, k) + WithKey(t, key, k)
  {
    if s == [] {
      assert s + t == t;
    } else {
      var head := if key(s[0]) == k then [s[0]] else [];
      assert (s + t)[0] == s[0] && (s + t)[1..] == s[1..] + t;
      WithKeyConcat(s[1..], t, key, k);
      assert WithKey(s + t, key, k) == head + (WithKey(s[1..], key, k) + WithKey(t, key, k));
      assert WithKey(s, key, k) == head + WithKey(s[1..], key, k);
    }
  }

  /** No member of s has key k when every key in s is larger. */
  lemma {:induction false} WithKeyAbove<T>(s: seq<T>, key: T -> real, k: real)
    requires forall j :: 0 <= j < |s| ==> k < key(s[j])
    ensures WithKey(s, key, k) == []
  {
    if s != [] {
      WithKeyAbove(s[1..], key, k);
    }
  }

  /**
   * Moving the member at m ahead of members with larger keys keeps, for
   * every key, the members with that key in their order.
   */
  lemma RotatedStable<T>(s: seq<T>, i: nat, m: nat, key: T -> real, k: real)
    requires i <= m < |s|
    requires forall j :: i <= j < m ==> key(s[m]) < key(s[j])
    ensures WithKey(Rotated(s, i, m), key, k) == WithKey(s, key, k)
  {
    var head, moved, middle, tail := s[..i], [s[m]], s[i..m], s[m + 1..];
    assert s == head + middle + moved + tail;
    assert Rotated(s, i, m) == head + moved + middle + tail;
    WithKeyConcat(head + middle + moved, tail, key, k);
    WithKeyConcat(head + middle, moved, key, k);
    WithKeyConcat(head, middle, key, k);
    WithKeyConcat(head + moved + middle, tail, key, k);
    WithKeyConcat(head + moved, middle, key, k);
    WithKeyConcat(head, moved, key, k);
    if key(s[m]) == k {
      WithKeyAbove(middle, key, k);
    } else {
      assert WithKey(moved, key, k) == [] by {
        assert moved[1..] == [];
      }
    }
  }

  /**
   * The state of sort_individuals before turn i: the first i slots hold the
   * i lowest members in order and their sums are overwritten by sys.maxsize;
   * the sums of the other slots are their members' and lie below it.
   */
  ghost predicate Selecting(s: seq<Individual>, sums: seq<int>, i: nat)
  {
    |sums| == |s| && i <= |s| &&
    (forall k :: 0 <= k < i ==> sums[k] == MaxSize) &&
    (forall k :: i <= k < |s| ==> sums[k] == Sum(s[k]) < MaxSize) &&
    (forall p, q :: 0 <= p < q < i ==> Sum(s[p]) <= Sum(s[q])) &&
    (forall p, q :: 0 <= p < i <= q < |s| ==> Sum(s[p]) <= Sum(s[q]))
  }

  /**
   * One turn: the first lowest sum lies among the unchosen slots, every
   * unchosen member before it has a larger sum, and moving its member to
   * slot i while the sums gain sys.maxsize in front keeps the state.
   */
  lemma SelectionStep(s: seq<Individual>, sums: seq<int>, i: nat, m: nat)
    requires Selecting(s, sums, i) && i < |s| && m < |s|
    requires forall j :: 0 <= j < |sums| ==> sums[m] <= sums[j]
    requires forall j :: 0 <= j < m ==> sums[m] < sums[j]
    ensures i <= m && Selecting(Rotated(s, i, m), [MaxSize] + sums[..m] + sums[m + 1..], i + 1)
    ensures forall j :: i <= j < m ==> SumKey(s[m]) < SumKey(s[j])
  {
    assert sums[m] <= sums[i] < MaxSize;
    var r, sums' := Rotated(s, i, m), [MaxSize] + sums[..m] + sums[m + 1..];
    forall k | i + 1 <= k < |r| ensures sums'[k] == Sum(r[k]) < MaxSize {
      if k <= m {
        assert sums'[k] == sums[k - 1];
      } else {
        assert sums'[k] == sums[k];
      }
    }
  }

  class NSGA2 {
    static const PopulationSize: int := 10
    static const OffspringSize: int := 5
    static const XMinValue: int := 0
    static const XMaxValue: int := 10
    static const YMinValue: int := 0
    static const YMaxValue: int := 10
    static const Generations: int := 10

    const population: Population

    /** A population of the class's sizes and bounds, with no members yet. */
    constructor ()
      ensures fresh(population)
      ensures population.populationSize == PopulationSize && population.offspringSize == OffspringSize
      ensures population.xMinValue == XMinValue && population.xMaxValue == XMaxValue
      ensures population.yMinValue == YMinValue && population.yMaxValue == YMaxValue
      ensures population.individuals == [] && population.fronts == [] && population.offspring == []
    {
      population := new Population(PopulationSize, OffspringSize, XMinValue, XMaxValue, YMinValue, YMaxValue);
    }

    /**
     * `non_dominated_sorting` on the first POPULATION_SIZE members S, which
     * are distinct and fresh from their constructor: every member learns
     * whom it dominates and by how many it is dominated, and the fronts
     * become the layers F of S, peeled off by dominance, each non-empty.
     */
    method NonDominatedSorting() returns (ghost F: seq<seq<nat>>)
      requires PopulationSize <= |population.individuals| && population.fronts == []
      requires Distinct(population.individuals[..PopulationSize])
      requires forall x :: 0 <= x < PopulationSize ==> Uncompared(population.individuals[..PopulationSize], x)
      modifies population`fronts
      modifies population.individuals[..PopulationSize]`dominatedBy, population.individuals[..PopulationSize]`dominationCount
      ensures Layered(population.individuals[..PopulationSize], F, population.fronts)
    {
      F := SortFronts(population.individuals[..PopulationSize], population);
    }

    /**
     * `crowding_distance_sorting`: keeps the fewest leading fronts that hold
     * OFFSPRING_SIZE members, adds to every kept member its crowding
     * contribution within its front, sorts each kept front by descending
     * crowding distance and cuts the tail of the last one, so that
     * offspring_size members remain. The fronts must not share members, and
     * each kept front must have distinct smallest and largest values on both
     * axes (the source raises IndexError or ZeroDivisionError otherwise).
     */
    method CrowdingDistanceSorting() returns (ghost kept: seq<seq<Individual>>, ghost sorted: seq<seq<Individual>>)
      requires OffspringSize <= Total(population.fronts, |population.fronts|)
      requires Separate(population.fronts[..Exceeded(population.fronts, OffspringSize)])
      requires forall k :: 0 <= k < Exceeded(population.fronts, OffspringSize) ==> Spread(population.fronts[k])
      modifies population`fronts, Members(population.fronts[..Exceeded(population.fronts, OffspringSize)])`crowdingDistance
      ensures kept == old(population.fronts[..Exceeded(population.fronts, OffspringSize)])
      ensures |sorted| == |kept|
      ensures forall k :: 0 <= k < |kept| ==> sorted[k] == ByDistance(kept[k]) && |sorted[k]| == |kept[k]|
      ensures population.fronts == Cut(sorted, population.offspringSize)
    {
      var exceededFrontIndex := ExceededFrontIndex(population.fronts, OffspringSize);
      kept := KeepAndCrowd(exceededFrontIndex);
      sorted := SortAndCut();
    }

    /**
     * The fronts from exceededFrontIndex on are deleted and every member of
     * the kept fronts adds its contribution to its crowding distance.
     */
    method KeepAndCrowd(exceededFrontIndex: nat) returns (ghost kept: seq<seq<Individual>>)
      requires exceededFrontIndex <= |population.fronts|
      requires Separate(population.fronts[..exceededFrontIndex])
      requires forall k :: 0 <= k < exceededFrontIndex ==> Spread(population.fronts[k])
      modifies population`fronts, Members(population.fronts[..exceededFrontIndex])`crowdingDistance
      ensures kept == old(population.fronts[..exceededFrontIndex]) && population.fronts == kept
      ensures forall k, t :: 0 <= k < |kept| && 0 <= t < |kept[k]| ==>
                kept[k][t].crowdingDistance == old(population.fronts[k][t].crowdingDistance) + Contribution(kept[k], kept[k][t])
    {
      population.fronts := population.fronts[..exceededFrontIndex];
      kept := population.fronts;
      CrowdKept();
    }

    /**
     * The crowding loop of crowding_distance_sorting, over the kept fronts,
     * stated position by position.
     */
    method CrowdKept()
      requires Separate(population.fronts)
      requires forall k :: 0 <= k < |population.fronts| ==> Spread(population.fronts[k])
      modifies Members(population.fronts)`crowdingDistance
      ensures forall k, t :: 0 <= k < |population.fronts| && 0 <= t < |population.fronts[k]| ==>
                population.fronts[k][t].crowdingDistance
                == old(population.fronts[k][t].crowdingDistance) + Contribution(population.fronts[k], population.fronts[k][t])
    {
      CrowdFronts(population.fronts);
    }

    /**
     * The last two parts of crowding_distance_sorting: every front is sorted
     * by descending crowding distance, and the last one is cut.
     */
    method SortAndCut() returns (ghost sorted: seq<seq<Individual>>)
      requires 0 < |population.fronts|
      modifies population`fronts
      ensures |sorted| == old(|population.fronts|)
      ensures forall k :: 0 <= k < |sorted| ==>
                sorted[k] == ByDistance(old(population.fronts[k])) && |sorted[k]| == old(|population.fronts[k]|)
      ensures population.fronts == Cut(sorted, population.offspringSize)
    {
      population.SortFrontsByCrowdingDistance();
      sorted := population.fronts;
      forall k | 0 <= k < |sorted| ensures |sorted[k]| == old(|population.fronts[k]|) {
        ByDistanceSorted(old(population.fronts[k]));
      }
      CutLastFront();
    }

    /**
     * The end of crowding_distance_sorting: the members of the fronts before
     * the last are counted, and the last front keeps offspring_size less
     * that count of its first members (`del last_front[n:]`).
     */
    method CutLastFront()
      requires 0 < |population.fronts|
      modifies population`fronts
      ensures population.fronts == Cut(old(population.fronts), population.offspringSize)
    {
      var lastFront := population.fronts[|population.fronts| - 1];
      var individualCounter := CountMembers(population.fronts, |population.fronts| - 1);
      var remainingIndividuals := population.offspringSize - individualCounter;
      var amountToRemove := |lastFront| - remainingIndividuals;
      lastFront := PyPrefix(lastFront, |lastFront| - amountToRemove);
      population.fronts := population.fronts[|population.fronts| - 1 := lastFront];
    }

    /**
     * `sort_individuals`: a selection sort by x + y over the list and a
     * parallel list of sums. Each turn finds the first lowest sum, pops it
     * and its member, inserts the member at the first unsorted slot and
     * sys.maxsize at the front of the sums. The list ends sorted by x + y,
     * a permutation of itself, members of equal sum in their former order;
     * every sum must lie below sys.maxsize.
     */
    method SortIndividuals(individualList: array<Individual>)
      requires forall k :: 0 <= k < individualList.Length ==> Sum(individualList[k]) < MaxSize
      modifies individualList
      ensures multiset(individualList[..]) == multiset(old(individualList[..]))
      ensures SortedBy(individualList[..], SumKey)
      ensures forall v :: WithKey(individualList[..], SumKey, v) == WithKey(old(individualList[..]), SumKey, v)
    {
      var n := individualList.Length;
      var sumList := SumsOf(individualList);
      ghost var original := individualList[..];
      for i := 0 to n
        invariant Selecting(individualList[..], sumList, i)
        invariant multiset(individualList[..]) == multiset(original)
        invariant forall v :: WithKey(individualList[..], SumKey, v) == WithKey(original, SumKey, v)
      {
        var lowestIndex := LowestIndex(sumList);
        ghost var before := individualList[..];
        SelectionStep(before, sumList, i, lowestIndex);
        sumList := [MaxSize] + sumList[..lowestIndex] + sumList[lowestIndex + 1..];
        MoveToSlot(individualList, lowestIndex, i);
        RotatedPermutes(before, i, lowestIndex);
        forall v ensures WithKey(individualList[..], SumKey, v) == WithKey(before, SumKey, v) {
          RotatedStable(before, i, lowestIndex, SumKey, v);
        }
      }
    }

    /** The first loop of sort_individuals: the sums x + y, in list order. */
    method SumsOf(individualList: array<Individual>) returns (sumList: seq<int>)
      ensures |sumList| == individualList.Length
      ensures forall k :: 0 <= k < |sumList| ==> sumList[k] == Sum(individualList[k])
    {
      sumList := [];
      for k := 0 to individualList.Length
        invariant |sumList| == k
        invariant forall j :: 0 <= j < k ==> sumList[j] == Sum(individualList[j])
      {
        var xySum := individualList[k].xValue + individualList[k].yValue;
        sumList := sumList + [xySum];
      }
    }

    /** The inner loop of sort_individuals: the index of the first lowest sum. */
    method LowestIndex(sumList: seq<int>) returns (lowestIndex: nat)
      requires 0 < |sumList|
      ensures lowestIndex < |sumList|
      ensures forall j :: 0 <= j < |sumList| ==> sumList[lowestIndex] <= sumList[j]
      ensures forall j :: 0 <= j < lowestIndex ==> sumList[lowestIndex] < sumList[j]
    {
      lowestIndex := 0;
      var lowest := sumList[0];
      for j := 1 to |sumList|
        invariant lowestIndex < j && lowest == sumList[lowestIndex]
        invariant forall k :: 0 <= k < j ==> lowest <= sumList[k]
        invariant forall k :: 0 <= k < lowestIndex ==> lowest < sumList[k]
      {
        if sumList[j] < lowest {
          lowestIndex := j;
          lowest := sumList[j];
        }
      }
    }

    /** individual_list.pop(m) and individual_list.insert(i, ...) for i <= m. */
    method MoveToSlot(individualList: array<Individual>, m: nat, i: nat)
      requires i <= m < individualList.Length
      modifies individualList
      ensures individualList[..] == Rotated(old(individualList[..]), i, m)
    {
      var lowest := individualList[m];
      forall k | i < k <= m {
        individualList[k] := individualList[k - 1];
      }
      individualList[i] := lowest;
    }
  }
}
