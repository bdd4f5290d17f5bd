// nsga2/sample/population.py: the population of the two-objective prototype,
// its members, its fronts (plain lists of members) and the two operations on
// them: drawing a first population of grid points and sorting every front by
// crowding distance.
module SamplePopulations {
  import opened Common
  import opened Random
  import opened SampleIndividuals

  /** The names start_new_population hands out: the alphabet six times over. */
  const Names: string :=
    "ABCDEFGHIJKLMNOPQRSTUVWXYZABCDEFGHIJKLMNOPQRSTUVWXYZABCDEFGHIJKLMNOPQRSTUVWXYZ" +
    "ABCDEFGHIJKLMNOPQRSTUVWXYZABCDEFGHIJKLMNOPQRSTUVWXYZABCDEFGHIJKLMNOPQRSTUVWXYZ"

  /**
   * The key list.sort(key=lambda x: x.crowding_distance, reverse=True) orders
   * by, read off the members once: the negated crowding distance, so that an
   * ascending stable sort on it is Python's descending stable sort.
   */
  function DistanceKey(xs: seq<Individual>): (key: Individual -> real)
    reads xs`crowdingDistance
    ensures forall x :: x in xs ==> key(x) == -x.crowdingDistance
  {
    var m := map x | x in xs :: -x.crowdingDistance;
    x => if x in m then m[x] else 0.0
  }

  /** A front sorted as sort_fronts_by_crowding_distance sorts it. */
  function ByDistance(xs: seq<Individual>): seq<Individual>
    reads xs`crowdingDistance
  {
    SortByKey(xs, DistanceKey(xs))
  }

  /**
   * Sorting a front by crowding distance permutes it, leaves the distances
   * non-increasing, and keeps members of equal distance in their order.
   */
  lemma ByDistanceSorted(xs: seq<Individual>)
    ensures multiset(ByDistance(xs)) == multiset(xs) && |ByDistance(xs)| == |xs|
    ensures forall a, b :: 0 <= a < b < |ByDistance(xs)| ==>
              ByDistance(xs)[a].crowdingDistance >= ByDistance(xs)[b].crowdingDistance
    ensures forall v :: WithKey(ByDistance(xs), DistanceKey(xs), v) == WithKey(xs, DistanceKey(xs), v)
  {
    var key := DistanceKey(xs);
    var r := ByDistance(xs);
    SortByKeySorted(xs, key);
    SortByKeyLength(xs, key);
    forall a, b | 0 <= a < b < |r| ensures r[a].crowdingDistance >= r[b].crowdingDistance {
      assert r[a] in multiset(xs) && r[b] in multiset(xs);
      assert key(r[a]) <= key(r[b]);
    }
    forall v ensures WithKey(r, key, v) == WithKey(xs, key, v) {
      SortByKeyStable(xs, key, v);
    }
  }

  class Population {
    const populationSize: int
    const offspringSize: int
    const xMinValue: int
    const xMaxValue: int
    const yMinValue: int
    const yMaxValue: int
    var individuals: seq<Individual>
    /** The fronts, each a list of members. */
    var fronts: seq<seq<Individual>>
    var offspring: seq<Individual>

    constructor (populationSize: int, offspringSize: int, xMinValue: int, xMaxValue: int,
                 yMinValue: int, yMaxValue: int)
      ensures this.populationSize == populationSize && this.offspringSize == offspringSize
      ensures this.xMinValue == xMinValue && this.xMaxValue == xMaxValue
      ensures this.yMinValue == yMinValue && this.yMaxValue == yMaxValue
      ensures individuals == [] && fronts == [] && offspring == []
    {
      this.populationSize := populationSize;
      this.offspringSize := offspringSize;
      this.xMinValue := xMinValue;
      this.xMaxValue := xMaxValue;
      this.yMinValue := yMinValue;
      this.yMaxValue := yMaxValue;
      individuals := [];
      fronts := [];
      offspring := [];
    }

    /**
     * x is the member start_new_population makes in turn i: named names[i],
     * with x = randint(x_min_value, x_max_value) from the draw u and
     * y = randint(y_min_value, y_max_value) from the draw v after it, both
     * bounds included, and nothing counted or listed yet (the draws lie in
     * [0, 1) and both ranges are non-empty).
     */
    ghost predicate GridMember(x: Individual, i: nat, u: real, v: real)
      reads x
    {
      0.0 <= u < 1.0 && 0.0 <= v < 1.0 && xMinValue <= xMaxValue && yMinValue <= yMaxValue &&
      i < |Names| && x.name == [Names[i]] &&
      x.xValue == RandIntOf(u, xMinValue, xMaxValue) && x.yValue == RandIntOf(v, yMinValue, yMaxValue) &&
      xMinValue <= x.xValue <= xMaxValue && yMinValue <= x.yValue <= yMaxValue &&
      x.crowdingDistance == 0.0 && x.dominationCount == 0 && x.dominatedBy == []
    }

    /**
     * `start_new_population`: population_size new members appended after the
     * existing ones. Python raises IndexError past the last name and
     * ValueError on an empty randint range.
     */
    method StartNewPopulation(rng: RandomSource) returns (ghost added: seq<Individual>)
      requires rng.Valid() && populationSize <= |Names|
      requires populationSize > 0 ==> xMinValue <= xMaxValue && yMinValue <= yMaxValue
      modifies this`individuals, rng`drawn
      ensures |added| == (if populationSize < 0 then 0 else populationSize)
      ensures individuals == old(individuals) + added && rng.drawn == old(rng.drawn) + 2 * |added|
      ensures forall k :: 0 <= k < |added| ==>
                fresh(added[k]) &&
                GridMember(added[k], k, rng.stream(old(rng.drawn) + 2 * k), rng.stream(old(rng.drawn) + 2 * k + 1))
    {
      added := [];
      var i := 0;
      while i < populationSize
        invariant 0 <= i == |added| && (i <= populationSize || (populationSize <= 0 && i == 0))
        invariant individuals == old(individuals) + added && rng.drawn == old(rng.drawn) + 2 * i
        invariant forall k :: 0 <= k < |added| ==>
                    fresh(added[k]) &&
                    GridMember(added[k], k, rng.stream(old(rng.drawn) + 2 * k), rng.stream(old(rng.drawn) + 2 * k + 1))
      {
        var x := AddGridMember(rng, i);
        added := added + [x];
        i := i + 1;
      }
    }

    /** One turn of the loop of start_new_population: the member named names[i]. */
    method AddGridMember(rng: RandomSource, i: nat) returns (ghost x: Individual)
      requires rng.Valid() && i < |Names| && xMinValue <= xMaxValue && yMinValue <= yMaxValue
      modifies this`individuals, rng`drawn
      ensures individuals == old(individuals) + [x] && rng.drawn == old(rng.drawn) + 2
      ensures fresh(x) && GridMember(x, i, rng.stream(old(rng.drawn)), rng.stream(old(rng.drawn) + 1))
    {
      var xValue := rng.RandInt(xMinValue, xMaxValue);
      var yValue := rng.RandInt(yMinValue, yMaxValue);
      var newIndividual := new Individual([Names[i]], xValue, yValue);
      individuals := individuals + [newIndividual];
      x := newIndividual;
    }

    /**
     * `sort_fronts_by_crowding_distance`: every front sorted in place by
     * descending crowding distance, stably, as list.sort with reverse=True.
     */
    method SortFrontsByCrowdingDistance()
      modifies this`fronts
      ensures |fronts| == old(|fronts|)
      ensures forall k :: 0 <= k < |fronts| ==> fronts[k] == ByDistance(old(fronts[k]))
    {
      var k := 0;
      while k < |fronts|
        invariant 0 <= k <= |fronts| == old(|fronts|)
        invariant forall j :: 0 <= j < k ==> fronts[j] == ByDistance(old(fronts[j]))
        invariant forall j :: k <= j < |fronts| ==> fronts[j] == old(fronts[j])
      {
        fronts := fronts[k := ByDistance(fronts[k])];
        k := k + 1;
      }
    }
  }
}
