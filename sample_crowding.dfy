// The crowding distance sorting of nsga2/sample/nsga2.py, piece by piece:
// which fronts are kept, what every kept member adds to its crowding
// distance, and where the last kept front is cut.
module SampleCrowding {
  import opened Common
  import opened Operators
  import opened SampleIndividuals

  // ---------------------------------------------------------------------------
  // Which fronts are kept
  // ---------------------------------------------------------------------------

  /**
   * The number of fronts kept for a next generation of size members: the
   * least e >= 1 whose first e fronts hold at least size members. The first
   * front is kept even when size <= 0.
   */
  function Exceeded<T>(fs: seq<seq<T>>, size: int): (e: nat)
    requires 0 < |fs| && size <= Total(fs, |fs|)
    ensures 1 <= e <= |fs| && size <= Total(fs, e)
    ensures forall j :: 1 <= j < e ==> Total(fs, j) < size
  {
    ExceededFrom(fs, size, 1)
  }

  /** The least e >= j whose first e fronts hold at least size members. */
  function ExceededFrom<T>(fs: seq<seq<T>>, size: int, j: nat): (e: nat)
    requires 1 <= j <= |fs| && size <= Total(fs, |fs|)
    ensures j <= e <= |fs| && size <= Total(fs, e)
    ensures forall k :: j <= k < e ==> Total(fs, k) < size
    decreases |fs| - j
  {
    if size <= Total(fs, j) then j else ExceededFrom(fs, size, j + 1)
  }

  /**
   * The search loop of crowding_distance_sorting: individual_quantity sums
   * the sizes of the fronts until it reaches offspring_size, and the index
   * after the last front summed is where the cut falls. With size <= 0 the
   * first turn records index 0, which the loop takes for "not found yet",
   * and the second turn records 1.
   */
  method ExceededFrontIndex<T>(fronts: seq<seq<T>>, offspringSize: int) returns (exceededFrontIndex: nat)
    requires 0 < |fronts| && offspringSize <= Total(fronts, |fronts|)
    ensures exceededFrontIndex == Exceeded(fronts, offspringSize)
  {
    var individualQuantity := 0;
    exceededFrontIndex := 0;
    var i := 0;
    while exceededFrontIndex == 0
      invariant 0 <= i <= |fronts| + 1
      invariant exceededFrontIndex == 0 ==>
                  if offspringSize <= 0 then i <= 1 && individualQuantity == 0
                  else i <= |fronts| && individualQuantity == Total(fronts, i) &&
                       (i == 0 || i <= Exceeded(fronts, offspringSize))
      invariant exceededFrontIndex != 0 ==> exceededFrontIndex == Exceeded(fronts, offspringSize)
      decreases |fronts| + 1 - i, if exceededFrontIndex == 0 then 1 else 0
    {
      if individualQuantity >= offspringSize {
        exceededFrontIndex := i;
      } else {
        individualQuantity := individualQuantity + |fronts[i]|;
      }
      i := i + 1;
    }
  }

  /** The counting loop of crowding_distance_sorting: the sizes of the first n fronts summed. */
  method CountMembers<T>(fronts: seq<seq<T>>, n: nat) returns (individualCounter: nat)
    requires n <= |fronts|
    ensures individualCounter == Total(fronts, n)
  {
    individualCounter := 0;
    for i := 0 to n
      invariant individualCounter == Total(fronts, i)
    {
      individualCounter := individualCounter + |fronts[i]|;
    }
  }

  /**
   * The fronts after the cut: every front but the last whole, and the last
   * one's first size - Total(fs, |fs| - 1) members, cut as
   * `del last_front[n:]` cuts (a negative n counts from the end).
   */
  function Cut<T>(fs: seq<seq<T>>, size: int): (r: seq<seq<T>>)
    requires 0 < |fs|
  {
    fs[..|fs| - 1] + [PyPrefix(fs[|fs| - 1], size - Total(fs, |fs| - 1))]
  }

  /** Fronts of the same sizes hold the same number of members. */
  lemma {:induction false} TotalOfSameSizes<T>(a: seq<seq<T>>, b: seq<seq<T>>, j: nat)
    requires j <= |a| && j <= |b| && forall k :: 0 <= k < j ==> |a[k]| == |b[k]|
    ensures Total(a, j) == Total(b, j)
  {
    if j > 0 {
      TotalOfSameSizes(a, b, j - 1);
    }
  }

  /**
   * Cutting the kept fronts, whatever order each is in, leaves exactly size
   * members: the whole fronts before the last hold fewer than size, and the
   * last one supplies the rest.
   */
  lemma CutHoldsSize<T>(fs: seq<seq<T>>, size: int, kept: seq<seq<T>>)
    requires 0 < |fs| && 0 <= size <= Total(fs, |fs|)
    requires |kept| == Exceeded(fs, size) && forall k :: 0 <= k < |kept| ==> |kept[k]| == |fs[k]|
    ensures Total(Cut(kept, size), |kept|) == size
  {
    var e := |kept|;
    var r := Cut(kept, size);
    TotalOfSameSizes(fs, kept, e);
    TotalOfSameSizes(fs, kept, e - 1);
    TotalOfSameSizes(r, kept, e - 1);
    var rest := size - Total(kept, e - 1);
    assert 0 <= rest <= |kept[e - 1]| by {
      if e > 1 {
        assert Total(fs, e - 1) < size;
      }
    }
    assert |r[e - 1]| == rest;
  }

  // ---------------------------------------------------------------------------
  // The crowding distance of a member
  // ---------------------------------------------------------------------------

  /** The x values of a front, in the front's order. */
  function Xs(front: seq<Individual>): (r: seq<real>)
    ensures |r| == |front|
  {
    if front == [] then [] else Xs(front[..|front| - 1]) + [front[|front| - 1].xValue as real]
  }

  /** The y values of a front, in the front's order. */
  function Ys(front: seq<Individual>): (r: seq<real>)
    ensures |r| == |front|
  {
    if front == [] then [] else Ys(front[..|front| - 1]) + [front[|front| - 1].yValue as real]
  }

  /** Every member's value is at its own position of Xs and Ys. */
  lemma {:induction false} CoordinatesAt(front: seq<Individual>, k: nat)
    requires k < |front|
    ensures Xs(front)[k] == front[k].xValue as real && Ys(front)[k] == front[k].yValue as real
  {
    if k < |front| - 1 {
      CoordinatesAt(front[..|front| - 1], k);
    }
  }

  /** list.sort() on numbers: the values in ascending order. */
  function Ascending(vs: seq<real>): (r: seq<real>)
    ensures multiset(r) == multiset(vs) && |r| == |vs| && SortedBy(r, Identity)
  {
    SortByKeySorted(vs, Identity);
    SortByKeyLength(vs, Identity);
    SortByKey(vs, Identity)
  }

  /**
   * The crowding distance of a front can be computed: min() and max() of its
   * sorted values, the first and the last, differ on both axes. Otherwise
   * the source divides by zero or, for a front of one member, reads past
   * the end of the value lists.
   */
  predicate Spread(front: seq<Individual>)
  {
    0 < |front| &&
    Ascending(Xs(front))[0] < Ascending(Xs(front))[|front| - 1] &&
    Ascending(Ys(front))[0] < Ascending(Ys(front))[|front| - 1]
  }

  /** min() and max() of sorted values are the first and the last. */
  lemma SortedExtremes(vs: seq<real>)
    requires 0 < |vs| && SortedBy(vs, Identity)
    ensures MinOf(vs) == vs[0] && MaxOf(vs) == vs[|vs| - 1]
  {
    var least, most := MinOf(vs), MaxOf(vs);
    assert least <= vs[0] && vs[|vs| - 1] <= most;
    var i :| 0 <= i < |vs| && vs[i] == least;
    assert Identity(vs[0]) <= Identity(vs[i]);
    var j :| 0 <= j < |vs| && vs[j] == most;
    assert Identity(vs[j]) <= Identity(vs[|vs| - 1]);
  }

  /**
   * What a member whose value on one axis is v adds for that axis: the gap
   * between the values beside the first occurrence of v in the sorted values
   * vs, over their spread (max() - min(), the last value less the first).
   */
  function Gap(vs: seq<real>, v: real): real
    requires v in vs && vs[0] < vs[|vs| - 1]
  {
    var index := IndexOf(vs, v);
    (vs[RightNeighbour(|vs|, index)] - vs[LeftNeighbour(index)]) / (vs[|vs| - 1] - vs[0])
  }

  /** The position of the left neighbour: the one before, or the position itself at the start. */
  function LeftNeighbour(index: nat): (left: nat)
    ensures left <= index
  {
    if index == 0 then 0 else index - 1
  }

  /**
   * The position of the right neighbour among n values: the one after, or
   * the position itself at the end; at the start it is always 1.
   */
  function RightNeighbour(n: nat, index: nat): (right: nat)
    requires 1 < n && index < n
    ensures index <= right < n
  {
    if index == 0 then 1 else if index == n - 1 then index else index + 1
  }

  /** On sorted values each axis adds between 0 and 1. */
  lemma GapBounds(vs: seq<real>, v: real)
    requires v in vs && vs[0] < vs[|vs| - 1] && SortedBy(vs, Identity)
    ensures 0.0 <= Gap(vs, v) <= 1.0
  {
    var index := IndexOf(vs, v);
    var left, right := LeftNeighbour(index), RightNeighbour(|vs|, index);
    assert Identity(vs[0]) <= Identity(vs[left]) <= Identity(vs[right]) <= Identity(vs[|vs| - 1]);
    Fraction(vs[right] - vs[left], vs[|vs| - 1] - vs[0]);
  }

  /**
   * At either end of the sorted values the member is its own missing
   * neighbour: the first value adds the gap up to the second, the last
   * (when it differs from the first) the gap down from the one before it.
   */
  lemma GapAtEnds(vs: seq<real>, v: real)
    requires v in vs && vs[0] < vs[|vs| - 1] && SortedBy(vs, Identity)
    ensures v == vs[0] ==> Gap(vs, v) == (vs[1] - v) / (vs[|vs| - 1] - vs[0])
    ensures v == vs[|vs| - 1] ==> Gap(vs, v) == (v - vs[IndexOf(vs, v) - 1]) / (vs[|vs| - 1] - vs[0])
  {
    var index := IndexOf(vs, v);
    if v == vs[|vs| - 1] && index < |vs| - 1 {
      assert Identity(vs[index]) <= Identity(vs[index + 1]) <= Identity(vs[|vs| - 1]);
    }
  }

  /** A member's values are among the sorted values of its front. */
  lemma AmongSorted(front: seq<Individual>, x: Individual)
    requires x in front
    ensures x.xValue as real in Ascending(Xs(front)) && x.yValue as real in Ascending(Ys(front))
  {
    var k :| 0 <= k < |front| && front[k] == x;
    CoordinatesAt(front, k);
    assert Xs(front)[k] in multiset(Xs(front)) && Ys(front)[k] in multiset(Ys(front));
  }

  /** What a member x of a front adds to its crowding distance: one gap per axis. */
  function Contribution(front: seq<Individual>, x: Individual): real
    requires x in front && Spread(front)
  {
    AmongSorted(front, x);
    Gap(Ascending(Xs(front)), x.xValue as real) + Gap(Ascending(Ys(front)), x.yValue as real)
  }

  /** Each member of a front the source can crowd adds between 0 and 2. */
  lemma ContributionBounds(front: seq<Individual>, x: Individual)
    requires x in front && Spread(front)
    ensures 0.0 <= Contribution(front, x) <= 2.0
  {
    AmongSorted(front, x);
    GapBounds(Ascending(Xs(front)), x.xValue as real);
    GapBounds(Ascending(Ys(front)), x.yValue as real);
  }

  // ---------------------------------------------------------------------------
  // Crowding the kept fronts
  // ---------------------------------------------------------------------------

  /** The loop that lists the x and y values of a front. */
  method Coordinates(front: seq<Individual>) returns (xValues: seq<real>, yValues: seq<real>)
    ensures xValues == Xs(front) && yValues == Ys(front)
  {
    xValues, yValues := [], [];
    for j := 0 to |front|
      invariant xValues == Xs(front[..j]) && yValues == Ys(front[..j])
    {
      assert front[..j + 1][..j] == front[..j];
      xValues := xValues + [front[j].xValue as real];
      yValues := yValues + [front[j].yValue as real];
    }
    assert front[..|front|] == front;
  }

  /**
   * One turn of the outer loop of the crowding pass: every member of the
   * front adds its contribution to its crowding distance.
   */
  method CrowdFront(front: seq<Individual>)
    requires Distinct(front) && Spread(front)
    modifies front`crowdingDistance
    ensures forall k :: 0 <= k < |front| ==>
              front[k].crowdingDistance == old(front[k].crowdingDistance) + Contribution(front, front[k])
  {
    var xValues, yValues := Coordinates(front);
    xValues := Ascending(xValues);
    yValues := Ascending(yValues);
    var minXValue, maxXValue := Extremes(xValues);
    var minYValue, maxYValue := Extremes(yValues);
    forall k | 0 <= k < |front|
      ensures front[k].xValue as real in xValues && front[k].yValue as real in yValues
    {
      AmongSorted(front, front[k]);
    }
    CrowdMembers(front, xValues, yValues, minXValue, maxXValue, minYValue, maxYValue);
  }

  /**
   * The inner loop of the crowding pass: each member of the front, in turn,
   * adds its gaps on both axes.
   */
  method CrowdMembers(front: seq<Individual>, xValues: seq<real>, yValues: seq<real>,
                      minXValue: real, maxXValue: real, minYValue: real, maxYValue: real)
    requires Distinct(front)
    requires forall k :: 0 <= k < |front| ==> front[k].xValue as real in xValues && front[k].yValue as real in yValues
    requires 0 < |xValues| && 0 < |yValues|
    requires minXValue == xValues[0] < xValues[|xValues| - 1] == maxXValue
    requires minYValue == yValues[0] < yValues[|yValues| - 1] == maxYValue
    modifies front`crowdingDistance
    ensures forall k :: 0 <= k < |front| ==>
              front[k].crowdingDistance ==
                old(front[k].crowdingDistance) + Gap(xValues, front[k].xValue as real) + Gap(yValues, front[k].yValue as real)
  {
    for j := 0 to |front|
      invariant forall k :: 0 <= k < j ==>
                  front[k].crowdingDistance ==
                    old(front[k].crowdingDistance) + Gap(xValues, front[k].xValue as real) + Gap(yValues, front[k].yValue as real)
      invariant forall k :: j <= k < |front| ==> front[k].crowdingDistance == old(front[k].crowdingDistance)
    {
      CrowdMember(front[j], xValues, yValues, minXValue, maxXValue, minYValue, maxYValue);
    }
  }

  /** min() and max() of sorted values: the first and the last. */
  method Extremes(values: seq<real>) returns (minValue: real, maxValue: real)
    requires 0 < |values| && SortedBy(values, Identity)
    ensures minValue == values[0] && maxValue == values[|values| - 1]
  {
    minValue, maxValue := MinOf(values), MaxOf(values);
    SortedExtremes(values);
  }

  /**
   * The body of the inner loop of the crowding pass: the member finds the
   * first occurrence of its values in the sorted lists and adds, axis by
   * axis, the gap between the neighbours there over max - min.
   */
  method CrowdMember(individual: Individual, xValues: seq<real>, yValues: seq<real>,
                     minXValue: real, maxXValue: real, minYValue: real, maxYValue: real)
    requires individual.xValue as real in xValues && individual.yValue as real in yValues
    requires minXValue == xValues[0] < xValues[|xValues| - 1] == maxXValue
    requires minYValue == yValues[0] < yValues[|yValues| - 1] == maxYValue
    modifies individual`crowdingDistance
    ensures individual.crowdingDistance ==
              old(individual.crowdingDistance) + Gap(xValues, individual.xValue as real) + Gap(yValues, individual.yValue as real)
  {
    var xIndex: int := IndexOf(xValues, individual.xValue as real);
    var yIndex: int := IndexOf(yValues, individual.yValue as real);

    var xLeftNeighbourIndex: int := xIndex - 1;
    var xRightNeighbourIndex := xIndex + 1;
    if xIndex == 0 {
      xLeftNeighbourIndex := 0;
    } else if xIndex == |xValues| - 1 {
      xRightNeighbourIndex := |xValues| - 1;
    }
    var yTopNeighbourIndex := yIndex + 1;
    var yBottomNeighbourIndex: int := yIndex - 1;
    if yIndex == 0 {
      yBottomNeighbourIndex := 0;
    } else if yIndex == |yValues| - 1 {
      yTopNeighbourIndex := |yValues| - 1;
    }

    individual.crowdingDistance := individual.crowdingDistance +
      (xValues[xRightNeighbourIndex] - xValues[xLeftNeighbourIndex]) / (maxXValue - minXValue);
    individual.crowdingDistance := individual.crowdingDistance +
      (yValues[yTopNeighbourIndex] - yValues[yBottomNeighbourIndex]) / (maxYValue - minYValue);
  }

  /** The members of some front. */
  ghost function Members(fronts: seq<seq<Individual>>): set<Individual>
  {
    set k, t | 0 <= k < |fronts| && 0 <= t < |fronts[k]| :: fronts[k][t]
  }

  /**
   * The crowding pass over the kept fronts: every member of every front
   * adds its contribution, computed within its own front.
   */
  method CrowdFronts(fronts: seq<seq<Individual>>)
    requires Separate(fronts) && forall k :: 0 <= k < |fronts| ==> Spread(fronts[k])
    modifies Members(fronts)`crowdingDistance
    ensures forall k, x :: 0 <= k < |fronts| && x in fronts[k] ==>
              x.crowdingDistance == old(x.crowdingDistance) + Contribution(fronts[k], x)
  {
    for i := 0 to |fronts|
      invariant forall k, x :: 0 <= k < i && x in fronts[k] ==>
                  x.crowdingDistance == old(x.crowdingDistance) + Contribution(fronts[k], x)
      invariant forall k, x :: i <= k < |fronts| && x in fronts[k] ==>
                  x.crowdingDistance == old(x.crowdingDistance)
    {
      CrowdOne(fronts, i);
    }
  }

  /** One round of the pass: front `i` is crowded and no other front changes. */
  method CrowdOne(fronts: seq<seq<Individual>>, i: nat)
    requires Separate(fronts) && i < |fronts| && Spread(fronts[i])
    modifies fronts[i]`crowdingDistance
    ensures forall x :: x in fronts[i] ==>
              x.crowdingDistance == old(x.crowdingDistance) + Contribution(fronts[i], x)
    ensures forall k, x :: 0 <= k < |fronts| && k != i && x in fronts[k] ==>
              x.crowdingDistance == old(x.crowdingDistance)
  {
    var front := fronts[i];
    assert Distinct(front) by {
      forall a, b | 0 <= a < b < |front| ensures front[a] != front[b] {
        assert fronts[i][a] != fronts[i][b];
      }
    }
    CrowdFront(front);
    forall x | x in front
      ensures x.crowdingDistance == old(x.crowdingDistance) + Contribution(front, x)
    {
      var t :| 0 <= t < |front| && front[t] == x;
    }
    forall k, x | 0 <= k < |fronts| && k != i && x in fronts[k]
      ensures x !in front
    {
      var t :| 0 <= t < |fronts[k]| && fronts[k][t] == x;
      forall u | 0 <= u < |front| ensures front[u] != x {
        assert fronts[i][u] == front[u];
      }
    }
  }
}
