// nsga2/sample/individual.py: an individual of the two-objective prototype, a
// point (x, y) on a grid where smaller is better on both axes, with the
// bookkeeping that the prototype's sorting fills in.
module SampleIndividuals {
  import opened Individuals

  class Individual {
    const name: string
    const xValue: int
    const yValue: int
    /** Starts at 0; the prototype's crowding distance sorting adds to it. */
    var crowdingDistance: real
    /** How many individuals dominate this one. */
    var dominationCount: int
    /** The individuals this one dominates (the source's name is kept). */
    var dominatedBy: seq<Individual>

    constructor (name: string, xValue: int, yValue: int)
      ensures this.name == name && this.xValue == xValue && this.yValue == yValue
      ensures crowdingDistance == 0.0 && dominationCount == 0 && dominatedBy == []
    {
      this.name := name;
      this.xValue := xValue;
      this.yValue := yValue;
      crowdingDistance := 0.0;
      dominationCount := 0;
      dominatedBy := [];
    }

    /**
     * `dominates`: this point is no larger than the other on both axes and
     * strictly smaller on at least one.
     */
    predicate Dominates(other: Individual)
    {
      var a := xValue <= other.xValue;
      var b := yValue <= other.yValue;
      var c := xValue < other.xValue;
      var d := yValue < other.yValue;
      (a && b) && (c || d)
    }
  }

  /** The point of an individual as a list of two objective values. */
  function Objectives(x: Individual): (r: seq<real>)
    ensures |r| == 2 && r[0] == x.xValue as real && r[1] == x.yValue as real
  {
    [x.xValue as real, x.yValue as real]
  }

  /**
   * The prototype's dominance is the package's Pareto dominance on the two
   * objectives x and y.
   */
  lemma DominatesAsObjectives(a: Individual, b: Individual)
    ensures a.Dominates(b) <==> ObjectivesDominate(Objectives(a), Objectives(b))
  {
    var p, q := Objectives(a), Objectives(b);
    if a.Dominates(b) {
      if a.xValue < b.xValue {
        assert p[0] < q[0];
      } else {
        assert p[1] < q[1];
      }
    }
    if ObjectivesDominate(p, q) {
      assert p[0] <= q[0] && p[1] <= q[1];
      var i :| 0 <= i < 2 && p[i] < q[i];
      assert i == 0 || i == 1;
    }
  }

  lemma DominatesIrreflexive(a: Individual)
    ensures !a.Dominates(a)
  {
    DominatesAsObjectives(a, a);
    Individuals.DominatesIrreflexive(Objectives(a));
  }

  lemma DominatesAsymmetric(a: Individual, b: Individual)
    ensures !(a.Dominates(b) && b.Dominates(a))
  {
    DominatesAsObjectives(a, b);
    DominatesAsObjectives(b, a);
    Individuals.DominatesAsymmetric(Objectives(a), Objectives(b));
  }

  lemma DominatesTransitive(a: Individual, b: Individual, c: Individual)
    requires a.Dominates(b) && b.Dominates(c)
    ensures a.Dominates(c)
  {
    DominatesAsObjectives(a, b);
    DominatesAsObjectives(b, c);
    DominatesAsObjectives(a, c);
    Individuals.DominatesTransitive(Objectives(a), Objectives(b), Objectives(c));
  }
}
