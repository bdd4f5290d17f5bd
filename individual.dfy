// nsga2/individual.py: an individual of the population, with its genome, its
// objective values ("solutions") and the bookkeeping the ranking fills in.
module Individuals {
  import opened Common

  /** The class attribute Individual.id: the number the next individual gets. */
  class IdCounter {
    var next: nat

    constructor ()
      ensures next == 1
    {
      next := 1;
    }
  }

  /** The name given to the individual created when the counter was at id. */
  function Name(id: nat): string
  {
    "i~" + NatToString(id)
  }

  /** Individuals created at different counter values have different names. */
  lemma NamesDistinct(a: nat, b: nat)
    requires a != b
    ensures Name(a) != Name(b)
  {
    if Name(a) == Name(b) {
      assert Name(a)[2..] == NatToString(a);
      assert Name(b)[2..] == NatToString(b);
      NatToStringInjective(a, b);
    }
  }

  /**
   * Pareto dominance on objective lists, as the doc-comment of `dominates`
   * states it: a is no larger than b at every index of a, and strictly smaller
   * at one of them. Only the first |a| entries of b are looked at.
   */
  predicate ObjectivesDominate(a: seq<real>, b: seq<real>)
    requires |a| <= |b|
  {
    (forall i :: 0 <= i < |a| ==> a[i] <= b[i]) &&
    (exists i :: 0 <= i < |a| && a[i] < b[i])
  }

  lemma DominatesIrreflexive(a: seq<real>)
    ensures !ObjectivesDominate(a, a)
  {
  }

  lemma DominatesAsymmetric(a: seq<real>, b: seq<real>)
    requires |a| == |b|
    ensures !(ObjectivesDominate(a, b) && ObjectivesDominate(b, a))
  {
    if ObjectivesDominate(a, b) {
      var i :| 0 <= i < |a| && a[i] < b[i];
      assert b[i] > a[i];
    }
  }

  lemma DominatesTransitive(a: seq<real>, b: seq<real>, c: seq<real>)
    requires |a| <= |b| <= |c|
    requires ObjectivesDominate(a, b) && ObjectivesDominate(b, c)
    ensures ObjectivesDominate(a, c)
  {
    var i :| 0 <= i < |a| && a[i] < b[i];
    assert a[i] < c[i];
  }

  /** With no objectives at all, the "strictly better somewhere" half never holds. */
  lemma EmptyDominatesNothing(b: seq<real>)
    ensures !ObjectivesDominate([], b)
  {
  }

  /** Entries of the other list beyond |a| do not matter. */
  lemma DominatesReadsPrefix(a: seq<real>, b: seq<real>)
    requires |a| <= |b|
    ensures ObjectivesDominate(a, b) <==> ObjectivesDominate(a, b[..|a|])
  {
    assert forall i :: 0 <= i < |a| ==> b[..|a|][i] == b[i];
  }

  class Individual {
    const name: string
    /** The genome list; shared, never copied, so writes into it are seen by every holder. */
    const genome: array<real>
    var solutions: seq<real>
    var nonNormalizedSolutions: seq<real>
    /** How many individuals dominate this one. */
    var dominationCount: int
    /** The individuals this one dominates (the source's name is kept). */
    var dominatedBy: seq<Individual>
    var rank: Option<int>
    var crowdingDistance: Option<real>

    constructor (genome: array<real>, ids: IdCounter)
      modifies ids
      ensures name == Name(old(ids.next)) && ids.next == old(ids.next) + 1
      ensures this.genome == genome
      ensures solutions == [] && nonNormalizedSolutions == []
      ensures dominationCount == 0 && dominatedBy == []
      ensures rank == None && crowdingDistance == None
    {
      name := Name(ids.next);
      ids.next := ids.next + 1;
      this.genome := genome;
      solutions := [];
      nonNormalizedSolutions := [];
      dominationCount := 0;
      dominatedBy := [];
      rank := None;
      crowdingDistance := None;
    }

    /**
     * `dominates`. With a shorter other list Python may raise IndexError; it
     * does not when `and`/`or` short-circuit before the missing entry is read.
     * The sort calls it only on lists of one width (SameWidth), where the
     * requires holds.
     */
    method Dominates(other: Individual) returns (r: bool)
      requires |solutions| <= |other.solutions|
      ensures r == ObjectivesDominate(solutions, other.solutions)
    {
      var firstHalf := true;
      var secondHalf := false;
      var i := 0;
      while i < |solutions|
        invariant 0 <= i <= |solutions|
        invariant firstHalf == (forall k :: 0 <= k < i ==> solutions[k] <= other.solutions[k])
        invariant secondHalf == (exists k :: 0 <= k < i && solutions[k] < other.solutions[k])
      {
        firstHalf := firstHalf && solutions[i] <= other.solutions[i];
        secondHalf := secondHalf || solutions[i] < other.solutions[i];
        i := i + 1;
      }
      r := firstHalf && secondHalf;
    }
  }
}
