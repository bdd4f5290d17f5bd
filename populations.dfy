// nsga2/population.py: a population is a list of individuals with an explicit
// size counter and, once reset_fronts has run, a list of fronts.
module Populations {
  import opened Common
  import opened Random
  import opened Individuals

  /** The gene of x at a Python index g into its genome list. */
  function GeneAt(x: Individual, g: int): real
    requires -(x.genome.Length as int) <= g < x.genome.Length
    reads x.genome
  {
    x.genome[PyIndex(g, x.genome.Length)]
  }

  /** Every member of xs has a gene at index g. */
  predicate HasGene(xs: seq<Individual>, g: int)
  {
    forall k :: 0 <= k < |xs| ==> -(xs[k].genome.Length as int) <= g < xs[k].genome.Length
  }

  /** The genes at index g of the members of xs, in order (the genome_list of the source). */
  function Genes(xs: seq<Individual>, g: int): (r: seq<real>)
    requires HasGene(xs, g)
    reads set x | x in xs :: x.genome
    ensures |r| == |xs| && forall k :: 0 <= k < |xs| ==> r[k] == GeneAt(xs[k], g)
  {
    if xs == [] then [] else Genes(xs[..|xs| - 1], g) + [GeneAt(xs[|xs| - 1], g)]
  }

  /**
   * The neighbours of the first occurrence of v once L is sorted. left is the
   * largest value below v, or v itself when v is the minimum. right is v
   * itself when v is the maximum or occurs more than once (the next sorted
   * entry is then another copy of v), and otherwise the least value above v.
   */
  ghost predicate Neighbours(L: seq<real>, v: real, left: real, right: real)
  {
    left in L && right in L && left <= v <= right &&
    (forall j :: 0 <= j < |L| ==> L[j] <= left || v <= L[j]) &&
    (forall j :: 0 <= j < |L| ==> L[j] <= v || right <= L[j]) &&
    (left == v <==> forall j :: 0 <= j < |L| ==> v <= L[j]) &&
    (right == v <==> (forall j :: 0 <= j < |L| ==> L[j] <= v) || multiset(L)[v] >= 2)
  }

  /** Neighbours fixes both values: at most one pair satisfies it. */
  lemma NeighboursUnique(L: seq<real>, v: real, left1: real, right1: real, left2: real, right2: real)
    requires Neighbours(L, v, left1, right1) && Neighbours(L, v, left2, right2)
    ensures left1 == left2 && right1 == right2
  {
    var i1 :| 0 <= i1 < |L| && L[i1] == left1;
    var i2 :| 0 <= i2 < |L| && L[i2] == left2;
    var j1 :| 0 <= j1 < |L| && L[j1] == right1;
    var j2 :| 0 <= j2 < |L| && L[j2] == right2;
  }

  /**
   * In a sorted list L whose first occurrence of v is at k, the values one
   * step to the left and to the right of k, each clamped to v's own position
   * at the ends, are v's neighbours.
   */
  lemma SortedNeighbours(L: seq<real>, v: real, k: nat, left: real, right: real)
    requires SortedBy(L, Identity) && k < |L| && L[k] == v && v !in L[..k]
    requires left == L[if k == 0 then 0 else k - 1]
    requires right == L[if k == |L| - 1 then |L| - 1 else k + 1]
    ensures Neighbours(L, v, left, right)
  {
    if k > 0 {
      assert L[k - 1] in L[..k];
      assert L[k - 1] <= v;
    }
    forall j | 0 <= j < |L| ensures L[j] <= left || v <= L[j] {
      if j < k {
        assert L[j] <= L[k - 1];
      } else {
        assert L[k] <= L[j];
      }
    }
    forall j | 0 <= j < |L| ensures L[j] <= v || right <= L[j] {
      if j <= k {
        assert L[j] <= L[k];
      } else {
        assert L[k + 1] <= L[j];
      }
    }
    if k < |L| - 1 {
      if right == v {
        TwoCopies(L, k);
      } else {
        forall j | k + 1 <= j < |L| ensures L[j] != v {
          assert L[k + 1] <= L[j];
        }
        OneCopy(L, k);
        assert L[k + 1] > v;
      }
    }
  }

  /** Two adjacent copies of a value count twice in the multiset. */
  lemma TwoCopies(L: seq<real>, k: nat)
    requires k + 1 < |L| && L[k] == L[k + 1]
    ensures multiset(L)[L[k]] >= 2
  {
    assert L == L[..k] + [L[k], L[k + 1]] + L[k + 2..];
  }

  /** A value found at k only counts once in the multiset. */
  lemma OneCopy(L: seq<real>, k: nat)
    requires k < |L| && L[k] !in L[..k]
    requires forall j :: k < j < |L| ==> L[j] != L[k]
    ensures multiset(L)[L[k]] == 1
  {
    assert L == L[..k] + [L[k]] + L[k + 1..];
    assert L[k] !in L[k + 1..];
  }

  /** Neighbours depends on the values only, not on their order. */
  lemma NeighboursPermutation(a: seq<real>, b: seq<real>, v: real, left: real, right: real)
    requires multiset(a) == multiset(b) && Neighbours(b, v, left, right)
    ensures Neighbours(a, v, left, right)
  {
    assert left in multiset(b) && right in multiset(b);
    forall i | 0 <= i < |a| ensures exists j :: 0 <= j < |b| && b[j] == a[i] {
      assert a[i] in multiset(b);
    }
    assert forall j :: 0 <= j < |b| ==> b[j] in multiset(a);
  }

  /** Each gene of genome is random.uniform(lo, hi) of one draw of stream, from the draw numbered first on. */
  ghost predicate UniformGenome(genome: array<real>, stream: nat -> real, first: nat, lo: real, hi: real)
    requires forall k: nat :: 0.0 <= stream(k) < 1.0
    reads genome
  {
    forall g :: 0 <= g < genome.Length ==> genome[g] == UniformOf(stream(first + g), lo, hi)
  }

  /** random.uniform keeps every gene between the bounds. */
  lemma UniformGenomeBounds(genome: array<real>, stream: nat -> real, first: nat, lo: real, hi: real)
    requires forall k: nat :: 0.0 <= stream(k) < 1.0
    requires UniformGenome(genome, stream, first, lo, hi) && lo <= hi
    ensures forall g :: 0 <= g < genome.Length ==> lo <= genome[g] <= hi
  {
    forall g | 0 <= g < genome.Length ensures lo <= genome[g] <= hi {
      assert genome[g] == UniformOf(stream(first + g), lo, hi);
    }
  }

  class Population {
    /** Number of genes in each genome (genotype_quantity). */
    const genotypeQuantity: nat
    const genomeMinValue: real
    const genomeMaxValue: real
    /** The explicit member counter. */
    var size: int
    var individuals: seq<Individual>
    /** The fronts attribute: None until reset_fronts creates it. */
    var fronts: Option<seq<seq<Individual>>>

    /** The counter agrees with the list. */
    ghost predicate Valid()
      reads this
    {
      size == |individuals|
    }

    constructor (genotypeQuantity: nat, genomeMinValue: real, genomeMaxValue: real)
      ensures Valid() && individuals == [] && size == 0 && fronts == None
      ensures this.genotypeQuantity == genotypeQuantity
      ensures this.genomeMinValue == genomeMinValue && this.genomeMaxValue == genomeMaxValue
    {
      this.genotypeQuantity := genotypeQuantity;
      this.genomeMinValue := genomeMinValue;
      this.genomeMaxValue := genomeMaxValue;
      size := 0;
      individuals := [];
      fronts := None;
    }

    /** `insert`: appends at the end and counts the new member. */
    method Insert(individual: Individual)
      modifies this
      ensures individuals == old(individuals) + [individual]
      ensures size == old(size) + 1 && fronts == old(fronts)
      ensures old(Valid()) ==> Valid()
    {
      individuals := individuals + [individual];
      size := size + 1;
    }

    /** `new_individual`: wraps genome, without copying it, in a new individual and inserts it. */
    method NewIndividual(genome: array<real>, ids: IdCounter)
      modifies this, ids
      ensures |individuals| == old(|individuals|) + 1 && individuals[..old(|individuals|)] == old(individuals)
      ensures size == old(size) + 1 && fronts == old(fronts)
      ensures old(Valid()) ==> Valid()
      ensures var x := individuals[|individuals| - 1];
              fresh(x) && x.genome == genome && x.name == Name(old(ids.next)) &&
              x.solutions == [] && x.dominationCount == 0 && x.dominatedBy == [] &&
              x.rank == None && x.crowdingDistance == None
      ensures ids.next == old(ids.next) + 1
    {
      var x := new Individual(genome, ids);
      Insert(x);
    }

    /** `delete_individual`: list.remove drops the first occurrence; Python raises ValueError when it is absent. */
    method DeleteIndividual(individual: Individual)
      requires individual in individuals
      modifies this
      ensures individuals == RemoveFirst(old(individuals), individual)
      ensures size == old(size) - 1 && fronts == old(fronts)
      ensures old(Valid()) ==> Valid()
    {
      individuals := RemoveFirst(individuals, individual);
      size := size - 1;
    }

    /**
     * `union`: appends the other population's members, in order and by
     * reference. With the population itself as argument the Python loop
     * would iterate over the list it grows and never end.
     */
    method Union(population: Population)
      requires population != this
      modifies this
      ensures individuals == old(individuals) + population.individuals
      ensures size == old(size) + |population.individuals| && fronts == old(fronts)
      ensures old(Valid()) ==> Valid()
      ensures unchanged(population)
    {
      var k := 0;
      while k < |population.individuals|
        invariant 0 <= k <= |population.individuals|
        invariant individuals == old(individuals) + population.individuals[..k]
        invariant size == old(size) + k && fronts == old(fronts)
      {
        Insert(population.individuals[k]);
        k := k + 1;
      }
      assert population.individuals[..k] == population.individuals;
    }

    /**
     * x is a member made by `initiate`: named after id, with genotype_quantity
     * genes drawn by random.uniform(genome_min_value, genome_max_value) from
     * the draw numbered first on, each between the bounds.
     */
    ghost predicate RandomMember(x: Individual, id: nat, stream: nat -> real, first: nat)
      requires forall k: nat :: 0.0 <= stream(k) < 1.0
      reads x.genome
    {
      x.genome.Length == genotypeQuantity && x.name == Name(id) &&
      UniformGenome(x.genome, stream, first, genomeMinValue, genomeMaxValue) &&
      (genomeMinValue <= genomeMaxValue ==>
         forall g :: 0 <= g < genotypeQuantity ==> genomeMinValue <= x.genome[g] <= genomeMaxValue)
    }

    /**
     * `initiate` with RANDOM_TYPE "R": n new members, each gene drawn with
     * random.uniform, member after member and gene after gene.
     */
    method Initiate(n: nat, rng: RandomSource, ids: IdCounter)
      requires rng.Valid()
      modifies this, rng, ids
      ensures |individuals| == old(|individuals|) + n && individuals[..old(|individuals|)] == old(individuals)
      ensures size == old(size) + n && fronts == old(fronts)
      ensures old(Valid()) ==> Valid()
      ensures ids.next == old(ids.next) + n && rng.Valid()
      ensures rng.drawn == old(rng.drawn) + n * genotypeQuantity
      ensures forall k :: old(|individuals|) <= k < |individuals| ==>
                fresh(individuals[k]) && fresh(individuals[k].genome) &&
                RandomMember(individuals[k], old(ids.next) + k - old(|individuals|), rng.stream,
                             old(rng.drawn) + (k - old(|individuals|)) * genotypeQuantity)
    {
      var start := |individuals|;
      ghost var first := rng.drawn;
      ghost var id0 := ids.next;
      var i := 0;
      while i < n
        invariant 0 <= i <= n && rng.Valid()
        invariant |individuals| == start + i && individuals[..start] == old(individuals)
        invariant size == old(size) + i && fronts == old(fronts)
        invariant ids.next == id0 + i
        invariant rng.drawn == first + i * genotypeQuantity
        invariant forall k :: start <= k < |individuals| ==> fresh(individuals[k]) && fresh(individuals[k].genome)
        invariant forall k :: start <= k < |individuals| ==>
                    RandomMember(individuals[k], id0 + k - start, rng.stream, first + (k - start) * genotypeQuantity)
      {
        ghost var before := individuals;
        AddRandomIndividual(rng, ids);
        assert individuals == before + [individuals[start + i]];
        assert (i + 1) * genotypeQuantity == i * genotypeQuantity + genotypeQuantity;
        i := i + 1;
      }
    }

    /** One turn of the outer loop of `initiate`. */
    method AddRandomIndividual(rng: RandomSource, ids: IdCounter)
      requires rng.Valid()
      modifies this, rng`drawn, ids
      ensures |individuals| == old(|individuals|) + 1 && individuals[..old(|individuals|)] == old(individuals)
      ensures size == old(size) + 1 && fronts == old(fronts)
      ensures ids.next == old(ids.next) + 1 && rng.drawn == old(rng.drawn) + genotypeQuantity
      ensures var x := individuals[|individuals| - 1];
              fresh(x) && fresh(x.genome) && RandomMember(x, old(ids.next), rng.stream, old(rng.drawn))
    {
      var genome := RandomGenome(rng);
      if genomeMinValue <= genomeMaxValue {
        UniformGenomeBounds(genome, rng.stream, old(rng.drawn), genomeMinValue, genomeMaxValue);
      }
      NewIndividual(genome, ids);
    }

    /** The inner loop of `initiate`: one genome of genotype_quantity uniform genes. */
    method RandomGenome(rng: RandomSource) returns (genome: array<real>)
      requires rng.Valid()
      modifies rng`drawn
      ensures fresh(genome) && genome.Length == genotypeQuantity
      ensures rng.drawn == old(rng.drawn) + genotypeQuantity
      ensures UniformGenome(genome, rng.stream, old(rng.drawn), genomeMinValue, genomeMaxValue)
    {
      genome := new real[genotypeQuantity];
      var g := 0;
      while g < genotypeQuantity
        invariant 0 <= g <= genotypeQuantity
        invariant rng.drawn == old(rng.drawn) + g
        invariant forall h :: 0 <= h < g ==>
                    genome[h] == UniformOf(rng.stream(old(rng.drawn) + h), genomeMinValue, genomeMaxValue)
      {
        genome[g] := rng.Uniform(genomeMinValue, genomeMaxValue);
        g := g + 1;
      }
    }

    /**
     * `reset_fronts`: clears the sorting bookkeeping of every member and
     * creates an empty list of fronts; nothing else changes.
     */
    method ResetFronts()
      modifies this, individuals
      ensures individuals == old(individuals) && size == old(size) && fronts == Some([])
      ensures forall x :: x in individuals ==> x.dominationCount == 0 && x.dominatedBy == []
      ensures forall x :: x in individuals ==>
                x.solutions == old(x.solutions) && x.nonNormalizedSolutions == old(x.nonNormalizedSolutions) &&
                x.rank == old(x.rank) && x.crowdingDistance == old(x.crowdingDistance)
    {
      var k := 0;
      while k < |individuals|
        invariant 0 <= k <= |individuals|
        invariant individuals == old(individuals) && size == old(size) && fronts == old(fronts)
        invariant forall j :: 0 <= j < k ==> individuals[j].dominationCount == 0 && individuals[j].dominatedBy == []
        invariant forall x :: x in individuals ==>
                    x.solutions == old(x.solutions) && x.nonNormalizedSolutions == old(x.nonNormalizedSolutions) &&
                    x.rank == old(x.rank) && x.crowdingDistance == old(x.crowdingDistance)
      {
        individuals[k].dominationCount := 0;
        individuals[k].dominatedBy := [];
        k := k + 1;
      }
      fronts := Some([]);
    }

    /** `new_front`: appends an empty front. */
    method NewFront()
      requires fronts.Some?
      modifies this
      ensures fronts == Some(old(fronts.value) + [[]])
      ensures individuals == old(individuals) && size == old(size)
    {
      fronts := Some(fronts.value + [[]]);
    }

    /** `get_random_individual`: the member at a random.randint(0, size - 1) index. */
    method GetRandomIndividual(rng: RandomSource) returns (r: Individual)
      requires rng.Valid() && 0 < size <= |individuals|
      modifies rng`drawn
      ensures rng.drawn == old(rng.drawn) + 1
      ensures r == individuals[RandIntOf(rng.stream(old(rng.drawn)), 0, size - 1)]
      ensures r in individuals
    {
      var index := rng.RandInt(0, size - 1);
      r := individuals[index];
    }

    /** `add_to_front`: appends to the front at a Python index; the other fronts are untouched. */
    method AddToFront(index: int, individual: Individual)
      requires fronts.Some? && -|fronts.value| <= index < |fronts.value|
      modifies this
      ensures var i := PyIndex(index, |old(fronts.value)|);
              fronts.Some? && |fronts.value| == |old(fronts.value)| &&
              fronts.value[i] == old(fronts.value[i]) + [individual] &&
              forall j :: 0 <= j < |fronts.value| && j != i ==> fronts.value[j] == old(fronts.value[j])
      ensures individuals == old(individuals) && size == old(size)
    {
      var i := PyIndex(index, |fronts.value|);
      fronts := Some(fronts.value[i := fronts.value[i] + [individual]]);
    }

    /** `get_last_front_index`: -1 when there is no front. */
    method GetLastFrontIndex() returns (r: int)
      requires fronts.Some?
      ensures r + 1 == |fronts.value|
    {
      r := |fronts.value| - 1;
    }

    /** `add_to_last_front`: Python raises IndexError when there is no front. */
    method AddToLastFront(individual: Individual)
      requires fronts.Some? && |fronts.value| > 0
      modifies this
      ensures fronts.Some? && |fronts.value| == |old(fronts.value)|
      ensures fronts.value[..|fronts.value| - 1] == old(fronts.value)[..|fronts.value| - 1]
      ensures fronts.value[|fronts.value| - 1] == old(fronts.value)[|fronts.value| - 1] + [individual]
      ensures individuals == old(individuals) && size == old(size)
    {
      var last := GetLastFrontIndex();
      fronts := Some(fronts.value[last := fronts.value[last] + [individual]]);
    }

    /** `get_last_front` */
    method GetLastFront() returns (r: seq<Individual>)
      requires fronts.Some? && |fronts.value| > 0
      ensures r == fronts.value[|fronts.value| - 1]
    {
      r := fronts.value[|fronts.value| - 1];
    }

    /**
     * `delete_individual_from_last_front`: removes the first occurrence from the
     * last front (list.index raises ValueError when absent) and then from the
     * members.
     */
    method DeleteIndividualFromLastFront(individual: Individual)
      requires fronts.Some? && |fronts.value| > 0
      requires individual in fronts.value[|fronts.value| - 1] && individual in individuals
      modifies this
      ensures fronts.Some? && |fronts.value| == |old(fronts.value)|
      ensures fronts.value[..|fronts.value| - 1] == old(fronts.value)[..|fronts.value| - 1]
      ensures fronts.value[|fronts.value| - 1] == RemoveFirst(old(fronts.value)[|fronts.value| - 1], individual)
      ensures individuals == RemoveFirst(old(individuals), individual) && size == old(size) - 1
    {
      var lastFront := GetLastFront();
      var index := IndexOf(lastFront, individual);
      lastFront := lastFront[..index] + lastFront[index + 1..];
      fronts := Some(fronts.value[|fronts.value| - 1 := lastFront]);
      DeleteIndividual(individual);
    }

    /**
     * `delete_last_front`: deletes each member of the last front from the
     * population, then list.remove drops the FIRST front equal to the last one,
     * which is an earlier front when two fronts hold the same members.
     */
    method DeleteLastFront()
      requires fronts.Some? && |fronts.value| > 0
      requires multiset(fronts.value[|fronts.value| - 1]) <= multiset(individuals)
      modifies this
      ensures var last := old(fronts.value)[|old(fronts.value)| - 1];
              individuals == RemoveEach(old(individuals), last) &&
              size == old(size) - |last| &&
              fronts == Some(RemoveFirst(old(fronts.value), last))
    {
      var lastFront := GetLastFront();
      DeleteEach(lastFront);
      fronts := Some(RemoveFirst(fronts.value, lastFront));
    }

    /** The loop of `delete_last_front`: delete_individual on each member of xs in turn. */
    method DeleteEach(xs: seq<Individual>)
      requires multiset(xs) <= multiset(individuals)
      modifies this
      ensures individuals == RemoveEach(old(individuals), xs)
      ensures size == old(size) - |xs| && fronts == old(fronts)
    {
      ghost var s := individuals;
      var k := 0;
      while k < |xs|
        invariant 0 <= k <= |xs| && fronts == old(fronts)
        invariant individuals == RemoveEach(s, xs[..k])
        invariant size == old(size) - k
      {
        RemoveEachStep(s, xs, k);
        DeleteIndividual(xs[k]);
        k := k + 1;
      }
      assert xs[..k] == xs;
    }

    /**
     * `get_neighbour`: sorts the genes at genome_index of the front's members
     * and returns the values next to the first occurrence of v, each end
     * standing in for a missing neighbour. Python raises ValueError when v is
     * not among the genes.
     */
    method GetNeighbour(v: real, frontIndex: int, genomeIndex: int) returns (left: real, right: real)
      requires fronts.Some? && -|fronts.value| <= frontIndex < |fronts.value|
      requires HasGene(fronts.value[PyIndex(frontIndex, |fronts.value|)], genomeIndex)
      requires v in Genes(fronts.value[PyIndex(frontIndex, |fronts.value|)], genomeIndex)
      ensures Neighbours(Genes(fronts.value[PyIndex(frontIndex, |fronts.value|)], genomeIndex), v, left, right)
    {
      var front := fronts.value[PyIndex(frontIndex, |fronts.value|)];
      var genomeList := GeneList(front, genomeIndex);
      left, right := SortedNeighboursOf(genomeList, v);
    }

    /** `get_extreme_neighbours`: min() and max() of the members' genes; Python raises ValueError on an empty population. */
    method GetExtremeNeighbours(genomeIndex: int) returns (minValue: real, maxValue: real)
      requires |individuals| > 0 && HasGene(individuals, genomeIndex)
      ensures minValue in Genes(individuals, genomeIndex) && maxValue in Genes(individuals, genomeIndex)
      ensures forall k :: 0 <= k < |individuals| ==> minValue <= GeneAt(individuals[k], genomeIndex) <= maxValue
    {
      var genomeList := GeneList(individuals, genomeIndex);
      minValue, maxValue := MinOf(genomeList), MaxOf(genomeList);
    }
  }

  /**
   * The rest of get_neighbour: genome_list.sort(), genome_list.index(v) and
   * the two clamped neighbour indices.
   */
  method SortedNeighboursOf(genomeList: seq<real>, v: real) returns (left: real, right: real)
    requires v in genomeList
    ensures Neighbours(genomeList, v, left, right)
  {
    var sorted := SortByKey(genomeList, Identity);
    SortByKeySorted(genomeList, Identity);
    assert v in multiset(sorted);
    var index := IndexOf(sorted, v);
    var leftIndex := index as int - 1;
    var rightIndex := index + 1;
    if index == 0 {
      leftIndex := 0;
    }
    if index == |sorted| - 1 {
      rightIndex := |sorted| - 1;
    }
    assert leftIndex == if index == 0 then 0 else index - 1;
    assert rightIndex == if index == |sorted| - 1 then |sorted| - 1 else index + 1;
    left, right := sorted[leftIndex], sorted[rightIndex];
    SortedNeighbours(sorted, v, index, left, right);
    NeighboursPermutation(genomeList, sorted, v, left, right);
  }

  /** The loop that collects genome_list in get_neighbour and get_extreme_neighbours. */
  method GeneList(xs: seq<Individual>, g: int) returns (genomeList: seq<real>)
    requires HasGene(xs, g)
    ensures genomeList == Genes(xs, g)
  {
    genomeList := [];
    var k := 0;
    while k < |xs|
      invariant 0 <= k <= |xs|
      invariant genomeList == Genes(xs[..k], g)
    {
      assert xs[..k + 1][..k] == xs[..k];
      genomeList := genomeList + [GeneAt(xs[k], g)];
      k := k + 1;
    }
    assert xs[..k] == xs;
  }
}
