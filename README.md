# NSGA-II in Dafny

A model of the Python NSGA-II package (the multi-objective genetic algorithm of Deb et al., 2002) and of the two-objective prototype that ships beside it. It covers:

- **Pareto dominance** on objective lists (`Individuals`) and on 2-D points (`SampleIndividuals`).
- **Population bookkeeping** (`Populations`): a list of members plus an explicit `size` counter, and the front helpers.
- **Fast non-dominated sorting.**
  - A pairwise pass and a peeling loop over the members' `domination_count` and `dominated_by` (`Nsga2`, `SampleSorting`).
  - The theory of the peeled layering behind them (`Ranking`).
- **Crowding distance.**
  - The per-gene crowding pass of the package (`Crowding`).
  - The prototype's crowding of the kept fronts (`SampleCrowding`).
- **Crowded comparison and selection.**
  - The crowded-comparison operator and `sort_by_crowded_comparison` (`Operators`).
  - Both tournament selections.
- **Variation.**
  - Simulated binary crossover (SBX): its structure, with the spread factor `beta_bar` as a function-valued parameter.
  - Mutation, one call and its fold over the offspring loop (`Mutation`).
  - The offspring loops, including the clone branch that reuses the parents' genome arrays (`Nsga2`): each loop's draws are planned by a value-level run, and the arrays end as the mutation fold gives.
- **Truncation** of the merged population to `population_size` members.
- **The prototype's steps** (`SampleNsga2`):
  - `non_dominated_sorting`;
  - `crowding_distance_sorting`;
  - `sort_individuals`, its in-place selection sort.

Genes, objectives and crowding distances are `real` (exact arithmetic). Members, populations and the driver objects are classes whose fields the methods update in place. Genomes are shared `array<real>` objects, so aliasing through the clone branch is visible to the model.

Randomness comes from a `RandomSource` object over an injected stream of draws in [0, 1). `random.random`, `random.uniform` and `random.randint` are functions of the next draw. The class-level name counter of `Individual` is an `IdCounter` object.

The module `Common` holds sequence helpers (Python's `list.remove`, negative indexing, a stable sort by key, `min`/`max`). `Random` holds the draw model.

## Model

| member | source | states |
|---|---|---|
| Individuals.IdCounter.constructor | nsga2/individual.py:19 | the class counter `id` starts at 1 |
| Individuals.Individual.constructor | nsga2/individual.py:21-43 | the new member is named "i~" + the counter, which then goes up by one; it holds the very genome array passed in; it starts with empty solutions, a count of 0, an empty dominated_by list, and no rank or crowding distance |
| Individuals.NamesDistinct | nsga2/individual.py:19-24 | members created at different counter values get different names |
| Individuals.Individual.Dominates | nsga2/individual.py:45-64 | the loop's answer is: every objective of self is <= the other's and at least one is <; the model requires the other list to be at least as long; the source may raise IndexError otherwise, unless `and`/`or` short-circuit first (nsga2/individual.py:60-61), and the sort only compares lists of one width (SameWidth) |
| Individuals.DominatesIrreflexive | nsga2/individual.py:55-64 | no objective list dominates itself |
| Individuals.DominatesAsymmetric | nsga2/individual.py:45-64 | two lists of equal length never dominate each other both ways |
| Individuals.DominatesTransitive | nsga2/individual.py:48-53 | dominance is transitive |
| Individuals.EmptyDominatesNothing | nsga2/individual.py:55-56 | an empty objective list dominates nothing, since second_half never becomes true |
| Individuals.DominatesReadsPrefix | nsga2/individual.py:59-62 | the result depends only on the first len(self.solutions) entries of the other list |
| SampleIndividuals.Individual.constructor | nsga2/sample/individual.py:21-32 | name, x and y are stored; crowding distance 0, count 0, empty dominated_by |
| SampleIndividuals.Objectives | nsga2/sample/individual.py:21-32 | a point is the objective list [x, y] |
| SampleIndividuals.DominatesAsObjectives | nsga2/sample/individual.py:38-50 | the 2-D test (x <= and y <=, one of them strict) is the general dominance on [x, y] |
| SampleIndividuals.DominatesIrreflexive | nsga2/sample/individual.py:45-50 | no point dominates itself |
| SampleIndividuals.DominatesAsymmetric | nsga2/sample/individual.py:45-50 | two points never dominate each other both ways |
| SampleIndividuals.DominatesTransitive | nsga2/sample/individual.py:41-50 | 2-D dominance is transitive |
| Random.RandIntOf | nsga2/population.py:93-98 | random.randint(a, b) on a draw lies in [a, b] |
| Random.UniformOf | nsga2/population.py:47-48 | random.uniform(a, b) on a draw lies between a and b, in either order of the bounds |
| Random.RandomSource.constructor | nsga2/population.py:28 | a source over a stream of draws in [0, 1), none drawn yet |
| Random.RandomSource.Random | nsga2/nsga2.py:295 | random.random() returns the next draw, in [0, 1), and advances the stream by one |
| Random.RandomSource.Uniform | nsga2/population.py:48 | random.uniform returns UniformOf of the next draw and advances the stream by one |
| Random.RandomSource.RandInt | nsga2/population.py:96 | random.randint returns RandIntOf of the next draw, in [a, b], and advances the stream by one |
| Populations.Population.constructor | nsga2/population.py:27-38 | empty member list, size 0, no fronts, genome settings stored |
| Populations.Population.Insert | nsga2/population.py:60-64 | the member is appended at the end and size goes up by one; size == len(individuals) is preserved |
| Populations.Population.NewIndividual | nsga2/population.py:55-58 | one new member wrapping the genome (not a copy) is appended; the earlier members stay; the counter goes up by one |
| Populations.Population.DeleteIndividual | nsga2/population.py:66-70 | exactly the first occurrence is removed and size goes down by one; the member must be present |
| Populations.Population.Union | nsga2/population.py:72-76 | the other population's members are appended in order, by reference; the other population is unchanged; it must be a different object |
| Populations.Population.Initiate | nsga2/population.py:40-53 | exactly n fresh members are appended, each with genotype_quantity genes drawn by random.uniform from consecutive draws, each gene within [min, max] |
| Populations.Population.AddRandomIndividual | nsga2/population.py:43-53 | one turn of initiate: one new member with a uniform genome |
| Populations.Population.RandomGenome | nsga2/population.py:44-51 | a fresh genome of genotype_quantity genes, gene g being random.uniform of draw first + g |
| Populations.UniformGenomeBounds | nsga2/population.py:47-48 | every gene drawn by random.uniform(min, max) lies in [min, max] |
| Populations.Population.ResetFronts | nsga2/population.py:79-86 | every member gets count 0 and an empty dominated_by, the other fields stay, fronts becomes empty, and the member list is unchanged |
| Populations.Population.NewFront | nsga2/population.py:88-91 | an empty front is appended |
| Populations.Population.GetRandomIndividual | nsga2/population.py:93-98 | returns the member at randint(0, size - 1), a current member; size must be positive |
| Populations.Population.AddToFront | nsga2/population.py:100-103 | the member is appended to the front at a Python index, negative indices counting from the end; the other fronts are untouched |
| Populations.Population.GetLastFrontIndex | nsga2/population.py:105-108 | the index of the last front, -1 when there is none |
| Populations.Population.AddToLastFront | nsga2/population.py:110-113 | the member is appended to the last front only |
| Populations.Population.GetLastFront | nsga2/population.py:115-118 | returns the last front |
| Populations.Population.DeleteIndividualFromLastFront | nsga2/population.py:120-128 | the first occurrence is removed from the last front and from the population; size goes down by one |
| Populations.Population.DeleteLastFront | nsga2/population.py:130-138 | every member of the last front is deleted from the population; then, as list.remove does, the FIRST front equal to the last one is dropped, so fronts [[], [a], []] become [[a], []] |
| Populations.Population.DeleteEach | nsga2/population.py:133-136 | delete_individual applied to each listed member in turn; size drops by their number |
| Populations.Population.GetNeighbour | nsga2/population.py:141-165 | left <= v <= right are v's neighbours in the sorted gene list of the front: left is the largest value below v, or v when v is the minimum; right is the least value above v, or v when v is the maximum or occurs twice; v must be present |
| Populations.SortedNeighboursOf | nsga2/population.py:148-165 | the neighbour lookup on a sorted copy of a gene list |
| Populations.SortedNeighbours | nsga2/population.py:150-165 | the entries just before and after v's first occurrence in a sorted list, clamped at the ends, are its neighbours |
| Populations.NeighboursUnique | nsga2/population.py:150-165 | the neighbour relation fixes both values: at most one (left, right) pair satisfies it |
| Populations.NeighboursPermutation | nsga2/population.py:148-150 | neighbours depend on the gene values only, not on their order |
| Populations.GeneList | nsga2/population.py:144-146 | the collected genome_list is gene g of each member, in member order |
| Populations.Genes | nsga2/population.py:144-146 | one gene per member, in member order |
| Populations.Population.GetExtremeNeighbours | nsga2/population.py:167-175 | returns min and max of gene k over the members; both are attained and bound every member's gene; the population must be non-empty |
| Ranking.Dominated | nsga2/nsga2.py:143-159 | the members x dominates, in increasing order |
| Ranking.DominatedMembers | nsga2/nsga2.py:143-159 | y is listed exactly when x dominates it; no repeats |
| Ranking.Undominated | nsga2/nsga2.py:155-159 | the undominated members, in increasing order |
| Ranking.UndominatedMembers | nsga2/nsga2.py:155-159 | x is listed exactly when nobody dominates it; no repeats |
| Ranking.FrontUnique | nsga2/nsga2.py:164-178 | in a peeled layering a member sits in one front only |
| Ranking.FrontZeroUndominated | nsga2/nsga2.py:155-159 | front 0 is exactly the undominated members |
| Ranking.DominatorsEarlier | nsga2/nsga2.py:164-178 | a member of front k is dominated only by members of earlier fronts |
| Ranking.FrontIsAntichain | nsga2/nsga2.py:164-178 | no member of a front dominates another of the same front |
| Ranking.FrontHasPredecessor | nsga2/nsga2.py:164-178 | every member of a later front is dominated by a member of the front before it |
| Ranking.MinimalExists | nsga2/nsga2.py:164-178 | a non-empty set of members has one that no other member dominates |
| Ranking.PeelingComplete | nsga2/nsga2.py:164-181 | when peeling yields an empty front, everyone has been placed |
| Ranking.FirstFront | nsga2/nsga2.py:155-159 | the undominated members form the first layer of the peeling |
| Ranking.PeelStart | nsga2/nsga2.py:159-164 | after the pairwise pass each count is the number of dominators |
| Ranking.PeelRelease | nsga2/nsga2.py:168-174 | one decrement lowers x's count by one, and x joins the next front exactly when the count reaches 0 |
| Ranking.PeelAdvance | nsga2/nsga2.py:166-174 | once the walked member has released all it dominates, the walk moves to the next member |
| Ranking.PeelNextFront | nsga2/nsga2.py:175-178 | a fully walked front yields the next front, which places exactly its own members |
| Ranking.PeeledExtend | nsga2/nsga2.py:175-178 | the unplaced members whose dominators are all placed extend the layering by one front |
| Ranking.PeelGrows | nsga2/nsga2.py:164-178 | a non-empty front strictly grows the placed set, so peeling terminates |
| Ranking.RankInFront | nsga2/nsga2.py:171-172 | a member of front k has rank k + 1 |
| Ranking.PlacedAllBeforeEmpty | nsga2/nsga2.py:181 | dropping the trailing empty front keeps everyone placed |
| Nsga2.DominanceMatrix | nsga2/nsga2.py:143-159 | entry (a, b) says whether member a's objectives dominate member b's |
| Nsga2.DominanceIsStrictOrder | nsga2/individual.py:45-64 | dominance between members is irreflexive and transitive |
| Nsga2.CompareStep | nsga2/nsga2.py:148-153 | one inner step adds j to i's dominated list exactly when i dominates j, and counts j when j dominates i |
| Nsga2.CompareWith | nsga2/nsga2.py:148-153 | current's dominated_by grows by other exactly when current dominates it, else its count grows when other dominates it; nothing else changes |
| Nsga2.CompareWithEveryone | nsga2/nsga2.py:146-153 | after the inner loop a member's count is its number of dominators and dominated_by lists whom it dominates, in population order |
| Nsga2.PairwisePass | nsga2/nsga2.py:143-159 | every member is compared; the undominated ones get rank 1 and form front 0, in population order |
| Nsga2.ProcessMember | nsga2/nsga2.py:144-159 | one outer round of the pairwise pass |
| Nsga2.RankFirstFront | nsga2/nsga2.py:136-159 | reset plus pairwise pass: the counts, the lists and front 0 the peeling starts from |
| Nsga2.ReleaseOneDominated | nsga2/nsga2.py:168-174 | one decrement, in the heap and in the peeling state; a member reaching 0 gets the next rank and joins the next front |
| Nsga2.ReleaseDominated | nsga2/nsga2.py:167-174 | the walk over one member's dominated_by list |
| Nsga2.WalkFront | nsga2/nsga2.py:164-176 | the walk over the whole current front yields the next front, each of its members with the next rank |
| Nsga2.RoundDone | nsga2/nsga2.py:175-178 | a fully walked front extends the peeling state and strictly shrinks what is left to place |
| Nsga2.PeelingDone | nsga2/nsga2.py:178-181 | at the empty front, the fronts before it are the complete, non-empty, disjoint peeling, with rank k + 1 in front k |
| Nsga2.RanksFromKept | nsga2/nsga2.py:171-172 | every member of front k carries rank k + 1 |
| Nsga2.KeptFirst | nsga2/nsga2.py:155-159 | front 0 carries rank 1 |
| Nsga2.KeptNext | nsga2/nsga2.py:171-176 | the members of a new front carry its number |
| Nsga2.NSGA2.constructor | nsga2/nsga2.py:24-56 | settings stored; genotype_quantity 1, mutation_rate 1, gene mutation probability 1/2, disturbance 1/2; an empty population |
| Nsga2.NSGA2.NewPopulation | nsga2/nsga2.py:124-127 | an empty population with this run's genome settings |
| Nsga2.NSGA2.FastNonDominatedSort | nsga2/nsga2.py:129-183 | the fronts are non-empty and partition the population; each is a layer of the peeling by dominance; a member of front k has rank k + 1; the trailing empty front is gone; the member list is unchanged |
| Nsga2.NSGA2.PeelRound | nsga2/nsga2.py:164-178 | one round of the peeling loop |
| Nsga2.NSGA2.PeelFronts | nsga2/nsga2.py:164-181 | the peeling loop and the deletion of the empty last front |
| Nsga2.FirstFrontIsUndominated | nsga2/nsga2.py:155-159 | front 0 holds exactly the members whose objectives nobody dominates |
| Nsga2.FrontHasNoDominatingPair | nsga2/nsga2.py:164-178 | no two members of a front dominate one another |
| Nsga2.LaterFrontIsDominated | nsga2/nsga2.py:164-178 | a member of a later front is dominated by a member of the previous front |
| Nsga2.FrontsPartition | nsga2/nsga2.py:129-183 | every member is in exactly one front |
| Crowding.SortOnGene | nsga2/nsga2.py:200 | front.sort on genome[g]: a permutation keeping gene g; it is the stable sort by key, whose stability is Common.SortByKeyStable |
| Common.SortByKeyStable | nsga2/nsga2.py:200 | the stable sort keeps, for every key value, the members with that key in their earlier order |
| Common.SortByKeyCongruent | nsga2/nsga2.py:200 | two keys that agree on every member give the same sorted order |
| Crowding.SortOnGeneByKey | nsga2/nsga2.py:200 | sorting on gene g is the stable sort by any key that gives every member its gene g |
| Crowding.SortOnGeneSorted | nsga2/nsga2.py:200 | the sorted front is a permutation with ascending gene g |
| Crowding.CrowdingGapBounds | nsga2/nsga2.py:206-219 | an interior contribution is >= 0; it is <= 1 when max > min; when max == min it is the raw neighbour gap, which is 0 |
| Crowding.ResetDistances | nsga2/nsga2.py:193-194 | every member's crowding distance becomes 0; nothing else changes |
| Crowding.SortFront | nsga2/nsga2.py:200 | the front is sorted on the gene, and what is recorded about its members carries over |
| Crowding.PermutedMembers | nsga2/nsga2.py:200 | a permutation keeps what is recorded about the members |
| Crowding.SetEnds | nsga2/nsga2.py:203-204 | the first and last member get sys.maxsize |
| Crowding.AddGap | nsga2/nsga2.py:214-219 | an interior member's distance grows by its normalised neighbour gap |
| Crowding.AddGaps | nsga2/nsga2.py:209-219 | every interior member's distance grows by its gap |
| Crowding.CrowdingPass | nsga2/nsga2.py:200-219 | one gene pass: the front is a permutation of itself, the ends get maxsize and the interior members their gaps |
| Crowding.CrowdSorted | nsga2/nsga2.py:203-219 | the pass on an already sorted front |
| Crowding.GapList | nsga2/nsga2.py:209-219 | the gaps of all positions, one per position |
| Crowding.CrowdedByGaps | nsga2/nsga2.py:203-219 | distances equal to the listed gaps are the crowded distances |
| Crowding.CrowdFront | nsga2/nsga2.py:191-219 | a front is reset and crowded on every gene; it ends in the order of the stable passes on genes 0, 1, ... in turn (PassOrder), crowded on the last gene, with other fields kept |
| Crowding.CrowdGenes | nsga2/nsga2.py:196-219 | the genome loop: after it the front is in PassOrder over all genes, crowded on the last gene; with one gene the earlier distances are 0 |
| Crowding.CrowdStep | nsga2/nsga2.py:197-219 | one turn of the genome loop takes the front from the order of i passes to the order of i + 1 passes and crowds it on gene i |
| Crowding.GenomeLoopStart | nsga2/nsga2.py:193-197 | a reset front is in the state the genome loop starts from: no passes, all distances 0 |
| Crowding.GenomeLoopDone | nsga2/nsga2.py:197-219 | when the genome loop ends, the front is in the order of all passes and crowded on the last gene |
| Crowding.CrowdGene | nsga2/nsga2.py:197-219 | the body of the genome loop for one gene: the front becomes the stable sort of its previous order by the gene's key, crowded on that gene |
| Crowding.SortAndCrowd | nsga2/nsga2.py:200-219 | the sort and the crowding of one pass, keeping members distinct, their genes and other fields |
| Crowding.GeneKeys | nsga2/nsga2.py:197-200 | the sort keys `lambda x: x.genome[genome_index]` of every gene, each giving every member its gene |
| Crowding.KeysMatchPermutation | nsga2/nsga2.py:200 | the keys give the same genes to any permutation of the members |
| Crowding.KeyIsGenePermutation | nsga2/nsga2.py:200 | one key gives the same gene to any permutation of the members |
| Crowding.PassOrderNext | nsga2/nsga2.py:197-200 | the stable sort on the next gene's key takes the order of i passes to the order of i + 1 passes |
| Crowding.PassOrderPermutes | nsga2/nsga2.py:197-200 | the passes of the genome loop permute the members |
| Crowding.PassOrderDetermined | nsga2/nsga2.py:197-200 | the final order depends only on the members' genes: any two key lists giving the same genes give the same order |
| Crowding.CrowdedFrontOneGene | nsga2/nsga2.py:44 | with genotype_quantity 1, as the driver sets it, a crowded front is exactly its earlier member list stably sorted on gene 0 |
| Crowding.CrowdedFrontKept | nsga2/nsga2.py:189-219 | a crowded front stays crowded while it, its members and their genomes are left alone |
| Crowding.SingleGeneDistances | nsga2/nsga2.py:203-219 | with one gene the ends hold maxsize and every interior member holds exactly its gap |
| Crowding.CrowdedRecorded | nsga2/nsga2.py:203-219 | after a pass every member holds a distance |
| Crowding.HasGenePermutation | nsga2/nsga2.py:200 | a permutation of the members has the same genes |
| Nsga2.NSGA2.CrowdingDistanceAssignment | nsga2/nsga2.py:185-219 | every front is crowded as CrowdFront says, in the order of the stable gene passes over its member list, and keeps its size |
| Nsga2.NSGA2.CrowdTurn | nsga2/nsga2.py:189-219 | one turn of the loop over fronts: this front is crowded and ordered as CrowdFront says, earlier ones keep their crowding and order, later ones stay ready |
| Nsga2.CrowdedSoFarExtended | nsga2/nsga2.py:189-219 | a newly crowded front extends the crowded prefix |
| Nsga2.OwnedApart | nsga2/nsga2.py:189 | a member owned by one front is in no other front |
| Nsga2.TurnKept | nsga2/nsga2.py:189-219 | a turn leaves the other fronts as they were |
| Nsga2.EarlierFrontsKept | nsga2/nsga2.py:189-219 | earlier fronts keep their crowding during a later turn |
| Nsga2.LaterFrontsKept | nsga2/nsga2.py:189-219 | later fronts keep their members and stay ready |
| Operators.CrowdedComparison | nsga2/nsga2.py:221-229 | returns one of its arguments; for two distinct members, A exactly when A's rank is strictly smaller; the winner's rank is the smaller one |
| Operators.Better | nsga2/nsga2.py:221-229 | the same comparison with the ranks taken from a map |
| Operators.CrowdedComparisonByRank | nsga2/nsga2.py:224-229 | the crowding-distance branch never changes the answer |
| Operators.Ranks | nsga2/nsga2.py:231-247 | the rank of every member, read once |
| Operators.Worst | nsga2/nsga2.py:236-240 | the inner scan keeps a member of the list |
| Operators.WorstIsLeast | nsga2/nsga2.py:236-240 | the member kept has the least rank among those scanned |
| Operators.WorstOnTie | nsga2/nsga2.py:236-240 | among members of one rank the scan ends on the last one |
| Operators.MoveToEnd | nsga2/nsga2.py:242-243 | remove-then-append: same length, the member last |
| Operators.MoveToEndIsRemoveAppend | nsga2/nsga2.py:242-243 | MoveToEnd is list.remove followed by list.append |
| Operators.MoveToEndMultiset | nsga2/nsga2.py:242-243 | moving a member to the end permutes the list |
| Operators.CrowdedTurns | nsga2/nsga2.py:234-243 | the list after i outer turns keeps its length |
| Operators.CrowdedTurnsPermutes | nsga2/nsga2.py:234-243 | the outer turns only reorder the front |
| Operators.CrowdedTurnStep | nsga2/nsga2.py:236-243 | one more turn moves the scanned member to the end |
| Operators.CrowdedLastStep | nsga2/nsga2.py:245-247 | the final move sends the first member to the end |
| Operators.CrowdedOrder | nsga2/nsga2.py:231-247 | the list sort_by_crowded_comparison leaves is a permutation of the front |
| Operators.CrowdedOrderOnTie | nsga2/nsga2.py:231-247 | on a front of one rank the result ignores crowding distance: the second member, then the rest reversed, then the first |
| Nsga2.ScanWorst | nsga2/nsga2.py:236-240 | the inner scan computes Worst |
| Nsga2.MoveWorstToEnd | nsga2/nsga2.py:234-243 | one outer turn yields the next CrowdedTurns list |
| Nsga2.NSGA2.SortByCrowdedComparison | nsga2/nsga2.py:231-247 | the front becomes CrowdedOrder of itself, a permutation |
| Nsga2.NSGA2.Candidate | nsga2/nsga2.py:251-252 | the member drawn by get_random_individual is a current member |
| Nsga2.NSGA2.TournamentSelection | nsga2/nsga2.py:249-255 | two draws; the winner is the crowded comparison of the two members drawn, a current member |
| Operators.Wins | nsga2/nsga2.py:262-270 | a candidate's score counts the genes where it is strictly smaller |
| Operators.WinsShared | nsga2/nsga2.py:262-270 | a gene scores for at most one candidate |
| Operators.WinsEverywhere | nsga2/nsga2.py:262-270 | a candidate below the other on every gene scores every gene |
| Operators.UsualTournamentAntisymmetric | nsga2/nsga2.py:272-276 | a draw goes to the second candidate; the first cannot win both orders |
| Operators.UsualTournamentDominant | nsga2/nsga2.py:272-276 | a candidate below the other on every gene wins in either position, given at least one gene |
| Nsga2.NSGA2.UsualTournamentSelection | nsga2/nsga2.py:257-276 | two draws; the first candidate wins only on a strictly higher gene score, otherwise the second does |
| Operators.SbxGene | nsga2/nsga2.py:366-410 | genes within 1e-14 are copied unchanged; otherwise the children's sum is the parents' sum |
| Operators.SbxGeneSpread | nsga2/nsga2.py:400-408 | the children lie beta_bar times the parents' distance apart |
| Operators.SbxGeneOrdered | nsga2/nsga2.py:400-408 | with beta_bar >= 0 the first child is not above the second |
| Operators.SbxGeneUnitSpread | nsga2/nsga2.py:400-408 | beta_bar == 1 gives the parents back, smaller value first |
| Operators.SbxAt | nsga2/nsga2.py:366-410 | gene k of the two children, with the draws counted as the loop takes them |
| Operators.Differing | nsga2/nsga2.py:370-375 | the number of draws SBX takes: one per gene whose parents differ by more than 1e-14 |
| Operators.DifferingSelf | nsga2/nsga2.py:370-375 | identical parents take no draws |
| Nsga2.NSGA2.SimulatedBinaryCrossover | nsga2/nsga2.py:344-412 | two fresh genomes of genotype_quantity genes, gene j as SbxAt gives it |
| Operators.SbxChildren | nsga2/nsga2.py:366-410 | the two child genomes of the SBX loop: genotype_quantity genes each, gene pair j as SbxAt gives it |
| Mutation.Disturbed | nsga2/nsga2.py:428-440 | a mutated gene is x plus or minus disturb times x, clamped into [min, max] |
| Mutation.DisturbedInside | nsga2/nsga2.py:428-440 | a gene that stays in range moves by exactly disturb times its value |
| Mutation.GeneDraw | nsga2/nsga2.py:426-442 | each gene takes one draw, and a mutating gene one more |
| Mutation.MutatedGene | nsga2/nsga2.py:426-442 | a gene is disturbed when its draw is below the probability, otherwise unchanged |
| Mutation.Mutated | nsga2/nsga2.py:426-442 | the genome after the loop keeps its length, gene by gene as MutatedGene |
| Mutation.MutatedInRange | nsga2/nsga2.py:426-442 | every gene is either untouched or within [min, max] |
| Mutation.MutatedNever | nsga2/nsga2.py:426-442 | with probability 0 no gene changes |
| Mutation.GateAlwaysOpen | nsga2/nsga2.py:44-47 | with mutation_rate 1 the gate never skips the mutation |
| Mutation.MutationOf | nsga2/nsga2.py:414-444 | one call of `mutation`: the genome keeps its length, takes at least the two gate draws and at most two per gene more, and every gene ends untouched or within [min, max] |
| Mutation.MutateAll | nsga2/nsga2.py:308-310 | the offspring loop as a fold of `mutation` over the listed arrays: the same arrays, the same lengths, an array not yet listed keeps its contents, at least two draws per turn |
| Mutation.MutateAllTurn | nsga2/nsga2.py:308-310 | at its own turn, an array not listed before is mutated from its starting contents, from the draw the earlier turns left |
| Mutation.MutateAllAliased | nsga2/nsga2.py:295-310 | an array listed twice, as a parent cloned into two children, ends holding the mutation of its mutation |
| Nsga2.NSGA2.Settings | nsga2/nsga2.py:414-444 | the values `mutation` reads: mutation_rate, genotype_mutation_probability, disturb_percent and the genome bounds |
| Nsga2.NSGA2.Mutation | nsga2/nsga2.py:414-444 | the genome itself is returned; above the gate it is untouched, otherwise its genes are overwritten with Mutated of the old genes; the genome and the next draw are MutationOf of the old contents |
| Nsga2.NSGA2.AddChild | nsga2/nsga2.py:309-310 | one step of the offspring loop: the genome and the next draw are MutationOf of the old ones, and one fresh member wrapping that same array is appended |
| Nsga2.NSGA2.MutatedStep | nsga2/nsga2.py:309-310 | one more `mutation` call extends the fold MutateAll by one turn |
| Nsga2.NSGA2.MutatedAll | nsga2/nsga2.py:308-310 | after the loop the arrays hold what MutateAll over the whole list gives, and the next draw is its draw |
| Nsga2.NSGA2.NewOffspring | nsga2/nsga2.py:306-310 | each genome is wrapped uncopied in a fresh member of a new population, in order, named by the counter; the arrays end holding, and the stream stands at, what MutateAll gives for the listed arrays, an array listed twice being mutated twice |
| Operators.OffspringCountBounds | nsga2/nsga2.py:285-303 | the offspring count is even, between N and N + 1, and exactly N when N is even |
| Operators.OffspringLoopEnd | nsga2/nsga2.py:289 | the loop over range(0, N, 2) ends at the offspring count |
| Nsga2.NSGA2.Drawn | nsga2/population.py:93-95 | the member get_random_individual returns for a draw is one of the members |
| Nsga2.NSGA2.TournamentIsBetter | nsga2/nsga2.py:249-255 | the tournament over two draws equals Better of the two drawn members under the ranks |
| Nsga2.NSGA2.CrossoverStepAt | nsga2/nsga2.py:291-303 | one step of crossover's loop from draw d: both parents are members; the children are the parents' own genomes exactly when the gate draw is above crossover_rate; at least five draws |
| Nsga2.NSGA2.UsualStepAt | nsga2/nsga2.py:328-336 | one step of usual_crossover's loop from draw d: both parents are members, the children are SBX children, at least four draws |
| Nsga2.NSGA2.StepAt | nsga2/nsga2.py:289-336 | the step of either loop, with the bounds of the one selected |
| Nsga2.NSGA2.Run | nsga2/nsga2.py:289-336 | m steps, each from the draw the one before ended on: four or five draws at least per step; no step of usual_crossover keeps a parent's genome |
| Nsga2.NSGA2.CrossoverPair | nsga2/nsga2.py:291-303 | two tournament winners; above crossover_rate the children are the parents' own genome arrays, otherwise the SBX children |
| Nsga2.NSGA2.CrossoverStepIs | nsga2/nsga2.py:291-303 | what CrossoverPair returns is the pair CrossoverStepAt describes, with its end draw |
| Nsga2.NSGA2.CrossoverRestStep | nsga2/nsga2.py:289-303 | that pair is the next step of the planned run, and the rest of the plan starts where it ends |
| Nsga2.NSGA2.CrossoverStep | nsga2/nsga2.py:291-303 | one turn of crossover's loop yields the planned pair (genomes and contents) and advances the stream to its end |
| Nsga2.NSGA2.PlanRun | nsga2/nsga2.py:289 | the run of m steps from the current draw exists as a plan |
| Nsga2.NSGA2.RunRestNext | nsga2/nsga2.py:289 | step n of a plan is StepAt from where the earlier steps ended, and the plan goes on from its end |
| Nsga2.NSGA2.RunSucc | nsga2/nsga2.py:289 | a run of m + 1 steps is one step followed by m steps from its end |
| Nsga2.NSGA2.RunRestIntro | nsga2/nsga2.py:289 | a plan whose tail is the run of the remaining steps is a plan from that point |
| Nsga2.NSGA2.RunRestWhole | nsga2/nsga2.py:289 | a whole plan is the run itself |
| Nsga2.NSGA2.RunRestDone | nsga2/nsga2.py:289-303 | at the end of the loop every pair of listed arrays yields its step of the run and the stream stands at the run's end |
| Nsga2.NSGA2.CrossoverGenomes | nsga2/nsga2.py:282-303 | 2 * ceil(N / 2) arrays, each fresh or a parent's own array; arrays 2k and 2k + 1 yield step k of the run from the first draw (the parents' own arrays when kept, otherwise SBX children), and the stream stands at the run's end |
| Nsga2.NSGA2.CrossoverMid | nsga2/nsga2.py:282-303 | the same, read as the contents the offspring loop starts from |
| Nsga2.NSGA2.CrossedIs | nsga2/nsga2.py:289-303 | spelled out: array 2k holds genes1 and array 2k + 1 genes2 of step k, and a kept step lists the parents' own arrays |
| Nsga2.NSGA2.Crossover | nsga2/nsga2.py:278-312 | 2 * ceil(N / 2) fresh offspring, named in order, wrapping the listed arrays; the arrays start from the run's contents and end as MutateAll gives; a parent's array that no clone branch listed keeps its contents |
| Nsga2.NSGA2.UsualPair | nsga2/nsga2.py:320-335 | the parents are the usual-tournament winners of draws 1-2 and 3-4; the children are fresh arrays of genotype_quantity genes, each gene pair SbxAt from the draws after the tournaments, one draw per differing gene |
| Nsga2.NSGA2.UsualStepIs | nsga2/nsga2.py:328-336 | what UsualPair returns is the pair UsualStepAt describes, with its end draw |
| Nsga2.NSGA2.UsualRestStep | nsga2/nsga2.py:325-336 | that pair is the next step of the planned run, and the rest of the plan starts where it ends |
| Nsga2.NSGA2.UsualStep | nsga2/nsga2.py:328-336 | one turn of usual_crossover's loop: two distinct fresh arrays yielding the planned pair, the stream at its end |
| Nsga2.NSGA2.UsualGenomes | nsga2/nsga2.py:318-336 | 2 * ceil(N / 2) distinct fresh arrays of genotype_quantity genes; arrays 2k and 2k + 1 hold the SBX children of step k of the run, and the stream stands at the run's end |
| Nsga2.NSGA2.UsualMid | nsga2/nsga2.py:318-336 | the same, read as the contents the offspring loop starts from |
| Nsga2.NSGA2.UsualCrossover | nsga2/nsga2.py:314-342 | 2 * ceil(N / 2) fresh offspring over distinct fresh arrays, named in order; the arrays start from the run's SBX children and end as MutateAll gives, each mutated once at its turn |
| Operators.FlattenLength | nsga2/nsga2.py:96-99 | the members of the first i fronts number Total(i) |
| Operators.TotalMonotone | nsga2/nsga2.py:96-99 | totals never decrease |
| Operators.PyPrefix | nsga2/nsga2.py:106 | Python's s[:n] |
| Operators.CutUnique | nsga2/nsga2.py:96-99 | the stopping front is determined by the front sizes |
| Operators.CutFits | nsga2/nsga2.py:96-99 | the whole fronts taken fit in N and the stopping front is non-empty |
| Operators.TruncationSize | nsga2/nsga2.py:93-109 | the new parent population has exactly N members |
| Nsga2.NSGA2.TakeWholeFronts | nsga2/nsga2.py:93-99 | whole fronts, in rank order, while they fit |
| Nsga2.NSGA2.Truncate | nsga2/nsga2.py:93-109 | the new population is the whole fronts before the stopping front, followed by the prefix of that front sorted by crowded comparison that fills N places |
| SamplePopulations.Population.constructor | nsga2/sample/population.py:28-47 | sizes and bounds stored; individuals, fronts and offspring empty |
| SamplePopulations.Population.StartNewPopulation | nsga2/sample/population.py:54-67 | exactly population_size members are appended after the existing ones; the i-th is named names[i], with x in [x_min, x_max] and y in [y_min, y_max] from two draws |
| SamplePopulations.Population.AddGridMember | nsga2/sample/population.py:59-67 | one turn of that loop |
| SamplePopulations.DistanceKey | nsga2/sample/population.py:72 | the sort key is the negated crowding distance |
| SamplePopulations.ByDistanceSorted | nsga2/sample/population.py:69-72 | sorting a front by crowding distance gives a permutation, non-increasing in distance, stable on ties |
| SamplePopulations.Population.SortFrontsByCrowdingDistance | nsga2/sample/population.py:69-72 | every front is sorted that way; the number of fronts is unchanged |
| SampleSorting.DominanceOf | nsga2/sample/nsga2.py:97-112 | entry (a, b) says whether member a dominates member b |
| SampleSorting.DominanceIsStrictOrder | nsga2/sample/individual.py:38-50 | that matrix is irreflexive and transitive |
| SampleSorting.CompareStep | nsga2/sample/nsga2.py:102-107 | one inner step on indices |
| SampleSorting.CompareWith | nsga2/sample/nsga2.py:102-107 | dominated_by grows by other exactly when current dominates it; otherwise the count grows when other dominates current |
| SampleSorting.CompareWithEveryone | nsga2/sample/nsga2.py:100-107 | a member's count is its number of dominators and dominated_by lists whom it dominates, in order |
| SampleSorting.PairwisePass | nsga2/sample/nsga2.py:97-112 | every member is compared, and the first front is the undominated members in order |
| SampleSorting.ProcessMember | nsga2/sample/nsga2.py:98-112 | one outer round |
| SampleSorting.ReleaseOneDominated | nsga2/sample/nsga2.py:121-126 | one decrement; a member reaching 0 joins the next front |
| SampleSorting.ReleaseDominated | nsga2/sample/nsga2.py:120-126 | the walk over one member's dominated_by list |
| SampleSorting.WalkFront | nsga2/sample/nsga2.py:119-126 | the walk over a whole front yields the next front |
| SampleSorting.RoundDone | nsga2/sample/nsga2.py:127-128 | a walked front extends the peeling and shrinks what is left |
| SampleSorting.PeelRound | nsga2/sample/nsga2.py:117-128 | one round of the peeling loop |
| SampleSorting.PeelingDone | nsga2/sample/nsga2.py:117-131 | at the empty front, the fronts before it are the complete peeling |
| SampleSorting.SortFirstFront | nsga2/sample/nsga2.py:94-112 | the pairwise pass leaves front 0 and the counts the peeling starts from |
| SampleSorting.PeelFronts | nsga2/sample/nsga2.py:117-131 | the peeling loop and the deletion of the empty last front |
| SampleSorting.SortFronts | nsga2/sample/nsga2.py:94-131 | the fronts are the layers of the peeling of the members |
| SampleSorting.InFront | nsga2/sample/nsga2.py:94-131 | a member of front k is listed in layer k |
| SampleSorting.IndexInFront | nsga2/sample/nsga2.py:94-131 | a member listed in layer k is in front k |
| SampleSorting.FirstFrontIsUndominated | nsga2/sample/nsga2.py:97-112 | front 0 holds exactly the members nobody dominates |
| SampleSorting.FrontHasNoDominatingPair | nsga2/sample/nsga2.py:117-128 | no member of a front dominates another of the same front |
| SampleSorting.LaterFrontIsDominated | nsga2/sample/nsga2.py:117-128 | a member of a later front is dominated by a member of the front before it |
| SampleSorting.FrontsPartition | nsga2/sample/nsga2.py:94-131 | every member is in some front, and no member is in two |
| SampleNsga2.NSGA2.constructor | nsga2/sample/nsga2.py:41-47 | a population with the class constants and no members |
| SampleNsga2.NSGA2.NonDominatedSorting | nsga2/sample/nsga2.py:86-131 | starting from empty fronts, the fronts become the non-empty peeling layers of the first POPULATION_SIZE members |
| SampleCrowding.Exceeded | nsga2/sample/nsga2.py:143-152 | the least index from 1 whose first fronts hold at least OFFSPRING_SIZE members |
| SampleCrowding.ExceededFrom | nsga2/sample/nsga2.py:143-152 | the same search started at j |
| SampleCrowding.ExceededFrontIndex | nsga2/sample/nsga2.py:143-152 | the counting loop finds Exceeded |
| SampleCrowding.CountMembers | nsga2/sample/nsga2.py:146-149 | the counter is the number of members of the first n fronts |
| SampleCrowding.TotalOfSameSizes | nsga2/sample/nsga2.py:218-239 | fronts of the same sizes hold the same number of members |
| SampleCrowding.CutHoldsSize | nsga2/sample/nsga2.py:221-239 | after the cut the kept fronts hold exactly OFFSPRING_SIZE members |
| SampleCrowding.Xs | nsga2/sample/nsga2.py:163-170 | the x values of a front, one per member |
| SampleCrowding.Ys | nsga2/sample/nsga2.py:163-170 | the y values of a front, one per member |
| SampleCrowding.CoordinatesAt | nsga2/sample/nsga2.py:163-170 | each member's values sit at its own position |
| SampleCrowding.Coordinates | nsga2/sample/nsga2.py:163-170 | the loop lists the x and y values |
| SampleCrowding.Ascending | nsga2/sample/nsga2.py:169-170 | list.sort on numbers: an ascending permutation |
| SampleCrowding.SortedExtremes | nsga2/sample/nsga2.py:172-175 | min and max of sorted values are the first and the last |
| SampleCrowding.Extremes | nsga2/sample/nsga2.py:172-175 | min() and max() of the sorted lists |
| SampleCrowding.LeftNeighbour | nsga2/sample/nsga2.py:185-190 | the left neighbour's position, the member itself at the start |
| SampleCrowding.RightNeighbour | nsga2/sample/nsga2.py:191-195 | the right neighbour's position, the member itself at the end |
| SampleCrowding.GapBounds | nsga2/sample/nsga2.py:209-213 | on sorted values each axis contributes between 0 and 1 |
| SampleCrowding.GapAtEnds | nsga2/sample/nsga2.py:185-207 | a boundary member uses itself as the missing neighbour |
| SampleCrowding.AmongSorted | nsga2/sample/nsga2.py:185-207 | a member's values are in the sorted lists of its front |
| SampleCrowding.ContributionBounds | nsga2/sample/nsga2.py:178-213 | each member's crowding distance grows by between 0 and 2 |
| SampleCrowding.CrowdMember | nsga2/sample/nsga2.py:180-213 | one member's distance grows by its x gap plus its y gap |
| SampleCrowding.CrowdMembers | nsga2/sample/nsga2.py:178-213 | every member of the front grows that way |
| SampleCrowding.CrowdFront | nsga2/sample/nsga2.py:160-213 | one front is crowded |
| SampleCrowding.CrowdOne | nsga2/sample/nsga2.py:160-213 | one front is crowded and no other front changes |
| SampleCrowding.CrowdFronts | nsga2/sample/nsga2.py:160-213 | every kept member's distance grows by its own front's contribution |
| SampleNsga2.NSGA2.KeepAndCrowd | nsga2/sample/nsga2.py:155-213 | fronts past the exceeded index are deleted, and every kept member's distance grows by its contribution |
| SampleNsga2.NSGA2.CrowdKept | nsga2/sample/nsga2.py:160-213 | the crowding of the kept fronts, stated position by position |
| SampleNsga2.NSGA2.CutLastFront | nsga2/sample/nsga2.py:221-239 | only the tail of the last front is removed, down to OFFSPRING_SIZE members in all |
| SampleNsga2.NSGA2.SortAndCut | nsga2/sample/nsga2.py:218-239 | every front is sorted by descending crowding distance, then the last front is cut |
| SampleNsga2.NSGA2.CrowdingDistanceSorting | nsga2/sample/nsga2.py:133-239 | the kept fronts are the first Exceeded ones; each is sorted by crowding distance with its size unchanged; then the last is cut |
| SampleNsga2.Rotated | nsga2/sample/nsga2.py:270-274 | pop(m) then insert(i): the member at m moves to i and those between shift by one |
| SampleNsga2.RotatedPermutes | nsga2/sample/nsga2.py:270-274 | that move permutes the list |
| SampleNsga2.RotatedStable | nsga2/sample/nsga2.py:262-274 | moving the first member of least sum keeps the order of equal sums |
| SampleNsga2.WithKeyConcat | nsga2/sample/nsga2.py:250-274 | the members of one sum in two joined lists are those of each list, in order |
| SampleNsga2.WithKeyAbove | nsga2/sample/nsga2.py:250-274 | a list whose sums all exceed k has no member of sum k |
| SampleNsga2.SelectionStep | nsga2/sample/nsga2.py:259-274 | one outer step keeps the sorted prefix, the remaining sums and the order of equal sums |
| SampleNsga2.NSGA2.SumsOf | nsga2/sample/nsga2.py:253-257 | the sums x + y, in list order |
| SampleNsga2.NSGA2.LowestIndex | nsga2/sample/nsga2.py:262-267 | the index of the first lowest sum |
| SampleNsga2.NSGA2.MoveToSlot | nsga2/sample/nsga2.py:270-274 | pop(m) and insert(i) on the array |
| SampleNsga2.NSGA2.SortIndividuals | nsga2/sample/nsga2.py:250-274 | the list ends a permutation of itself, sorted ascending by x + y, with members of equal sum in their former order |

## Left out

- `run` of both drivers: the generation loop with its printing, plotting and `evaluate` calls. The package's truncation step is modelled (`Nsga2.NSGA2.Truncate`); the union and the offspring creation are modelled on their own.
- `evaluate` hooks: they are empty in the package. Objective values are inputs of the model.
- `_show_*`, `__str__` and the `__str_*__` helpers: printing only.
- `_plot_individuals_fronts`: matplotlib and numpy.
- `random.seed` calls, and the distributions behind `random.random`, `uniform` and `randint`: the draws are an injected stream.
- The `RANDOM_TYPE == "I"` branch of `initiate`: the constant is `"R"`, so that branch never runs.
- `start_new_population_debug`: dead code that writes to an unused attribute.
- The empty `mutation` and `crossover` stubs of the prototype driver.
- The power computation of `beta_bar` in SBX: transcendental floating point. The spread factor is a function-valued parameter of the driver.
- IEEE rounding everywhere: genes, objectives and distances are exact reals. `sys.maxsize` is a constant.
- `Nsga2.NSGA2.FastNonDominatedSort`: freshness of the returned front populations is not stated. The proof of that frame was too costly.
- `Nsga2.NSGA2.FastNonDominatedSort`: requires the members to be distinct objects with objective lists of one length. A repeated member would be compared with itself twice. With lists of different lengths `dominates` may raise IndexError; it does not when `and`/`or` short-circuit first (nsga2/individual.py:60-61), e.g. [0, 2, 7] against [1, 1] returns False.
- `SampleNsga2.NSGA2.NonDominatedSorting`: requires distinct members that start with count 0 and an empty `dominated_by`, as the constructor leaves them.
- `SampleNsga2.NSGA2.CrowdingDistanceSorting`: its ensures does not say outright that the fronts end with OFFSPRING_SIZE members in total. That property is the lemma `SampleCrowding.CutHoldsSize`, over the same `Cut` of fronts of the same sizes.
- `SampleNsga2.NSGA2.CrowdingDistanceSorting`: the per-member crowding growth is stated by `SampleNsga2.NSGA2.KeepAndCrowd`, which it calls, not by its own ensures.
- `SampleNsga2.NSGA2.CrowdingDistanceSorting`: requires every kept front to have members spread on both axes. A one-member front raises IndexError and equal extremes raise ZeroDivisionError.
- `SampleNsga2.NSGA2.CrowdingDistanceSorting`: when OFFSPRING_SIZE is 0 or less, the exceeded loop still stops at index 1. It does not run forever, and the model follows the code.
- `SampleNsga2.NSGA2.SortIndividuals`: requires every x + y to be below `sys.maxsize`, the sentinel the sort writes over chosen sums.
- `Populations.Population.Union`: requires a different population. A self-union appends to the list it iterates over and never ends.
- `Operators.CrowdedComparison`: the identity test `individual_A == individual_B` is modelled as written. The crowding-distance branch is therefore unreachable, and `Operators.CrowdedComparisonByRank` proves it.
- `Populations.Population.GetLastFront`: the returned list is the front's value. Python's aliasing of that list object is not modelled; later appends are modelled as assignments to the front.
- `Nsga2.NSGA2.Truncate` and `Nsga2.NSGA2.TakeWholeFronts`: require `population_size` to be smaller than the fronts' total size. When every front fits, the source's `while` loop reads `fronts[len(fronts)]` and raises IndexError (nsga2/nsga2.py:96). `run` never gets there for N >= 1: the merged population holds N parents (or N // 2 at the first generation) plus 2 * ceil(N / 2) children, which is more than N.
- `Nsga2.NSGA2.SortByCrowdedComparison`: requires a non-empty front. On an empty list the source raises IndexError at `population.individuals[0]` (nsga2/nsga2.py:245); `run` only sorts the stopping front, which is non-empty.
- `Mutation.MutateAll`: it is not proved that an array listed once ends, after all later turns, holding exactly one mutation of its start. `Mutation.MutateAllTurn` states it at the array's own turn and the fold leaves it alone afterwards only by its definition; `Mutation.MutateAllAliased` states the double mutation of an array listed twice.
- `Crowding.CrowdingGapBounds` and `Crowding.SortOnGene`: crowding distance sorts and normalises on `genome[g]`, not on `solutions`, as the code does.
