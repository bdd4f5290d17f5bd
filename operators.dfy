// nsga2/nsga2.py: the value-level meaning of the selection and variation
// operators of the NSGA-II class (crowded comparison and the order it sorts a
// front into, the tournament score, one gene of simulated binary crossover and the
// front prefix sums of the truncation step).
module Operators {
  import opened Common
  import opened Random
  import opened Individuals

  // ---------------------------------------------------------------------------
  // Crowded comparison
  // ---------------------------------------------------------------------------

  /**
   * What crowded_comparison needs to return without a TypeError: both ranks
   * set, and when a and b are one object its crowding distance set too (None
   * does not compare in Python 3).
   */
  predicate Comparable(a: Individual, b: Individual)
    reads a, b
  {
    a.rank.Some? && b.rank.Some? && (a == b ==> a.crowdingDistance.Some?)
  }

  /**
   * `crowded_comparison`: the source tests `A == B`, an identity test, so the
   * crowding-distance tie-break can only fire for one object compared with
   * itself, where it is false. Two different members are told apart by rank
   * alone: a is returned exactly when its rank is smaller, so the result has
   * the smaller rank of the two.
   */
  function CrowdedComparison(a: Individual, b: Individual): (r: Individual)
    requires Comparable(a, b)
    reads a, b
    ensures r == a || r == b
    ensures a != b ==> (r == a <==> a.rank.value < b.rank.value)
    ensures r.rank.value <= a.rank.value && r.rank.value <= b.rank.value
  {
    if a.rank.value < b.rank.value || (a == b && a.crowdingDistance.value > b.crowdingDistance.value) then a
    else b
  }

  /** Every member has a rank and a crowding distance, as after crowding_distance_assignment. */
  predicate Ranked(xs: seq<Individual>)
    reads set x | x in xs
  {
    forall x :: x in xs ==> x.rank.Some? && x.crowdingDistance.Some?
  }

  /** Every member of xs has a crowding distance and a rank, the one rk records for it. */
  predicate RankedBy(xs: seq<Individual>, rk: map<Individual, int>)
    reads set x | x in xs
  {
    forall x :: x in xs ==> x.rank.Some? && x.crowdingDistance.Some? && x in rk && rk[x] == x.rank.value
  }

  /**
   * The ranks of the members of xs. Sorting never writes a rank, so the sort
   * is specified over these values rather than over the heap.
   */
  function Ranks(xs: seq<Individual>): (m: map<Individual, int>)
    requires Ranked(xs)
    reads set x | x in xs
    ensures forall x :: x in xs ==> x in m && m[x] == x.rank.value
  {
    map x | x in xs :: x.rank.value
  }

  /** The rank recorded for x (members outside the map never reach a comparison). */
  function RankOf(rk: map<Individual, int>, x: Individual): int
  {
    if x in rk then rk[x] else 0
  }

  /** crowded_comparison with the ranks read from rk: the member of smaller rank, else the second. */
  function Better(a: Individual, b: Individual, rk: map<Individual, int>): (r: Individual)
    ensures r == a || r == b
    ensures RankOf(rk, r) <= RankOf(rk, a) && RankOf(rk, r) <= RankOf(rk, b)
    ensures a != b ==> (r == a <==> RankOf(rk, a) < RankOf(rk, b))
  {
    if RankOf(rk, a) < RankOf(rk, b) then a else b
  }

  /** The crowding-distance tie-break of crowded_comparison never changes its answer. */
  lemma CrowdedComparisonByRank(a: Individual, b: Individual, rk: map<Individual, int>)
    requires Comparable(a, b)
    requires a in rk && rk[a] == a.rank.value && b in rk && rk[b] == b.rank.value
    ensures CrowdedComparison(a, b) == Better(a, b, rk)
  {
  }

  /**
   * The `worst` of the inner loop of sort_by_crowded_comparison after the
   * positions 1 .. j - 1 of t: w compared with each of them in turn. Its rank
   * is the smallest of all of them.
   */
  function Worst(w: Individual, t: seq<Individual>, j: nat, rk: map<Individual, int>): (r: Individual)
    requires 1 <= j <= |t|
    ensures r == w || r in t
    ensures RankOf(rk, r) <= RankOf(rk, w)
    decreases j
  {
    if j == 1 then w else Better(Worst(w, t, j - 1, rk), t[j - 1], rk)
  }

  /** The scan keeps a member of least rank among w and positions 1 .. j - 1. */
  lemma {:induction false} WorstIsLeast(w: Individual, t: seq<Individual>, j: nat, rk: map<Individual, int>)
    requires 1 <= j <= |t|
    ensures forall k :: 1 <= k < j ==> RankOf(rk, Worst(w, t, j, rk)) <= RankOf(rk, t[k])
  {
    if j > 1 {
      WorstIsLeast(w, t, j - 1, rk);
    }
  }

  /** Every member of xs has rank r. */
  predicate Tied(xs: seq<Individual>, rk: map<Individual, int>, r: int)
  {
    forall x :: x in xs ==> RankOf(rk, x) == r
  }

  /** Among members of one rank every comparison goes to its second argument, so the scan ends on the last. */
  lemma WorstOnTie(w: Individual, t: seq<Individual>, j: nat, rk: map<Individual, int>, r: int)
    requires 2 <= j <= |t| && RankOf(rk, w) == r && Tied(t, rk, r)
    ensures Worst(w, t, j, rk) == t[j - 1]
  {
    var v := Worst(w, t, j - 1, rk);
    assert RankOf(rk, v) == r;
  }

  /** `list.remove(x)` followed by `list.append(x)`, one member at a time (see MoveToEndIsRemoveAppend). */
  function MoveToEnd<T(==)>(s: seq<T>, x: T): (r: seq<T>)
    requires x in s
    ensures |r| == |s| && r[|r| - 1] == x
  {
    if s[0] == x then s[1..] + [x] else [s[0]] + MoveToEnd(s[1..], x)
  }

  lemma {:induction false} MoveToEndIsRemoveAppend<T>(s: seq<T>, x: T)
    requires x in s
    ensures MoveToEnd(s, x) == RemoveFirst(s, x) + [x]
  {
    if s[0] != x {
      MoveToEndIsRemoveAppend(s[1..], x);
      RemoveFirstPast(s, x);
    }
  }

  lemma MoveToEndMultiset<T>(s: seq<T>, x: T)
    requires x in s
    ensures multiset(MoveToEnd(s, x)) == multiset(s)
  {
    MoveToEndIsRemoveAppend(s, x);
    RemoveFirstMultiset(s, x);
  }

  /** The outer loop of sort_by_crowded_comparison runs len - 2 turns, none for fewer than two members. */
  function Turns(n: nat): nat
  {
    if n < 2 then 0 else n - 2
  }

  /**
   * The list after the first i outer turns of sort_by_crowded_comparison:
   * turn t scans from position t, comparing with positions 1 .. len - t - 1,
   * and moves the winner to the end.
   */
  function CrowdedTurns(s: seq<Individual>, rk: map<Individual, int>, i: nat): (r: seq<Individual>)
    requires i <= Turns(|s|)
    ensures |r| == |s|
    decreases i
  {
    if i == 0 then s
    else
      var t := CrowdedTurns(s, rk, i - 1);
      MoveToEnd(t, Worst(t[i - 1], t, |s| - (i - 1), rk))
  }

  /** The outer turns only reorder the front. */
  lemma {:induction false} CrowdedTurnsPermutes(s: seq<Individual>, rk: map<Individual, int>, i: nat)
    requires i <= Turns(|s|)
    ensures multiset(CrowdedTurns(s, rk, i)) == multiset(s)
  {
    if i == 0 {
      NoTurns(s, rk);
    } else {
      CrowdedTurnsPermutes(s, rk, i - 1);
      CrowdedTurnPermutes(s, rk, i);
    }
  }

  lemma NoTurns(s: seq<Individual>, rk: map<Individual, int>)
    ensures CrowdedTurns(s, rk, 0) == s
  {
  }

  lemma CrowdedTurnPermutes(s: seq<Individual>, rk: map<Individual, int>, i: nat)
    requires 0 < i <= Turns(|s|)
    requires multiset(CrowdedTurns(s, rk, i - 1)) == multiset(s)
    ensures multiset(CrowdedTurns(s, rk, i)) == multiset(s)
  {
    var t := CrowdedTurns(s, rk, i - 1);
    MoveToEndMultiset(t, Worst(t[i - 1], t, |s| - (i - 1), rk));
  }

  /**
   * Turn i + 1 of sort_by_crowded_comparison as the loop performs it: w, the
   * member the scan keeps from the current order t, is removed at its first
   * occurrence and appended.
   */
  lemma CrowdedTurnStep(s: seq<Individual>, rk: map<Individual, int>, i: nat, t: seq<Individual>, w: Individual)
    requires i < Turns(|s|) && t == CrowdedTurns(s, rk, i)
    requires w == Worst(t[i], t, |t| - i, rk)
    ensures CrowdedTurns(s, rk, i + 1) == RemoveFirst(t, w) + [w]
  {
    MoveToEndIsRemoveAppend(t, w);
  }

  /** The last move of sort_by_crowded_comparison, after all the turns t: the first member to the end. */
  lemma CrowdedLastStep(s: seq<Individual>, rk: map<Individual, int>, t: seq<Individual>)
    requires |s| > 0 && t == CrowdedTurns(s, rk, Turns(|s|))
    ensures CrowdedOrder(s, rk) == RemoveFirst(t, t[0]) + [t[0]]
  {
    MoveToEndIsRemoveAppend(t, t[0]);
  }

  /** A reordering keeps every member ranked as rk records. */
  lemma RankedByPermutation(s: seq<Individual>, t: seq<Individual>, rk: map<Individual, int>)
    requires multiset(t) == multiset(s) && RankedBy(s, rk)
    ensures RankedBy(t, rk)
  {
    SameElements(s, t);
  }

  lemma SameElements<T>(s: seq<T>, t: seq<T>)
    requires multiset(t) == multiset(s)
    ensures forall x :: x in t ==> x in s
  {
    forall x | x in t ensures x in s {
      assert x in multiset(t);
    }
  }

  /** The list sort_by_crowded_comparison leaves: all outer turns, then the first member moved to the end. */
  function CrowdedOrder(s: seq<Individual>, rk: map<Individual, int>): (r: seq<Individual>)
    requires |s| > 0
    ensures multiset(r) == multiset(s) && |r| == |s|
  {
    var t := CrowdedTurns(s, rk, Turns(|s|));
    CrowdedTurnsPermutes(s, rk, Turns(|s|));
    MoveToEndMultiset(t, t[0]);
    MoveToEnd(t, t[0])
  }

  lemma ReverseFrom<T>(s: seq<T>, k: nat)
    requires k < |s|
    ensures Reverse(s[k..]) == Reverse(s[k + 1..]) + [s[k]]
  {
    assert s[k..][1..] == s[k + 1..];
  }

  /** s with its last i members reversed in place. */
  function ReverseTail<T>(s: seq<T>, i: nat): (r: seq<T>)
    requires i <= |s|
  {
    s[..|s| - i] + Reverse(s[|s| - i..])
  }

  /** Moving the member just before the reversed tail to the end lengthens the reversed tail by one. */
  lemma ReverseTailStep<T>(s: seq<T>, i: nat)
    requires Distinct(s) && 0 < i < |s|
    ensures ReverseTail(s, i - 1)[|s| - i] == s[|s| - i]
    ensures MoveToEnd(ReverseTail(s, i - 1), s[|s| - i]) == ReverseTail(s, i)
  {
    ReverseTailSplit(s, i);
    ReverseTailRemove(s, i);
    MoveToEndIsRemoveAppend(ReverseTail(s, i - 1), s[|s| - i]);
    ReverseTailGrow(s, i);
  }

  lemma ReverseTailGrow<T>(s: seq<T>, i: nat)
    requires 0 < i < |s|
    ensures ReverseTail(s, i) == (s[..|s| - i] + Reverse(s[|s| - i + 1..])) + [s[|s| - i]]
  {
    ReverseFrom(s, |s| - i);
  }

  /** Removing the member just before the reversed tail. */
  lemma ReverseTailRemove<T>(s: seq<T>, i: nat)
    requires Distinct(s) && 0 < i < |s|
    ensures s[|s| - i] in ReverseTail(s, i - 1)
    ensures RemoveFirst(ReverseTail(s, i - 1), s[|s| - i]) == s[..|s| - i] + Reverse(s[|s| - i + 1..])
  {
    var n := |s|;
    var head, x, rev := s[..n - i], s[n - i], Reverse(s[n - i + 1..]);
    ReverseTailSplit(s, i);
    ReverseTailDistinct(s, i - 1);
    var t := ReverseTail(s, i - 1);
    assert t[n - i] == x;
    RemoveFirstDistinct(t, n - i);
    assert t[..n - i] == head && t[n - i + 1..] == rev;
  }

  lemma ReverseTailSplit<T>(s: seq<T>, i: nat)
    requires 0 < i < |s|
    ensures ReverseTail(s, i - 1) == s[..|s| - i] + [s[|s| - i]] + Reverse(s[|s| - i + 1..])
  {
    var n := |s|;
    assert s[..n - (i - 1)] == s[..n - i] + [s[n - i]];
  }

  lemma ReverseTailDistinct<T>(s: seq<T>, i: nat)
    requires Distinct(s) && i <= |s|
    ensures Distinct(ReverseTail(s, i))
  {
    var n := |s|;
    assert multiset(ReverseTail(s, i)) == multiset(s) by {
      assert s == s[..n - i] + s[n - i..];
      ReverseMultiset(s[n - i..]);
    }
    DistinctPermutation(s, ReverseTail(s, i));
  }

  lemma {:induction false} ReverseMultiset<T>(s: seq<T>)
    ensures multiset(Reverse(s)) == multiset(s)
  {
    if s != [] {
      ReverseMultiset(s[1..]);
      assert s == [s[0]] + s[1..];
    }
  }

  /** Turn t moving the member at position len - 1 - t to the end, for the first i turns. */
  function TieSteps<T(==)>(s: seq<T>, i: nat): (r: seq<T>)
    requires i <= |s|
    ensures |r| == |s|
  {
    if i == 0 then s
    else
      var t := TieSteps(s, i - 1);
      MoveToEnd(t, t[|s| - i])
  }

  /** On a front of one rank, each outer turn moves the member at position len - 1 - turn to the end. */
  lemma {:induction false} TieTurns(s: seq<Individual>, rk: map<Individual, int>, i: nat, r: int)
    requires Tied(s, rk, r) && i <= Turns(|s|)
    ensures CrowdedTurns(s, rk, i) == TieSteps(s, i)
  {
    if i == 0 {
      NoTurns(s, rk);
      assert TieSteps(s, 0) == s;
    } else {
      TieTurns(s, rk, i - 1, r);
      TieTurn(s, rk, i, r);
    }
  }

  lemma TieTurn(s: seq<Individual>, rk: map<Individual, int>, i: nat, r: int)
    requires Tied(s, rk, r) && 0 < i <= Turns(|s|)
    requires CrowdedTurns(s, rk, i - 1) == TieSteps(s, i - 1)
    ensures CrowdedTurns(s, rk, i) == TieSteps(s, i)
  {
    TieTurnMovesLast(s, rk, i, r);
  }

  lemma TieTurnMovesLast(s: seq<Individual>, rk: map<Individual, int>, i: nat, r: int)
    requires Tied(s, rk, r) && 0 < i <= Turns(|s|)
    ensures CrowdedTurns(s, rk, i) == MoveToEnd(CrowdedTurns(s, rk, i - 1), CrowdedTurns(s, rk, i - 1)[|s| - i])
  {
    TurnsStayTied(s, rk, i - 1, r);
    TurnOnTie(CrowdedTurns(s, rk, i - 1), |s|, rk, i, r);
  }

  /** Turn i (from 1) on a list of one rank picks the member at position n - i. */
  lemma TurnOnTie(t: seq<Individual>, n: nat, rk: map<Individual, int>, i: nat, r: int)
    requires |t| == n && 0 < i && i + 1 < n && Tied(t, rk, r)
    ensures Worst(t[i - 1], t, n - (i - 1), rk) == t[n - i]
  {
    WorstOnTie(t[i - 1], t, n - (i - 1), rk, r);
  }

  lemma TurnsStayTied(s: seq<Individual>, rk: map<Individual, int>, i: nat, r: int)
    requires Tied(s, rk, r) && i <= Turns(|s|)
    ensures Tied(CrowdedTurns(s, rk, i), rk, r)
  {
    CrowdedTurnsPermutes(s, rk, i);
    SameElements(s, CrowdedTurns(s, rk, i));
  }

  /** On a list without repeats those moves reverse the tail in place. */
  lemma {:induction false} TieStepsReverse<T>(s: seq<T>, i: nat)
    requires Distinct(s) && i < |s|
    ensures TieSteps(s, i) == ReverseTail(s, i)
  {
    if i == 0 {
      ReverseTailNone(s);
    } else {
      TieStepsReverse(s, i - 1);
      TieStepReverse(s, i);
    }
  }

  lemma ReverseTailNone<T>(s: seq<T>)
    ensures ReverseTail(s, 0) == s
  {
    assert s[|s|..] == [];
  }

  lemma TieStepReverse<T>(s: seq<T>, i: nat)
    requires Distinct(s) && 0 < i < |s|
    requires TieSteps(s, i - 1) == ReverseTail(s, i - 1)
    ensures TieSteps(s, i) == ReverseTail(s, i)
  {
    ReverseTailStep(s, i);
  }

  /**
   * The crowding distances play no part: on a front of distinct members of one
   * rank, sort_by_crowded_comparison yields the second member, the members
   * from the third on in reverse, and the first member last.
   */
  lemma CrowdedOrderOnTie(s: seq<Individual>, rk: map<Individual, int>, r: int)
    requires Tied(s, rk, r) && Distinct(s) && |s| > 0
    ensures |s| == 1 ==> CrowdedOrder(s, rk) == s
    ensures |s| >= 2 ==> CrowdedOrder(s, rk) == [s[1]] + Reverse(s[2..]) + [s[0]]
  {
    var n := |s|;
    TieTurns(s, rk, Turns(n), r);
    TieStepsReverse(s, Turns(n));
    if n >= 2 {
      FirstToEnd(s);
    } else {
      assert ReverseTail(s, 0) == s;
    }
  }

  /** The last move of sort_by_crowded_comparison on a front whose tail from the third member is reversed. */
  lemma FirstToEnd<T>(s: seq<T>)
    requires |s| >= 2
    ensures s[0] in ReverseTail(s, |s| - 2)
    ensures MoveToEnd(ReverseTail(s, |s| - 2), s[0]) == [s[1]] + Reverse(s[2..]) + [s[0]]
  {
    FirstTwoBeforeReversed(s);
    var t := ReverseTail(s, |s| - 2);
    assert t[0] == s[0];
    assert t[1..] == [s[1]] + Reverse(s[2..]);
  }

  lemma FirstTwoBeforeReversed<T>(s: seq<T>)
    requires |s| >= 2
    ensures ReverseTail(s, |s| - 2) == [s[0], s[1]] + Reverse(s[2..])
  {
    assert s[..2] == [s[0], s[1]];
  }

  // ---------------------------------------------------------------------------
  // usual_tournament_selection: gene-by-gene score
  // ---------------------------------------------------------------------------

  /** How many of the first n genes of a are strictly smaller than the same gene of b. */
  function Wins(a: seq<real>, b: seq<real>, n: nat): (w: nat)
    requires n <= |a| && n <= |b|
    ensures w <= n
  {
    if n == 0 then 0 else Wins(a, b, n - 1) + (if a[n - 1] < b[n - 1] then 1 else 0)
  }

  /** A gene scores for at most one of the two candidates. */
  lemma {:induction false} WinsShared(a: seq<real>, b: seq<real>, n: nat)
    requires n <= |a| && n <= |b|
    ensures Wins(a, b, n) + Wins(b, a, n) <= n
  {
    if n > 0 {
      WinsShared(a, b, n - 1);
    }
  }

  /** A candidate that is below the other on every gene scores every gene. */
  lemma {:induction false} WinsEverywhere(a: seq<real>, b: seq<real>, n: nat)
    requires n <= |a| && n <= |b|
    requires forall i :: 0 <= i < n ==> a[i] < b[i]
    ensures Wins(a, b, n) == n && Wins(b, a, n) == 0
  {
    if n > 0 {
      WinsEverywhere(a, b, n - 1);
    }
  }

  /** The first candidate is returned only with a strictly higher score; a draw goes to the second. */
  predicate FirstWinsUsual(a: seq<real>, b: seq<real>, n: nat)
    requires n <= |a| && n <= |b|
  {
    Wins(a, b, n) > Wins(b, a, n)
  }

  /** Neither two identical genomes nor a swapped pair can both go to the first candidate. */
  lemma UsualTournamentAntisymmetric(a: seq<real>, b: seq<real>, n: nat)
    requires n <= |a| && n <= |b|
    ensures !(FirstWinsUsual(a, b, n) && FirstWinsUsual(b, a, n))
    ensures !FirstWinsUsual(a, a, n)
  {
  }

  /** A first candidate below the second on every gene wins, as long as there is a gene. */
  lemma UsualTournamentDominant(a: seq<real>, b: seq<real>, n: nat)
    requires 0 < n <= |a| && n <= |b|
    requires forall i :: 0 <= i < n ==> a[i] < b[i]
    ensures FirstWinsUsual(a, b, n) && !FirstWinsUsual(b, a, n)
  {
    WinsEverywhere(a, b, n);
  }

  // ---------------------------------------------------------------------------
  // simulated_binary_crossover: one gene
  // ---------------------------------------------------------------------------

  /** Genes closer than this are copied unchanged. */
  const Eps: real := 0.00000000000001

  /**
   * The two children's values for one gene of parents valued p1 and p2, with u
   * the uniform draw and betaBar the spread factor of the smaller and larger
   * parent value.
   */
  function SbxGene(p1: real, p2: real, u: real, betaBar: (real, real, real) -> real): (c: (real, real))
    ensures Abs(p1 - p2) <= Eps ==> c == (p1, p2)
    ensures c.0 + c.1 == p1 + p2
  {
    var y1 := if p1 < p2 then p1 else p2;
    var y2 := if p1 < p2 then p2 else p1;
    if Abs(p1 - p2) > Eps then
      var spread := betaBar(u, y1, y2) * (y2 - y1);
      (0.5 * ((y1 + y2) - spread), 0.5 * ((y1 + y2) + spread))
    else
      (p1, p2)
  }

  /** The children lie betaBar times the parents' distance apart: beta_bar is the spread factor of SBX. */
  lemma SbxGeneSpread(p1: real, p2: real, u: real, betaBar: (real, real, real) -> real)
    requires Abs(p1 - p2) > Eps
    ensures var lo := if p1 < p2 then p1 else p2;
            var hi := if p1 < p2 then p2 else p1;
            var c := SbxGene(p1, p2, u, betaBar);
            c.1 - c.0 == betaBar(u, lo, hi) * Abs(p1 - p2)
  {
    var lo := if p1 < p2 then p1 else p2;
    var hi := if p1 < p2 then p2 else p1;
    assert hi - lo == Abs(p1 - p2);
  }

  /**
   * Gene k of the two children of simulated_binary_crossover, the draws
   * starting at draw first: one draw for each earlier gene on which the
   * parents differ.
   */
  function SbxAt(g1: seq<real>, g2: seq<real>, stream: nat -> real, first: nat, k: nat,
                 betaBar: (real, real, real) -> real): (c: (real, real))
    requires k < |g1| && k < |g2|
    ensures Abs(g1[k] - g2[k]) <= Eps ==> c == (g1[k], g2[k])
    ensures c.0 + c.1 == g1[k] + g2[k]
  {
    SbxGene(g1[k], g2[k], stream(first + Differing(g1, g2, k)), betaBar)
  }

  /** With a non-negative spread factor the first child is never above the second. */
  lemma SbxGeneOrdered(p1: real, p2: real, u: real, betaBar: (real, real, real) -> real)
    requires Abs(p1 - p2) > Eps
    requires betaBar(u, if p1 < p2 then p1 else p2, if p1 < p2 then p2 else p1) >= 0.0
    ensures SbxGene(p1, p2, u, betaBar).0 <= SbxGene(p1, p2, u, betaBar).1
  {
    var b := betaBar(u, if p1 < p2 then p1 else p2, if p1 < p2 then p2 else p1);
    var d := Abs(p1 - p2);
    assert b * d >= 0.0;
  }

  /** A spread factor of one gives the parents back, smaller value first. */
  lemma SbxGeneUnitSpread(p1: real, p2: real, u: real, betaBar: (real, real, real) -> real)
    requires Abs(p1 - p2) > Eps
    requires betaBar(u, if p1 < p2 then p1 else p2, if p1 < p2 then p2 else p1) == 1.0
    ensures SbxGene(p1, p2, u, betaBar) == (if p1 < p2 then (p1, p2) else (p2, p1))
  {
  }

  /** How many of the first j genes differ by more than Eps, that is, how many draws the crossover has made before gene j. */
  function Differing(a: seq<real>, b: seq<real>, j: nat): (k: nat)
    requires j <= |a| && j <= |b|
    ensures k <= j
  {
    if j == 0 then 0 else Differing(a, b, j - 1) + (if Abs(a[j - 1] - b[j - 1]) > Eps then 1 else 0)
  }

  /** Identical parents draw nothing. */
  lemma {:induction false} DifferingSelf(a: seq<real>, j: nat)
    requires j <= |a|
    ensures Differing(a, a, j) == 0
  {
    if j > 0 {
      DifferingSelf(a, j - 1);
    }
  }

  /** The two child genomes of simulated_binary_crossover on parents g1 and g2, its draws starting at draw first. */
  function SbxChildren(g1: seq<real>, g2: seq<real>, stream: nat -> real, first: nat, n: nat,
                       betaBar: (real, real, real) -> real): (c: (seq<real>, seq<real>))
    requires n <= |g1| && n <= |g2|
    ensures |c.0| == n && |c.1| == n
    ensures forall j :: 0 <= j < n ==> (c.0[j], c.1[j]) == SbxAt(g1, g2, stream, first, j, betaBar)
  {
    (seq(n, j requires 0 <= j < n => SbxAt(g1, g2, stream, first, j, betaBar).0),
     seq(n, j requires 0 <= j < n => SbxAt(g1, g2, stream, first, j, betaBar).1))
  }

  // ---------------------------------------------------------------------------
  // crossover: how many offspring a generation makes
  // ---------------------------------------------------------------------------

  /** Two children per step of range(0, n, 2). */
  function OffspringCount(n: int): (c: nat)
  {
    if n <= 0 then 0 else 2 * ((n + 1) / 2)
  }

  /** The offspring count is even, at least n and at most n + 1; exactly n when n is even. */
  lemma OffspringCountBounds(n: int)
    requires n > 0
    ensures OffspringCount(n) % 2 == 0
    ensures n <= OffspringCount(n) <= n + 1
    ensures n % 2 == 0 ==> OffspringCount(n) == n
  {
  }

  /** Where the loop over range(0, n, 2) stops: the first even number that is at least n, and at least 0. */
  lemma OffspringLoopEnd(n: int, i: int)
    requires 0 <= i && i % 2 == 0 && (i == 0 || i - 2 < n) && n <= i
    ensures i == OffspringCount(n)
  {
  }

  // ---------------------------------------------------------------------------
  // The truncation step of run(): fronts taken whole, then a prefix
  // ---------------------------------------------------------------------------

  /** The fronts' members one after the other. */
  function Flatten<T>(fs: seq<seq<T>>): (r: seq<T>)
  {
    if fs == [] then [] else Flatten(fs[..|fs| - 1]) + fs[|fs| - 1]
  }

  /** Total number of members of the first i fronts. */
  function Total<T>(fs: seq<seq<T>>, i: nat): (n: nat)
    requires i <= |fs|
  {
    if i == 0 then 0 else Total(fs, i - 1) + |fs[i - 1]|
  }

  /** Flattening the first i fronts yields Total(fs, i) members. */
  lemma {:induction false} FlattenLength<T>(fs: seq<seq<T>>, i: nat)
    requires i <= |fs|
    ensures |Flatten(fs[..i])| == Total(fs, i)
  {
    if i > 0 {
      FlattenLength(fs, i - 1);
      assert fs[..i][..i - 1] == fs[..i - 1];
    }
  }

  /** Totals never decrease. */
  lemma {:induction false} TotalMonotone<T>(fs: seq<seq<T>>, i: nat, j: nat)
    requires i <= j <= |fs|
    ensures Total(fs, i) <= Total(fs, j)
    decreases j - i
  {
    if i < j {
      TotalMonotone(fs, i, j - 1);
    }
  }

  /** Python's s[:n]: a negative n counts from the end, and an n past the end keeps everything. */
  function PyPrefix<T>(s: seq<T>, n: int): (r: seq<T>)
    ensures 0 <= n <= |s| ==> r == s[..n]
    ensures n >= |s| ==> r == s
    ensures |r| <= |s| && r == s[..|r|]
  {
    if n >= 0 then (if n <= |s| then s[..n] else s)
    else (if -n <= |s| then s[..|s| + n] else [])
  }

  /**
   * cut is where the truncation loop of run() stops for a population size n:
   * every earlier front still fitted, and front cut does not.
   */
  predicate IsCut<T>(fs: seq<seq<T>>, n: int, cut: nat)
  {
    cut < |fs| &&
    (forall j :: 0 < j <= cut ==> Total(fs, j) <= n) &&
    n < Total(fs, cut + 1)
  }

  /** The stopping point is determined by the front sizes. */
  lemma CutUnique<T>(fs: seq<seq<T>>, n: int, c1: nat, c2: nat)
    requires IsCut(fs, n, c1) && IsCut(fs, n, c2)
    ensures c1 == c2
  {
  }

  /**
   * With a non-negative size, the fronts taken whole hold at most n members
   * and the cut front is not empty; with a negative size the loop stops at
   * the first front.
   */
  lemma CutFits<T>(fs: seq<seq<T>>, n: int, cut: nat)
    requires IsCut(fs, n, cut)
    ensures n >= 0 ==> Total(fs, cut) <= n
    ensures n < 0 ==> cut == 0
    ensures n >= 0 || fs[0] != [] ==> fs[cut] != []
  {
    if cut > 0 {
      assert Total(fs, cut) <= n;
    }
    assert Total(fs, 1) >= 0;
  }

  /**
   * The next population is the fronts before the cut followed by the first
   * n - Total(fs, cut) members of the sorted cut front: exactly n members
   * whenever n is not negative.
   */
  lemma TruncationSize<T>(fs: seq<seq<T>>, n: int, cut: nat, sorted: seq<T>)
    requires IsCut(fs, n, cut) && n >= 0 && |sorted| == |fs[cut]|
    ensures |Flatten(fs[..cut]) + PyPrefix(sorted, n - Total(fs, cut))| == n
  {
    CutFits(fs, n, cut);
    FlattenLength(fs, cut);
    var taken := n - Total(fs, cut);
    assert 0 <= taken <= |sorted|;
    assert |PyPrefix(sorted, taken)| == taken;
  }
}
