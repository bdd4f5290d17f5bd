// The theory behind "fast non-dominated sorting" (section III-A of Deb et al.,
// 2002), stated on indices: the population is 0..n-1, R[a][b] says that a
// dominates b, and a list of fronts F peels the population layer by layer.
// Both sorts of the package (nsga2/nsga2.py and nsga2/sample/nsga2.py) keep the
// predicates below as loop invariants and draw their results from the lemmas.
module Ranking {
  import opened Common

  /** R[a][b]: individual a dominates individual b. */
  type Matrix = seq<seq<bool>>

  ghost predicate IsSquare(R: Matrix)
  {
    forall a :: 0 <= a < |R| ==> |R[a]| == |R|
  }

  /** Dominance is irreflexive and transitive. */
  ghost predicate StrictOrder(R: Matrix)
  {
    IsSquare(R) &&
    (forall a :: 0 <= a < |R| ==> !R[a][a]) &&
    (forall a, b, c :: 0 <= a < |R| && 0 <= b < |R| && 0 <= c < |R| && R[a][b] && R[b][c] ==> R[a][c])
  }

  lemma Asymmetric(R: Matrix, a: nat, b: nat)
    requires StrictOrder(R) && a < |R| && b < |R| && R[a][b]
    ensures !R[b][a]
  {
  }

  /** The individuals below j that dominate x. */
  ghost function DominatorsBelow(R: Matrix, x: nat, j: nat): set<nat>
    requires IsSquare(R) && x < |R| && j <= |R|
  {
    set y: nat | y < j && R[y][x]
  }

  /** The individuals that dominate x. */
  ghost function Dominators(R: Matrix, x: nat): set<nat>
    requires IsSquare(R) && x < |R|
  {
    DominatorsBelow(R, x, |R|)
  }

  lemma DominatorsBelowStep(R: Matrix, x: nat, j: nat)
    requires IsSquare(R) && x < |R| && j < |R|
    ensures DominatorsBelow(R, x, j + 1) == DominatorsBelow(R, x, j) + (if R[j][x] then {j} else {})
  {
  }

  /** The individuals x dominates among 0..k-1, in increasing order. */
  ghost function Dominated(R: Matrix, x: nat, k: nat): (r: seq<nat>)
    requires IsSquare(R) && x < |R| && k <= |R|
    ensures forall t :: 0 <= t < |r| ==> r[t] < k
  {
    if k == 0 then [] else Dominated(R, x, k - 1) + (if R[x][k - 1] then [k - 1] else [])
  }

  lemma {:induction false} DominatedMembers(R: Matrix, x: nat, k: nat)
    requires IsSquare(R) && x < |R| && k <= |R|
    ensures forall y: nat :: y in Dominated(R, x, k) <==> y < k && R[x][y]
    ensures Distinct(Dominated(R, x, k))
  {
    if k > 0 {
      DominatedMembers(R, x, k - 1);
    }
  }

  /** The individuals among 0..k-1 that nobody dominates, in increasing order. */
  ghost function Undominated(R: Matrix, k: nat): (r: seq<nat>)
    requires IsSquare(R) && k <= |R|
    ensures forall t :: 0 <= t < |r| ==> r[t] < k
  {
    if k == 0 then [] else Undominated(R, k - 1) + (if Dominators(R, k - 1) == {} then [k - 1] else [])
  }

  lemma {:induction false} UndominatedMembers(R: Matrix, k: nat)
    requires IsSquare(R) && k <= |R|
    ensures forall x: nat :: x in Undominated(R, k) <==> x < k && Dominators(R, x) == {}
    ensures Distinct(Undominated(R, k))
  {
    if k > 0 {
      UndominatedMembers(R, k - 1);
    }
  }

  /** Every index listed in a front is a member's. */
  ghost predicate Bounded(F: seq<seq<nat>>, n: nat)
  {
    forall k, t :: 0 <= k < |F| && 0 <= t < |F[k]| ==> F[k][t] < n
  }

  /** The indices in the first k fronts. */
  ghost function Placed(F: seq<seq<nat>>, k: nat): set<nat>
    requires k <= |F|
  {
    if k == 0 then {} else Placed(F, k - 1) + Elems(F[k - 1])
  }

  /**
   * Layer k of the peeling: the first k fronts hold exactly the individuals
   * all of whose dominators lie in the first k - 1 fronts.
   */
  ghost predicate PeeledAt(R: Matrix, F: seq<seq<nat>>, k: nat, x: nat)
    requires IsSquare(R) && 0 < k <= |F|
  {
    x in Placed(F, k) <==> x < |R| && Dominators(R, x) <= Placed(F, k - 1)
  }

  /** The layering that peeling produces, at every layer. */
  ghost predicate Peeled(R: Matrix, F: seq<seq<nat>>)
    requires IsSquare(R)
  {
    forall k: nat, x: nat {:trigger PeeledAt(R, F, k, x)} :: 0 < k <= |F| ==> PeeledAt(R, F, k, x)
  }

  /** No index is listed twice, inside a front or across fronts. */
  ghost predicate Disjoint(F: seq<seq<nat>>)
  {
    (forall k :: 0 <= k < |F| ==> Distinct(F[k])) &&
    (forall k, x :: 0 <= k < |F| && x in F[k] ==> x !in Placed(F, k))
  }

  lemma {:induction false} PlacedMembers(F: seq<seq<nat>>, k: nat)
    requires k <= |F|
    ensures forall x :: x in Placed(F, k) <==> exists j :: 0 <= j < k && x in F[j]
  {
    if k > 0 {
      PlacedMembers(F, k - 1);
    }
  }

  lemma PlacedMonotone(F: seq<seq<nat>>, j: nat, k: nat)
    requires j <= k <= |F|
    ensures Placed(F, j) <= Placed(F, k)
  {
    PlacedMembers(F, j);
    PlacedMembers(F, k);
  }

  /** Appending a front leaves the earlier prefixes alone. */
  lemma {:induction false} PlacedAppend(F: seq<seq<nat>>, G: seq<nat>, k: nat)
    requires k <= |F|
    ensures Placed(F + [G], k) == Placed(F, k)
  {
    if k > 0 {
      PlacedAppend(F, G, k - 1);
      assert (F + [G])[k - 1] == F[k - 1];
    }
  }

  /** Every placed index is below |R|. */
  lemma PlacedBelow(R: Matrix, F: seq<seq<nat>>, k: nat, x: nat)
    requires IsSquare(R) && Peeled(R, F) && k <= |F| && x in Placed(F, k)
    ensures x < |R|
  {
    PlacedMonotone(F, k, |F|);
    assert PeeledAt(R, F, |F|, x);
  }

  /** An index sits in one front only. */
  lemma FrontUnique(F: seq<seq<nat>>, j: nat, k: nat, x: nat)
    requires Disjoint(F) && j < |F| && k < |F|
    requires x in F[j] && x in F[k]
    ensures j == k
  {
    if j < k {
      PlacedMembers(F, k);
    } else if k < j {
      PlacedMembers(F, j);
    }
  }

  /** Front 0 is exactly the undominated individuals. */
  lemma FrontZeroUndominated(R: Matrix, F: seq<seq<nat>>, x: nat)
    requires IsSquare(R) && Peeled(R, F) && |F| > 0
    ensures x in F[0] <==> x < |R| && Dominators(R, x) == {}
  {
    assert Placed(F, 1) == Elems(F[0]);
    assert PeeledAt(R, F, 1, x);
  }

  /** A member of front k is dominated only by members of the first k fronts. */
  lemma DominatorsEarlier(R: Matrix, F: seq<seq<nat>>, k: nat, x: nat)
    requires IsSquare(R) && Peeled(R, F) && k < |F| && x in F[k]
    ensures x < |R| && Dominators(R, x) <= Placed(F, k)
  {
    assert x in Placed(F, k + 1);
    assert PeeledAt(R, F, k + 1, x);
  }

  /** No member of a front dominates another member of the same front. */
  lemma FrontIsAntichain(R: Matrix, F: seq<seq<nat>>, k: nat, x: nat, y: nat)
    requires IsSquare(R) && Peeled(R, F) && Disjoint(F) && k < |F|
    requires x in F[k] && y in F[k]
    ensures x < |R| && y < |R| && !R[x][y]
  {
    DominatorsEarlier(R, F, k, x);
    DominatorsEarlier(R, F, k, y);
    assert x !in Placed(F, k);
    assert x !in Dominators(R, y);
  }

  /** Every member of a later front is dominated by a member of the front before it. */
  lemma FrontHasPredecessor(R: Matrix, F: seq<seq<nat>>, k: nat, x: nat) returns (y: nat)
    requires IsSquare(R) && Peeled(R, F) && Disjoint(F) && 0 < k < |F|
    requires x in F[k]
    ensures x < |R| && y < |R| && y in F[k - 1] && R[y][x]
  {
    DominatorsEarlier(R, F, k, x);
    assert x !in Placed(F, k);
    assert PeeledAt(R, F, k, x);
    y :| y in Dominators(R, x) && y !in Placed(F, k - 1);
    assert y in Placed(F, k);
  }

  /** A non-empty set of individuals has a member that no other member dominates. */
  lemma {:induction false} MinimalExists(R: Matrix, S: set<nat>) returns (m: nat)
    requires StrictOrder(R) && S != {}
    requires forall x :: x in S ==> x < |R|
    ensures m in S && forall y :: y in S ==> !R[y][m]
    decreases |S|
  {
    var x :| x in S;
    if forall y :: y in S ==> !R[y][x] {
      return x;
    }
    var y :| y in S && R[y][x];
    if S == {x} {
      assert false;
    }
    m := MinimalExists(R, S - {x});
  }

  /**
   * When peeling produces an empty front, every individual has been placed:
   * an unplaced minimal individual would have had all its dominators placed.
   */
  lemma PeelingComplete(R: Matrix, F: seq<seq<nat>>)
    requires StrictOrder(R) && Peeled(R, F) && |F| > 0 && F[|F| - 1] == []
    ensures Everyone(|R|) <= Placed(F, |F| - 1)
  {
    var m := |F| - 1;
    var P := Placed(F, m);
    assert Placed(F, m + 1) == P by {
      assert Elems(F[m]) == {};
    }
    var S := set x: nat | x < |R| && x !in P;
    if S != {} {
      var y := MinimalExists(R, S);
      assert Dominators(R, y) <= P by {
        forall z | z in Dominators(R, y) ensures z in P {
          assert R[z][y];
          assert z !in S;
        }
      }
      PeeledInstance(R, F, m + 1, y);
      assert false;
    }
    forall x | x in Everyone(|R|) ensures x in P {
      assert x < |R|;
      assert x !in S;
    }
  }

  lemma PeeledInstance(R: Matrix, F: seq<seq<nat>>, k: nat, x: nat)
    requires IsSquare(R) && Peeled(R, F) && 0 < k <= |F|
    ensures PeeledAt(R, F, k, x)
  {
  }

  /** The first front: the undominated individuals, in increasing order. */
  lemma FirstFront(R: Matrix, F0: seq<nat>)
    requires IsSquare(R) && Distinct(F0)
    requires forall x: nat :: x in F0 <==> x < |R| && Dominators(R, x) == {}
    ensures Peeled(R, [F0]) && Disjoint([F0])
  {
    var F := [F0];
    assert Placed(F, 1) == Elems(F0);
    forall k: nat, x: nat | 0 < k <= 1 ensures PeeledAt(R, F, k, x) {
    }
  }

  // ---------------------------------------------------------------------------
  // The state of the peeling loop
  // ---------------------------------------------------------------------------

  /** The indices whose dominated lists have been walked: the earlier fronts and the first p of the last one. */
  ghost function Processed(F: seq<seq<nat>>, p: nat): set<nat>
    requires |F| > 0 && p <= |F[|F| - 1]|
  {
    Placed(F, |F| - 1) + Elems(F[|F| - 1][..p])
  }

  /**
   * The dominators of x that have released x: the processed ones, plus the
   * member being walked when x already appears in the Done part of its list.
   */
  ghost function Released(F: seq<seq<nat>>, p: nat, Done: set<nat>, x: nat): set<nat>
    requires |F| > 0 && p <= |F[|F| - 1]|
  {
    if x in Done && p < |F[|F| - 1]| then Processed(F, p) + {F[|F| - 1][p]} else Processed(F, p)
  }

  /** The count of x is the number of its dominators that have not released it. */
  ghost predicate CountAt(R: Matrix, F: seq<seq<nat>>, p: nat, Done: set<nat>, C: seq<int>, x: nat)
    requires IsSquare(R) && |F| > 0 && p <= |F[|F| - 1]| && |C| == |R| && x < |R|
  {
    C[x] == |Dominators(R, x) - Released(F, p, Done, x)|
  }

  /** x waits in the next front exactly when it is unplaced and all its dominators released it. */
  ghost predicate WaitingAt(R: Matrix, F: seq<seq<nat>>, G: seq<nat>, p: nat, Done: set<nat>, x: nat)
    requires IsSquare(R) && |F| > 0 && p <= |F[|F| - 1]|
  {
    x in G <==> x < |R| && x !in Placed(F, |F|) && Dominators(R, x) <= Released(F, p, Done, x)
  }

  /**
   * Peeling while the last front of F is walked (member p, and within its
   * dominated list the individuals Done): the counts C and the next front G.
   */
  ghost predicate PeelState(R: Matrix, F: seq<seq<nat>>, G: seq<nat>, p: nat, Done: set<nat>, C: seq<int>)
  {
    IsSquare(R) && |F| > 0 && p <= |F[|F| - 1]| &&
    Peeled(R, F) && Disjoint(F) && Distinct(G) && |C| == |R| &&
    (forall x: nat {:trigger CountAt(R, F, p, Done, C, x)} :: x < |R| ==> CountAt(R, F, p, Done, C, x)) &&
    (forall x: nat {:trigger WaitingAt(R, F, G, p, Done, x)} :: WaitingAt(R, F, G, p, Done, x))
  }

  /** After the pairwise pass: every count is the number of dominators. */
  lemma PeelStart(R: Matrix, F0: seq<nat>, C: seq<int>)
    requires IsSquare(R) && Peeled(R, [F0]) && Disjoint([F0]) && |C| == |R|
    requires forall x: nat :: x < |R| ==> C[x] == |Dominators(R, x)|
    ensures PeelState(R, [F0], [], 0, {}, C)
  {
    var F := [F0];
    assert Processed(F, 0) == {} by {
      assert Elems(F0[..0]) == {};
    }
    forall x: nat | x < |R| ensures CountAt(R, F, 0, {}, C, x) {
      assert Dominators(R, x) - {} == Dominators(R, x);
    }
    forall x: nat ensures WaitingAt(R, F, [], 0, {}, x) {
      if x < |R| {
        assert PeeledAt(R, F, 1, x);
      }
    }
  }

  /** The member being walked is not yet processed. */
  lemma WalkedNotProcessed(R: Matrix, F: seq<seq<nat>>, p: nat)
    requires IsSquare(R) && |F| > 0 && p < |F[|F| - 1]| && Peeled(R, F) && Disjoint(F)
    ensures F[|F| - 1][p] !in Processed(F, p)
    ensures F[|F| - 1][p] < |R|
  {
    var L := F[|F| - 1];
    assert L[p] !in Placed(F, |F| - 1);
    assert L[p] in Placed(F, |F|);
    PlacedBelow(R, F, |F|, L[p]);
  }

  /** Releasing one more dominator c of x lowers the number of unreleased ones by one. */
  lemma ReleaseOne(A: set<nat>, P: set<nat>, c: nat)
    requires c in A && c !in P
    ensures |A - (P + {c})| == |A - P| - 1
    ensures |A - (P + {c})| == 0 <==> A <= P + {c}
  {
    assert A - (P + {c}) == (A - P) - {c};
    if |A - (P + {c})| == 0 {
      assert A - (P + {c}) == {};
    }
  }

  /**
   * One decrement: the walked member c releases x, which it dominates. The
   * count of x drops by one, and x joins G when it reaches zero.
   */
  lemma PeelRelease(R: Matrix, F: seq<seq<nat>>, G: seq<nat>, p: nat, Done: set<nat>, C: seq<int>, x: nat)
    requires PeelState(R, F, G, p, Done, C)
    requires p < |F[|F| - 1]| && F[|F| - 1][p] < |R| && x < |R| && R[F[|F| - 1][p]][x] && x !in Done
    ensures C[x] >= 1 && x !in G && x !in Placed(F, |F|)
    ensures PeelState(R, F, if C[x] == 1 then G + [x] else G, p, Done + {x}, C[x := C[x] - 1])
  {
    var c := F[|F| - 1][p];
    var P := Processed(F, p);
    WalkedNotProcessed(R, F, p);
    var G' := if C[x] == 1 then G + [x] else G;
    var C' := C[x := C[x] - 1];
    var Done' := Done + {x};
    assert Released(F, p, Done, x) == P;
    assert Released(F, p, Done', x) == P + {c};
    assert c in Dominators(R, x);
    ReleaseOne(Dominators(R, x), P, c);
    assert CountAt(R, F, p, Done, C, x);
    assert WaitingAt(R, F, G, p, Done, x);
    DominatedByWalkedUnplaced(R, F, p, x);
    forall y: nat | y < |R| ensures CountAt(R, F, p, Done', C', y) {
      if y != x {
        assert CountAt(R, F, p, Done, C, y);
        ReleasedOther(F, p, Done, x, y);
      }
    }
    forall y: nat ensures WaitingAt(R, F, G', p, Done', y) {
      if y != x {
        assert WaitingAt(R, F, G, p, Done, y);
        ReleasedOther(F, p, Done, x, y);
      }
    }
    DistinctAppend(G, x);
  }

  /** What the walked member dominates is not placed yet. */
  lemma DominatedByWalkedUnplaced(R: Matrix, F: seq<seq<nat>>, p: nat, x: nat)
    requires IsSquare(R) && |F| > 0 && p < |F[|F| - 1]| && Peeled(R, F) && Disjoint(F)
    requires F[|F| - 1][p] < |R| && x < |R| && R[F[|F| - 1][p]][x]
    ensures x !in Placed(F, |F|)
  {
    var c := F[|F| - 1][p];
    assert c in Dominators(R, x);
    assert c !in Placed(F, |F| - 1);
    assert !(Dominators(R, x) <= Placed(F, |F| - 1));
    PeeledInstance(R, F, |F|, x);
  }

  lemma ReleasedOther(F: seq<seq<nat>>, p: nat, Done: set<nat>, x: nat, y: nat)
    requires |F| > 0 && p <= |F[|F| - 1]| && y != x
    ensures Released(F, p, Done + {x}, y) == Released(F, p, Done, y)
  {
  }

  lemma DistinctAppend(G: seq<nat>, x: nat)
    requires Distinct(G) && x !in G
    ensures Distinct(G + [x])
  {
  }

  /** The walked member has released everything it dominates: move to the next member. */
  lemma PeelAdvance(R: Matrix, F: seq<seq<nat>>, G: seq<nat>, p: nat, Done: set<nat>, C: seq<int>)
    requires PeelState(R, F, G, p, Done, C)
    requires p < |F[|F| - 1]| && F[|F| - 1][p] < |R|
    requires forall y: nat :: y in Done <==> y < |R| && R[F[|F| - 1][p]][y]
    ensures PeelState(R, F, G, p + 1, {}, C)
  {
    var L := F[|F| - 1];
    var c := L[p];
    var P := Processed(F, p);
    WalkedNotProcessed(R, F, p);
    assert L[..p + 1] == L[..p] + [c];
    assert Elems(L[..p + 1]) == Elems(L[..p]) + {c};
    assert Processed(F, p + 1) == P + {c};
    var q := p + 1;
    var none: set<nat> := {};
    forall y: nat | y < |R| ensures CountAt(R, F, q, none, C, y) {
      assert CountAt(R, F, p, Done, C, y);
      ReleasedAdvance(R, F, p, Done, y);
    }
    forall y: nat ensures WaitingAt(R, F, G, q, none, y) {
      assert WaitingAt(R, F, G, p, Done, y);
      if y < |R| {
        ReleasedAdvance(R, F, p, Done, y);
      }
    }
  }

  /** What y has not been released by is the same before and after moving past c. */
  lemma ReleasedAdvance(R: Matrix, F: seq<seq<nat>>, p: nat, Done: set<nat>, y: nat)
    requires IsSquare(R) && |F| > 0 && p < |F[|F| - 1]| && F[|F| - 1][p] < |R| && y < |R|
    requires Processed(F, p + 1) == Processed(F, p) + {F[|F| - 1][p]}
    requires y in Done <==> R[F[|F| - 1][p]][y]
    ensures Dominators(R, y) - Released(F, p + 1, {}, y) == Dominators(R, y) - Released(F, p, Done, y)
  {
    var c := F[|F| - 1][p];
    if y !in Done {
      assert c !in Dominators(R, y);
    }
  }

  /** The last front is fully walked: G is the next front. */
  lemma PeelNextFront(R: Matrix, F: seq<seq<nat>>, G: seq<nat>, C: seq<int>)
    requires |F| > 0 && PeelState(R, F, G, |F[|F| - 1]|, {}, C)
    ensures PeelState(R, F + [G], [], 0, {}, C)
    ensures Placed(F + [G], |F|) == Placed(F, |F|)
    ensures Placed(F + [G], |F| + 1) == Placed(F, |F|) + Elems(G)
  {
    var L := F[|F| - 1];
    var F' := F + [G];
    assert L[..|L|] == L;
    assert Processed(F, |L|) == Placed(F, |F|);
    forall x: nat ensures NextAt(R, F, G, x) {
      assert WaitingAt(R, F, G, |L|, {}, x);
    }
    forall x | x in G ensures x !in Placed(F, |F|) {
      assert NextAt(R, F, G, x);
    }
    PeeledExtend(R, F, G);
    PlacedAppend(F, G, |F|);
    assert F'[|F'| - 1] == G;
    assert Placed(F', |F'|) == Placed(F, |F|) + Elems(G);
    assert Processed(F', 0) == Placed(F, |F|) by {
      assert Elems(G[..0]) == {};
    }
    forall x: nat | x < |R| ensures CountAt(R, F', 0, {}, C, x) {
      assert CountAt(R, F, |L|, {}, C, x);
    }
    forall x: nat ensures WaitingAt(R, F', [], 0, {}, x) {
      if x < |R| {
        assert PeeledAt(R, F', |F'|, x);
      }
    }
  }

  /** x belongs to G exactly when it is unplaced and all its dominators are placed. */
  ghost predicate NextAt(R: Matrix, F: seq<seq<nat>>, G: seq<nat>, x: nat)
    requires IsSquare(R)
  {
    x in G <==> x < |R| && x !in Placed(F, |F|) && Dominators(R, x) <= Placed(F, |F|)
  }

  /**
   * One peeling step: a front G that holds exactly the unplaced individuals
   * whose dominators are all placed extends the layering.
   */
  lemma PeeledExtend(R: Matrix, F: seq<seq<nat>>, G: seq<nat>)
    requires IsSquare(R) && Peeled(R, F) && Disjoint(F) && Distinct(G)
    requires forall x: nat {:trigger NextAt(R, F, G, x)} :: NextAt(R, F, G, x)
    requires forall x :: x in G ==> x !in Placed(F, |F|)
    ensures Peeled(R, F + [G]) && Disjoint(F + [G])
  {
    var F' := F + [G];
    forall k: nat, x: nat | 0 < k <= |F'|
      ensures PeeledAt(R, F', k, x)
    {
      assert k <= |F| || k == |F| + 1;
      if k <= |F| {
        PeeledAtAppend(R, F, G, k, x);
      } else {
        assert NextAt(R, F, G, x);
        PeeledAtLast(R, F, G, x);
      }
    }
    PeeledExtendDisjoint(F, G);
  }

  lemma PeeledAtAppend(R: Matrix, F: seq<seq<nat>>, G: seq<nat>, k: nat, x: nat)
    requires IsSquare(R) && Peeled(R, F) && 0 < k <= |F|
    ensures PeeledAt(R, F + [G], k, x)
  {
    PlacedAppend(F, G, k);
    PlacedAppend(F, G, k - 1);
    assert PeeledAt(R, F, k, x);
  }

  lemma PeeledAtLast(R: Matrix, F: seq<seq<nat>>, G: seq<nat>, x: nat)
    requires IsSquare(R) && Peeled(R, F) && NextAt(R, F, G, x)
    ensures PeeledAt(R, F + [G], |F| + 1, x)
  {
    var n := |F|;
    var F' := F + [G];
    PlacedAppend(F, G, n);
    assert F'[n] == G;
    assert Placed(F', n + 1) == Placed(F, n) + Elems(G);
    if x in Placed(F, n) {
      assert n > 0;
      assert PeeledAt(R, F, n, x);
      PlacedMonotone(F, n - 1, n);
      assert x < |R| && Dominators(R, x) <= Placed(F, n);
    } else if x in G {
    } else {
      assert !(x < |R| && Dominators(R, x) <= Placed(F, n));
    }
  }

  lemma PeeledExtendDisjoint(F: seq<seq<nat>>, G: seq<nat>)
    requires Disjoint(F) && Distinct(G)
    requires forall x :: x in G ==> x !in Placed(F, |F|)
    ensures Disjoint(F + [G])
  {
    var F' := F + [G];
    forall k | 0 <= k <= |F| ensures Placed(F', k) == Placed(F, k) {
      PlacedAppend(F, G, k);
    }
    forall k | 0 <= k < |F'| ensures Distinct(F'[k]) && forall x :: x in F'[k] ==> x !in Placed(F', k)
    {
      PlacedAppend(F, G, k);
      if k < |F| {
        assert F'[k] == F[k];
        assert forall x :: x in F[k] ==> x !in Placed(F, k);
      } else {
        assert F'[k] == G;
      }
    }
  }

  /** While the last front is not empty, peeling strictly grows the placed set. */
  lemma PeelGrows(R: Matrix, F: seq<seq<nat>>)
    requires IsSquare(R) && Peeled(R, F) && Disjoint(F) && |F| > 0 && F[|F| - 1] != []
    ensures Placed(F, |F| - 1) < Placed(F, |F|) <= Everyone(|R|)
  {
    var x := F[|F| - 1][0];
    assert x in Placed(F, |F|) && x !in Placed(F, |F| - 1);
    forall y | y in Placed(F, |F|) ensures y in Everyone(|R|) {
      PlacedBelow(R, F, |F|, y);
    }
  }

  /** The number (from 1) of the front among the first k that holds x, or 0 when none does. */
  ghost function RankIn(F: seq<seq<nat>>, k: nat, x: nat): nat
    requires k <= |F|
  {
    if k == 0 then 0
    else if x in Placed(F, k - 1) then RankIn(F, k - 1, x)
    else if x in F[k - 1] then k
    else 0
  }

  lemma {:induction false} RankInAppend(F: seq<seq<nat>>, G: seq<nat>, k: nat, x: nat)
    requires k <= |F|
    ensures RankIn(F + [G], k, x) == RankIn(F, k, x)
  {
    if k > 0 {
      PlacedAppend(F, G, k - 1);
      assert (F + [G])[k - 1] == F[k - 1];
      RankInAppend(F, G, k - 1, x);
    }
  }

  /** Appending G numbers its new members |F| + 1 and leaves the others alone. */
  lemma RankInNext(F: seq<seq<nat>>, G: seq<nat>, x: nat)
    ensures RankIn(F + [G], |F| + 1, x) ==
      if x in Placed(F, |F|) then RankIn(F, |F|, x) else if x in G then |F| + 1 else 0
  {
    PlacedAppend(F, G, |F|);
    RankInAppend(F, G, |F|, x);
    assert (F + [G])[|F|] == G;
  }

  /** A member of front k has number k + 1. */
  lemma {:induction false} RankInFront(F: seq<seq<nat>>, m: nat, k: nat, x: nat)
    requires Disjoint(F) && k < m <= |F| && x in F[k]
    ensures RankIn(F, m, x) == k + 1
  {
    if m == k + 1 {
      assert x !in Placed(F, k);
    } else {
      PlacedMembers(F, m - 1);
      assert x in Placed(F, m - 1);
      RankInFront(F, m - 1, k, x);
    }
  }

  /** Dropping trailing fronts leaves the earlier prefixes alone. */
  lemma {:induction false} PlacedPrefix(F: seq<seq<nat>>, m: nat, k: nat)
    requires k <= m <= |F|
    ensures Placed(F[..m], k) == Placed(F, k)
  {
    if k > 0 {
      PlacedPrefix(F, m, k - 1);
      assert F[..m][k - 1] == F[k - 1];
    }
  }

  lemma PeeledPrefix(R: Matrix, F: seq<seq<nat>>, m: nat)
    requires IsSquare(R) && Peeled(R, F) && m <= |F|
    ensures Peeled(R, F[..m])
  {
    forall k: nat, x: nat | 0 < k <= m ensures PeeledAt(R, F[..m], k, x) {
      PlacedPrefix(F, m, k);
      PlacedPrefix(F, m, k - 1);
      assert PeeledAt(R, F, k, x);
    }
  }

  lemma DisjointPrefix(F: seq<seq<nat>>, m: nat)
    requires Disjoint(F) && m <= |F|
    ensures Disjoint(F[..m])
  {
    forall k | 0 <= k < m ensures Distinct(F[..m][k]) && forall x :: x in F[..m][k] ==> x !in Placed(F[..m], k) {
      PlacedPrefix(F, m, k);
      assert F[..m][k] == F[k];
    }
  }

  /** Peeling stops at an empty front; the fronts before it place everyone. */
  lemma PlacedAllBeforeEmpty(R: Matrix, F: seq<seq<nat>>)
    requires StrictOrder(R) && Peeled(R, F) && |F| > 0 && F[|F| - 1] == []
    ensures Everyone(|R|) <= Placed(F[..|F| - 1], |F| - 1)
  {
    PeelingComplete(R, F);
    PlacedPrefix(F, |F| - 1, |F| - 1);
  }

  /** What is left to place shrinks when the placed set grows. */
  lemma RestShrinks(U: set<nat>, A: set<nat>, B: set<nat>)
    requires A < B <= U
    ensures U - B < U - A
  {
    var x :| x in B && x !in A;
    assert x in U - A && x !in U - B;
  }

  /** The population 0..n-1 as a set. */
  ghost function Everyone(n: nat): (r: set<nat>)
    ensures forall x: nat :: x in r <==> x < n
  {
    if n == 0 then {} else Everyone(n - 1) + {n - 1}
  }

  /** The members of a list of indices, as a set. */
  ghost function Elems(s: seq<nat>): (r: set<nat>)
    ensures forall x :: x in r <==> x in s
  {
    set i | 0 <= i < |s| :: s[i]
  }
}
