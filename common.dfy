// Helpers shared by the model of the NSGA-II package: an Option type for the
// fields that start as None, Python's sys.maxsize, decimal rendering of the
// individual counter, and the list operations the package borrows from Python
// (stable sort by key, remove-first, reversal).
module Common {

  datatype Option<T> = None | Some(value: T)

  /** sys.maxsize on a 64-bit CPython: the "infinite" crowding distance. */
  const MaxSize: int := 0x7FFF_FFFF_FFFF_FFFF

  function Abs(x: real): (r: real)
    ensures r >= 0.0 && (r == x || r == -x)
  {
    if x < 0.0 then -x else x
  }

  // ---------------------------------------------------------------------------
  // Decimal rendering of naturals (Python's str() on a non-negative int)
  // ---------------------------------------------------------------------------

  predicate IsDigit(c: char) { '0' <= c <= '9' }

  function DigitChar(d: nat): (c: char)
    requires d < 10
    ensures IsDigit(c) && c as int - '0' as int == d
  {
    ['0', '1', '2', '3', '4', '5', '6', '7', '8', '9'][d]
  }

  function NatToString(n: nat): (s: string)
    ensures |s| > 0
    ensures forall k :: 0 <= k < |s| ==> IsDigit(s[k])
  {
    if n < 10 then [DigitChar(n)] else NatToString(n / 10) + [DigitChar(n % 10)]
  }

  /** Reads a string of decimal digits back as a natural. */
  function StringToNat(s: string): nat
    requires forall k :: 0 <= k < |s| ==> IsDigit(s[k])
  {
    if s == [] then 0
    else 10 * StringToNat(s[..|s| - 1]) + DigitValue(s[|s| - 1])
  }

  function DigitValue(c: char): nat
    requires IsDigit(c)
  {
    c as int - '0' as int
  }

  lemma {:induction false} StringToNatOfNatToString(n: nat)
    ensures StringToNat(NatToString(n)) == n
  {
    if n >= 10 {
      var s := NatToString(n);
      assert s[..|s| - 1] == NatToString(n / 10);
      StringToNatOfNatToString(n / 10);
    }
  }

  /** Different counters are rendered as different strings. */
  lemma NatToStringInjective(a: nat, b: nat)
    ensures NatToString(a) == NatToString(b) ==> a == b
  {
    StringToNatOfNatToString(a);
    StringToNatOfNatToString(b);
  }

  // ---------------------------------------------------------------------------
  // Python list operations
  // ---------------------------------------------------------------------------

  /** list.index(x): the position of the first occurrence. */
  function IndexOf<T(==)>(s: seq<T>, x: T): (i: nat)
    requires x in s
    ensures i < |s| && s[i] == x && x !in s[..i]
  {
    if s[0] == x then 0 else 1 + IndexOf(s[1..], x)
  }

  /** list.remove(x): drops the first occurrence only. */
  function RemoveFirst<T(==)>(s: seq<T>, x: T): (r: seq<T>)
    requires x in s
    ensures |r| == |s| - 1
  {
    var i := IndexOf(s, x);
    s[..i] + s[i + 1..]
  }

  /** list.remove(x) takes exactly one x out. */
  lemma RemoveFirstMultiset<T>(s: seq<T>, x: T)
    requires x in s
    ensures multiset(RemoveFirst(s, x)) == multiset(s) - multiset{x}
  {
    var i := IndexOf(s, x);
    assert s == s[..i] + [x] + s[i + 1..];
  }

  /** Removing x from a list that does not start with x keeps the head. */
  lemma RemoveFirstPast<T>(s: seq<T>, x: T)
    requires x in s && s[0] != x
    ensures RemoveFirst(s, x) == [s[0]] + RemoveFirst(s[1..], x)
  {
    var i := IndexOf(s[1..], x);
    assert IndexOf(s, x) == i + 1;
    assert s[..i + 1] == [s[0]] + s[1..][..i];
    assert s[i + 2..] == s[1..][i + 1..];
  }

  function Reverse<T>(s: seq<T>): (r: seq<T>)
    ensures |r| == |s|
  {
    if s == [] then [] else Reverse(s[1..]) + [s[0]]
  }

  /** list.remove(x) where x is present; s itself where Python would raise ValueError. */
  function RemoveIfPresent<T(==)>(s: seq<T>, x: T): (r: seq<T>)
    ensures multiset(r) == multiset(s) - multiset{x}
  {
    if x in s then RemoveFirstMultiset(s, x); RemoveFirst(s, x) else s
  }

  /**
   * Removes the first occurrence of each member of xs in turn, as a loop of
   * list.remove does; a member that is no longer present is skipped (where
   * Python would raise ValueError, so callers require presence).
   */
  function RemoveEach<T(==)>(s: seq<T>, xs: seq<T>): (r: seq<T>)
    ensures multiset(r) == multiset(s) - multiset(xs)
  {
    if xs == [] then s
    else
      assert xs == [xs[0]] + xs[1..];
      RemoveEach(RemoveIfPresent(s, xs[0]), xs[1..])
  }

  lemma {:induction false} RemoveEachAppend<T>(s: seq<T>, xs: seq<T>, x: T)
    ensures RemoveEach(s, xs + [x]) == RemoveIfPresent(RemoveEach(s, xs), x)
  {
    if xs != [] {
      assert (xs + [x])[0] == xs[0];
      assert (xs + [x])[1..] == xs[1..] + [x];
      RemoveEachAppend(RemoveIfPresent(s, xs[0]), xs[1..], x);
    } else {
      assert ([x])[1..] == [];
    }
  }

  /** One more turn of a loop that removes the members of xs in order, all present in s. */
  lemma RemoveEachStep<T>(s: seq<T>, xs: seq<T>, k: nat)
    requires multiset(xs) <= multiset(s) && k < |xs|
    ensures xs[k] in RemoveEach(s, xs[..k])
    ensures RemoveEach(s, xs[..k + 1]) == RemoveFirst(RemoveEach(s, xs[..k]), xs[k])
  {
    assert xs == xs[..k + 1] + xs[k + 1..];
    assert xs[..k + 1] == xs[..k] + [xs[k]];
    assert multiset(xs[..k + 1]) == multiset(xs[..k]) + multiset{xs[k]};
    assert multiset(xs[..k + 1]) <= multiset(xs);
    assert multiset(xs[..k])[xs[k]] < multiset(s)[xs[k]];
    assert xs[k] in multiset(RemoveEach(s, xs[..k]));
    RemoveEachAppend(s, xs[..k], xs[k]);
  }

  /** With every member of xs present, RemoveEach shortens s by |xs|. */
  lemma RemoveEachLength<T>(s: seq<T>, xs: seq<T>)
    requires multiset(xs) <= multiset(s)
    ensures |RemoveEach(s, xs)| == |s| - |xs|
  {
    assert multiset(s) == (multiset(s) - multiset(xs)) + multiset(xs);
    assert |multiset(s)| == |multiset(RemoveEach(s, xs))| + |multiset(xs)|;
  }

  /** Python's reading of an index into a list of length n: negative indices count from the end. */
  function PyIndex(i: int, n: nat): (r: nat)
    requires -(n as int) <= i < n
    ensures r < n && (i >= 0 ==> r == i) && (i < 0 ==> r == n + i)
  {
    if i < 0 then n + i else i
  }

  /** The key of a plain sort on numbers. */
  function Identity(x: real): real { x }

  /** A gap no wider than the spread, over the spread, lies between 0 and 1. */
  lemma Fraction(gap: real, spread: real)
    requires 0.0 <= gap <= spread && 0.0 < spread
    ensures 0.0 <= gap / spread <= 1.0
  {
  }

  /** min() of a non-empty list. */
  function MinOf(s: seq<real>): (m: real)
    requires |s| > 0
    ensures m in s && forall k :: 0 <= k < |s| ==> m <= s[k]
  {
    if |s| == 1 then s[0]
    else
      var t := MinOf(s[1..]);
      assert forall k :: 1 <= k < |s| ==> s[k] == s[1..][k - 1];
      if s[0] <= t then s[0] else t
  }

  /** max() of a non-empty list. */
  function MaxOf(s: seq<real>): (m: real)
    requires |s| > 0
    ensures m in s && forall k :: 0 <= k < |s| ==> s[k] <= m
  {
    if |s| == 1 then s[0]
    else
      var t := MaxOf(s[1..]);
      assert forall k :: 1 <= k < |s| ==> s[k] == s[1..][k - 1];
      if t <= s[0] then s[0] else t
  }

  predicate Distinct<T(==)>(s: seq<T>)
  {
    forall a, b :: 0 <= a < b < |s| ==> s[a] != s[b]
  }

  /** No value is listed twice, inside one list or across lists. */
  predicate Separate<T(==)>(ls: seq<seq<T>>)
  {
    forall a, b, i, j ::
      0 <= a < |ls| && 0 <= b < |ls| && 0 <= i < |ls[a]| && 0 <= j < |ls[b]| && ls[a][i] == ls[b][j]
      ==> a == b && i == j
  }

  /** A list without repeats holds each value at most once. */
  lemma {:induction false} DistinctCount<T>(s: seq<T>, x: T)
    requires Distinct(s)
    ensures multiset(s)[x] <= 1
  {
    if s != [] {
      assert s == [s[0]] + s[1..];
      assert Distinct(s[1..]) by {
        forall a, b | 0 <= a < b < |s[1..]| ensures s[1..][a] != s[1..][b] {
          assert s[1..][a] == s[a + 1] && s[1..][b] == s[b + 1];
        }
      }
      DistinctCount(s[1..], x);
      if x == s[0] {
        assert x !in s[1..];
      }
    }
  }

  /** A permutation of a list without repeats has none either. */
  lemma DistinctPermutation<T>(s: seq<T>, t: seq<T>)
    requires Distinct(s) && multiset(s) == multiset(t)
    ensures Distinct(t)
  {
    forall a, b | 0 <= a < b < |t| ensures t[a] != t[b] {
      DistinctCount(s, t[b]);
      assert t == t[..b] + [t[b]] + t[b + 1..];
      assert t[a] in multiset(t[..b]);
      assert multiset(t)[t[b]] >= multiset(t[..b])[t[b]] + 1;
    }
  }

  lemma RemoveFirstDistinct<T>(s: seq<T>, i: nat)
    requires Distinct(s) && i < |s|
    ensures RemoveFirst(s, s[i]) == s[..i] + s[i + 1..]
  {
    var j := IndexOf(s, s[i]);
    assert j == i;
  }

  // ---------------------------------------------------------------------------
  // Stable sort by a real-valued key (Python's list.sort(key=...))
  // ---------------------------------------------------------------------------

  predicate SortedBy<T>(s: seq<T>, key: T -> real)
  {
    forall a, b :: 0 <= a < b < |s| ==> key(s[a]) <= key(s[b])
  }

  /** The members of s whose key is k, in their order in s. */
  function WithKey<T>(s: seq<T>, key: T -> real, k: real): seq<T>
  {
    if s == [] then []
    else (if key(s[0]) == k then [s[0]] else []) + WithKey(s[1..], key, k)
  }

  /** Inserts x after every member whose key is not larger than x's. */
  function InsertByKey<T>(x: T, s: seq<T>, key: T -> real): seq<T>
  {
    if s == [] || key(x) < key(s[0]) then [x] + s
    else [s[0]] + InsertByKey(x, s[1..], key)
  }

  function SortByKey<T>(s: seq<T>, key: T -> real): seq<T>
  {
    if s == [] then [] else InsertByKey(s[|s| - 1], SortByKey(s[..|s| - 1], key), key)
  }

  lemma {:induction false} InsertByKeyPermutes<T>(x: T, s: seq<T>, key: T -> real)
    ensures multiset(InsertByKey(x, s, key)) == multiset(s) + multiset{x}
  {
    if s != [] && key(x) >= key(s[0]) {
      InsertByKeyPermutes(x, s[1..], key);
      assert s == [s[0]] + s[1..];
    }
  }

  lemma {:induction false} InsertByKeySorted<T>(x: T, s: seq<T>, key: T -> real)
    requires SortedBy(s, key)
    ensures SortedBy(InsertByKey(x, s, key), key)
  {
    if s != [] && key(x) >= key(s[0]) {
      var t := InsertByKey(x, s[1..], key);
      InsertByKeySorted(x, s[1..], key);
      InsertByKeyPermutes(x, s[1..], key);
      var r := [s[0]] + t;
      forall b | 0 < b < |r| ensures key(r[0]) <= key(r[b]) {
        assert r[b] == t[b - 1];
        assert t[b - 1] in multiset(s[1..]) + multiset{x};
        if t[b - 1] != x {
          assert t[b - 1] in s[1..];
        }
      }
    }
  }

  lemma {:induction false} InsertByKeyWithKey<T>(x: T, s: seq<T>, key: T -> real, k: real)
    requires SortedBy(s, key)
    ensures WithKey(InsertByKey(x, s, key), key, k)
            == WithKey(s, key, k) + (if key(x) == k then [x] else [])
  {
    var here := if key(x) == k then [x] else [];
    if s == [] {
      assert InsertByKey(x, s, key) == [x];
      assert WithKey([x], key, k) == here + WithKey([], key, k);
    } else if key(x) < key(s[0]) {
      var r := [x] + s;
      assert InsertByKey(x, s, key) == r && r[1..] == s;
      assert WithKey(r, key, k) == here + WithKey(s, key, k);
      if key(x) == k {
        WithKeyAbsent(s, key, k);
      }
    } else {
      var t := InsertByKey(x, s[1..], key);
      var r := [s[0]] + t;
      var first := if key(s[0]) == k then [s[0]] else [];
      assert InsertByKey(x, s, key) == r && r[1..] == t;
      InsertByKeyWithKey(x, s[1..], key, k);
      assert WithKey(r, key, k) == first + WithKey(t, key, k);
      assert WithKey(s, key, k) == first + WithKey(s[1..], key, k);
    }
  }

  /** No member of a list sorted by key above k has key k. */
  lemma {:induction false} WithKeyAbsent<T>(s: seq<T>, key: T -> real, k: real)
    requires SortedBy(s, key) && s != [] && k < key(s[0])
    ensures WithKey(s, key, k) == []
  {
    if |s| > 1 {
      assert key(s[0]) <= key(s[1]);
      WithKeyAbsent(s[1..], key, k);
    }
  }

  lemma {:induction false} WithKeyAppend<T>(s: seq<T>, x: T, key: T -> real, k: real)
    ensures WithKey(s + [x], key, k) == WithKey(s, key, k) + (if key(x) == k then [x] else [])
  {
    if s != [] {
      assert (s + [x])[1..] == s[1..] + [x];
      WithKeyAppend(s[1..], x, key, k);
    } else {
      assert ([x])[1..] == [];
    }
  }

  /** The result of SortByKey is sorted by the key. */
  lemma {:induction false} SortByKeySorted<T>(s: seq<T>, key: T -> real)
    ensures SortedBy(SortByKey(s, key), key)
    ensures multiset(SortByKey(s, key)) == multiset(s)
  {
    if s != [] {
      var init := s[..|s| - 1];
      assert s == init + [s[|s| - 1]];
      SortByKeySorted(init, key);
      InsertByKeySorted(s[|s| - 1], SortByKey(init, key), key);
      InsertByKeyPermutes(s[|s| - 1], SortByKey(init, key), key);
    }
  }

  /** SortByKey is stable: members with equal keys keep their relative order. */
  lemma {:induction false} SortByKeyStable<T>(s: seq<T>, key: T -> real, k: real)
    ensures WithKey(SortByKey(s, key), key, k) == WithKey(s, key, k)
  {
    if s != [] {
      var init, last := s[..|s| - 1], s[|s| - 1];
      assert s == init + [last];
      var sorted := SortByKey(init, key);
      assert SortByKey(s, key) == InsertByKey(last, sorted, key);
      SortByKeyStable(init, key, k);
      SortByKeySorted(init, key);
      InsertByKeyWithKey(last, sorted, key, k);
      WithKeyAppend(init, last, key, k);
    }
  }

  /** Inserting depends on the key only through its values on x and the members of s. */
  lemma {:induction false} InsertByKeyCongruent<T>(x: T, s: seq<T>, key1: T -> real, key2: T -> real)
    requires key1(x) == key2(x) && forall y :: y in s ==> key1(y) == key2(y)
    ensures InsertByKey(x, s, key1) == InsertByKey(x, s, key2)
  {
    if s != [] {
      assert s[0] in s;
      assert forall y :: y in s[1..] ==> y in s;
      InsertByKeyCongruent(x, s[1..], key1, key2);
    }
  }

  /** Sorting depends on the key only through its values on the members of s. */
  lemma {:induction false} SortByKeyCongruent<T>(s: seq<T>, key1: T -> real, key2: T -> real)
    requires forall y :: y in s ==> key1(y) == key2(y)
    ensures SortByKey(s, key1) == SortByKey(s, key2)
  {
    if s != [] {
      var init := s[..|s| - 1];
      assert forall y :: y in init ==> y in s;
      SortByKeyCongruent(init, key1, key2);
      SortByKeySorted(init, key1);
      forall y | y in SortByKey(init, key1) ensures key1(y) == key2(y) {
        assert y in multiset(SortByKey(init, key1));
        assert y in init;
      }
      InsertByKeyCongruent(s[|s| - 1], SortByKey(init, key1), key1, key2);
    }
  }

  lemma SortByKeyLength<T>(s: seq<T>, key: T -> real)
    ensures |SortByKey(s, key)| == |s|
  {
    SortByKeySorted(s, key);
    assert |multiset(SortByKey(s, key))| == |multiset(s)|;
  }

  // ---------------------------------------------------------------------------
  // Sub-lists by index
  // ---------------------------------------------------------------------------

  /** The members of S at the indices I, in the order of I. */
  ghost function Pick<T>(S: seq<T>, I: seq<nat>): (r: seq<T>)
    requires forall k :: 0 <= k < |I| ==> I[k] < |S|
    ensures |r| == |I| && forall k :: 0 <= k < |I| ==> r[k] == S[I[k]]
  {
    seq(|I|, k requires 0 <= k < |I| => S[I[k]])
  }

  lemma PickAppend<T>(S: seq<T>, I: seq<nat>, x: nat)
    requires (forall k :: 0 <= k < |I| ==> I[k] < |S|) && x < |S|
    ensures Pick(S, I + [x]) == Pick(S, I) + [S[x]]
  {
  }

  /** The entry at index x of a list without repetitions is found only there. */
  lemma DistinctIndex<T>(S: seq<T>, I: seq<nat>, x: nat)
    requires Distinct(S) && x < |S| && forall k :: 0 <= k < |I| ==> I[k] < |S|
    ensures S[x] in Pick(S, I) <==> x in I
  {
    if S[x] in Pick(S, I) {
      var k :| 0 <= k < |I| && Pick(S, I)[k] == S[x];
      assert S[I[k]] == S[x];
    }
    if x in I {
      var k :| 0 <= k < |I| && I[k] == x;
      assert Pick(S, I)[k] == S[x];
    }
  }
}
