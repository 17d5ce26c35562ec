/**
  What a bottom-up merge sort computes, on plain sequences.

  The four sort macros (HASH_SRT, LL_SORT2, DL_SORT2, CDL_SORT2) rewrite links in
  place.  Here their common algorithm is a function of the order of the elements and
  of the comparison: merge adjacent runs of length k, double k, stop after the pass
  that needed a single merge.  The lemmas say what that function is worth: its result
  is a permutation for any comparison whatsoever, and the one and only stable sorted
  arrangement when the comparison is a total preorder on the elements.
 */
module StableSort {
  import opened Basics
  import opened Bits

  /** A comparison in the style of C: the sign of the result is what counts. */
  type Comparison<!X> = (X, X) -> int

  ghost predicate NoDup<X>(s: seq<X>) {
    forall i, j | 0 <= i < j < |s| :: s[i] != s[j]
  }

  ghost predicate TotalPreorder<X>(s: seq<X>, cmp: Comparison<X>) {
    && (forall a, b | a in s && b in s :: cmp(a, b) <= 0 || cmp(b, a) <= 0)
    && (forall a, b, c | a in s && b in s && c in s && cmp(a, b) <= 0 && cmp(b, c) <= 0 :: cmp(a, c) <= 0)
  }

  ghost predicate Sorted<X>(s: seq<X>, cmp: Comparison<X>) {
    forall i, j | 0 <= i < j < |s| :: cmp(s[i], s[j]) <= 0
  }

  predicate Equivalent<X>(a: X, b: X, cmp: Comparison<X>) {
    cmp(a, b) <= 0 && cmp(b, a) <= 0
  }

  /** The elements of s that compare equal to x, in the order in which s has them. */
  ghost function EqualsOf<X>(s: seq<X>, x: X, cmp: Comparison<X>): seq<X> {
    if s == [] then []
    else (if Equivalent(s[0], x, cmp) then [s[0]] else []) + EqualsOf(s[1..], x, cmp)
  }

  /** t keeps the elements of s, and keeps equal ones in the order they had in s. */
  ghost predicate StablePermutation<X>(s: seq<X>, t: seq<X>, cmp: Comparison<X>) {
    && multiset(t) == multiset(s)
    && forall x | x in s :: EqualsOf(t, x, cmp) == EqualsOf(s, x, cmp)
  }

  // --- the algorithm ---

  /** Merge two runs, preferring the left one when the comparison gives at most zero. */
  ghost function Merge<X>(a: seq<X>, b: seq<X>, cmp: Comparison<X>): seq<X> {
    if a == [] then b
    else if b == [] then a
    else if cmp(a[0], b[0]) <= 0 then [a[0]] + Merge(a[1..], b, cmp)
    else [b[0]] + Merge(a, b[1..], cmp)
  }

  /** One pass: merge the adjacent pairs of runs of length k. */
  ghost function Pass<X>(s: seq<X>, k: nat, cmp: Comparison<X>): seq<X>
    requires 1 <= k
  {
    if s == [] then []
    else
      var m, e := Min(k, |s|), Min(2 * k, |s|);
      Merge(s[..m], s[m..e], cmp) + Pass(s[e..], k, cmp)
  }

  /** Passes with doubling run length, the last being the one with a single merge. */
  ghost function SortFrom<X>(s: seq<X>, k: nat, cmp: Comparison<X>): seq<X>
    requires 1 <= k
    decreases |s| - k
  {
    var t := Pass(s, k, cmp);
    if |s| <= 2 * k then t
    else
      PassPermutes(s, k, cmp);
      SortFrom(t, 2 * k, cmp)
  }

  ghost function Sort<X>(s: seq<X>, cmp: Comparison<X>): seq<X> {
    SortFrom(s, 1, cmp)
  }

  /** Every run of length k that starts at a multiple of k is sorted. */
  ghost predicate SortedRuns<X>(s: seq<X>, k: nat, cmp: Comparison<X>)
    requires 1 <= k
    decreases |s|
  {
    s == [] || (Sorted(s[..Min(k, |s|)], cmp) && SortedRuns(s[Min(k, |s|)..], k, cmp))
  }

  /** What the list is after the given number of passes, the first with run length one. */
  ghost function AfterPasses<X>(s: seq<X>, passes: nat, cmp: Comparison<X>): seq<X> {
    if passes == 0 then s
    else Pass(AfterPasses(s, passes - 1, cmp), Pow2(passes - 1), cmp)
  }

  // --- permutation: for any comparison ---

  lemma {:induction false} MergePermutes<X>(a: seq<X>, b: seq<X>, cmp: Comparison<X>)
    ensures multiset(Merge(a, b, cmp)) == multiset(a) + multiset(b)
    ensures |Merge(a, b, cmp)| == |a| + |b|
  {
    if a != [] && b != [] {
      assert a == [a[0]] + a[1..] && b == [b[0]] + b[1..];
      if cmp(a[0], b[0]) <= 0 {
        MergePermutes(a[1..], b, cmp);
      } else {
        MergePermutes(a, b[1..], cmp);
      }
    }
  }

  lemma ThreeParts<X>(s: seq<X>, m: nat, e: nat)
    requires m <= e <= |s|
    ensures s[..m] + s[m..e] + s[e..] == s
  {
  }

  lemma {:induction false} PassPermutes<X>(s: seq<X>, k: nat, cmp: Comparison<X>)
    requires 1 <= k
    ensures multiset(Pass(s, k, cmp)) == multiset(s)
    ensures |Pass(s, k, cmp)| == |s|
    decreases |s|
  {
    if s != [] {
      var m, e := Min(k, |s|), Min(2 * k, |s|);
      MergePermutes(s[..m], s[m..e], cmp);
      PassPermutes(s[e..], k, cmp);
      ThreeParts(s, m, e);
      assert multiset(s) == multiset(s[..m]) + multiset(s[m..e]) + multiset(s[e..]) by {
        assert multiset(s[..m] + s[m..e] + s[e..]) == multiset(s[..m]) + multiset(s[m..e]) + multiset(s[e..]);
      }
    }
  }

  lemma {:induction false} SortFromPermutes<X>(s: seq<X>, k: nat, cmp: Comparison<X>)
    requires 1 <= k
    ensures multiset(SortFrom(s, k, cmp)) == multiset(s)
    decreases |s| - k
  {
    PassPermutes(s, k, cmp);
    if 2 * k < |s| {
      SortFromPermutes(Pass(s, k, cmp), 2 * k, cmp);
    }
  }

  /** Whatever the comparison answers, no element is lost, doubled or invented. */
  lemma SortPermutes<X>(s: seq<X>, cmp: Comparison<X>)
    ensures multiset(Sort(s, cmp)) == multiset(s)
    ensures |Sort(s, cmp)| == |s|
  {
    SortFromPermutes(s, 1, cmp);
    assert |multiset(Sort(s, cmp))| == |multiset(s)|;
  }

  lemma SameElements<X>(s: seq<X>, t: seq<X>)
    requires multiset(s) == multiset(t)
    ensures forall x | x in s :: x in t
    ensures forall x | x in t :: x in s
  {
    forall x | x in s
      ensures x in t
    {
      assert x in multiset(s);
    }
    forall x | x in t
      ensures x in s
    {
      assert x in multiset(t);
    }
  }

  lemma SubsetPreorder<X>(s: seq<X>, t: seq<X>, cmp: Comparison<X>)
    requires TotalPreorder(s, cmp)
    requires forall x | x in t :: x in s
    ensures TotalPreorder(t, cmp)
  {
  }

  lemma PermutedPreorder<X>(s: seq<X>, t: seq<X>, cmp: Comparison<X>)
    requires TotalPreorder(s, cmp)
    requires multiset(s) == multiset(t)
    ensures TotalPreorder(t, cmp)
  {
    SameElements(s, t);
    SubsetPreorder(s, t, cmp);
  }

  // --- sortedness and stability: for a total preorder ---

  lemma TailOfSorted<X>(s: seq<X>, cmp: Comparison<X>)
    requires s != []
    requires Sorted(s, cmp)
    ensures Sorted(s[1..], cmp)
    ensures forall x | x in s[1..] :: cmp(s[0], x) <= 0
  {
  }

  lemma SortedCons<X>(x: X, s: seq<X>, cmp: Comparison<X>)
    requires Sorted(s, cmp)
    requires forall y | y in s :: cmp(x, y) <= 0
    ensures Sorted([x] + s, cmp)
  {
  }

  lemma MergeElements<X>(a: seq<X>, b: seq<X>, cmp: Comparison<X>)
    ensures forall x | x in Merge(a, b, cmp) :: x in a || x in b
  {
    MergePermutes(a, b, cmp);
    SameElements(Merge(a, b, cmp), a + b);
  }

  lemma {:induction false} MergeSorts<X>(a: seq<X>, b: seq<X>, all: seq<X>, cmp: Comparison<X>)
    requires TotalPreorder(all, cmp)
    requires forall y | y in a || y in b :: y in all
    requires Sorted(a, cmp) && Sorted(b, cmp)
    ensures Sorted(Merge(a, b, cmp), cmp)
  {
    if a != [] && b != [] {
      if cmp(a[0], b[0]) <= 0 {
        MergeSorts(a[1..], b, all, cmp);
        MergeKeepsBelow(a[0], a[1..], b, all, cmp);
        SortedCons(a[0], Merge(a[1..], b, cmp), cmp);
      } else {
        MergeSorts(a, b[1..], all, cmp);
        MergeKeepsBelow(b[0], a, b[1..], all, cmp);
        SortedCons(b[0], Merge(a, b[1..], cmp), cmp);
      }
    }
  }

  lemma MergeKeepsBelow<X>(x: X, a: seq<X>, b: seq<X>, all: seq<X>, cmp: Comparison<X>)
    requires TotalPreorder(all, cmp) && x in all
    requires forall y | y in a || y in b :: y in all
    requires Sorted(a, cmp) && Sorted(b, cmp)
    requires a != [] ==> cmp(x, a[0]) <= 0
    requires b != [] ==> cmp(x, b[0]) <= 0
    ensures forall y | y in Merge(a, b, cmp) :: cmp(x, y) <= 0
  {
    MergeElements(a, b, cmp);
    forall y | y in Merge(a, b, cmp)
      ensures cmp(x, y) <= 0
    {
      if y in a {
        HeadIsLeast(a, y, all, cmp);
      } else {
        HeadIsLeast(b, y, all, cmp);
      }
    }
  }

  lemma HeadIsLeast<X>(s: seq<X>, y: X, all: seq<X>, cmp: Comparison<X>)
    requires TotalPreorder(all, cmp) && forall x | x in s :: x in all
    requires Sorted(s, cmp) && y in s
    ensures cmp(s[0], y) <= 0
  {
    assert s[0] in all;
  }

  lemma ConcatTail<X>(a: seq<X>, b: seq<X>)
    requires a != []
    ensures (a + b)[0] == a[0] && (a + b)[1..] == a[1..] + b
  {
  }

  lemma SameHeadSameTail<X>(t: seq<X>, u: seq<X>)
    requires t != [] && u != [] && t[0] == u[0] && t[1..] == u[1..]
    ensures t == u
  {
    assert t == [t[0]] + t[1..] && u == [u[0]] + u[1..];
  }

  lemma {:induction false} EqualsOfConcat<X>(a: seq<X>, b: seq<X>, x: X, cmp: Comparison<X>)
    ensures EqualsOf(a + b, x, cmp) == EqualsOf(a, x, cmp) + EqualsOf(b, x, cmp)
  {
    if a == [] {
      assert a + b == b;
    } else {
      ConcatTail(a, b);
      EqualsOfConcat(a[1..], b, x, cmp);
      var head := if Equivalent(a[0], x, cmp) then [a[0]] else [];
      assert EqualsOf(a + b, x, cmp) == head + EqualsOf(a[1..] + b, x, cmp);
      assert EqualsOf(a, x, cmp) == head + EqualsOf(a[1..], x, cmp);
    }
  }

  lemma {:induction false} NoEquals<X>(s: seq<X>, x: X, cmp: Comparison<X>)
    requires forall y | y in s :: !Equivalent(y, x, cmp)
    ensures EqualsOf(s, x, cmp) == []
  {
    if s != [] {
      NoEquals(s[1..], x, cmp);
    }
  }

  lemma {:induction false} MergeIsStableFor<X>(a: seq<X>, b: seq<X>, x: X, all: seq<X>, cmp: Comparison<X>)
    requires TotalPreorder(all, cmp) && x in all
    requires forall y | y in a || y in b :: y in all
    requires Sorted(a, cmp) && Sorted(b, cmp)
    ensures EqualsOf(Merge(a, b, cmp), x, cmp) == EqualsOf(a, x, cmp) + EqualsOf(b, x, cmp)
  {
    if a != [] && b != [] {
      TailOfSorted(a, cmp);
      TailOfSorted(b, cmp);
      if cmp(a[0], b[0]) <= 0 {
        MergeIsStableFor(a[1..], b, x, all, cmp);
      } else {
        MergeIsStableFor(a, b[1..], x, all, cmp);
        if Equivalent(b[0], x, cmp) {
          forall y | y in a
            ensures !Equivalent(y, x, cmp)
          {
            // a[0] <= y, so y <= x <= b[0] would give a[0] <= b[0]
            HeadIsLeast(a, y, all, cmp);
          }
          NoEquals(a, x, cmp);
        }
      }
    }
  }

  lemma RunsSplit<X>(s: seq<X>, k: nat, cmp: Comparison<X>)
    requires 1 <= k && s != []
    requires SortedRuns(s, k, cmp)
    ensures Sorted(s[..Min(k, |s|)], cmp)
    ensures Sorted(s[Min(k, |s|)..Min(2 * k, |s|)], cmp)
    ensures SortedRuns(s[Min(2 * k, |s|)..], k, cmp)
  {
    var r := s[Min(k, |s|)..];
    if r != [] {
      var n := Min(k, |r|);
      assert Min(k, |s|) + n == Min(2 * k, |s|);
      assert r[..n] == s[Min(k, |s|)..Min(2 * k, |s|)];
      assert r[n..] == s[Min(2 * k, |s|)..];
    }
  }

  /** A pass over sorted runs of length k leaves sorted runs of length 2k. */
  lemma {:induction false} PassDoublesRuns<X>(s: seq<X>, k: nat, cmp: Comparison<X>)
    requires 1 <= k
    requires TotalPreorder(s, cmp)
    requires SortedRuns(s, k, cmp)
    ensures SortedRuns(Pass(s, k, cmp), 2 * k, cmp)
    decreases |s|
  {
    if s != [] {
      var m, e := Min(k, |s|), Min(2 * k, |s|);
      RunsSplit(s, k, cmp);
      SubsetPreorder(s, s[e..], cmp);
      MergeSorts(s[..m], s[m..e], s, cmp);
      MergePermutes(s[..m], s[m..e], cmp);
      PassDoublesRuns(s[e..], k, cmp);
      PassPermutes(s, k, cmp);
      var first, t := Merge(s[..m], s[m..e], cmp), Pass(s, k, cmp);
      assert t[..Min(2 * k, |t|)] == first;
      assert t[Min(2 * k, |t|)..] == Pass(s[e..], k, cmp);
    }
  }

  /** Merging the first two runs and treating the rest stably treats the whole stably. */
  lemma StableStep<X>(a: seq<X>, b: seq<X>, rest: seq<X>, done: seq<X>, x: X, all: seq<X>, cmp: Comparison<X>)
    requires TotalPreorder(all, cmp) && x in all
    requires forall y | y in a || y in b :: y in all
    requires Sorted(a, cmp) && Sorted(b, cmp)
    requires EqualsOf(done, x, cmp) == EqualsOf(rest, x, cmp)
    ensures EqualsOf(Merge(a, b, cmp) + done, x, cmp) == EqualsOf(a + b + rest, x, cmp)
  {
    MergeIsStableFor(a, b, x, all, cmp);
    EqualsOfConcat(Merge(a, b, cmp), done, x, cmp);
    EqualsOfConcat(a, b, x, cmp);
    EqualsOfConcat(a + b, rest, x, cmp);
  }

  lemma {:induction false} PassIsStable<X>(s: seq<X>, k: nat, x: X, all: seq<X>, cmp: Comparison<X>)
    requires 1 <= k
    requires TotalPreorder(all, cmp) && x in all && forall y | y in s :: y in all
    requires SortedRuns(s, k, cmp)
    ensures EqualsOf(Pass(s, k, cmp), x, cmp) == EqualsOf(s, x, cmp)
    decreases |s|
  {
    if s != [] {
      var m, e := Min(k, |s|), Min(2 * k, |s|);
      RunsSplit(s, k, cmp);
      PassIsStable(s[e..], k, x, all, cmp);
      StableStep(s[..m], s[m..e], s[e..], Pass(s[e..], k, cmp), x, all, cmp);
      ThreeParts(s, m, e);
    }
  }

  lemma {:induction false} SingletonRuns<X>(s: seq<X>, cmp: Comparison<X>)
    ensures SortedRuns(s, 1, cmp)
  {
    if s != [] {
      SingletonRuns(s[1..], cmp);
    }
  }

  /** After pass number k the list is a sequence of sorted runs of length 2^k. */
  lemma {:induction false} RunsAfterPasses<X>(s: seq<X>, passes: nat, cmp: Comparison<X>)
    requires TotalPreorder(s, cmp)
    ensures SortedRuns(AfterPasses(s, passes, cmp), Pow2(passes), cmp)
    ensures multiset(AfterPasses(s, passes, cmp)) == multiset(s)
  {
    if passes == 0 {
      SingletonRuns(s, cmp);
    } else {
      RunsAfterPasses(s, passes - 1, cmp);
      var t := AfterPasses(s, passes - 1, cmp);
      PermutedPreorder(s, t, cmp);
      PassDoublesRuns(t, Pow2(passes - 1), cmp);
      PassPermutes(t, Pow2(passes - 1), cmp);
    }
  }

  /** Where a sort of s stands between two passes: the list is t, and the next run length is k. */
  ghost predicate Between<X>(s: seq<X>, t: seq<X>, passes: nat, k: nat, cmp: Comparison<X>) {
    && t == AfterPasses(s, passes, cmp) && k == Pow2(passes)
    && (TotalPreorder(s, cmp) ==> SortedRuns(t, k, cmp))
  }

  /** t is what some number of passes makes of s, the last of which had a single merge. */
  ghost predicate ByPasses<X>(s: seq<X>, t: seq<X>, cmp: Comparison<X>) {
    exists passes: nat :: t == AfterPasses(s, passes, cmp) && |s| <= Pow2(passes)
  }

  lemma BeforePasses<X>(s: seq<X>, cmp: Comparison<X>)
    ensures Between(s, s, 0, 1, cmp)
    ensures s == [] ==> ByPasses(s, s, cmp)
  {
    if TotalPreorder(s, cmp) {
      RunsAfterPasses(s, 0, cmp);
    }
    assert s == AfterPasses(s, 0, cmp);
  }

  lemma OnePassMore<X>(s: seq<X>, t: seq<X>, passes: nat, k: nat, cmp: Comparison<X>)
    requires 1 <= k && Between(s, t, passes, k, cmp)
    ensures Between(s, Pass(t, k, cmp), passes + 1, 2 * k, cmp)
    ensures |s| <= 2 * k ==> ByPasses(s, Pass(t, k, cmp), cmp)
  {
    hide SortedRuns, TotalPreorder, Pass;
    assert Pass(t, k, cmp) == AfterPasses(s, passes + 1, cmp);
    if TotalPreorder(s, cmp) {
      RunsAfterPasses(s, passes + 1, cmp);
    }
  }

  lemma WholeRun<X>(s: seq<X>, k: nat, cmp: Comparison<X>)
    requires |s| <= k && 1 <= k
    requires SortedRuns(s, k, cmp)
    ensures Sorted(s, cmp)
  {
    assert s[..|s|] == s;
  }

  lemma PassStep<X>(s: seq<X>, k: nat, cmp: Comparison<X>)
    requires 1 <= k
    requires TotalPreorder(s, cmp) && SortedRuns(s, k, cmp)
    ensures TotalPreorder(Pass(s, k, cmp), cmp) && SortedRuns(Pass(s, k, cmp), 2 * k, cmp)
    ensures StablePermutation(s, Pass(s, k, cmp), cmp)
    ensures |Pass(s, k, cmp)| == |s|
  {
    PassPermutes(s, k, cmp);
    PermutedPreorder(s, Pass(s, k, cmp), cmp);
    PassDoublesRuns(s, k, cmp);
    forall x | x in s
      ensures EqualsOf(Pass(s, k, cmp), x, cmp) == EqualsOf(s, x, cmp)
    {
      PassIsStable(s, k, x, s, cmp);
    }
  }

  lemma StableTransitive<X>(s: seq<X>, t: seq<X>, u: seq<X>, cmp: Comparison<X>)
    requires StablePermutation(s, t, cmp) && StablePermutation(t, u, cmp)
    ensures StablePermutation(s, u, cmp)
  {
    SameElements(s, t);
  }

  lemma {:induction false} SortFromIsStable<X>(s: seq<X>, k: nat, cmp: Comparison<X>)
    requires 1 <= k
    requires TotalPreorder(s, cmp) && SortedRuns(s, k, cmp)
    ensures Sorted(SortFrom(s, k, cmp), cmp)
    ensures StablePermutation(s, SortFrom(s, k, cmp), cmp)
    decreases |s| - k
  {
    var t := Pass(s, k, cmp);
    PassStep(s, k, cmp);
    if |s| <= 2 * k {
      WholeRun(t, 2 * k, cmp);
    } else {
      SortFromIsStable(t, 2 * k, cmp);
      StableTransitive(s, t, SortFrom(t, 2 * k, cmp), cmp);
    }
  }

  /** For a total preorder, the result is a sorted, stable permutation. */
  lemma SortIsStable<X>(s: seq<X>, cmp: Comparison<X>)
    requires TotalPreorder(s, cmp)
    ensures Sorted(Sort(s, cmp), cmp)
    ensures StablePermutation(s, Sort(s, cmp), cmp)
  {
    SingletonRuns(s, cmp);
    SortFromIsStable(s, 1, cmp);
  }

  /** In a sorted arrangement the least element is the first of its equals. */
  lemma LeastComesFirst<X>(s: seq<X>, x: X, cmp: Comparison<X>)
    requires s != [] && Equivalent(s[0], x, cmp)
    ensures EqualsOf(s, x, cmp) != [] && EqualsOf(s, x, cmp)[0] == s[0]
  {
  }

  lemma EqualHeads<X>(t: seq<X>, u: seq<X>, cmp: Comparison<X>)
    requires TotalPreorder(t, cmp) && t != []
    requires Sorted(t, cmp) && Sorted(u, cmp)
    requires StablePermutation(t, u, cmp)
    ensures u != [] && t[0] == u[0]
  {
    SameElements(t, u);
    assert t[0] in t && t[0] in u && u[0] in u && u[0] in t;
    HeadIsLeast(t, u[0], t, cmp);
    HeadIsLeast(u, t[0], t, cmp);
    LeastComesFirst(t, t[0], cmp);
    LeastComesFirst(u, t[0], cmp);
  }

  lemma TailMultiset<X>(s: seq<X>)
    requires s != []
    ensures multiset(s[1..]) == multiset(s) - multiset{s[0]}
  {
    assert s == [s[0]] + s[1..];
  }

  lemma TailOfPermutation<X>(t: seq<X>, u: seq<X>, cmp: Comparison<X>)
    requires t != [] && u != [] && t[0] == u[0]
    requires StablePermutation(t, u, cmp)
    ensures StablePermutation(t[1..], u[1..], cmp)
  {
    var x := t[0];
    TailMultiset(t);
    TailMultiset(u);
    forall y | y in t[1..]
      ensures EqualsOf(u[1..], y, cmp) == EqualsOf(t[1..], y, cmp)
    {
      var head := if Equivalent(x, y, cmp) then [x] else [];
      assert EqualsOf(t, y, cmp) == head + EqualsOf(t[1..], y, cmp);
      assert EqualsOf(u, y, cmp) == head + EqualsOf(u[1..], y, cmp);
      assert EqualsOf(t, y, cmp)[|head|..] == EqualsOf(t[1..], y, cmp);
      assert EqualsOf(u, y, cmp)[|head|..] == EqualsOf(u[1..], y, cmp);
    }
  }

  lemma NothingPermuted<X>(t: seq<X>, u: seq<X>, cmp: Comparison<X>)
    requires t == [] && StablePermutation(t, u, cmp)
    ensures u == []
  {
    assert |multiset(u)| == 0;
  }

  lemma TailPreorder<X>(t: seq<X>, cmp: Comparison<X>)
    requires t != [] && TotalPreorder(t, cmp)
    ensures TotalPreorder(t[1..], cmp)
  {
    SubsetPreorder(t, t[1..], cmp);
  }

  lemma {:induction false} UniqueArrangement<X>(t: seq<X>, u: seq<X>, cmp: Comparison<X>)
    requires TotalPreorder(t, cmp)
    requires Sorted(t, cmp) && Sorted(u, cmp)
    requires StablePermutation(t, u, cmp)
    ensures t == u
  {
    hide EqualsOf, StablePermutation, Sorted, TotalPreorder;
    if t == [] {
      NothingPermuted(t, u, cmp);
    } else {
      EqualHeads(t, u, cmp);
      TailOfPermutation(t, u, cmp);
      TailPreorder(t, cmp);
      TailOfSorted(t, cmp);
      TailOfSorted(u, cmp);
      UniqueArrangement(t[1..], u[1..], cmp);
      SameHeadSameTail(t, u);
    }
  }

  /** There is only one stable sorted permutation, and it is the one the passes compute. */
  lemma SortIsTheStableSort<X>(s: seq<X>, t: seq<X>, cmp: Comparison<X>)
    requires TotalPreorder(s, cmp)
    ensures t == Sort(s, cmp) <==> Sorted(t, cmp) && StablePermutation(s, t, cmp)
  {
    SortIsStable(s, cmp);
    if Sorted(t, cmp) && StablePermutation(s, t, cmp) {
      var u := Sort(s, cmp);
      PermutedPreorder(s, u, cmp);
      assert StablePermutation(u, t, cmp) by {
        SameElements(s, u);
      }
      UniqueArrangement(u, t, cmp);
    }
  }

  lemma {:induction false} NoDupCount<X>(s: seq<X>, x: X)
    requires NoDup(s)
    ensures multiset(s)[x] <= 1
  {
    if s != [] {
      assert s == [s[0]] + s[1..];
      NoDupCount(s[1..], x);
      if s[0] == x {
        assert x !in s[1..];
      }
    }
  }

  /** The sorts work on links, so it matters that distinct nodes stay distinct. */
  lemma PermutationNoDup<X>(s: seq<X>, t: seq<X>)
    requires NoDup(s)
    requires multiset(s) == multiset(t)
    ensures NoDup(t)
  {
    forall i, j | 0 <= i < j < |t|
      ensures t[i] != t[j]
    {
      NoDupCount(s, t[i]);
      assert t == t[..i] + [t[i]] + t[i + 1..j] + [t[j]] + t[j + 1..];
    }
  }

  // --- inserting one element into a sorted sequence ---

  lemma SortedAround<X>(a: seq<X>, x: X, b: seq<X>, cmp: Comparison<X>)
    requires Sorted(a + b, cmp)
    requires forall y | y in a :: cmp(y, x) <= 0
    requires forall y | y in b :: cmp(x, y) <= 0
    ensures Sorted(a + [x] + b, cmp)
  {
    var t := a + [x] + b;
    forall i, j | 0 <= i < j < |t|
      ensures cmp(t[i], t[j]) <= 0
    {
      var i', j' := if i <= |a| then i else i - 1, if j <= |a| then j else j - 1;
      if i != |a| && j != |a| {
        assert t[i] == (a + b)[i'] && t[j] == (a + b)[j'];
      }
    }
  }

  lemma EqualsAround<X>(a: seq<X>, x: X, b: seq<X>, y: X, cmp: Comparison<X>)
    ensures EqualsOf(a + [x] + b, y, cmp) == EqualsOf(a, y, cmp) + EqualsOf([x], y, cmp) + EqualsOf(b, y, cmp)
  {
    EqualsOfConcat(a, [x], y, cmp);
    EqualsOfConcat(a + [x], b, y, cmp);
  }

  lemma InConcat<X>(a: seq<X>, b: seq<X>, y: X)
    requires y in a || y in b
    ensures y in a + b
  {
    if y in a {
      var k :| 0 <= k < |a| && a[k] == y;
      assert (a + b)[k] == y;
    } else {
      var k :| 0 <= k < |b| && b[k] == y;
      assert (a + b)[|a| + k] == y;
    }
  }

  lemma InAll<X>(a: seq<X>, b: seq<X>)
    ensures forall y | y in a || y in b :: y in a + b
  {
    forall y | y in a || y in b
      ensures y in a + b
    {
      InConcat(a, b, y);
    }
  }

  lemma EqualsOfOne<X>(x: X, y: X, cmp: Comparison<X>)
    ensures EqualsOf([x], y, cmp) == if Equivalent(x, y, cmp) then [x] else []
  {
  }

  /** Where everything in a is strictly on one side of x, at most one of them has equals of y. */
  lemma OneSided<X>(a: seq<X>, x: X, y: X, all: seq<X>, cmp: Comparison<X>)
    requires TotalPreorder(all, cmp) && x in all && y in all && forall z | z in a :: z in all
    requires (forall z | z in a :: !(cmp(x, z) <= 0)) || (forall z | z in a :: !(cmp(z, x) <= 0))
    ensures EqualsOf(a, y, cmp) + EqualsOf([x], y, cmp) == EqualsOf([x], y, cmp) + EqualsOf(a, y, cmp)
  {
    hide EqualsOf;
    EqualsOfOne(x, y, cmp);
    if Equivalent(x, y, cmp) {
      NoEquals(a, y, cmp);
    }
  }

  lemma FirstOfEquals<X>(a: seq<X>, x: X, b: seq<X>, y: X, all: seq<X>, cmp: Comparison<X>)
    requires TotalPreorder(all, cmp) && x in all && y in all && forall z | z in a :: z in all
    requires forall z | z in a :: !(cmp(x, z) <= 0)
    ensures EqualsOf(a + [x] + b, y, cmp) == EqualsOf([x] + (a + b), y, cmp)
  {
    OneSided(a, x, y, all, cmp);
    hide EqualsOf, TotalPreorder;
    EqualsAround(a, x, b, y, cmp);
    EqualsOfConcat(a, b, y, cmp);
    EqualsOfConcat([x], a + b, y, cmp);
    Regroup(EqualsOf(a, y, cmp), EqualsOf([x], y, cmp), EqualsOf(b, y, cmp));
  }

  lemma LastOfEquals<X>(a: seq<X>, x: X, b: seq<X>, y: X, all: seq<X>, cmp: Comparison<X>)
    requires TotalPreorder(all, cmp) && x in all && y in all && forall z | z in b :: z in all
    requires forall z | z in b :: !(cmp(z, x) <= 0)
    ensures EqualsOf(a + [x] + b, y, cmp) == EqualsOf(a + b + [x], y, cmp)
  {
    OneSided(b, x, y, all, cmp);
    hide EqualsOf, TotalPreorder;
    EqualsAround(a, x, b, y, cmp);
    EqualsOfConcat(a + b, [x], y, cmp);
    EqualsOfConcat(a, b, y, cmp);
    Regroup(EqualsOf(a, y, cmp), EqualsOf([x], y, cmp), EqualsOf(b, y, cmp));
    Regroup(EqualsOf(a, y, cmp), EqualsOf(b, y, cmp), EqualsOf([x], y, cmp));
  }

  lemma Regroup<X>(a: seq<X>, b: seq<X>, c: seq<X>)
    ensures a + b + c == a + (b + c) && b + a + c == b + (a + c)
  {
  }

  /** x goes in front of all its equals: this is the stable sort of x and then the list. */
  lemma InsertFirst<X>(a: seq<X>, x: X, b: seq<X>, cmp: Comparison<X>)
    requires TotalPreorder([x] + (a + b), cmp) && Sorted(a + b, cmp)
    requires forall y | y in a :: cmp(y, x) <= 0 && !(cmp(x, y) <= 0)
    requires forall y | y in b :: cmp(x, y) <= 0
    ensures a + [x] + b == Sort([x] + (a + b), cmp)
  {
    hide EqualsOf, Sort, TotalPreorder;
    var all, t := [x] + (a + b), a + [x] + b;
    InAll(a, b);
    InAll([x], a + b);
    SortedAround(a, x, b, cmp);
    forall y | y in all
      ensures EqualsOf(t, y, cmp) == EqualsOf(all, y, cmp)
    {
      FirstOfEquals(a, x, b, y, all, cmp);
    }
    assert multiset(t) == multiset(all);
    SortIsTheStableSort(all, t, cmp);
  }

  /** x goes behind all its equals: this is the stable sort of the list and then x. */
  lemma InsertLast<X>(a: seq<X>, x: X, b: seq<X>, cmp: Comparison<X>)
    requires TotalPreorder(a + b + [x], cmp) && Sorted(a + b, cmp)
    requires forall y | y in a :: cmp(y, x) <= 0
    requires forall y | y in b :: cmp(x, y) <= 0 && !(cmp(y, x) <= 0)
    ensures a + [x] + b == Sort(a + b + [x], cmp)
  {
    hide EqualsOf, Sort, TotalPreorder;
    var all, t := a + b + [x], a + [x] + b;
    InAll(a, b);
    InAll(a + b, [x]);
    SortedAround(a, x, b, cmp);
    forall y | y in all
      ensures EqualsOf(t, y, cmp) == EqualsOf(all, y, cmp)
    {
      LastOfEquals(a, x, b, y, all, cmp);
    }
    assert multiset(t) == multiset(all);
    SortIsTheStableSort(all, t, cmp);
  }
}
