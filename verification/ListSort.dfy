/**
  The in-place merge sorts LL_SORT2, DL_SORT2 and CDL_SORT2 of utlist.h, and the merge
  loop that HASH_SRT of uthash.h shares with DL_SORT2.

  The macros repeat one text with three differences, which Shape tells apart: whether
  prev is written, how the end of the list is recognised, and how the ends are tied
  together after a pass.
 */
module ListSort {
  import opened Basics
  import opened Element
  import opened StableSort

  datatype Shape = Singly | Doubly | Circular

  lemma MoveOver<X>(out: seq<X>, x: X, rest: seq<X>)
    ensures out + ([x] + rest) == out + [x] + rest
  {
  }

  /** What the next field of position j holds in a list of the given shape. */
  ghost function Succ(shape: Shape, s: seq<Elem>, j: nat): Elem?
    requires j < |s|
  {
    if j + 1 < |s| then s[j + 1] else if shape == Circular then s[0] else null
  }

  /** From position i on, the links are still those of s. */
  ghost predicate LinkedFrom(shape: Shape, s: seq<Elem>, i: nat)
    reads s
  {
    forall j {:trigger s[j].next} | i <= j < |s| :: s[j].next == Succ(shape, s, j)
  }

  /** out is the list built so far, from its first element to the tail. */
  ghost predicate Built(shape: Shape, out: seq<Elem>, list: Elem?, tail: Elem?)
    reads out
  {
    && NoDup(out)
    && list == At(out, 0)
    && tail == (if out == [] then null else out[|out| - 1])
    && (forall j {:trigger out[j].next} | 0 <= j < |out| - 1 :: out[j].next == out[j + 1])
    && (shape != Singly ==> forall j {:trigger out[j].prev} | 1 <= j < |out| :: out[j].prev == out[j - 1])
    && (shape != Singly && out != [] ==> out[0].prev == null)
  }

  /** out holds only elements of s, and none of those from position i on. */
  ghost predicate Emitted(out: seq<Elem>, s: seq<Elem>, i: nat) {
    && (forall x | x in out :: x in s)
    && (forall j | i <= j < |s| :: s[j] !in out)
  }

  ghost predicate IsLL(list: Elem?, s: seq<Elem>)
    reads s
  {
    && NoDup(s)
    && list == At(s, 0)
    && LinkedFrom(Singly, s, 0)
  }

  /** prev is the inverse of next, and the head's prev is the last element. */
  ghost predicate BackLinked(s: seq<Elem>)
    reads s
  {
    forall j {:trigger s[j].prev} | 0 <= j < |s| :: s[j].prev == s[if j == 0 then |s| - 1 else j - 1]
  }

  ghost predicate IsDL(list: Elem?, s: seq<Elem>)
    reads s
  {
    && NoDup(s)
    && list == At(s, 0)
    && LinkedFrom(Doubly, s, 0)
    && BackLinked(s)
  }

  ghost predicate IsCDL(list: Elem?, s: seq<Elem>)
    reads s
  {
    && NoDup(s)
    && list == At(s, 0)
    && LinkedFrom(Circular, s, 0)
    && BackLinked(s)
  }

  /** Step to the next element of the list that is being consumed. */
  function Advance(shape: Shape, x: Elem, oldhead: Elem): Elem?
    reads x
  {
    if shape == Circular && x.next == oldhead then null else x.next
  }

  /** Merge of s[i..m] and s[j..e], spelled by positions as the loop walks them. */
  ghost function MergeAt(s: seq<Elem>, i: nat, m: nat, j: nat, e: nat, cmp: Comparison<Elem>): seq<Elem>
    requires i <= m <= j <= e <= |s|
    decreases m - i + e - j
  {
    if i == m && j == e then []
    else if i == m || (j < e && cmp(s[i], s[j]) > 0) then [s[j]] + MergeAt(s, i, m, j + 1, e, cmp)
    else [s[i]] + MergeAt(s, i + 1, m, j, e, cmp)
  }

  /** The rest of a pass, from the run that starts at position i. */
  ghost function PassFrom(s: seq<Elem>, i: nat, k: nat, cmp: Comparison<Elem>): seq<Elem>
    requires 1 <= k && i <= |s|
    decreases |s| - i
  {
    if i == |s| then []
    else
      var m, e := Min(i + k, |s|), Min(i + 2 * k, |s|);
      MergeAt(s, i, m, m, e, cmp) + PassFrom(s, e, k, cmp)
  }

  lemma MergeAtEnd(out: seq<Elem>, s: seq<Elem>, m: nat, e: nat, cmp: Comparison<Elem>)
    requires m <= e <= |s|
    ensures out + MergeAt(s, m, m, e, e, cmp) == out
  {
  }

  lemma PassFromStep(out: seq<Elem>, s: seq<Elem>, i: nat, k: nat, cmp: Comparison<Elem>)
    requires 1 <= k && i < |s|
    ensures out + PassFrom(s, i, k, cmp)
         == out + MergeAt(s, i, Min(i + k, |s|), Min(i + k, |s|), Min(i + 2 * k, |s|), cmp)
          + PassFrom(s, Min(i + 2 * k, |s|), k, cmp)
  {
  }

  lemma DropTwice<X>(s: seq<X>, i: nat, j: nat, k: nat)
    requires i <= j <= k <= |s|
    ensures s[i..][j - i..k - i] == s[j..k] && s[i..][j - i..] == s[j..]
  {
  }

  lemma PassUnfold<X>(s: seq<X>, a: seq<X>, b: seq<X>, rest: seq<X>, k: nat, cmp: Comparison<X>)
    requires 1 <= k && s != []
    requires a == s[..Min(k, |s|)] && b == s[Min(k, |s|)..Min(2 * k, |s|)] && rest == s[Min(2 * k, |s|)..]
    ensures Pass(s, k, cmp) == Merge(a, b, cmp) + Pass(rest, k, cmp)
  {
  }

  lemma {:induction false} PassFromIsPass(s: seq<Elem>, i: nat, k: nat, cmp: Comparison<Elem>)
    requires 1 <= k && i <= |s|
    ensures PassFrom(s, i, k, cmp) == Pass(s[i..], k, cmp)
    decreases |s| - i
  {
    if i < |s| {
      var m, e := Min(i + k, |s|), Min(i + 2 * k, |s|);
      var r := s[i..];
      assert Min(k, |r|) == m - i && Min(2 * k, |r|) == e - i;
      DropTwice(s, i, i, m);
      DropTwice(s, i, m, e);
      DropTwice(s, i, e, e);
      PassUnfold(r, s[i..m], s[m..e], s[e..], k, cmp);
      MergeAtIsMerge(s, i, m, m, e, cmp);
      PassFromIsPass(s, e, k, cmp);
    }
  }

  lemma PassFromEnds(s: seq<Elem>, k: nat, cmp: Comparison<Elem>)
    requires 1 <= k
    ensures PassFrom(s, 0, k, cmp) == Pass(s, k, cmp)
    ensures PassFrom(s, |s|, k, cmp) == []
  {
    PassFromIsPass(s, 0, k, cmp);
    assert s[0..] == s;
  }

  lemma MergeTakesLeft<X>(a: seq<X>, b: seq<X>, cmp: Comparison<X>)
    requires a != [] && (b == [] || cmp(a[0], b[0]) <= 0)
    ensures Merge(a, b, cmp) == [a[0]] + Merge(a[1..], b, cmp)
  {
    if b == [] {
      assert Merge(a, b, cmp) == a && Merge(a[1..], b, cmp) == a[1..];
      assert a == [a[0]] + a[1..];
    }
  }

  lemma MergeTakesRight<X>(a: seq<X>, b: seq<X>, cmp: Comparison<X>)
    requires b != [] && (a == [] || cmp(a[0], b[0]) > 0)
    ensures Merge(a, b, cmp) == [b[0]] + Merge(a, b[1..], cmp)
  {
    if a == [] {
      assert Merge(a, b, cmp) == b && Merge(a, b[1..], cmp) == b[1..];
      assert b == [b[0]] + b[1..];
    }
  }

  lemma SliceTail<X>(s: seq<X>, i: nat, j: nat)
    requires i < j <= |s|
    ensures s[i..j][0] == s[i] && s[i..j][1..] == s[i + 1..j]
  {
  }

  lemma MergeNothing<X>(a: seq<X>, b: seq<X>, cmp: Comparison<X>)
    requires a == [] && b == []
    ensures Merge(a, b, cmp) == []
  {
  }

  lemma {:induction false} MergeAtIsMerge(s: seq<Elem>, i: nat, m: nat, j: nat, e: nat, cmp: Comparison<Elem>)
    requires i <= m <= j <= e <= |s|
    ensures MergeAt(s, i, m, j, e, cmp) == Merge(s[i..m], s[j..e], cmp)
    decreases m - i + e - j
  {
    hide Merge;
    if i == m && j == e {
      MergeNothing(s[i..m], s[j..e], cmp);
    } else if i == m || (j < e && cmp(s[i], s[j]) > 0) {
      SliceTail(s, j, e);
      MergeTakesRight(s[i..m], s[j..e], cmp);
      MergeAtIsMerge(s, i, m, j + 1, e, cmp);
    } else {
      SliceTail(s, i, m);
      MergeTakesLeft(s[i..m], s[j..e], cmp);
      MergeAtIsMerge(s, i + 1, m, j, e, cmp);
    }
  }

  /** Hang e behind the tail of what is built, as the last lines of the merge loop do. */
  method Emit(shape: Shape, list: Elem?, tail: Elem?, e: Elem, ghost out: seq<Elem>)
    returns (list': Elem?, tail': Elem?)
    requires Built(shape, out, list, tail)
    requires e !in out
    modifies (if tail == null then {} else {tail})`next, (if shape == Singly then {} else {e})`prev
    ensures Built(shape, out + [e], list', tail')
  {
    list' := list;
    if tail != null {
      tail.next := e;
    } else {
      list' := e;
    }
    if shape != Singly {
      e.prev := tail;
    }
    tail' := e;
    assert forall j | 0 <= j < |out| :: (out + [e])[j] == out[j] && out[j] != e;
  }

  /** The fork of the merge loop: which element goes next, and the cursor behind it. */
  method Choose(shape: Shape, p: Elem?, q: Elem?, psize: nat, qsize: nat, oldhead: Elem, cmp: Comparison<Elem>,
                ghost s: seq<Elem>, ghost pi: nat, ghost m: nat, ghost qi: nat, ghost e: nat)
    returns (x: Elem, p': Elem?, q': Elem?, psize': nat, qsize': nat, ghost left: bool)
    requires NoDup(s) && pi <= m <= qi <= e <= |s| && s != [] && oldhead == s[0]
    requires psize == m - pi && e == Min(qi + qsize, |s|)
    requires pi < m ==> p == s[pi]
    requires q == At(s, qi)
    requires psize > 0 || (qsize > 0 && q != null)
    requires forall j {:trigger s[j].next} | pi <= j < m :: s[j].next == Succ(shape, s, j)
    requires LinkedFrom(shape, s, qi)
    ensures left ==> pi < m && x == s[pi] && psize' == psize - 1 && q' == q && qsize' == qsize
    ensures left ==> p' == At(s, pi + 1)
    ensures left ==> MergeAt(s, pi, m, qi, e, cmp) == [x] + MergeAt(s, pi + 1, m, qi, e, cmp)
    ensures !left ==> qi < e && x == s[qi] && psize' == psize && p' == p && qsize' == qsize - 1
    ensures !left ==> q' == At(s, qi + 1)
    ensures !left ==> MergeAt(s, pi, m, qi, e, cmp) == [x] + MergeAt(s, pi, m, qi + 1, e, cmp)
  {
    p', q', psize', qsize' := p, q, psize, qsize;
    if psize == 0 {
      x, left := q, false;
      q', qsize' := Advance(shape, q, oldhead), qsize - 1;
    } else if qsize == 0 || q == null {
      x, left := p, true;
      p', psize' := Advance(shape, p, oldhead), psize - 1;
    } else if cmp(p, q) <= 0 {
      x, left := p, true;
      p', psize' := Advance(shape, p, oldhead), psize - 1;
    } else {
      x, left := q, false;
      q', qsize' := Advance(shape, q, oldhead), qsize - 1;
    }
  }

  /** Between two steps of a merge: the runs s[pi..m] and s[qi..e] are still to be merged behind out. */
  ghost predicate Merging(shape: Shape, s: seq<Elem>, pi: nat, m: nat, qi: nat, e: nat, p: Elem?, q: Elem?,
                          psize: nat, qsize: nat, out: seq<Elem>, list: Elem?, tail: Elem?)
    reads s, out
  {
    && NoDup(s) && pi <= m <= qi <= e <= |s|
    && psize == m - pi && e == Min(qi + qsize, |s|)
    && (pi < m ==> p == s[pi])
    && q == At(s, qi)
    && (forall j {:trigger s[j].next} | pi <= j < m :: s[j].next == Succ(shape, s, j))
    && LinkedFrom(shape, s, qi)
    && Built(shape, out, list, tail)
    && Emitted(out, s, qi)
    && (forall j | pi <= j < m :: s[j] !in out)
  }

  /** One turn of the merge loop: the chosen element leaves its run and is hung behind the tail. */
  method Step(shape: Shape, p: Elem?, q: Elem?, psize: nat, qsize: nat, list: Elem?, tail: Elem?,
              oldhead: Elem, cmp: Comparison<Elem>,
              ghost nodes: set<Elem>, ghost s: seq<Elem>, ghost pi: nat, ghost m: nat, ghost qi: nat, ghost e: nat,
              ghost out: seq<Elem>)
    returns (p': Elem?, q': Elem?, psize': nat, qsize': nat, list': Elem?, tail': Elem?,
             ghost pi': nat, ghost qi': nat, ghost out': seq<Elem>)
    requires Merging(shape, s, pi, m, qi, e, p, q, psize, qsize, out, list, tail)
    requires s != [] && oldhead == s[0] && Within(s, nodes)
    requires psize > 0 || (qsize > 0 && q != null)
    modifies nodes`next, (if shape == Singly then {} else nodes)`prev
    ensures Merging(shape, s, pi', m, qi', e, p', q', psize', qsize', out', list', tail')
    ensures pi <= pi' && qi <= qi' && pi' + qi' == pi + qi + 1 && out' != []
    ensures out' + MergeAt(s, pi', m, qi', e, cmp) == out + MergeAt(s, pi, m, qi, e, cmp)
  {
    var x: Elem;
    ghost var left: bool;
    x, p', q', psize', qsize', left := Choose(shape, p, q, psize, qsize, oldhead, cmp, s, pi, m, qi, e);
    pi', qi' := if left then pi + 1 else pi, if left then qi else qi + 1;
    MoveOver(out, x, MergeAt(s, pi', m, qi', e, cmp));
    assert x in s && (tail != null ==> tail in s);
    list', tail' := Emit(shape, list, tail, x, out);
    out' := out + [x];
    assert e == Min(qi' + qsize', |s|);
    assert LinkedFrom(shape, s, qi');
    assert Emitted(out', s, qi');
  }

  /** The inner loop of the sorts: merge the run at p with the run at q behind the tail. */
  method MergeRuns(shape: Shape, p0: Elem, q0: Elem?, psize0: nat, insize: nat, list0: Elem?, tail0: Elem?,
                   oldhead: Elem, cmp: Comparison<Elem>,
                   ghost nodes: set<Elem>, ghost s: seq<Elem>, ghost i: nat, ghost out0: seq<Elem>)
    returns (list: Elem?, tail: Elem?, q: Elem?, ghost out: seq<Elem>)
    requires 1 <= insize && NoDup(s) && Within(s, nodes) && i < |s| && oldhead == s[0]
    requires p0 == s[i] && psize0 == Min(i + insize, |s|) - i && q0 == At(s, i + psize0)
    requires LinkedFrom(shape, s, i) && Built(shape, out0, list0, tail0)
    requires Emitted(out0, s, i)
    modifies nodes`next, (if shape == Singly then {} else nodes)`prev
    ensures out == out0 + MergeAt(s, i, Min(i + insize, |s|), Min(i + insize, |s|), Min(i + 2 * insize, |s|), cmp)
    ensures Built(shape, out, list, tail) && out != []
    ensures Emitted(out, s, Min(i + 2 * insize, |s|))
    ensures LinkedFrom(shape, s, Min(i + 2 * insize, |s|)) && q == At(s, Min(i + 2 * insize, |s|))
  {
    ghost var m, e := i + psize0, Min(i + 2 * insize, |s|);
    ghost var pi: nat, qi: nat := i, m;
    hide MergeAt, NoDup;
    ghost var goal := out0 + MergeAt(s, i, m, m, e, cmp);
    var p: Elem?, psize: nat, qsize: nat := p0, psize0, insize;
    list, tail, q, out := list0, tail0, q0, out0;
    while psize > 0 || (qsize > 0 && q != null)
      invariant Merging(shape, s, pi, m, qi, e, p, q, psize, qsize, out, list, tail)
      invariant i <= pi && (i < pi || m < qi ==> out != [])
      invariant out + MergeAt(s, pi, m, qi, e, cmp) == goal
      decreases psize + e - qi
    {
      p, q, psize, qsize, list, tail, pi, qi, out :=
        Step(shape, p, q, psize, qsize, list, tail, oldhead, cmp, nodes, s, pi, m, qi, e, out);
    }
    MergeAtEnd(out, s, m, e, cmp);
  }

  /** Walk at most insize elements from p: the length of the left run and the start of the right one. */
  method CountRun(shape: Shape, p: Elem, insize: nat, oldhead: Elem, ghost s: seq<Elem>, ghost i: nat)
    returns (psize: nat, q: Elem?)
    requires 1 <= insize && NoDup(s) && i < |s| && p == s[i] && oldhead == s[0]
    requires LinkedFrom(shape, s, i)
    ensures psize == Min(i + insize, |s|) - i
    ensures q == At(s, i + psize)
  {
    q, psize := p, 0;
    for k := 0 to insize
      invariant psize == k && i + k <= |s| && q == At(s, i + k) && (k == 0 || q != null)
    {
      psize := psize + 1;
      q := Advance(shape, q, oldhead);
      if q == null {
        break;
      }
    }
  }

  /** One pass over the whole list: the body of the outer loop of the sorts, before the ends are tied. */
  method SortPass(shape: Shape, list0: Elem, insize: nat, cmp: Comparison<Elem>,
                  ghost nodes: set<Elem>, ghost s: seq<Elem>)
    returns (list: Elem, tail: Elem, nmerges: nat, ghost out: seq<Elem>)
    requires 1 <= insize && s != [] && NoDup(s) && Within(s, nodes) && list0 == s[0]
    requires LinkedFrom(shape, s, 0)
    modifies nodes`next, (if shape == Singly then {} else nodes)`prev
    ensures out == Pass(s, insize, cmp) && out != []
    ensures Built(shape, out, list, tail)
    ensures Within(out, nodes)
    ensures forall j | 0 <= j < |out| - 1 :: out[j] != tail
    ensures forall j | 1 <= j < |out| :: out[j] != list
    ensures nmerges <= 1 <==> |s| <= 2 * insize
  {
    hide Pass, PassFrom, Merge, MergeAt;
    PassFromEnds(s, insize, cmp);
    var p: Elem?, l: Elem?, t: Elem? := list0, null, null;
    nmerges, out := 0, [];
    ghost var i: nat := 0;
    while p != null
      invariant i <= |s| && p == At(s, i)
      invariant LinkedFrom(shape, s, i) && Built(shape, out, l, t) && Emitted(out, s, i)
      invariant out == [] <==> i == 0
      invariant nmerges == 0 <==> i == 0
      invariant nmerges == 1 ==> i == Min(2 * insize, |s|)
      invariant nmerges >= 2 ==> 2 * insize < |s|
      invariant out + PassFrom(s, i, insize, cmp) == PassFrom(s, 0, insize, cmp)
      decreases |s| - i
    {
      nmerges := nmerges + 1;
      var q: Elem?, psize: nat;
      psize, q := CountRun(shape, p, insize, list0, s, i);
      PassFromStep(out, s, i, insize, cmp);
      l, t, q, out := MergeRuns(shape, p, q, psize, insize, l, t, list0, cmp, nodes, s, i, out);
      i := Min(i + 2 * insize, |s|);
      p := q;
    }
    list, tail := l, t;
  }

  lemma SortStart(s: seq<Elem>, cmp: Comparison<Elem>)
    ensures SortFrom(s, 1, cmp) == Sort(s, cmp)
    ensures s == [] ==> Sort(s, cmp) == []
  {
  }

  lemma SortFromStep(s: seq<Elem>, k: nat, cmp: Comparison<Elem>)
    requires 1 <= k
    ensures SortFrom(s, k, cmp) == if |s| <= 2 * k then Pass(s, k, cmp) else SortFrom(Pass(s, k, cmp), 2 * k, cmp)
    ensures |Pass(s, k, cmp)| == |s|
  {
    PassPermutes(s, k, cmp);
  }

  lemma ShapeForSort(list: Elem?, s: seq<Elem>)
    ensures IsLL(list, s) ==> NoDup(s) && list == At(s, 0) && LinkedFrom(Singly, s, 0)
    ensures IsDL(list, s) ==> NoDup(s) && list == At(s, 0) && LinkedFrom(Doubly, s, 0)
    ensures IsCDL(list, s) ==> NoDup(s) && list == At(s, 0) && LinkedFrom(Circular, s, 0)
    ensures s == [] ==> IsLL(null, s) && IsDL(null, s) && IsCDL(null, s)
  {
  }

  ghost predicate InnerBack(t: seq<Elem>)
    reads t`prev
  {
    forall j {:trigger t[j].prev} | 1 <= j < |t| :: t[j].prev == t[j - 1]
  }

  /** What tying the ends of the merged list makes of it. */
  lemma TiedShape(list: Elem, tail: Elem, t: seq<Elem>)
    requires t != [] && NoDup(t) && list == t[0] && tail == t[|t| - 1]
    requires forall j {:trigger t[j].next} | 0 <= j < |t| - 1 :: t[j].next == t[j + 1]
    ensures tail.next == null ==> IsLL(list, t)
    ensures (tail.next == null && list.prev == tail && InnerBack(t)) ==> IsDL(list, t)
    ensures (tail.next == list && list.prev == tail && InnerBack(t)) ==> IsCDL(list, t)
  {
  }

  /** LL_SORT2: sort a singly linked list in place. */
  method LLSort(head: Elem?, cmp: Comparison<Elem>, ghost nodes: set<Elem>, ghost s: seq<Elem>)
    returns (list: Elem?, ghost t: seq<Elem>)
    requires IsLL(head, s) && Within(s, nodes)
    modifies nodes`next
    ensures IsLL(list, t) && t == Sort(s, cmp) && ByPasses(s, t, cmp)
  {
    hide IsLL, IsDL, IsCDL, Sort, SortFrom, Pass, PassFrom, Merge, MergeAt, NoDup, Between, ByPasses;
    SortStart(s, cmp);
    BeforePasses(s, cmp);
    ShapeForSort(head, s);
    list, t := head, s;
    if list != null {
      var insize: nat, looping := 1, true;
      ghost var passes: nat := 0;
      while looping
        invariant Between(s, t, passes, insize, cmp) && (!looping ==> ByPasses(s, t, cmp))
        invariant 1 <= insize && t != [] && |t| == |s|
        invariant IsLL(list, t) && Within(t, nodes)
        invariant if looping then SortFrom(t, insize, cmp) == Sort(s, cmp) else t == Sort(s, cmp)
        decreases looping, |s| - insize
      {
        SortFromStep(t, insize, cmp);
        OnePassMore(s, t, passes, insize, cmp);
        ShapeForSort(list, t);
        var tail, nmerges;
        list, tail, nmerges, t := SortPass(Singly, list, insize, cmp, nodes, t);
        tail.next := null;
        TiedShape(list, tail, t);
        if nmerges <= 1 {
          looping := false;
        }
        insize, passes := insize * 2, passes + 1;
      }
    }
  }

  /** DL_SORT2: sort a doubly linked list whose head's prev is its last element. */
  method DLSort(head: Elem?, cmp: Comparison<Elem>, ghost nodes: set<Elem>, ghost s: seq<Elem>)
    returns (list: Elem?, ghost t: seq<Elem>)
    requires IsDL(head, s) && Within(s, nodes)
    modifies nodes`next, nodes`prev
    ensures IsDL(list, t) && t == Sort(s, cmp) && ByPasses(s, t, cmp)
  {
    hide IsLL, IsDL, IsCDL, Sort, SortFrom, Pass, PassFrom, Merge, MergeAt, NoDup, Between, ByPasses;
    SortStart(s, cmp);
    BeforePasses(s, cmp);
    ShapeForSort(head, s);
    list, t := head, s;
    if list != null {
      var insize: nat, looping := 1, true;
      ghost var passes: nat := 0;
      while looping
        invariant Between(s, t, passes, insize, cmp) && (!looping ==> ByPasses(s, t, cmp))
        invariant 1 <= insize && t != [] && |t| == |s|
        invariant IsDL(list, t) && Within(t, nodes)
        invariant if looping then SortFrom(t, insize, cmp) == Sort(s, cmp) else t == Sort(s, cmp)
        decreases looping, |s| - insize
      {
        SortFromStep(t, insize, cmp);
        OnePassMore(s, t, passes, insize, cmp);
        ShapeForSort(list, t);
        var tail, nmerges;
        list, tail, nmerges, t := SortPass(Doubly, list, insize, cmp, nodes, t);
        list.prev := tail;
        tail.next := null;
        TiedShape(list, tail, t);
        if nmerges <= 1 {
          looping := false;
        }
        insize, passes := insize * 2, passes + 1;
      }
    }
  }

  /** CDL_SORT2: sort a circular list. */
  method CDLSort(head: Elem?, cmp: Comparison<Elem>, ghost nodes: set<Elem>, ghost s: seq<Elem>)
    returns (list: Elem?, ghost t: seq<Elem>)
    requires IsCDL(head, s) && Within(s, nodes)
    modifies nodes`next, nodes`prev
    ensures IsCDL(list, t) && t == Sort(s, cmp) && ByPasses(s, t, cmp)
  {
    hide IsLL, IsDL, IsCDL, Sort, SortFrom, Pass, PassFrom, Merge, MergeAt, NoDup, Between, ByPasses;
    SortStart(s, cmp);
    BeforePasses(s, cmp);
    ShapeForSort(head, s);
    list, t := head, s;
    if list != null {
      var insize: nat, looping := 1, true;
      ghost var passes: nat := 0;
      while looping
        invariant Between(s, t, passes, insize, cmp) && (!looping ==> ByPasses(s, t, cmp))
        invariant 1 <= insize && t != [] && |t| == |s|
        invariant IsCDL(list, t) && Within(t, nodes)
        invariant if looping then SortFrom(t, insize, cmp) == Sort(s, cmp) else t == Sort(s, cmp)
        decreases looping, |s| - insize
      {
        SortFromStep(t, insize, cmp);
        OnePassMore(s, t, passes, insize, cmp);
        ShapeForSort(list, t);
        var tail, nmerges;
        list, tail, nmerges, t := SortPass(Circular, list, insize, cmp, nodes, t);
        list.prev := tail;
        tail.next := list;
        TiedShape(list, tail, t);
        if nmerges <= 1 {
          looping := false;
        }
        insize, passes := insize * 2, passes + 1;
      }
    }
  }
}
