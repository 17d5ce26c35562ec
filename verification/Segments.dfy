/**
  Stretches of nodes linked by next and prev, and how they are cut and joined.

  The link macros only ever touch the ends of such stretches.  The lemmas here relate
  that pointer surgery to plain sequences once and for all: the list macros of utlist.h
  and the application-order list of uthash.h both rest on them.
 */
module Segments {
  import opened Element
  import opened StableSort

  ghost function IndexOf(s: seq<Elem>, x: Elem): (i: nat)
    requires x in s
    ensures i < |s| && s[i] == x
  {
    if s[0] == x then 0 else 1 + IndexOf(s[1..], x)
  }

  ghost function InsertAt(s: seq<Elem>, i: nat, x: Elem): seq<Elem>
    requires i <= |s|
  {
    s[..i] + [x] + s[i..]
  }

  ghost function RemoveAt(s: seq<Elem>, i: nat): seq<Elem>
    requires i < |s|
  {
    s[..i] + s[i + 1..]
  }

  // --- segments: stretches of nodes whose inner links are in order ---

  ghost predicate Segment(s: seq<Elem>)
    reads s`next, s`prev
  {
    && NoDup(s)
    && (forall j {:trigger s[j].next} | 0 <= j < |s| - 1 :: s[j].next == s[j + 1])
    && (forall j {:trigger s[j].prev} | 1 <= j < |s| :: s[j].prev == s[j - 1])
  }

  ghost predicate Disjoint(a: seq<Elem>, b: seq<Elem>) {
    forall i, j | 0 <= i < |a| && 0 <= j < |b| :: a[i] != b[j]
  }

  ghost function Last(s: seq<Elem>): Elem
    requires s != []
  {
    s[|s| - 1]
  }

  /** The ends of a stretch occur nowhere else in it. */
  ghost predicate EndsOnce(s: seq<Elem>) {
    s != [] ==>
      && (forall j | 0 <= j < |s| - 1 :: s[j] != Last(s))
      && (forall j | 1 <= j < |s| :: s[j] != s[0])
  }

  /** Neither stretch contains an end of the other. */
  ghost predicate EndsApart(a: seq<Elem>, b: seq<Elem>) {
    && (a != [] ==> Last(a) !in b && a[0] !in b)
    && (b != [] ==> Last(b) !in a && b[0] !in a)
  }

  lemma SplitSegment(s: seq<Elem>, i: nat) returns (a: seq<Elem>, b: seq<Elem>)
    requires i <= |s| && Segment(s)
    ensures s == a + b && |a| == i
    ensures Segment(a) && Segment(b) && Disjoint(a, b)
    ensures EndsOnce(a) && EndsOnce(b) && EndsApart(a, b)
    ensures a != [] && b != [] ==> Last(a).next == b[0] && b[0].prev == Last(a)
    ensures a != [] ==> s[0] == a[0] && s[i - 1] == Last(a)
    ensures b != [] ==> s[i] == b[0] && Last(s) == Last(b)
  {
    a, b := s[..i], s[i..];
  }

  /** a, the single element at position i, and b. */
  lemma SplitAround(s: seq<Elem>, i: nat) returns (a: seq<Elem>, b: seq<Elem>)
    requires i < |s| && Segment(s)
    ensures s == a + [s[i]] + b && |a| == i
    ensures Segment(a) && Segment(b) && Disjoint(a, b) && s[i] !in a && s[i] !in b
    ensures EndsOnce(a) && EndsOnce(b) && EndsApart(a, b)
    ensures a != [] ==> s[0] == a[0] && Last(a).next == s[i] && s[i].prev == Last(a)
    ensures b != [] ==> Last(s) == Last(b) && s[i].next == b[0] && b[0].prev == s[i]
    ensures a == [] ==> s[0] == s[i]
    ensures b == [] ==> Last(s) == s[i]
    ensures RemoveAt(s, i) == a + b
  {
    a, b := s[..i], s[i + 1..];
  }

  lemma Apart(x: Elem, a: seq<Elem>, b: seq<Elem>)
    requires x !in a + b
    ensures x !in a && x !in b
  {
    assert forall j | 0 <= j < |a| :: (a + b)[j] == a[j];
    assert forall j | 0 <= j < |b| :: (a + b)[|a| + j] == b[j];
  }

  lemma InsertedAtEnds(s: seq<Elem>, x: Elem)
    ensures InsertAt(s, |s|, x) == s + [x] && InsertAt(s, 0, x) == [x] + s
  {
  }

  lemma AllApart(a: seq<Elem>, b: seq<Elem>)
    requires NoDup(a) && NoDup(b) && forall x | x in b :: x !in a
    ensures Disjoint(a, b) && EndsOnce(a) && EndsOnce(b) && EndsApart(a, b)
  {
    forall i, j | 0 <= i < |a| && 0 <= j < |b|
      ensures a[i] != b[j]
    {
      assert b[j] in b && b[j] !in a;
    }
  }

  lemma InsertedBetween(s: seq<Elem>, i: nat, x: Elem, a: seq<Elem>, b: seq<Elem>)
    requires s == a + b && |a| == i
    ensures InsertAt(s, i, x) == a + [x] + b
  {
  }

  lemma JoinSegments(a: seq<Elem>, b: seq<Elem>)
    requires Segment(a) && Segment(b) && Disjoint(a, b)
    requires a != [] && b != [] ==> Last(a).next == b[0] && b[0].prev == Last(a)
    ensures Segment(a + b)
    ensures a != [] ==> (a + b)[0] == a[0]
    ensures b != [] ==> Last(a + b) == Last(b)
    ensures a == [] ==> a + b == b
    ensures b == [] ==> a + b == a
  {
  }

  lemma JoinAround(a: seq<Elem>, x: Elem, b: seq<Elem>)
    requires Segment(a) && Segment(b) && Disjoint(a, b) && x !in a && x !in b
    requires a != [] ==> Last(a).next == x && x.prev == Last(a)
    requires b != [] ==> x.next == b[0] && b[0].prev == x
    ensures Segment(a + [x] + b)
    ensures (a + [x] + b)[0] == if a == [] then x else a[0]
    ensures Last(a + [x] + b) == if b == [] then x else Last(b)
  {
    JoinSegments(a, [x]);
    JoinSegments(a + [x], b);
  }

  lemma SameIndex(s: seq<Elem>, x: Elem, i: nat)
    requires NoDup(s) && i < |s| && s[i] == x
    ensures IndexOf(s, x) == i
  {
  }
}
