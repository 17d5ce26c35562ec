/**
  The doubly linked lists of utlist.h: a head whose prev field is the last element.

  A DList is the head variable that the DL_ macros update, with the plain sequence it
  stands for.  Every macro is a method that says which sequence results.
 */
module DList {
  import opened Element
  import opened StableSort
  import opened ListSort
  import opened Segments

  /** How many leading elements compare below like. */
  ghost function LowerBound(s: seq<Elem>, like: Elem, cmp: Comparison<Elem>): (n: nat)
    ensures n <= |s|
    ensures forall j | 0 <= j < n :: cmp(s[j], like) < 0
    ensures n < |s| ==> cmp(s[n], like) >= 0
  {
    if s == [] || cmp(s[0], like) >= 0 then 0 else 1 + LowerBound(s[1..], like, cmp)
  }

  lemma {:induction false} LowerBoundIs(s: seq<Elem>, like: Elem, cmp: Comparison<Elem>, n: nat)
    requires n <= |s|
    requires forall j | 0 <= j < n :: cmp(s[j], like) < 0
    requires n < |s| ==> cmp(s[n], like) >= 0
    ensures LowerBound(s, like, cmp) == n
  {
    if n > 0 {
      LowerBoundIs(s[1..], like, cmp, n - 1);
    }
  }

  /** A DL list is a segment whose last next is NULL and whose first prev is the last element. */
  lemma DLIsSegment(head: Elem?, s: seq<Elem>)
    ensures IsDL(head, s) <==>
              && head == At(s, 0) && Segment(s)
              && (s != [] ==> Last(s).next == null && s[0].prev == Last(s))
  {
  }

  class DList {
    var head: Elem?
    ghost var elems: seq<Elem>

    ghost predicate Valid()
      reads this, elems
    {
      IsDL(head, elems)
    }

    constructor ()
      ensures Valid() && elems == []
    {
      head, elems := null, [];
    }

    /** DL_PREPEND2 */
    method Prepend(add: Elem)
      requires Valid() && add !in elems
      modifies this, add`next, add`prev, elems`prev
      ensures Valid() && elems == [add] + old(elems)
    {
      add.next := head;
      if head != null {
        add.prev := head.prev;
        head.prev := add;
      } else {
        add.prev := add;
      }
      head := add;
      elems := [add] + elems;
    }

    /** DL_APPEND2 */
    method Append(add: Elem)
      requires Valid() && add !in elems
      modifies this, add`next, add`prev, elems`next, elems`prev
      ensures Valid() && elems == old(elems) + [add]
    {
      if head != null {
        add.prev := head.prev;
        head.prev.next := add;
        head.prev := add;
        add.next := null;
      } else {
        head := add;
        head.prev := head;
        head.next := null;
      }
      elems := elems + [add];
    }

    /** DL_DELETE2 */
    method Delete(del: Elem)
      requires Valid() && del in elems
      modifies this, elems`next, elems`prev
      ensures Valid() && elems == RemoveAt(old(elems), IndexOf(old(elems), del))
    {
      hide IsDL, NoDup, Disjoint, IndexOf, RemoveAt;
      ghost var i := IndexOf(elems, del);
      DLIsSegment(head, elems);
      ghost var a, b := SplitAround(elems, i);
      if del.prev == del {
        head := null;
      } else if del == head {
        del.next.prev := del.prev;
        head := del.next;
      } else {
        del.prev.next := del.next;
        if del.next != null {
          del.next.prev := del.prev;
        } else {
          head.prev := del.prev;
        }
      }
      elems := RemoveAt(elems, i);
      assert Segment(a) && Segment(b);
      JoinSegments(a, b);
      DLIsSegment(head, elems);
    }

    /** DL_CONCAT2: other's elements now belong to this list; other's own head is left as it was. */
    method Concat(other: DList)
      requires Valid() && other.Valid() && other != this
      requires forall x | x in other.elems :: x !in elems
      modifies this, elems`next, elems`prev, other.elems`prev
      ensures Valid() && elems == old(elems) + other.elems
    {
      hide IsDL, NoDup, Disjoint;
      ghost var a, b := elems, other.elems;
      DLIsSegment(head, a);
      DLIsSegment(other.head, b);
      AllApart(a, b);
      if other.head != null {
        if head != null {
          var tmp := other.head.prev;
          other.head.prev := head.prev;
          head.prev.next := other.head;
          head.prev := tmp;
        } else {
          head := other.head;
        }
      }
      assert Segment(a) && Segment(b);
      JoinSegments(a, b);
      elems := elems + other.elems;
      DLIsSegment(head, elems);
    }

    /** DL_REPLACE_ELEM2 */
    method ReplaceElem(el: Elem, add: Elem)
      requires Valid() && el in elems && add !in elems
      modifies this, add`next, add`prev, elems`next, elems`prev
      ensures Valid() && elems == old(elems)[IndexOf(old(elems), el) := add]
    {
      hide IsDL, NoDup, Disjoint, IndexOf, RemoveAt;
      ghost var i := IndexOf(elems, el);
      DLIsSegment(head, elems);
      ghost var a, b := SplitAround(elems, i);
      Apart(add, a + [el], b);
      Apart(add, a, [el]);
      if head == el {
        head := add;
        add.next := el.next;
        if el.next == null {
          add.prev := add;
        } else {
          add.prev := el.prev;
          add.next.prev := add;
        }
      } else {
        add.next := el.next;
        add.prev := el.prev;
        add.prev.next := add;
        if el.next == null {
          head.prev := add;
        } else {
          add.next.prev := add;
        }
      }
      assert elems[i := add] == a + [add] + b;
      elems := elems[i := add];
      assert Segment(a) && Segment(b);
      JoinAround(a, add, b);
      DLIsSegment(head, elems);
    }

    /** DL_PREPEND_ELEM2: before el, or at the end when el is NULL. */
    method PrependElem(el: Elem?, add: Elem)
      requires Valid() && add !in elems && (el != null ==> el in elems)
      modifies this, add`next, add`prev, elems`next, elems`prev
      ensures Valid()
      ensures elems == InsertAt(old(elems), if el == null then |old(elems)| else IndexOf(old(elems), el), add)
    {
      hide IsDL, NoDup, Disjoint, IndexOf, InsertAt;
      if el != null {
        ghost var i := IndexOf(elems, el);
        DLIsSegment(head, elems);
        ghost var a, b := SplitSegment(elems, i);
        InsertedBetween(elems, i, add, a, b);
        Apart(add, a, b);
        add.next := el;
        add.prev := el.prev;
        el.prev := add;
        if head == el {
          head := add;
        } else {
          add.prev.next := add;
        }
        elems := InsertAt(elems, i, add);
        assert Segment(a) && Segment(b);
        JoinAround(a, add, b);
        DLIsSegment(head, elems);
      } else {
        InsertedAtEnds(elems, add);
        Append(add);
      }
    }

    /** DL_APPEND_ELEM2: behind el, or at the front when el is NULL. */
    method AppendElem(el: Elem?, add: Elem)
      requires Valid() && add !in elems && (el != null ==> el in elems)
      modifies this, add`next, add`prev, elems`next, elems`prev
      ensures Valid()
      ensures elems == InsertAt(old(elems), if el == null then 0 else IndexOf(old(elems), el) + 1, add)
    {
      hide IsDL, NoDup, Disjoint, IndexOf, InsertAt;
      if el != null {
        ghost var i := IndexOf(elems, el);
        DLIsSegment(head, elems);
        ghost var a, b := SplitSegment(elems, i + 1);
        InsertedBetween(elems, i + 1, add, a, b);
        Apart(add, a, b);
        add.next := el.next;
        add.prev := el;
        el.next := add;
        if add.next != null {
          add.next.prev := add;
        } else {
          head.prev := add;
        }
        elems := InsertAt(elems, i + 1, add);
        assert Segment(a) && Segment(b);
        JoinAround(a, add, b);
        DLIsSegment(head, elems);
      } else {
        InsertedAtEnds(elems, add);
        Prepend(add);
      }
    }

    /** DL_LOWER_BOUND2: the last element before the first that does not compare below like. */
    method LowerBoundElem(like: Elem, cmp: Comparison<Elem>) returns (elt: Elem?)
      requires Valid()
      ensures elt == if LowerBound(elems, like, cmp) == 0 then null else elems[LowerBound(elems, like, cmp) - 1]
    {
      if head == null || cmp(head, like) >= 0 {
        elt := null;
        LowerBoundIs(elems, like, cmp, 0);
      } else {
        elt := head;
        ghost var i := 0;
        while elt.next != null
          invariant i < |elems| && elt == elems[i]
          invariant forall j | 0 <= j <= i :: cmp(elems[j], like) < 0
          decreases |elems| - i
        {
          if cmp(elt.next, like) >= 0 {
            break;
          }
          elt := elt.next;
          i := i + 1;
        }
        LowerBoundIs(elems, like, cmp, i + 1);
      }
    }

    /** DL_INSERT_INORDER2 */
    method InsertInOrder(add: Elem, cmp: Comparison<Elem>)
      requires Valid() && add !in elems
      modifies this, add`next, add`prev, elems`next, elems`prev
      ensures Valid()
      ensures elems == InsertAt(old(elems), LowerBound(old(elems), add, cmp), add)
    {
      if head != null {
        var tmp := LowerBoundElem(add, cmp);
        if tmp != null {
          SameIndex(elems, tmp, LowerBound(elems, add, cmp) - 1);
        }
        AppendElem(tmp, add);
      } else {
        head := add;
        head.prev := head;
        head.next := null;
        elems := [add];
      }
    }
  }

  // --- in-order insertion ---

  /** The two directions of a comparison agree on the sign, as C comparison functions must. */
  ghost predicate Consistent(s: seq<Elem>, x: Elem, cmp: Comparison<Elem>) {
    forall y | y in s :: cmp(y, x) >= 0 <==> cmp(x, y) <= 0
  }

  lemma AboveTheBound(s: seq<Elem>, x: Elem, cmp: Comparison<Elem>, j: nat)
    requires TotalPreorder([x] + s, cmp) && Consistent(s, x, cmp) && Sorted(s, cmp)
    requires LowerBound(s, x, cmp) <= j < |s|
    ensures cmp(x, s[j]) <= 0
  {
    hide LowerBound;
    var n := LowerBound(s, x, cmp);
    assert s[n] in s && s[j] in s && x in [x];
    InConcat([x], s, s[n]);
    InConcat([x], s, s[j]);
    InConcat([x], s, x);
    assert j == n || cmp(s[n], s[j]) <= 0;
  }

  /** Inserting in order into a sorted list gives the stable sort of the new element and the list. */
  lemma InsertInOrderSorts(s: seq<Elem>, x: Elem, cmp: Comparison<Elem>)
    requires TotalPreorder([x] + s, cmp) && Consistent(s, x, cmp)
    requires Sorted(s, cmp)
    ensures InsertAt(s, LowerBound(s, x, cmp), x) == Sort([x] + s, cmp)
    ensures Sorted(InsertAt(s, LowerBound(s, x, cmp), x), cmp)
  {
    hide Sort, Sorted, TotalPreorder, LowerBound;
    var n := LowerBound(s, x, cmp);
    var a, b := s[..n], s[n..];
    assert a + b == s;
    forall y | y in a
      ensures cmp(y, x) <= 0 && !(cmp(x, y) <= 0)
    {
      assert y in s;
    }
    forall y | y in b
      ensures cmp(x, y) <= 0
    {
      var j :| 0 <= j < |b| && b[j] == y;
      AboveTheBound(s, x, cmp, n + j);
    }
    InsertFirst(a, x, b, cmp);
    SortIsStable([x] + s, cmp);
  }

  // --- runs ---

  datatype ListOp =
    | PrependOp(add: Elem)
    | AppendOp(add: Elem)
    | DeleteOp(del: Elem)
    | ReplaceOp(el: Elem, add: Elem)
    | PrependElemOp(at: Elem?, add: Elem)
    | AppendElemOp(at: Elem?, add: Elem)
    | InsertInOrderOp(add: Elem)
    | ConcatOp(more: seq<Elem>)

  /** What the macros demand: a new element is not yet in the list, a named one is. */
  ghost predicate Legal(s: seq<Elem>, op: ListOp) {
    match op
    case PrependOp(add) => add !in s
    case AppendOp(add) => add !in s
    case DeleteOp(del) => del in s
    case ReplaceOp(el, add) => el in s && add !in s
    case PrependElemOp(at, add) => add !in s && (at != null ==> at in s)
    case AppendElemOp(at, add) => add !in s && (at != null ==> at in s)
    case InsertInOrderOp(add) => add !in s
    case ConcatOp(more) => NoDup(more) && forall x | x in more :: x !in s
  }

  /** The same operation on a plain sequence. */
  ghost function Apply(s: seq<Elem>, op: ListOp, cmp: Comparison<Elem>): seq<Elem>
    requires Legal(s, op)
  {
    match op
    case PrependOp(add) => [add] + s
    case AppendOp(add) => s + [add]
    case DeleteOp(del) => RemoveAt(s, IndexOf(s, del))
    case ReplaceOp(el, add) => s[IndexOf(s, el) := add]
    case PrependElemOp(at, add) => InsertAt(s, if at == null then |s| else IndexOf(s, at), add)
    case AppendElemOp(at, add) => InsertAt(s, if at == null then 0 else IndexOf(s, at) + 1, add)
    case InsertInOrderOp(add) => InsertAt(s, LowerBound(s, add, cmp), add)
    case ConcatOp(more) => s + more
  }

  ghost predicate LegalRun(s: seq<Elem>, ops: seq<ListOp>, cmp: Comparison<Elem>)
    decreases |ops|
  {
    ops == [] || (Legal(s, ops[0]) && LegalRun(Apply(s, ops[0], cmp), ops[1..], cmp))
  }

  ghost function ApplyAll(s: seq<Elem>, ops: seq<ListOp>, cmp: Comparison<Elem>): seq<Elem>
    requires LegalRun(s, ops, cmp)
    decreases |ops|
  {
    if ops == [] then s else ApplyAll(Apply(s, ops[0], cmp), ops[1..], cmp)
  }

  /** The nodes an operation may link in. */
  ghost predicate Uses(op: ListOp, nodes: set<Elem>) {
    match op
    case DeleteOp(_) => true
    case ConcatOp(more) => Within(more, nodes)
    case _ => op.add in nodes
  }

  /** A second list, built by appending. */
  method Build(more: seq<Elem>) returns (other: DList)
    requires NoDup(more)
    modifies more`next, more`prev
    ensures fresh(other) && other.Valid() && other.elems == more
  {
    hide IsDL;
    other := new DList();
    for k := 0 to |more|
      invariant other.Valid() && other.elems == more[..k]
    {
      assert more[k] !in more[..k];
      other.Append(more[k]);
      assert more[..k + 1] == more[..k] + [more[k]];
    }
    assert more[..|more|] == more;
  }

  lemma NotInOther(s: seq<Elem>, more: seq<Elem>)
    requires forall x | x in more :: x !in s
    ensures forall k | 0 <= k < |s| :: s[k] !in more
    ensures forall k | 0 <= k < |more| :: more[k] !in s
  {
  }

  method ConcatNew(list: DList, more: seq<Elem>, ghost nodes: set<Elem>)
    requires list.Valid() && NoDup(more) && forall x | x in more :: x !in list.elems
    requires Within(list.elems, nodes) && Within(more, nodes)
    modifies list, nodes`next, nodes`prev
    ensures list.Valid() && list.elems == old(list.elems) + more
  {
    hide IsDL, NoDup;
    NotInOther(list.elems, more);
    var other := Build(more);
    list.Concat(other);
  }

  method Perform(list: DList, op: ListOp, cmp: Comparison<Elem>, ghost nodes: set<Elem>)
    requires list.Valid() && Legal(list.elems, op)
    requires Within(list.elems, nodes) && Uses(op, nodes)
    modifies list, nodes`next, nodes`prev
    ensures list.Valid() && list.elems == Apply(old(list.elems), op, cmp)
    ensures Within(list.elems, nodes)
  {
    match op
    case PrependOp(add) => list.Prepend(add);
    case AppendOp(add) => list.Append(add);
    case DeleteOp(del) => list.Delete(del);
    case ReplaceOp(el, add) => list.ReplaceElem(el, add);
    case PrependElemOp(at, add) => list.PrependElem(at, add);
    case AppendElemOp(at, add) => list.AppendElem(at, add);
    case InsertInOrderOp(add) => list.InsertInOrder(add, cmp);
    case ConcatOp(more) => ConcatNew(list, more, nodes);
  }

  /** Any run of operations does to the list what the same run does to the plain sequence. */
  method Run(list: DList, ops: seq<ListOp>, cmp: Comparison<Elem>, ghost nodes: set<Elem>)
    requires list.Valid() && LegalRun(list.elems, ops, cmp)
    requires Within(list.elems, nodes) && forall op | op in ops :: Uses(op, nodes)
    modifies list, nodes`next, nodes`prev
    ensures list.Valid() && list.elems == ApplyAll(old(list.elems), ops, cmp)
  {
    for i := 0 to |ops|
      invariant list.Valid() && Within(list.elems, nodes)
      invariant LegalRun(list.elems, ops[i..], cmp)
      invariant ApplyAll(list.elems, ops[i..], cmp) == ApplyAll(old(list.elems), ops, cmp)
    {
      assert ops[i..][0] == ops[i] && ops[i..][1..] == ops[i + 1..];
      Perform(list, ops[i], cmp, nodes);
    }
  }
}
