/**
  The circular lists of list.h: a sentinel and its entries in one ring.

  An element stands for the structure that carries the list_head, and for the sentinel.
  A ring is the sequence of its nodes from any one of them on; with the sentinel in
  front, the rest is what the list holds.  The two poison addresses are null.
 */
module LinuxList {
  import opened Element
  import opened Segments
  import opened StableSort

  /** next leads once around through all nodes, and prev back. */
  ghost predicate Ring(r: seq<Elem>)
    reads r`next, r`prev
  {
    r != [] && Segment(r) && Last(r).next == r[0] && r[0].prev == Last(r)
  }

  /** The list with this sentinel holds the entries s. */
  ghost predicate List(head: Elem, s: seq<Elem>)
    reads {head}`next, {head}`prev, s`next, s`prev
  {
    Ring([head] + s)
  }

  // --- where a ring is cut does not matter ---

  /** The two halves of a ring. */
  lemma RingSplit(a: seq<Elem>, b: seq<Elem>)
    requires Ring(a + b) && a != [] && b != []
    ensures Segment(a) && Segment(b) && Disjoint(a, b)
    ensures EndsOnce(a) && EndsOnce(b) && EndsApart(a, b)
    ensures Last(a).next == b[0] && b[0].prev == Last(a)
    ensures Last(b).next == a[0] && a[0].prev == Last(b)
  {
    hide NoDup, Disjoint, Segment;
    var a', b' := SplitSegment(a + b, |a|);
    assert a' == a && b' == b by {
      assert (a + b)[..|a|] == a && (a' + b')[..|a'|] == a';
      assert (a + b)[|a|..] == b && (a' + b')[|a'|..] == b';
    }
    assert (a + b)[0] == a[0] && Last(a + b) == Last(b);
  }

  lemma RingJoin(a: seq<Elem>, b: seq<Elem>)
    requires a != [] && b != [] && Segment(a) && Segment(b) && Disjoint(a, b)
    requires Last(a).next == b[0] && b[0].prev == Last(a)
    requires Last(b).next == a[0] && a[0].prev == Last(b)
    ensures Ring(a + b)
  {
    hide NoDup, Disjoint, Segment;
    JoinSegments(a, b);
  }

  /** A ring can be read from any of its nodes on. */
  lemma Turn(a: seq<Elem>, b: seq<Elem>)
    requires Ring(a + b)
    ensures Ring(b + a)
  {
    hide Ring, Disjoint, Segment;
    if a == [] || b == [] {
      assert a + b == b + a;
    } else {
      RingSplit(a, b);
      DisjointTurn(a, b);
      RingJoin(b, a);
    }
  }

  lemma DisjointTurn(a: seq<Elem>, b: seq<Elem>)
    requires Disjoint(a, b)
    ensures Disjoint(b, a)
  {
  }

  /** The links of a ring's nodes are determined by the sequence. */
  lemma RingEnds(r: seq<Elem>)
    requires Ring(r)
    ensures Last(r).next == r[0] && r[0].prev == Last(r)
    ensures r[0].next == if |r| == 1 then r[0] else r[1]
    ensures r[0].next == r[0] <==> |r| == 1
    ensures EndsOnce(r)
  {
  }

  lemma RingOfOne(x: Elem)
    ensures Ring([x]) <==> x.next == x && x.prev == x
  {
  }

  // --- the operations ---

  /** INIT_LIST_HEAD */
  method InitListHead(list: Elem)
    modifies list`next, list`prev
    ensures Ring([list])
  {
    list.next := list;
    list.prev := list;
  }

  /** __list_add, between the last and the first node of r */
  method InsertBetween(add: Elem, prev: Elem, next: Elem, ghost r: seq<Elem>)
    requires Ring(r) && prev == Last(r) && next == r[0] && add !in r
    modifies add`next, add`prev, prev`next, next`prev
    ensures Ring(r + [add])
  {
    hide NoDup, Disjoint;
    RingEnds(r);
    next.prev := add;
    add.next := next;
    add.prev := prev;
    prev.next := add;
    assert Segment(r);
    OneApart(r, add);
    RingJoin(r, [add]);
  }

  lemma OneApart(r: seq<Elem>, x: Elem)
    requires x !in r
    ensures Disjoint(r, [x]) && Segment([x])
  {
  }

  /** list_add */
  method ListAdd(add: Elem, head: Elem, ghost s: seq<Elem>)
    requires List(head, s) && add !in [head] + s
    modifies add`next, add`prev, head`next, head.next`prev
    ensures List(head, [add] + s)
  {
    hide Ring;
    RingEnds([head] + s);
    Turn([head], s);
    assert (s + [head])[0] == if s == [] then head else s[0];
    InsertBetween(add, head, head.next, s + [head]);
    assert s + [head] + [add] == s + [head, add];
    Turn(s, [head, add]);
    assert [head, add] + s == [head] + ([add] + s);
  }

  /** list_add_tail */
  method ListAddTail(add: Elem, head: Elem, ghost s: seq<Elem>)
    requires List(head, s) && add !in [head] + s
    modifies add`next, add`prev, head`prev, head.prev`next
    ensures List(head, s + [add])
  {
    hide Ring;
    RingEnds([head] + s);
    InsertBetween(add, head.prev, head, [head] + s);
    assert [head] + s + [add] == [head] + (s + [add]);
  }

  /** __list_del: prev and next, the last and the first node of r, are the neighbours of the node that goes */
  method Unlink(prev: Elem, next: Elem, ghost r: seq<Elem>)
    requires r != [] && Segment(r) && prev == Last(r) && next == r[0]
    modifies prev`next, next`prev
    ensures Ring(r)
  {
    hide NoDup;
    OnceInSegment(r);
    next.prev := prev;
    prev.next := next;
  }

  lemma OnceInSegment(r: seq<Elem>)
    requires Segment(r)
    ensures EndsOnce(r)
  {
  }

  lemma EntryFirst(head: Elem, a: seq<Elem>, x: Elem, b: seq<Elem>)
    ensures List(head, a + [x] + b) <==> Ring([x] + (b + [head] + a))
  {
    hide Ring;
    var front, back := [head] + a, [x] + b;
    assert [head] + (a + [x] + b) == front + back;
    assert [x] + (b + [head] + a) == back + front;
    if Ring(front + back) {
      Turn(front, back);
    }
    if Ring(back + front) {
      Turn(back, front);
    }
  }

  /** The neighbours of the entry between a and b. */
  ghost function Before(head: Elem, a: seq<Elem>): Elem {
    if a == [] then head else Last(a)
  }

  ghost function After(head: Elem, b: seq<Elem>): Elem {
    if b == [] then head else b[0]
  }

  lemma Neighbours(head: Elem, a: seq<Elem>, x: Elem, b: seq<Elem>)
    requires List(head, a + [x] + b)
    ensures x.prev == Before(head, a) && x.next == After(head, b)
  {
    hide Ring;
    EntryFirst(head, a, x, b);
    RingSplit([x], b + [head] + a);
  }

  lemma WithoutEntry(head: Elem, a: seq<Elem>, b: seq<Elem>)
    requires Ring(b + [head] + a)
    ensures List(head, a + b)
  {
    hide Ring;
    assert b + [head] + a == b + ([head] + a);
    Turn(b, [head] + a);
    assert [head] + a + b == [head] + (a + b);
  }

  /** __list_del_entry; r are the other nodes of the ring */
  method DelEntry(entry: Elem, ghost r: seq<Elem>)
    requires Ring([entry] + r) && r != []
    modifies entry.prev`next, entry.next`prev
    ensures Ring(r) && entry !in r
  {
    hide NoDup, Ring;
    RingSplit([entry], r);
    assert Last(r) in r;
    Unlink(entry.prev, entry.next, r);
  }

  /** list_del */
  method ListDel(entry: Elem, ghost head: Elem, ghost a: seq<Elem>, ghost b: seq<Elem>)
    requires List(head, a + [entry] + b)
    modifies entry`next, entry`prev, {Before(head, a)}`next, {After(head, b)}`prev
    ensures List(head, a + b) && entry.next == null && entry.prev == null
  {
    hide Ring;
    EntryFirst(head, a, entry, b);
    Neighbours(head, a, entry, b);
    DelEntry(entry, b + [head] + a);
    WithoutEntry(head, a, b);
    Outside(entry, head, a, b);
    entry.next := null;
    entry.prev := null;
  }

  lemma Outside(x: Elem, head: Elem, a: seq<Elem>, b: seq<Elem>)
    requires x !in b + [head] + a
    ensures x != head && x !in a + b
  {
    assert (b + [head] + a)[|b|] == head;
    assert forall k | 0 <= k < |a| :: (b + [head] + a)[|b| + 1 + k] == a[k];
    assert forall k | 0 <= k < |b| :: (b + [head] + a)[k] == b[k];
  }

  /** list_del_init */
  method ListDelInit(entry: Elem, ghost head: Elem, ghost a: seq<Elem>, ghost b: seq<Elem>)
    requires List(head, a + [entry] + b)
    modifies entry`next, entry`prev, {Before(head, a)}`next, {After(head, b)}`prev
    ensures List(head, a + b) && List(entry, [])
  {
    hide Ring;
    EntryFirst(head, a, entry, b);
    Neighbours(head, a, entry, b);
    DelEntry(entry, b + [head] + a);
    WithoutEntry(head, a, b);
    Outside(entry, head, a, b);
    InitListHead(entry);
    assert [entry] + [] == [entry];
  }

  /** list_replace, in the ring read from the replaced node on */
  method ReplaceNode(el: Elem, add: Elem, ghost r: seq<Elem>)
    requires Ring([el] + r) && add !in [el] + r
    modifies add`next, add`prev, el.next`prev, el.prev`next
    ensures Ring([add] + r)
  {
    hide NoDup;
    if r == [] {
      assert [el] + r == [el] && [add] + r == [add];
      RingOfOne(el);
    } else {
      RingSplit([el], r);
      OneApart(r, add);
    }
    add.next := el.next;
    add.next.prev := add;
    add.prev := el.prev;
    add.prev.next := add;
    if r != [] {
      assert Segment(r);
      DisjointTurn(r, [add]);
      RingJoin([add], r);
    } else {
      RingOfOne(add);
    }
  }

  /** list_replace */
  method ListReplace(el: Elem, add: Elem, ghost head: Elem, ghost a: seq<Elem>, ghost b: seq<Elem>)
    requires List(head, a + [el] + b) && add !in [head] + (a + [el] + b)
    modifies add`next, add`prev, {Before(head, a)}`next, {After(head, b)}`prev
    ensures List(head, a + [add] + b)
  {
    hide Ring;
    EntryFirst(head, a, el, b);
    Neighbours(head, a, el, b);
    var front, back := [head] + a, [el] + b;
    assert [head] + (a + [el] + b) == front + back;
    OutsideTurned(add, front, back);
    assert [el] + (b + [head] + a) == back + front;
    ReplaceNode(el, add, b + [head] + a);
    EntryFirst(head, a, add, b);
  }

  lemma OutsideTurned(x: Elem, a: seq<Elem>, b: seq<Elem>)
    requires x !in a + b
    ensures x !in b + a
  {
    Apart(x, a, b);
  }

  /** Two lists without a common node. */
  ghost predicate Separate(head: Elem, s: seq<Elem>, head': Elem, s': seq<Elem>) {
    forall x | x in [head] + s :: x !in [head'] + s'
  }

  lemma AboutEntry(from: Elem, a: seq<Elem>, x: Elem, b: seq<Elem>, head: Elem, s: seq<Elem>)
    requires Separate(from, a + [x] + b, head, s)
    ensures Separate(from, a + b, head, s)
    ensures x !in [head] + s && Before(from, a) !in [head] + s && After(from, b) !in [head] + s
  {
    var r := [from] + (a + [x] + b);
    assert r[0] == from && r[|a| + 1] == x;
    if a != [] {
      assert r[|a|] == Last(a);
    }
    if b != [] {
      assert r[|a| + 2] == b[0];
    }
    forall y | y in [from] + (a + b) ensures y in r {
    }
  }

  lemma HeadLinks(head: Elem, s: seq<Elem>)
    requires List(head, s)
    ensures head.next == After(head, s) && head.prev == Before(head, s)
  {
  }

  lemma AboutHead(from: Elem, t: seq<Elem>, head: Elem, s: seq<Elem>)
    requires Separate(from, t, head, s)
    ensures head !in [from] + t && After(head, s) !in [from] + t && Before(head, s) !in [from] + t
  {
    var r := [head] + s;
    assert r[0] == head;
    if s != [] {
      assert r[1] == s[0] && r[|s|] == Last(s);
    }
  }

  lemma Members(x: Elem, head: Elem, s: seq<Elem>)
    ensures x in [head] + s <==> x == head || x in s
  {
  }

  /** list_move: from the list it is on, which may be this one, to the front of the list */
  method ListMove(list: Elem, head: Elem,
                  ghost from: Elem, ghost a: seq<Elem>, ghost b: seq<Elem>, ghost s: seq<Elem>)
    requires List(from, a + [list] + b)
    requires if from == head then s == a + b else List(head, s) && Separate(from, a + [list] + b, head, s)
    modifies list`next, list`prev, {Before(from, a)}`next, {After(from, b)}`prev, head`next, {After(head, s)}`prev
    ensures List(head, [list] + s)
    ensures from != head ==> List(from, a + b)
  {
    hide Ring, Separate;
    TakeOut(list, from, a, b, head, s);
    HeadLinks(head, s);
    if from != head {
      AboutHead(from, a + b, head, s);
    }
    Members(list, head, s);
    ListAdd(list, head, s);
  }

  /** list_move_tail: to the end of the list */
  method ListMoveTail(list: Elem, head: Elem,
                      ghost from: Elem, ghost a: seq<Elem>, ghost b: seq<Elem>, ghost s: seq<Elem>)
    requires List(from, a + [list] + b)
    requires if from == head then s == a + b else List(head, s) && Separate(from, a + [list] + b, head, s)
    modifies list`next, list`prev, {Before(from, a)}`next, {After(from, b)}`prev, head`prev, {Before(head, s)}`next
    ensures List(head, s + [list])
    ensures from != head ==> List(from, a + b)
  {
    hide Ring, Separate;
    TakeOut(list, from, a, b, head, s);
    HeadLinks(head, s);
    if from != head {
      AboutHead(from, a + b, head, s);
    }
    Members(list, head, s);
    ListAddTail(list, head, s);
  }

  /** The first half of a move. */
  method TakeOut(list: Elem, ghost from: Elem, ghost a: seq<Elem>, ghost b: seq<Elem>,
                 ghost head: Elem, ghost s: seq<Elem>)
    requires List(from, a + [list] + b)
    requires if from == head then s == a + b else List(head, s) && Separate(from, a + [list] + b, head, s)
    modifies {Before(from, a)}`next, {After(from, b)}`prev
    ensures List(from, a + b) && List(head, s) && list != from && list !in a + b && list !in [head] + s
    ensures from != head ==> Separate(from, a + b, head, s)
  {
    hide Ring, Separate;
    EntryFirst(from, a, list, b);
    Neighbours(from, a, list, b);
    if from != head {
      AboutEntry(from, a, list, b, head, s);
    }
    DelEntry(list, b + [from] + a);
    WithoutEntry(from, a, b);
    Outside(list, from, a, b);
  }

  /** list_rotate_left */
  method ListRotateLeft(head: Elem, ghost s: seq<Elem>)
    requires List(head, s)
    modifies head`next, head`prev, s`next, s`prev
    ensures List(head, if s == [] then [] else s[1..] + [s[0]])
  {
    hide Ring;
    RingEnds([head] + s);
    if head.next != head {
      var first := head.next;
      assert s == [] + [first] + s[1..];
      assert [] + s[1..] == s[1..];
      ListMoveTail(first, head, head, [], s[1..], s[1..]);
    }
  }

  // --- cutting ---

  /** __list_cut_position */
  method CutBehind(list: Elem, head: Elem, entry: Elem, ghost a: seq<Elem>, ghost b: seq<Elem>)
    requires List(head, a + b) && list !in [head] + (a + b)
    requires a != [] && entry == Last(a)
    modifies list`next, list`prev, head`next, {a[0]}`prev, entry`next, {After(head, b)}`prev
    ensures List(list, a) && List(head, b)
  {
    hide NoDup, Disjoint;
    CutAround(list, head, a, b);
    var newFirst := entry.next;
    list.next := head.next;
    list.next.prev := list;
    list.prev := entry;
    entry.next := list;
    head.next := newFirst;
    newFirst.prev := head;
    assert Segment(a) && Segment(b + [head]);
    DisjointTurn(a, [list]);
    RingJoin([list], a);
    Turn(b, [head]);
  }

  lemma CutAround(list: Elem, head: Elem, a: seq<Elem>, b: seq<Elem>)
    requires List(head, a + b) && list !in [head] + (a + b) && a != []
    ensures Segment(a) && Segment(b + [head]) && EndsOnce(a) && EndsOnce(b + [head]) && EndsApart(a, b + [head])
    ensures list !in a && list !in b + [head] && Disjoint(a, [list]) && Segment([list])
    ensures head.next == a[0] && Last(a).next == After(head, b) == (b + [head])[0]
    ensures Last(b + [head]) == head
  {
    hide Ring, Segment;
    assert [head] + (a + b) == [head] + a + b;
    Turn([head] + a, b);
    assert b + ([head] + a) == (b + [head]) + a;
    Turn(b + [head], a);
    RingSplit(a, b + [head]);
    Apart(list, [head], a + b);
    Apart(list, a, b);
    OneApart(a, list);
  }

  lemma Sizes(head: Elem, a: seq<Elem>, b: seq<Elem>)
    requires List(head, a + b)
    ensures head.next == head <==> a + b == []
    ensures head.next == head.prev && head.next != head && a != [] ==> b == [] && head.next == Last(a)
    ensures head.next == head.prev && head.next != head && a == [] ==> |b| == 1 && head.next == b[0]
    ensures a != [] ==> Last(a) != head
  {
    var r := [head] + (a + b);
    RingEnds(r);
    if a != [] {
      assert r[|a|] == Last(a);
    }
    if |r| > 2 {
      assert r[1] == head.next && r[|r| - 1] == head.prev;
    }
  }

  /** list_cut_position */
  method ListCutPosition(list: Elem, head: Elem, entry: Elem, ghost a: seq<Elem>, ghost b: seq<Elem>)
    requires List(head, a + b) && list !in [head] + (a + b)
    requires if a == [] then entry == head || (|b| <= 1 && entry !in b) else entry == Last(a)
    modifies list`next, list`prev, head`next, a`prev, a`next, {After(head, b)}`prev
    ensures List(head, b)
    ensures a != [] || (b != [] && entry == head) ==> List(list, a)
    ensures a == [] && (b == [] || entry != head) ==> list.next == old(list.next) && list.prev == old(list.prev)
  {
    hide Ring;
    assert a == [] ==> a + b == b;
    HeadLinks(head, a + b);
    Sizes(head, a, b);
    if head.next == head {
      return;
    }
    if head.next == head.prev && head.next != entry && head != entry {
      return;
    }
    if entry == head {
      InitListHead(list);
      assert [list] + [] == [list];
    } else {
      CutBehind(list, head, entry, a, b);
    }
  }

  // --- splicing ---

  /** __list_splice: the entries of list between the last and the first node of r.  list itself is left as it was. */
  method SpliceBetween(list: Elem, prev: Elem, next: Elem, ghost a: seq<Elem>, ghost r: seq<Elem>)
    requires List(list, a) && a != [] && Ring(r) && prev == Last(r) && next == r[0]
    requires forall x | x in r :: x !in [list] + a
    modifies {a[0]}`prev, {Last(a)}`next, prev`next, next`prev
    ensures Ring(r + a)
  {
    hide NoDup, Disjoint;
    SpliceParts(list, a, r);
    var first := list.next;
    var last := list.prev;
    first.prev := prev;
    prev.next := first;
    last.next := next;
    next.prev := last;
    assert Segment(r) && Segment(a);
    RingJoin(r, a);
  }

  lemma SpliceParts(list: Elem, a: seq<Elem>, r: seq<Elem>)
    requires List(list, a) && a != [] && Ring(r)
    requires forall x | x in r :: x !in [list] + a
    ensures Segment(a) && Segment(r) && Disjoint(r, a) && EndsOnce(a) && EndsOnce(r) && EndsApart(r, a)
    ensures list !in r && list !in a && list.next == a[0] && list.prev == Last(a)
  {
    hide Segment;
    RingSplit([list], a);
    RingEnds(r);
    forall i, j | 0 <= i < |r| && 0 <= j < |a| ensures r[i] != a[j] {
      assert ([list] + a)[j + 1] == a[j] && r[i] in r;
    }
    assert ([list] + a)[0] == list;
  }

  lemma SeparateRings(list: Elem, a: seq<Elem>, head: Elem, s: seq<Elem>)
    requires Separate(head, s, list, a)
    ensures forall x | x in s + [head] :: x !in [list] + a
    ensures forall x | x in [head] + s :: x !in [list] + a
    ensures list !in s + [head] && list !in [head] + s
  {
    forall x | x in s + [head] ensures x in [head] + s {
    }
    assert list in [list] + a;
  }

  lemma EmptyOrNot(head: Elem, s: seq<Elem>)
    requires List(head, s)
    ensures head.next == head <==> s == []
  {
    RingEnds([head] + s);
  }

  lemma NotBetween(list: Elem, a: seq<Elem>, head: Elem, s: seq<Elem>)
    requires List(list, a) && a != [] && Separate(head, s, list, a)
    ensures list !in a && list !in s && list != head
  {
    RingSplit([list], a);
    SeparateRings(list, a, head, s);
  }

  /** list_splice */
  method ListSplice(list: Elem, head: Elem, ghost a: seq<Elem>, ghost s: seq<Elem>)
    requires List(list, a) && List(head, s) && Separate(head, s, list, a)
    modifies a`prev, a`next, head`next, {After(head, s)}`prev
    ensures List(head, a + s)
  {
    hide Ring, Separate;
    EmptyOrNot(list, a);
    SeparateRings(list, a, head, s);
    if list.next != list {
      HeadLinks(head, s);
      Turn([head], s);
      SpliceBetween(list, head, head.next, a, s + [head]);
      assert s + [head] + a == s + ([head] + a);
      Turn(s, [head] + a);
      assert [head] + a + s == [head] + (a + s);
    } else {
      assert a + s == s;
    }
  }

  /** list_splice_tail */
  method ListSpliceTail(list: Elem, head: Elem, ghost a: seq<Elem>, ghost s: seq<Elem>)
    requires List(list, a) && List(head, s) && Separate(head, s, list, a)
    modifies a`prev, a`next, head`prev, {Before(head, s)}`next
    ensures List(head, s + a)
  {
    hide Ring, Separate;
    EmptyOrNot(list, a);
    SeparateRings(list, a, head, s);
    if list.next != list {
      HeadLinks(head, s);
      SpliceBetween(list, head.prev, head, a, [head] + s);
      assert [head] + s + a == [head] + (s + a);
    } else {
      assert s + a == s;
    }
  }

  /** list_splice_init */
  method ListSpliceInit(list: Elem, head: Elem, ghost a: seq<Elem>, ghost s: seq<Elem>)
    requires List(list, a) && List(head, s) && Separate(head, s, list, a)
    modifies list`next, list`prev, a`prev, a`next, head`next, {After(head, s)}`prev
    ensures List(head, a + s) && List(list, [])
  {
    hide Ring, Separate;
    EmptyOrNot(list, a);
    if list.next != list {
      NotBetween(list, a, head, s);
      HeadLinks(head, s);
      ListSplice(list, head, a, s);
      InitListHead(list);
      assert [list] + [] == [list];
    } else {
      assert a + s == s;
    }
  }

  /** list_splice_tail_init */
  method ListSpliceTailInit(list: Elem, head: Elem, ghost a: seq<Elem>, ghost s: seq<Elem>)
    requires List(list, a) && List(head, s) && Separate(head, s, list, a)
    modifies list`next, list`prev, a`prev, a`next, head`prev, {Before(head, s)}`next
    ensures List(head, s + a) && List(list, [])
  {
    hide Ring, Separate;
    EmptyOrNot(list, a);
    if list.next != list {
      NotBetween(list, a, head, s);
      HeadLinks(head, s);
      ListSpliceTail(list, head, a, s);
      InitListHead(list);
      assert [list] + [] == [list];
    } else {
      assert s + a == s;
    }
  }

  // --- cutting and splicing back ---

  lemma LinksOf(r: seq<Elem>)
    requires Ring(r)
    ensures forall k | 0 <= k < |r| :: r[k].next == r[if k + 1 < |r| then k + 1 else 0]
    ensures forall k | 0 <= k < |r| :: r[k].prev == r[if k > 0 then k - 1 else |r| - 1]
  {
  }

  lemma CutApart(list: Elem, head: Elem, a: seq<Elem>, b: seq<Elem>)
    requires List(head, a + b) && list !in [head] + (a + b)
    ensures Separate(head, b, list, a)
  {
    var r := [head] + (a + b);
    forall x | x in [head] + b ensures x !in [list] + a {
      var i :| 0 <= i < |[head] + b| && ([head] + b)[i] == x;
      var k := if i == 0 then 0 else |a| + i;
      assert r[k] == x;
      assert forall j | 0 <= j < |a| :: r[j + 1] == a[j];
    }
  }

  /** list_cut_position and then list_splice_init: every link of the ring is again what it was. */
  method CutAndSpliceBack(list: Elem, head: Elem, entry: Elem, ghost a: seq<Elem>, ghost b: seq<Elem>)
    requires List(head, a + b) && list !in [head] + (a + b)
    requires a != [] && entry == Last(a)
    modifies list`next, list`prev, head`next, head`prev, a`prev, a`next, b`prev, b`next
    ensures List(head, a + b) && List(list, [])
    ensures forall x | x in [head] + (a + b) :: x.next == old(x.next) && x.prev == old(x.prev)
  {
    hide Ring, List, Separate;
    ghost var r := [head] + (a + b);
    assert Ring(r) by {
      ListIsRing(head, a + b);
    }
    LinksOf(r);
    CutApart(list, head, a, b);
    ListCutPosition(list, head, entry, a, b);
    ListSpliceInit(list, head, a, b);
    assert Ring(r) by {
      ListIsRing(head, a + b);
    }
    LinksOf(r);
    forall x | x in r ensures x.next == old(x.next) && x.prev == old(x.prev) {
      var k :| 0 <= k < |r| && r[k] == x;
      assert old(r[k].next) == r[if k + 1 < |r| then k + 1 else 0];
      assert old(r[k].prev) == r[if k > 0 then k - 1 else |r| - 1];
    }
  }

  lemma ListIsRing(head: Elem, s: seq<Elem>)
    ensures List(head, s) <==> Ring([head] + s)
  {
  }
}
