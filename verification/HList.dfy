/**
  The hlist of list.h: a list with a single-pointer head, whose nodes point back at the
  cell that holds them.

  The C code keeps the address of that cell in pprev.  Here a cell is the first field of
  a head or the next field of a node.
 */
module HList {
  import opened StableSort

  class Head {
    var first: Node?

    constructor ()
      ensures first == null
    {
      first := null;
    }
  }

  /** The address of a cell that holds a node; Null in a node that is on no list. */
  datatype Cell = Null | FirstOf(head: Head) | NextOf(node: Node)

  class Node {
    var next: Node?
    var pprev: Cell

    /** INIT_HLIST_NODE */
    constructor ()
      ensures next == null && pprev == Null
    {
      next, pprev := null, Null;
    }
  }

  function LastOf(s: seq<Node>): Node
    requires s != []
  {
    s[|s| - 1]
  }

  function FirstOr(s: seq<Node>, end: Node?): Node? {
    if s == [] then end else s[0]
  }

  /** The cell that holds what comes behind s. */
  function CellBehind(c: Cell, s: seq<Node>): Cell {
    if s == [] then c else NextOf(LastOf(s))
  }

  /** The nodes s in a row: the first is held by the cell c, the last is followed by end. */
  ghost predicate Row(c: Cell, s: seq<Node>, end: Node?)
    reads s`next, s`pprev
  {
    && NoDup(s)
    && (forall j {:trigger s[j].next} | 0 <= j < |s| - 1 :: s[j].next == s[j + 1])
    && (forall j {:trigger s[j].pprev} | 1 <= j < |s| :: s[j].pprev == NextOf(s[j - 1]))
    && (s != [] ==> s[0].pprev == c && LastOf(s).next == end)
  }

  /** The list at h holds the nodes s, and every pprev is the address of the cell that holds its node. */
  ghost predicate Chain(h: Head, s: seq<Node>)
    reads h`first, s`next, s`pprev
  {
    h.first == FirstOr(s, null) && Row(FirstOf(h), s, null)
  }

  ghost predicate Apart(a: seq<Node>, b: seq<Node>) {
    forall i, j | 0 <= i < |a| && 0 <= j < |b| :: a[i] != b[j]
  }

  ghost predicate EndsOnce(s: seq<Node>) {
    s != [] ==>
      && (forall j | 0 <= j < |s| - 1 :: s[j] != LastOf(s))
      && (forall j | 1 <= j < |s| :: s[j] != s[0])
  }

  /** The last of a is not in b, the first of b not in a. */
  ghost predicate SeamOnce(a: seq<Node>, b: seq<Node>) {
    (a != [] ==> LastOf(a) !in b) && (b != [] ==> b[0] !in a)
  }

  lemma SplitRow(c: Cell, a: seq<Node>, b: seq<Node>, end: Node?)
    requires Row(c, a + b, end)
    ensures Row(c, a, FirstOr(b, end)) && Row(CellBehind(c, a), b, end)
    ensures Apart(a, b) && EndsOnce(a) && EndsOnce(b) && SeamOnce(a, b)
  {
    var s := a + b;
    assert forall j | 0 <= j < |a| :: a[j] == s[j];
    assert forall j | 0 <= j < |b| :: b[j] == s[|a| + j];
    if b != [] {
      assert LastOf(s) == LastOf(b);
    } else {
      assert s == a;
    }
  }

  lemma JoinRow(c: Cell, a: seq<Node>, b: seq<Node>, end: Node?)
    requires Row(c, a, FirstOr(b, end)) && Row(CellBehind(c, a), b, end) && Apart(a, b)
    ensures Row(c, a + b, end)
  {
    if a == [] {
      assert a + b == b;
    } else if b == [] {
      assert a + b == a;
    }
  }

  // --- the operations ---

  lemma ApartFromOne(n: Node, s: seq<Node>)
    requires n !in s
    ensures Apart([n], s) && Apart(s, [n])
  {
  }

  /** hlist_add_head */
  method HlistAddHead(n: Node, h: Head, ghost s: seq<Node>)
    requires Chain(h, s) && n !in s
    modifies n`next, n`pprev, h`first, s`pprev
    ensures Chain(h, [n] + s)
  {
    var first := h.first;
    n.next := first;
    if first != null {
      first.pprev := NextOf(n);
    }
    h.first := n;
    n.pprev := FirstOf(h);
    ApartFromOne(n, s);
    JoinRow(FirstOf(h), [n], s, null);
  }

  /** What the neighbourhood of a node looks like. */
  lemma SplitChain(h: Head, a: seq<Node>, n: Node, b: seq<Node>)
    requires Chain(h, a + [n] + b)
    ensures Row(FirstOf(h), a, n) && Row(NextOf(n), b, null)
    ensures n.pprev == CellBehind(FirstOf(h), a) && n.next == FirstOr(b, null)
    ensures h.first == FirstOr(a, n)
    ensures Apart(a, b) && n !in a && n !in b && EndsOnce(a) && EndsOnce(b) && SeamOnce(a, b)
  {
    hide Row;
    SplitRow(FirstOf(h), a + [n], b, null);
    SplitRow(FirstOf(h), a, [n], FirstOr(b, null));
    PartsApart(a, n, b);
    OneRow(CellBehind(FirstOf(h), a), n, FirstOr(b, null));
    assert a + [n] + b != [] && (a + [n] + b)[0] == FirstOr(a, n);
  }

  lemma PartsApart(a: seq<Node>, n: Node, b: seq<Node>)
    requires Apart(a + [n], b)
    ensures Apart(a, b) && n !in b && SeamOnce(a, b)
  {
    var s := a + [n];
    assert s[|a|] == n;
    assert forall i | 0 <= i < |a| :: s[i] == a[i];
  }

  lemma OneRow(c: Cell, n: Node, end: Node?)
    ensures Row(c, [n], end) <==> n.pprev == c && n.next == end
  {
  }

  /** a, n and b in a row make a list. */
  lemma JoinChain(h: Head, a: seq<Node>, n: Node, b: seq<Node>)
    requires Row(FirstOf(h), a, n) && Row(NextOf(n), b, null)
    requires n.pprev == CellBehind(FirstOf(h), a) && n.next == FirstOr(b, null)
    requires h.first == FirstOr(a, n)
    requires Apart(a, b) && n !in a && n !in b
    ensures Chain(h, a + [n] + b)
  {
    hide Row;
    OneRow(CellBehind(FirstOf(h), a), n, FirstOr(b, null));
    ApartFromOne(n, a);
    JoinRow(FirstOf(h), a, [n], FirstOr(b, null));
    ApartBoth(a, n, b);
    JoinRow(FirstOf(h), a + [n], b, null);
    assert (a + [n] + b)[0] == FirstOr(a, n);
  }

  lemma ApartBoth(a: seq<Node>, n: Node, b: seq<Node>)
    requires Apart(a, b) && n !in b
    ensures Apart(a + [n], b)
  {
  }

  lemma NotIn(x: Node, a: seq<Node>, n: Node, b: seq<Node>)
    requires x !in a + [n] + b
    ensures x !in a && x != n && x !in b
  {
    var s := a + [n] + b;
    assert s[|a|] == n;
    assert forall k | 0 <= k < |a| :: s[k] == a[k];
    assert forall k | 0 <= k < |b| :: s[|a| + 1 + k] == b[k];
  }

  /** *cell = n */
  method Store(cell: Cell, n: Node?)
    requires cell != Null
    modifies (if cell.FirstOf? then {cell.head} else {})`first, (if cell.NextOf? then {cell.node} else {})`next
    ensures cell.FirstOf? ==> cell.head.first == n
    ensures cell.NextOf? ==> cell.node.next == n
  {
    match cell
    case FirstOf(head) => head.first := n;
    case NextOf(node) => node.next := n;
  }

  /** hlist_add_before */
  method HlistAddBefore(n: Node, next: Node, ghost h: Head, ghost a: seq<Node>, ghost b: seq<Node>)
    requires Chain(h, a + [next] + b) && n !in a + [next] + b
    modifies n`next, n`pprev, next`pprev, h`first, a`next
    ensures Chain(h, a + [n] + ([next] + b))
  {
    hide NoDup, Apart;
    NotIn(n, a, next, b);
    SplitChain(h, a, next, b);
    n.pprev := next.pprev;
    n.next := next;
    next.pprev := NextOf(n);
    Store(n.pprev, n);
    assert Row(FirstOf(h), a, n);
    assert Row(NextOf(next), b, null);
    OneRow(NextOf(n), next, FirstOr(b, null));
    ApartFromOne(next, b);
    JoinRow(NextOf(n), [next], b, null);
    TwoApart(n, next, a, b);
    JoinChain(h, a, n, [next] + b);
  }

  lemma TwoApart(n: Node, x: Node, a: seq<Node>, b: seq<Node>)
    requires n !in a && n !in b && n != x && x !in a && x !in b && Apart(a, b)
    ensures n !in [x] + b && n !in a + [x] && Apart(a, [x] + b) && Apart(a + [x], b)
  {
  }

  /** hlist_add_after: next comes behind n */
  method HlistAddAfter(n: Node, next: Node, ghost h: Head, ghost a: seq<Node>, ghost b: seq<Node>)
    requires Chain(h, a + [n] + b) && next !in a + [n] + b
    modifies n`next, next`next, next`pprev, b`pprev
    ensures Chain(h, a + [n] + ([next] + b))
  {
    hide NoDup, Apart;
    NotIn(next, a, n, b);
    SplitChain(h, a, n, b);
    next.next := n.next;
    n.next := next;
    next.pprev := NextOf(n);
    if next.next != null {
      next.next.pprev := NextOf(next);
    }
    assert Row(FirstOf(h), a, n);
    assert Row(NextOf(next), b, null);
    OneRow(NextOf(n), next, FirstOr(b, null));
    ApartFromOne(next, b);
    JoinRow(NextOf(n), [next], b, null);
    TwoApart(n, next, a, b);
    JoinChain(h, a, n, [next] + b);
  }

  /** __hlist_del: the head is not an argument */
  method Unlink(n: Node, ghost h: Head, ghost a: seq<Node>, ghost b: seq<Node>)
    requires Chain(h, a + [n] + b)
    modifies h`first, a`next, b`pprev
    ensures Chain(h, a + b)
  {
    hide NoDup, Apart;
    SplitChain(h, a, n, b);
    var next := n.next;
    var pprev := n.pprev;
    Store(pprev, next);
    if next != null {
      next.pprev := pprev;
    }
    assert Row(FirstOf(h), a, FirstOr(b, null));
    assert Row(CellBehind(FirstOf(h), a), b, null);
    JoinRow(FirstOf(h), a, b, null);
    FirstOfBoth(a, b);
  }

  lemma FirstOfBoth(a: seq<Node>, b: seq<Node>)
    ensures FirstOr(a + b, null) == FirstOr(a, FirstOr(b, null))
  {
  }

  /** hlist_del_init, for a node on no list or at its place in one */
  method HlistDelInit(n: Node, ghost h: Head?, ghost a: seq<Node>, ghost b: seq<Node>)
    requires n.pprev != Null ==> h != null && Chain(h, a + [n] + b)
    modifies n`next, n`pprev, (if h == null then {} else {h})`first, a`next, b`pprev
    ensures old(n.pprev) != Null ==> Chain(h, a + b) && n.next == null && n.pprev == Null
    ensures old(n.pprev) == Null ==> unchanged(n) && (h != null ==> unchanged(h)) && unchanged(a) && unchanged(b)
  {
    hide Row;
    if n.pprev != Null {
      SplitChain(h, a, n, b);
      Unlink(n, h, a, b);
      n.next := null;
      n.pprev := Null;
    }
  }

  /** hlist_move_list */
  method HlistMoveList(from: Head, to: Head, ghost s: seq<Node>)
    requires Chain(from, s) && from != to
    modifies from`first, to`first, s`pprev
    ensures Chain(from, []) && Chain(to, s)
  {
    to.first := from.first;
    if to.first != null {
      to.first.pprev := FirstOf(to);
    }
    from.first := null;
  }

  // --- the same, at a position of the list ---

  lemma PartsOfOne(s: seq<Node>, k: nat) returns (a: seq<Node>, b: seq<Node>)
    requires k < |s|
    ensures a == s[..k] && b == s[k + 1..] && s == a + [s[k]] + b
    ensures s[..k + 1] == a + [s[k]] && s[k..] == [s[k]] + b
    ensures (forall x | x in a :: x in s) && (forall x | x in b :: x in s)
  {
    a, b := s[..k], s[k + 1..];
  }

  method AddBeforeAt(n: Node, next: Node, ghost h: Head, ghost s: seq<Node>, ghost k: nat)
    requires Chain(h, s) && k < |s| && s[k] == next && n !in s
    modifies n`next, n`pprev, h`first, s`next, s`pprev
    ensures Chain(h, s[..k] + [n] + s[k..])
  {
    hide Chain;
    ghost var a, b := PartsOfOne(s, k);
    HlistAddBefore(n, next, h, a, b);
  }

  method AddAfterAt(n: Node, next: Node, ghost h: Head, ghost s: seq<Node>, ghost k: nat)
    requires Chain(h, s) && k < |s| && s[k] == n && next !in s
    modifies next`next, next`pprev, h`first, s`next, s`pprev
    ensures Chain(h, s[..k + 1] + [next] + s[k + 1..])
  {
    hide Chain;
    ghost var a, b := PartsOfOne(s, k);
    assert a + [n] + [next] + b == a + [n] + ([next] + b);
    HlistAddAfter(n, next, h, a, b);
  }

  method DelInitAt(n: Node, ghost h: Head, ghost s: seq<Node>, ghost k: nat)
    requires Chain(h, s) && k < |s| && s[k] == n && n.pprev != Null
    modifies h`first, s`next, s`pprev
    ensures Chain(h, s[..k] + s[k + 1..]) && n !in s[..k] + s[k + 1..] && n.pprev == Null
  {
    hide Chain;
    ghost var a, b := PartsOfOne(s, k);
    SplitChain(h, a, n, b);
    HlistDelInit(n, h, a, b);
  }

  // --- any run of operations ---

  /** What a cell holds. */
  ghost function Held(cell: Cell): Node?
    requires cell != Null
    reads (if cell.FirstOf? then {cell.head} else {})`first, (if cell.NextOf? then {cell.node} else {})`next
  {
    match cell
    case FirstOf(head) => head.first
    case NextOf(node) => node.next
  }

  ghost predicate At(lists: seq<seq<Node>>, n: Node, i: nat, k: nat) {
    i < |lists| && k < |lists[i]| && lists[i][k] == n
  }

  ghost predicate Listed(lists: seq<seq<Node>>, n: Node) {
    exists i: nat, k: nat :: At(lists, n, i, k)
  }

  /** Several heads with what their lists hold; no node is on two lists. */
  ghost predicate Shape(heads: seq<Head>, lists: seq<seq<Node>>, nodes: set<Node>) {
    && |heads| == |lists| && NoDup(heads)
    && (forall i, k | 0 <= i < |lists| && 0 <= k < |lists[i]| :: lists[i][k] in nodes)
    && (forall i, j | 0 <= i < |lists| && 0 <= j < |lists| && i != j :: Apart(lists[i], lists[j]))
  }

  /** All lists are in order, and a node on no list says so. */
  ghost predicate Linked(heads: seq<Head>, lists: seq<seq<Node>>, nodes: set<Node>)
    requires Shape(heads, lists, nodes)
    reads heads`first, nodes`next, nodes`pprev
  {
    && (forall i | 0 <= i < |lists| :: Chain(heads[i], lists[i]))
    && (forall n | n in nodes && !Listed(lists, n) :: n.pprev == Null)
  }

  /** Every pprev is the address of the cell that holds its node. */
  lemma CellsHold(heads: seq<Head>, lists: seq<seq<Node>>, nodes: set<Node>, n: Node)
    requires Shape(heads, lists, nodes) && Linked(heads, lists, nodes) && n in nodes
    ensures n.pprev != Null <==> Listed(lists, n)
    ensures n.pprev != Null ==> Held(n.pprev) == n
  {
    if Listed(lists, n) {
      var i: nat, k: nat :| At(lists, n, i, k);
      var a, b := lists[i][..k], lists[i][k + 1..];
      assert lists[i] == a + [n] + b;
      SplitChain(heads[i], a, n, b);
    }
  }

  datatype Op =
    | AddHead(n: Node, i: nat)
    | AddBefore(n: Node, next: Node)
    | AddAfter(n: Node, next: Node)
    | DelInit(n: Node)
    | MoveList(i: nat, j: nat)

  ghost predicate Legal(lists: seq<seq<Node>>, nodes: set<Node>, op: Op) {
    match op
    case AddHead(n, i) => n in nodes && !Listed(lists, n) && i < |lists|
    case AddBefore(n, next) => n in nodes && !Listed(lists, n) && Listed(lists, next)
    case AddAfter(n, next) => next in nodes && !Listed(lists, next) && Listed(lists, n)
    case DelInit(n) => n in nodes
    case MoveList(i, j) => i < |lists| && j < |lists| && i != j && lists[j] == []
  }

  ghost function Place(lists: seq<seq<Node>>, n: Node): (p: (nat, nat))
    requires Listed(lists, n)
    ensures At(lists, n, p.0, p.1)
  {
    var i: nat, k: nat :| At(lists, n, i, k);
    (i, k)
  }

  /** The same operations on the sequences. */
  ghost function Step(lists: seq<seq<Node>>, nodes: set<Node>, op: Op): seq<seq<Node>>
    requires Legal(lists, nodes, op)
  {
    match op
    case AddHead(n, i) => lists[i := [n] + lists[i]]
    case AddBefore(n, next) =>
      var (i, k) := Place(lists, next);
      lists[i := lists[i][..k] + [n] + lists[i][k..]]
    case AddAfter(n, next) =>
      var (i, k) := Place(lists, n);
      lists[i := lists[i][..k + 1] + [next] + lists[i][k + 1..]]
    case DelInit(n) =>
      if Listed(lists, n) then
        var (i, k) := Place(lists, n);
        lists[i := lists[i][..k] + lists[i][k + 1..]]
      else lists
    case MoveList(i, j) => lists[j := lists[i]][i := []]
  }

  /** t takes the place of list i. */
  lemma Refit(heads: seq<Head>, lists: seq<seq<Node>>, nodes: set<Node>, i: nat, t: seq<Node>)
    requires Shape(heads, lists, nodes) && i < |lists|
    requires forall x | x in t :: x in nodes && (x in lists[i] || !Listed(lists, x))
    ensures Shape(heads, lists[i := t], nodes)
    ensures forall x :: Listed(lists[i := t], x) <==> x in t || (Listed(lists, x) && x !in lists[i])
  {
    var lists' := lists[i := t];
    forall j, k, l | 0 <= j < |lists| && j != i && 0 <= k < |t| && 0 <= l < |lists[j]|
      ensures t[k] != lists[j][l]
    {
      assert t[k] in t;
      assert At(lists, lists[j][l], j, l);
    }
    forall x ensures Listed(lists', x) <==> x in t || (Listed(lists, x) && x !in lists[i]) {
      if Listed(lists', x) {
        var j: nat, k: nat :| At(lists', x, j, k);
        assert j != i ==> At(lists, x, j, k);
      }
      if x in t {
        var k: nat :| k < |t| && t[k] == x;
        assert At(lists', x, i, k);
      } else if Listed(lists, x) && x !in lists[i] {
        var j: nat, k: nat :| At(lists, x, j, k);
        assert At(lists', x, j, k);
      }
    }
  }

  /** What is on the lists, seen from list i. */
  lemma OthersApart(heads: seq<Head>, lists: seq<seq<Node>>, nodes: set<Node>, i: nat)
    requires Shape(heads, lists, nodes) && i < |lists|
    ensures |heads| == |lists| && forall j | 0 <= j < |lists| && j != i :: heads[j] != heads[i]
    ensures forall j, x | 0 <= j < |lists| && j != i && x in lists[j] :: x !in lists[i]
    ensures forall x | x in lists[i] :: x in nodes && Listed(lists, x)
    ensures forall j, x | 0 <= j < |lists| && x in lists[j] :: Listed(lists, x)
    ensures forall j, k | 0 <= j < |lists| && j != i && 0 <= k < |lists[j]| :: lists[j][k] !in lists[i]
    ensures forall j, k | 0 <= j < |lists| && 0 <= k < |lists[j]| :: Listed(lists, lists[j][k])
  {
    forall j, x | 0 <= j < |lists| && x in lists[j] ensures Listed(lists, x) {
      var k: nat :| k < |lists[j]| && lists[j][k] == x;
      assert At(lists, x, j, k);
    }
  }

  /** A node put into list i. */
  lemma PutIn(heads: seq<Head>, lists: seq<seq<Node>>, nodes: set<Node>, i: nat, k: nat, n: Node)
    requires Shape(heads, lists, nodes) && i < |lists| && k <= |lists[i]|
    requires n in nodes && !Listed(lists, n)
    ensures Shape(heads, lists[i := lists[i][..k] + [n] + lists[i][k..]], nodes)
    ensures forall x :: Listed(lists[i := lists[i][..k] + [n] + lists[i][k..]], x) <==> x == n || Listed(lists, x)
    ensures n !in lists[i]
  {
    OthersApart(heads, lists, nodes, i);
    var a, b := lists[i][..k], lists[i][k..];
    assert lists[i] == a + b;
    forall x ensures x in a + [n] + b <==> x == n || x in a + b {
      assert x in a + [n] + b <==> x in a || x == n || x in b;
    }
    Refit(heads, lists, nodes, i, a + [n] + b);
  }

  /** A node taken out of list i. */
  lemma TakenOut(heads: seq<Head>, lists: seq<seq<Node>>, nodes: set<Node>, i: nat, k: nat)
    requires Shape(heads, lists, nodes) && i < |lists| && k < |lists[i]|
    ensures Shape(heads, lists[i := lists[i][..k] + lists[i][k + 1..]], nodes)
    ensures lists[i][k] !in lists[i][..k] + lists[i][k + 1..] ==> forall x ::
              Listed(lists[i := lists[i][..k] + lists[i][k + 1..]], x) <==> x != lists[i][k] && Listed(lists, x)
  {
    OthersApart(heads, lists, nodes, i);
    var a, n, b := lists[i][..k], lists[i][k], lists[i][k + 1..];
    assert lists[i] == a + [n] + b;
    forall x ensures x in a + [n] + b <==> x == n || x in a + b {
      assert x in a + [n] + b <==> x in a || x == n || x in b;
    }
    Refit(heads, lists, nodes, i, a + b);
  }

  method PerformAddHead(heads: seq<Head>, n: Node, i: nat, ghost lists: seq<seq<Node>>, ghost nodes: set<Node>)
    requires Shape(heads, lists, nodes) && Linked(heads, lists, nodes) && Legal(lists, nodes, AddHead(n, i))
    modifies heads`first, nodes`next, nodes`pprev
    ensures var lists' := Step(lists, nodes, AddHead(n, i));
            Shape(heads, lists', nodes) && Linked(heads, lists', nodes)
  {
    hide Chain, NoDup, Apart;
    OthersApart(heads, lists, nodes, i);
    PutIn(heads, lists, nodes, i, 0, n);
    assert lists[i][..0] + [n] + lists[i][0..] == [n] + lists[i];
    HlistAddHead(n, heads[i], lists[i]);
  }

  method PerformAddBefore(heads: seq<Head>, n: Node, next: Node, ghost lists: seq<seq<Node>>, ghost nodes: set<Node>)
    requires Shape(heads, lists, nodes) && Linked(heads, lists, nodes) && Legal(lists, nodes, AddBefore(n, next))
    modifies heads`first, nodes`next, nodes`pprev
    ensures var lists' := Step(lists, nodes, AddBefore(n, next));
            Shape(heads, lists', nodes) && Linked(heads, lists', nodes)
  {
    hide Chain, NoDup, Apart;
    ghost var (i, k) := Place(lists, next);
    OthersApart(heads, lists, nodes, i);
    PutIn(heads, lists, nodes, i, k, n);
    AddBeforeAt(n, next, heads[i], lists[i], k);
  }

  method PerformAddAfter(heads: seq<Head>, n: Node, next: Node, ghost lists: seq<seq<Node>>, ghost nodes: set<Node>)
    requires Shape(heads, lists, nodes) && Linked(heads, lists, nodes) && Legal(lists, nodes, AddAfter(n, next))
    modifies heads`first, nodes`next, nodes`pprev
    ensures var lists' := Step(lists, nodes, AddAfter(n, next));
            Shape(heads, lists', nodes) && Linked(heads, lists', nodes)
  {
    hide Chain, NoDup, Apart;
    ghost var (i, k) := Place(lists, n);
    OthersApart(heads, lists, nodes, i);
    PutIn(heads, lists, nodes, i, k + 1, next);
    AddAfterAt(n, next, heads[i], lists[i], k);
  }

  method PerformDelInit(heads: seq<Head>, n: Node, ghost lists: seq<seq<Node>>, ghost nodes: set<Node>)
    requires Shape(heads, lists, nodes) && Linked(heads, lists, nodes) && Legal(lists, nodes, DelInit(n))
    modifies heads`first, nodes`next, nodes`pprev
    ensures var lists' := Step(lists, nodes, DelInit(n));
            Shape(heads, lists', nodes) && Linked(heads, lists', nodes)
  {
    hide Chain, NoDup, Apart, Held;
    CellsHold(heads, lists, nodes, n);
    if n.pprev != Null {
      ghost var (i, k) := Place(lists, n);
      OthersApart(heads, lists, nodes, i);
      TakenOut(heads, lists, nodes, i, k);
      DelInitAt(n, heads[i], lists[i], k);
    } else {
      HlistDelInit(n, null, [], []);
    }
  }

  method PerformMoveList(heads: seq<Head>, i: nat, j: nat, ghost lists: seq<seq<Node>>, ghost nodes: set<Node>)
    requires Shape(heads, lists, nodes) && Linked(heads, lists, nodes) && Legal(lists, nodes, MoveList(i, j))
    modifies heads`first, nodes`next, nodes`pprev
    ensures var lists' := Step(lists, nodes, MoveList(i, j));
            Shape(heads, lists', nodes) && Linked(heads, lists', nodes)
  {
    hide Chain, NoDup, Apart, Listed;
    OthersApart(heads, lists, nodes, i);
    Exchanged(heads, lists, nodes, i, j);
    TwoHeads(heads, lists, nodes, i, j);
    HlistMoveList(heads[i], heads[j], lists[i]);
  }

  lemma TwoHeads(heads: seq<Head>, lists: seq<seq<Node>>, nodes: set<Node>, i: nat, j: nat)
    requires Shape(heads, lists, nodes) && i < |lists| && j < |lists|
    ensures forall k | 0 <= k < |lists| && k != i && k != j :: heads[k] != heads[i] && heads[k] != heads[j]
    ensures i != j ==> heads[i] != heads[j]
  {
  }

  lemma Exchanged(heads: seq<Head>, lists: seq<seq<Node>>, nodes: set<Node>, i: nat, j: nat)
    requires Shape(heads, lists, nodes) && i < |lists| && j < |lists| && i != j && lists[j] == []
    ensures Shape(heads, lists[j := lists[i]][i := []], nodes)
    ensures forall x :: Listed(lists[j := lists[i]][i := []], x) <==> Listed(lists, x)
  {
    var lists' := lists[j := lists[i]][i := []];
    forall x ensures Listed(lists', x) <==> Listed(lists, x) {
      if Listed(lists, x) {
        var p: nat, k: nat :| At(lists, x, p, k);
        assert At(lists', x, if p == i then j else p, k);
      }
      if Listed(lists', x) {
        var p: nat, k: nat :| At(lists', x, p, k);
        assert At(lists, x, if p == j then i else p, k);
      }
    }
  }

  /** Every operation keeps all lists linked and does to them what it does to the sequences. */
  method Perform(heads: seq<Head>, op: Op, ghost lists: seq<seq<Node>>, ghost nodes: set<Node>)
    requires Shape(heads, lists, nodes) && Linked(heads, lists, nodes) && Legal(lists, nodes, op)
    modifies heads`first, nodes`next, nodes`pprev
    ensures Shape(heads, Step(lists, nodes, op), nodes) && Linked(heads, Step(lists, nodes, op), nodes)
  {
    hide Shape, Linked, Listed, Step;
    match op
    case AddHead(n, i) => PerformAddHead(heads, n, i, lists, nodes);
    case AddBefore(n, next) => PerformAddBefore(heads, n, next, lists, nodes);
    case AddAfter(n, next) => PerformAddAfter(heads, n, next, lists, nodes);
    case DelInit(n) => PerformDelInit(heads, n, lists, nodes);
    case MoveList(i, j) => PerformMoveList(heads, i, j, lists, nodes);
  }

  ghost predicate LegalRun(lists: seq<seq<Node>>, nodes: set<Node>, ops: seq<Op>)
    decreases |ops|
  {
    ops == [] || (Legal(lists, nodes, ops[0]) && LegalRun(Step(lists, nodes, ops[0]), nodes, ops[1..]))
  }

  ghost function StepAll(lists: seq<seq<Node>>, nodes: set<Node>, ops: seq<Op>): seq<seq<Node>>
    requires LegalRun(lists, nodes, ops)
    decreases |ops|
  {
    if ops == [] then lists else StepAll(Step(lists, nodes, ops[0]), nodes, ops[1..])
  }

  /** Over any run every pprev stays the address of the cell that holds its node. */
  method Run(heads: seq<Head>, ops: seq<Op>, ghost lists: seq<seq<Node>>, ghost nodes: set<Node>)
    requires Shape(heads, lists, nodes) && Linked(heads, lists, nodes) && LegalRun(lists, nodes, ops)
    modifies heads`first, nodes`next, nodes`pprev
    ensures Shape(heads, StepAll(lists, nodes, ops), nodes) && Linked(heads, StepAll(lists, nodes, ops), nodes)
    ensures forall n | n in nodes && n.pprev != Null ::
              Listed(StepAll(lists, nodes, ops), n) && Held(n.pprev) == n
    decreases |ops|
  {
    hide Shape, Linked, Step, Legal;
    if ops == [] {
      forall n | n in nodes && n.pprev != Null ensures Listed(lists, n) && Held(n.pprev) == n {
        CellsHold(heads, lists, nodes, n);
      }
    } else {
      Perform(heads, ops[0], lists, nodes);
      Run(heads, ops[1..], Step(lists, nodes, ops[0]), nodes);
    }
  }
}
