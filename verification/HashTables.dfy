/**
  The user's view of a uthash table: a head pointer, and the macros that add, find,
  replace, delete and sort elements.

  Every macro is a method of HashTable.  Valid() is what HASH_FSCK checks and more: both
  link structures, the counters, the placement of every element, the Bloom filter, and
  the bound on chain lengths.
 */
module HashTables {
  import opened Basics
  import opened Element
  import opened StableSort
  import opened Bits
  import opened Segments
  import opened Buckets
  import opened UtHash
  import ListSort

  /** How many leading elements do not compare above x: where HASH_AKBI_INNER_LOOP stops. */
  ghost function UpperBound(s: seq<Elem>, x: Elem, cmp: Comparison<Elem>): (n: nat)
    ensures n <= |s|
    ensures forall j | 0 <= j < n :: cmp(s[j], x) <= 0
    ensures n < |s| ==> cmp(s[n], x) > 0
  {
    if s == [] || cmp(s[0], x) > 0 then 0 else 1 + UpperBound(s[1..], x, cmp)
  }

  lemma {:induction false} UpperBoundIs(s: seq<Elem>, x: Elem, cmp: Comparison<Elem>, n: nat)
    requires n <= |s|
    requires forall j | 0 <= j < n :: cmp(s[j], x) <= 0
    requires n < |s| ==> cmp(s[n], x) > 0
    ensures UpperBound(s, x, cmp) == n
  {
    if n > 0 {
      UpperBoundIs(s[1..], x, cmp, n - 1);
    }
  }

  ghost predicate UniqueKeys(s: seq<Elem>) {
    forall i, j | 0 <= i < j < |s| :: s[i].key != s[j].key
  }

  ghost predicate Rearranged(s: seq<Elem>, t: seq<Elem>) {
    multiset(s) == multiset(t)
  }

  lemma PermutedTable(tbl: Table, chains: seq<seq<Elem>>, s: seq<Elem>, t: seq<Elem>, hash: HashFunction, bloom: Bloom)
    requires TableOk(tbl, chains, s, hash, bloom)
    requires Rearranged(s, t)
    ensures TableOk(tbl, chains, t, hash, bloom)
  {
    hide Pow2, BloomBit, BloomIndex, BoundedBy;
    SameElements(s, t);
    PermutationNoDup(s, t);
    assert |multiset(s)| == |multiset(t)|;
    assert NodesOf(s) == NodesOf(t);
    hide NoDup, AllHead;
    assert Placed(chains, t, hash);
  }

  /** A list in application order: next, prev, head and tail. */
  ghost predicate Linked(head: Elem?, tail: Elem?, order: seq<Elem>)
    reads order`next, order`prev
  {
    && head == At(order, 0)
    && Segment(order)
    && (order != [] ==> order[0].prev == null && Last(order).next == null && tail == Last(order))
  }

  lemma LinkedIs(head: Elem?, tail: Elem?, order: seq<Elem>)
    ensures Linked(head, tail, order) <==>
              && head == At(order, 0)
              && Segment(order)
              && (order != [] ==> order[0].prev == null && Last(order).next == null && tail == Last(order))
  {
  }

  /** Two stretches that are joined, with head and tail at their ends. */
  lemma JoinedLinked(head: Elem?, tail: Elem?, a: seq<Elem>, b: seq<Elem>)
    requires Segment(a) && Segment(b) && Disjoint(a, b) && a + b != []
    requires a != [] && b != [] ==> Last(a).next == b[0] && b[0].prev == Last(a)
    requires a != [] ==> head == a[0] && a[0].prev == null
    requires a == [] ==> head == b[0] && b[0].prev == null
    requires b != [] ==> tail == Last(b) && Last(b).next == null
    requires b == [] ==> tail == Last(a) && Last(a).next == null
    ensures Linked(head, tail, a + b)
  {
    hide Segment, Disjoint, Linked;
    JoinSegments(a, b);
    LinkedIs(head, tail, a + b);
  }

  /** The first n backward links of a chain. */
  ghost predicate BackChained(c: seq<Elem>, n: nat)
    requires n <= |c|
    reads c`hhPrev
  {
    forall j {:trigger c[j].hhPrev} | 0 <= j < n :: c[j].hhPrev == (if j == 0 then null else c[j - 1])
  }

  /** The first n backward links of the application order. */
  ghost predicate BackOrdered(s: seq<Elem>, n: nat)
    requires n <= |s|
    reads s`prev
  {
    forall j {:trigger s[j].prev} | 0 <= j < n :: s[j].prev == (if j == 0 then null else s[j - 1])
  }

  lemma FlattenStart(chains: seq<seq<Elem>>)
    ensures Flatten(chains[..0]) == [] && chains[..|chains|] == chains
  {
  }

  /** The inner loop of HASH_FSCK over one bucket. */
  method FsckBucket(b: Bucket, ghost c: seq<Elem>) returns (good: bool, n: nat)
    requires b.hhHead == At(c, 0) && Intact(c, 0)
    ensures good <==> BackChained(c, |c|) && b.count == |c|
    ensures n == |c|
  {
    good, n := true, 0;
    var prev: Elem?, thh := null, b.hhHead;
    while thh != null
      invariant n <= |c| && thh == At(c, n)
      invariant prev == if n == 0 then null else c[n - 1]
      invariant good <==> BackChained(c, n)
      decreases |c| - n
    {
      if prev != thh.hhPrev {
        good := false;
      }
      n := n + 1;
      prev := thh;
      thh := thh.hhNext;
    }
    if b.count != n {
      good := false;
    }
  }

  class HashTable {
    /** HASH_FCN, on the bytes of a key. */
    const hash: HashFunction
    const bloom: Bloom

    var head: Elem?
    var tbl: Table

    /** The elements in application order. */
    ghost var order: seq<Elem>
    /** The chain of every bucket. */
    ghost var chains: seq<seq<Elem>>

    /** The application-order list. */
    ghost predicate Ordered()
      reads this, order`next, order`prev
    {
      Linked(head, tbl.tail, order)
    }

    ghost predicate Valid()
      reads this, tbl.buckets, tbl.bloomBv, order
    {
      Ordered() && (order != [] ==> TableOk(tbl, chains, order, hash, bloom))
    }

    constructor (hash: HashFunction, bloom: Bloom)
      ensures Valid() && order == []
      ensures this.hash == hash && this.bloom == bloom
      ensures fresh(tbl.buckets) && fresh(tbl.bloomBv)
    {
      this.hash, this.bloom := hash, bloom;
      head, order, chains := null, [], [];
      var bs, bv := new Bucket[0], new Byte[0];
      tbl := Table(bs, 0, 0, 0, null, 0, 0, 0, false, bv);
    }

    /** HASH_APPEND_LIST */
    method AppendList(add: Elem)
      requires Ordered() && order != [] && add !in order
      modifies this, add`next, add`prev, NodesOf(order)`next
      ensures Ordered() && order == old(order) + [add]
      ensures tbl == old(tbl).(tail := add) && chains == old(chains)
    {
      hide NoDup;
      assert Segment([add]) by {
        AloneNoDup(add);
      }
      LastOnce(order);
      ghost var was := order;
      add.next := null;
      add.prev := tbl.tail;
      tbl.tail.next := add;
      tbl := tbl.(tail := add);
      assert Segment(was) && Segment([add]);
      ApartFrom(was, add);
      JoinSegments(was, [add]);
      order := order + [add];
    }

    /** The handle lines and list lines of the insertion before iter in HASH_ADD_KEYPTR_BYHASHVALUE_INORDER. */
    method LinkBefore(iter: Elem, add: Elem, ghost i: nat)
      requires Ordered() && add !in order && i < |order| && order[i] == iter
      modifies this, add`next, add`prev, NodesOf(order)`next, NodesOf(order)`prev
      ensures Ordered() && order == InsertAt(old(order), i, add)
      ensures tbl == old(tbl) && chains == old(chains)
    {
      hide NoDup, Disjoint, InsertAt, Linked;
      LinkedIs(head, tbl.tail, order);
      ghost var a, b := SplitSegment(order, i);
      InsertedBetween(order, i, add, a, b);
      Apart(add, a, b);
      add.next := iter;
      add.prev := iter.prev;
      if add.prev != null {
        add.prev.next := add;
      } else {
        head := add;
      }
      iter.prev := add;
      assert Segment(a) && Segment(b);
      JoinAround(a, add, b);
      order := InsertAt(order, i, add);
      LinkedIs(head, tbl.tail, order);
    }

    /** What an addition does to the number of buckets and to the inhibition of expansion. */
    twostate predicate Grew(add: Elem)
      reads this, tbl.buckets
      requires old(order) != [] ==> old(1 <= |chains| && |chains| == tbl.buckets.Length)
    {
      if old(order) == [] then
        !tbl.noexpand && tbl.numBuckets == INITIAL_NUM_BUCKETS && tbl.ineffExpands == 0
      else
        && (old(tbl.noexpand) ==> tbl.noexpand)
        && (if old(Expands(tbl, BktOf(add, |chains|, hash))) then
              tbl.numBuckets == 2 * old(tbl.numBuckets) >= 1 && Rated(old(tbl), tbl, chains)
            else tbl == old(tbl).(numItems := tbl.numItems, tail := tbl.tail) && tbl.numItems == old(tbl.numItems) + 1)
    }

    /** The branch of the addition macros for an empty table. */
    method StartTable(add: Elem)
      requires head == null && order == []
      modifies this, add`next, add`prev
      ensures Ordered() && order == [add]
      ensures fresh(tbl.buckets) && fresh(tbl.bloomBv)
      ensures TableOk(tbl, chains, [], hash, bloom)
      ensures tbl.numBuckets == INITIAL_NUM_BUCKETS && !tbl.noexpand && tbl.ineffExpands == 0
      ensures |chains| == tbl.buckets.Length == INITIAL_NUM_BUCKETS
      ensures forall b | 0 <= b < tbl.buckets.Length :: tbl.buckets[b] == EMPTY_BUCKET
    {
      hide TableOk, NoDup;
      AloneNoDup(add);
      add.next := null;
      add.prev := null;
      tbl, chains := MakeTable(add, bloom, hash);
      head := add;
      order := [add];
    }

    /** The common last step of the additions: add is in the list already and goes into its bucket. */
    method Register(add: Elem, ghost was: seq<Elem>)
      requires Ordered() && order != [] && TableOk(tbl, chains, was, hash, bloom)
      requires add !in was && add.hashv == hash(add.key)
      requires Rearranged(was + [add], order)
      modifies this, tbl.buckets, tbl.bloomBv, NodesOf(was + [add])`hhNext, NodesOf(was + [add])`hhPrev
      ensures Valid() && order == old(order)
      ensures tbl.buckets == old(tbl.buckets) || fresh(tbl.buckets)
      ensures tbl.bloomBv == old(tbl.bloomBv)
      ensures old(1 <= |chains| == tbl.buckets.Length)
      ensures Growth(old(Expands(tbl, BktOf(add, |chains|, hash))), old(tbl), tbl, old(chains), chains, add, hash)
    {
      hide TableOk, Linked, NoDup, Growth, Rated, Expands, ToBkt, Rearranged;
      TableSizes(tbl, chains, was, hash, bloom);
      var t;
      ghost var cs;
      t, cs := AddToTable(tbl, add, bloom, chains, was, hash);
      PermutedTable(t, cs, was + [add], order, hash, bloom);
      tbl, chains := t, cs;
    }

    /** HASH_ADD_KEYPTR_BYHASHVALUE: append to the application order. */
    method Add(add: Elem)
      requires Valid() && add !in order
      modifies this, tbl.buckets, tbl.bloomBv, add`hashv
      modifies NodesOf(order + [add])`next, NodesOf(order + [add])`prev
      modifies NodesOf(order + [add])`hhNext, NodesOf(order + [add])`hhPrev
      ensures Valid() && order == old(order) + [add]
      ensures tbl.buckets == old(tbl.buckets) || fresh(tbl.buckets)
      ensures tbl.bloomBv == old(tbl.bloomBv) || fresh(tbl.bloomBv)
      ensures Grew(add)
    {
      LinkedIs(head, tbl.tail, order);
      hide TableOk, Linked, NoDup, ToBkt, Segment;
      ghost var was := order;
      AppendMembers(order, add);
      add.hashv := hash(add.key);
      if head == null {
        StartTable(add);
        assert was + [add] == [add];
      } else {
        ghost var t := tbl;
        AppendList(add);
        TailIrrelevant(t, add, chains, was, hash, bloom);
      }
      Register(add, was);
    }

    /** HASH_AKBI_INNER_LOOP: the first element that compares above add, or NULL. */
    method FindAbove(add: Elem, cmp: Comparison<Elem>) returns (iter: Elem?, ghost i: nat)
      requires Ordered() && order != []
      ensures i == UpperBound(order, add, cmp) && iter == At(order, i)
    {
      iter, i := head, 0;
      while iter != null
        invariant i <= |order| && iter == At(order, i)
        invariant forall j | 0 <= j < i :: cmp(order[j], add) <= 0
        decreases |order| - i
      {
        if cmp(iter, add) > 0 {
          break;
        }
        iter := iter.next;
        i := i + 1;
      }
      UpperBoundIs(order, add, cmp, i);
    }

    /** The list half of HASH_ADD_KEYPTR_BYHASHVALUE_INORDER. */
    method LinkInOrder(add: Elem, cmp: Comparison<Elem>)
      requires Ordered() && order != [] && add !in order
      modifies this, add`next, add`prev, NodesOf(order)`next, NodesOf(order)`prev
      ensures Ordered() && order == InsertAt(old(order), UpperBound(old(order), add, cmp), add)
      ensures tbl == old(tbl).(tail := tbl.tail) && chains == old(chains)
    {
      hide Segment, InsertAt, UpperBound;
      var iter;
      ghost var i;
      iter, i := FindAbove(add, cmp);
      if iter != null {
        LinkBefore(iter, add, i);
      } else {
        InsertedAtEnds(order, add);
        AppendList(add);
      }
    }

    /** HASH_ADD_KEYPTR_BYHASHVALUE_INORDER */
    method AddInOrder(add: Elem, cmp: Comparison<Elem>)
      requires Valid() && add !in order
      modifies this, tbl.buckets, tbl.bloomBv, add`hashv
      modifies NodesOf(order + [add])`next, NodesOf(order + [add])`prev
      modifies NodesOf(order + [add])`hhNext, NodesOf(order + [add])`hhPrev
      ensures Valid() && order == InsertAt(old(order), UpperBound(old(order), add, cmp), add)
      ensures tbl.buckets == old(tbl.buckets) || fresh(tbl.buckets)
      ensures tbl.bloomBv == old(tbl.bloomBv) || fresh(tbl.bloomBv)
      ensures Grew(add)
    {
      LinkedIs(head, tbl.tail, order);
      hide TableOk, Linked, NoDup, ToBkt, Segment, InsertAt, UpperBound;
      ghost var was := order;
      AppendMembers(order, add);
      add.hashv := hash(add.key);
      if head == null {
        StartTable(add);
        InsertedAtEnds(was, add);
        assert was + [add] == [add];
      } else {
        ghost var t := tbl;
        LinkInOrder(add, cmp);
        TailIrrelevant(t, tbl.tail, chains, was, hash, bloom);
      }
      InsertPermutes(was, UpperBound(was, add, cmp), add);
      Register(add, was);
    }

    /** HASH_FIND: an element with this key, if the table has one. */
    method Find(key: Key) returns (out: Elem?)
      requires Valid()
      ensures out != null ==> out in order && out.key == key
      ensures out == null ==> forall x | x in order :: x.key != key
    {
      out := null;
      if head != null {
        var hashv := hash(key);
        var bkt := ToBkt(hashv, tbl.numBuckets);
        var test := 1;
        if bloom.BloomBits? {
          test := BloomTest(tbl.bloomBv, hashv, bloom.nbits);
        }
        if test != 0 {
          assert Heads(tbl.buckets[..][bkt], chains[bkt]);
          out := FindInBkt(tbl.buckets[bkt], key, hashv, chains[bkt]);
          FirstMatchFinds(chains[bkt], key, hashv);
        }
      }
    }

    /** The list half of HASH_DELETE_HH, when more than one element is left. */
    method Unlink(del: Elem)
      requires Ordered() && del in order && |order| > 1
      modifies this, NodesOf(order)`next, NodesOf(order)`prev
      ensures Ordered() && order == Without(old(order), del)
      ensures tbl == old(tbl).(tail := tbl.tail) && chains == old(chains)
    {
      hide NoDup, Disjoint, IndexOf, RemoveAt, Linked;
      LinkedIs(head, tbl.tail, order);
      ghost var a, b := SplitAround(order, IndexOf(order, del));
      if del == tbl.tail {
        tbl := tbl.(tail := del.prev);
      }
      if del.prev != null {
        del.prev.next := del.next;
      } else {
        head := del.next;
      }
      if del.next != null {
        del.next.prev := del.prev;
      }
      assert Segment(a) && Segment(b);
      JoinedLinked(head, tbl.tail, a, b);
      order := a + b;
    }

    /** HASH_DELETE_HH */
    method Delete(del: Elem)
      requires Valid() && del in order
      modifies this, tbl.buckets, NodesOf(order)`next, NodesOf(order)`prev, NodesOf(order)`hhNext, NodesOf(order)`hhPrev
      ensures Valid() && order == Without(old(order), del)
      ensures tbl.buckets == old(tbl.buckets) && tbl.bloomBv == old(tbl.bloomBv)
      ensures tbl.numBuckets == old(tbl.numBuckets) && tbl.noexpand == old(tbl.noexpand)
      ensures order != [] ==>
                tbl == old(tbl).(numItems := tbl.numItems, tail := tbl.tail) && tbl.numItems == old(tbl.numItems) - 1
    {
      LinkedIs(head, tbl.tail, order);
      LinkedIs(null, tbl.tail, []);
      hide TableOk, Linked, NoDup, IndexOf, RemoveAt;
      ghost var was := order;
      if del.prev == null && del.next == null {
        OnlyElement(order, del);
        head := null;
        order := [];
      } else {
        NotOnlyElement(order, del);
        ghost var t := tbl;
        Unlink(del);
        TailIrrelevant(t, tbl.tail, chains, was, hash, bloom);
        tbl, chains := DelFromTable(tbl, del, bloom, chains, was, hash);
      }
    }

    lemma OrderNoDup()
      requires Valid()
      ensures NoDup(order)
    {
    }

    /** Where an element is: in the bucket that is the remainder of its hash value, and in no other. */
    lemma InItsBucket(x: Elem)
      requires Valid() && x in order
      ensures |chains| == tbl.numBuckets >= 1 && hash(x.key) % tbl.numBuckets < tbl.numBuckets
      ensures forall b | 0 <= b < tbl.numBuckets :: x in chains[b] <==> b == hash(x.key) % tbl.numBuckets
    {
      hide ToBkt, NoDup;
      PlacedByRemainder(chains, order, tbl.log2NumBuckets, hash);
    }

    /** Whether adding puts a struct into the table that is in it already. */
    ghost predicate Replaceable(add: Elem)
      reads this
    {
      add !in order || UniqueKeys(order)
    }

    /** HASH_REPLACE: the element that had the key, if any, is taken out, and add is appended. */
    method Replace(add: Elem) returns (replaced: Elem?)
      requires Valid() && Replaceable(add)
      modifies this, tbl.buckets, tbl.bloomBv, add`hashv
      modifies NodesOf(order + [add])`next, NodesOf(order + [add])`prev
      modifies NodesOf(order + [add])`hhNext, NodesOf(order + [add])`hhPrev
      ensures Valid()
      ensures if replaced == null then (forall x | x in old(order) :: x.key != add.key)
              else replaced in old(order) && replaced.key == add.key
      ensures order == (if replaced == null then old(order) else Without(old(order), replaced)) + [add]
      ensures tbl.buckets == old(tbl.buckets) || fresh(tbl.buckets)
      ensures tbl.bloomBv == old(tbl.bloomBv) || fresh(tbl.bloomBv)
      ensures old(order != [] && tbl.noexpand) && (replaced == null || old(|order|) > 1) ==>
                tbl.noexpand && tbl.numBuckets == old(tbl.numBuckets)
    {
      OrderNoDup();
      hide Valid, NoDup, IndexOf, RemoveAt;
      ghost var was := order;
      AppendMembers(order, add);
      replaced := Find(add.key);
      if replaced != null {
        TakenOut(was, replaced, add);
        RemovedLength(was, replaced);
        Delete(replaced);
      }
      AppendMembers(order, add);
      Add(add);
    }

    /** HASH_REPLACE_INORDER */
    method ReplaceInOrder(add: Elem, cmp: Comparison<Elem>) returns (replaced: Elem?)
      requires Valid() && Replaceable(add)
      modifies this, tbl.buckets, tbl.bloomBv, add`hashv
      modifies NodesOf(order + [add])`next, NodesOf(order + [add])`prev
      modifies NodesOf(order + [add])`hhNext, NodesOf(order + [add])`hhPrev
      ensures Valid()
      ensures if replaced == null then (forall x | x in old(order) :: x.key != add.key)
              else replaced in old(order) && replaced.key == add.key
      ensures order == var rest := if replaced == null then old(order) else Without(old(order), replaced);
                       InsertAt(rest, UpperBound(rest, add, cmp), add)
      ensures tbl.buckets == old(tbl.buckets) || fresh(tbl.buckets)
      ensures tbl.bloomBv == old(tbl.bloomBv) || fresh(tbl.bloomBv)
      ensures old(order != [] && tbl.noexpand) && (replaced == null || old(|order|) > 1) ==>
                tbl.noexpand && tbl.numBuckets == old(tbl.numBuckets)
    {
      OrderNoDup();
      hide Valid, NoDup, IndexOf, RemoveAt, InsertAt, UpperBound;
      ghost var was := order;
      AppendMembers(order, add);
      replaced := Find(add.key);
      if replaced != null {
        TakenOut(was, replaced, add);
        RemovedLength(was, replaced);
        Delete(replaced);
      }
      AppendMembers(order, add);
      AddInOrder(add, cmp);
    }

    /** HASH_SRT: sort the application order in place; no bucket chain is touched. */
    method Sort(cmp: Comparison<Elem>)
      requires Valid()
      modifies this, NodesOf(order)`next, NodesOf(order)`prev
      ensures Valid() && order == StableSort.Sort(old(order), cmp) && ByPasses(old(order), order, cmp)
      ensures chains == old(chains) && tbl == old(tbl).(tail := tbl.tail)
    {
      hide Linked, TableOk, StableSort.Sort, SortFrom, Pass, NoDup, Between, ByPasses;
      ListSort.SortStart(order, cmp);
      BeforePasses(order, cmp);
      LinkedIs(head, tbl.tail, order);
      if head != null {
        ghost var nodes, t := NodesOf(order), order;
        var list: Elem := head;
        var insize: nat, looping := 1, true;
        ghost var passes: nat := 0;
        while looping
          invariant Between(order, t, passes, insize, cmp) && (!looping ==> ByPasses(order, t, cmp))
          invariant 1 <= insize && t != [] && |t| == |order| && Within(t, nodes)
          invariant tbl == old(tbl).(tail := tbl.tail) && chains == old(chains) && order == old(order)
          invariant Linked(list, t[|t| - 1], t)
          invariant if looping then SortFrom(t, insize, cmp) == StableSort.Sort(order, cmp)
                    else t == StableSort.Sort(order, cmp) && head == list && tbl.tail == t[|t| - 1]
          decreases looping, |order| - insize
        {
          ListSort.SortFromStep(t, insize, cmp);
          OnePassMore(order, t, passes, insize, cmp);
          var tail, nmerges;
          LinkedForSort(list, t);
          list, tail, nmerges, t := ListSort.SortPass(ListSort.Doubly, list, insize, cmp, nodes, t);
          tail.next := null;
          BuiltIsLinked(list, tail, t);
          if nmerges <= 1 {
            looping := false;
            tbl := tbl.(tail := tail);
            head := list;
          }
          insize, passes := insize * 2, passes + 1;
        }
        SortRearranges(order, cmp);
        PermutedTable(old(tbl), chains, order, t, hash, bloom);
        TailIrrelevant(old(tbl), tbl.tail, chains, t, hash, bloom);
        order := t;
      }
    }

    // --- the integrity check ---

    /** Following the forward links from the heads visits order and chains and then stops. */
    ghost predicate Walkable()
      reads this, tbl.buckets, order`next, set b, i | 0 <= b < |chains| && 0 <= i < |chains[b]| :: chains[b][i]
    {
      && head == At(order, 0)
      && (forall j {:trigger order[j].next} | 0 <= j < |order| :: order[j].next == At(order, j + 1))
      && tbl.numBuckets == tbl.buckets.Length == |chains|
      && forall b | 0 <= b < |chains| :: tbl.buckets[b].hhHead == At(chains[b], 0) && Intact(chains[b], 0)
    }

    /** The conditions of HASH_FSCK, for a table that is not empty. */
    ghost predicate Sound()
      requires |chains| == tbl.buckets.Length
      reads this, tbl.buckets, order`prev, set b, i | 0 <= b < |chains| && 0 <= i < |chains[b]| :: chains[b][i]
    {
      && (forall b | 0 <= b < |chains| :: BackChained(chains[b], |chains[b]|) && tbl.buckets[b].count == |chains[b]|)
      && tbl.numItems == |Flatten(chains)|
      && BackOrdered(order, |order|)
      && tbl.numItems == |order|
    }

    /** HASH_FSCK: true when no check of it fails. */
    method Fsck() returns (ok: bool)
      requires Walkable()
      ensures ok <==> head == null || Sound()
    {
      hide Flatten;
      if head == null {
        return true;
      }
      ok := true;
      var count := 0;
      FlattenStart(chains);
      for i := 0 to tbl.numBuckets
        invariant ok <==> forall b | 0 <= b < i ::
                            BackChained(chains[b], |chains[b]|) && tbl.buckets[b].count == |chains[b]|
        invariant count == |Flatten(chains[..i])|
      {
        var good, n := FsckBucket(tbl.buckets[i], chains[i]);
        FlattenStep(chains, i);
        ok := ok && good;
        count := count + n;
      }
      if count != tbl.numItems {
        ok := false;
      }
      count := 0;
      var prev: Elem?, thh := null, head;
      while thh != null
        invariant count <= |order| && thh == At(order, count)
        invariant prev == if count == 0 then null else order[count - 1]
        invariant ok <==>
                    && (forall b | 0 <= b < |chains| ::
                          BackChained(chains[b], |chains[b]|) && tbl.buckets[b].count == |chains[b]|)
                    && tbl.numItems == |Flatten(chains)|
                    && BackOrdered(order, count)
        decreases |order| - count
      {
        if prev != thh.prev {
          ok := false;
        }
        count := count + 1;
        prev := thh;
        thh := thh.next;
      }
      if count != tbl.numItems {
        ok := false;
      }
    }

    /** Every operation leaves a table that HASH_FSCK finds nothing wrong with. */
    lemma ValidIsSound()
      requires Valid() && order != []
      ensures Walkable() && Sound()
    {
      ChainsNoDup(tbl.buckets[..], chains, NodesOf(order));
      ChainsHoldOrder(chains, order, hash);
      hide NoDup, Placed, Flatten;
      forall b | 0 <= b < |chains|
        ensures tbl.buckets[b].hhHead == At(chains[b], 0) && Intact(chains[b], 0)
        ensures BackChained(chains[b], |chains[b]|) && tbl.buckets[b].count == |chains[b]|
      {
        assert Heads(tbl.buckets[..][b], chains[b]);
      }
    }
  }

  lemma AloneNoDup(x: Elem)
    ensures NoDup([x])
  {
  }

  /** The tail pointer plays no part in what the buckets must satisfy. */
  lemma TailIrrelevant(tbl: Table, x: Elem?, chains: seq<seq<Elem>>, ord: seq<Elem>, hash: HashFunction, bloom: Bloom)
    requires TableOk(tbl, chains, ord, hash, bloom)
    ensures TableOk(tbl.(tail := x), chains, ord, hash, bloom)
  {
    hide Chained, Bloomed, BoundedBy, Pow2;
  }

  lemma InsertPermutes(s: seq<Elem>, i: nat, x: Elem)
    requires i <= |s|
    ensures Rearranged(s + [x], InsertAt(s, i, x))
  {
    assert s == s[..i] + s[i..];
  }

  lemma TableSizes(tbl: Table, chains: seq<seq<Elem>>, ord: seq<Elem>, hash: HashFunction, bloom: Bloom)
    requires TableOk(tbl, chains, ord, hash, bloom)
    ensures 1 <= |chains| == tbl.buckets.Length
  {
  }

  lemma OnlyElement(s: seq<Elem>, x: Elem)
    requires Segment(s) && x in s && s[0].prev == null && Last(s).next == null
    requires x.prev == null && x.next == null
    ensures Without(s, x) == [] && NoDup<Elem>([])
  {
    var i := IndexOf(s, x);
    assert i == 0 && i == |s| - 1;
  }

  lemma NotOnlyElement(s: seq<Elem>, x: Elem)
    requires Segment(s) && x in s && s[0].prev == null && Last(s).next == null
    requires x.prev != null || x.next != null
    ensures |s| > 1 && Without(s, x) != []
  {
    var i := IndexOf(s, x);
    assert s[i] == x;
  }

  lemma RemovedLength(s: seq<Elem>, x: Elem)
    requires x in s
    ensures |Without(s, x)| == |s| - 1
  {
  }

  lemma TakenOut(s: seq<Elem>, x: Elem, add: Elem)
    requires NoDup(s) && x in s && x.key == add.key
    requires add !in s || UniqueKeys(s)
    ensures add !in Without(s, x)
    ensures forall y | y in Without(s, x) :: y in s
  {
    RemovedMembers(s, x);
    if add in s {
      var i :| 0 <= i < |s| && s[i] == x;
      var j :| 0 <= j < |s| && s[j] == add;
      assert i == j;
    }
  }

  lemma LinkedForSort(list: Elem?, t: seq<Elem>)
    requires t != [] && Linked(list, t[|t| - 1], t)
    ensures NoDup(t) && list == t[0] && ListSort.LinkedFrom(ListSort.Doubly, t, 0)
  {
  }

  lemma BuiltIsLinked(list: Elem, tail: Elem, t: seq<Elem>)
    requires t != [] && NoDup(t) && list == t[0] && tail == t[|t| - 1]
    requires forall j {:trigger t[j].next} | 0 <= j < |t| - 1 :: t[j].next == t[j + 1]
    requires forall j {:trigger t[j].prev} | 1 <= j < |t| :: t[j].prev == t[j - 1]
    requires t[0].prev == null && tail.next == null
    ensures Linked(list, tail, t)
  {
  }

  lemma SortRearranges(s: seq<Elem>, cmp: Comparison<Elem>)
    ensures Rearranged(s, StableSort.Sort(s, cmp))
  {
    SortPermutes(s, cmp);
  }

  lemma LastOnce(s: seq<Elem>)
    requires NoDup(s) && s != []
    ensures forall j | 0 <= j < |s| - 1 :: s[j] != Last(s)
  {
  }

  lemma ApartFrom(s: seq<Elem>, x: Elem)
    requires x !in s
    ensures Disjoint(s, [x])
  {
  }
}
