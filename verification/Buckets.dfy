/**
  The bucket side of uthash.h: chains of handles linked by hh_next and hh_prev, the
  bucket array that heads them, and their redistribution over twice as many buckets.
 */
module Buckets {
  import opened Element
  import opened StableSort
  import opened Segments
  import opened Bits

  /** UT_hash_bucket */
  datatype Bucket = Bucket(hhHead: Elem?, count: nat, expandMult: nat)

  const EMPTY_BUCKET := Bucket(null, 0, 0)

  /** HASH_BKT_CAPACITY_THRESH */
  const CAPACITY_THRESH := 10

  type HashFunction = Key -> nat

  /** HASH_TO_BKT */
  function ToBkt(hashv: nat, numBuckets: nat): (bkt: nat)
    requires 1 <= numBuckets
    ensures bkt < numBuckets
  {
    BitAnd(hashv, numBuckets - 1)
  }

  /** The bucket is the remainder of the hash value by the number of buckets. */
  lemma BucketIsRemainder(hashv: nat, k: nat)
    ensures ToBkt(hashv, Pow2(k)) == hashv % Pow2(k)
  {
    MaskIsRemainder(hashv, k);
  }

  // --- chains ---

  ghost predicate Chain(c: seq<Elem>)
    reads c`hhNext, c`hhPrev
  {
    && NoDup(c)
    && (forall j {:trigger c[j].hhNext} | 0 <= j < |c| :: c[j].hhNext == At(c, j + 1))
    && (forall j {:trigger c[j].hhPrev} | 0 <= j < |c| :: c[j].hhPrev == (if j == 0 then null else c[j - 1]))
  }

  /** The bucket record b heads the chain c and counts it. */
  ghost predicate Heads(b: Bucket, c: seq<Elem>)
    reads c`hhNext, c`hhPrev
  {
    b.hhHead == At(c, 0) && b.count == |c| && Chain(c)
  }

  /** The linking lines that HASH_ADD_TO_BKT and HASH_EXPAND_BUCKETS share: e becomes the chain's head. */
  method PushChain(b: Bucket, e: Elem, ghost c: seq<Elem>) returns (b': Bucket)
    requires Heads(b, c) && e !in c
    modifies e`hhNext, e`hhPrev, (if b.hhHead == null then {} else {b.hhHead})`hhPrev
    ensures Heads(b', [e] + c) && b'.expandMult == b.expandMult
  {
    e.hhNext := b.hhHead;
    e.hhPrev := null;
    if b.hhHead != null {
      b.hhHead.hhPrev := e;
    }
    b' := Bucket(e, b.count + 1, b.expandMult);
  }

  lemma ChainAround(c: seq<Elem>, i: nat)
    requires Chain(c) && i < |c|
    ensures NoDup(RemoveAt(c, i)) && |RemoveAt(c, i)| == |c| - 1
    ensures forall j {:trigger RemoveAt(c, i)[j]} | 0 <= j < |c| - 1 ::
              RemoveAt(c, i)[j] == c[if j < i then j else j + 1]
    ensures forall j | 0 <= j < |c| && j != i :: c[j] != c[i]
    ensures 0 < i ==> forall j | 0 <= j < |c| && j != i - 1 :: c[j] != c[i - 1]
    ensures i + 1 < |c| ==> forall j | 0 <= j < |c| && j != i + 1 :: c[j] != c[i + 1]
  {
  }

  /** HASH_DEL_IN_BKT */
  method DelInBkt(b: Bucket, del: Elem, ghost c: seq<Elem>) returns (b': Bucket)
    requires Heads(b, c) && del in c
    modifies c`hhNext, c`hhPrev
    ensures Heads(b', RemoveAt(c, IndexOf(c, del))) && b'.expandMult == b.expandMult
  {
    ghost var i := IndexOf(c, del);
    ChainAround(c, i);
    hide RemoveAt, IndexOf, NoDup;
    b' := b.(count := b.count - 1);
    if b'.hhHead == del {
      b' := b'.(hhHead := del.hhNext);
    }
    if del.hhPrev != null {
      del.hhPrev.hhNext := del.hhNext;
    }
    if del.hhNext != null {
      del.hhNext.hhPrev := del.hhPrev;
    }
    ghost var d := RemoveAt(c, i);
    assert forall j {:trigger d[j].hhNext} | 0 <= j < |d| :: d[j].hhNext == At(d, j + 1);
    assert forall j {:trigger d[j].hhPrev} | 0 <= j < |d| :: d[j].hhPrev == (if j == 0 then null else d[j - 1]);
  }

  /** HASH_FIND_IN_BKT: the first handle of the chain with this hash value and key, or NULL. */
  method FindInBkt(b: Bucket, key: Key, hashv: nat, ghost c: seq<Elem>) returns (out: Elem?)
    requires Heads(b, c)
    ensures out == FirstMatch(c, key, hashv)
  {
    out := b.hhHead;
    ghost var i := 0;
    while out != null
      invariant i <= |c| && out == At(c, i)
      invariant FirstMatch(c[i..], key, hashv) == FirstMatch(c, key, hashv)
      decreases |c| - i
    {
      if out.hashv == hashv && |out.key| == |key| {
        if out.key == key {
          break;
        }
      }
      out := out.hhNext;
      i := i + 1;
    }
  }

  ghost function FirstMatch(c: seq<Elem>, key: Key, hashv: nat): Elem?
    reads c`hashv
  {
    if c == [] then null
    else if c[0].hashv == hashv && c[0].key == key then c[0]
    else FirstMatch(c[1..], key, hashv)
  }

  lemma {:induction false} FirstMatchFinds(c: seq<Elem>, key: Key, hashv: nat)
    ensures var out := FirstMatch(c, key, hashv);
            if out == null then forall x | x in c :: !(x.hashv == hashv && x.key == key)
            else out in c && out.hashv == hashv && out.key == key
  {
    if c != [] {
      FirstMatchFinds(c[1..], key, hashv);
    }
  }

  // --- the bucket array ---

  /** The bucket that an element's key selects. */
  ghost function BktOf(x: Elem, n: nat, hash: HashFunction): (b: nat)
    requires 1 <= n
    ensures b < n
  {
    ToBkt(hash(x.key), n)
  }

  ghost predicate AllHead(bs: seq<Bucket>, chains: seq<seq<Elem>>, nodes: set<Elem>)
    reads nodes`hhNext, nodes`hhPrev
  {
    && |bs| == |chains|
    && forall b | 0 <= b < |bs| :: Within(chains[b], nodes) && Heads(bs[b], chains[b])
  }

  /** Every element of order is in the chain its key selects, and the chains hold nothing else. */
  ghost predicate Placed(chains: seq<seq<Elem>>, order: seq<Elem>, hash: HashFunction) {
    && 1 <= |chains|
    && (forall x | x in order :: x in chains[BktOf(x, |chains|, hash)])
    && (forall b, x | 0 <= b < |chains| && x in chains[b] :: x in order && BktOf(x, |chains|, hash) == b)
  }

  ghost function Flatten(chains: seq<seq<Elem>>): seq<Elem> {
    if chains == [] then [] else Flatten(chains[..|chains| - 1]) + chains[|chains| - 1]
  }

  // --- redistribution ---

  /** What chain j of n becomes when the elements of trav are pushed, in this order, onto their chains. */
  ghost function Dist(trav: seq<Elem>, j: nat, n: nat, hash: HashFunction): (c: seq<Elem>)
    requires 1 <= n
    ensures forall x | x in c :: x in trav && BktOf(x, n, hash) == j
  {
    if trav == [] then []
    else
      var x, front := trav[|trav| - 1], trav[..|trav| - 1];
      if BktOf(x, n, hash) == j then [x] + Dist(front, j, n, hash) else Dist(front, j, n, hash)
  }

  /** The expand_mult that a bucket has after its count has risen from zero to count. */
  ghost function ExpandMult(count: nat, ideal: nat): nat {
    if count == 0 then 0
    else
      var m := ExpandMult(count - 1, ideal);
      if count > ideal && count > m * ideal then m + 1 else m
  }

  function Excess(count: nat, ideal: nat): nat {
    if count > ideal then count - ideal else 0
  }

  /** Elements beyond the ideal length, summed over the chains below j. */
  ghost function SumExcess(trav: seq<Elem>, j: nat, n: nat, ideal: nat, hash: HashFunction): nat
    requires j <= n && 1 <= n
  {
    if j == 0 then 0
    else SumExcess(trav, j - 1, n, ideal, hash) + Excess(|Dist(trav, j - 1, n, hash)|, ideal)
  }

  ghost predicate Spread(bs: seq<Bucket>, trav: seq<Elem>, ideal: nat, hash: HashFunction, nodes: set<Elem>)
    reads nodes`hhNext, nodes`hhPrev
  {
    && 1 <= |bs|
    && Within(trav, nodes)
    && forall j | 0 <= j < |bs| ::
         && Heads(bs[j], Dist(trav, j, |bs|, hash))
         && bs[j].expandMult == ExpandMult(bs[j].count, ideal)
  }

  lemma DistStep(trav: seq<Elem>, e: Elem, j: nat, n: nat, hash: HashFunction)
    requires 1 <= n
    ensures Dist(trav + [e], j, n, hash) == (if BktOf(e, n, hash) == j then [e] else []) + Dist(trav, j, n, hash)
  {
    assert (trav + [e])[..|trav|] == trav;
  }

  lemma {:induction false} SumExcessStep(trav: seq<Elem>, e: Elem, j: nat, n: nat, ideal: nat, hash: HashFunction)
    requires 1 <= n && j <= n
    ensures SumExcess(trav + [e], j, n, ideal, hash) == SumExcess(trav, j, n, ideal, hash)
              + (if BktOf(e, n, hash) < j && |Dist(trav, BktOf(e, n, hash), n, hash)| >= ideal then 1 else 0)
  {
    if j > 0 {
      SumExcessStep(trav, e, j - 1, n, ideal, hash);
      DistStep(trav, e, j - 1, n, hash);
    }
  }

  lemma ExpandMultStep(count: nat, ideal: nat)
    ensures var m := ExpandMult(count, ideal);
            ExpandMult(count + 1, ideal) == if count + 1 > ideal && count + 1 > m * ideal then m + 1 else m
  {
  }

  /** The inner loop body of HASH_EXPAND_BUCKETS: hang one element into its new bucket. */
  method Rehang(newBuckets: array<Bucket>, e: Elem, ideal: nat, nonideal: nat,
                ghost trav: seq<Elem>, ghost hash: HashFunction, ghost nodes: set<Elem>)
    returns (nonideal': nat)
    requires Spread(newBuckets[..], trav, ideal, hash, nodes)
    requires e in nodes && e !in trav && e.hashv == hash(e.key)
    modifies newBuckets, e`hhNext, e`hhPrev, nodes`hhPrev
    ensures Spread(newBuckets[..], trav + [e], ideal, hash, nodes)
    ensures nonideal' == nonideal
              + (if |Dist(trav, BktOf(e, newBuckets.Length, hash), newBuckets.Length, hash)| >= ideal then 1 else 0)
  {
    hide Dist, ExpandMult, NoDup, ToBkt;
    ghost var n := newBuckets.Length;
    var bkt := ToBkt(e.hashv, newBuckets.Length);
    ghost var c := Dist(trav, bkt, n, hash);
    var b := newBuckets[bkt];
    assert newBuckets[..][bkt] == b;
    ExpandMultStep(b.count, ideal);
    nonideal' := nonideal;
    if b.count + 1 > ideal {
      nonideal' := nonideal' + 1;
      if b.count + 1 > b.expandMult * ideal {
        b := b.(expandMult := b.expandMult + 1);
      }
    }
    b := PushChain(b, e, c);
    newBuckets[bkt] := b;
    forall j | 0 <= j < n
      ensures Heads(newBuckets[j], Dist(trav + [e], j, n, hash))
      ensures newBuckets[j].expandMult == ExpandMult(newBuckets[j].count, ideal)
    {
      DistStep(trav, e, j, n, hash);
      if j == bkt {
        assert Dist(trav + [e], j, n, hash) == [e] + c;
      } else {
        ghost var d := Dist(trav, j, n, hash);
        assert [] + d == d;
        assert forall i | 0 <= i < |d| :: d[i] in d && d[i] != e;
        assert c != [] ==> c[0] in c && forall i | 0 <= i < |d| :: d[i] != c[0];
      }
    }
  }

  lemma MulStep(a: int, i: int)
    ensures (a + 1) * i == a * i + i
  {
  }

  /** How expand_mult relates to the chain length: the bounded-chain argument of the comments. */
  lemma {:induction false} ExpandMultBounds(count: nat, ideal: nat)
    ensures ExpandMult(count, ideal) > 0 <==> count > ideal
    ensures count <= (ExpandMult(count, ideal) + 1) * ideal || ideal == 0
    ensures count > ideal ==> (ExpandMult(count, ideal) - 1) * ideal < count
  {
    if count > 0 {
      ExpandMultBounds(count - 1, ideal);
      var m := ExpandMult(count - 1, ideal);
      MulStep(m - 1, ideal);
      MulStep(m, ideal);
      MulStep(m + 1, ideal);
      if count > ideal && count > m * ideal {
        assert ExpandMult(count, ideal) == m + 1;
      } else {
        assert ExpandMult(count, ideal) == m;
      }
    }
  }

  // --- walking the old buckets ---

  /** The chain's forward links from position k on. */
  ghost predicate Intact(c: seq<Elem>, k: nat)
    reads c`hhNext
  {
    forall i {:trigger c[i].hhNext} | k <= i < |c| :: c[i].hhNext == At(c, i + 1)
  }

  ghost predicate Hashed(s: seq<Elem>, hash: HashFunction)
    reads s`hashv
  {
    forall x | x in s :: x.hashv == hash(x.key)
  }

  ghost predicate Avoids(s: seq<Elem>, t: seq<Elem>) {
    forall x | x in s :: x !in t
  }

  lemma TakeOne(trav: seq<Elem>, c: seq<Elem>, k: nat)
    requires k < |c|
    ensures trav + c[..k + 1] == trav + c[..k] + [c[k]]
  {
  }

  lemma TakeAll(trav: seq<Elem>, c: seq<Elem>)
    ensures trav + c[..0] == trav && trav + c[..|c|] == trav + c
  {
  }

  lemma NotYetTaken(trav: seq<Elem>, c: seq<Elem>, k: nat)
    requires NoDup(c) && Avoids(c, trav) && k < |c|
    ensures c[k] !in trav + c[..k] && c[k] in c
  {
  }

  /** The while loop of HASH_EXPAND_BUCKETS: empty one old chain into the new buckets. */
  method RehangChain(first: Elem?, newBuckets: array<Bucket>, ideal: nat, nonideal0: nat, ghost c: seq<Elem>,
                     ghost trav: seq<Elem>, ghost hash: HashFunction, ghost nodes: set<Elem>)
    returns (nonideal: nat)
    requires first == At(c, 0) && NoDup(c) && Intact(c, 0) && Hashed(c, hash)
    requires Within(c, nodes) && Avoids(c, trav) && 1 <= newBuckets.Length
    requires Spread(newBuckets[..], trav, ideal, hash, nodes)
    requires nonideal0 == SumExcess(trav, newBuckets.Length, newBuckets.Length, ideal, hash)
    modifies newBuckets, c`hhNext, c`hhPrev, nodes`hhPrev
    ensures Spread(newBuckets[..], trav + c, ideal, hash, nodes)
    ensures nonideal == SumExcess(trav + c, newBuckets.Length, newBuckets.Length, ideal, hash)
  {
    hide Spread, SumExcess, NoDup, Dist, ExpandMult;
    nonideal := nonideal0;
    var thh := first;
    ghost var k := 0;
    TakeAll(trav, c);
    while thh != null
      invariant k <= |c| && thh == At(c, k)
      invariant Intact(c, k) && Hashed(c, hash)
      invariant Spread(newBuckets[..], trav + c[..k], ideal, hash, nodes)
      invariant nonideal == SumExcess(trav + c[..k], newBuckets.Length, newBuckets.Length, ideal, hash)
      decreases |c| - k
    {
      var nxt := thh.hhNext;
      NotYetTaken(trav, c, k);
      TakeOne(trav, c, k);
      SumExcessStep(trav + c[..k], thh, newBuckets.Length, newBuckets.Length, ideal, hash);
      LaterOnes(c, k);
      nonideal := Rehang(newBuckets, thh, ideal, nonideal, trav + c[..k], hash, nodes);
      thh := nxt;
      k := k + 1;
    }
  }

  lemma LaterOnes(c: seq<Elem>, k: nat)
    requires NoDup(c) && k < |c|
    ensures forall i | k < i < |c| :: c[i] != c[k]
  {
  }

  lemma FlattenStep(chains: seq<seq<Elem>>, b: nat)
    requires b < |chains|
    ensures Flatten(chains[..b + 1]) == Flatten(chains[..b]) + chains[b]
  {
    assert chains[..b + 1][..b] == chains[..b];
  }

  lemma {:induction false} FlattenMembers(chains: seq<seq<Elem>>, b: nat, x: Elem)
    requires b <= |chains|
    ensures x in Flatten(chains[..b]) <==> exists i | 0 <= i < b :: x in chains[i]
  {
    if b > 0 {
      FlattenStep(chains, b - 1);
      FlattenMembers(chains, b - 1, x);
    }
  }

  lemma PlacedApart(chains: seq<seq<Elem>>, order: seq<Elem>, hash: HashFunction, b: nat)
    requires Placed(chains, order, hash) && b < |chains|
    ensures Avoids(chains[b], Flatten(chains[..b]))
    ensures forall b', i | b < b' < |chains| && 0 <= i < |chains[b']| :: chains[b'][i] !in chains[b]
  {
    forall x | x in chains[b]
      ensures x !in Flatten(chains[..b])
    {
      assert BktOf(x, |chains|, hash) == b;
      assert forall i | 0 <= i < |chains| && x in chains[i] :: BktOf(x, |chains|, hash) == i;
      FlattenMembers(chains, b, x);
    }
    forall b', i | b < b' < |chains| && 0 <= i < |chains[b']|
      ensures chains[b'][i] !in chains[b]
    {
      var x := chains[b'][i];
      assert x in chains[b'] && BktOf(x, |chains|, hash) == b';
      assert forall i | 0 <= i < |chains| && x in chains[i] :: BktOf(x, |chains|, hash) == i;
    }
  }

  /** Both loops of HASH_EXPAND_BUCKETS: every element of the old buckets goes to its new one. */
  method Redistribute(buckets: array<Bucket>, newBuckets: array<Bucket>, ideal: nat,
                      ghost chains: seq<seq<Elem>>, ghost order: seq<Elem>,
                      ghost hash: HashFunction, ghost nodes: set<Elem>)
    returns (nonideal: nat)
    requires buckets != newBuckets && newBuckets.Length == 2 * buckets.Length
    requires forall j | 0 <= j < newBuckets.Length :: newBuckets[j] == EMPTY_BUCKET
    requires AllHead(buckets[..], chains, nodes) && Placed(chains, order, hash) && Hashed(order, hash)
    requires Within(order, nodes)
    modifies newBuckets, nodes`hhNext, nodes`hhPrev
    ensures Spread(newBuckets[..], Flatten(chains), ideal, hash, nodes)
    ensures nonideal == SumExcess(Flatten(chains), newBuckets.Length, newBuckets.Length, ideal, hash)
  {
    hide SumExcess, NoDup, ExpandMult, Dist;
    nonideal := 0;
    EmptySpread(newBuckets.Length, ideal, hash);
    assert chains[..0] == [];
    assert forall j | 0 <= j < newBuckets.Length :: newBuckets[..][j] == EMPTY_BUCKET;
    for i := 0 to buckets.Length
      invariant forall j | i <= j < buckets.Length :: Intact(chains[j], 0) && buckets[j].hhHead == At(chains[j], 0)
      invariant Hashed(order, hash)
      invariant Spread(newBuckets[..], Flatten(chains[..i]), ideal, hash, nodes)
      invariant nonideal == SumExcess(Flatten(chains[..i]), newBuckets.Length, newBuckets.Length, ideal, hash)
    {
      PlacedApart(chains, order, hash, i);
      FlattenStep(chains, i);
      nonideal := RehangChain(buckets[i].hhHead, newBuckets, ideal, nonideal, chains[i],
                              Flatten(chains[..i]), hash, nodes);
    }
    assert chains[..buckets.Length] == chains;
  }

  lemma {:induction false} EmptyExcess(j: nat, n: nat, ideal: nat, hash: HashFunction)
    requires 1 <= n && j <= n
    ensures SumExcess([], j, n, ideal, hash) == 0
  {
    if j > 0 {
      EmptyExcess(j - 1, n, ideal, hash);
    }
  }

  lemma EmptySpread(n: nat, ideal: nat, hash: HashFunction)
    requires 1 <= n
    ensures forall j | 0 <= j < n :: Dist([], j, n, hash) == []
    ensures ExpandMult(0, ideal) == 0
    ensures SumExcess([], n, n, ideal, hash) == 0
    ensures Flatten([]) == [] && Heads(EMPTY_BUCKET, [])
  {
    EmptyExcess(n, n, ideal, hash);
  }

  // --- what the chains hold together ---

  lemma {:induction false} FlattenNoDup(chains: seq<seq<Elem>>, order: seq<Elem>, hash: HashFunction, b: nat)
    requires Placed(chains, order, hash) && b <= |chains|
    requires forall i | 0 <= i < |chains| :: NoDup(chains[i])
    ensures NoDup(Flatten(chains[..b]))
  {
    if b > 0 {
      FlattenNoDup(chains, order, hash, b - 1);
      FlattenStep(chains, b - 1);
      PlacedApart(chains, order, hash, b - 1);
      ConcatNoDup(Flatten(chains[..b - 1]), chains[b - 1]);
    }
  }

  lemma ConcatNoDup(a: seq<Elem>, b: seq<Elem>)
    requires NoDup(a) && NoDup(b) && Avoids(b, a)
    ensures NoDup(a + b)
  {
    forall i, j | 0 <= i < j < |a + b|
      ensures (a + b)[i] != (a + b)[j]
    {
      if i < |a| <= j {
        assert b[j - |a|] in b;
      }
    }
  }

  lemma SameMembersSameMultiset(s: seq<Elem>, t: seq<Elem>)
    requires NoDup(s) && NoDup(t)
    requires forall x :: x in s <==> x in t
    ensures multiset(s) == multiset(t) && |s| == |t|
  {
    forall x
      ensures multiset(s)[x] == multiset(t)[x]
    {
      NoDupCount(s, x);
      NoDupCount(t, x);
      assert x in multiset(s) <==> x in s;
      assert x in multiset(t) <==> x in t;
    }
    assert multiset(s) == multiset(t);
    assert |multiset(s)| == |s| && |multiset(t)| == |t|;
  }

  /** The chains together hold each element of the table exactly once. */
  lemma ChainsHoldOrder(chains: seq<seq<Elem>>, order: seq<Elem>, hash: HashFunction)
    requires Placed(chains, order, hash) && NoDup(order)
    requires forall i | 0 <= i < |chains| :: NoDup(chains[i])
    ensures NoDup(Flatten(chains))
    ensures multiset(Flatten(chains)) == multiset(order) && |Flatten(chains)| == |order|
  {
    assert chains[..|chains|] == chains;
    FlattenNoDup(chains, order, hash, |chains|);
    forall x
      ensures x in Flatten(chains) <==> x in order
    {
      FlattenMembers(chains, |chains|, x);
    }
    SameMembersSameMultiset(Flatten(chains), order);
  }

  // --- placement under the table operations ---

  lemma PlacedAfterAdd(chains: seq<seq<Elem>>, order: seq<Elem>, e: Elem, order': seq<Elem>, hash: HashFunction)
    requires Placed(chains, order, hash)
    requires forall x :: x in order' <==> x in order || x == e
    ensures var b := BktOf(e, |chains|, hash);
            Placed(chains[b := [e] + chains[b]], order', hash)
  {
    var b := BktOf(e, |chains|, hash);
    var c := [e] + chains[b];
    assert forall x :: x in c <==> x == e || x in chains[b];
  }

  lemma RemovedMembers(s: seq<Elem>, x: Elem)
    requires NoDup(s) && x in s
    ensures var r := RemoveAt(s, IndexOf(s, x));
            && NoDup(r) && |r| == |s| - 1
            && (forall y :: y in r <==> y in s && y != x)
  {
    var i := IndexOf(s, x);
    var r := RemoveAt(s, i);
    forall y
      ensures y in r <==> y in s && y != x
    {
      if y in s && y != x {
        var k :| 0 <= k < |s| && s[k] == y;
        assert r[if k < i then k else k - 1] == y;
      }
    }
  }

  lemma PlacedAfterDelete(chains: seq<seq<Elem>>, order: seq<Elem>, e: Elem, order': seq<Elem>, hash: HashFunction)
    requires Placed(chains, order, hash) && e in order
    requires forall i | 0 <= i < |chains| :: NoDup(chains[i])
    requires forall x :: x in order' <==> x in order && x != e
    ensures var b := BktOf(e, |chains|, hash);
            && e in chains[b]
            && Placed(chains[b := RemoveAt(chains[b], IndexOf(chains[b], e))], order', hash)
  {
    var b := BktOf(e, |chains|, hash);
    RemovedMembers(chains[b], e);
    hide RemoveAt, IndexOf, NoDup;
    var c := RemoveAt(chains[b], IndexOf(chains[b], e));
    var chains' := chains[b := c];
    forall x | x in order'
      ensures x in chains'[BktOf(x, |chains'|, hash)]
    {
      assert x in chains[BktOf(x, |chains|, hash)];
    }
    forall i, x | 0 <= i < |chains'| && x in chains'[i]
      ensures x in order' && BktOf(x, |chains'|, hash) == i
    {
      assert x in chains[i] && x != e;
    }
  }

  /** All the chains that pushing the elements of trav in order produces. */
  ghost function DistAll(trav: seq<Elem>, n: nat, hash: HashFunction): (chains: seq<seq<Elem>>)
    requires 1 <= n
    ensures |chains| == n && forall j | 0 <= j < n :: chains[j] == Dist(trav, j, n, hash)
  {
    seq(n, j requires 0 <= j < n => Dist(trav, j, n, hash))
  }

  lemma {:induction false} DistHolds(trav: seq<Elem>, x: Elem, n: nat, hash: HashFunction)
    requires 1 <= n && x in trav
    ensures x in Dist(trav, BktOf(x, n, hash), n, hash)
  {
    var y, front := trav[|trav| - 1], trav[..|trav| - 1];
    assert trav == front + [y];
    if x != y {
      DistHolds(front, x, n, hash);
    }
  }

  lemma {:induction false} DistNoDup(trav: seq<Elem>, j: nat, n: nat, hash: HashFunction)
    requires 1 <= n && NoDup(trav)
    ensures NoDup(Dist(trav, j, n, hash))
  {
    if trav != [] {
      DistNoDup(trav[..|trav| - 1], j, n, hash);
    }
  }

  lemma PlacedAnew(trav: seq<Elem>, order: seq<Elem>, n: nat, hash: HashFunction)
    requires 1 <= n
    requires forall x :: x in trav <==> x in order
    ensures Placed(DistAll(trav, n, hash), order, hash)
  {
    forall x | x in order
      ensures x in DistAll(trav, n, hash)[BktOf(x, n, hash)]
    {
      DistHolds(trav, x, n, hash);
    }
  }

  /** Every element is in the bucket that is the remainder of its hash value, and in no other. */
  lemma PlacedByRemainder(chains: seq<seq<Elem>>, order: seq<Elem>, k: nat, hash: HashFunction)
    requires Placed(chains, order, hash) && |chains| == Pow2(k)
    ensures forall x | x in order :: hash(x.key) % |chains| < |chains| && x in chains[hash(x.key) % |chains|]
    ensures forall b, x | 0 <= b < |chains| && x in chains[b] :: x in order && hash(x.key) % |chains| == b
  {
    hide ToBkt;
    forall x: Elem | x in order
      ensures hash(x.key) % |chains| < |chains| && x in chains[hash(x.key) % |chains|]
    {
      BucketIsRemainder(hash(x.key), k);
    }
    forall b, x | 0 <= b < |chains| && x in chains[b]
      ensures x in order && hash(x.key) % |chains| == b
    {
      BucketIsRemainder(hash(x.key), k);
    }
  }

  /** Redistribution places every element by its key, and once, for the doubled number of buckets. */
  lemma PlacedAfterExpand(trav: seq<Elem>, order: seq<Elem>, n: nat, k: nat, hash: HashFunction)
    requires n == Pow2(k) && NoDup(trav)
    requires forall x :: x in trav <==> x in order
    ensures Placed(DistAll(trav, n, hash), order, hash)
    ensures forall j, x | 0 <= j < n && x in DistAll(trav, n, hash)[j] :: hash(x.key) % n == j
    ensures forall j | 0 <= j < n :: NoDup(DistAll(trav, n, hash)[j])
  {
    PlacedAnew(trav, order, n, hash);
    hide Dist, NoDup, Placed, Pow2;
    PlacedByRemainder(DistAll(trav, n, hash), order, k, hash);
    forall j | 0 <= j < n
      ensures NoDup(DistAll(trav, n, hash)[j])
    {
      DistNoDup(trav, j, n, hash);
    }
  }

  /** The elements that are beyond the ideal chain length, summed over all chains. */
  ghost function NonIdeal(chains: seq<seq<Elem>>, ideal: nat): nat {
    if chains == [] then 0
    else NonIdeal(chains[..|chains| - 1], ideal) + Excess(|chains[|chains| - 1]|, ideal)
  }

  lemma {:induction false} SumExcessIsNonIdeal(trav: seq<Elem>, j: nat, n: nat, ideal: nat, hash: HashFunction)
    requires 1 <= n && j <= n
    ensures SumExcess(trav, j, n, ideal, hash) == NonIdeal(DistAll(trav, n, hash)[..j], ideal)
  {
    if j > 0 {
      SumExcessIsNonIdeal(trav, j - 1, n, ideal, hash);
      assert DistAll(trav, n, hash)[..j][..j - 1] == DistAll(trav, n, hash)[..j - 1];
    }
  }
}
