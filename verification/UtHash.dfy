/**
  The intrusive hash table of uthash.h.

  A HashTable is the user's head pointer together with the UT_hash_table that the head's
  handle points to.  The C code frees that structure when the last element goes and
  allocates a new one with the next first element; here its record is set anew by
  MakeTable and means nothing while head is NULL.
 */
module UtHash {
  import opened Basics
  import opened Element
  import opened StableSort
  import opened Segments
  import opened Bits
  import opened Buckets

  /** HASH_INITIAL_NUM_BUCKETS is two to this power. */
  const INITIAL_NUM_BUCKETS_LOG2: nat := 5
  const INITIAL_NUM_BUCKETS: nat := 32

  /** Whether HASH_BLOOM is defined, and to what. */
  datatype Bloom = NoBloom | BloomBits(nbits: nat)

  /** HASH_BLOOM_BYTELEN */
  function BloomByteLen(nbits: nat): nat {
    Pow2(nbits) / 8 + (if Pow2(nbits) % 8 != 0 then 1 else 0)
  }

  function BloomIndex(hashv: nat, nbits: nat): (i: nat)
    ensures i / 8 < BloomByteLen(nbits)
  {
    BitAnd(hashv, Pow2(nbits) - 1)
  }

  /** The bit is the remainder of the hash value by the number of bits, and the array is just long enough. */
  lemma BloomBitIsRemainder(hashv: nat, nbits: nat)
    ensures BloomIndex(hashv, nbits) == hashv % Pow2(nbits)
    ensures Pow2(nbits) <= 8 * BloomByteLen(nbits) < Pow2(nbits) + 8
  {
    MaskIsRemainder(hashv, nbits);
  }

  ghost predicate BloomBit(bv: seq<Byte>, i: nat)
    requires i / 8 < |bv|
  {
    Bit(bv[i / 8], i % 8)
  }

  lemma {:induction false} Pow2Grows(i: nat, k: nat)
    requires i < k
    ensures Pow2(i) < Pow2(k)
  {
    if i + 1 < k {
      Pow2Grows(i, k - 1);
    }
  }

  lemma SetBitOfByte(b: nat, i: nat, j: nat)
    requires b < 256 && i < 8
    ensures BitOr(b, Pow2(i)) < 256
    ensures Bit(BitOr(b, Pow2(i)), j) <==> Bit(b, j) || i == j
  {
    assert Pow2(8) == 256 by {
      assert Pow2(4) == 16;
    }
    Pow2Grows(i, 8);
    OrInRange(b, Pow2(i), 8);
    BitOfOr(b, Pow2(i), j);
    BitOfPow2(i, j);
  }

  function Max(a: nat, b: nat): nat {
    if a >= b then a else b
  }

  ghost predicate BoundedBy(bs: seq<Bucket>, limit: nat) {
    forall b | 0 <= b < |bs| :: bs[b].count <= (bs[b].expandMult + 1) * limit
  }

  lemma MulMonotone(a: nat, i: nat, j: nat)
    requires i <= j
    ensures a * i <= a * j
  {
  }

  ghost function NodesOf(s: seq<Elem>): set<Elem> {
    set x | x in s
  }

  lemma NewTable(bs: seq<Bucket>, cs: seq<seq<Elem>>, hash: HashFunction, limit: nat)
    requires 1 <= |bs| == |cs|
    requires forall b | 0 <= b < |bs| :: bs[b] == EMPTY_BUCKET && cs[b] == []
    ensures AllHead(bs, cs, NodesOf([])) && Placed(cs, [], hash) && Hashed([], hash) && NoDup<Elem>([])
    ensures BoundedBy(bs, limit)
  {
  }

  lemma EmptyTrav(trav: seq<Elem>, b: nat, n: nat, hash: HashFunction)
    requires 1 <= n && trav == []
    ensures Dist(trav, b, n, hash) == []
  {
  }

  /** From the spread buckets to the invariant of the doubled table. */
  lemma ExpandedTable(bs: seq<Bucket>, cs: seq<seq<Elem>>, ord: seq<Elem>, ideal: nat, k: nat, hash: HashFunction)
    requires |bs| == Pow2(k)
    requires Spread(bs, Flatten(cs), ideal, hash, NodesOf(ord)) && (ideal == 0 ==> ord == [])
    requires Placed(cs, ord, hash) && NoDup(ord) && forall i | 0 <= i < |cs| :: NoDup(cs[i])
    ensures AllHead(bs, DistAll(Flatten(cs), |bs|, hash), NodesOf(ord))
    ensures Placed(DistAll(Flatten(cs), |bs|, hash), ord, hash)
    ensures forall j, x | 0 <= j < |bs| && x in DistAll(Flatten(cs), |bs|, hash)[j] :: hash(x.key) % |bs| == j
    ensures BoundedBy(bs, Max(CAPACITY_THRESH, ideal))
    ensures forall b | 0 <= b < |bs| ::
              bs[b].expandMult == ExpandMult(|DistAll(Flatten(cs), |bs|, hash)[b]|, ideal)
    ensures SumExcess(Flatten(cs), |bs|, |bs|, ideal, hash) == NonIdeal(DistAll(Flatten(cs), |bs|, hash), ideal)
  {
    hide Dist, NoDup, Flatten, ExpandMult, SumExcess, NonIdeal, Pow2;
    var trav, n := Flatten(cs), |bs|;
    ChainsHoldOrder(cs, ord, hash);
    SameElements(trav, ord);
    PlacedAfterExpand(trav, ord, n, k, hash);
    SumExcessIsNonIdeal(trav, n, n, ideal, hash);
    assert DistAll(trav, n, hash)[..n] == DistAll(trav, n, hash);
    forall b | 0 <= b < n
      ensures bs[b].count <= (bs[b].expandMult + 1) * Max(CAPACITY_THRESH, ideal)
    {
      var c := Dist(trav, b, n, hash);
      assert Heads(bs[b], c);
      if ideal == 0 {
        EmptyTrav(trav, b, n, hash);
      } else {
        ExpandMultBounds(|c|, ideal);
        MulMonotone(bs[b].expandMult + 1, ideal, Max(CAPACITY_THRESH, ideal));
      }
    }
  }

  /** The mask-and-shift form of the ideal chain length, for twice the current number of buckets. */
  lemma CeilingOfDoubled(n: nat, k: nat)
    ensures Pow2(k + 1) == 2 * Pow2(k)
    ensures ShiftRight(n, k + 1) + (if BitAnd(n, Pow2(k) * 2 - 1) != 0 then 1 else 0) == Ceiling(n, 2 * Pow2(k))
    ensures Ceiling(n, 2 * Pow2(k)) == 0 ==> n == 0
  {
    CeilingByBits(n, k + 1);
    CeilingBounds(n, 2 * Pow2(k));
  }

  lemma ChainsNoDup(bs: seq<Bucket>, cs: seq<seq<Elem>>, nodes: set<Elem>)
    requires AllHead(bs, cs, nodes)
    ensures forall i | 0 <= i < |cs| :: NoDup(cs[i])
  {
  }

  lemma HalfByShift(n: nat)
    ensures ShiftRight(n, 1) == n / 2
  {
  }

  ghost function NoChains(n: nat): (cs: seq<seq<Elem>>)
    ensures |cs| == n && forall b | 0 <= b < n :: cs[b] == []
  {
    seq(n, _ => [])
  }

  /** A zeroed array of buckets. */
  method NewBuckets(n: nat) returns (bs: array<Bucket>)
    ensures fresh(bs) && bs.Length == n
    ensures forall b | 0 <= b < n :: bs[b] == EMPTY_BUCKET
  {
    bs := new Bucket[n](_ => EMPTY_BUCKET);
  }

  /** HASH_BLOOM_MAKE */
  method NewBloom(bloom: Bloom) returns (bv: array<Byte>)
    ensures fresh(bv)
    ensures bloom.BloomBits? ==> bv.Length == BloomByteLen(bloom.nbits) && forall i | 0 <= i < bv.Length :: bv[i] == 0
  {
    if bloom.BloomBits? {
      bv := new Byte[BloomByteLen(bloom.nbits)](_ => 0);
    } else {
      bv := new Byte[0];
    }
  }

  /** UT_hash_table */
  datatype Table = Table(
    buckets: array<Bucket>,
    numBuckets: nat,
    log2NumBuckets: nat,
    numItems: nat,
    tail: Elem?,
    idealChainMaxlen: nat,
    nonidealItems: nat,
    ineffExpands: nat,
    noexpand: bool,
    bloomBv: array<Byte>)

  // --- the invariant, part by part ---

  ghost predicate Sized(tbl: Table, chains: seq<seq<Elem>>, ord: seq<Elem>) {
    && 5 <= tbl.log2NumBuckets
    && tbl.numBuckets == Pow2(tbl.log2NumBuckets) == tbl.buckets.Length == |chains|
    && tbl.numItems == |ord|
    && (tbl.noexpand <==> tbl.ineffExpands > 1)
  }

  /** The bucket chains hold the elements of ord, each in the bucket its key selects. */
  ghost predicate Chained(buckets: array<Bucket>, chains: seq<seq<Elem>>, ord: seq<Elem>, hash: HashFunction)
    reads buckets, ord`hhNext, ord`hhPrev, ord`hashv
  {
    && NoDup(ord)
    && AllHead(buckets[..], chains, NodesOf(ord))
    && Placed(chains, ord, hash)
    && Hashed(ord, hash)
  }

  /** No element of ord is hidden by the filter. */
  ghost predicate Bloomed(bloom: Bloom, bv: array<Byte>, ord: seq<Elem>, hash: HashFunction)
    reads bv
  {
    bloom.BloomBits? ==>
      && bv.Length == BloomByteLen(bloom.nbits)
      && forall x | x in ord :: BloomBit(bv[..], BloomIndex(hash(x.key), bloom.nbits))
  }

  /** While expansion is not inhibited, every chain is short relative to its multiplier. */
  ghost predicate Bounded(tbl: Table)
    reads tbl.buckets
  {
    tbl.noexpand || BoundedBy(tbl.buckets[..], Max(CAPACITY_THRESH, tbl.idealChainMaxlen))
  }

  ghost predicate TableOk(tbl: Table, chains: seq<seq<Elem>>, ord: seq<Elem>, hash: HashFunction, bloom: Bloom)
    reads tbl.buckets, tbl.bloomBv, ord`hhNext, ord`hhPrev, ord`hashv
  {
    && Sized(tbl, chains, ord)
    && Chained(tbl.buckets, chains, ord, hash)
    && Bloomed(bloom, tbl.bloomBv, ord, hash)
    && Bounded(tbl)
  }

  // --- making and expanding the table ---

  /** HASH_MAKE_TABLE */
  method MakeTable(add: Elem, bloom: Bloom, ghost hash: HashFunction)
    returns (tbl: Table, ghost chains: seq<seq<Elem>>)
    ensures fresh(tbl.buckets) && fresh(tbl.bloomBv)
    ensures TableOk(tbl, chains, [], hash, bloom)
    ensures tbl ==
            Table(tbl.buckets, INITIAL_NUM_BUCKETS, INITIAL_NUM_BUCKETS_LOG2, 0, add, 0, 0, 0, false, tbl.bloomBv)
    ensures |chains| == tbl.buckets.Length == INITIAL_NUM_BUCKETS
    ensures forall b | 0 <= b < tbl.buckets.Length :: tbl.buckets[b] == EMPTY_BUCKET
  {
    hide AllHead, Placed, Hashed, BoundedBy, NoDup;
    var bs := NewBuckets(INITIAL_NUM_BUCKETS);
    var bv := NewBloom(bloom);
    tbl := Table(bs, INITIAL_NUM_BUCKETS, INITIAL_NUM_BUCKETS_LOG2, 0, add, 0, 0, 0, false, bv);
    chains := NoChains(INITIAL_NUM_BUCKETS);
    NewTable(bs[..], chains, hash, Max(CAPACITY_THRESH, 0));
    assert Pow2(5) == 32;
  }

  /** The end of HASH_EXPAND_BUCKETS: the new size, and whether the expansion was worth it. */
  method Doubled(tbl: Table, newBuckets: array<Bucket>, ideal: nat, nonideal: nat) returns (tbl': Table)
    requires !tbl.noexpand && tbl.ineffExpands <= 1
    ensures tbl'.buckets == newBuckets && tbl'.numBuckets == 2 * tbl.numBuckets
    ensures tbl'.log2NumBuckets == tbl.log2NumBuckets + 1
    ensures tbl'.idealChainMaxlen == ideal && tbl'.nonidealItems == nonideal
    ensures tbl'.ineffExpands == if nonideal > tbl.numItems / 2 then tbl.ineffExpands + 1 else 0
    ensures tbl'.noexpand == (tbl'.ineffExpands > 1)
    ensures tbl'.numItems == tbl.numItems && tbl'.tail == tbl.tail && tbl'.bloomBv == tbl.bloomBv
  {
    HalfByShift(tbl.numItems);
    tbl' := tbl.(idealChainMaxlen := ideal, nonidealItems := nonideal);
    tbl' := tbl'.(numBuckets := tbl'.numBuckets * 2, log2NumBuckets := tbl'.log2NumBuckets + 1,
                  buckets := newBuckets);
    tbl' := tbl'.(ineffExpands := if tbl'.nonidealItems > ShiftRight(tbl'.numItems, 1) then tbl'.ineffExpands + 1
                                  else 0);
    if tbl'.ineffExpands > 1 {
      tbl' := tbl'.(noexpand := true);
    }
  }

  /** The measures an expansion takes of itself, and whether it inhibits further ones. */
  ghost predicate Rated(t0: Table, t1: Table, chains: seq<seq<Elem>>)
    requires t1.numBuckets >= 1
  {
    && t1.idealChainMaxlen == Ceiling(t1.numItems, t1.numBuckets)
    && t1.nonidealItems == NonIdeal(chains, t1.idealChainMaxlen)
    && t1.ineffExpands == (if t1.nonidealItems > t1.numItems / 2 then t0.ineffExpands + 1 else 0)
    && t1.noexpand == (t1.ineffExpands > 1)
  }

  /** HASH_EXPAND_BUCKETS */
  method ExpandBuckets(tbl: Table, ghost chains: seq<seq<Elem>>, ghost ord: seq<Elem>, ghost hash: HashFunction)
    returns (tbl': Table, ghost chains': seq<seq<Elem>>)
    requires Sized(tbl, chains, ord) && Chained(tbl.buckets, chains, ord, hash)
    requires ord != [] && !tbl.noexpand
    modifies NodesOf(ord)`hhNext, NodesOf(ord)`hhPrev
    ensures fresh(tbl'.buckets)
    ensures Sized(tbl', chains', ord) && Chained(tbl'.buckets, chains', ord, hash) && Bounded(tbl')
    ensures tbl'.numBuckets == 2 * tbl.numBuckets
    ensures chains' == DistAll(Flatten(chains), tbl'.numBuckets, hash)
    ensures forall b, x | 0 <= b < tbl'.numBuckets && x in chains'[b] :: hash(x.key) % tbl'.numBuckets == b
    ensures forall b | 0 <= b < tbl'.numBuckets ::
              tbl'.buckets[b].expandMult == ExpandMult(|chains'[b]|, tbl'.idealChainMaxlen)
    ensures Rated(tbl, tbl', chains')
    ensures tbl'.numItems == tbl.numItems && tbl'.tail == tbl.tail && tbl'.bloomBv == tbl.bloomBv
  {
    hide AllHead, Placed, Hashed, BoundedBy, NoDup, Spread, DistAll, Flatten, Pow2, ShiftRight, BitAnd, Ceiling;
    var newBuckets := NewBuckets(2 * tbl.numBuckets);
    CeilingOfDoubled(tbl.numItems, tbl.log2NumBuckets);
    var ideal := ShiftRight(tbl.numItems, tbl.log2NumBuckets + 1)
                 + (if BitAnd(tbl.numItems, tbl.numBuckets * 2 - 1) != 0 then 1 else 0);
    ChainsNoDup(tbl.buckets[..], chains, NodesOf(ord));
    var nonideal := Redistribute(tbl.buckets, newBuckets, ideal, chains, ord, hash, NodesOf(ord));
    ExpandedTable(newBuckets[..], chains, ord, ideal, tbl.log2NumBuckets + 1, hash);
    tbl' := Doubled(tbl, newBuckets, ideal, nonideal);
    chains' := DistAll(Flatten(chains), tbl'.numBuckets, hash);
  }

  // --- adding ---

  /** The chains after add has become the head of its bucket's chain. */
  ghost function Pushed(chains: seq<seq<Elem>>, add: Elem, hash: HashFunction): seq<seq<Elem>>
    requires 1 <= |chains|
  {
    var b := BktOf(add, |chains|, hash);
    chains[b := [add] + chains[b]]
  }

  lemma AppendMembers(s: seq<Elem>, x: Elem)
    ensures forall y :: y in s + [x] <==> y in s || y == x
    ensures NodesOf(s + [x]) == NodesOf(s) + {x}
  {
  }

  lemma AppendNoDup(s: seq<Elem>, x: Elem)
    requires NoDup(s) && x !in s
    ensures NoDup(s + [x])
  {
  }

  /** The first half of HASH_ADD_TO_BKT: link the handle into its bucket. */
  method LinkIntoBkt(buckets: array<Bucket>, add: Elem,
                     ghost chains: seq<seq<Elem>>, ghost ord: seq<Elem>, ghost hash: HashFunction)
    returns (bkt: nat)
    requires 1 <= buckets.Length && Chained(buckets, chains, ord, hash)
    requires add !in ord && add.hashv == hash(add.key)
    modifies buckets, add`hhNext, add`hhPrev, NodesOf(ord)`hhPrev
    ensures bkt == BktOf(add, buckets.Length, hash)
    ensures Chained(buckets, Pushed(chains, add, hash), ord + [add], hash)
    ensures buckets[bkt].count == old(buckets[bkt].count) + 1
    ensures buckets[bkt].expandMult == old(buckets[bkt].expandMult)
    ensures forall b | 0 <= b < buckets.Length && b != bkt :: buckets[b] == old(buckets[b])
  {
    hide Placed, NoDup, ToBkt;
    bkt := ToBkt(add.hashv, buckets.Length);
    assert Heads(buckets[..][bkt], chains[bkt]);
    AppendMembers(ord, add);
    AppendNoDup(ord, add);
    PlacedAfterAdd(chains, ord, add, ord + [add], hash);
    ChainElsewhere(chains, ord, hash, bkt, add);
    buckets[bkt] := PushChain(buckets[bkt], add, chains[bkt]);
  }

  /** The elements of the other chains are neither x nor any element of chain b. */
  lemma ChainElsewhere(chains: seq<seq<Elem>>, ord: seq<Elem>, hash: HashFunction, b: nat, x: Elem)
    requires Placed(chains, ord, hash) && b < |chains| && x !in ord
    ensures x !in chains[b]
    ensures forall c, i | 0 <= c < |chains| && c != b && 0 <= i < |chains[c]| ::
              chains[c][i] != x && chains[c][i] !in chains[b]
  {
    forall c, i | 0 <= c < |chains| && c != b && 0 <= i < |chains[c]|
      ensures chains[c][i] != x && chains[c][i] !in chains[b]
    {
      var y := chains[c][i];
      assert y in chains[c] && y in ord && BktOf(y, |chains|, hash) == c;
      assert forall d | 0 <= d < |chains| && y in chains[d] :: BktOf(y, |chains|, hash) == d;
    }
  }

  /** HASH_BLOOM_ADD: set the filter bit of a hash value. */
  method BloomAdd(bv: array<Byte>, hashv: nat, nbits: nat)
    requires bv.Length == BloomByteLen(nbits)
    modifies bv
    ensures forall i | 0 <= i < 8 * bv.Length ::
              BloomBit(bv[..], i) <==> old(BloomBit(bv[..], i)) || i == BloomIndex(hashv, nbits)
  {
    var idx := BloomIndex(hashv, nbits);
    ghost var was := bv[..];
    SetBitOfByte(bv[idx / 8], idx % 8, 0);
    bv[idx / 8] := BitOr(bv[idx / 8], Pow2(idx % 8));
    forall i | 0 <= i < 8 * bv.Length
      ensures BloomBit(bv[..], i) <==> BloomBit(was, i) || i == idx
    {
      SetBitOfByte(was[idx / 8], idx % 8, i % 8);
    }
  }

  /** HASH_BLOOM_TEST */
  method BloomTest(bv: array<Byte>, hashv: nat, nbits: nat) returns (r: nat)
    requires bv.Length == BloomByteLen(nbits)
    ensures r != 0 <==> BloomBit(bv[..], BloomIndex(hashv, nbits))
  {
    var idx := BloomIndex(hashv, nbits);
    r := BitAnd(bv[idx / 8], Pow2(idx % 8));
    TestIsBit(bv[idx / 8], idx % 8);
  }

  /** Whether HASH_ADD_TO_BKT goes on to double the buckets. */
  ghost predicate Expands(tbl: Table, bkt: nat)
    requires bkt < tbl.buckets.Length
    reads tbl.buckets
  {
    tbl.buckets[bkt].count + 1 >= (tbl.buckets[bkt].expandMult + 1) * CAPACITY_THRESH && !tbl.noexpand
  }

  /** HASH_ADD_TO_BKT */
  method AddToBkt(tbl: Table, add: Elem, ghost chains: seq<seq<Elem>>, ghost ord: seq<Elem>, ghost hash: HashFunction)
    returns (tbl': Table, ghost chains': seq<seq<Elem>>)
    requires Sized(tbl, chains, ord + [add]) && Chained(tbl.buckets, chains, ord, hash) && Bounded(tbl)
    requires add !in ord && add.hashv == hash(add.key)
    modifies tbl.buckets, NodesOf(ord + [add])`hhNext, NodesOf(ord + [add])`hhPrev
    ensures tbl'.buckets == tbl.buckets || fresh(tbl'.buckets)
    ensures Sized(tbl', chains', ord + [add]) && Chained(tbl'.buckets, chains', ord + [add], hash) && Bounded(tbl')
    ensures tbl'.bloomBv == tbl.bloomBv && tbl'.tail == tbl.tail
    ensures tbl.noexpand ==> tbl'.noexpand
    ensures if old(Expands(tbl, BktOf(add, |chains|, hash)))
            then tbl'.numBuckets == 2 * tbl.numBuckets && Rated(tbl, tbl', chains') && tbl'.numItems == tbl.numItems
                 && chains' == DistAll(Flatten(Pushed(chains, add, hash)), tbl'.numBuckets, hash)
            else tbl' == tbl && chains' == Pushed(chains, add, hash)
  {
    hide AllHead, Placed, NoDup, Hashed, Pow2, Ceiling, DistAll, Flatten, NonIdeal, ExpandMult, ToBkt;
    tbl', chains' := tbl, Pushed(chains, add, hash);
    AppendMembers(ord, add);
    ghost var was := tbl.buckets[..];
    var bkt := LinkIntoBkt(tbl.buckets, add, chains, ord, hash);
    var b := tbl.buckets[bkt];
    if b.count >= (b.expandMult + 1) * CAPACITY_THRESH && !tbl.noexpand {
      tbl', chains' := ExpandBuckets(tbl, chains', ord + [add], hash);
    } else {
      StaysBounded(was, tbl.buckets[..], bkt, tbl.noexpand, Max(CAPACITY_THRESH, tbl.idealChainMaxlen));
    }
  }

  lemma StaysBounded(was: seq<Bucket>, now: seq<Bucket>, bkt: nat, noexpand: bool, limit: nat)
    requires |was| == |now| && bkt < |now| && CAPACITY_THRESH <= limit
    requires noexpand || BoundedBy(was, limit)
    requires noexpand || now[bkt].count < (now[bkt].expandMult + 1) * CAPACITY_THRESH
    requires forall b | 0 <= b < |now| && b != bkt :: now[b] == was[b]
    ensures noexpand || BoundedBy(now, limit)
  {
    if !noexpand {
      MulMonotone(now[bkt].expandMult + 1, CAPACITY_THRESH, limit);
    }
  }

  /** What adding an element does to the table record and the chains. */
  ghost predicate Growth(expands: bool, t0: Table, t1: Table, c0: seq<seq<Elem>>, c1: seq<seq<Elem>>,
                         add: Elem, hash: HashFunction)
    requires 1 <= |c0|
  {
    && t1.tail == t0.tail && t1.bloomBv == t0.bloomBv
    && (t0.noexpand ==> t1.noexpand)
    && if expands then
         && t1.numBuckets == 2 * t0.numBuckets >= 1 && t1.numItems == t0.numItems + 1 && Rated(t0, t1, c1)
         && c1 == DistAll(Flatten(Pushed(c0, add, hash)), t1.numBuckets, hash)
       else t1 == t0.(numItems := t0.numItems + 1) && c1 == Pushed(c0, add, hash)
  }

  /** HASH_ADD_TO_TABLE */
  method AddToTable(tbl: Table, add: Elem, bloom: Bloom,
                    ghost chains: seq<seq<Elem>>, ghost ord: seq<Elem>, ghost hash: HashFunction)
    returns (tbl': Table, ghost chains': seq<seq<Elem>>)
    requires TableOk(tbl, chains, ord, hash, bloom)
    requires add !in ord && add.hashv == hash(add.key)
    modifies tbl.buckets, tbl.bloomBv, NodesOf(ord + [add])`hhNext, NodesOf(ord + [add])`hhPrev
    ensures tbl'.buckets == tbl.buckets || fresh(tbl'.buckets)
    ensures TableOk(tbl', chains', ord + [add], hash, bloom)
    ensures tbl'.bloomBv == tbl.bloomBv && tbl'.tail == tbl.tail
    ensures Growth(old(Expands(tbl, BktOf(add, |chains|, hash))), tbl, tbl', chains, chains', add, hash)
  {
    hide Chained, BoundedBy, Pow2, DistAll, Flatten, ToBkt;
    tbl', chains' := AddToBkt(tbl.(numItems := tbl.numItems + 1), add, chains, ord, hash);
    if bloom.BloomBits? {
      BloomAdd(tbl.bloomBv, add.hashv, bloom.nbits);
    }
  }

  // --- deleting ---

  /** The chains after del has left its bucket's chain. */
  ghost function Dropped(chains: seq<seq<Elem>>, del: Elem, hash: HashFunction): seq<seq<Elem>>
    requires 1 <= |chains| && del in chains[BktOf(del, |chains|, hash)]
  {
    var b := BktOf(del, |chains|, hash);
    chains[b := RemoveAt(chains[b], IndexOf(chains[b], del))]
  }

  ghost function Without(s: seq<Elem>, x: Elem): seq<Elem>
    requires x in s
  {
    RemoveAt(s, IndexOf(s, x))
  }

  lemma DroppedPlaced(buckets: array<Bucket>, chains: seq<seq<Elem>>, ord: seq<Elem>, del: Elem, hash: HashFunction)
    requires Chained(buckets, chains, ord, hash) && del in ord
    ensures del in chains[BktOf(del, |chains|, hash)]
    ensures Placed(Dropped(chains, del, hash), Without(ord, del), hash)
    ensures NoDup(Without(ord, del)) && |Without(ord, del)| == |ord| - 1
    ensures forall x | x in Without(ord, del) :: x in ord && x != del
    ensures forall b | 0 <= b < |chains| :: Within(Dropped(chains, del, hash)[b], NodesOf(Without(ord, del)))
  {
    RemovedMembers(ord, del);
    ChainsNoDup(buckets[..], chains, NodesOf(ord));
    hide RemoveAt, IndexOf, NoDup, AllHead;
    PlacedAfterDelete(chains, ord, del, Without(ord, del), hash);
    ChainsWithin(Dropped(chains, del, hash), Without(ord, del), hash);
  }

  lemma ChainsWithin(chains: seq<seq<Elem>>, ord: seq<Elem>, hash: HashFunction)
    requires Placed(chains, ord, hash)
    ensures forall b | 0 <= b < |chains| :: Within(chains[b], NodesOf(ord))
  {
  }

  lemma OneLess(s: seq<Elem>, i: nat)
    requires i < |s|
    ensures |RemoveAt(s, i)| == |s| - 1
  {
  }

  /** HASH_DEL_IN_BKT on the bucket that the deleted element's hash value selects. */
  method UnlinkFromBkt(buckets: array<Bucket>, del: Elem,
                       ghost chains: seq<seq<Elem>>, ghost ord: seq<Elem>, ghost hash: HashFunction)
    returns (bkt: nat)
    requires 1 <= buckets.Length && Chained(buckets, chains, ord, hash) && del in ord
    modifies buckets, NodesOf(ord)`hhNext, NodesOf(ord)`hhPrev
    ensures del in chains[BktOf(del, |chains|, hash)] && bkt == BktOf(del, |chains|, hash)
    ensures Chained(buckets, Dropped(chains, del, hash), Without(ord, del), hash)
    ensures buckets[bkt].count == old(buckets[bkt].count) - 1
    ensures buckets[bkt].expandMult == old(buckets[bkt].expandMult)
    ensures forall b | 0 <= b < buckets.Length && b != bkt :: buckets[b] == old(buckets[b])
  {
    hide Placed, NoDup, ToBkt, RemoveAt, IndexOf, Chain;
    DroppedPlaced(buckets, chains, ord, del, hash);
    bkt := ToBkt(del.hashv, buckets.Length);
    ghost var c := chains[bkt];
    assert Heads(buckets[..][bkt], c);
    OtherChains(chains, ord, hash, bkt);
    OneLess(c, IndexOf(c, del));
    buckets[bkt] := DelInBkt(buckets[bkt], del, c);
  }

  /** The bucket lines of HASH_DELETE_HH. */
  method DelFromTable(tbl: Table, del: Elem, bloom: Bloom,
                      ghost chains: seq<seq<Elem>>, ghost ord: seq<Elem>, ghost hash: HashFunction)
    returns (tbl': Table, ghost chains': seq<seq<Elem>>)
    requires TableOk(tbl, chains, ord, hash, bloom) && del in ord
    modifies tbl.buckets, NodesOf(ord)`hhNext, NodesOf(ord)`hhPrev
    ensures del in chains[BktOf(del, |chains|, hash)]
    ensures TableOk(tbl', chains', Without(ord, del), hash, bloom)
    ensures tbl' == tbl.(numItems := tbl.numItems - 1) && chains' == Dropped(chains, del, hash)
  {
    ghost var was := tbl.buckets[..];
    DroppedPlaced(tbl.buckets, chains, ord, del, hash);
    hide Chained, Placed, NoDup, Pow2, ToBkt, RemoveAt, IndexOf, BloomBit, BloomIndex, BoundedBy;
    var bkt := UnlinkFromBkt(tbl.buckets, del, chains, ord, hash);
    chains' := Dropped(chains, del, hash);
    tbl' := tbl.(numItems := tbl.numItems - 1);
    ShrinksBounded(was, tbl.buckets[..], bkt, tbl.noexpand, Max(CAPACITY_THRESH, tbl.idealChainMaxlen));
  }

  lemma OtherChains(chains: seq<seq<Elem>>, ord: seq<Elem>, hash: HashFunction, b: nat)
    requires Placed(chains, ord, hash) && b < |chains|
    ensures forall c, i | 0 <= c < |chains| && c != b && 0 <= i < |chains[c]| :: chains[c][i] !in chains[b]
  {
    forall c, i | 0 <= c < |chains| && c != b && 0 <= i < |chains[c]|
      ensures chains[c][i] !in chains[b]
    {
      var y := chains[c][i];
      assert y in chains[c] && BktOf(y, |chains|, hash) == c;
      assert forall d | 0 <= d < |chains| && y in chains[d] :: BktOf(y, |chains|, hash) == d;
    }
  }

  lemma ShrinksBounded(was: seq<Bucket>, now: seq<Bucket>, bkt: nat, noexpand: bool, limit: nat)
    requires |was| == |now| && bkt < |now|
    requires noexpand || BoundedBy(was, limit)
    requires now[bkt].count <= was[bkt].count && now[bkt].expandMult == was[bkt].expandMult
    requires forall b | 0 <= b < |now| && b != bkt :: now[b] == was[b]
    ensures noexpand || BoundedBy(now, limit)
  {
  }
}
