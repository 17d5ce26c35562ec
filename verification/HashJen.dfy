/**
  HASH_JEN of uthash.h, Jenkins' hash on 32-bit words.

  The hash value is one of three words of state.  The lemmas say that nothing is lost
  inside: mixing is a bijection on the state, and so is everything that happens after a
  block of the key has been taken in.
 */
module HashJen {
  import opened Basics
  import opened Element
  import opened Bits
  import opened Words
  import opened MachineWords

  /** The variables i, j and hashv of the macro. */
  datatype State = State(a: Word, b: Word, c: Word)

  // --- HASH_JEN_MIX ---

  /** x >> k */
  function Shr(x: Word, k: nat): Word {
    ShiftIsQuotient(x, k);
    QuotientShrinks(x, Pow2(k));
    ShiftRight(x, k)
  }

  lemma QuotientShrinks(x: nat, p: nat)
    requires 1 <= p
    ensures 0 <= x / p <= x
  {
    DivMod(x, p);
    ProductGrows(p, x / p);
  }

  /** x << k, cut off at 32 bits */
  function Shl(x: Word, k: nat): Word {
    Wrap(x * Pow2(k))
  }

  /** x -= y; x -= z */
  function Sub2(x: Word, y: Word, z: Word): Word {
    Wrap(x - y - z)
  }

  function Add2(x: Word, y: Word, z: Word): Word {
    Wrap(x + y + z)
  }

  /** a -= b; a -= c; a ^= shifted */
  function SubA(s: State, shifted: Word): State {
    s.(a := Xor(Sub2(s.a, s.b, s.c), shifted))
  }

  /** b -= c; b -= a; b ^= shifted */
  function SubB(s: State, shifted: Word): State {
    s.(b := Xor(Sub2(s.b, s.c, s.a), shifted))
  }

  /** c -= a; c -= b; c ^= shifted */
  function SubC(s: State, shifted: Word): State {
    s.(c := Xor(Sub2(s.c, s.a, s.b), shifted))
  }

  /** Three lines of the macro, with their shifts. */
  function Round(s: State, ka: nat, kb: nat, kc: nat): State {
    var s1 := SubA(s, Shr(s.c, ka));
    var s2 := SubB(s1, Shl(s1.a, kb));
    SubC(s2, Shr(s2.b, kc))
  }

  function Mix(s: State): State {
    Round(Round(Round(s, 13, 8, 13), 12, 16, 5), 3, 10, 15)
  }

  // --- and its inverse ---

  function AddA(s: State, shifted: Word): State {
    s.(a := Add2(Xor(s.a, shifted), s.c, s.b))
  }

  function AddB(s: State, shifted: Word): State {
    s.(b := Add2(Xor(s.b, shifted), s.a, s.c))
  }

  function AddC(s: State, shifted: Word): State {
    s.(c := Add2(Xor(s.c, shifted), s.b, s.a))
  }

  function Unround(s: State, ka: nat, kb: nat, kc: nat): State {
    var s2 := AddC(s, Shr(s.b, kc));
    var s1 := AddB(s2, Shl(s2.a, kb));
    AddA(s1, Shr(s1.c, ka))
  }

  function Unmix(s: State): State {
    Unround(Unround(Unround(s, 3, 10, 15), 12, 16, 5), 13, 8, 13)
  }

  lemma SubThenAdd(x: Word, y: Word, z: Word)
    ensures Add2(Sub2(x, y, z), z, y) == x
    ensures Sub2(Add2(x, z, y), y, z) == x
  {
    WrapAdd(x - y - z, z + y);
    WrapAdd(x + z + y, 0 - y - z);
    WrapWord(x);
  }

  lemma LineAInverse(s: State, w: Word)
    ensures AddA(SubA(s, w), w) == s && SubA(AddA(s, w), w) == s
    ensures SubA(s, w).b == s.b == AddA(s, w).b && SubA(s, w).c == s.c == AddA(s, w).c
  {
    hide Xor, Sub2, Add2;
    XorBack(Sub2(s.a, s.b, s.c), w);
    SubThenAdd(s.a, s.b, s.c);
    XorBack(s.a, w);
    SubThenAdd(Xor(s.a, w), s.b, s.c);
  }

  lemma LineBInverse(s: State, w: Word)
    ensures AddB(SubB(s, w), w) == s && SubB(AddB(s, w), w) == s
    ensures SubB(s, w).a == s.a == AddB(s, w).a && SubB(s, w).c == s.c == AddB(s, w).c
  {
    hide Xor, Sub2, Add2;
    XorBack(Sub2(s.b, s.c, s.a), w);
    SubThenAdd(s.b, s.c, s.a);
    XorBack(s.b, w);
    SubThenAdd(Xor(s.b, w), s.c, s.a);
  }

  lemma LineCInverse(s: State, w: Word)
    ensures AddC(SubC(s, w), w) == s && SubC(AddC(s, w), w) == s
    ensures SubC(s, w).a == s.a == AddC(s, w).a && SubC(s, w).b == s.b == AddC(s, w).b
  {
    hide Xor, Sub2, Add2;
    XorBack(Sub2(s.c, s.a, s.b), w);
    SubThenAdd(s.c, s.a, s.b);
    XorBack(s.c, w);
    SubThenAdd(Xor(s.c, w), s.a, s.b);
  }

  lemma RoundInverse(s: State, ka: nat, kb: nat, kc: nat)
    ensures Unround(Round(s, ka, kb, kc), ka, kb, kc) == s
    ensures Round(Unround(s, ka, kb, kc), ka, kb, kc) == s
  {
    hide SubA, SubB, SubC, AddA, AddB, AddC, Shr, Shl;
    var s1 := SubA(s, Shr(s.c, ka));
    var s2 := SubB(s1, Shl(s1.a, kb));
    LineAInverse(s, Shr(s.c, ka));
    LineBInverse(s1, Shl(s1.a, kb));
    LineCInverse(s2, Shr(s2.b, kc));
    var t2 := AddC(s, Shr(s.b, kc));
    var t1 := AddB(t2, Shl(t2.a, kb));
    LineCInverse(s, Shr(s.b, kc));
    LineBInverse(t2, Shl(t2.a, kb));
    LineAInverse(t1, Shr(t1.c, ka));
  }

  /** HASH_JEN_MIX is a bijection on the state: it has a two-sided inverse. */
  lemma MixIsBijective(s: State)
    ensures Unmix(Mix(s)) == s && Mix(Unmix(s)) == s
  {
    hide Round, Unround;
    RoundInverse(s, 13, 8, 13);
    RoundInverse(Round(s, 13, 8, 13), 12, 16, 5);
    RoundInverse(Round(Round(s, 13, 8, 13), 12, 16, 5), 3, 10, 15);
    RoundInverse(s, 3, 10, 15);
    RoundInverse(Unround(s, 3, 10, 15), 12, 16, 5);
    RoundInverse(Unround(Unround(s, 3, 10, 15), 12, 16, 5), 13, 8, 13);
  }

  // --- HASH_JEN ---

  /** Four bytes of the key from position p on, least significant first. */
  function WordAt(key: Key, p: nat): Word
    requires p + 4 <= |key|
  {
    key[p] as int + key[p + 1] as int * 0x100 + key[p + 2] as int * 0x1_0000 + key[p + 3] as int * 0x100_0000
  }

  /** The loop body: take in twelve bytes and mix. */
  function Block(s: State, key: Key, p: nat): State
    requires p + 12 <= |key|
  {
    Mix(State(Wrap(s.a + WordAt(key, p)), Wrap(s.b + WordAt(key, p + 4)), Wrap(s.c + WordAt(key, p + 8))))
  }

  /** A byte of the last, incomplete block, or nothing past its end. */
  function TailByte(key: Key, p: nat): Byte {
    if p < |key| then key[p] else 0
  }

  function TailA(key: Key, p: nat): Word {
    TailByte(key, p) as int + TailByte(key, p + 1) as int * 0x100
    + TailByte(key, p + 2) as int * 0x1_0000 + TailByte(key, p + 3) as int * 0x100_0000
  }

  /** The low byte of the third word is left to the length of the key. */
  function TailC(key: Key, p: nat): Word {
    TailByte(key, p + 8) as int * 0x100 + TailByte(key, p + 9) as int * 0x1_0000
    + TailByte(key, p + 10) as int * 0x100_0000
  }

  /** The switch behind the loop. */
  function Tail(s: State, key: Key, p: nat): State {
    Mix(State(Wrap(s.a + TailA(key, p)), Wrap(s.b + TailA(key, p + 4)), Wrap(s.c + |key| + TailC(key, p))))
  }

  /** The state after the rest of the key, from position p on, has been taken in. */
  function Absorb(s: State, key: Key, p: nat): State
    requires p <= |key|
    decreases |key| - p
  {
    if |key| - p >= 12 then Absorb(Block(s, key, p), key, p + 12) else Tail(s, key, p)
  }

  const START: State := State(0x9e3779b9, 0x9e3779b9, 0xfeedbeef)

  function FinalState(key: Key): State {
    Absorb(START, key, 0)
  }

  /** The hash function of the table, unless it is overridden. */
  function Hash(key: Key): Word {
    FinalState(key).c
  }

  /** x += y */
  function Plus(x: Word, y: nat): Word {
    Wrap(x + y)
  }

  lemma PlusTwice(x: Word, y: nat, z: nat)
    ensures Plus(Plus(x, y), z) == Plus(x, y + z)
  {
    WrapAdd(x + y, z);
  }

  /** x -= y */
  function Minus(x: Word, y: Word): Word {
    Wrap(x - y)
  }

  lemma MinusTwice()
    ensures forall x: Word, y: Word, z: Word :: Minus(Minus(x, y), z) == Sub2(x, y, z)
  {
    forall x: Word, y: Word, z: Word
      ensures Minus(Minus(x, y), z) == Sub2(x, y, z)
    {
      WrapAdd(x - y, 0 - z);
    }
  }

  /** HASH_JEN_MIX, line by line */
  method HashJenMix(a0: Word, b0: Word, c0: Word) returns (a: Word, b: Word, c: Word)
    ensures State(a, b, c) == Mix(State(a0, b0, c0))
  {
    hide Minus, Sub2, Xor, Shr, Shl;
    MinusTwice();
    a, b, c := a0, b0, c0;
    a := Minus(Minus(a, b), c); a := Xor(a, Shr(c, 13));
    b := Minus(Minus(b, c), a); b := Xor(b, Shl(a, 8));
    c := Minus(Minus(c, a), b); c := Xor(c, Shr(b, 13));
    assert State(a, b, c) == Round(State(a0, b0, c0), 13, 8, 13);
    a := Minus(Minus(a, b), c); a := Xor(a, Shr(c, 12));
    b := Minus(Minus(b, c), a); b := Xor(b, Shl(a, 16));
    c := Minus(Minus(c, a), b); c := Xor(c, Shr(b, 5));
    assert State(a, b, c) == Round(Round(State(a0, b0, c0), 13, 8, 13), 12, 16, 5);
    a := Minus(Minus(a, b), c); a := Xor(a, Shr(c, 3));
    b := Minus(Minus(b, c), a); b := Xor(b, Shl(a, 10));
    c := Minus(Minus(c, a), b); c := Xor(c, Shr(b, 15));
  }

  /** HASH_JEN: the loop over whole blocks and the switch over the rest, on 32-bit variables. */
  method HashJen(key: Key) returns (hashv: Word)
    requires |key| < WORD
    ensures hashv == Hash(key)
  {
    hide Mix, Wrap;
    var i: Word, j: Word := 0x9e3779b9, 0x9e3779b9;
    hashv := 0xfeedbeef;
    var k: nat, p: nat := |key|, 0;
    while k >= 12
      invariant p + k == |key|
      invariant Absorb(State(i, j, hashv), key, p) == FinalState(key)
    {
      i := Plus(i, WordAt(key, p));
      j := Plus(j, WordAt(key, p + 4));
      hashv := Plus(hashv, WordAt(key, p + 8));
      i, j, hashv := HashJenMix(i, j, hashv);
      p := p + 12;
      k := k - 12;
    }
    ghost var s := State(i, j, hashv);
    hashv := Plus(hashv, |key|);
    hashv := TakeLast(key, p, k, hashv);
    j := TakeWord(key, p + 4, k - 4, j);
    i := TakeWord(key, p, k, i);
    PlusTwice(s.c, |key|, TailC(key, p));
    assert Mix(State(i, j, hashv)) == Tail(s, key, p);
    i, j, hashv := HashJenMix(i, j, hashv);
  }

  /** The cases 4 to 1 of the switch, and 8 to 5 for the next word; each falls through to the next. */
  method TakeWord(key: Key, p: nat, k: int, x0: Word) returns (x: Word)
    requires p + k == |key|
    ensures x == Plus(x0, TailA(key, p))
  {
    hide Wrap, Plus;
    x := x0;
    if k >= 4 { x := Plus(x, key[p + 3] as int * 0x100_0000); }
    if k >= 3 { x := Plus(x, key[p + 2] as int * 0x1_0000); }
    if k >= 2 { x := Plus(x, key[p + 1] as int * 0x100); }
    if k >= 1 { x := Plus(x, key[p]); }
    FourAdded(x0, TailByte(key, p + 3) as int * 0x100_0000, TailByte(key, p + 2) as int * 0x1_0000,
              TailByte(key, p + 1) as int * 0x100, TailByte(key, p));
  }

  /** The cases 11 to 9 of the switch. */
  method TakeLast(key: Key, p: nat, k: int, x0: Word) returns (x: Word)
    requires p + k == |key|
    ensures x == Plus(x0, TailC(key, p))
  {
    hide Wrap, Plus;
    x := x0;
    if k >= 11 { x := Plus(x, key[p + 10] as int * 0x100_0000); }
    if k >= 10 { x := Plus(x, key[p + 9] as int * 0x1_0000); }
    if k >= 9 { x := Plus(x, key[p + 8] as int * 0x100); }
    FourAdded(x0, TailByte(key, p + 10) as int * 0x100_0000, TailByte(key, p + 9) as int * 0x1_0000,
              TailByte(key, p + 8) as int * 0x100, 0);
  }

  /** Adding nothing is what a skipped case amounts to. */
  lemma FourAdded(x: Word, w1: nat, w2: nat, w3: nat, w4: nat)
    ensures Plus(Plus(Plus(Plus(x, w1), w2), w3), w4) == Plus(x, w1 + w2 + w3 + w4)
    ensures forall y: Word :: Plus(y, 0) == y
  {
    PlusTwice(Plus(Plus(x, w1), w2), w3, w4);
    PlusTwice(Plus(x, w1), w2, w3 + w4);
    PlusTwice(x, w1, w2 + w3 + w4);
    forall y: Word
      ensures Plus(y, 0) == y
    {
      WrapWord(y);
    }
  }

  // --- nothing is lost ---

  lemma MixInjective(s: State, t: State)
    requires Mix(s) == Mix(t)
    ensures s == t
  {
    hide Mix, Unmix;
    MixIsBijective(s);
    MixIsBijective(t);
  }

  lemma WrapInjective(s: Word, t: Word, x: int)
    requires Wrap(s + x) == Wrap(t + x)
    ensures s == t
  {
    WrapAdd(s + x, 0 - x);
    WrapAdd(t + x, 0 - x);
    WrapWord(s);
    WrapWord(t);
  }

  lemma WrapInjectiveIn(s: int, x: Word, y: Word)
    requires Wrap(s + x) == Wrap(s + y)
    ensures x == y
  {
    WrapInjective(x, y, s);
  }

  /** With the key fixed, what follows position p is injective in the state reached there. */
  lemma {:induction false} AbsorbInjective(s: State, t: State, key: Key, p: nat)
    requires p <= |key| && Absorb(s, key, p) == Absorb(t, key, p)
    ensures s == t
    decreases |key| - p
  {
    hide Mix, Wrap;
    if |key| - p >= 12 {
      AbsorbInjective(Block(s, key, p), Block(t, key, p), key, p + 12);
      BlockInjective(s, t, WordAt(key, p), WordAt(key, p + 4), WordAt(key, p + 8));
    } else {
      BlockInjective(s, t, TailA(key, p), TailA(key, p + 4), |key| + TailC(key, p));
    }
  }

  lemma BlockInjective(s: State, t: State, x: int, y: int, z: int)
    requires Mix(State(Wrap(s.a + x), Wrap(s.b + y), Wrap(s.c + z)))
          == Mix(State(Wrap(t.a + x), Wrap(t.b + y), Wrap(t.c + z)))
    ensures s == t
  {
    hide Mix, Wrap;
    MixInjective(State(Wrap(s.a + x), Wrap(s.b + y), Wrap(s.c + z)),
                 State(Wrap(t.a + x), Wrap(t.b + y), Wrap(t.c + z)));
    WrapInjective(s.a, t.a, x);
    WrapInjective(s.b, t.b, y);
    WrapInjective(s.c, t.c, z);
  }

  /** With the state fixed, a block determines what is mixed in. */
  lemma BlockInjectiveInKey(s: State, x: Word, y: Word, z: Word, x': Word, y': Word, z': Word, len: nat)
    requires Mix(State(Wrap(s.a + x), Wrap(s.b + y), Wrap(s.c + len + z)))
          == Mix(State(Wrap(s.a + x'), Wrap(s.b + y'), Wrap(s.c + len + z')))
    ensures x == x' && y == y' && z == z'
  {
    hide Mix, Wrap;
    MixInjective(State(Wrap(s.a + x), Wrap(s.b + y), Wrap(s.c + len + z)),
                 State(Wrap(s.a + x'), Wrap(s.b + y'), Wrap(s.c + len + z')));
    WrapInjectiveIn(s.a, x, x');
    WrapInjectiveIn(s.b, y, y');
    WrapInjectiveIn(s.c + len, z, z');
  }

  lemma BytesOfWord(a: Byte, b: Byte, c: Byte, d: Byte, a': Byte, b': Byte, c': Byte, d': Byte)
    requires a + b as int * 0x100 + c as int * 0x1_0000 + d as int * 0x100_0000
          == a' + b' as int * 0x100 + c' as int * 0x1_0000 + d' as int * 0x100_0000
    ensures a == a' && b == b' && c == c' && d == d'
  {
    LowByte(a, b as int + c as int * 0x100 + d as int * 0x1_0000,
            a', b' as int + c' as int * 0x100 + d' as int * 0x1_0000);
    LowByte(b, c as int + d as int * 0x100, b', c' as int + d' as int * 0x100);
    LowByte(c, d, c', d');
  }

  lemma LowByte(x: Byte, y: nat, x': Byte, y': nat)
    requires x as int + 0x100 * y == x' as int + 0x100 * y'
    ensures x == x' && y == y'
  {
  }

  lemma {:induction false} AbsorbDependsOnRest(s: State, u: Key, v: Key, p: nat)
    requires p <= |u| == |v|
    requires forall k | p <= k < |u| :: u[k] == v[k]
    ensures Absorb(s, u, p) == Absorb(s, v, p)
    decreases |u| - p
  {
    hide Mix, Wrap;
    if |u| - p >= 12 {
      AbsorbDependsOnRest(Block(s, u, p), u, v, p + 12);
    }
  }

  /** Past a common beginning, the states are still equal when the keys start to differ. */
  lemma {:induction false} CommonBeginning(s: State, u: Key, v: Key, q: nat, p: nat) returns (t: State)
    requires q <= p <= |u| && p <= |v| && (p - q) % 12 == 0
    requires forall k | q <= k < p :: u[k] == v[k]
    ensures Absorb(s, u, q) == Absorb(t, u, p) && Absorb(s, v, q) == Absorb(t, v, p)
    decreases p - q
  {
    hide Mix, Wrap;
    if q == p {
      t := s;
    } else {
      t := CommonBeginning(Block(s, u, q), u, v, q + 12, p);
    }
  }

  lemma SameWordBytes(u: Key, v: Key, p: nat)
    requires p + 4 <= |u| && p + 4 <= |v| && WordAt(u, p) == WordAt(v, p)
    ensures u[p] == v[p] && u[p + 1] == v[p + 1] && u[p + 2] == v[p + 2] && u[p + 3] == v[p + 3]
  {
    BytesOfWord(u[p], u[p + 1], u[p + 2], u[p + 3], v[p], v[p + 1], v[p + 2], v[p + 3]);
  }

  lemma SameBlock(s: State, u: Key, v: Key, p: nat)
    requires p + 12 <= |u| && p + 12 <= |v| && Block(s, u, p) == Block(s, v, p)
    ensures u[p..p + 12] == v[p..p + 12]
  {
    hide Mix, Wrap, WordAt;
    BlockInjectiveInKey(s, WordAt(u, p), WordAt(u, p + 4), WordAt(u, p + 8),
                        WordAt(v, p), WordAt(v, p + 4), WordAt(v, p + 8), 0);
    SameWordBytes(u, v, p);
    SameWordBytes(u, v, p + 4);
    SameWordBytes(u, v, p + 8);
  }

  /** Keys of one length that differ only within one block end in different states. */
  lemma BlockDifferenceShows(u: Key, v: Key, p: nat)
    requires |u| == |v| && p % 12 == 0 && p + 12 <= |u|
    requires u[..p] == v[..p] && u[p + 12..] == v[p + 12..]
    requires u != v
    ensures FinalState(u) != FinalState(v)
  {
    hide Mix, Wrap, Block;
    assert forall k | 0 <= k < p :: u[k] == u[..p][k] == v[..p][k] == v[k];
    assert forall k | p + 12 <= k < |u| :: u[k] == u[p + 12..][k - p - 12] == v[p + 12..][k - p - 12] == v[k];
    var s := CommonBeginning(START, u, v, 0, p);
    AbsorbDependsOnRest(Block(s, v, p), u, v, p + 12);
    if FinalState(u) == FinalState(v) {
      AbsorbInjective(Block(s, u, p), Block(s, v, p), u, p + 12);
      SameBlock(s, u, v, p);
      ThreePieces(u, v, p);
    }
  }

  lemma ThreePieces(u: Key, v: Key, p: nat)
    requires |u| == |v| && p + 12 <= |u|
    requires u[..p] == v[..p] && u[p..p + 12] == v[p..p + 12] && u[p + 12..] == v[p + 12..]
    ensures u == v
  {
    assert u == u[..p] + u[p..p + 12] + u[p + 12..];
    assert v == v[..p] + v[p..p + 12] + v[p + 12..];
  }

  /** Keys that begin with the same whole blocks, and end less than a block later, end in different states. */
  lemma TailDifferenceShows(u: Key, v: Key, p: nat)
    requires p % 12 == 0 && p <= |u| < p + 12 && p <= |v| < p + 12
    requires u[..p] == v[..p]
    requires u != v
    ensures FinalState(u) != FinalState(v)
  {
    hide Mix, Wrap, TailC, TailA;
    assert forall k | 0 <= k < p :: u[k] == u[..p][k] == v[..p][k] == v[k];
    var s := CommonBeginning(START, u, v, 0, p);
    if FinalState(u) == FinalState(v) {
      MixInjective(State(Wrap(s.a + TailA(u, p)), Wrap(s.b + TailA(u, p + 4)), Wrap(s.c + |u| + TailC(u, p))),
                   State(Wrap(s.a + TailA(v, p)), Wrap(s.b + TailA(v, p + 4)), Wrap(s.c + |v| + TailC(v, p))));
      SameTailLength(s.c, u, v, p);
      WrapInjectiveIn(s.a, TailA(u, p), TailA(v, p));
      WrapInjectiveIn(s.b, TailA(u, p + 4), TailA(v, p + 4));
      WrapInjectiveIn(s.c + |u|, TailC(u, p), TailC(v, p));
      SameTail(u, v, p);
    }
  }

  lemma SameTail(u: Key, v: Key, p: nat)
    requires p <= |u| < p + 12 && |u| == |v|
    requires u[..p] == v[..p]
    requires TailA(u, p) == TailA(v, p) && TailA(u, p + 4) == TailA(v, p + 4) && TailC(u, p) == TailC(v, p)
    ensures u == v
  {
    hide TailC, TailA;
    SameTailBytes(u, v, p);
    SameTailBytes(u, v, p + 4);
    SameLastTailBytes(u, v, p + 8);
    forall k | 0 <= k < |u|
      ensures u[k] == v[k]
    {
      if k < p {
        assert u[k] == u[..p][k] == v[..p][k];
      } else {
        assert TailByte(u, k) == TailByte(v, k);
      }
    }
  }

  /** The low byte of the third word is the length's alone. */
  lemma SameTailLength(c: Word, u: Key, v: Key, p: nat)
    requires p <= |u| < p + 12 && p <= |v| < p + 12
    requires Wrap(c + |u| + TailC(u, p)) == Wrap(c + |v| + TailC(v, p))
    ensures |u| == |v|
  {
    var x := TailByte(u, p + 8) as int + TailByte(u, p + 9) as int * 0x100 + TailByte(u, p + 10) as int * 0x1_0000;
    var y := TailByte(v, p + 8) as int + TailByte(v, p + 9) as int * 0x100 + TailByte(v, p + 10) as int * 0x1_0000;
    SameLowByte(c, |u|, |v|, x, y);
  }

  lemma SameLowByte(c: int, m: int, n: int, x: int, y: int)
    requires Wrap(c + m + 0x100 * x) == Wrap(c + n + 0x100 * y)
    requires 0 - 12 < m - n < 12
    ensures m == n
  {
    var q, r := (c + m + 0x100 * x) / WORD, (c + n + 0x100 * y) / WORD;
    assert m - n == 0x100 * (0x100_0000 * (q - r) + y - x);
  }

  /** Not even zero bytes at the end go unseen: the length is taken in. */
  lemma TrailingZerosShow(u: Key, n: nat)
    requires 0 < n && |u| % 12 + n < 12
    ensures FinalState(u) != FinalState(u + Zeros(n))
  {
    var p := |u| - |u| % 12;
    assert (u + Zeros(n))[..p] == u[..p];
    TailDifferenceShows(u, u + Zeros(n), p);
  }

  lemma SameTailBytes(u: Key, v: Key, p: nat)
    requires TailA(u, p) == TailA(v, p)
    ensures forall k | p <= k < p + 4 :: TailByte(u, k) == TailByte(v, k)
  {
    BytesOfWord(TailByte(u, p), TailByte(u, p + 1), TailByte(u, p + 2), TailByte(u, p + 3),
                TailByte(v, p), TailByte(v, p + 1), TailByte(v, p + 2), TailByte(v, p + 3));
  }

  lemma SameLastTailBytes(u: Key, v: Key, p: nat)
    requires p >= 8 && TailC(u, p - 8) == TailC(v, p - 8)
    ensures forall k | p <= k < p + 3 :: TailByte(u, k) == TailByte(v, k)
  {
    BytesOfWord(0, TailByte(u, p), TailByte(u, p + 1), TailByte(u, p + 2),
                0, TailByte(v, p), TailByte(v, p + 1), TailByte(v, p + 2));
  }

  // --- a fixed value ---

  /** One line of the macro, on machine words. */
  lemma LineTo(x: Word, y: Word, z: Word, shifted: Word, d: bv32, e: bv32, r: Word)
    requires Wrap(x - y - z) == Number(d) && shifted == Number(e) && r == Number(d ^ e)
    ensures Xor(Sub2(x, y, z), shifted) == r
  {
    hide BitXor, Number;
    XorOfNumbers(d, e);
  }

  lemma ShrTo(x: Word, k: nat, p: nat)
    requires p == Pow2(k)
    ensures Shr(x, k) == x / p
  {
    ShiftIsQuotient(x, k);
  }

  lemma Shifts()
    ensures Pow2(3) == 0x8
    ensures Pow2(5) == 0x20
    ensures Pow2(8) == 0x100
    ensures Pow2(10) == 0x400
    ensures Pow2(12) == 0x1000
    ensures Pow2(13) == 0x2000
    ensures Pow2(15) == 0x8000
    ensures Pow2(16) == 0x10000
  {
    assert Pow2(4) == 0x10;
  }

  lemma Round1()
    ensures Round(State(0xa23a7bba, 0xa63e7fbe, 0x0af8c8f8), 13, 8, 13) == State(0xf10364c2, 0xa9269004, 0x70cb9d06)
  {
    hide Pow2, Xor, Sub2, Shr;
    Shifts();
    ShrTo(0x0af8c8f8, 13, 0x2000);
    LineTo(0xa23a7bba, 0xa63e7fbe, 0x0af8c8f8, 0x000057c6, 0xf1033304, 0x000057c6, 0xf10364c2);
    LineTo(0xa63e7fbe, 0x0af8c8f8, 0xf10364c2, 0x0364c200, 0xaa425204, 0x0364c200, 0xa9269004);
    LineTo(0x0af8c8f8, 0xf10364c2, 0xa9269004, 0x00054934, 0x70ced432, 0x00054934, 0x70cb9d06);
    ShrTo(0xa9269004, 13, 0x2000);
  }

  lemma Round2()
    ensures Round(State(0xf10364c2, 0xa9269004, 0x70cb9d06), 12, 16, 5) == State(0xd7163b01, 0x5a45b7fd, 0x3dbd87b7)
  {
    hide Pow2, Xor, Sub2, Shr;
    Shifts();
    ShrTo(0x70cb9d06, 12, 0x1000);
    LineTo(0xf10364c2, 0xa9269004, 0x70cb9d06, 0x00070cb9, 0xd71137b8, 0x00070cb9, 0xd7163b01);
    LineTo(0xa9269004, 0x70cb9d06, 0xd7163b01, 0x3b010000, 0x6144b7fd, 0x3b010000, 0x5a45b7fd);
    LineTo(0x70cb9d06, 0xd7163b01, 0x5a45b7fd, 0x02d22dbf, 0x3f6faa08, 0x02d22dbf, 0x3dbd87b7);
    ShrTo(0x5a45b7fd, 5, 0x20);
  }

  lemma Round3()
    ensures Round(State(0xd7163b01, 0x5a45b7fd, 0x3dbd87b7), 3, 10, 15) == State(0x38a54bbb, 0x76cc088b, 0x8e4cdee9)
  {
    hide Pow2, Xor, Sub2, Shr;
    Shifts();
    ShrTo(0x3dbd87b7, 3, 0x8);
    LineTo(0xd7163b01, 0x5a45b7fd, 0x3dbd87b7, 0x07b7b0f6, 0x3f12fb4d, 0x07b7b0f6, 0x38a54bbb);
    LineTo(0x5a45b7fd, 0x3dbd87b7, 0x38a54bbb, 0x952eec00, 0xe3e2e48b, 0x952eec00, 0x76cc088b);
    LineTo(0x3dbd87b7, 0x38a54bbb, 0x76cc088b, 0x0000ed98, 0x8e4c3371, 0x0000ed98, 0x8e4cdee9);
    ShrTo(0x76cc088b, 15, 0x8000);
  }

  lemma Round4()
    ensures Round(State(0x48b459c8, 0x8adf1a9c, 0xa562f400), 13, 8, 13) == State(0x1877603b, 0xba64fd61, 0xd2834543)
  {
    hide Pow2, Xor, Sub2, Shr;
    Shifts();
    ShrTo(0xa562f400, 13, 0x2000);
    LineTo(0x48b459c8, 0x8adf1a9c, 0xa562f400, 0x00052b17, 0x18724b2c, 0x00052b17, 0x1877603b);
    LineTo(0x8adf1a9c, 0xa562f400, 0x1877603b, 0x77603b00, 0xcd04c661, 0x77603b00, 0xba64fd61);
    LineTo(0xa562f400, 0x1877603b, 0xba64fd61, 0x0005d327, 0xd2869664, 0x0005d327, 0xd2834543);
    ShrTo(0xba64fd61, 13, 0x2000);
  }

  lemma Round5()
    ensures Round(State(0x1877603b, 0xba64fd61, 0xd2834543), 12, 16, 5) == State(0x8b8235a3, 0x69fc827b, 0xde4b6936)
  {
    hide Pow2, Xor, Sub2, Shr;
    Shifts();
    ShrTo(0xd2834543, 12, 0x1000);
    LineTo(0x1877603b, 0xba64fd61, 0xd2834543, 0x000d2834, 0x8b8f1d97, 0x000d2834, 0x8b8235a3);
    LineTo(0xba64fd61, 0xd2834543, 0x8b8235a3, 0x35a30000, 0x5c5f827b, 0x35a30000, 0x69fc827b);
    LineTo(0xd2834543, 0x8b8235a3, 0x69fc827b, 0x034fe413, 0xdd048d25, 0x034fe413, 0xde4b6936);
    ShrTo(0x69fc827b, 5, 0x20);
  }

  lemma Round6()
    ensures Round(State(0x8b8235a3, 0x69fc827b, 0xde4b6936), 3, 10, 15) == State(0x58f324d4, 0xfe2ea471, 0x872863ac)
  {
    hide Pow2, Xor, Sub2, Shr;
    Shifts();
    ShrTo(0xde4b6936, 3, 0x8);
    LineTo(0x8b8235a3, 0x69fc827b, 0xde4b6936, 0x1bc96d26, 0x433a49f2, 0x1bc96d26, 0x58f324d4);
    LineTo(0x69fc827b, 0xde4b6936, 0x58f324d4, 0xcc935000, 0x32bdf471, 0xcc935000, 0xfe2ea471);
    LineTo(0xde4b6936, 0x58f324d4, 0xfe2ea471, 0x0001fc5d, 0x87299ff1, 0x0001fc5d, 0x872863ac);
    ShrTo(0xfe2ea471, 15, 0x8000);
  }

  /** The hash value of a key of 23 bytes, each of them different: one whole block and eleven bytes behind it. */
  lemma FixedValue()
    ensures Hash(seq(23, i => i + 1)) == 0x872863ac
  {
    hide Round;
    var key: Key := seq(23, i => i + 1);
    Round1();
    Round2();
    Round3();
    Round4();
    Round5();
    Round6();
    assert Block(START, key, 0) == State(0x38a54bbb, 0x76cc088b, 0x8e4cdee9);
    assert Tail(State(0x38a54bbb, 0x76cc088b, 0x8e4cdee9), key, 12) == State(0x58f324d4, 0xfe2ea471, 0x872863ac);
    assert FinalState(key) == Absorb(State(0x38a54bbb, 0x76cc088b, 0x8e4cdee9), key, 12);
  }
}
