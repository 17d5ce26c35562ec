/**
  The numbers of module Bits and the bit vectors of a machine.

  The exclusive or and the half of a number below 2^32 are those of the machine word that
  it is the value of.  With these two, fixed values of the CRC and of Jenkins' hash can be
  worked out on machine words.
 */
module MachineWords {
  import opened Bits
  import opened Words

  // --- exclusive or by parts ---

  /** The parts below and above bit k are combined separately. */
  lemma {:induction false} XorOfParts(a: nat, b: nat, i: nat, j: nat, k: nat)
    requires i < Pow2(k) && j < Pow2(k)
    ensures BitXor(a * Pow2(k) + i, b * Pow2(k) + j) == BitXor(a, b) * Pow2(k) + BitXor(i, j)
  {
    hide BitXor;
    if k == 0 {
      XorOfNothing(a, b);
    } else {
      XorOfParts(a, b, i / 2, j / 2, k - 1);
      XorOfLongerParts(a, b, BitXor(a, b), i, j, Pow2(k - 1), Pow2(k));
    }
  }

  lemma XorOfNothing(a: nat, b: nat)
    ensures Pow2(0) == 1 && BitXor(0, 0) == 0 && BitXor(0, b) == b
    ensures BitXor(a * 1 + 0, b * 1 + 0) == BitXor(a, b) * 1 + 0
  {
  }

  lemma XorOfLongerParts(a: nat, b: nat, r: nat, i: nat, j: nat, p: nat, q: nat)
    requires q == 2 * p
    requires BitXor(a * p + i / 2, b * p + j / 2) == r * p + BitXor(i / 2, j / 2)
    ensures BitXor(a * q + i, b * q + j) == r * q + BitXor(i, j)
  {
    hide BitXor;
    DoubledProduct(a, p);
    DoubledProduct(b, p);
    DoubledProduct(r, p);
    XorOfHalves(a * p, b * p, i, j, r * p);
  }

  lemma DoubledProduct(a: nat, p: nat)
    ensures a * (2 * p) == 2 * (a * p)
  {
  }

  lemma XorOfHalves(a: nat, b: nat, i: nat, j: nat, r: nat)
    requires BitXor(a + i / 2, b + j / 2) == r + BitXor(i / 2, j / 2)
    ensures BitXor(2 * a + i, 2 * b + j) == 2 * r + BitXor(i, j)
  {
    hide BitXor;
    XorUnfold(2 * a + i, 2 * b + j);
    XorUnfold(i, j);
    assert (2 * a + i) / 2 == a + i / 2 && (2 * b + j) / 2 == b + j / 2;
    assert (2 * a + i) % 2 == i % 2 && (2 * b + j) % 2 == j % 2;
  }

  // --- bytes ---

  function Value(b: bv8): nat {
    b as nat
  }

  lemma HalfOfByte(b: bv8)
    ensures Value(b >> 1) == Value(b) / 2 && (b & 1 == 1 <==> Value(b) % 2 == 1) && (Value(b) == 0 <==> b == 0)
  {
  }

  lemma ByteInRange(b: bv8)
    ensures Value(b) < 0x100
  {
  }

  lemma HalvesOfXor(b: bv8, c: bv8)
    ensures (b ^ c) >> 1 == (b >> 1) ^ (c >> 1) && ((b ^ c) & 1 == 1 <==> (b & 1 == 1) != (c & 1 == 1))
    ensures 0 ^ c == c
  {
  }

  lemma XorFromHalves(x: nat, y: nat, z: nat)
    requires BitXor(x / 2, y / 2) == z / 2 && (z % 2 == 1 <==> (x % 2 == 1) != (y % 2 == 1))
    ensures BitXor(x, y) == z
  {
    hide BitXor;
    XorUnfold(x, y);
  }

  /** The exclusive or of two bytes is the machine's. */
  lemma {:induction false} XorOfBytes(b: bv8, c: bv8)
    ensures BitXor(Value(b), Value(c)) == Value(b ^ c)
    decreases Value(b)
  {
    hide BitXor, Value;
    HalfOfByte(b);
    HalfOfByte(c);
    HalfOfByte(b ^ c);
    HalvesOfXor(b, c);
    if b == 0 {
      XorOfNothing(0, Value(c));
    } else {
      XorOfBytes(b >> 1, c >> 1);
      XorFromHalves(Value(b), Value(c), Value(b ^ c));
    }
  }

  // --- words of four bytes ---

  /** The byte b behind the number a. */
  function Behind(a: nat, b: bv8): nat {
    a * 0x100 + Value(b)
  }

  lemma XorOfLowByte(a: nat, b: nat, r: nat, i: bv8, j: bv8)
    requires BitXor(a, b) == r
    ensures BitXor(Behind(a, i), Behind(b, j)) == Behind(r, i ^ j)
  {
    hide BitXor, Pow2, Value;
    PowerOfByte();
    ByteInRange(i);
    ByteInRange(j);
    XorOfParts(a, b, Value(i), Value(j), 8);
    XorOfBytes(i, j);
  }

  /** A word of four bytes, the highest first. */
  function WordOf(b3: bv8, b2: bv8, b1: bv8, b0: bv8): nat {
    Behind(Behind(Behind(Value(b3), b2), b1), b0)
  }

  /** The exclusive or of two words, byte by byte. */
  lemma XorOfWords(a3: bv8, a2: bv8, a1: bv8, a0: bv8, b3: bv8, b2: bv8, b1: bv8, b0: bv8)
    ensures BitXor(WordOf(a3, a2, a1, a0), WordOf(b3, b2, b1, b0)) == WordOf(a3 ^ b3, a2 ^ b2, a1 ^ b1, a0 ^ b0)
  {
    hide BitXor, Value, Behind;
    var a, b, r := Value(a3), Value(b3), Value(a3 ^ b3);
    XorOfBytes(a3, b3);
    XorOfLowByte(a, b, r, a2, b2);
    a, b, r := Behind(a, a2), Behind(b, b2), Behind(r, a2 ^ b2);
    XorOfLowByte(a, b, r, a1, b1);
    a, b, r := Behind(a, a1), Behind(b, b1), Behind(r, a1 ^ b1);
    XorOfLowByte(a, b, r, a0, b0);
  }

  lemma PowerOfByte()
    ensures Pow2(8) == 0x100
  {
    assert Pow2(4) == 16;
  }

  // --- machine words ---

  function Byte3(w: bv32): bv8 {
    (w >> 24) as bv8
  }

  function Byte2(w: bv32): bv8 {
    ((w >> 16) & 0xff) as bv8
  }

  function Byte1(w: bv32): bv8 {
    ((w >> 8) & 0xff) as bv8
  }

  function Byte0(w: bv32): bv8 {
    (w & 0xff) as bv8
  }

  /** The number a machine word stands for. */
  function Number(w: bv32): nat {
    WordOf(Byte3(w), Byte2(w), Byte1(w), Byte0(w))
  }

  lemma BytesOfXor(v: bv32, w: bv32)
    ensures Byte3(v ^ w) == Byte3(v) ^ Byte3(w) && Byte2(v ^ w) == Byte2(v) ^ Byte2(w)
    ensures Byte1(v ^ w) == Byte1(v) ^ Byte1(w) && Byte0(v ^ w) == Byte0(v) ^ Byte0(w)
  {
  }

  /** On words, the exclusive or is the machine's. */
  lemma XorOfNumbers(v: bv32, w: bv32)
    ensures BitXor(Number(v), Number(w)) == Number(v ^ w)
  {
    hide BitXor, Byte3, Byte2, Byte1, Byte0, WordOf;
    BytesOfXor(v, w);
    XorOfWords(Byte3(v), Byte2(v), Byte1(v), Byte0(v), Byte3(w), Byte2(w), Byte1(w), Byte0(w));
  }

  /** The half of the byte l, with the last bit of the byte h shifted in. */
  function Carry(h: bv8, l: bv8): bv8 {
    (h << 7) | (l >> 1)
  }

  lemma BytesOfHalf(w: bv32)
    ensures Byte3(w >> 1) == Byte3(w) >> 1 && Byte2(w >> 1) == Carry(Byte3(w), Byte2(w))
    ensures Byte1(w >> 1) == Carry(Byte2(w), Byte1(w)) && Byte0(w >> 1) == Carry(Byte1(w), Byte0(w))
    ensures w & 1 == 1 <==> Byte0(w) & 1 == 1
  {
  }

  lemma ByteWithTopBit(l: bv8)
    ensures Value((l >> 1) | 0x80) == Value(l) / 2 + 0x80
  {
  }

  lemma CarryByCases(h: bv8, l: bv8)
    ensures Carry(h, l) == if h & 1 == 1 then (l >> 1) | 0x80 else l >> 1
  {
  }

  lemma ValueOfCarry(h: bv8, l: bv8)
    ensures Value(Carry(h, l)) == Value(h) % 2 * 0x80 + Value(l) / 2
  {
    hide Carry, Value;
    CarryByCases(h, l);
    ByteWithTopBit(l);
    HalfOfByte(h);
    HalfOfByte(l);
  }

  lemma HalfOfBehind(a: nat, h: bv8, l: bv8, r: nat)
    requires r == a / 2 && a % 2 == Value(h) % 2
    ensures Behind(a, l) / 2 == Behind(r, Carry(h, l)) && Behind(a, l) % 2 == Value(l) % 2
  {
    hide Carry, Value;
    ValueOfCarry(h, l);
  }

  lemma HalfOfWord(b3: bv8, b2: bv8, b1: bv8, b0: bv8)
    ensures WordOf(b3, b2, b1, b0) / 2 == WordOf(b3 >> 1, Carry(b3, b2), Carry(b2, b1), Carry(b1, b0))
    ensures WordOf(b3, b2, b1, b0) % 2 == 1 <==> b0 & 1 == 1
  {
    hide Carry, Value, Behind;
    HalfOfByte(b3);
    HalfOfByte(b0);
    HalfOfBehind(Value(b3), b3, b2, Value(b3 >> 1));
    var a, r := Behind(Value(b3), b2), Behind(Value(b3 >> 1), Carry(b3, b2));
    HalfOfBehind(a, b2, b1, r);
    HalfOfBehind(Behind(a, b1), b1, b0, Behind(r, Carry(b2, b1)));
  }

  /** On words, a step to the right by one is the half. */
  lemma HalfOfNumber(w: bv32)
    ensures Number(w) / 2 == Number(w >> 1) && (Number(w) % 2 == 1 <==> w & 1 == 1)
  {
    hide Carry, WordOf, Byte3, Byte2, Byte1, Byte0;
    BytesOfHalf(w);
    HalfOfWord(Byte3(w), Byte2(w), Byte1(w), Byte0(w));
  }

  lemma NumberInRange(w: bv32)
    ensures Number(w) < WORD
  {
    hide Value, Byte3, Byte2, Byte1, Byte0;
    ByteInRange(Byte3(w));
    ByteInRange(Byte2(w));
    ByteInRange(Byte1(w));
    ByteInRange(Byte0(w));
  }
}
