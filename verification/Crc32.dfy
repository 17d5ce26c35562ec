/**
  The CRC of uboot.c: the table built from the exponents of the polynomial, the walk
  that is unrolled by eight, and what the check value can be relied on for.

  The reference is the CRC taken one bit at a time.  It is the CRC of section 8 of
  RFC 1952.
 */
module Crc32 {
  import opened Basics
  import opened Bits
  import opened Words
  import opened MachineWords

  /** The exponents of the polynomial, but the highest: p[] of crc_init. */
  const EXPONENTS: seq<nat> := [0, 1, 2, 4, 5, 7, 8, 10, 11, 12, 16, 22, 23, 26]

  /** The exclusive-or pattern of the polynomial. */
  const POLY: Word := 0xedb88320

  const ONES: Word := 0xffffffff

  // --- the reference: one bit at a time ---

  /** Shift one bit out of the register. */
  function Step(c: Word): Word {
    if c % 2 == 1 then Xor(POLY, c / 2) else c / 2
  }

  function Steps(c: Word, k: nat): Word {
    if k == 0 then c else Step(Steps(c, k - 1))
  }

  function CrcByte(c: Word, b: Byte): Word {
    Steps(Xor(c, b), 8)
  }

  function CrcBytes(c: Word, s: seq<Byte>): Word {
    if s == [] then c else CrcByte(CrcBytes(c, s[..|s| - 1]), s[|s| - 1])
  }

  /** The check value of s, continuing from the check value crc. */
  function Crc(crc: Word, s: seq<Byte>): Word {
    Xor(CrcBytes(Xor(crc, ONES), s), ONES)
  }

  // --- the bit step is linear and injective ---

  lemma {:induction false} StepsAdd(c: Word, j: nat, k: nat)
    ensures Steps(Steps(c, j), k) == Steps(c, j + k)
  {
    if k > 0 {
      StepsAdd(c, j, k - 1);
    }
  }

  lemma StepLinear(x: Word, y: Word)
    ensures Step(Xor(x, y)) == Xor(Step(x), Step(y))
  {
    XorUnfold(x, y);
    var a, b := x / 2, y / 2;
    assert Xor(x, y) / 2 == BitXor(a, b);
    if x % 2 == 1 && y % 2 == 1 {
      XorTwoPatterns(POLY, a, b);
    } else if x % 2 == 1 {
      XorAssociates(POLY, a, b);
    } else if y % 2 == 1 {
      XorCommutes(POLY, b);
      XorAssociates(a, b, POLY);
      XorCommutes(POLY, BitXor(a, b));
    }
  }

  lemma XorTwoPatterns(p: nat, a: nat, b: nat)
    ensures BitXor(BitXor(p, a), BitXor(p, b)) == BitXor(a, b)
  {
    XorCommutes(p, a);
    XorAssociates(a, p, BitXor(p, b));
    XorAssociates(p, p, b);
    XorSelf(p);
  }

  lemma {:induction false} StepsLinear(x: Word, y: Word, k: nat)
    ensures Steps(Xor(x, y), k) == Xor(Steps(x, k), Steps(y, k))
  {
    if k > 0 {
      StepsLinear(x, y, k - 1);
      StepLinear(Steps(x, k - 1), Steps(y, k - 1));
    }
  }

  /** The top bit of a xor whose left side alone has it. */
  lemma TopBitStays(p: nat, x: nat, k: nat)
    requires Pow2(k) <= p < Pow2(k + 1) && x < Pow2(k)
    ensures Pow2(k) <= BitXor(p, x)
  {
    if BitXor(p, x) < Pow2(k) {
      XorInRange(BitXor(p, x), x, k);
      XorTwice(p, x);
    }
  }

  /** The pattern's top bit tells whether a one was shifted out, so a step can be undone. */
  lemma StepInjective(x: Word, y: Word)
    requires Step(x) == Step(y)
    ensures x == y
  {
    WordSize();
    assert Pow2(31) == 0x8000_0000;
    TopBitStays(POLY, x / 2, 31);
    TopBitStays(POLY, y / 2, 31);
    if x % 2 == 1 && y % 2 == 1 {
      XorTwice(x / 2, POLY);
      XorTwice(y / 2, POLY);
      XorCommutes(POLY, x / 2);
      XorCommutes(POLY, y / 2);
    }
  }

  lemma {:induction false} StepsInjective(x: Word, y: Word, k: nat)
    requires Steps(x, k) == Steps(y, k)
    ensures x == y
  {
    if k > 0 {
      StepInjective(Steps(x, k - 1), Steps(y, k - 1));
      StepsInjective(x, y, k - 1);
    }
  }

  /** Zeros that are shifted out leave no trace. */
  lemma {:induction false} StepsOfShifted(h: nat, k: nat)
    requires h * Pow2(k) < WORD
    ensures Steps(h * Pow2(k), k) == h
    decreases k
  {
    if k > 0 {
      var p := Pow2(k - 1);
      assert h * Pow2(k) == (h * 2) * p;
      ProductGrows(p, h * 2);
      StepsOfShifted(h * 2, k - 1);
      assert Steps(h * Pow2(k), k) == Step(Steps((h * 2) * p, k - 1));
    }
  }

  /** Numbers without a common bit: exclusive or is addition. */
  lemma {:induction false} XorDisjoint(h: nat, l: nat, k: nat)
    requires l < Pow2(k)
    ensures BitXor(l, h * Pow2(k)) == l + h * Pow2(k)
  {
    if k > 0 {
      var p := Pow2(k - 1);
      var x := h * p;
      assert h * Pow2(k) == 2 * x;
      XorDisjoint(h, l / 2, k - 1);
      XorUnfold(l, 2 * x);
      assert (2 * x) / 2 == x && (2 * x) % 2 == 0;
      assert BitXor(l, 2 * x) == 2 * (l / 2 + x) + l % 2;
    } else {
      assert Pow2(0) == 1;
    }
  }

  // --- a byte at a time by table ---

  /** Eight bit steps are one table entry and one shift by eight. */
  lemma EightSteps(x: Word)
    ensures Steps(x, 8) == Xor(Steps(x % 256, 8), x / 256)
  {
    assert Pow2(8) == 256 by {
      assert Pow2(4) == 16;
    }
    var l, h := x % 256, x / 256;
    XorDisjoint(h, l, 8);
    assert Xor(l, h * 256) == x;
    StepsLinear(l, h * 256, 8);
    StepsOfShifted(h, 8);
  }

  lemma ByteSizes()
    ensures Pow2(0) == 1 && Pow2(8) == 0x100 && Pow2(16) == 0x1_0000 && Pow2(24) == 0x100_0000 && Pow2(32) == WORD
  {
    WordSize();
    assert Pow2(4) == 16;
    assert Pow2(12) == 16 * Pow2(8);
    assert Pow2(20) == 16 * Pow2(16);
    assert Pow2(28) == 16 * Pow2(24);
  }

  lemma {:induction false} ShiftPastByte(c: Word, b: Byte)
    ensures Xor(c, b) / 256 == c / 256
  {
    hide BitXor, Pow2;
    ByteSizes();
    var l, h := c % 256, c / 256;
    XorDisjoint(h, l, 8);
    XorCommutes(l, h * 256);
    XorAssociates(h * 256, l, b);
    XorInRange(l, b, 8);
    XorCommutes(h * 256, BitXor(l, b));
    XorDisjoint(h, BitXor(l, b), 8);
  }

  /** DO1: the line of crc_calc that takes in one byte. */
  lemma TableByte(c: Word, b: Byte)
    ensures Xor(Steps(Xor(c, b) % 256, 8), c / 256) == CrcByte(c, b)
  {
    EightSteps(Xor(c, b));
    ShiftPastByte(c, b);
  }

  // --- concatenation ---

  lemma {:induction false} CrcBytesConcat(c: Word, s: seq<Byte>, t: seq<Byte>)
    ensures CrcBytes(c, s + t) == CrcBytes(CrcBytes(c, s), t)
  {
    if t == [] {
      assert s + t == s;
    } else {
      var front, b := t[..|t| - 1], t[|t| - 1];
      assert (s + t)[..|s + t| - 1] == s + front;
      CrcBytesConcat(c, s, front);
    }
  }

  /** The check value of a whole can be taken piece by piece. */
  lemma CrcComposes(c: Word, s: seq<Byte>, t: seq<Byte>)
    ensures Crc(Crc(c, s), t) == Crc(c, s + t)
  {
    CrcBytesConcat(Xor(c, ONES), s, t);
    XorBack(CrcBytes(Xor(c, ONES), s), ONES);
  }

  // --- bursts ---

  /** At most four bytes as one word, the first byte lowest. */
  function LittleEndian(s: seq<Byte>): (w: Word)
    requires |s| <= 4
    ensures w < Pow2(8 * |s|)
  {
    if s == [] then 0
    else
      ByteSizes();
      LittleEndian(s[..|s| - 1]) + s[|s| - 1] as int * Pow2(8 * (|s| - 1))
  }

  lemma SamePlaces(l: nat, b: Byte, l': nat, b': Byte, n: nat)
    requires n < 4 && l < Pow2(8 * n) && l' < Pow2(8 * n)
    requires l + b as int * Pow2(8 * n) == l' + b' as int * Pow2(8 * n)
    ensures l == l' && b == b'
  {
    hide Pow2;
    ByteSizes();
    if n == 0 {
    } else if n == 1 {
    } else if n == 2 {
    } else {
      assert n == 3;
    }
  }

  lemma PlaceInWord(b: Byte, n: nat)
    requires n < 4
    ensures b as int * Pow2(8 * n) < WORD
  {
    hide Pow2;
    ByteSizes();
    if n == 0 {
    } else if n == 1 {
    } else if n == 2 {
    } else {
      assert n == 3;
    }
  }

  lemma {:induction false} LittleEndianInjective(s: seq<Byte>, t: seq<Byte>)
    requires |s| == |t| <= 4 && LittleEndian(s) == LittleEndian(t)
    ensures s == t
  {
    if s != [] {
      hide Pow2;
      var s', t' := s[..|s| - 1], t[..|t| - 1];
      SamePlaces(LittleEndian(s'), s[|s| - 1], LittleEndian(t'), t[|t| - 1], |s'|);
      LittleEndianInjective(s', t');
      assert s == s' + [s[|s| - 1]] && t == t' + [t[|t| - 1]];
    }
  }

  lemma LastByte(c: Word, s: seq<Byte>)
    requires s != []
    ensures CrcBytes(c, s) == CrcByte(CrcBytes(c, s[..|s| - 1]), s[|s| - 1])
    ensures |s| <= 4 ==> LittleEndian(s) == LittleEndian(s[..|s| - 1]) + s[|s| - 1] as int * Pow2(8 * (|s| - 1))
  {
  }

  /** One more byte, after m bit steps: it might as well have been there, m places up, from the start. */
  lemma NextByte(x: Word, b: Byte, m: nat)
    requires b as int * Pow2(m) < WORD
    ensures CrcByte(Steps(x, m), b) == Steps(Xor(x, b as int * Pow2(m)), m + 8)
  {
    var shifted: Word := b as int * Pow2(m);
    StepsOfShifted(b, m);
    StepsLinear(x, shifted, m);
    StepsAdd(Xor(x, shifted), m, 8);
  }

  /** The same for a word l of m bits that has already been taken in. */
  lemma NextPlace(c: Word, l: Word, b: Byte, h: Word, m: nat)
    requires l < Pow2(m) && h == b as int * Pow2(m) && l + h < WORD
    ensures CrcByte(Steps(Xor(c, l), m), b) == Steps(Xor(c, l + h), m + 8)
  {
    hide Steps, Pow2, CrcByte, BitXor;
    NextByte(Xor(c, l), b, m);
    XorAssociates(c, l, h);
    XorDisjoint(b, l, m);
  }

  /** Up to four bytes enter the register as one word. */
  lemma {:induction false} FewBytes(c: Word, s: seq<Byte>)
    requires |s| <= 4
    ensures LittleEndian(s) < WORD && CrcBytes(c, s) == Steps(Xor(c, LittleEndian(s)), 8 * |s|)
  {
    hide Steps, Pow2, CrcBytes, LittleEndian, CrcByte, Xor;
    WordOfBytes(s);
    if s == [] {
      NoBytesNoSteps(c);
    } else {
      var front, b := s[..|s| - 1], s[|s| - 1];
      FewBytes(c, front);
      LastByte(c, s);
      PlaceInWord(b, |front|);
      NextPlace(c, LittleEndian(front), b, b as int * Pow2(8 * |front|), 8 * |front|);
    }
  }

  lemma WordOfBytes(s: seq<Byte>)
    requires |s| <= 4
    ensures LittleEndian(s) < WORD
  {
    hide Pow2, LittleEndian;
    ByteSizes();
    assert |s| == 0 || |s| == 1 || |s| == 2 || |s| == 3 || |s| == 4;
  }

  lemma NoBytesNoSteps(c: Word)
    ensures LittleEndian([]) == 0 && CrcBytes(c, []) == Steps(Xor(c, 0), 0)
  {
    XorCommutes(c, 0);
  }

  lemma {:induction false} CrcBytesInjective(c: Word, d: Word, s: seq<Byte>)
    requires CrcBytes(c, s) == CrcBytes(d, s)
    ensures c == d
  {
    if s != [] {
      var front, b := s[..|s| - 1], s[|s| - 1];
      StepsInjective(Xor(CrcBytes(c, front), b), Xor(CrcBytes(d, front), b), 8);
      XorBack(CrcBytes(c, front), b);
      XorBack(CrcBytes(d, front), b);
      CrcBytesInjective(c, d, front);
    }
  }

  /** Two buffers that differ only inside four consecutive bytes never have the same check value. */
  lemma BurstDetected(crc: Word, before: seq<Byte>, u: seq<Byte>, v: seq<Byte>, after: seq<Byte>)
    requires |u| == |v| <= 4 && u != v
    ensures Crc(crc, before + u + after) != Crc(crc, before + v + after)
  {
    var c := CrcBytes(Xor(crc, ONES), before);
    CrcBytesConcat(Xor(crc, ONES), before, u);
    CrcBytesConcat(Xor(crc, ONES), before + u, after);
    CrcBytesConcat(Xor(crc, ONES), before, v);
    CrcBytesConcat(Xor(crc, ONES), before + v, after);
    var x, y := CrcBytes(c, u), CrcBytes(c, v);
    if Crc(crc, before + u + after) == Crc(crc, before + v + after) {
      XorBack(CrcBytes(x, after), ONES);
      XorBack(CrcBytes(y, after), ONES);
      CrcBytesInjective(x, y, after);
      FewBytes(c, u);
      FewBytes(c, v);
      StepsInjective(Xor(c, LittleEndian(u)), Xor(c, LittleEndian(v)), 8 * |u|);
      XorCommutes(c, LittleEndian(u));
      XorCommutes(c, LittleEndian(v));
      XorBack(LittleEndian(u), c);
      XorBack(LittleEndian(v), c);
      LittleEndianInjective(u, v);
    }
  }

  // --- fixed values ---

  /** The bit step on machine words. */
  function MachineStep(w: bv32): bv32 {
    if w & 1 == 1 then 0xedb88320 ^ (w >> 1) else w >> 1
  }

  function MachineSteps(w: bv32, k: nat): bv32 {
    if k == 0 then w else MachineStep(MachineSteps(w, k - 1))
  }

  lemma StepOfNumber(w: bv32)
    ensures Number(w) < WORD && Step(Number(w)) == Number(MachineStep(w))
  {
    PolyNumber();
    hide Number, BitXor;
    NumberInRange(w);
    HalfOfNumber(w);
    XorOfNumbers(0xedb88320, w >> 1);
  }

  lemma PolyNumber()
    ensures Number(0xedb88320) == POLY
  {
  }

  lemma {:induction false} StepsOfNumber(w: bv32, k: nat)
    ensures Number(w) < WORD && Steps(Number(w), k) == Number(MachineSteps(w, k))
  {
    hide Number, Step, MachineStep;
    NumberInRange(w);
    if k > 0 {
      StepsOfNumber(w, k - 1);
      StepOfNumber(MachineSteps(w, k - 1));
    }
  }

  /** The steps of a register of ones. */
  lemma MachineStepsOfOnes()
    ensures MachineSteps(0xffffffff, 8) == 0x2dfd1072
    ensures MachineSteps(0xffffffff, 32) == 0xdebb20e3
  {
    assert MachineSteps(0xffffffff, 4) == 0xb2420de3;
    assert MachineSteps(0xffffffff, 12) == 0x39b1f1cf;
    assert MachineSteps(0xffffffff, 16) == 0xbe26ed00;
    assert MachineSteps(0xffffffff, 20) == 0x0be26ed0;
    assert MachineSteps(0xffffffff, 24) == 0x00be26ed;
    assert MachineSteps(0xffffffff, 28) == 0x86d830ba;
  }

  lemma NumbersOfSteps()
    ensures Number(0xffffffff) == ONES && Number(0x2dfd1072) == 0x2dfd1072 && Number(0xdebb20e3) == 0xdebb20e3
    ensures Number(0x2144df1c) == 0x2144df1c
  {
  }

  /** Eight and 32 bit steps from a register of ones. */
  lemma StepsOfOnes()
    ensures Steps(ONES, 8) == 0x2dfd1072 && Steps(ONES, 32) == 0xdebb20e3
  {
    hide Steps, MachineSteps, Number;
    MachineStepsOfOnes();
    NumbersOfSteps();
    StepsOfNumber(0xffffffff, 8);
    StepsOfNumber(0xffffffff, 32);
  }

  /** The four bytes of a word, lowest first. */
  function BytesOf(w: Word): (s: seq<Byte>)
    ensures |s| == 4
  {
    [w % 0x100, w / 0x100 % 0x100, w / 0x1_0000 % 0x100, w / 0x100_0000]
  }

  lemma BytesBack(w: Word)
    ensures LittleEndian(BytesOf(w)) == w
  {
    hide Pow2, LittleEndian;
    ByteSizes();
    NoBytesNoSteps(0);
    var s := BytesOf(w);
    LastPlace([], s[0], 0);
    LastPlace([s[0]], s[1], 8);
    LastPlace([s[0], s[1]], s[2], 16);
    LastPlace([s[0], s[1], s[2]], s[3], 24);
    assert [] + [s[0]] == [s[0]] && [s[0]] + [s[1]] == [s[0], s[1]] && [s[0], s[1]] + [s[2]] == [s[0], s[1], s[2]];
    assert [s[0], s[1], s[2]] + [s[3]] == s;
    BytesMakeWord(w);
  }

  lemma LastPlace(s: seq<Byte>, b: Byte, m: nat)
    requires |s| <= 3 && m == 8 * |s|
    ensures LittleEndian(s + [b]) == LittleEndian(s) + b as int * Pow2(m)
  {
    hide Pow2;
    assert (s + [b])[..|s|] == s;
  }

  lemma BytesMakeWord(w: Word)
    ensures w == w % 0x100 + w / 0x100 % 0x100 * 0x100 + w / 0x1_0000 % 0x100 * 0x1_0000 + w / 0x100_0000 * 0x100_0000
  {
    DivMod(w, 0x100);
    DivMod(w / 0x100, 0x100);
    DivMod(w / 0x1_0000, 0x100);
    assert w / 0x100 / 0x100 == w / 0x1_0000 && w / 0x1_0000 / 0x100 == w / 0x100_0000;
  }

  /** A string with its own check value behind it always has the same check value. */
  lemma Residue(crc: Word, s: seq<Byte>)
    ensures Crc(crc, s + BytesOf(Crc(crc, s))) == 0x2144df1c
  {
    hide Steps, CrcBytes, LittleEndian, BytesOf, Xor;
    var c := CrcBytes(Xor(crc, ONES), s);
    var v := Crc(crc, s);
    CrcBytesConcat(Xor(crc, ONES), s, BytesOf(v));
    FewBytes(c, BytesOf(v));
    BytesBack(v);
    XorOnes(c);
    StepsOfOnes();
    ResidueOfOnes();
  }

  lemma XorOnes(c: Word)
    ensures Xor(c, Xor(c, ONES)) == ONES
  {
    XorCommutes(c, ONES);
    XorCommutes(c, BitXor(ONES, c));
    XorBack(ONES, c);
  }

  lemma ResidueOfOnes()
    ensures Xor(0xdebb20e3, ONES) == 0x2144df1c
  {
    hide Number, BitXor;
    NumbersOfSteps();
    XorOfNumbers(0xdebb20e3, 0xffffffff);
  }

  /** A zero byte in front changes the check value, so runs of zeros do not go unseen. */
  lemma LeadingZeroShows(s: seq<Byte>)
    ensures Crc(0, [0] + s) != Crc(0, s)
  {
    hide Steps, CrcBytes, Xor;
    XorOfZero(ONES);
    CrcBytesConcat(ONES, [0], s);
    StepsOfOnes();
    ZeroByte();
    if Crc(0, [0] + s) == Crc(0, s) {
      XorBack(CrcBytes(0x2dfd1072, s), ONES);
      XorBack(CrcBytes(ONES, s), ONES);
      CrcBytesInjective(0x2dfd1072, ONES, s);
    }
  }

  lemma XorOfZero(w: Word)
    ensures Xor(0, w) == w && Xor(w, 0) == w
  {
    XorCommutes(0, w);
  }

  lemma ZeroByte()
    ensures CrcBytes(ONES, [0]) == Steps(ONES, 8)
  {
    hide Steps;
    XorOfZero(ONES);
    assert [0][..0] == [];
    assert CrcBytes(ONES, []) == ONES;
  }

  // --- the code ---

  /** The pattern after each turn of the loop that builds it. */
  const PATTERNS: seq<Word> := [
    0, 0x8000_0000, 0xc000_0000, 0xe000_0000, 0xe800_0000, 0xec00_0000, 0xed00_0000, 0xed80_0000,
    0xeda0_0000, 0xedb0_0000, 0xedb8_0000, 0xedb8_8000, 0xedb8_8200, 0xedb8_8300, 0xedb8_8320
  ]

  lemma {:induction false} OrAbove(h: nat, l: nat, k: nat)
    requires l < Pow2(k)
    ensures BitOr(h * Pow2(k), l) == h * Pow2(k) + l
  {
    if k > 0 {
      var x := h * Pow2(k - 1);
      assert h * Pow2(k) == 2 * x;
      OrAbove(h, l / 2, k - 1);
    }
  }

  lemma PowersOfTwo()
    ensures Pow2(31) == 0x80000000 && Pow2(30) == 0x40000000 && Pow2(29) == 0x20000000 && Pow2(28) == 0x10000000
    ensures Pow2(27) == 0x8000000 && Pow2(26) == 0x4000000 && Pow2(25) == 0x2000000 && Pow2(24) == 0x1000000
    ensures Pow2(23) == 0x800000 && Pow2(22) == 0x400000 && Pow2(21) == 0x200000 && Pow2(20) == 0x100000
    ensures Pow2(19) == 0x80000 && Pow2(16) == 0x10000 && Pow2(15) == 0x8000 && Pow2(10) == 0x400
    ensures Pow2(9) == 0x200 && Pow2(8) == 0x100 && Pow2(6) == 0x40 && Pow2(5) == 0x20
  {
    WordSize();
    assert Pow2(31) == 0x80000000;
    assert Pow2(30) == 0x40000000;
    assert Pow2(29) == 0x20000000;
    assert Pow2(28) == 0x10000000;
    assert Pow2(27) == 0x8000000;
    assert Pow2(26) == 0x4000000;
    assert Pow2(25) == 0x2000000;
    assert Pow2(24) == 0x1000000;
    assert Pow2(23) == 0x800000;
    assert Pow2(22) == 0x400000;
    assert Pow2(21) == 0x200000;
    assert Pow2(20) == 0x100000;
    assert Pow2(19) == 0x80000;
    assert Pow2(18) == 0x40000;
    assert Pow2(17) == 0x20000;
    assert Pow2(16) == 0x10000;
    assert Pow2(15) == 0x8000;
    assert Pow2(14) == 0x4000;
    assert Pow2(13) == 0x2000;
    assert Pow2(12) == 0x1000;
    assert Pow2(11) == 0x800;
    assert Pow2(10) == 0x400;
    assert Pow2(9) == 0x200;
    assert Pow2(8) == 0x100;
    assert Pow2(7) == 0x80;
    assert Pow2(6) == 0x40;
    assert Pow2(5) == 0x20;
    assert Pow2(4) == 0x10;
    assert Pow2(3) == 0x8;
    assert Pow2(2) == 0x4;
    assert Pow2(1) == 0x2;
  }

  /** One turn of the loop sets one more bit of the pattern. */
  lemma PatternStep(n: nat)
    requires n < |EXPONENTS|
    ensures BitOr(PATTERNS[n], Pow2(31 - EXPONENTS[n])) == PATTERNS[n + 1]
  {
    PowersOfTwo();
    hide BitOr, Pow2;
    match n
      case 0 => OrWithNothing(Pow2(31));
      case 1 => OrAbove(0x1, Pow2(30), 31);
      case 2 => OrAbove(0x3, Pow2(29), 30);
      case 3 => OrAbove(0xe, Pow2(27), 28);
      case 4 => OrAbove(0x1d, Pow2(26), 27);
      case 5 => OrAbove(0x76, Pow2(24), 25);
      case 6 => OrAbove(0xed, Pow2(23), 24);
      case 7 => OrAbove(0x3b6, Pow2(21), 22);
      case 8 => OrAbove(0x76d, Pow2(20), 21);
      case 9 => OrAbove(0xedb, Pow2(19), 20);
      case 10 => OrAbove(0xedb8, Pow2(15), 16);
      case 11 => OrAbove(0x3b6e20, Pow2(9), 10);
      case 12 => OrAbove(0x76dc41, Pow2(8), 9);
      case 13 => OrAbove(0x3b6e20c, Pow2(5), 6);
      case _ =>
  }

  lemma OrWithNothing(x: nat)
    ensures BitOr(0, x) == x
  {
  }

  /** The static table of the file, and the functions that use it. */
  class CrcUnit {
    /** crc_table; NULL outside a computation */
    var table: array?<Word>

    ghost predicate Valid()
      reads this, table
    {
      table != null ==>
        table.Length == 256 && forall n {:trigger table[n]} | 0 <= n < 256 :: table[n] == Steps(n, 8)
    }

    constructor ()
      ensures Valid() && table == null
    {
      table := null;
    }

    /** The exclusive-or pattern, from the list of exponents */
    method Pattern() returns (poly: Word)
      ensures poly == POLY
    {
      hide BitOr, Pow2;
      poly := 0;
      for n := 0 to |EXPONENTS|
        invariant poly == PATTERNS[n]
      {
        PatternStep(n);
        poly := BitOr(poly, Pow2(31 - EXPONENTS[n]));
      }
    }

    /** crc_init */
    method Init()
      requires Valid()
      modifies this
      ensures Valid() && table != null
      ensures table == old(table) || fresh(table)
    {
      hide Xor;
      if table == null {
        var t := new Word[256];
        var poly := Pattern();
        for n := 0 to 256
          invariant forall m {:trigger t[m]} | 0 <= m < n :: t[m] == Steps(m, 8)
        {
          var c: Word := n;
          for k := 0 to 8
            invariant c == Steps(n, k)
          {
            c := if c % 2 == 1 then Xor(poly, c / 2) else c / 2;
          }
          t[n] := c;
        }
        table := t;
      }
    }

    /** crc_done */
    method Done()
      modifies this
      ensures Valid() && table == null
    {
      table := null;
    }

    /** DO1 on the byte at position p */
    method Do1(crc: Word, buf: array<Byte>, p: nat) returns (crc': Word)
      requires Valid() && table != null && p < buf.Length
      ensures crc' == CrcByte(crc, buf[p])
    {
      hide Steps, CrcByte, Xor;
      TableByte(crc, buf[p]);
      crc' := Xor(table[Xor(crc, buf[p]) % 256], crc / 256);
    }

    /** DO8 on the bytes from position p on */
    method Do8(crc: Word, buf: array<Byte>, p: nat) returns (crc': Word)
      requires Valid() && table != null && p + 8 <= buf.Length
      ensures crc' == CrcBytes(crc, buf[p..p + 8])
    {
      hide Valid, CrcByte, CrcBytes;
      crc' := crc;
      NoBytes(crc, buf[..], p);
      for k := 0 to 8
        invariant crc' == CrcBytes(crc, buf[p..p + k])
      {
        OneMoreByte(crc, buf[..], p, p + k);
        crc' := Do1(crc', buf, p + k);
      }
    }

    /** crc_calc, for the len bytes at offset off */
    method Calc(crc: Word, buf: array<Byte>, off: nat, len: nat) returns (crc': Word)
      requires Valid() && table != null && off + len <= buf.Length
      ensures crc' == Crc(crc, buf[off..off + len])
    {
      hide Valid, CrcByte, CrcBytes, Xor;
      var start := Xor(crc, ONES);
      var c, p, rest := start, off, len;
      NoBytes(start, buf[..], off);
      while rest >= 8
        invariant off <= p && p + rest == off + len
        invariant c == CrcBytes(start, buf[off..p])
      {
        c := Do8(c, buf, p);
        EightMoreBytes(start, buf[..], off, p);
        p := p + 8;
        rest := rest - 8;
      }
      while rest > 0
        invariant off <= p && p + rest == off + len
        invariant c == CrcBytes(start, buf[off..p])
      {
        OneMoreByte(start, buf[..], off, p);
        c := Do1(c, buf, p);
        p := p + 1;
        rest := rest - 1;
      }
      crc' := Xor(c, ONES);
    }

    /** crc32 */
    method Crc32(crc: Word, buf: array<Byte>, off: nat, len: nat) returns (newcrc: Word)
      requires Valid() && off + len <= buf.Length
      modifies this
      ensures Valid() && newcrc == Crc(crc, buf[off..off + len])
    {
      Init();
      newcrc := Calc(crc, buf, off, len);
      Done();
    }
  }

  lemma NoBytes(c: Word, s: seq<Byte>, p: nat)
    requires p <= |s|
    ensures CrcBytes(c, s[p..p]) == c
  {
  }

  lemma OneMoreByte(c: Word, s: seq<Byte>, p: nat, q: nat)
    requires p <= q < |s|
    ensures CrcBytes(c, s[p..q + 1]) == CrcByte(CrcBytes(c, s[p..q]), s[q])
  {
    var t := s[p..q + 1];
    assert t[..|t| - 1] == s[p..q];
  }

  lemma EightMoreBytes(c: Word, s: seq<Byte>, p: nat, q: nat)
    requires p <= q && q + 8 <= |s|
    ensures CrcBytes(c, s[p..q + 8]) == CrcBytes(CrcBytes(c, s[p..q]), s[q..q + 8])
  {
    assert s[p..q + 8] == s[p..q] + s[q..q + 8];
    CrcBytesConcat(c, s[p..q], s[q..q + 8]);
  }
}
