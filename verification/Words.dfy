/**
  32-bit words: the unsigned values of Jenkins' hash and of the CRC.
 */
module Words {
  import opened Bits

  const WORD: nat := 0x1_0000_0000

  /** An unsigned of 32 bits. */
  type Word = w: int | 0 <= w < 0x1_0000_0000

  lemma WordSize()
    ensures Pow2(32) == WORD
  {
    assert Pow2(8) == 256 by {
      assert Pow2(4) == 16;
    }
    assert Pow2(16) == 65536 by {
      assert Pow2(12) == 4096;
    }
    assert Pow2(24) == 0x100_0000 by {
      assert Pow2(20) == 0x10_0000;
    }
    assert Pow2(28) == 0x1000_0000;
  }

  /** An unsigned result, reduced to 32 bits. */
  function Wrap(x: int): Word {
    x % WORD
  }

  lemma WrapAdd(x: int, d: int)
    ensures Wrap(Wrap(x) + d) == Wrap(x + d)
  {
    var q, r := x / WORD, x % WORD;
    assert x == WORD * q + r;
  }

  lemma WrapWord(x: Word)
    ensures Wrap(x) == x
  {
  }

  function Xor(x: Word, w: Word): Word {
    WordSize();
    XorInRange(x, w, 32);
    BitXor(x, w)
  }

  lemma XorBack(x: Word, w: Word)
    ensures Xor(Xor(x, w), w) == x
  {
    XorTwice(x, w);
  }
}
