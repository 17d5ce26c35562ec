/**
  The bit operations of the C code on unsigned values, written on natural numbers.

  The hash table sizes its bucket array by powers of two and replaces remainders and
  rounded quotients by masks and shifts; the Bloom filter keeps its bits in an array of
  bytes; Jenkins' hash and the CRC are built on exclusive or.  The lemmas say what these
  operations compute.
 */
module Bits {

  function Pow2(n: nat): (r: nat)
    ensures 1 <= r
  {
    if n == 0 then 1 else 2 * Pow2(n - 1)
  }

  /** x & y */
  function BitAnd(x: nat, y: nat): (r: nat)
    ensures r <= x && r <= y
  {
    if x == 0 || y == 0 then 0 else 2 * BitAnd(x / 2, y / 2) + (if x % 2 == 1 && y % 2 == 1 then 1 else 0)
  }

  /** x | y */
  function BitOr(x: nat, y: nat): nat {
    if x == 0 then y
    else if y == 0 then x
    else 2 * BitOr(x / 2, y / 2) + (if x % 2 == 1 || y % 2 == 1 then 1 else 0)
  }

  /** Bit i of x. */
  predicate Bit(x: nat, i: nat) {
    if i == 0 then x % 2 == 1 else Bit(x / 2, i - 1)
  }

  /** x >> k */
  function ShiftRight(x: nat, k: nat): nat {
    if k == 0 then x else ShiftRight(x / 2, k - 1)
  }

  lemma AndUnfold(x: nat, y: nat)
    ensures BitAnd(x, y) / 2 == BitAnd(x / 2, y / 2)
    ensures BitAnd(x, y) % 2 == if x % 2 == 1 && y % 2 == 1 then 1 else 0
  {
    if x == 0 || y == 0 {
      assert BitAnd(x / 2, y / 2) == 0;
    }
  }

  /** A bit of an and is set when both are. */
  lemma {:induction false} BitOfAnd(x: nat, y: nat, j: nat)
    ensures Bit(BitAnd(x, y), j) <==> Bit(x, j) && Bit(y, j)
  {
    hide BitAnd;
    AndUnfold(x, y);
    if j > 0 {
      BitOfAnd(x / 2, y / 2, j - 1);
    }
  }

  /** One bit of a mask of ones. */
  lemma MaskUnfold(x: nat, p: nat)
    requires 1 <= p
    ensures BitAnd(x, 2 * p - 1) == 2 * BitAnd(x / 2, p - 1) + x % 2
  {
    assert (2 * p - 1) / 2 == p - 1 && (2 * p - 1) % 2 == 1;
    if x == 0 {
      assert BitAnd(0, p - 1) == 0;
    }
  }

  lemma MaskStep(x: nat, p: nat, m: nat)
    requires 1 <= p && m == 2 * p && BitAnd(x / 2, p - 1) == (x / 2) % p
    ensures BitAnd(x, m - 1) == x % m
  {
    hide BitAnd;
    MaskUnfold(x, p);
    HalfRemainder(x, p);
  }

  /** Masking with a power of two less one is the remainder. */
  lemma {:induction false} MaskIsRemainder(x: nat, k: nat)
    ensures BitAnd(x, Pow2(k) - 1) == x % Pow2(k)
  {
    hide BitAnd;
    if k == 0 {
      MaskOfNothing(x);
    } else {
      MaskIsRemainder(x / 2, k - 1);
      MaskStep(x, Pow2(k - 1), Pow2(k));
    }
  }

  lemma MaskOfNothing(x: nat)
    ensures BitAnd(x, Pow2(0) - 1) == x % Pow2(0)
  {
    assert Pow2(0) == 1;
  }

  lemma HalfRemainder(x: nat, p: nat)
    requires 1 <= p
    ensures x % (2 * p) == 2 * ((x / 2) % p) + x % 2
  {
    DivMod(x / 2, p);
    var q, r := (x / 2) / p, (x / 2) % p;
    assert x == (2 * p) * q + (2 * r + x % 2);
    RemainderIs(x, 2 * p, q, 2 * r + x % 2);
  }

  lemma ProductSign(n: nat, d: int)
    ensures d >= 0 ==> n * d >= 0
    ensures d <= 0 ==> n * d <= 0
  {
  }

  lemma ProductGrows(p: nat, q: nat)
    requires 1 <= p
    ensures q <= p * q
  {
  }

  lemma SmallMultiple(n: nat, d: int)
    requires 0 - n < n * d < n
    ensures d == 0
  {
    if d >= 1 {
      assert n * d == n + n * (d - 1);
      ProductSign(n, d - 1);
    } else if d <= -1 {
      assert n * d == n * (d + 1) - n;
      ProductSign(n, d + 1);
    }
  }

  lemma RemainderIs(x: nat, n: nat, q: nat, r: nat)
    requires r < n && x == n * q + r
    ensures x % n == r && x / n == q
  {
    var q', r' := x / n, x % n;
    assert x == n * q' + r';
    assert n * q - n * q' == n * (q - q');
    SmallMultiple(n, q - q');
  }

  lemma DivMod(x: nat, p: nat)
    requires 1 <= p
    ensures x == p * (x / p) + x % p && 0 <= x % p < p && x / p >= 0
  {
  }

  lemma HalfQuotient(x: nat, p: nat)
    requires 1 <= p
    ensures x / (2 * p) == (x / 2) / p
  {
    DivMod(x / 2, p);
    var q, r := (x / 2) / p, (x / 2) % p;
    assert x == (2 * p) * q + (2 * r + x % 2);
    RemainderIs(x, 2 * p, q, 2 * r + x % 2);
  }

  lemma {:induction false} ShiftIsQuotient(x: nat, k: nat)
    ensures ShiftRight(x, k) == x / Pow2(k)
  {
    if k > 0 {
      ShiftIsQuotient(x / 2, k - 1);
      HalfQuotient(x, Pow2(k - 1));
    }
  }

  lemma CeilingFrom(n: nat, p: nat, q: nat, r: nat)
    requires r < p && n == p * q + r
    ensures Ceiling(n, p) == q + (if r != 0 then 1 else 0)
  {
    if r == 0 {
      RemainderIs(n + p - 1, p, q, p - 1);
    } else {
      assert p * (q + 1) == p * q + p;
      RemainderIs(n + p - 1, p, q + 1, r - 1);
    }
  }

  /** The ceiling of n / b, for b a power of two, as the table computes it. */
  lemma CeilingByBits(n: nat, k: nat)
    ensures ShiftRight(n, k) + (if BitAnd(n, Pow2(k) - 1) != 0 then 1 else 0) == Ceiling(n, Pow2(k))
  {
    hide BitAnd, ShiftRight, Pow2, Ceiling;
    MaskIsRemainder(n, k);
    ShiftIsQuotient(n, k);
    DivMod(n, Pow2(k));
    CeilingFrom(n, Pow2(k), n / Pow2(k), n % Pow2(k));
  }

  /** The least number of chains' worth: n / p rounded up. */
  function Ceiling(n: nat, p: nat): nat
    requires 1 <= p
  {
    (n + p - 1) / p
  }

  lemma CeilingBounds(n: nat, p: nat)
    requires 1 <= p
    ensures n <= p * Ceiling(n, p) < n + p
  {
    DivMod(n + p - 1, p);
  }

  lemma {:induction false} BitOfPow2(i: nat, j: nat)
    ensures Bit(Pow2(i), j) <==> i == j
  {
    if i == 0 {
      NoBits(j);
      if j > 0 {
        NoBits(j - 1);
      }
    } else {
      assert Pow2(i) / 2 == Pow2(i - 1) && Pow2(i) % 2 == 0;
      if j > 0 {
        BitOfPow2(i - 1, j - 1);
      }
    }
  }

  lemma {:induction false} NoBits(j: nat)
    ensures !Bit(0, j)
  {
    if j > 0 {
      NoBits(j - 1);
    }
  }

  lemma {:induction false} BitOfOr(x: nat, y: nat, j: nat)
    ensures Bit(BitOr(x, y), j) <==> Bit(x, j) || Bit(y, j)
  {
    NoBits(j);
    if x != 0 && y != 0 && j > 0 {
      BitOfOr(x / 2, y / 2, j - 1);
    }
  }

  /** Testing against a single bit reads that bit. */
  lemma {:induction false} TestIsBit(x: nat, i: nat)
    ensures BitAnd(x, Pow2(i)) != 0 <==> Bit(x, i)
  {
    if x == 0 {
      NoBits(i);
    } else if i > 0 {
      assert Pow2(i) / 2 == Pow2(i - 1) && Pow2(i) % 2 == 0;
      TestIsBit(x / 2, i - 1);
    } else {
      assert BitAnd(x / 2, 0) == 0;
    }
  }

  /** Or-ing two values of at most k bits gives at most k bits. */
  lemma {:induction false} OrInRange(x: nat, y: nat, k: nat)
    requires x < Pow2(k) && y < Pow2(k)
    ensures BitOr(x, y) < Pow2(k)
  {
    if x != 0 && y != 0 {
      OrInRange(x / 2, y / 2, k - 1);
    }
  }

  // --- exclusive or ---

  /** x ^ y */
  function BitXor(x: nat, y: nat): nat {
    if x == 0 then y
    else if y == 0 then x
    else 2 * BitXor(x / 2, y / 2) + (if x % 2 == y % 2 then 0 else 1)
  }

  /** The last bit of an exclusive or, and the rest of it. */
  lemma XorUnfold(x: nat, y: nat)
    ensures BitXor(x, y) / 2 == BitXor(x / 2, y / 2)
    ensures BitXor(x, y) % 2 == if x % 2 == y % 2 then 0 else 1
  {
  }

  /** A bit of an exclusive or is set when exactly one of the two is. */
  lemma {:induction false} BitOfXor(x: nat, y: nat, j: nat)
    ensures Bit(BitXor(x, y), j) <==> Bit(x, j) != Bit(y, j)
  {
    hide BitXor;
    XorUnfold(x, y);
    if j > 0 {
      BitOfXor(x / 2, y / 2, j - 1);
    }
  }

  lemma {:induction false} XorCommutes(x: nat, y: nat)
    ensures BitXor(x, y) == BitXor(y, x)
  {
    if x != 0 && y != 0 {
      XorCommutes(x / 2, y / 2);
    }
  }

  lemma {:induction false} XorAssociates(x: nat, y: nat, z: nat)
    ensures BitXor(BitXor(x, y), z) == BitXor(x, BitXor(y, z))
    decreases x + y + z
  {
    if x != 0 && y != 0 && z != 0 {
      XorAssociates(x / 2, y / 2, z / 2);
      var l, r := BitXor(BitXor(x, y), z), BitXor(x, BitXor(y, z));
      XorUnfold(x, y);
      XorUnfold(BitXor(x, y), z);
      XorUnfold(y, z);
      XorUnfold(x, BitXor(y, z));
      assert l / 2 == r / 2 && l % 2 == r % 2;
    }
  }

  lemma {:induction false} XorSelf(x: nat)
    ensures BitXor(x, x) == 0
  {
    if x != 0 {
      XorSelf(x / 2);
    }
  }

  lemma XorTwice(x: nat, w: nat)
    ensures BitXor(BitXor(x, w), w) == x
  {
    XorAssociates(x, w, w);
    XorSelf(w);
  }

  lemma {:induction false} XorInRange(x: nat, y: nat, k: nat)
    requires x < Pow2(k) && y < Pow2(k)
    ensures BitXor(x, y) < Pow2(k)
  {
    if x != 0 && y != 0 {
      XorInRange(x / 2, y / 2, k - 1);
    }
  }
}
