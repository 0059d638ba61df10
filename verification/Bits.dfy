/** Bits of natural numbers and of little-endian byte strings. */
module Bits {
  import opened Words

  /** n >> k */
  function Shr(n: nat, k: nat): nat
  {
    PowPos(2, k);
    n / Pow(2, k)
  }

  /** Bit i of n; position -1 reads as zero. */
  function Bit(n: nat, i: int): (b: nat)
    ensures b <= 1
  {
    if i < 0 then 0 else Shr(n, i) % 2
  }

  lemma ShrSplit(n: nat, k: nat)
    ensures Shr(n, k) == 2 * Shr(n, k + 1) + Bit(n, k)
  {
    PowPos(2, k);
    DivDiv(n, Pow(2, k), 2);
  }

  lemma {:induction false} ShrZero(n: nat, k: nat)
    requires n < Pow(2, k)
    ensures Shr(n, k) == 0
  {
    DivModUnique(n, 0, n, Pow(2, k));
  }

  lemma {:induction false} ShrLow(n: nat, k: nat, j: nat)
    ensures 0 <= Shr(n, k) - Pow(2, j) * Shr(n, k + j) < Pow(2, j)
  {
    PowPos(2, k);
    PowPos(2, j);
    PowAdd(2, k, j);
    DivDiv(n, Pow(2, k), Pow(2, j));
    var m := Shr(n, k);
    assert m == Pow(2, j) * (m / Pow(2, j)) + m % Pow(2, j);
  }

  function Pow2Lit(j: nat): nat
    requires j < 8
  {
    [1, 2, 4, 8, 16, 32, 64, 128][j]
  }

  /** (x >> j) & 1 */
  function BitOf(x: nat, j: nat): (b: nat)
    ensures b <= 1
  {
    if j == 0 then x % 2 else BitOf(x / 2, j - 1)
  }

  /** scalar_bit */
  function ScalarBit(s: seq<u8>, i: int): (b: nat)
    requires i < 8 * |s|
    ensures b <= 1
  {
    if i < 0 then 0 else BitOf(s[i / 8], i % 8)
  }

  lemma {:induction false} Pow2Value(j: nat)
    requires j < 8
    ensures Pow2Lit(j) == Pow(2, j) && 0x100 % Pow(2, j) == 0 && (0x100 / Pow(2, j)) % 2 == 0
  {
    assert Pow(2, 0) == 1 && Pow(2, 1) == 2 && Pow(2, 2) == 2 * Pow(2, 1) && Pow(2, 3) == 2 * Pow(2, 2);
    assert Pow(2, 4) == 2 * Pow(2, 3) && Pow(2, 5) == 2 * Pow(2, 4) && Pow(2, 6) == 2 * Pow(2, 5) && Pow(2, 7) == 2 * Pow(2, 6);
  }

  lemma {:induction false} PowEight(k: nat)
    ensures Pow(2, 8 * k) == Pow(0x100, k)
  {
    if k > 0 {
      PowEight(k - 1);
      PowAdd(2, 8, 8 * k - 8);
      Pow2Value(7);
      assert Pow(2, 8) == 2 * Pow(2, 7);
    }
  }

  lemma {:induction false} BitOfShr(x: nat, j: nat)
    ensures BitOf(x, j) == Shr(x, j) % 2
  {
    if j == 0 {
      assert Pow(2, 0) == 1;
    } else {
      BitOfShr(x / 2, j - 1);
      PowPos(2, j - 1);
      DivDiv(x, 2, Pow(2, j - 1));
    }
  }

  lemma {:induction false} BitOfHigh(x: nat, y: nat, j: nat)
    ensures BitOf(x + 2 * Pow(2, j) * y, j) == BitOf(x, j)
  {
    var z := Pow(2, j) * y;
    assert 2 * Pow(2, j) * y == 2 * z;
    assert (x + 2 * z) / 2 == x / 2 + z;
    if j > 0 {
      BitOfHigh(x / 2, y, j - 1);
    }
  }

  /** The byte-level bit test reads the bits of the number the bytes stand for. */
  lemma ScalarBitValue(s: seq<u8>, i: int)
    requires i < 8 * |s|
    ensures ScalarBit(s, i) == Bit(LeBytes(s), i)
  {
    if i >= 0 {
      var k, j := i / 8, i % 8;
      var n, x, hi := LeBytes(s), s[k], LeBytes(s[k + 1..]);
      ByteAt(s, k);
      PowPos(2, 8 * k);
      PowPos(2, j);
      PowAdd(2, 8 * k, j);
      DivDiv(n, Pow(2, 8 * k), Pow(2, j));
      BitOfShr(x + 0x100 * hi, j);
      ByteBit(x, hi, j);
    }
  }

  lemma ByteAt(s: seq<u8>, k: nat)
    requires k < |s|
    ensures Shr(LeBytes(s), 8 * k) == s[k] + 0x100 * LeBytes(s[k + 1..])
  {
    var x := s[k];
    assert s == s[..k] + ([x] + s[k + 1..]);
    ValConcat(0x100, s[..k], [x] + s[k + 1..]);
    ValConcat(0x100, [x], s[k + 1..]);
    ValSnoc(0x100, [], x);
    assert [] + [x] == [x];
    ValBound(0x100, s[..k]);
    PowEight(k);
    DivModUnique(LeBytes(s), x + 0x100 * LeBytes(s[k + 1..]), LeBytes(s[..k]), Pow(0x100, k));
  }

  lemma ByteBit(x: u8, hi: nat, j: nat)
    requires j < 8
    ensures BitOf(x + 0x100 * hi, j) == BitOf(x, j)
  {
    PowAdd(2, j + 1, 7 - j);
    Pow2Value(7);
    var p, q := Pow(2, j), Pow(2, 7 - j);
    assert Pow(2, 8) == 0x100 && 2 * p * q == 0x100;
    assert 2 * p * (q * hi) == 0x100 * hi by { MulAssoc(2 * p, q, hi); }
    BitOfHigh(x, q * hi, j);
  }
}
