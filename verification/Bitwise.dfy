/** Bitwise operators on naturals as arithmetic, where the source mixes the two. */
module Bitwise {
  import opened Words

  lemma Powers2()
    ensures Pow(2, 0) == 1 && Pow(2, 3) == 8 && Pow(2, 6) == 0x40 && Pow(2, 7) == 0x80 && Pow(2, 8) == 0x100
    ensures Pow(2, 12) == 0x1000 && Pow(2, 13) == 0x2000 && Pow(2, 16) == 0x1_0000 && Pow(2, 19) == 0x8_0000
    ensures Pow(2, 24) == 0x100_0000 && Pow(2, 25) == 0x200_0000 && Pow(2, 26) == 0x400_0000 && Pow(2, 32) == 0x1_0000_0000
  {
    assert Pow(2, 3) == 2 * Pow(2, 2) && Pow(2, 2) == 2 * Pow(2, 1) && Pow(2, 1) == 2 * Pow(2, 0);
    assert Pow(2, 4) == 2 * Pow(2, 3);
    PowAdd(2, 3, 3);
    PowAdd(2, 3, 4);
    PowAdd(2, 4, 4);
    PowAdd(2, 6, 6);
    PowAdd(2, 6, 7);
    PowAdd(2, 8, 8);
    PowAdd(2, 12, 7);
    PowAdd(2, 12, 12);
    PowAdd(2, 12, 13);
    PowAdd(2, 13, 13);
    PowAdd(2, 16, 16);
  }

  lemma {:induction false} OrComm(x: nat, y: nat)
    ensures Or(x, y) == Or(y, x)
  {
    if x != 0 && y != 0 { OrComm(x / 2, y / 2); }
  }

  /** b << n */
  function Shl(b: nat, n: nat): nat
  {
    if n == 0 then b else 2 * Shl(b, n - 1)
  }

  lemma {:induction false} ShlIsProduct(b: nat, n: nat)
    ensures Shl(b, n) == b * Pow(2, n)
  {
    if n > 0 {
      ShlIsProduct(b, n - 1);
      MulAssoc(b, 2, Pow(2, n - 1));
    }
  }

  lemma {:induction false} OrLowByte(h: nat, b: nat)
    requires h % 0x100 == 0 && b < 0x100
    ensures Or(h, b) == h + b
  {
    Powers2();
    OrDisjoint(b, h / 0x100, 8);
    OrComm(h, b);
  }

  /** Or puts a byte b between the bits of lo below 2^n and those of h, whose low byte is zero, above. */
  lemma {:induction false} OrBetween(lo: nat, h: nat, b: nat, n: nat)
    requires lo < Shl(1, n) && h % 0x100 == 0 && b < 0x100
    ensures Or(lo + Shl(h, n), Shl(b, n)) == lo + Shl(h, n) + Shl(b, n)
  {
    if n == 0 {
      OrLowByte(h, b);
    } else {
      OrBetween(lo / 2, h, b, n - 1);
      OrAddStep(lo + Shl(h, n), Shl(b, n), Shl(b, n - 1));
    }
  }

  /** Or puts a byte into eight zero bits. */
  lemma {:induction false} OrInto(w: nat, b: nat, n: nat)
    requires b < 0x100 && Pow(2, n) > 0 && w / Pow(2, n) % 0x100 == 0
    ensures Or(w, b * Pow(2, n)) == w + b * Pow(2, n)
  {
    SplitAt(w, n);
    ShlIsProduct(b, n);
    OrBetween(w % Pow(2, n), w / Pow(2, n), b, n);
  }

  lemma {:induction false} SplitAt(w: nat, n: nat)
    requires Pow(2, n) > 0
    ensures w == w % Pow(2, n) + Shl(w / Pow(2, n), n) && w % Pow(2, n) < Shl(1, n)
  {
    ShlIsProduct(1, n);
    ShlIsProduct(w / Pow(2, n), n);
  }

  /** x & (2^n - 1) is x modulo 2^n. */
  lemma {:induction false} AndMask(x: nat, n: nat)
    ensures Pow(2, n) > 0 && And(x, Pow(2, n) - 1) == x % Pow(2, n)
  {
    PowPos(2, n);
    if n > 0 {
      AndMask(x / 2, n - 1);
      HalfMod(x, Pow(2, n - 1));
      var m := Pow(2, n) - 1;
      assert m / 2 == Pow(2, n - 1) - 1 && m % 2 == 1;
    }
  }

  lemma {:induction false} AndOne(x: nat)
    ensures And(1, x) == x % 2
  {
    if x != 0 { assert And(1 / 2, x / 2) == 0; }
  }

  /** Exclusive or with all ones complements. */
  lemma {:induction false} XorOnes(x: nat, n: nat)
    requires x < Pow(2, n)
    ensures Xor(x, Pow(2, n) - 1) == Pow(2, n) - 1 - x
  {
    if n > 0 {
      XorOnes(x / 2, n - 1);
      var m := Pow(2, n) - 1;
      assert m / 2 == Pow(2, n - 1) - 1 && m % 2 == 1;
    }
  }

  lemma {:induction false} XorZeroRight(x: nat)
    ensures Xor(x, 0) == x
  {
    if x != 0 { XorZeroRight(x / 2); }
  }

  /** Exclusive or is zero exactly for equal arguments, and no longer than they are. */
  lemma {:induction false} XorEqual(x: nat, y: nat, n: nat)
    requires x < Pow(2, n) && y < Pow(2, n)
    ensures (Xor(x, y) == 0 <==> x == y) && Xor(x, y) < Pow(2, n)
  {
    if n > 0 { XorEqual(x / 2, y / 2, n - 1); }
  }
}
