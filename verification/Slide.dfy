/** Signed sliding-window recoding of a scalar, left to right, and the fused
    double-and-add loop of crypto_eddsa_check_equation that consumes it. */
module Slide {
  import opened Words
  import opened ScalarL
  import opened Bits
  import opened Bitwise
  import opened Groups

  // ---- the C expression v & (~v + 1) ----

  /** The largest power of two that divides v. */
  function LowBit(v: int): nat
    requires v != 0
    decreases if v < 0 then -v else v
  {
    if v % 2 == 1 then 1 else 2 * LowBit(v / 2)
  }

  lemma {:induction false} AndNot(y: nat, n: nat)
    requires y < Pow(2, n)
    ensures And(y, Pow(2, n) - 1 - y) == 0
  {
    if n > 0 && y != 0 {
      AndNot(y / 2, n - 1);
      var z := Pow(2, n) - 1 - y;
      assert z / 2 == Pow(2, n - 1) - 1 - y / 2;
      assert z % 2 == 1 - y % 2;
    }
  }

  lemma ModNeg(y: int, m: nat)
    requires m > 0
    ensures (-y - 1) % m == m - 1 - y % m
  {
    assert y == m * (y / m) + y % m;
    assert m * (-(y / m) - 1) == -(m * (y / m)) - m;
    DivModUnique(-y - 1, -(y / m) - 1, m - 1 - y % m, m);
  }

  /** In n-bit two's complement, v & -v isolates the lowest set bit. */
  lemma {:induction false} AndNeg(v: int, n: nat)
    requires v != 0 && 0 - Pow(2, n) < v < Pow(2, n)
    ensures Pow(2, n) > 0 && And(v % Pow(2, n), (-v) % Pow(2, n)) == LowBit(v)
    decreases n
  {
    PowPos(2, n);
    if v % 2 == 1 {
      AndNegOdd(v, n);
    } else {
      AndNegEven(v, n);
      AndNeg(v / 2, n - 1);
    }
  }

  /** The halves of v and -v modulo 2^n. */
  lemma NegHalves(v: int, m: nat)
    requires m > 0
    ensures v % (2 * m) == 2 * (v / 2 % m) + v % 2
    ensures (-v) % (2 * m) == 2 * ((-(v / 2) - v % 2) % m) + v % 2
  {
    HalfMod(v, m);
    HalfMod(-v, m);
    assert (-v) / 2 == -(v / 2) - v % 2 && (-v) % 2 == v % 2;
  }

  lemma AndNegOdd(v: int, n: nat)
    requires v % 2 == 1 && 0 - Pow(2, n) < v < Pow(2, n)
    ensures Pow(2, n) > 0 && And(v % Pow(2, n), (-v) % Pow(2, n)) == 1
  {
    var m := Pow(2, n - 1);
    PowPos(2, n - 1);
    NegHalves(v, m);
    var r := v / 2 % m;
    assert (-(v / 2) - 1) % m == m - 1 - r by { ModNeg(v / 2, m); }
    assert v % (2 * m) == 2 * r + 1 && (-v) % (2 * m) == 2 * (m - 1 - r) + 1;
    assert And(2 * r + 1, 2 * (m - 1 - r) + 1) == 1 by {
      AndNot(r, n - 1);
      AndBits(r, m - 1 - r, 1);
    }
  }

  lemma AndNegEven(v: int, n: nat)
    requires v != 0 && v % 2 == 0 && 0 - Pow(2, n) < v < Pow(2, n)
    ensures n > 0 && Pow(2, n) > 0 && Pow(2, n - 1) > 0
    ensures And(v % Pow(2, n), (-v) % Pow(2, n)) == 2 * And(v / 2 % Pow(2, n - 1), (-(v / 2)) % Pow(2, n - 1))
  {
    var m := Pow(2, n - 1);
    PowPos(2, n - 1);
    NegHalves(v, m);
    AndBits(v / 2 % m, (-(v / 2)) % m, 0);
  }

  /** And of two numbers with the same lowest bit b. */
  lemma AndBits(x: nat, y: nat, b: nat)
    requires b <= 1
    ensures And(2 * x + b, 2 * y + b) == b + 2 * And(x, y)
  {}

  const INT_RANGE: nat := 0x1_0000_0000

  /** log2 of a power of two, as the three mask tests compute it. */
  function Log2(lsb: nat): nat
  {
    (if And(lsb, 0xAA) != 0 then 1 else 0) + (if And(lsb, 0xCC) != 0 then 2 else 0)
    + (if And(lsb, 0xF0) != 0 then 4 else 0)
  }

  lemma {:induction false} AndEven(x: nat, y: nat)
    ensures And(2 * x, y) == 2 * And(x, y / 2)
  {}

  /** A power of two picks one bit of the mask. */
  lemma {:induction false} AndPower(s: nat, y: nat)
    ensures Pow(2, s) > 0 && And(Pow(2, s), y) == Pow(2, s) * (y / Pow(2, s) % 2)
  {
    PowPos(2, s);
    if s == 0 {
      AndOne(y);
    } else {
      var p := Pow(2, s - 1);
      PowPos(2, s - 1);
      AndPower(s - 1, y / 2);
      AndEven(p, y);
      DivDiv(y, 2, p);
    }
  }

  lemma {:induction false} MaskTest(s: nat, mask: nat)
    requires s <= 4
    ensures And(Pow2Lit(s), mask) != 0 <==> mask / Pow2Lit(s) % 2 == 1
  {
    Pow2Value(s);
    AndPower(s, mask);
    var p, bit := Pow(2, s), mask / Pow(2, s) % 2;
    if bit == 1 { assert p * bit == p; } else { assert p * bit == 0; }
  }

  /** The masks 0xAA, 0xCC and 0xF0 hold the binary digits of the bit positions. */
  lemma MaskDigits(s: nat)
    requires s <= 4
    ensures 0xAA / Pow2Lit(s) % 2 == s % 2 && 0xCC / Pow2Lit(s) % 2 == s / 2 % 2 && 0xF0 / Pow2Lit(s) % 2 == s / 4 % 2
  {
    if s == 0 { assert Pow2Lit(s) == 1; }
    else if s == 1 { assert Pow2Lit(s) == 2; }
    else if s == 2 { assert Pow2Lit(s) == 4; }
    else if s == 3 { assert Pow2Lit(s) == 8; }
    else { assert Pow2Lit(s) == 16; }
  }

  lemma {:induction false} Log2Of(lsb: nat, s: nat)
    requires s < 8
    requires (And(lsb, 0xAA) != 0 <==> s % 2 == 1) && (And(lsb, 0xCC) != 0 <==> s / 2 % 2 == 1) && (And(lsb, 0xF0) != 0 <==> s / 4 % 2 == 1)
    ensures Log2(lsb) == s
  {}

  lemma MaskTests(s: nat)
    requires s <= 4
    ensures Log2(Pow2Lit(s)) == s
  {
    MaskTest(s, 0xAA);
    MaskTest(s, 0xCC);
    MaskTest(s, 0xF0);
    MaskDigits(s);
    Log2Of(Pow2Lit(s), s);
  }

  function ShiftOf(v: int): nat
  {
    Log2(And(v % INT_RANGE, (-v) % INT_RANGE))
  }

  lemma Pow32()
    ensures Pow(2, 32) == INT_RANGE
  {
    PowEight(4);
    assert Pow(0x100, 4) == 0x100 * (0x100 * Pow(0x100, 2)) && Pow(0x100, 2) == 0x100 * (0x100 * Pow(0x100, 0));
  }

  lemma {:induction false} LowBitDivides(v: int)
    requires v != 0
    ensures LowBit(v) > 0 && v == (v / LowBit(v)) * LowBit(v) && (v / LowBit(v)) % 2 == 1
    decreases if v < 0 then -v else v
  {
    if v % 2 == 0 {
      LowBitDivides(v / 2);
      var p := LowBit(v / 2);
      var q := v / 2 / p;
      assert v == (2 * p) * q;
      DivModUnique(v, q, 0, 2 * p);
    }
  }

  lemma {:induction false} LowBitSmall(v: int, k: nat)
    requires v != 0 && 0 - Pow(2, k) <= v <= Pow(2, k)
    ensures exists s :: 0 <= s <= k && LowBit(v) == Pow(2, s)
    decreases k
  {
    if v % 2 == 1 {
      assert LowBit(v) == Pow(2, 0);
    } else {
      LowBitSmall(v / 2, k - 1);
      var s :| 0 <= s <= k - 1 && LowBit(v / 2) == Pow(2, s);
      assert LowBit(v) == Pow(2, s + 1);
    }
  }

  /** Shifting the lowest set bit out leaves the odd part. */
  lemma {:induction false} OddPart(v: int)
    requires v != 0 && -16 <= v <= 16
    ensures ShiftOf(v) <= 4
    ensures var p := Pow2Lit(ShiftOf(v)); v == (v / p) * p && (v / p) % 2 == 1
  {
    assert And(v % INT_RANGE, (-v) % INT_RANGE) == LowBit(v) by {
      Pow32();
      AndNeg(v, 32);
    }
    var s: nat :| s <= 4 && LowBit(v) == Pow(2, s) by {
      Pow2Value(4);
      LowBitSmall(v, 4);
    }
    Pow2Value(s);
    MaskTests(s);
    LowBitDivides(v);
  }

  // ---- the recoding ----

  /** What the digits at positions above c add up to: 2^(c+1) * ((n >> (c+1)) + bit c).
      At c = -1 this is n. */
  ghost function Target(n: nat, c: int): int
    requires -1 <= c
  {
    Pow(2, c + 1) * (Shr(n, c + 1) + Bit(n, c))
  }

  lemma TargetEnd(n: nat)
    ensures Target(n, -1) == n
  {
    assert Pow(2, 0) == 1;
  }

  lemma TargetSkip(n: nat, c: int)
    requires 0 <= c && Bit(n, c) == Bit(n, c - 1)
    ensures Target(n, c - 1) == Target(n, c)
  {
    ShrSplit(n, c);
    var p := Pow(2, c);
    assert Pow(2, c + 1) == 2 * p;
    assert p * (2 * Shr(n, c + 1) + 2 * Bit(n, c)) == (2 * p) * (Shr(n, c + 1) + Bit(n, c));
  }

  /** The signed value of the window of w bits whose top bit is bit i. */
  ghost function Window(n: nat, i: int, w: nat): int
    requires 1 <= w <= i + 1
  {
    Shr(n, i - w + 1) - Pow(2, w - 1) * Shr(n, i) - Pow(2, w - 1) * Bit(n, i) + Bit(n, i - w)
  }

  lemma {:induction false} TargetWindow(n: nat, i: int, w: nat)
    requires 1 <= w <= i + 1
    ensures Target(n, i - w) == Target(n, i) + Pow(2, i - w + 1) * Window(n, i, w)
  {
    var k := i - w + 1;
    ShrSplit(n, i);
    PowAdd(2, k, w);
    assert Pow(2, w) == 2 * Pow(2, w - 1);
    WindowArith(Pow(2, k), Pow(2, w - 1), Shr(n, k), Shr(n, i), Shr(n, i + 1), Bit(n, i), Bit(n, i - w));
  }

  lemma WindowArith(pk: int, pw: int, hk: int, hi: int, h1: int, bi: int, bl: int)
    requires hi == 2 * h1 + bi
    ensures pk * (hk + bl) == (pk * (2 * pw)) * (h1 + bi) + pk * (hk - pw * hi - pw * bi + bl)
  {
    assert pw * hi + pw * bi == (2 * pw) * (h1 + bi) by { assert pw * hi == pw * (2 * h1 + bi); }
    MulAssoc(pk, 2 * pw, h1 + bi);
    assert hk + bl == (2 * pw) * (h1 + bi) + (hk - pw * hi - pw * bi + bl);
    Distrib(pk, (2 * pw) * (h1 + bi), hk - pw * hi - pw * bi + bl);
  }

  /** A window that starts on a change of bit is nonzero and at most 2^(w-1) in size. */
  lemma {:induction false} WindowRange(n: nat, i: int, w: nat)
    requires 1 <= w <= i + 1 && (w == 1 ==> i == 0) && Bit(n, i) != Bit(n, i - 1)
    ensures Window(n, i, w) != 0 && 0 - Pow(2, w - 1) <= Window(n, i, w) <= Pow(2, w - 1)
  {
    var k := i - w + 1;
    if w == 1 {
      assert Pow(2, 0) == 1;
    } else {
      var q := Pow(2, w - 2);
      ShrLow(n, k, w - 2);
      ShrSplit(n, i - 1);
      assert Pow(2, w - 1) == 2 * q;
      WindowTop(q, Shr(n, k), Shr(n, i - 1), Shr(n, i), Bit(n, i - 1), Bit(n, i), Bit(n, i - w));
    }
  }

  lemma WindowTop(q: int, hk: int, h1: int, hi: int, b1: nat, b: nat, bl: nat)
    requires h1 == 2 * hi + b1 && 0 <= hk - q * h1 < q
    requires b1 <= 1 && b <= 1 && bl <= 1 && b1 != b
    ensures var v := hk - (2 * q) * hi - (2 * q) * b + bl; v != 0 && -(2 * q) <= v <= 2 * q
  {
    assert q * h1 == (2 * q) * hi + q * b1;
    TopBit(hk - q * h1, q, b1, b, bl);
  }

  lemma TopBit(low: int, q: int, b1: nat, b: nat, bl: nat)
    requires 0 <= low < q && b1 <= 1 && b <= 1 && bl <= 1 && b1 != b
    ensures var v := low + q * b1 - (2 * q) * b + bl; v != 0 && -(2 * q) <= v <= 2 * q
  {
    if b == 0 {
      assert b1 == 1;
    } else {
      assert b1 == 0 && b == 1;
    }
  }

  /** u8 subtraction wraps. */
  function SubU8(x: u8, y: nat): (r: u8)
    requires y <= 256
    ensures r == if x >= y then x - y else x - y + 256
  {
    (x - y) % 256
  }

  /** next_check is a u8: once it steps below zero it holds 255, which no position reaches. */
  function CheckPos(nextCheck: u8): int
  {
    if nextCheck == 255 then -1 else nextCheck
  }

  /** A digit is usable with a table of the odd multiples below 2^(width-1). */
  predicate GoodDigit(width: nat, d: int)
  {
    d % 2 == 1 && (width == 3 ==> -4 < d < 4) && (width == 5 ==> -16 < d < 16)
  }

  class SlideCtx {
    var nextIndex: i16
    var nextDigit: i8
    var nextCheck: u8

    /** Positions i and above are done and their digits, as a number in units of 2^i, are `acc`. */
    ghost predicate Inv(n: nat, width: nat, i: int, acc: int)
      reads this
    {
      var c := CheckPos(nextCheck);
      && c < i <= 254 && 0 <= i
      && (nextIndex == -1 || (c < nextIndex && GoodDigit(width, nextDigit)))
      && acc * Pow(2, i) + (if 0 <= nextIndex < i then nextDigit * Pow(2, nextIndex) else 0) == Target(n, c)
    }

    /** slide_init; the scalar is below 2^253 */
    constructor (scalar: seq<u8>)
      requires |scalar| == 32 && LeBytes(scalar) < Pow(2, 253)
      ensures 1 <= nextCheck <= 253
      ensures forall width, i :: nextCheck < i <= 254 ==> Inv(LeBytes(scalar), width, i, 0)
    {
      ghost var n := LeBytes(scalar);
      var i := 252;
      ShrZero(n, 253);
      while i > 0 && ScalarBit(scalar, i) == 0
        invariant 0 <= i <= 252 && Shr(n, i + 1) == 0
      {
        ScalarBitValue(scalar, i);
        ShrSplit(n, i);
        i := i - 1;
      }
      nextCheck := i + 1;
      nextIndex := -1;
      nextDigit := -1;
      ShrSplit(n, i + 1);
    }

    /** slide_step: the digit at position i. `acc` is the number spelled by the digits so far. */
    method Step(width: nat, i: nat, scalar: seq<u8>, ghost acc: int) returns (d: int)
      requires width == 3 || width == 5
      requires |scalar| == 32 && i <= 253 && Inv(LeBytes(scalar), width, i + 1, acc)
      modifies this
      ensures Inv(LeBytes(scalar), width, i, 2 * acc + d)
      ensures d == 0 || GoodDigit(width, d)
    {
      ghost var n := LeBytes(scalar);
      assert Pow(2, i + 1) == 2 * Pow(2, i);
      Doubling(acc, Pow(2, i));
      if i == nextCheck {
        ScalarBitValue(scalar, i);
        ScalarBitValue(scalar, i - 1);
        assert acc * Pow(2, i + 1) == Target(n, i);
        if ScalarBit(scalar, i) == ScalarBit(scalar, i - 1) {
          nextCheck := SubU8(nextCheck, 1);
          TargetSkip(n, i);
        } else {
          NewWindow(width, i, scalar);
        }
      }
      d := if i == nextIndex then nextDigit else 0;
      Emit(acc, d, Pow(2, i));
    }

    /** Once position 0 is done the digits spell the scalar. */
    lemma {:induction false} Done(n: nat, width: nat, acc: int)
      requires Inv(n, width, 0, acc)
      ensures acc == n
    {
      TargetEnd(n);
    }

    /** The branch of slide_step that computes the next digit. */
    method NewWindow(width: nat, i: nat, scalar: seq<u8>)
      requires width == 3 || width == 5
      requires |scalar| == 32 && i <= 253 && i == nextCheck
      requires Bit(LeBytes(scalar), i) != Bit(LeBytes(scalar), i - 1)
      modifies this
      ensures var c := CheckPos(nextCheck); -1 <= c < nextIndex <= i && GoodDigit(width, nextDigit)
      ensures Target(LeBytes(scalar), i) + nextDigit * Pow(2, nextIndex) == Target(LeBytes(scalar), CheckPos(nextCheck))
    {
      ghost var n := LeBytes(scalar);
      var w := if width <= i + 1 then width else i + 1;
      var v := WindowValue(i, w, scalar);
      PlaceDigit(n, i, w);
      var s := ShiftOf(v);
      var d := v / Pow2Lit(s);
      var x := i - (w - 1) + s;
      assert Target(n, i) + d * Pow(2, x) == Target(n, i - w);
      nextIndex := x;
      nextDigit := d;
      nextCheck := SubU8(nextCheck, w);
    }
  }

  /** The odd part of a window's value, placed at its own position, is the window's share of the scalar. */
  lemma {:induction false} PlaceDigit(n: nat, i: nat, w: nat)
    requires 1 <= w <= i + 1 && w <= 5 && (w == 1 ==> i == 0) && Bit(n, i) != Bit(n, i - 1)
    ensures var v := Window(n, i, w);
            var s := ShiftOf(v);
            && s <= w - 1 && s <= 4
            && var d := v / Pow2Lit(s);
            && d % 2 == 1 && (w <= 3 ==> -4 < d < 4) && -16 < d < 16
            && Target(n, i) + d * Pow(2, i - (w - 1) + s) == Target(n, i - w)
  {
    var v := Window(n, i, w);
    WindowRange(n, i, w);
    TargetWindow(n, i, w);
    Pow2Value(w - 1);
    assert -16 <= v <= 16 by { assert Pow2Lit(w - 1) <= 16; }
    OddPart(v);
    var s := ShiftOf(v);
    DigitRange(v, s, w);
    Pow2Value(s);
    PowAdd(2, i - w + 1, s);
    var p, q := Pow2Lit(s), Pow(2, i - w + 1);
    assert q * (v / p * p) == (v / p) * (q * p) by { MulAssoc(q, v / p, p); MulAssoc(v / p, q, p); }
  }

  lemma Doubling(acc: int, p: int)
    ensures acc * (2 * p) == (2 * acc) * p
  {}

  lemma Emit(acc: int, d: int, p: int)
    ensures (2 * acc + d) * p == (2 * acc) * p + d * p
  {}

  lemma DigitRange(v: int, s: nat, w: nat)
    requires 1 <= w <= 5 && s <= 4 && v != 0 && 0 - Pow2Lit(w - 1) <= v <= Pow2Lit(w - 1)
    requires v == (v / Pow2Lit(s)) * Pow2Lit(s) && (v / Pow2Lit(s)) % 2 == 1
    ensures s <= w - 1
    ensures w <= 3 ==> -4 < v / Pow2Lit(s) < 4
    ensures -16 < v / Pow2Lit(s) < 16
  {
    var p := Pow2Lit(s);
    var q := v / p;
    assert q != 0;
    if s == 0 { assert p == 1; }
    else if s == 1 { assert p == 2; }
    else if s == 2 { assert p == 4; }
    else if s == 3 { assert p == 8; }
    else { assert p == 16; }
  }

  lemma BitStep(p: int, h: int, h1: int, b: int)
    requires h == 2 * h1 + b
    ensures p * h == (2 * p) * h1 + b * p
  {}

  /** The loop that sums the bits of one window. */
  method WindowValue(i: nat, w: nat, scalar: seq<u8>) returns (v: int)
    requires |scalar| == 32 && i <= 253 && 1 <= w <= i + 1 && w <= 5
    ensures v == Window(LeBytes(scalar), i, w)
  {
    ghost var n := LeBytes(scalar);
    ghost var k := i - (w - 1);
    ghost var top := Pow(2, w - 1) * Bit(n, i);
    v := -(ScalarBit(scalar, i) * Pow2Lit(w - 1));
    ScalarBitValue(scalar, i);
    Pow2Value(w - 1);
    assert v == -top;
    for j := 0 to w - 1
      invariant v == Shr(n, k) - Pow(2, j) * Shr(n, k + j) - top
    {
      v := v + ScalarBit(scalar, i - (w - 1) + j) * Pow2Lit(j);
      ScalarBitValue(scalar, k + j);
      ShrSplit(n, k + j);
      Pow2Value(j);
      BitStep(Pow(2, j), Shr(n, k + j), Shr(n, k + j + 1), Bit(n, k + j));
      assert Pow(2, j + 1) == 2 * Pow(2, j);
    }
    v := v + ScalarBit(scalar, i - w);
    ScalarBitValue(scalar, i - w);
  }

  // ---- the fused loop of crypto_eddsa_check_equation ----

  /** table[k] = [2k+1]p */
  ghost predicate OddMultiples<P(!new)>(g: Group<P>, p: P, table: seq<P>)
  {
    forall k :: 0 <= k < |table| ==> table[k] == Mul(g, 2 * k + 1, p)
  }

  /** The look-up table for one point, built by repeatedly adding its double. */
  method BuildTable<P(!new)>(g: Group<P>, p: P) returns (lut: seq<P>)
    requires Abelian(g)
    ensures |lut| == 2 && OddMultiples(g, p, lut)
  {
    lut := [p];
    assert Mul(g, 1, p) == g.add(g.zero, p) == p by { assert Ask(g.zero, p, p) && Ask(p, p, p); }
    for i := 1 to 2
      invariant |lut| == i && OddMultiples(g, p, lut)
    {
      MulSum(g, 2, 2 * i - 1, p);
      assert Mul(g, 2, p) == g.add(Mul(g, 1, p), p);
      lut := lut + [g.add(g.Double(p), lut[i - 1])];
    }
  }

  /** Adds the table entry for one signed digit. */
  method AddDigit<P(!new)>(g: Group<P>, sum: P, d: int, table: seq<P>, ghost p: P) returns (r: P)
    requires Abelian(g) && OddMultiples(g, p, table)
    requires d == 0 || (d % 2 == 1 && -2 * |table| < d < 2 * |table|)
    ensures r == g.add(sum, Mul(g, d, p))
  {
    r := sum;
    if d > 0 {
      r := g.add(r, table[d / 2]);
      assert 2 * (d / 2) + 1 == d;
    }
    if d < 0 {
      r := g.Sub(r, table[-d / 2]);
      assert 2 * (-d / 2) + 1 == -d;
    }
    if d == 0 {
      assert Ask(sum, sum, sum);
    }
  }

  /** One round of the loop: double, then add the digits of both scalars at position i. */
  method Round<P(!new)>(g: Group<P>, sum: P, i: nat, hSlide: SlideCtx, h: seq<u8>, lut: seq<P>, ghost q: P, ghost hAcc: int,
                        sSlide: SlideCtx, s: seq<u8>, bWindow: seq<P>, ghost b: P, ghost sAcc: int)
    returns (r: P, hDigit: int, sDigit: int)
    requires Abelian(g) && |bWindow| == 8 && OddMultiples(g, b, bWindow) && |lut| == 2 && OddMultiples(g, q, lut)
    requires |s| == 32 && |h| == 32 && i <= 253 && hSlide != sSlide
    requires hSlide.Inv(LeBytes(h), 3, i + 1, hAcc) && sSlide.Inv(LeBytes(s), 5, i + 1, sAcc)
    requires sum == g.add(Mul(g, sAcc, b), Mul(g, hAcc, q))
    modifies hSlide, sSlide
    ensures hSlide.Inv(LeBytes(h), 3, i, 2 * hAcc + hDigit) && sSlide.Inv(LeBytes(s), 5, i, 2 * sAcc + sDigit)
    ensures r == g.add(Mul(g, 2 * sAcc + sDigit, b), Mul(g, 2 * hAcc + hDigit, q))
  {
    r := g.Double(sum);
    Interchange(g, Mul(g, sAcc, b), Mul(g, hAcc, q), Mul(g, sAcc, b), Mul(g, hAcc, q));
    hDigit := hSlide.Step(3, i, h, hAcc);
    sDigit := sSlide.Step(5, i, s, sAcc);
    r := AddDigit(g, r, hDigit, lut, q);
    r := AddDigit(g, r, sDigit, bWindow, b);
    Accumulate(g, sAcc, sDigit, b, hAcc, hDigit, q);
  }

  /** [s]B + [h]Q for scalars below 2^253, with Q = -A at the call site. */
  method DoubleScalarMul<P(!new)>(g: Group<P>, s: seq<u8>, b: P, bWindow: seq<P>, h: seq<u8>, q: P) returns (sum: P)
    requires Abelian(g) && |bWindow| == 8 && OddMultiples(g, b, bWindow)
    requires |s| == 32 && LeBytes(s) < Pow(2, 253)
    requires |h| == 32 && LeBytes(h) < Pow(2, 253)
    ensures sum == g.add(Mul(g, LeBytes(s), b), Mul(g, LeBytes(h), q))
  {
    var lut := BuildTable(g, q);
    var hSlide := new SlideCtx(h);
    var sSlide := new SlideCtx(s);
    var i: int := if hSlide.nextCheck >= sSlide.nextCheck then hSlide.nextCheck else sSlide.nextCheck;
    ghost var hAcc, sAcc := 0, 0;
    sum := g.zero;
    assert Ask(g.zero, g.zero, g.zero);
    while i >= 0
      invariant -1 <= i <= 253
      invariant hSlide.Inv(LeBytes(h), 3, i + 1, hAcc) && sSlide.Inv(LeBytes(s), 5, i + 1, sAcc)
      invariant sum == g.add(Mul(g, sAcc, b), Mul(g, hAcc, q))
    {
      var hDigit, sDigit;
      sum, hDigit, sDigit := Round(g, sum, i, hSlide, h, lut, q, hAcc, sSlide, s, bWindow, b, sAcc);
      hAcc, sAcc := 2 * hAcc + hDigit, 2 * sAcc + sDigit;
      i := i - 1;
    }
    hSlide.Done(LeBytes(h), 3, hAcc);
    sSlide.Done(LeBytes(s), 5, sAcc);
  }

  /** One round: doubling, then adding both digits, advances both accumulators. */
  lemma Accumulate<P(!new)>(g: Group<P>, x: int, d: int, b: P, y: int, e: int, q: P)
    requires Abelian(g)
    ensures g.add(g.add(g.add(g.add(Mul(g, x, b), Mul(g, x, b)), g.add(Mul(g, y, q), Mul(g, y, q))), Mul(g, e, q)), Mul(g, d, b))
            == g.add(Mul(g, 2 * x + d, b), Mul(g, 2 * y + e, q))
  {
    var xb, yq, db, eq := Mul(g, 2 * x, b), Mul(g, 2 * y, q), Mul(g, d, b), Mul(g, e, q);
    MulSum(g, x, x, b);
    MulSum(g, y, y, q);
    MulSum(g, 2 * x, d, b);
    MulSum(g, 2 * y, e, q);
    assert Ask(xb, yq, eq);
    assert Ask(g.add(xb, g.add(yq, eq)), db, db);
    assert Ask(xb, g.add(yq, eq), db) && Ask(g.add(yq, eq), db, db) && Ask(xb, db, g.add(yq, eq));
  }
}
