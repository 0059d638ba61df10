/** Field arithmetic modulo 2^255 - 19 on ten signed limbs of alternately 26 and 25 bits:
    the product as a sum of columns, congruent to the product of the values. */
module FieldSpec {
  import opened Words

  const P: nat := 0x7fffffff_ffffffff_ffffffff_ffffffff_ffffffff_ffffffff_ffffffff_ffffffed
  const P255: nat := 0x80000000_00000000_00000000_00000000_00000000_00000000_00000000_00000000

  /** 25.5 i rounded up: the position of limb i. */
  function Pos(i: nat): nat { 25 * i + (i + 1) / 2 }

  /** The weight of limb i. */
  function Wt(i: nat): nat
  {
    if i == 0 then 1 else (if i % 2 == 1 then 0x400_0000 else 0x200_0000) * Wt(i - 1)
  }

  lemma Pow25()
    ensures Pow(2, 25) == 0x200_0000 && Pow(2, 26) == 0x400_0000
  {
    PowAdd(2, 5, 20);
    PowAdd(2, 10, 10);
    PowAdd(2, 5, 5);
    assert Pow(2, 5) == 2 * (2 * Pow(2, 3)) && Pow(2, 3) == 2 * (2 * Pow(2, 1)) && Pow(2, 1) == 2 * Pow(2, 0);
    assert Pow(2, 26) == 2 * Pow(2, 25);
  }

  lemma PosStep(i: nat)
    ensures i % 2 == 0 ==> Pos(i + 1) == 26 + Pos(i)
    ensures i % 2 == 1 ==> Pos(i + 1) == 25 + Pos(i)
  {}

  lemma {:induction false} WtPow(i: nat)
    ensures Wt(i) == Pow(2, Pos(i))
  {
    if i > 0 {
      var p := Pos(i - 1);
      WtPow(i - 1);
      PosStep(i - 1);
      Pow25();
      if i % 2 == 1 {
        PowAdd(2, 26, p);
      } else {
        PowAdd(2, 25, p);
      }
    }
  }

  /** The number the first n limbs stand for. */
  function ValueN(f: seq<int>, n: nat): int
    requires n <= |f|
    decreases n, f
  {
    if n == 0 then 0 else ValueN(f, n - 1) + f[n - 1] * Wt(n - 1)
  }

  function Value(f: seq<int>): int
  {
    ValueN(f, |f|)
  }

  // ---- the columns of fe_mul ----

  function XK(f: seq<int>, k: nat, i: nat): int
    requires i < |f|
  {
    (1 + Extra(k, i)) * f[i]
  }

  function J(k: nat, i: nat): nat
    requires k < 10 && i < 10
  {
    if i <= k then k - i else k + 10 - i
  }

  /** A product that leaves the top comes back 19 times at the bottom. */
  function YK(g: seq<int>, k: nat, i: nat): int
    requires k < 10 && i < 10 && |g| == 10
  {
    if i <= k then g[k - i] else 19 * g[k + 10 - i]
  }

  /** Column k, first n terms. */
  function Column(f: seq<int>, g: seq<int>, k: nat, n: nat): int
    requires |f| == 10 && |g| == 10 && k < 10 && n <= 10
    decreases n, f
  {
    if n == 0 then 0 else Column(f, g, k, n - 1) + XK(f, k, n - 1) * YK(g, k, n - 1)
  }

  /** What limb i of f contributes to the first m columns. */
  ghost function Row(f: seq<int>, g: seq<int>, i: nat, m: nat): int
    requires |f| == 10 && |g| == 10 && i < 10 && m <= 10
    decreases m, f
  {
    if m == 0 then 0 else Row(f, g, i, m - 1) + (XK(f, m - 1, i) * YK(g, m - 1, i)) * Wt(m - 1)
  }

  /** The first m columns with n terms each. */
  ghost function Grid(f: seq<int>, g: seq<int>, n: nat, m: nat): int
    requires |f| == 10 && |g| == 10 && n <= 10 && m <= 10
    decreases m, f
  {
    if m == 0 then 0 else Grid(f, g, n, m - 1) + Column(f, g, m - 1, n) * Wt(m - 1)
  }

  lemma {:induction false} GridRow(f: seq<int>, g: seq<int>, n: nat, m: nat)
    requires |f| == 10 && |g| == 10 && n < 10 && m <= 10
    ensures Grid(f, g, n + 1, m) == Grid(f, g, n, m) + Row(f, g, n, m)
  {
    if m > 0 {
      GridRow(f, g, n, m - 1);
      AddTerm(Column(f, g, m - 1, n), XK(f, m - 1, n) * YK(g, m - 1, n), Wt(m - 1));
    }
  }

  lemma AddTerm(c: int, t: int, w: int)
    ensures (c + t) * w == c * w + t * w
  {}

  /** Both limbs odd: their positions add up to one more than the column's. */
  function Extra(k: nat, i: nat): nat { if i % 2 == 1 && k % 2 == 0 then 1 else 0 }

  lemma Positions(k: nat, i: nat)
    requires k < 10 && i < 10
    ensures Pos(i) + Pos(J(k, i)) == (if i <= k then 0 else 255) + (Pos(k) + Extra(k, i))
  {
    PosSum(i, J(k, i));
  }

  lemma PosSum(i: nat, j: nat)
    ensures Pos(i) + Pos(j) == Pos(i + j) + (if i % 2 == 1 && (i + j) % 2 == 0 then 1 else 0)
    ensures Pos(j + 10) == Pos(j) + 255
  {
    HalfShift(i / 2, j + 1);
    HalfShift(i / 2 + 1, j);
    HalfShift(5, j + 1);
    if i % 2 == 0 { assert i == 2 * (i / 2); } else { assert i == 2 * (i / 2) + 1; }
  }

  lemma HalfShift(a: nat, x: nat)
    ensures (2 * a + x) / 2 == a + x / 2
  {}

  /** A product of two weights is a column weight, doubled for two odd limbs, wrapped by 2^255. */
  lemma {:induction false} Weights(k: nat, i: nat)
    requires k < 10 && i < 10
    ensures Wt(i) * Wt(J(k, i)) == (if i <= k then 1 else P255) * Pow(2, Pos(k) + Extra(k, i))
    ensures Pow(2, Pos(k) + Extra(k, i)) == (1 + Extra(k, i)) * Wt(k)
  {
    Positions(k, i);
    WtPow(i);
    WtPow(J(k, i));
    WtPow(k);
    PowAdd(2, Pos(i), Pos(J(k, i)));
    if i > k {
      PowAdd(2, 255, Pos(k) + Extra(k, i));
      Pow255();
    }
  }

  // ---- each limb of f contributes f_i * g modulo P ----

  /** The value of g, summed in the order in which row i meets its limbs. */
  ghost function Turned(g: seq<int>, i: nat, m: nat): int
    requires |g| == 10 && i < 10 && m <= 10
    decreases m, g
  {
    if m == 0 then 0 else Turned(g, i, m - 1) + g[J(m - 1, i)] * Wt(J(m - 1, i))
  }

  lemma {:induction false} TurnedPrefix(g: seq<int>, i: nat, m: nat)
    requires |g| == 10 && i < 10 && m <= 10
    ensures Turned(g, i, m) == if m <= i then ValueN(g, 10 - i + m) - ValueN(g, 10 - i)
                               else Value(g) - ValueN(g, 10 - i) + ValueN(g, m - i)
  {
    if m > 0 { TurnedPrefix(g, i, m - 1); }
  }

  lemma {:induction false} Term(x: int, y: int, b: int, w: int, wi: int, wj: int)
    ensures wi * wj == b * w ==> ((b * x) * y) * w == (x * wi) * (y * wj)
    ensures wi * wj == P255 * (b * w) ==> ((b * x) * (19 * y)) * w == (x * wi) * (y * wj) - P * ((x * y) * (b * w))
  {
    var z, v := x * y, b * w;
    assert ((b * x) * y) * w == z * v;
    assert (x * wi) * (y * wj) == z * (wi * wj);
    assert ((b * x) * (19 * y)) * w == 19 * (z * v);
    if wi * wj == P255 * v {
      assert z * (P255 * v) == P255 * (z * v);
      assert P255 == P + 19;
    }
  }

  lemma {:induction false} RowValue(f: seq<int>, g: seq<int>, i: nat, m: nat) returns (q: int)
    requires |f| == 10 && |g| == 10 && i < 10 && m <= 10
    ensures Row(f, g, i, m) == (f[i] * Wt(i)) * Turned(g, i, m) - P * q
  {
    if m == 0 {
      q := 0;
    } else {
      var k, j := m - 1, J(m - 1, i);
      var q0 := RowValue(f, g, i, m - 1);
      Weights(k, i);
      Term(f[i], g[j], 1 + Extra(k, i), Wt(k), Wt(i), Wt(j));
      q := if i <= k then q0 else q0 + (f[i] * g[j]) * ((1 + Extra(k, i)) * Wt(k));
      Distrib(f[i] * Wt(i), Turned(g, i, m - 1), g[j] * Wt(j));
    }
  }

  /** The columns of fe_mul stand for the product modulo P. */
  lemma {:induction false} GridValue(f: seq<int>, g: seq<int>, n: nat) returns (q: int)
    requires |f| == 10 && |g| == 10 && n <= 10
    ensures Grid(f, g, n, 10) == ValueN(f, n) * Value(g) - P * q
  {
    if n == 0 {
      q := 0;
      GridZero(f, g, 10);
    } else {
      var q0 := GridValue(f, g, n - 1);
      var q1 := RowValue(f, g, n - 1, 10);
      GridRow(f, g, n - 1, 10);
      TurnedPrefix(g, n - 1, 10);
      q := q0 + q1;
      AddTerm(ValueN(f, n - 1), f[n - 1] * Wt(n - 1), Value(g));
    }
  }

  lemma {:induction false} GridZero(f: seq<int>, g: seq<int>, m: nat)
    requires |f| == 10 && |g| == 10 && m <= 10
    ensures Grid(f, g, 0, m) == 0
  {
    if m > 0 { GridZero(f, g, m - 1); }
  }

  lemma {:induction false} Pow255()
    ensures Pow(2, 255) == P255 && P255 == P + 19
  {
    SquareStep(0, 1);
    SquareStep(1, 2);
    SquareStep(3, 8);
    SquareStep(7, 0x80);
    SquareStep(15, 0x8000);
    SquareStep(31, 0x8000_0000);
    SquareStep(63, 0x8000_0000_0000_0000);
    SquareStep(127, 0x80000000_00000000_00000000_00000000);
  }

  lemma SquareStep(n: nat, v: nat)
    requires Pow(2, n) == v
    ensures Pow(2, 2 * n + 1) == 2 * (v * v)
  {
    PowAdd(2, n, n);
  }
}

module Field {
  import opened Words
  import opened FieldSpec

  type i32 = x: int | -0x8000_0000 <= x < 0x8000_0000
  type i64 = x: int | -0x8000_0000_0000_0000 <= x < 0x8000_0000_0000_0000

  const C24: int := 0x100_0000
  const C25: int := 0x200_0000
  const C26: int := 0x400_0000
  const C62: int := 0x4000_0000_0000_0000
  const C63: int := 0x8000_0000_0000_0000

  lemma WeightNumerals()
    ensures Wt(0) == 0x1 && Wt(1) == 0x4000000 && Wt(2) == 0x8000000000000 && Wt(3) == 0x20000000000000000000 && Wt(4) == 0x40000000000000000000000000
    ensures Wt(5) == 0x100000000000000000000000000000000 && Wt(6) == 0x200000000000000000000000000000000000000 && Wt(7) == 0x800000000000000000000000000000000000000000000 && Wt(8) == 0x1000000000000000000000000000000000000000000000000000 && Wt(9) == 0x4000000000000000000000000000000000000000000000000000000000
  {
  }

  lemma ValueTen(t: seq<int>)
    requires |t| == 10
    ensures Value(t) == t[0] + t[1] * 0x4000000 + t[2] * 0x8000000000000 + t[3] * 0x20000000000000000000 + t[4] * 0x40000000000000000000000000 + t[5] * 0x100000000000000000000000000000000 + t[6] * 0x200000000000000000000000000000000000000 + t[7] * 0x800000000000000000000000000000000000000000000 + t[8] * 0x1000000000000000000000000000000000000000000000000000 + t[9] * 0x4000000000000000000000000000000000000000000000000000000000
  {
    WeightNumerals();
    assert ValueN(t, 2) == t[0] * Wt(0) + t[1] * Wt(1) by { assert ValueN(t, 1) == ValueN(t, 0) + t[0] * Wt(0); }
    assert ValueN(t, 4) == ValueN(t, 2) + t[2] * Wt(2) + t[3] * Wt(3) by { assert ValueN(t, 3) == ValueN(t, 2) + t[2] * Wt(2); }
    assert ValueN(t, 6) == ValueN(t, 4) + t[4] * Wt(4) + t[5] * Wt(5) by { assert ValueN(t, 5) == ValueN(t, 4) + t[4] * Wt(4); }
    assert ValueN(t, 8) == ValueN(t, 6) + t[6] * Wt(6) + t[7] * Wt(7) by { assert ValueN(t, 7) == ValueN(t, 6) + t[6] * Wt(6); }
    assert ValueN(t, 10) == ValueN(t, 8) + t[8] * Wt(8) + t[9] * Wt(9) by { assert ValueN(t, 9) == ValueN(t, 8) + t[8] * Wt(8); }
  }

  // ---- signed carry propagation ----

  /** One line of FE_CARRY out of a 26-bit limb. */
  method Carry26(a: i64, b: i64) returns (a': i64, b': i64)
    requires a + C25 < C63 && -C63 <= b + (a + C25) / C26 < C63
    ensures -C25 <= a' < C25 && a == a' + (b' - b) * C26
    ensures b' - b == (a + C25) / C26
  {
    var u: i64 := a + C25;
    var c: i64 := u / C26;
    var m: i64 := c * C26;
    a' := a - m;
    b' := b + c;
  }

  /** One line of FE_CARRY out of a 25-bit limb. */
  method Carry25(a: i64, b: i64) returns (a': i64, b': i64)
    requires a + C24 < C63 && -C63 <= b + (a + C24) / C25 < C63
    ensures -C24 <= a' < C24 && a == a' + (b' - b) * C25
    ensures b' - b == (a + C24) / C25
  {
    var u: i64 := a + C24;
    var c: i64 := u / C25;
    var m: i64 := c * C25;
    a' := a - m;
    b' := b + c;
  }

  /** The carry precondition. The room above |t0| < 2^63 - 2^25 is what the first addition needs. */
  predicate CarryPre(t: seq<i64>)
  {
    |t| == 10 && t[0] + C25 < C63 && forall i :: 1 <= i < 10 ==> -C62 < t[i] < C62
  }

  /** The precondition as the source documents it. */
  predicate DocumentedPre(t: seq<int>)
  {
    |t| == 10 && -C63 < t[0] < C63 && forall i :: 1 <= i < 10 ==> -C62 < t[i] < C62
  }

  predicate In64(x: int) { -C63 <= x < C63 }

  /** c = (a + unit/2) >> log2(unit) */
  function CarryOf(a: int, unit: int): int
    requires unit == C26 || unit == C25
  {
    (a + unit / 2) / unit
  }

  /** One line of FE_CARRY stays in 64 bits: the rounded sum, the product, what is left of a, and b with
      the carry, taken times, added. */
  predicate LineFits(a: int, b: int, unit: int, times: int)
    requires unit == C26 || unit == C25
  {
    var c := CarryOf(a, unit);
    In64(a + unit / 2) && In64(c * unit) && In64(a - c * unit) && In64(c * times) && In64(b + c * times)
  }

  /** What is left of a limb, and the next limb, after one line. */
  function Left(a: int, unit: int): int
    requires unit == C26 || unit == C25
  {
    a - CarryOf(a, unit) * unit
  }

  /** The first four lines, on t0 t4 t1 t5. */
  predicate FitsA(t0: int, t1: int, t2: int, t4: int, t5: int, t6: int)
  {
    && LineFits(t0, t1, C26, 1) && LineFits(t4, t5, C26, 1)
    && LineFits(t1 + CarryOf(t0, C26), t2, C25, 1) && LineFits(t5 + CarryOf(t4, C26), t6, C25, 1)
  }

  /** The next four, on t2 t6 t3 t7; r4 is what is left of t4. */
  predicate FitsB(t2: int, t3: int, r4: int, t6: int, t7: int, t8: int)
  {
    && LineFits(t2, t3, C26, 1) && LineFits(t6, t7, C26, 1)
    && LineFits(t3 + CarryOf(t2, C26), r4, C25, 1) && LineFits(t7 + CarryOf(t6, C26), t8, C25, 1)
  }

  /** The last four, on t4 t8 t9 t0; r0, r1 and r5 are what is left of t0, t1 and t5. */
  predicate FitsC(r0: int, r1: int, t4: int, r5: int, t8: int, t9: int)
  {
    && LineFits(t4, r5, C26, 1) && LineFits(t8, t9, C26, 1)
    && LineFits(t9 + CarryOf(t8, C26), r0, C25, 19)
    && LineFits(r0 + CarryOf(t9 + CarryOf(t8, C26), C25) * 19, r1, C26, 1)
  }

  /** The limbs with the carries of the first eight lines added. */
  function U1(t: seq<int>): int requires |t| == 10 { t[1] + CarryOf(t[0], C26) }
  function U5(t: seq<int>): int requires |t| == 10 { t[5] + CarryOf(t[4], C26) }
  function U2(t: seq<int>): int requires |t| == 10 { t[2] + CarryOf(U1(t), C25) }
  function U6(t: seq<int>): int requires |t| == 10 { t[6] + CarryOf(U5(t), C25) }
  function U4(t: seq<int>): int requires |t| == 10 { Left(t[4], C26) + CarryOf(t[3] + CarryOf(U2(t), C26), C25) }
  function U8(t: seq<int>): int requires |t| == 10 { t[8] + CarryOf(t[7] + CarryOf(U6(t), C26), C25) }

  /** No operation of the twelve lines of FE_CARRY, in source order, overflows. */
  predicate Fits(t: seq<int>)
    requires |t| == 10
  {
    && FitsA(t[0], t[1], t[2], t[4], t[5], t[6])
    && FitsB(U2(t), t[3], Left(t[4], C26), U6(t), t[7], t[8])
    && FitsC(Left(t[0], C26), Left(U1(t), C25), U4(t), Left(U5(t), C25), U8(t), t[9])
  }

  const SLACK: int := 0x80_0000_0000

  lemma CarryRange(a: int, unit: int)
    requires (unit == C26 || unit == C25) && -C63 <= a && a + unit / 2 < C63
    ensures -C25 <= Left(a, unit) < C25 && -SLACK / 2 <= CarryOf(a, unit) <= SLACK / 2
  {}

  lemma LineInRange(a: int, b: int, unit: int, times: int)
    requires (unit == C26 || unit == C25) && (times == 1 || times == 19)
    requires -C63 <= a && a + unit / 2 < C63 && -C62 - SLACK < b < C62 + SLACK
    ensures LineFits(a, b, unit, times)
  {
    CarryRange(a, unit);
  }

  lemma FitsAWhen(t0: int, t1: int, t2: int, t4: int, t5: int, t6: int)
    requires -C63 < t0 && t0 + C25 < C63
    requires Bounded(t1, C62) && Bounded(t2, C62) && Bounded(t4, C62) && Bounded(t5, C62) && Bounded(t6, C62)
    ensures FitsA(t0, t1, t2, t4, t5, t6)
  {
    CarryRange(t0, C26);
    CarryRange(t4, C26);
    LineInRange(t0, t1, C26, 1);
    LineInRange(t4, t5, C26, 1);
    LineInRange(t1 + CarryOf(t0, C26), t2, C25, 1);
    LineInRange(t5 + CarryOf(t4, C26), t6, C25, 1);
  }

  lemma FitsBWhen(t2: int, t3: int, r4: int, t6: int, t7: int, t8: int)
    requires Bounded(t2, C62 + SLACK) && Bounded(t3, C62) && Bounded(r4, C62) && Bounded(t6, C62 + SLACK)
    requires Bounded(t7, C62) && Bounded(t8, C62)
    ensures FitsB(t2, t3, r4, t6, t7, t8)
  {
    CarryRange(t2, C26);
    CarryRange(t6, C26);
    LineInRange(t2, t3, C26, 1);
    LineInRange(t6, t7, C26, 1);
    LineInRange(t3 + CarryOf(t2, C26), r4, C25, 1);
    LineInRange(t7 + CarryOf(t6, C26), t8, C25, 1);
  }

  lemma FitsCWhen(r0: int, r1: int, t4: int, r5: int, t8: int, t9: int)
    requires Bounded(r0, C62) && Bounded(r1, C62) && Bounded(t4, C62) && Bounded(r5, C62)
    requires Bounded(t8, C62 + SLACK) && Bounded(t9, C62)
    ensures FitsC(r0, r1, t4, r5, t8, t9)
  {
    CarryRange(t8, C26);
    CarryRange(t9 + CarryOf(t8, C26), C25);
    LineInRange(t4, r5, C26, 1);
    LineInRange(t8, t9, C26, 1);
    LineInRange(t9 + CarryOf(t8, C26), r0, C25, 19);
    LineInRange(r0 + CarryOf(t9 + CarryOf(t8, C26), C25) * 19, r1, C26, 1);
  }

  predicate Safe(t: seq<int>) { DocumentedPre(t) && t[0] + C25 < C63 }

  lemma FirstLimbs(t: seq<int>)
    requires Safe(t)
    ensures Bounded(U1(t), C62 + SLACK) && Bounded(U5(t), C62 + SLACK) && Bounded(U2(t), C62 + SLACK) && Bounded(U6(t), C62 + SLACK)
    ensures Bounded(Left(t[0], C26), C25) && Bounded(Left(t[4], C26), C25)
    ensures Bounded(Left(U1(t), C25), C25) && Bounded(Left(U5(t), C25), C25)
  {
    CarryRange(t[0], C26);
    CarryRange(t[4], C26);
    CarryRange(U1(t), C25);
    CarryRange(U5(t), C25);
  }

  lemma LaterLimb(a: int, b: int, r: int)
    requires Bounded(a, C62 + SLACK) && Bounded(b, C62) && Bounded(r, C62)
    ensures Bounded(r + CarryOf(b + CarryOf(a, C26), C25), C62 + SLACK)
    ensures Bounded(r, C25) ==> Bounded(r + CarryOf(b + CarryOf(a, C26), C25), C62)
  {
    CarryRange(a, C26);
    CarryRange(b + CarryOf(a, C26), C25);
  }

  lemma FitsWhen(t: seq<int>)
    requires Safe(t)
    ensures Fits(t)
  {
    FirstLimbs(t);
    LaterLimb(U2(t), t[3], Left(t[4], C26));
    LaterLimb(U6(t), t[7], t[8]);
    FitsAWhen(t[0], t[1], t[2], t[4], t[5], t[6]);
    FitsBWhen(U2(t), t[3], Left(t[4], C26), U6(t), t[7], t[8]);
    FitsCWhen(Left(t[0], C26), Left(U1(t), C25), U4(t), Left(U5(t), C25), U8(t), t[9]);
  }

  /** Within the documented range FE_CARRY stays in 64 bits exactly when its first addition does, and
      t0 = 2^63 - 1 is a documented input for which it does not. */
  lemma CarryFitsIff(t: seq<int>)
    requires DocumentedPre(t)
    ensures Fits(t) <==> t[0] + C25 < C63
    ensures DocumentedPre(t[0 := C63 - 1]) && !Fits(t[0 := C63 - 1])
  {
    if t[0] + C25 < C63 { FitsWhen(t); }
  }

  /** |even limb| < 1.1 * 2^25, |odd limb| < 1.1 * 2^24 */
  predicate Tight(h: seq<int>)
  {
    |h| == 10 && forall i :: 0 <= i < 10 ==>
      (i % 2 == 0 ==> -11 * C25 < 10 * h[i] < 11 * C25) && (i % 2 == 1 ==> -11 * C24 < 10 * h[i] < 11 * C24)
  }

  /** FE_CARRY */
  method Carry(t: seq<i64>) returns (h: seq<i32>)
    requires CarryPre(t)
    ensures |h| == 10 && Tight(h)
    ensures Value(h) % P == Value(t) % P
  {
    var u := CarryUp(t);
    h := CarryTop(u);
  }

  predicate Bounded(x: int, b: int) { -b <= x <= b }

  /** The first eight lines: limbs 0 to 3 and 5 to 7 become small. */
  method CarryUp(t: seq<i64>) returns (u: seq<i64>)
    requires CarryPre(t)
    ensures |u| == 10 && Value(u) == Value(t)
    ensures Bounded(u[0], C25) && Bounded(u[1], C24) && Bounded(u[2], C25) && Bounded(u[3], C24)
    ensures Bounded(u[4], 0x80_0000_0000) && Bounded(u[5], C24) && Bounded(u[6], C25) && Bounded(u[7], C24)
    ensures Bounded(u[8], C62 + 0x80_0000_0000) && Bounded(u[9], C62)
  {
    var t0, t1, t2, t3, t4 := t[0], t[1], t[2], t[3], t[4];
    var t5, t6, t7, t8, t9 := t[5], t[6], t[7], t[8], t[9];
    t0, t1 := Carry26(t0, t1);
    t4, t5 := Carry26(t4, t5);
    t1, t2 := Carry25(t1, t2);
    t5, t6 := Carry25(t5, t6);
    t2, t3 := Carry26(t2, t3);
    t6, t7 := Carry26(t6, t7);
    t3, t4 := Carry25(t3, t4);
    t7, t8 := Carry25(t7, t8);
    u := [t0, t1, t2, t3, t4, t5, t6, t7, t8, t9];
    ValueTen(t);
    ValueTen(u);
  }

  /** The last four lines: what leaves limb 9 comes back 19 times in limb 0. */
  method CarryTop(u: seq<i64>) returns (h: seq<i32>)
    requires |u| == 10
    requires Bounded(u[0], C25) && Bounded(u[1], C24) && Bounded(u[2], C25) && Bounded(u[3], C24)
    requires Bounded(u[4], 0x80_0000_0000) && Bounded(u[5], C24) && Bounded(u[6], C25) && Bounded(u[7], C24)
    requires Bounded(u[8], C62 + 0x80_0000_0000) && Bounded(u[9], C62)
    ensures |h| == 10 && Tight(h)
    ensures Value(h) % P == Value(u) % P
  {
    var t4, t5 := Carry26(u[4], u[5]);
    var t8, t9 := Carry26(u[8], u[9]);
    var c: i64;
    t9, c := Carry25(t9, 0);
    var t0: i64 := u[0] + c * 19;
    var t1;
    t0, t1 := Carry26(t0, u[1]);
    h := [t0, t1, u[2], u[3], t4, t5, u[6], u[7], t8, t9];
    TopValue(u, h, c);
    ModShift(Value(u), -c, P);
  }

  lemma {:induction false} TopValue(u: seq<int>, h: seq<int>, c: int)
    requires |u| == 10 && |h| == 10
    requires h[2] == u[2] && h[3] == u[3] && h[6] == u[6] && h[7] == u[7]
    requires u[4] == h[4] + (h[5] - u[5]) * C26
    requires u[8] == h[8] + (h[9] + c * C25 - u[9]) * C26
    requires u[0] + c * 19 == h[0] + (h[1] - u[1]) * C26
    ensures Value(h) == Value(u) + (-c) * P
  {
    ValueTen(u);
    ValueTen(h);
  }

  // ---- multiplication ----

  /** |even limb| < 1.65 * 2^26, |odd limb| < 1.65 * 2^25 */
  predicate Loose(f: seq<int>)
  {
    |f| == 10 && forall i :: 0 <= i < 10 ==>
      (i % 2 == 0 ==> -165 * C26 < 100 * f[i] < 165 * C26) && (i % 2 == 1 ==> -165 * C25 < 100 * f[i] < 165 * C25)
  }

  const XMAX: int := 110729625
  const YMAX: int := 0x7fff_ffff

  lemma ProductBound(x: int, y: int)
    requires Bounded(x, XMAX) && Bounded(y, YMAX)
    ensures Bounded(x * y, XMAX * YMAX)
  {
    if x >= 0 {
      MulMono(x, XMAX, YMAX);
      MulMono(-YMAX, y, x);
      MulMono(y, YMAX, x);
    } else {
      MulMono(-x, XMAX, YMAX);
      MulMono(-YMAX, y, -x);
      MulMono(y, YMAX, -x);
    }
  }

  lemma {:induction false} ColumnTerms(f: seq<int>, g: seq<int>, k: nat)
    requires |f| == 10 && |g| == 10 && k < 10
    ensures Column(f, g, k, 10) ==
            XK(f, k, 0) * YK(g, k, 0) + XK(f, k, 1) * YK(g, k, 1) + XK(f, k, 2) * YK(g, k, 2) + XK(f, k, 3) * YK(g, k, 3)
            + XK(f, k, 4) * YK(g, k, 4) + XK(f, k, 5) * YK(g, k, 5) + XK(f, k, 6) * YK(g, k, 6) + XK(f, k, 7) * YK(g, k, 7)
            + XK(f, k, 8) * YK(g, k, 8) + XK(f, k, 9) * YK(g, k, 9)
  {
    assert Column(f, g, k, 10) == Column(f, g, k, 9) + XK(f, k, 9) * YK(g, k, 9);
    assert Column(f, g, k, 9) == Column(f, g, k, 8) + XK(f, k, 8) * YK(g, k, 8);
    assert Column(f, g, k, 8) == Column(f, g, k, 7) + XK(f, k, 7) * YK(g, k, 7);
    assert Column(f, g, k, 7) == Column(f, g, k, 6) + XK(f, k, 6) * YK(g, k, 6);
    assert Column(f, g, k, 6) == Column(f, g, k, 5) + XK(f, k, 5) * YK(g, k, 5);
    assert Column(f, g, k, 5) == Column(f, g, k, 4) + XK(f, k, 4) * YK(g, k, 4);
    assert Column(f, g, k, 4) == Column(f, g, k, 3) + XK(f, k, 3) * YK(g, k, 3);
    assert Column(f, g, k, 3) == Column(f, g, k, 2) + XK(f, k, 2) * YK(g, k, 2);
    assert Column(f, g, k, 2) == Column(f, g, k, 1) + XK(f, k, 1) * YK(g, k, 1);
    assert Column(f, g, k, 1) == Column(f, g, k, 0) + XK(f, k, 0) * YK(g, k, 0);
  }

  /** Ten columns carried back into limbs stand for the product. */
  lemma {:induction false} ColumnsValue(f: seq<int>, g: seq<int>, t: seq<int>)
    requires |f| == 10 && |g| == 10 && |t| == 10
    requires forall k :: 0 <= k < 10 ==> t[k] == Column(f, g, k, 10)
    ensures Value(t) % P == Value(f) * Value(g) % P
  {
    var q := GridValue(f, g, 10);
    GridColumns(f, g, t, 10);
    ModShift(Value(f) * Value(g), -q, P);
  }

  lemma {:induction false} GridColumns(f: seq<int>, g: seq<int>, t: seq<int>, m: nat)
    requires |f| == 10 && |g| == 10 && |t| == 10 && m <= 10
    requires forall k :: 0 <= k < 10 ==> t[k] == Column(f, g, k, 10)
    ensures ValueN(t, m) == Grid(f, g, 10, m)
  {
    if m > 0 { GridColumns(f, g, t, m - 1); }
  }

  /** Ten products summed from the left: every product and every partial sum fits in 64 bits. */
  method Sum10(x0: i32, y0: i32, x1: i32, y1: i32, x2: i32, y2: i32, x3: i32, y3: i32, x4: i32, y4: i32, x5: i32, y5: i32, x6: i32, y6: i32, x7: i32, y7: i32, x8: i32, y8: i32, x9: i32, y9: i32) returns (t: i64)
    requires MulFactors(x0, y0) && MulFactors(x1, y1) && MulFactors(x2, y2) && MulFactors(x3, y3) && MulFactors(x4, y4)
    requires MulFactors(x5, y5) && MulFactors(x6, y6) && MulFactors(x7, y7) && MulFactors(x8, y8) && MulFactors(x9, y9)
    ensures t == x0 * y0 + x1 * y1 + x2 * y2 + x3 * y3 + x4 * y4 + x5 * y5 + x6 * y6 + x7 * y7 + x8 * y8 + x9 * y9
    ensures -C62 < t < C62
  {
    t := AddTerm10(0, x0, y0, 0);
    t := AddTerm10(t, x1, y1, 1);
    t := AddTerm10(t, x2, y2, 2);
    t := AddTerm10(t, x3, y3, 3);
    t := AddTerm10(t, x4, y4, 4);
    t := AddTerm10(t, x5, y5, 5);
    t := AddTerm10(t, x6, y6, 6);
    t := AddTerm10(t, x7, y7, 7);
    t := AddTerm10(t, x8, y8, 8);
    t := AddTerm10(t, x9, y9, 9);
  }

  predicate MulFactors(x: int, y: int) { Bounded(x, XMAX) && Bounded(y, YMAX) }

  method AddTerm10(t: i64, x: i32, y: i32, ghost n: nat) returns (r: i64)
    requires n < 10 && MulFactors(x, y) && Bounded(t, n * (XMAX * YMAX))
    ensures r == t + x * y && Bounded(r, (n + 1) * (XMAX * YMAX))
  {
    ProductBound(x, y);
    var a: int, b: int := x, y;
    var product: i64 := a * b;
    r := t + product;
  }

  lemma {:induction false} Product0(f: seq<int>, g: seq<int>, t: int)
    requires |f| == 10 && |g| == 10
    requires t == f[0] * g[0] + (f[1] * 2) * (g[9] * 19) + f[2] * (g[8] * 19) + (f[3] * 2) * (g[7] * 19) + f[4] * (g[6] * 19) + (f[5] * 2) * (g[5] * 19) + f[6] * (g[4] * 19) + (f[7] * 2) * (g[3] * 19) + f[8] * (g[2] * 19) + (f[9] * 2) * (g[1] * 19)
    ensures t == Column(f, g, 0, 10)
  {
    ColumnTerms(f, g, 0);
  }

  lemma {:induction false} Product1(f: seq<int>, g: seq<int>, t: int)
    requires |f| == 10 && |g| == 10
    requires t == f[0] * g[1] + f[1] * g[0] + f[2] * (g[9] * 19) + f[3] * (g[8] * 19) + f[4] * (g[7] * 19) + f[5] * (g[6] * 19) + f[6] * (g[5] * 19) + f[7] * (g[4] * 19) + f[8] * (g[3] * 19) + f[9] * (g[2] * 19)
    ensures t == Column(f, g, 1, 10)
  {
    ColumnTerms(f, g, 1);
  }

  lemma {:induction false} Product2(f: seq<int>, g: seq<int>, t: int)
    requires |f| == 10 && |g| == 10
    requires t == f[0] * g[2] + (f[1] * 2) * g[1] + f[2] * g[0] + (f[3] * 2) * (g[9] * 19) + f[4] * (g[8] * 19) + (f[5] * 2) * (g[7] * 19) + f[6] * (g[6] * 19) + (f[7] * 2) * (g[5] * 19) + f[8] * (g[4] * 19) + (f[9] * 2) * (g[3] * 19)
    ensures t == Column(f, g, 2, 10)
  {
    ColumnTerms(f, g, 2);
  }

  lemma {:induction false} Product3(f: seq<int>, g: seq<int>, t: int)
    requires |f| == 10 && |g| == 10
    requires t == f[0] * g[3] + f[1] * g[2] + f[2] * g[1] + f[3] * g[0] + f[4] * (g[9] * 19) + f[5] * (g[8] * 19) + f[6] * (g[7] * 19) + f[7] * (g[6] * 19) + f[8] * (g[5] * 19) + f[9] * (g[4] * 19)
    ensures t == Column(f, g, 3, 10)
  {
    ColumnTerms(f, g, 3);
  }

  lemma {:induction false} Product4(f: seq<int>, g: seq<int>, t: int)
    requires |f| == 10 && |g| == 10
    requires t == f[0] * g[4] + (f[1] * 2) * g[3] + f[2] * g[2] + (f[3] * 2) * g[1] + f[4] * g[0] + (f[5] * 2) * (g[9] * 19) + f[6] * (g[8] * 19) + (f[7] * 2) * (g[7] * 19) + f[8] * (g[6] * 19) + (f[9] * 2) * (g[5] * 19)
    ensures t == Column(f, g, 4, 10)
  {
    ColumnTerms(f, g, 4);
  }

  lemma {:induction false} Product5(f: seq<int>, g: seq<int>, t: int)
    requires |f| == 10 && |g| == 10
    requires t == f[0] * g[5] + f[1] * g[4] + f[2] * g[3] + f[3] * g[2] + f[4] * g[1] + f[5] * g[0] + f[6] * (g[9] * 19) + f[7] * (g[8] * 19) + f[8] * (g[7] * 19) + f[9] * (g[6] * 19)
    ensures t == Column(f, g, 5, 10)
  {
    ColumnTerms(f, g, 5);
  }

  lemma {:induction false} Product6(f: seq<int>, g: seq<int>, t: int)
    requires |f| == 10 && |g| == 10
    requires t == f[0] * g[6] + (f[1] * 2) * g[5] + f[2] * g[4] + (f[3] * 2) * g[3] + f[4] * g[2] + (f[5] * 2) * g[1] + f[6] * g[0] + (f[7] * 2) * (g[9] * 19) + f[8] * (g[8] * 19) + (f[9] * 2) * (g[7] * 19)
    ensures t == Column(f, g, 6, 10)
  {
    ColumnTerms(f, g, 6);
  }

  lemma {:induction false} Product7(f: seq<int>, g: seq<int>, t: int)
    requires |f| == 10 && |g| == 10
    requires t == f[0] * g[7] + f[1] * g[6] + f[2] * g[5] + f[3] * g[4] + f[4] * g[3] + f[5] * g[2] + f[6] * g[1] + f[7] * g[0] + f[8] * (g[9] * 19) + f[9] * (g[8] * 19)
    ensures t == Column(f, g, 7, 10)
  {
    ColumnTerms(f, g, 7);
  }

  lemma {:induction false} Product8(f: seq<int>, g: seq<int>, t: int)
    requires |f| == 10 && |g| == 10
    requires t == f[0] * g[8] + (f[1] * 2) * g[7] + f[2] * g[6] + (f[3] * 2) * g[5] + f[4] * g[4] + (f[5] * 2) * g[3] + f[6] * g[2] + (f[7] * 2) * g[1] + f[8] * g[0] + (f[9] * 2) * (g[9] * 19)
    ensures t == Column(f, g, 8, 10)
  {
    ColumnTerms(f, g, 8);
  }

  lemma {:induction false} Product9(f: seq<int>, g: seq<int>, t: int)
    requires |f| == 10 && |g| == 10
    requires t == f[0] * g[9] + f[1] * g[8] + f[2] * g[7] + f[3] * g[6] + f[4] * g[5] + f[5] * g[4] + f[6] * g[3] + f[7] * g[2] + f[8] * g[1] + f[9] * g[0]
    ensures t == Column(f, g, 9, 10)
  {
    ColumnTerms(f, g, 9);
  }

  /** The ten column sums of fe_mul. */
  method ProductColumns(f0: i32, f1: i32, f2: i32, f3: i32, f4: i32, f5: i32, f6: i32, f7: i32, f8: i32, f9: i32,
                         g0: i32, g1: i32, g2: i32, g3: i32, g4: i32, g5: i32, g6: i32, g7: i32, g8: i32, g9: i32,
                         F1: i32, F3: i32, F5: i32, F7: i32, F9: i32, G1: i32, G2: i32, G3: i32, G4: i32, G5: i32,
                         G6: i32, G7: i32, G8: i32, G9: i32)
    returns (t0: i64, t1: i64, t2: i64, t3: i64, t4: i64, t5: i64, t6: i64, t7: i64, t8: i64, t9: i64)
    requires Bounded(f0, XMAX) && Bounded(f1, XMAX) && Bounded(f2, XMAX) && Bounded(f3, XMAX) && Bounded(f4, XMAX)
    requires Bounded(f5, XMAX) && Bounded(f6, XMAX) && Bounded(f7, XMAX) && Bounded(f8, XMAX) && Bounded(f9, XMAX)
    requires Bounded(g0, XMAX) && Bounded(g1, XMAX) && Bounded(g2, XMAX) && Bounded(g3, XMAX) && Bounded(g4, XMAX)
    requires Bounded(g5, XMAX) && Bounded(g6, XMAX) && Bounded(g7, XMAX) && Bounded(g8, XMAX) && Bounded(g9, XMAX)
    requires Bounded(F1, XMAX) && Bounded(F3, XMAX) && Bounded(F5, XMAX) && Bounded(F7, XMAX) && Bounded(F9, XMAX)
    requires Bounded(G1, YMAX) && Bounded(G2, YMAX) && Bounded(G3, YMAX) && Bounded(G4, YMAX) && Bounded(G5, YMAX)
    requires Bounded(G6, YMAX) && Bounded(G7, YMAX) && Bounded(G8, YMAX) && Bounded(G9, YMAX)
    ensures t0 == f0 * g0 + F1 * G9 + f2 * G8 + F3 * G7 + f4 * G6 + F5 * G5 + f6 * G4 + F7 * G3 + f8 * G2 + F9 * G1 && -C62 < t0 < C62
    ensures t1 == f0 * g1 + f1 * g0 + f2 * G9 + f3 * G8 + f4 * G7 + f5 * G6 + f6 * G5 + f7 * G4 + f8 * G3 + f9 * G2 && -C62 < t1 < C62
    ensures t2 == f0 * g2 + F1 * g1 + f2 * g0 + F3 * G9 + f4 * G8 + F5 * G7 + f6 * G6 + F7 * G5 + f8 * G4 + F9 * G3 && -C62 < t2 < C62
    ensures t3 == f0 * g3 + f1 * g2 + f2 * g1 + f3 * g0 + f4 * G9 + f5 * G8 + f6 * G7 + f7 * G6 + f8 * G5 + f9 * G4 && -C62 < t3 < C62
    ensures t4 == f0 * g4 + F1 * g3 + f2 * g2 + F3 * g1 + f4 * g0 + F5 * G9 + f6 * G8 + F7 * G7 + f8 * G6 + F9 * G5 && -C62 < t4 < C62
    ensures t5 == f0 * g5 + f1 * g4 + f2 * g3 + f3 * g2 + f4 * g1 + f5 * g0 + f6 * G9 + f7 * G8 + f8 * G7 + f9 * G6 && -C62 < t5 < C62
    ensures t6 == f0 * g6 + F1 * g5 + f2 * g4 + F3 * g3 + f4 * g2 + F5 * g1 + f6 * g0 + F7 * G9 + f8 * G8 + F9 * G7 && -C62 < t6 < C62
    ensures t7 == f0 * g7 + f1 * g6 + f2 * g5 + f3 * g4 + f4 * g3 + f5 * g2 + f6 * g1 + f7 * g0 + f8 * G9 + f9 * G8 && -C62 < t7 < C62
    ensures t8 == f0 * g8 + F1 * g7 + f2 * g6 + F3 * g5 + f4 * g4 + F5 * g3 + f6 * g2 + F7 * g1 + f8 * g0 + F9 * G9 && -C62 < t8 < C62
    ensures t9 == f0 * g9 + f1 * g8 + f2 * g7 + f3 * g6 + f4 * g5 + f5 * g4 + f6 * g3 + f7 * g2 + f8 * g1 + f9 * g0 && -C62 < t9 < C62
  {
    t0 := Sum10(f0, g0, F1, G9, f2, G8, F3, G7, f4, G6, F5, G5, f6, G4, F7, G3, f8, G2, F9, G1);
    t1 := Sum10(f0, g1, f1, g0, f2, G9, f3, G8, f4, G7, f5, G6, f6, G5, f7, G4, f8, G3, f9, G2);
    t2 := Sum10(f0, g2, F1, g1, f2, g0, F3, G9, f4, G8, F5, G7, f6, G6, F7, G5, f8, G4, F9, G3);
    t3 := Sum10(f0, g3, f1, g2, f2, g1, f3, g0, f4, G9, f5, G8, f6, G7, f7, G6, f8, G5, f9, G4);
    t4 := Sum10(f0, g4, F1, g3, f2, g2, F3, g1, f4, g0, F5, G9, f6, G8, F7, G7, f8, G6, F9, G5);
    t5 := Sum10(f0, g5, f1, g4, f2, g3, f3, g2, f4, g1, f5, g0, f6, G9, f7, G8, f8, G7, f9, G6);
    t6 := Sum10(f0, g6, F1, g5, f2, g4, F3, g3, f4, g2, F5, g1, f6, g0, F7, G9, f8, G8, F9, G7);
    t7 := Sum10(f0, g7, f1, g6, f2, g5, f3, g4, f4, g3, f5, g2, f6, g1, f7, g0, f8, G9, f9, G8);
    t8 := Sum10(f0, g8, F1, g7, f2, g6, F3, g5, f4, g4, F5, g3, f6, g2, F7, g1, f8, g0, F9, G9);
    t9 := Sum10(f0, g9, f1, g8, f2, g7, f3, g6, f4, g5, f5, g4, f6, g3, f7, g2, f8, g1, f9, g0);
  }

  lemma LooseFactor(f: seq<int>, i: nat)
    requires Loose(f) && i < 10
    ensures Bounded(f[i], XMAX) && (i % 2 == 1 ==> Bounded(f[i] * 2, XMAX)) && Bounded(f[i] * 19, YMAX)
  {}

  /** The doubled and 19-fold limbs, then the column sums. */
  method Products(f: seq<i32>, g: seq<i32>) returns (t: seq<i64>)
    requires Loose(f) && Loose(g)
    ensures |t| == 10 && forall k :: 0 <= k < 10 ==> t[k] == Column(f, g, k, 10) && -C62 < t[k] < C62
  {
    LooseFactor(f, 0);
    LooseFactor(f, 1);
    LooseFactor(f, 2);
    LooseFactor(f, 3);
    LooseFactor(f, 4);
    LooseFactor(f, 5);
    LooseFactor(f, 6);
    LooseFactor(f, 7);
    LooseFactor(f, 8);
    LooseFactor(f, 9);
    LooseFactor(g, 0);
    LooseFactor(g, 1);
    LooseFactor(g, 2);
    LooseFactor(g, 3);
    LooseFactor(g, 4);
    LooseFactor(g, 5);
    LooseFactor(g, 6);
    LooseFactor(g, 7);
    LooseFactor(g, 8);
    LooseFactor(g, 9);
    var f0: int, f1: int, f2: int, f3: int, f4: int := f[0], f[1], f[2], f[3], f[4];
    var f5: int, f6: int, f7: int, f8: int, f9: int := f[5], f[6], f[7], f[8], f[9];
    var g0: int, g1: int, g2: int, g3: int, g4: int := g[0], g[1], g[2], g[3], g[4];
    var g5: int, g6: int, g7: int, g8: int, g9: int := g[5], g[6], g[7], g[8], g[9];
    var F1: i32, F3: i32, F5: i32, F7: i32, F9: i32 := f1 * 2, f3 * 2, f5 * 2, f7 * 2, f9 * 2;
    var G1: i32, G2: i32, G3: i32 := g1 * 19, g2 * 19, g3 * 19;
    var G4: i32, G5: i32, G6: i32 := g4 * 19, g5 * 19, g6 * 19;
    var G7: i32, G8: i32, G9: i32 := g7 * 19, g8 * 19, g9 * 19;
    var t0, t1, t2, t3, t4, t5, t6, t7, t8, t9 :=
      ProductColumns(f0, f1, f2, f3, f4, f5, f6, f7, f8, f9, g0, g1, g2, g3, g4, g5, g6, g7, g8, g9, F1, F3, F5, F7, F9, G1, G2, G3, G4, G5, G6, G7, G8, G9);
    Product0(f, g, t0);
    Product1(f, g, t1);
    Product2(f, g, t2);
    Product3(f, g, t3);
    Product4(f, g, t4);
    Product5(f, g, t5);
    Product6(f, g, t6);
    Product7(f, g, t7);
    Product8(f, g, t8);
    Product9(f, g, t9);
    t := [t0, t1, t2, t3, t4, t5, t6, t7, t8, t9];
  }

  /** fe_mul */
  method FeMul(f: seq<i32>, g: seq<i32>) returns (h: seq<i32>)
    requires Loose(f) && Loose(g)
    ensures |h| == 10 && Tight(h)
    ensures Value(h) % P == Value(f) * Value(g) % P
  {
    var t := Products(f, g);
    ColumnsValue(f, g, t);
    h := Carry(t);
  }

  // ---- squaring ----

  /** Factors of one fe_sq product: their product is below 0.21 * 2^61. */
  predicate Factors(x: int, y: int) { Bounded(x, 2 * XMAX) && Bounded(y, YMAX) }

  lemma FactorsBound(x: int, y: int)
    requires Factors(x, y)
    ensures Bounded(x * y, 2 * (XMAX * YMAX))
  {
    if x >= 0 {
      MulMono(x, 2 * XMAX, YMAX);
      MulMono(-YMAX, y, x);
      MulMono(y, YMAX, x);
    } else {
      MulMono(-x, 2 * XMAX, YMAX);
      MulMono(-YMAX, y, -x);
      MulMono(y, YMAX, -x);
    }
  }

  /** One more product on a 64-bit sum of n products. */
  method AddProduct(t: i64, x: i32, y: i32, ghost n: nat) returns (r: i64)
    requires n < 6 && Factors(x, y) && Bounded(t, n * (2 * (XMAX * YMAX)))
    ensures r == t + x * y && Bounded(r, (n + 1) * (2 * (XMAX * YMAX)))
  {
    FactorsBound(x, y);
    var a: int, b: int := x, y;
    var product: i64 := a * b;
    r := t + product;
  }

  /** Five products summed from the left: every product and every partial sum fits in 64 bits. */
  method Sum5(x0: i32, y0: i32, x1: i32, y1: i32, x2: i32, y2: i32, x3: i32, y3: i32, x4: i32, y4: i32) returns (t: i64)
    requires Factors(x0, y0) && Factors(x1, y1) && Factors(x2, y2) && Factors(x3, y3) && Factors(x4, y4)
    ensures t == x0 * y0 + x1 * y1 + x2 * y2 + x3 * y3 + x4 * y4 && Bounded(t, 5 * (2 * (XMAX * YMAX)))
  {
    t := AddProduct(0, x0, y0, 0);
    t := AddProduct(t, x1, y1, 1);
    t := AddProduct(t, x2, y2, 2);
    t := AddProduct(t, x3, y3, 3);
    t := AddProduct(t, x4, y4, 4);
  }

  method Sum6(x0: i32, y0: i32, x1: i32, y1: i32, x2: i32, y2: i32, x3: i32, y3: i32, x4: i32, y4: i32, x5: i32, y5: i32)
    returns (t: i64)
    requires Factors(x0, y0) && Factors(x1, y1) && Factors(x2, y2) && Factors(x3, y3) && Factors(x4, y4) && Factors(x5, y5)
    ensures t == x0 * y0 + x1 * y1 + x2 * y2 + x3 * y3 + x4 * y4 + x5 * y5 && Bounded(t, 6 * (2 * (XMAX * YMAX)))
  {
    t := Sum5(x0, y0, x1, y1, x2, y2, x3, y3, x4, y4);
    t := AddProduct(t, x5, y5, 5);
  }

  lemma {:induction false} Square0(f: seq<int>, t: int)
    requires |f| == 10
    requires t == f[0] * f[0] + (f[1] * 2) * (f[9] * 38) + (f[2] * 2) * (f[8] * 19) + (f[3] * 2) * (f[7] * 38) + (f[4] * 2) * (f[6] * 19) + f[5] * (f[5] * 38)
    ensures t == Column(f, f, 0, 10)
  {
    ColumnTerms(f, f, 0);
  }

  lemma {:induction false} Square1(f: seq<int>, t: int)
    requires |f| == 10
    requires t == (f[0] * 2) * f[1] + f[2] * (f[9] * 38) + (f[3] * 2) * (f[8] * 19) + f[4] * (f[7] * 38) + (f[5] * 2) * (f[6] * 19)
    ensures t == Column(f, f, 1, 10)
  {
    ColumnTerms(f, f, 1);
  }

  lemma {:induction false} Square2(f: seq<int>, t: int)
    requires |f| == 10
    requires t == (f[0] * 2) * f[2] + (f[1] * 2) * f[1] + (f[3] * 2) * (f[9] * 38) + (f[4] * 2) * (f[8] * 19) + (f[5] * 2) * (f[7] * 38) + f[6] * (f[6] * 19)
    ensures t == Column(f, f, 2, 10)
  {
    ColumnTerms(f, f, 2);
  }

  lemma {:induction false} Square3(f: seq<int>, t: int)
    requires |f| == 10
    requires t == (f[0] * 2) * f[3] + (f[1] * 2) * f[2] + f[4] * (f[9] * 38) + (f[5] * 2) * (f[8] * 19) + f[6] * (f[7] * 38)
    ensures t == Column(f, f, 3, 10)
  {
    ColumnTerms(f, f, 3);
  }

  lemma {:induction false} Square4(f: seq<int>, t: int)
    requires |f| == 10
    requires t == (f[0] * 2) * f[4] + (f[1] * 2) * (f[3] * 2) + f[2] * f[2] + (f[5] * 2) * (f[9] * 38) + (f[6] * 2) * (f[8] * 19) + f[7] * (f[7] * 38)
    ensures t == Column(f, f, 4, 10)
  {
    ColumnTerms(f, f, 4);
  }

  lemma {:induction false} Square5(f: seq<int>, t: int)
    requires |f| == 10
    requires t == (f[0] * 2) * f[5] + (f[1] * 2) * f[4] + (f[2] * 2) * f[3] + f[6] * (f[9] * 38) + (f[7] * 2) * (f[8] * 19)
    ensures t == Column(f, f, 5, 10)
  {
    ColumnTerms(f, f, 5);
  }

  lemma {:induction false} Square6(f: seq<int>, t: int)
    requires |f| == 10
    requires t == (f[0] * 2) * f[6] + (f[1] * 2) * (f[5] * 2) + (f[2] * 2) * f[4] + (f[3] * 2) * f[3] + (f[7] * 2) * (f[9] * 38) + f[8] * (f[8] * 19)
    ensures t == Column(f, f, 6, 10)
  {
    ColumnTerms(f, f, 6);
  }

  lemma {:induction false} Square7(f: seq<int>, t: int)
    requires |f| == 10
    requires t == (f[0] * 2) * f[7] + (f[1] * 2) * f[6] + (f[2] * 2) * f[5] + (f[3] * 2) * f[4] + f[8] * (f[9] * 38)
    ensures t == Column(f, f, 7, 10)
  {
    ColumnTerms(f, f, 7);
  }

  lemma {:induction false} Square8(f: seq<int>, t: int)
    requires |f| == 10
    requires t == (f[0] * 2) * f[8] + (f[1] * 2) * (f[7] * 2) + (f[2] * 2) * f[6] + (f[3] * 2) * (f[5] * 2) + f[4] * f[4] + f[9] * (f[9] * 38)
    ensures t == Column(f, f, 8, 10)
  {
    ColumnTerms(f, f, 8);
  }

  lemma {:induction false} Square9(f: seq<int>, t: int)
    requires |f| == 10
    requires t == (f[0] * 2) * f[9] + (f[1] * 2) * f[8] + (f[2] * 2) * f[7] + (f[3] * 2) * f[6] + f[4] * (f[5] * 2)
    ensures t == Column(f, f, 9, 10)
  {
    ColumnTerms(f, f, 9);
  }

  /** The ten column sums of fe_sq. */
  method SquareColumns(f0: i32, f1: i32, f2: i32, f3: i32, f4: i32, f5: i32, f6: i32, f7: i32, f8: i32, f9: i32,
                       f0_2: i32, f1_2: i32, f2_2: i32, f3_2: i32, f4_2: i32, f5_2: i32, f6_2: i32, f7_2: i32, f5_38: i32, f6_19: i32, f7_38: i32, f8_19: i32, f9_38: i32)
    returns (t0: i64, t1: i64, t2: i64, t3: i64, t4: i64, t5: i64, t6: i64, t7: i64, t8: i64, t9: i64)
    requires Bounded(f0, XMAX) && Bounded(f1, XMAX) && Bounded(f2, XMAX) && Bounded(f3, XMAX) && Bounded(f4, XMAX)
    requires Bounded(f5, XMAX) && Bounded(f6, XMAX) && Bounded(f7, XMAX) && Bounded(f8, XMAX) && Bounded(f9, XMAX)
    requires Bounded(f0_2, 2 * XMAX) && Bounded(f1_2, 2 * XMAX) && Bounded(f2_2, 2 * XMAX) && Bounded(f3_2, 2 * XMAX) && Bounded(f4_2, 2 * XMAX)
    requires Bounded(f5_2, 2 * XMAX) && Bounded(f6_2, 2 * XMAX) && Bounded(f7_2, 2 * XMAX) && Bounded(f5_38, YMAX) && Bounded(f6_19, YMAX)
    requires Bounded(f7_38, YMAX) && Bounded(f8_19, YMAX) && Bounded(f9_38, YMAX)
    ensures t0 == f0 * f0 + f1_2 * f9_38 + f2_2 * f8_19 + f3_2 * f7_38 + f4_2 * f6_19 + f5 * f5_38 && -C62 < t0 < C62
    ensures t1 == f0_2 * f1 + f2 * f9_38 + f3_2 * f8_19 + f4 * f7_38 + f5_2 * f6_19 && -C62 < t1 < C62
    ensures t2 == f0_2 * f2 + f1_2 * f1 + f3_2 * f9_38 + f4_2 * f8_19 + f5_2 * f7_38 + f6 * f6_19 && -C62 < t2 < C62
    ensures t3 == f0_2 * f3 + f1_2 * f2 + f4 * f9_38 + f5_2 * f8_19 + f6 * f7_38 && -C62 < t3 < C62
    ensures t4 == f0_2 * f4 + f1_2 * f3_2 + f2 * f2 + f5_2 * f9_38 + f6_2 * f8_19 + f7 * f7_38 && -C62 < t4 < C62
    ensures t5 == f0_2 * f5 + f1_2 * f4 + f2_2 * f3 + f6 * f9_38 + f7_2 * f8_19 && -C62 < t5 < C62
    ensures t6 == f0_2 * f6 + f1_2 * f5_2 + f2_2 * f4 + f3_2 * f3 + f7_2 * f9_38 + f8 * f8_19 && -C62 < t6 < C62
    ensures t7 == f0_2 * f7 + f1_2 * f6 + f2_2 * f5 + f3_2 * f4 + f8 * f9_38 && -C62 < t7 < C62
    ensures t8 == f0_2 * f8 + f1_2 * f7_2 + f2_2 * f6 + f3_2 * f5_2 + f4 * f4 + f9 * f9_38 && -C62 < t8 < C62
    ensures t9 == f0_2 * f9 + f1_2 * f8 + f2_2 * f7 + f3_2 * f6 + f4 * f5_2 && -C62 < t9 < C62
  {
    t0 := Sum6(f0, f0, f1_2, f9_38, f2_2, f8_19, f3_2, f7_38, f4_2, f6_19, f5, f5_38);
    t1 := Sum5(f0_2, f1, f2, f9_38, f3_2, f8_19, f4, f7_38, f5_2, f6_19);
    t2 := Sum6(f0_2, f2, f1_2, f1, f3_2, f9_38, f4_2, f8_19, f5_2, f7_38, f6, f6_19);
    t3 := Sum5(f0_2, f3, f1_2, f2, f4, f9_38, f5_2, f8_19, f6, f7_38);
    t4 := Sum6(f0_2, f4, f1_2, f3_2, f2, f2, f5_2, f9_38, f6_2, f8_19, f7, f7_38);
    t5 := Sum5(f0_2, f5, f1_2, f4, f2_2, f3, f6, f9_38, f7_2, f8_19);
    t6 := Sum6(f0_2, f6, f1_2, f5_2, f2_2, f4, f3_2, f3, f7_2, f9_38, f8, f8_19);
    t7 := Sum5(f0_2, f7, f1_2, f6, f2_2, f5, f3_2, f4, f8, f9_38);
    t8 := Sum6(f0_2, f8, f1_2, f7_2, f2_2, f6, f3_2, f5_2, f4, f4, f9, f9_38);
    t9 := Sum5(f0_2, f9, f1_2, f8, f2_2, f7, f3_2, f6, f4, f5_2);
  }

  lemma LooseLimb(f: seq<int>, i: nat)
    requires Loose(f) && i < 10
    ensures Bounded(f[i], XMAX) && Bounded(f[i] * 2, 2 * XMAX)
    ensures i >= 5 ==> Bounded(f[i] * (if i % 2 == 1 then 38 else 19), YMAX)
  {}

  /** The doubled and 19- or 38-fold limbs, then the column sums. */
  method Squares(f: seq<i32>) returns (t: seq<i64>)
    requires Loose(f)
    ensures |t| == 10 && forall k :: 0 <= k < 10 ==> t[k] == Column(f, f, k, 10) && -C62 < t[k] < C62
  {
    LooseLimb(f, 0);
    LooseLimb(f, 1);
    LooseLimb(f, 2);
    LooseLimb(f, 3);
    LooseLimb(f, 4);
    LooseLimb(f, 5);
    LooseLimb(f, 6);
    LooseLimb(f, 7);
    LooseLimb(f, 8);
    LooseLimb(f, 9);
    var f0: int, f1: int, f2: int, f3: int, f4: int := f[0], f[1], f[2], f[3], f[4];
    var f5: int, f6: int, f7: int, f8: int, f9: int := f[5], f[6], f[7], f[8], f[9];
    var f0_2: i32, f1_2: i32, f2_2: i32, f3_2: i32 := f0 * 2, f1 * 2, f2 * 2, f3 * 2;
    var f4_2: i32, f5_2: i32, f6_2: i32, f7_2: i32 := f4 * 2, f5 * 2, f6 * 2, f7 * 2;
    var f5_38: i32, f6_19: i32, f7_38: i32, f8_19: i32, f9_38: i32 := f5 * 38, f6 * 19, f7 * 38, f8 * 19, f9 * 38;
    var t0, t1, t2, t3, t4, t5, t6, t7, t8, t9 :=
      SquareColumns(f0, f1, f2, f3, f4, f5, f6, f7, f8, f9, f0_2, f1_2, f2_2, f3_2, f4_2, f5_2, f6_2, f7_2, f5_38, f6_19, f7_38, f8_19, f9_38);
    Square0(f, t0);
    Square1(f, t1);
    Square2(f, t2);
    Square3(f, t3);
    Square4(f, t4);
    Square5(f, t5);
    Square6(f, t6);
    Square7(f, t7);
    Square8(f, t8);
    Square9(f, t9);
    t := [t0, t1, t2, t3, t4, t5, t6, t7, t8, t9];
  }

  /** fe_sq: fewer products than fe_mul, the same columns. */
  method FeSq(f: seq<i32>) returns (h: seq<i32>)
    requires Loose(f)
    ensures |h| == 10 && Tight(h)
    ensures Value(h) % P == Value(f) * Value(f) % P
  {
    var t := Squares(f);
    ColumnsValue(f, f, t);
    h := Carry(t);
  }
}
