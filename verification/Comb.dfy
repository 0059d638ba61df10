/** Base-point multiplication with twin 4-tooth signed combs (ge_scalarmult_base): the scalar is
    recoded so that every bit stands for +1 or -1, and 32 rounds visit all 256 of them. */
module Comb {
  import opened Words
  import opened ScalarL
  import opened Bits
  import opened Bitwise
  import opened Groups

  const POW256: nat := W8
  const P32: nat := 0x1_00000000
  const P64: nat := 0x1_00000000_00000000
  const P96: nat := 0x1_00000000_00000000_00000000
  const P128: nat := 0x1_00000000_00000000_00000000_00000000

  const LO_HALF: seq<u8> := [247, 233, 122, 46, 141, 49, 9, 44, 107, 206, 123, 81, 239, 124, 111, 10]
  const HI_HALF: seq<u8> := [0, 0, 0, 0, 0, 0, 0, 0, 0, 0, 0, 0, 0, 0, 0, 8]
  const LO_ONES: seq<u8> := [142, 74, 204, 70, 186, 24, 118, 107, 184, 231, 190, 57, 250, 173, 119, 99]
  const HI_ONES: seq<u8> := [255, 255, 255, 255, 255, 255, 255, 255, 255, 255, 255, 255, 255, 255, 255, 7]
  /** 1/2 modulo L */
  const HALF_MOD_L: seq<u8> := LO_HALF + HI_HALF
  /** (2^256 - 1)/2 modulo L */
  const HALF_ONES: seq<u8> := LO_ONES + HI_ONES
  const HALF: nat := 0x80000000000000000000000000000000a6f7cef517bce6b2c09318d2e7ae9f7
  const ONES: nat := 0x7ffffffffffffffffffffffffffffff6377adfa39bee7b86b7618ba46cc4a8e

  /** Digit of bit k in all-bits-set form. */
  function Sign(s: seq<u8>, k: nat): int
    requires k < 8 * |s|
  {
    2 * ScalarBit(s, k) - 1
  }

  /** The number the four teeth at offset i stand for. */
  function Teeth(s: seq<u8>, i: nat): int
    requires i + 96 < 8 * |s|
  {
    Sign(s, i) + Sign(s, i + 32) * P32 + Sign(s, i + 64) * P64 + Sign(s, i + 96) * P96
  }

  /** Meaning of comb entry j: the top tooth is +1, bit t of j gives the sign of tooth t. */
  function Weight(j: nat): int
    requires j < 8
  {
    (2 * (j % 2) - 1) + (2 * (j / 2 % 2) - 1) * P32 + (2 * (j / 4) - 1) * P64 + P96
  }

  /** What a comb table holds: multiples of the base point, with phi(n) = [n]B. */
  ghost predicate CombTable<P(!new)>(comb: seq<P>, phi: int -> P, scale: nat)
  {
    |comb| == 8 && forall j :: 0 <= j < 8 ==> comb[j] == phi(scale * Weight(j))
  }

  lemma LowBits(b0: nat, b1: nat, b2: nat)
    requires b0 <= 1 && b1 <= 1 && b2 <= 1
    ensures var j := b0 + 2 * b1 + 4 * b2; j % 2 == b0 && j / 2 % 2 == b1 && j / 4 == b2
  {}

  /** The table entry, or its negation, for every pattern of four bits. */
  lemma SignedEntry(s: seq<u8>, i: nat, low: nat)
    requires i + 96 < 8 * |s|
    requires low == ScalarBit(s, i) + 2 * ScalarBit(s, i + 32) + 4 * ScalarBit(s, i + 64)
    ensures Teeth(s, i) == if ScalarBit(s, i + 96) == 1 then Weight(low) else -Weight(7 - low)
  {
    var b0, b1, b2 := ScalarBit(s, i), ScalarBit(s, i + 32), ScalarBit(s, i + 64);
    LowBits(b0, b1, b2);
    LowBits(1 - b0, 1 - b1, 1 - b2);
  }

  /** The scan over all eight entries that copies the wanted one. */
  method Select<P>(start: P, comb: seq<P>, index: nat) returns (entry: P)
    requires |comb| == 8 && index < 8
    ensures entry == comb[index]
  {
    entry := start;
    for j := 0 to 8
      invariant j > index ==> entry == comb[index]
    {
      var select := SelectMask(j, index);
      if select == 1 {
        entry := comb[j];
      }
    }
  }

  /** 1 & (((j ^ index) - 1) >> 8): the subtraction is negative only when the two are equal. */
  function SelectMask(j: nat, index: nat): (select: nat)
    requires j < 8 && index < 8
    ensures select == if j == index then 1 else 0
  {
    Powers2();
    XorEqual(j, index, 3);
    AndOne(W - 1);
    AndOne(0);
    And(1, ((Xor(j, index) - 1) / 0x100) % W)
  }

  lemma {:induction false} IndexKept(teeth: nat)
    requires 8 <= teeth < 16
    ensures And(Xor(teeth, 0), 7) == teeth - 8
  {
    XorZeroRight(teeth);
    AndSeven(teeth);
  }

  lemma AndSeven(x: nat)
    ensures And(x, 7) == x % 8
  {
    Powers2();
    AndMask(x, 3);
  }

  lemma IndexComplemented(teeth: nat)
    requires teeth < 8
    ensures And(Xor(teeth, W - 1), 7) == 7 - teeth
  {
    Powers2();
    XorOnes(teeth, 32);
    AndSeven(W - 1 - teeth);
    DivModUnique(W - 1 - teeth, W / 8 - 1, 7 - teeth, 8);
  }

  /** (teeth ^ (high - 1)) & 7 keeps or complements the low three bits. */
  function TableIndex(low: nat, high: nat): (index: nat)
    requires low < 8 && high <= 1
    ensures index == if high == 1 then low else 7 - low
  {
    var teeth := low + 8 * high;
    assert (high - 1) % W == (if high == 1 then 0 else W - 1) && (high == 0 ==> teeth < 8);
    if high == 1 then IndexKept(teeth); And(Xor(teeth, (high - 1) % W), 7)
    else IndexComplemented(teeth); And(Xor(teeth, (high - 1) % W), 7)
  }

  lemma SubMultiple<P(!new)>(g: Group<P>, phi: int -> P, p: P, scale: int, w: int)
    requires Additive(g, phi)
    ensures g.Sub(p, phi(scale * w)) == g.add(p, phi(scale * (-w)))
  {
    assert scale * (-w) == -(scale * w);
    assert AskZ(scale * w, 0);
  }

  /** lookup_add: entry 7 - j negated stands for the teeth whose top bit is clear. */
  method LookupAdd<P(!new)>(g: Group<P>, p: P, comb: seq<P>, s: seq<u8>, i: nat, ghost phi: int -> P, ghost scale: nat) returns (r: P)
    requires Additive(g, phi) && CombTable(comb, phi, scale) && i + 96 < 8 * |s|
    ensures r == g.add(p, phi(scale * Teeth(s, i)))
  {
    var low := ScalarBit(s, i) + 2 * ScalarBit(s, i + 32) + 4 * ScalarBit(s, i + 64);
    var high := ScalarBit(s, i + 96);
    var index := TableIndex(low, high);
    var entry := Select(g.zero, comb, index);
    SignedEntry(s, i, low);
    ghost var w := Weight(index);
    assert entry == phi(scale * w);
    if high == 1 {
      r := g.add(p, entry);
    } else {
      r := g.Sub(p, entry);
      SubMultiple(g, phi, p, scale, w);
    }
  }

  /** What one round adds: the bits at offset i of the first c of eight 32-bit columns. */
  ghost function RoundSum(s: seq<u8>, i: nat, c: nat): int
    requires |s| == 32 && i < 32 && c <= 8
    decreases c, s
  {
    if c == 0 then 0 else RoundSum(s, i, c - 1) + Sign(s, i + 32 * (c - 1)) * Pow(P32, c - 1)
  }

  /** What the rounds from offset 31 down to i add up to, in units of 2^i. */
  ghost function Ladder(s: seq<u8>, i: nat): int
    requires |s| == 32 && i <= 32
    decreases 32 - i
  {
    if i == 32 then 0 else 2 * Ladder(s, i + 1) + RoundSum(s, i, 8)
  }

  /** Four more columns of a round, from column c on. */
  lemma {:induction false} FourColumns(s: seq<u8>, i: nat, c: nat, j: nat, p: nat)
    requires |s| == 32 && i < 32 && c <= 4 && j == i + 32 * c && p == Pow(P32, c)
    ensures RoundSum(s, i, c + 4) == RoundSum(s, i, c) + p * Teeth(s, j)
  {
    var s0, s1, s2, s3 := Sign(s, j), Sign(s, j + 32), Sign(s, j + 64), Sign(s, j + 96);
    assert RoundSum(s, i, c + 1) == RoundSum(s, i, c) + s0 * Pow(P32, c);
    assert RoundSum(s, i, c + 2) == RoundSum(s, i, c + 1) + s1 * Pow(P32, c + 1);
    assert RoundSum(s, i, c + 3) == RoundSum(s, i, c + 2) + s2 * Pow(P32, c + 2);
    assert RoundSum(s, i, c + 4) == RoundSum(s, i, c + 3) + s3 * Pow(P32, c + 3);
    assert Pow(P32, c + 1) == P32 * p && Pow(P32, c + 2) == P64 * p && Pow(P32, c + 3) == P96 * p;
    FourTerms(p, s0, s1, s2, s3);
  }

  lemma FourTerms(p: int, s0: int, s1: int, s2: int, s3: int)
    ensures s0 * p + s1 * (P32 * p) + s2 * (P64 * p) + s3 * (P96 * p) == p * (s0 + s1 * P32 + s2 * P64 + s3 * P96)
  {}

  /** The low and high comb together add one full round. */
  lemma {:induction false} RoundTeeth(s: seq<u8>, i: nat)
    requires |s| == 32 && i < 32
    ensures RoundSum(s, i, 8) == Teeth(s, i) + P128 * Teeth(s, i + 128)
  {
    PowNumerals();
    FourColumns(s, i, 0, i, 1);
    FourColumns(s, i, 4, i + 128, P128);
  }

  // ---- eight columns of 32 bits ----

  /** Column c with its bits from position i upwards: sum of (+-1) * 2^(k-i). */
  ghost function Col(n: nat, c: nat, i: nat): int
    requires i <= 32
  {
    PowPos(2, 32 - i);
    2 * (Shr(n, 32 * c + i) % Pow(2, 32 - i)) - (Pow(2, 32 - i) - 1)
  }

  lemma ColStep(n: nat, c: nat, i: nat)
    requires i < 32
    ensures Col(n, c, i) == 2 * Col(n, c, i + 1) + 2 * Bit(n, 32 * c + i) - 1
  {
    var m := Shr(n, 32 * c + i);
    var p := Pow(2, 31 - i);
    PowPos(2, 31 - i);
    assert Pow(2, 32 - i) == 2 * p;
    ShrSplit(n, 32 * c + i);
    HalfMod(m, p);
  }

  /** Four columns, from column c on, with their weights. */
  ghost function HalfTotal(n: nat, c: nat, i: nat): int
    requires i <= 32
  {
    Col(n, c, i) + Col(n, c + 1, i) * P32 + Col(n, c + 2, i) * P64 + Col(n, c + 3, i) * P96
  }

  ghost function Total(n: nat, i: nat): int
    requires i <= 32
  {
    HalfTotal(n, 0, i) + HalfTotal(n, 4, i) * P128
  }

  lemma TotalStart(n: nat)
    ensures Total(n, 32) == 0
  {
    assert Pow(2, 0) == 1;
  }

  lemma {:induction false} ColumnStep(s: seq<u8>, n: nat, c: nat, i: nat, j: nat)
    requires |s| == 32 && n == LeBytes(s) && c < 8 && i < 32 && j == 32 * c + i
    ensures Col(n, c, i) == 2 * Col(n, c, i + 1) + Sign(s, j)
  {
    ColStep(n, c, i);
    ScalarBitValue(s, j);
  }

  lemma WeightedStep(a0: int, a1: int, a2: int, a3: int, b0: int, b1: int, b2: int, b3: int, s0: int, s1: int, s2: int, s3: int)
    requires a0 == 2 * b0 + s0 && a1 == 2 * b1 + s1 && a2 == 2 * b2 + s2 && a3 == 2 * b3 + s3
    ensures a0 + a1 * P32 + a2 * P64 + a3 * P96 == 2 * (b0 + b1 * P32 + b2 * P64 + b3 * P96) + (s0 + s1 * P32 + s2 * P64 + s3 * P96)
  {}

  lemma {:induction false} HalfStep(s: seq<u8>, n: nat, c: nat, i: nat, j: nat)
    requires |s| == 32 && n == LeBytes(s) && c <= 4 && i < 32 && j == 32 * c + i
    ensures HalfTotal(n, c, i) == 2 * HalfTotal(n, c, i + 1) + Teeth(s, j)
  {
    ColumnStep(s, n, c, i, j);
    ColumnStep(s, n, c + 1, i, j + 32);
    ColumnStep(s, n, c + 2, i, j + 64);
    ColumnStep(s, n, c + 3, i, j + 96);
    WeightedStep(Col(n, c, i), Col(n, c + 1, i), Col(n, c + 2, i), Col(n, c + 3, i),
                 Col(n, c, i + 1), Col(n, c + 1, i + 1), Col(n, c + 2, i + 1), Col(n, c + 3, i + 1),
                 Sign(s, j), Sign(s, j + 32), Sign(s, j + 64), Sign(s, j + 96));
  }

  lemma {:induction false} TotalStep(s: seq<u8>, i: nat)
    requires |s| == 32 && i < 32
    ensures Total(LeBytes(s), i) == 2 * Total(LeBytes(s), i + 1) + Teeth(s, i) + P128 * Teeth(s, i + 128)
  {
    HalfStep(s, LeBytes(s), 0, i, i);
    HalfStep(s, LeBytes(s), 4, i, i + 128);
  }

  /** The ladder keeps eight columns of 32 bits, each in all-bits-set form. */
  lemma {:induction false} LadderColumns(s: seq<u8>, i: nat)
    requires |s| == 32 && i <= 32
    ensures Ladder(s, i) == Total(LeBytes(s), i)
    decreases 32 - i
  {
    if i == 32 {
      TotalStart(LeBytes(s));
    } else {
      LadderColumns(s, i + 1);
      RoundTeeth(s, i);
      TotalStep(s, i);
    }
  }

  lemma {:induction false} HalfEnd(n: nat, c: nat)
    ensures HalfTotal(n, c, 0) == 2 * (Shr(n, 32 * c) - Shr(n, 32 * c + 128) * P128) - (P128 - 1)
  {
    var k := 32 * c;
    Limb(n, c, k);
    Limb(n, c + 1, k + 32);
    Limb(n, c + 2, k + 64);
    Limb(n, c + 3, k + 96);
    FourLimbs(Shr(n, k), Shr(n, k + 32), Shr(n, k + 64), Shr(n, k + 96), Shr(n, k + 128),
              Low32(n, k), Low32(n, k + 32), Low32(n, k + 64), Low32(n, k + 96));
  }

  function Low32(n: nat, k: nat): nat { Shr(n, k) % P32 }

  lemma FourLimbs(x0: int, x1: int, x2: int, x3: int, x4: int, a0: int, a1: int, a2: int, a3: int)
    requires x0 == x1 * P32 + a0 && x1 == x2 * P32 + a1 && x2 == x3 * P32 + a2 && x3 == x4 * P32 + a3
    ensures (2 * a0 - (W - 1)) + (2 * a1 - (W - 1)) * P32 + (2 * a2 - (W - 1)) * P64 + (2 * a3 - (W - 1)) * P96
            == 2 * (x0 - x4 * P128) - (P128 - 1)
  {}

  lemma {:induction false} TotalEnd(n: nat)
    requires n < POW256
    ensures Total(n, 0) == 2 * n - (POW256 - 1)
  {
    HalfEnd(n, 0);
    HalfEnd(n, 4);
    assert Shr(n, 256) == 0 by { PowBytes(); ShrZero(n, 256); }
    assert Shr(n, 0) == n by { assert Pow(2, 0) == 1; }
  }

  lemma {:induction false} PowBytes()
    ensures Pow(2, 32) == W && Pow(2, 256) == POW256
  {
    PowEight(4);
    PowEight(32);
    PowFour(1);
    PowFour(8);
    PowNumerals();
  }

  lemma {:induction false} Limb(n: nat, c: nat, k: nat)
    requires k == 32 * c
    ensures Shr(n, k) == Shr(n, k + 32) * P32 + Low32(n, k)
    ensures Col(n, c, 0) == 2 * Low32(n, k) - (W - 1)
  {
    PowBytes();
    PowPos(2, k);
    PowAdd(2, k, 32);
    DivDiv(n, Pow(2, k), W);
  }

  // ---- the recoded scalar ----

  lemma {:induction false} SixteenBytes(b: seq<u8>)
    requires |b| == 16
    ensures LeBytes(b) == Load32(b[..4]) + Load32(b[4..8]) * P32 + Load32(b[8..12]) * P64 + Load32(b[12..]) * P96
  {
    var w := [Load32(b[..4]), Load32(b[4..8]), Load32(b[8..12]), Load32(b[12..])];
    assert [] + [w[0]] == w[..1] && w[..1] + [w[1]] == w[..2] && w[..2] + [w[2]] == w[..3] && w[..3] + [w[3]] == w;
    assert [] + b[..4] == b[..4] && b[..4] + b[4..8] == b[..8] && b[..8] + b[8..12] == b[..12] && b[..12] + b[12..] == b;
    LimbOfBytes([], [], b[..4]);
    LimbOfBytes(w[..1], b[..4], b[4..8]);
    LimbOfBytes(w[..2], b[..8], b[8..12]);
    LimbOfBytes(w[..3], b[..12], b[12..]);
    V4(w);
  }

  lemma {:induction false} ThirtyTwoBytes(lo: seq<u8>, hi: seq<u8>)
    requires |lo| == 16
    ensures LeBytes(lo + hi) == LeBytes(lo) + P128 * LeBytes(hi)
  {
    ValConcat(0x100, lo, hi);
    PowFour(4);
    PowNumerals();
  }

  lemma HalfValue()
    ensures LeBytes(HALF_MOD_L) == HALF
  {
    SixteenBytes(LO_HALF);
    SixteenBytes(HI_HALF);
    ThirtyTwoBytes(LO_HALF, HI_HALF);
  }

  lemma OnesValue()
    ensures LeBytes(HALF_ONES) == ONES
  {
    SixteenBytes(LO_ONES);
    SixteenBytes(HI_ONES);
    ThirtyTwoBytes(LO_ONES, HI_ONES);
  }

  /** 2s - (2^256 - 1) is the scalar modulo L. */
  lemma {:induction false} Recoded(a: nat, s: nat) returns (k: int)
    requires s == (a * HALF + ONES) % L
    ensures 2 * s - (POW256 - 1) == a + k * L
  {
    var q := (a * HALF + ONES) / L;
    assert s == a * HALF + ONES - q * L;
    assert 2 * HALF == 1 + L;
    assert 2 * ONES == POW256 - 1 - 15 * L;
    k := a - 15 - 2 * q;
    assert 2 * (a * HALF) == a * (1 + L) == a + a * L;
  }

  /** All 256 digits together: 2n - (2^256 - 1). */
  lemma {:induction false} LadderEnd(s: seq<u8>)
    requires |s| == 32 && LeBytes(s) < POW256
    ensures Ladder(s, 0) == 2 * LeBytes(s) - (POW256 - 1)
  {
    LadderColumns(s, 0);
    TotalEnd(LeBytes(s));
  }

  /** The 256 signed digits of the recoded scalar stand for the scalar modulo L. */
  lemma {:induction false} LadderScalar(a: nat, s: seq<u8>) returns (k: int)
    requires |s| == 32 && LeBytes(s) == (a * HALF + ONES) % L
    ensures Ladder(s, 0) == a + k * L
  {
    k := Recoded(a, LeBytes(s));
    LadderEnd(s);
  }

  /** Both combs at offset i, on top of twice what the offsets above gave. */
  method CombRound<P(!new)>(g: Group<P>, combLow: seq<P>, combHigh: seq<P>, s: seq<u8>, i: nat, p: P, ghost phi: int -> P)
    returns (r: P)
    requires Additive(g, phi) && |s| == 32 && i < 32
    requires CombTable(combLow, phi, 1) && CombTable(combHigh, phi, P128)
    requires p == phi(2 * Ladder(s, i + 1))
    ensures r == phi(Ladder(s, i))
  {
    r := LookupAdd(g, p, combLow, s, i, phi, 1);
    r := LookupAdd(g, r, combHigh, s, i + 128, phi, P128);
    CombSum(g, phi, 2 * Ladder(s, i + 1), s, i);
  }

  lemma {:induction false} CombSum<P(!new)>(g: Group<P>, phi: int -> P, t: int, s: seq<u8>, i: nat)
    requires Additive(g, phi) && |s| == 32 && i < 32
    ensures g.add(g.add(phi(t), phi(1 * Teeth(s, i))), phi(P128 * Teeth(s, i + 128))) == phi(t + RoundSum(s, i, 8))
  {
    RoundTeeth(s, i);
    assert AskZ(t, 1 * Teeth(s, i)) && AskZ(t + Teeth(s, i), P128 * Teeth(s, i + 128));
  }

  /** The ladder; the first round skips the doubling, since the sum is still zero. */
  method CombLoop<P(!new)>(g: Group<P>, combLow: seq<P>, combHigh: seq<P>, s: seq<u8>, ghost phi: int -> P) returns (p: P)
    requires Additive(g, phi) && |s| == 32
    requires CombTable(combLow, phi, 1) && CombTable(combHigh, phi, P128)
    ensures p == phi(Ladder(s, 0))
  {
    assert AskZ(0, 0);
    p := CombRound(g, combLow, combHigh, s, 31, g.zero, phi);
    var i := 30;
    while i >= 0
      invariant -1 <= i <= 30 && p == phi(Ladder(s, i + 1))
    {
      p := g.Double(p);
      assert AskZ(Ladder(s, i + 1), Ladder(s, i + 1));
      p := CombRound(g, combLow, combHigh, s, i, p, phi);
      i := i - 1;
    }
  }

  /** ge_scalarmult_base: [scalar]B for every 256-bit scalar, given what the two tables hold. */
  method ScalarMultBase<P(!new)>(g: Group<P>, combLow: seq<P>, combHigh: seq<P>, scalar: seq<u8>, ghost phi: int -> P) returns (p: P)
    requires Additive(g, phi) && Periodic(phi, L) && |scalar| == 32
    requires CombTable(combLow, phi, 1) && CombTable(combHigh, phi, P128)
    ensures p == phi(LeBytes(scalar))
  {
    var s := MulAddL(scalar, HALF_MOD_L, HALF_ONES);
    p := CombLoop(g, combLow, combHigh, s, phi);
    HalfValue();
    OnesValue();
    ghost var k := LadderScalar(LeBytes(scalar), s);
    assert AskZ(LeBytes(scalar), k);
  }
}
