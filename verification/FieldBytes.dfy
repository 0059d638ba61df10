/** Field elements to and from 32 bytes: fe_frombytes and fe_tobytes. */
module FieldBytes {
  import opened Words
  import opened Bitwise
  import opened ScalarL
  import opened FieldSpec
  import opened Field

  // ---- decoding ----

  /** load24_le */
  function Load24(b: seq<u8>): (w: u32)
    requires |b| == 3
    ensures w < 0x100_0000
  {
    var b0: int, b1: int, b2: int := b[0], b[1], b[2];
    b0 + b1 * 0x100 + b2 * 0x1_0000
  }

  lemma {:induction false} ThreeBytes(b: seq<u8>)
    requires |b| == 3
    ensures LeBytes(b) == Load24(b)
  {
    FourBytes(b + [0]);
    ValSnoc(0x100, b, 0);
  }

  /** Cutting n bytes off the front. */
  lemma {:induction false} Cut(s: seq<u8>, n: nat)
    requires n <= |s|
    ensures LeBytes(s) == LeBytes(s[..n]) + Pow(0x100, n) * LeBytes(s[n..])
  {
    assert s == s[..n] + s[n..];
    ValConcat(0x100, s[..n], s[n..]);
  }

  lemma Cut3(s: seq<u8>)
    requires 3 <= |s|
    ensures LeBytes(s) == Load24(s[..3]) + 0x100_0000 * LeBytes(s[3..])
  {
    Cut(s, 3);
    ThreeBytes(s[..3]);
    assert Pow(0x100, 3) == 0x100 * (0x100 * Pow(0x100, 1)) && Pow(0x100, 1) == 0x100 * Pow(0x100, 0);
  }

  lemma Cut4(s: seq<u8>)
    requires 4 <= |s|
    ensures LeBytes(s) == Load32(s[..4]) + 0x1_0000_0000 * LeBytes(s[4..])
  {
    Cut(s, 4);
    FourBytes(s[..4]);
    PowFour(1);
    assert Pow(W, 1) == W * Pow(W, 0);
  }

  lemma {:induction false} ChunksLow(s: seq<u8>)
    requires |s| == 32
    ensures LeBytes(s) == Load32(s[0..4]) + 0x1_0000_0000 * Load24(s[4..7]) + 0x1_0000_0000_0000_00 * Load24(s[7..10])
                          + 0x1_0000_0000_0000_0000_0000 * Load24(s[10..13])
                          + 0x1_0000_0000_0000_0000_0000_0000_00 * Load24(s[13..16])
                          + 0x1_0000_0000_0000_0000_0000_0000_0000_0000 * LeBytes(s[16..])
  {
    Cut4(s);
    Cut3(s[4..]);
    Cut3(s[7..]);
    Cut3(s[10..]);
    Cut3(s[13..]);
    assert s[4..][..3] == s[4..7] && s[4..][3..] == s[7..];
    assert s[7..][..3] == s[7..10] && s[7..][3..] == s[10..];
    assert s[10..][..3] == s[10..13] && s[10..][3..] == s[13..];
    assert s[13..][..3] == s[13..16] && s[13..][3..] == s[16..];
    assert s[..4] == s[0..4];
  }

  lemma {:induction false} ChunksHigh(s: seq<u8>)
    requires |s| == 32
    ensures LeBytes(s[16..]) == Load32(s[16..20]) + 0x1_0000_0000 * Load24(s[20..23]) + 0x1_0000_0000_0000_00 * Load24(s[23..26])
                                + 0x1_0000_0000_0000_0000_0000 * Load24(s[26..29])
                                + 0x1_0000_0000_0000_0000_0000_0000_00 * Load24(s[29..32])
  {
    Cut4(s[16..]);
    Cut3(s[20..]);
    Cut3(s[23..]);
    Cut3(s[26..]);
    ThreeBytes(s[29..32]);
    assert s[16..][..4] == s[16..20] && s[16..][4..] == s[20..];
    assert s[20..][..3] == s[20..23] && s[20..][3..] == s[23..];
    assert s[23..][..3] == s[23..26] && s[23..][3..] == s[26..];
    assert s[26..][..3] == s[26..29] && s[26..][3..] == s[29..] == s[29..32];
  }

  /** fe_frombytes: bit 255 is ignored. */
  method FromBytes(s: seq<u8>) returns (h: seq<i32>)
    requires |s| == 32
    ensures |h| == 10 && Tight(h)
    ensures Value(h) % P == (LeBytes(s) % P255) % P
  {
    var top: u32 := Load24(s[29..32]) % 0x80_0000;
    var t: seq<i64> := [Load32(s[0..4]), Load24(s[4..7]) * 0x40, Load24(s[7..10]) * 0x20, Load24(s[10..13]) * 8, Load24(s[13..16]) * 4,
                        Load32(s[16..20]), Load24(s[20..23]) * 0x80, Load24(s[23..26]) * 0x20, Load24(s[26..29]) * 0x10, top * 4];
    LoadedValue(s, t);
    h := Carry(t);
  }

  lemma {:induction false} LoadedValue(s: seq<u8>, t: seq<int>)
    requires |s| == 32 && |t| == 10
    requires t[0] == Load32(s[0..4]) && t[1] == Load24(s[4..7]) * 0x40 && t[2] == Load24(s[7..10]) * 0x20
    requires t[3] == Load24(s[10..13]) * 8 && t[4] == Load24(s[13..16]) * 4 && t[5] == Load32(s[16..20])
    requires t[6] == Load24(s[20..23]) * 0x80 && t[7] == Load24(s[23..26]) * 0x20 && t[8] == Load24(s[26..29]) * 0x10
    requires t[9] == (Load24(s[29..32]) % 0x80_0000) * 4
    ensures Value(t) == LeBytes(s) % P255
  {
    ChunksLow(s);
    ChunksHigh(s);
    ValueTen(t);
    var x := Load24(s[29..32]);
    assert x == x % 0x80_0000 + 0x80_0000 * (x / 0x80_0000);
    DivModUnique(LeBytes(s), x / 0x80_0000, Value(t), P255);
  }

  // ---- encoding ----

  const C19: int := 19

  /** What the carry chain leaves after n limbs: a floor division of everything below. */
  lemma FloorStep(x: int, a: nat, t: int, b: nat)
    requires a > 0 && b > 0
    ensures b * a > 0 && (x / a + t) / b == (x + t * a) / (b * a)
  {
    var q, r := x / a, x % a;
    var q', r' := (q + t) / b, (q + t) % b;
    assert x == a * q + r && q + t == b * q' + r';
    MulMono(r', b - 1, a);
    MulMono(0, r', a);
    MulMono(1, b, a);
    assert x + t * a == (r + r' * a) + (b * a) * q' by {
      assert a * q + t * a == (q + t) * a;
      assert (b * q' + r') * a == (b * q') * a + r' * a;
      assert (b * q') * a == (b * a) * q';
    }
    DivModUnique(x + t * a, q', r + r' * a, b * a);
  }

  lemma {:induction false} WtPositive(i: nat)
    ensures Wt(i) > 0
  {
    if i > 0 { WtPositive(i - 1); }
  }

  lemma ChainStep(h: seq<int>, q0: int, n: nat, q: int)
    requires n < |h| && Wt(n) > 0 && q == (q0 + ValueN(h, n)) / Wt(n)
    ensures Wt(n + 1) > 0 && (q + h[n]) / (if n % 2 == 0 then C26 else C25) == (q0 + ValueN(h, n + 1)) / Wt(n + 1)
  {
    WtPositive(n + 1);
    FloorStep(q0 + ValueN(h, n), Wt(n), h[n], if n % 2 == 0 then C26 else C25);
  }

  /** The first pass of fe_tobytes finds the sign: 0 when h >= 0, -1 when h < 0. */
  method SignPass(h: seq<i32>) returns (q: i32)
    requires |h| == 10 && Tight(h)
    ensures q == if Value(h) >= 0 then 0 else -1
  {
    var t9: int := h[9];
    var scaled: i32 := C19 * t9;
    var rounded: i32 := scaled + C24;
    q := rounded / C25;
    ghost var q0 := q;
    for i := 0 to 5
      invariant Wt(2 * i) > 0 && q == (q0 + ValueN(h, 2 * i)) / Wt(2 * i) && -16 <= q <= 16
    {
      q := SignPair(h, i, q, q0);
    }
    SignOf(h, q0, q);
  }

  method SignPair(h: seq<i32>, i: nat, q: i32, ghost q0: int) returns (q': i32)
    requires |h| == 10 && Tight(h) && i < 5 && -16 <= q <= 16
    requires Wt(2 * i) > 0 && q == (q0 + ValueN(h, 2 * i)) / Wt(2 * i)
    ensures Wt(2 * i + 2) > 0 && q' == (q0 + ValueN(h, 2 * i + 2)) / Wt(2 * i + 2) && -16 <= q' <= 16
  {
    q' := SignLimb(h, 2 * i, q, C26, q0);
    q' := SignLimb(h, 2 * i + 1, q', C25, q0);
  }

  method SignLimb(h: seq<i32>, n: nat, q: i32, unit: int, ghost q0: int) returns (q': i32)
    requires |h| == 10 && Tight(h) && n < 10 && -16 <= q <= 16 && unit == if n % 2 == 0 then C26 else C25
    requires Wt(n) > 0 && q == (q0 + ValueN(h, n)) / Wt(n)
    ensures Wt(n + 1) > 0 && q' == (q0 + ValueN(h, n + 1)) / Wt(n + 1) && -16 <= q' <= 16
  {
    ChainStep(h, q0, n, q);
    var sum: i32 := q + h[n];
    q' := sum / unit;
  }

  lemma SignOf(h: seq<int>, q0: int, q: int)
    requires |h| == 10 && Tight(h) && q0 == (19 * h[9] + C24) / C25
    requires Wt(10) > 0 && q == (q0 + Value(h)) / Wt(10)
    ensures q == if Value(h) >= 0 then 0 else -1
  {
    WeightNumerals();
    assert Wt(10) == P255;
    ValueTen(h);
    var v := Value(h);
    assert h[9] >= 1 ==> v > 0;
    assert h[9] <= -1 ==> v < 0;
    assert -16 <= q0 <= 16;
    if v >= 0 {
      DivModUnique(q0 + v, 0, q0 + v, P255);
    } else {
      DivModUnique(q0 + v, -1, q0 + v + P255, P255);
    }
  }

  /** Every limb in its own range, no sign left. */
  predicate Reduced(t: seq<int>, n: nat)
  {
    n <= |t| && forall i :: 0 <= i < n ==> 0 <= t[i] < (if i % 2 == 0 then C26 else C25)
  }

  lemma {:induction false} ReducedRange(t: seq<int>, n: nat)
    requires Reduced(t, n)
    ensures 0 <= ValueN(t, n) < Wt(n)
  {
    if n > 0 {
      ReducedRange(t, n - 1);
      var w := Wt(n - 1);
      MulMono(0, t[n - 1], w);
      MulMono(t[n - 1], (if n % 2 == 1 then C26 else C25) - 1, w);
    }
  }

  lemma {:induction false} SameValue(s: seq<int>, t: seq<int>, n: nat)
    requires n <= |s| && n <= |t| && s[..n] == t[..n]
    ensures ValueN(s, n) == ValueN(t, n)
  {
    if n > 0 {
      assert s[..n - 1] == s[..n][..n - 1] && t[..n - 1] == t[..n][..n - 1];
      assert s[n - 1] == s[..n][n - 1];
      SameValue(s, t, n - 1);
    }
  }

  /** Second pass: ripple the carry through limb n. */
  method RippleLimb(t: array<i32>, n: nat, q: i32, unit: int, ghost h: seq<int>, ghost x: int) returns (q': i32)
    requires t.Length == 10 && n < 10 && |h| == 10 && -400 <= q <= 400
    requires unit == if n % 2 == 0 then C26 else C25
    requires Tight(h) && (forall k :: n <= k < 10 ==> t[k] == h[k]) && Reduced(t[..], n)
    requires ValueN(t[..], n) + q * Wt(n) == ValueN(h, n) + x
    modifies t
    ensures (forall k :: n + 1 <= k < 10 ==> t[k] == h[k]) && Reduced(t[..], n + 1) && -400 <= q' <= 400
    ensures ValueN(t[..], n + 1) + q' * Wt(n + 1) == ValueN(h, n + 1) + x
  {
    ghost var t1 := t[..];
    var u: i32 := t[n] + q;
    UnitSplit(u, unit);
    q' := u / unit;
    t[n] := u - q' * unit;
    ghost var t2 := t[..];
    RippleValue(t1, t2, h, n, q, q', unit, x);
  }

  lemma {:induction false} RippleValue(t1: seq<int>, t2: seq<int>, h: seq<int>, n: nat, q: int, q': int, unit: int, x: int)
    requires n < 10 && |t1| == |t2| == |h| == 10 && unit == if n % 2 == 0 then C26 else C25
    requires t2[n] == h[n] + q - q' * unit && forall k :: 0 <= k < n ==> t2[k] == t1[k]
    requires ValueN(t1, n) + q * Wt(n) == ValueN(h, n) + x
    ensures ValueN(t2, n + 1) + q' * Wt(n + 1) == ValueN(h, n + 1) + x
  {
    SameValue(t1, t2, n);
    RippleArith(ValueN(t1, n), q, Wt(n), h[n], t2[n], q', unit);
    assert ValueN(t2, n + 1) == ValueN(t2, n) + t2[n] * Wt(n) && ValueN(h, n + 1) == ValueN(h, n) + h[n] * Wt(n);
  }

  lemma UnitSplit(u: int, unit: int)
    requires (unit == C26 || unit == C25) && -C26 <= u <= C26
    ensures 0 <= u - (u / unit) * unit < unit && -2 <= u / unit <= 2
  {
    if unit == C26 {
      assert u == C26 * (u / C26) + u % C26;
    } else {
      assert u == C25 * (u / C25) + u % C25;
    }
  }

  lemma RippleArith(v: int, q: int, w: int, hn: int, tn: int, q': int, unit: int)
    requires hn + q == tn + q' * unit
    ensures v + tn * w + q' * (unit * w) == v + q * w + hn * w
  {
    assert (hn + q) * w == tn * w + (q' * unit) * w;
    MulAssoc(q', unit, w);
  }

  /** fe_tobytes: the unique representative below P. */
  method RipplePair(t: array<i32>, i: nat, q: i32, ghost h: seq<int>, ghost x: int) returns (q': i32)
    requires t.Length == 10 && i < 5 && |h| == 10 && -400 <= q <= 400
    requires Tight(h) && (forall k :: 2 * i <= k < 10 ==> t[k] == h[k]) && Reduced(t[..], 2 * i)
    requires ValueN(t[..], 2 * i) + q * Wt(2 * i) == ValueN(h, 2 * i) + x
    modifies t
    ensures (forall k :: 2 * i + 2 <= k < 10 ==> t[k] == h[k]) && Reduced(t[..], 2 * i + 2) && -400 <= q' <= 400
    ensures ValueN(t[..], 2 * i + 2) + q' * Wt(2 * i + 2) == ValueN(h, 2 * i + 2) + x
  {
    q' := RippleLimb(t, 2 * i, q, C26, h, x);
    q' := RippleLimb(t, 2 * i + 1, q', C25, h, x);
  }

  method ToBytes(h: seq<i32>) returns (s: seq<u8>)
    requires |h| == 10 && Tight(h)
    ensures |s| == 32 && LeBytes(s) == Value(h) % P
  {
    var t := new i32[10](i requires 0 <= i < 10 && |h| == 10 => h[i]);
    var q := SignPass(h);
    ghost var neg := q;
    q := q * 19;
    for i := 0 to 5
      invariant (forall k :: 2 * i <= k < 10 ==> t[k] == h[k]) && Reduced(t[..], 2 * i) && -400 <= q <= 400
      invariant ValueN(t[..], 2 * i) + q * Wt(2 * i) == ValueN(h, 2 * i) + 19 * neg
    {
      q := RipplePair(t, i, q, h, 19 * neg);
    }
    Representative(h, t[..], neg, q);
    var w := PackWords(t[..]);
    s := Store32Buf(w);
  }

  lemma {:induction false} Representative(h: seq<int>, t: seq<int>, neg: int, q: int)
    requires |h| == 10 && |t| == 10 && Tight(h) && Reduced(t, 10)
    requires neg == if Value(h) >= 0 then 0 else -1
    requires ValueN(t, 10) + q * Wt(10) == ValueN(h, 10) + 19 * neg
    ensures Value(t) == Value(h) % P
  {
    ReducedRange(t, 10);
    assert Wt(10) == P255 by { WeightNumerals(); }
    TightRange(h);
    Wrapped(Value(h), Value(t), neg, q);
  }

  lemma {:induction false} TightRange(h: seq<int>)
    requires |h| == 10 && Tight(h)
    ensures 19 - P < Value(h) < P
  {
    ValueTen(h);
  }

  lemma {:induction false} Wrapped(v: int, w: int, neg: int, q: int)
    requires 19 - P < v < P && 0 <= w < P255 && w + q * P255 == v + 19 * neg
    requires neg == if v >= 0 then 0 else -1
    ensures w == v % P
  {
    assert q == neg;
    ModUnique(v, w, -neg, P);
  }

  lemma {:induction false} LeftShift(x: nat, unit: nat, m: nat)
    requires unit > 0 && m > 0 && unit * m == W
    ensures x * unit % W == (x % m) * unit && 0 <= (x % m) * unit <= W - unit
    ensures (x % m) * unit % unit == 0
  {
    var q, r := x / m, x % m;
    assert x == m * q + r;
    MulMono(r, m - 1, unit);
    MulMono(0, r, unit);
    assert x * unit == r * unit + W * q by { assert (m * q) * unit == (unit * m) * q; }
    DivModUnique(x * unit, q, r * unit, W);
    DivModUnique(r * unit, r, 0, unit);
  }

  /** lo | (x << k) in 32 bits: the set bits do not overlap. */
  function Word(lo: int, x: nat, k: nat, unit: nat, m: nat): (w: u32)
    requires unit == Pow(2, k) && 0 <= lo < unit && m > 0 && unit * m == W
    ensures w == lo + (x % m) * unit
  {
    LeftShift(x, unit, m);
    OrDisjoint(lo, x % m, k);
    Or(lo, x * unit % W)
  }

  /** The eight words fe_tobytes stores. */
  method PackWords(t: seq<int>) returns (w: seq<u32>)
    requires |t| == 10 && Reduced(t, 10)
    ensures |w| == 8 && V(w) == Value(t)
  {
    Powers2();
    var w0 := Word(t[0], t[1], 26, 0x400_0000, 0x40);
    var w1 := Word(t[1] / 0x40, t[2], 19, 0x8_0000, 0x2000);
    var w2 := Word(t[2] / 0x2000, t[3], 13, 0x2000, 0x8_0000);
    var w3 := Word(t[3] / 0x8_0000, t[4], 6, 0x40, 0x400_0000);
    var w4 := Word(t[5], t[6], 25, 0x200_0000, 0x80);
    var w5 := Word(t[6] / 0x80, t[7], 19, 0x8_0000, 0x2000);
    var w6 := Word(t[7] / 0x2000, t[8], 12, 0x1000, 0x10_0000);
    var w7 := Word(t[8] / 0x10_0000, t[9], 6, 0x40, 0x400_0000);
    w := [w0, w1, w2, w3, w4, w5, w6, w7];
    PackedValue(t, w);
  }

  lemma {:induction false} PackedValue(t: seq<int>, w: seq<u32>)
    requires |t| == 10 && |w| == 8 && Reduced(t, 10)
    requires w[0] == t[0] + (t[1] % 0x40) * 0x400_0000 && w[1] == t[1] / 0x40 + (t[2] % 0x2000) * 0x8_0000
    requires w[2] == t[2] / 0x2000 + (t[3] % 0x8_0000) * 0x2000 && w[3] == t[3] / 0x8_0000 + (t[4] % 0x400_0000) * 0x40
    requires w[4] == t[5] + (t[6] % 0x80) * 0x200_0000 && w[5] == t[6] / 0x80 + (t[7] % 0x2000) * 0x8_0000
    requires w[6] == t[7] / 0x2000 + (t[8] % 0x10_0000) * 0x1000 && w[7] == t[8] / 0x10_0000 + (t[9] % 0x400_0000) * 0x40
    ensures V(w) == Value(t)
  {
    PackedLow(t[0], t[1], t[2], t[3], t[4], w[..4]);
    PackedHigh(t[5], t[6], t[7], t[8], t[9], w[4..]);
    assert w == w[..4] + w[4..];
    ValConcat(W, w[..4], w[4..]);
    PowNumerals();
    ValueTen(t);
  }

  lemma PackedLow(t0: int, t1: int, t2: int, t3: int, t4: int, w: seq<u32>)
    requires |w| == 4 && 0 <= t4 < C26
    requires w[0] == t0 + (t1 % 0x40) * 0x400_0000 && w[1] == t1 / 0x40 + (t2 % 0x2000) * 0x8_0000
    requires w[2] == t2 / 0x2000 + (t3 % 0x8_0000) * 0x2000 && w[3] == t3 / 0x8_0000 + (t4 % 0x400_0000) * 0x40
    ensures V(w) == t0 + t1 * 0x4000000 + t2 * 0x8000000000000 + t3 * 0x20000000000000000000 + t4 * 0x40000000000000000000000000
  {
    V4(w);
  }

  lemma PackedHigh(t5: int, t6: int, t7: int, t8: int, t9: int, w: seq<u32>)
    requires |w| == 4 && 0 <= t9 < C26
    requires w[0] == t5 + (t6 % 0x80) * 0x200_0000 && w[1] == t6 / 0x80 + (t7 % 0x2000) * 0x8_0000
    requires w[2] == t7 / 0x2000 + (t8 % 0x10_0000) * 0x1000 && w[3] == t8 / 0x10_0000 + (t9 % 0x400_0000) * 0x40
    ensures V(w) == t5 + t6 * 0x2000000 + t7 * 0x8000000000000 + t8 * 0x10000000000000000000 + t9 * 0x40000000000000000000000000
  {
    V4(w);
  }

  /** Decoding then encoding 32 bytes reduces them modulo P, the top bit ignored. */
  method Canonical(s: seq<u8>) returns (r: seq<u8>)
    requires |s| == 32
    ensures |r| == 32 && LeBytes(r) == LeBytes(s) % P255 % P
  {
    var h := FromBytes(s);
    r := ToBytes(h);
  }
}
