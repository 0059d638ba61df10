/** Arithmetic modulo L, the order of the Ed25519 base point: the 32-bit limb
    algorithms of monocypher.c, each proved equal to one line of integer arithmetic. */
module ScalarL {
  import opened Words
  import opened Bitwise

  const L: nat := 0x1000000000000000000000000000000014def9dea2f79cd65812631a5cf5d3ed
  const L_LIMBS: seq<u32> := [0x5cf5d3ed, 0x5812631a, 0xa2f79cd6, 0x14def9de, 0, 0, 0, 0x10000000]

  /** floor(2^512 / L), the Barrett constant. */
  const R: nat := 0xfffffffffffffffffffffffffffffffeb2106215d086329a7ed9ce5a30a2c131b
  const R_LIMBS: seq<u32> := [0x0a2c131b, 0xed9ce5a3, 0x086329a7, 0x2106215d,
                              0xffffffeb, 0xffffffff, 0xffffffff, 0xffffffff, 0xf]

  function V(s: seq<u32>): (v: nat)
  {
    Val(W, s)
  }

  // ---- powers of the limb base as numerals ----

  const W8: nat := 0x1_00000000_00000000_00000000_00000000_00000000_00000000_00000000_00000000

  const W16: nat := 0x1_00000000_00000000_00000000_00000000_00000000_00000000_00000000_00000000_00000000_00000000_00000000_00000000_00000000_00000000_00000000_00000000

  lemma {:induction false} PowNumerals()
    ensures Pow(W, 0) == 1 && Pow(W, 1) == W && Pow(W, 2) == W * W && Pow(W, 3) == W * W * W
    ensures Pow(W, 4) == 0x1_00000000_00000000_00000000_00000000
    ensures Pow(W, 8) == W8 && Pow(W, 16) == W16
  {
    assert Pow(W, 1) == W * Pow(W, 0);
    assert Pow(W, 2) == W * Pow(W, 1);
    assert Pow(W, 3) == W * Pow(W, 2);
    assert Pow(W, 4) == W * Pow(W, 3);
    PowAdd(W, 4, 4);
    PowAdd(W, 8, 8);
    assert W8 * W8 == W16;
  }

  lemma {:induction false} V4(s: seq<u32>)
    requires |s| == 4
    ensures V(s) == s[0] + s[1] * W + s[2] * (W * W) + s[3] * (W * W * W)
  {
    PowNumerals();
    ValSnoc(W, [], s[0]);
    ValSnoc(W, [s[0]], s[1]);
    ValSnoc(W, [s[0], s[1]], s[2]);
    ValSnoc(W, [s[0], s[1], s[2]], s[3]);
    assert [] + [s[0]] == [s[0]];
    assert [s[0]] + [s[1]] == [s[0], s[1]];
    assert [s[0], s[1]] + [s[2]] == [s[0], s[1], s[2]];
    assert s == [s[0], s[1], s[2]] + [s[3]];
  }

  lemma {:induction false} ConstantValues()
    ensures V(L_LIMBS) == L && V(R_LIMBS) == R
  {
    PowNumerals();
    V4(L_LIMBS[..4]);
    V4(L_LIMBS[4..]);
    ValConcat(W, L_LIMBS[..4], L_LIMBS[4..]);
    assert L_LIMBS == L_LIMBS[..4] + L_LIMBS[4..];
    V4(R_LIMBS[..4]);
    V4(R_LIMBS[4..8]);
    ValConcat(W, R_LIMBS[..4], R_LIMBS[4..8]);
    assert R_LIMBS[..8] == R_LIMBS[..4] + R_LIMBS[4..8];
    ValSnoc(W, R_LIMBS[..8], 0xf);
    assert R_LIMBS == R_LIMBS[..8] + [0xf];
  }

  // ---- multiplication ----

  lemma RowStep(v: int, c: int, p: int, v0: int, x: int, b: int, pj: int, bj: int, t: int)
    requires v + c * p == v0 + x * b && t == c + pj + x * bj
    ensures (v + (t % W) * p) + (t / W) * (W * p) == (v0 + pj * p) + x * (b + bj * p)
  {
    assert t == t % W + (t / W) * W;
    assert ((t / W) * W) * p == (t / W) * (W * p) by { MulAssoc(t / W, W, p); }
    assert t * p == (t % W) * p + ((t / W) * W) * p;
    assert t * p == c * p + pj * p + (x * bj) * p;
    assert (x * bj) * p == x * (bj * p) by { MulAssoc(x, bj, p); }
  }

  lemma SumFits(c: u32, p: u32, x: u32, b: u32)
    ensures c + p + x * b < W * W && x * b >= 0
  {
    assert x * b <= (W - 1) * (W - 1) by { MulMono(x, W - 1, b); MulMono(b, W - 1, W - 1); }
  }

  lemma {:induction false} SliceSnoc(s: seq<u32>, at: nat, j: nat)
    requires at + j < |s|
    ensures V(s[at..at + j + 1]) == V(s[at..at + j]) + s[at + j] * Pow(W, j)
  {
    assert s[at..at + j + 1] == s[at..at + j] + [s[at + j]];
    ValSnoc(W, s[at..at + j], s[at + j]);
  }

  /** One inner loop of the schoolbook products: p[at..at+n] += x * b[..n]. */
  method AddRow(p: array<u32>, at: nat, x: u32, b: seq<u32>, n: nat) returns (carry: u32)
    requires at + n <= p.Length && n <= |b|
    modifies p
    ensures p[..at] == old(p[..at]) && p[at + n..] == old(p[at + n..])
    ensures V(p[at..at + n]) + carry * Pow(W, n) == V(old(p[at..at + n])) + x * V(b[..n])
  {
    ghost var p0 := p[..];
    var acc: u64 := 0;
    for j := 0 to n
      invariant acc < W
      invariant p[..at] == p0[..at]
      invariant forall k :: at + j <= k < p.Length ==> p[k] == p0[k]
      invariant V(p[at..at + j]) + acc * Pow(W, j) == V(p0[at..at + j]) + x * V(b[..j])
    {
      ghost var p1 := p[..];
      ghost var t := acc + p[at + j] + x * b[j];
      RowStep(V(p1[at..at + j]), acc, Pow(W, j), V(p0[at..at + j]), x, V(b[..j]), p[at + j], b[j], t);
      SumFits(acc, p[at + j], x, b[j]);
      acc := acc + p[at + j] + x * b[j];
      p[at + j] := acc % W;
      acc := acc / W;
      assert p[..][at..at + j] == p1[at..at + j];
      SliceSnoc(p[..], at, j);
      SliceSnoc(p0, at, j);
      SliceSnoc(b, 0, j);
    }
    carry := acc;
  }

  /** p = a*b + p on limbs; the high limbs of p are overwritten, not read.
      The 9 x 16 limb product inside mod_l is the same double loop. */
  method Multiply(p: array<u32>, a: seq<u32>, b: seq<u32>)
    requires p.Length == |a| + |b|
    modifies p
    ensures V(p[..]) == V(a) * V(b) + V(old(p[..|b|]))
  {
    ghost var m := |b|;
    ghost var p0 := p[..];
    for i := 0 to |a|
      invariant V(p[..i + m]) == V(a[..i]) * V(b) + V(p0[..m])
    {
      ghost var p1 := p[..];
      var carry := AddRow(p, i, a[i], b, |b|);
      assert b[..m] == b;
      p[i + |b|] := carry;
      ghost var p2 := p[..];
      RowValue(p1, p2, i, m, a[i], V(b), carry);
      SliceSnoc(a, 0, i);
      Distribute(V(a[..i]), a[i], Pow(W, i), V(b));
    }
    assert a[..|a|] == a && p[..|a| + m] == p[..];
  }

  lemma Distribute(u: int, x: int, p: int, v: int)
    ensures (u + x * p) * v == u * v + p * (x * v)
  {
    assert (u + x * p) * v == u * v + (x * p) * v;
    assert (x * p) * v == p * (x * v) by { MulAssoc(p, x, v); }
  }

  lemma {:induction false} RowValue(p1: seq<u32>, p2: seq<u32>, i: nat, m: nat, x: u32, vb: nat, carry: u32)
    requires |p1| == |p2| && i + m < |p1|
    requires p2[..i] == p1[..i] && p2[i + m] == carry
    requires V(p2[i..i + m]) + carry * Pow(W, m) == V(p1[i..i + m]) + x * vb
    ensures V(p2[..i + m + 1]) == V(p1[..i + m]) + Pow(W, i) * (x * vb)
  {
    assert p2[..i + m + 1] == p2[..i] + p2[i..i + m + 1];
    ValConcat(W, p2[..i], p2[i..i + m + 1]);
    SliceSnoc(p2, i, m);
    assert p1[..i + m] == p1[..i] + p1[i..i + m];
    ValConcat(W, p1[..i], p1[i..i + m]);
    Distrib(Pow(W, i), V(p1[i..i + m]), x * vb);
  }

  // ---- subtraction and the final conditional subtraction ----

  function Not(x: u32): u32 { 0xffffffff - x }

  /** One limb of a two's complement subtraction: adding ~y with a carry in. */
  lemma {:induction false} BorrowStep(v: int, c: int, p: nat, a: int, b: int, x: u32, y: u32, t: int)
    requires 0 <= v < p && v + c * p == a - b + p
    requires t == c + x + Not(y)
    ensures 0 <= v + (t % W) * p < W * p
    ensures v + (t % W) * p + (t / W) * (W * p) == (a + x * p) - (b + y * p) + W * p
  {
    RowStep(v, c, p, a - b + p, 1, 0, x + Not(y), 0, t);
    assert (x + Not(y)) * p == x * p + (W - 1) * p - y * p by {
      assert x + Not(y) == x + (W - 1) - y;
    }
    assert (t % W) * p <= (W - 1) * p by { MulMono(t % W, W - 1, p); }
    assert 0 <= (t % W) * p by { MulMono(0, t % W, p); }
  }

  /** x >= L, as the carry out of x + ~L + 1. */
  method IsAboveL(x: seq<u32>) returns (above: bool)
    requires |x| == 8
    ensures above <==> V(x) >= L
  {
    var carry: u64 := 1;
    ghost var v: int := 0;
    for i := 0 to 8
      invariant carry <= 1 && 0 <= v < Pow(W, i)
      invariant v + carry * Pow(W, i) == V(x[..i]) - V(L_LIMBS[..i]) + Pow(W, i)
    {
      BorrowStep(v, carry, Pow(W, i), V(x[..i]), V(L_LIMBS[..i]), x[i], L_LIMBS[i],
                 carry + x[i] + Not(L_LIMBS[i]));
      carry := carry + x[i] + Not(L_LIMBS[i]);
      v := v + (carry % W) * Pow(W, i);
      carry := carry / W;
      SliceSnoc(x, 0, i);
      SliceSnoc(L_LIMBS, 0, i);
    }
    above := carry == 1;
    assert x[..8] == x && L_LIMBS[..8] == L_LIMBS;
    ConstantValues();
  }

  /** r = a - b modulo 2^256, computed as a + ~b + 1; `r` may be the array that holds `b`. */
  method Subtract(r: array<u32>, a: seq<u32>, b: seq<u32>)
    requires r.Length >= 8 && |a| == 8 && |b| == 8
    modifies r
    ensures r[8..] == old(r[8..])
    ensures V(r[..8]) == (V(a) - V(b)) % W8
  {
    var carry: u64 := 1;
    for i := 0 to 8
      invariant carry <= 1 && r[8..] == old(r[8..]) && V(r[..i]) < Pow(W, i)
      invariant V(r[..i]) + carry * Pow(W, i) == V(a[..i]) - V(b[..i]) + Pow(W, i)
    {
      ghost var r1 := r[..];
      BorrowStep(V(r1[..i]), carry, Pow(W, i), V(a[..i]), V(b[..i]), a[i], b[i], carry + a[i] + Not(b[i]));
      carry := carry + a[i] + Not(b[i]);
      r[i] := carry % W;
      carry := carry / W;
      assert r[..][..i] == r1[..i];
      SliceSnoc(r[..], 0, i);
      SliceSnoc(a, 0, i);
      SliceSnoc(b, 0, i);
    }
    assert a[..8] == a && b[..8] == b;
    PowNumerals();
    ModUnique(V(a) - V(b), V(r[..8]), 1 - carry, W8);
  }

  /** The first i limbs of r and the carry stand for x - L on those limbs, plus one borrow. */
  ghost predicate MinusL(r: seq<u32>, x: seq<u32>, i: nat, carry: nat)
    requires i <= 8 <= |r| && |x| == 8
  {
    V(r[..i]) < Pow(W, i) && V(r[..i]) + carry * Pow(W, i) == V(x[..i]) - V(L_LIMBS[..i]) + Pow(W, i)
  }

  lemma {:induction false} MinusLStep(r: seq<u32>, r': seq<u32>, x: seq<u32>, i: nat, c: u64, sum: u64)
    requires i < 8 <= |r| && |x| == 8 && c <= 1 && MinusL(r, x, i, c)
    requires sum == c + x[i] + Not(L_LIMBS[i]) && r' == r[i := sum % W]
    ensures MinusL(r', x, i + 1, sum / W) && sum / W <= 1
  {
    BorrowStep(V(r[..i]), c, Pow(W, i), V(x[..i]), V(L_LIMBS[..i]), x[i], L_LIMBS[i], sum);
    assert r'[..i] == r[..i];
    SliceSnoc(r', 0, i);
    SliceSnoc(x, 0, i);
    SliceSnoc(L_LIMBS, 0, i);
  }

  /** Final reduction: subtracts L once when x >= L. */
  method RemoveL(r: array<u32>)
    requires r.Length >= 8
    modifies r
    ensures r[8..] == old(r[8..])
    ensures V(r[..8]) == if V(old(r[..8])) >= L then V(old(r[..8])) - L else V(old(r[..8]))
  {
    ghost var x := r[..8];
    var above := IsAboveL(r[..8]);
    var carry: u64 := if above then 1 else 0;
    var mask: u32 := if above then 0xffffffff else 0;
    for i := 0 to 8
      invariant r[i..] == old(r[i..]) && carry <= 1
      invariant above ==> MinusL(r[..], x, i, carry)
      invariant !above ==> carry == 0 && r[..i] == x[..i]
    {
      ghost var r1, c0 := r[..], carry;
      assert r[i] == r[i..][0] && r[i + 1..] == r[i..][1..] && old(r[i + 1..]) == old(r[i..])[1..];
      assert r[i] == x[i];
      carry := carry + r[i] + (if mask == 0 then 0 else Not(L_LIMBS[i]));
      r[i] := carry % W;
      if above { MinusLStep(r1, r[..], x, i, c0, carry); }
      carry := carry / W;
    }
    assert r[..][..8] == r[..8];
    assert x[..8] == x && L_LIMBS[..8] == L_LIMBS;
    PowNumerals();
    ConstantValues();
    ValBound(W, x);
  }

  // ---- Barrett reduction ----

  /** xr[..8] = q * L modulo 2^256, where q is held in xr[16..24]; carries out of limb 7 are dropped. */
  method TimesLLow(xr: array<u32>)
    requires xr.Length == 25
    requires xr[..8] == [0, 0, 0, 0, 0, 0, 0, 0]
    modifies xr
    ensures V(xr[..8]) % W8 == V(old(xr[16..24])) * L % W8
    ensures xr[8..] == old(xr[8..])
  {
    ghost var q := xr[16..24];
    ghost var k: int := 0;
    assert V(xr[..8]) == 0 by { ZeroValue(xr[..8]); }
    for i := 0 to 8
      invariant xr[8..] == old(xr[8..])
      invariant V(xr[..8]) + k * W8 == V(q[..i]) * L
    {
      ghost var x1 := xr[..];
      assert xr[i + 16] == q[i] by { assert xr[i + 16] == xr[8..][i + 8]; }
      var carry := AddRow(xr, i, xr[i + 16], L_LIMBS, 8 - i);
      assert xr[8..] == x1[8..] by { assert xr[8..] == xr[i + (8 - i)..]; }
      ghost var dk := LowRow(x1, xr[..], i, q[i], carry);
      k := k + dk;
      SliceSnoc(q, 0, i);
      Distribute(V(q[..i]), q[i], Pow(W, i), L);
    }
    assert q[..8] == q;
    ModShift(V(xr[..8]), k, W8);
  }

  lemma {:induction false} ZeroValue(s: seq<u32>)
    requires forall i :: 0 <= i < |s| ==> s[i] == 0
    ensures V(s) == 0
  {
    if s != [] { ZeroValue(s[..|s| - 1]); }
  }

  /** Adding x * L at limb i and dropping what leaves the low eight limbs changes the value
      by x * 2^(32 i) * L less a multiple of 2^256. */
  lemma {:induction false} LowRow(p1: seq<u32>, p2: seq<u32>, i: nat, x: u32, carry: u32) returns (dk: int)
    requires |p1| == |p2| && i < 8 <= |p1| && p2[..i] == p1[..i]
    requires V(p2[i..8]) + carry * Pow(W, 8 - i) == V(p1[i..8]) + x * V(L_LIMBS[..8 - i])
    ensures V(p2[..8]) + dk * W8 == V(p1[..8]) + Pow(W, i) * (x * L)
  {
    var n := 8 - i;
    var hi := V(L_LIMBS[n..]);
    dk := carry + x * hi;
    assert p2[..8] == p2[..i] + p2[i..8] && p1[..8] == p1[..i] + p1[i..8];
    ValConcat(W, p2[..i], p2[i..8]);
    ValConcat(W, p1[..i], p1[i..8]);
    assert L_LIMBS == L_LIMBS[..n] + L_LIMBS[n..];
    ValConcat(W, L_LIMBS[..n], L_LIMBS[n..]);
    ConstantValues();
    PowAdd(W, i, n);
    PowNumerals();
    LowRowArith(Pow(W, i), Pow(W, n), V(p2[i..8]), carry, V(p1[i..8]), x, V(L_LIMBS[..n]), hi);
  }

  lemma LowRowArith(pi: int, pn: int, a: int, c: int, b: int, x: int, lo: int, hi: int)
    requires a + c * pn == b + x * lo
    ensures pi * a + (c + x * hi) * (pi * pn) == pi * b + pi * (x * (lo + pn * hi))
  {
    assert pi * (a + c * pn) == pi * a + c * (pi * pn) by { Distrib(pi, a, c * pn); MulAssoc(c, pi, pn); MulAssoc(pi, c, pn); }
    assert pi * (b + x * lo) == pi * b + pi * (x * lo) by { Distrib(pi, b, x * lo); }
    assert x * (lo + pn * hi) == x * lo + x * (pn * hi) by { Distrib(x, lo, pn * hi); }
    Distrib(pi, x * lo, x * (pn * hi));
    assert pi * (x * (pn * hi)) == (x * hi) * (pi * pn) by {
      MulAssoc(x, pn, hi); MulAssoc(pn, x, hi); MulAssoc(pi, pn, x * hi);
      assert x * (pn * hi) == pn * (x * hi);
    }
  }

  /** The Barrett quotient is at most one short. */
  lemma {:induction false} BarrettQuotient(x: nat, q: nat)
    requires x < W16 && q == x * R / W16
    ensures 0 <= x - q * L < 2 * L
  {
    var m := W16;
    assert R * L <= m < (R + 1) * L;
    assert q * m <= x * R < (q + 1) * m;
    // q*m*L <= x*R*L <= x*m
    assert q * L <= x by {
      assert (q * m) * L <= (x * R) * L by { MulMono(q * m, x * R, L); }
      assert (x * R) * L == x * (R * L) by { MulAssoc(x, R, L); }
      assert x * (R * L) <= x * m by { MulMono(R * L, m, x); }
      assert (q * m) * L == (q * L) * m;
      if q * L >= x + 1 { MulMono(x + 1, q * L, m); }
    }
    // (q+2)*L*m > x*m
    assert x < (q + 2) * L by {
      assert (x * R) * L < ((q + 1) * m) * L;
      assert x * m <= x * ((R + 1) * L) by { MulMono(m, (R + 1) * L, x); }
      assert x * ((R + 1) * L) == (x * R) * L + x * L by { MulAssoc(x, R, L); Distrib(x, R * L, L); }
      assert x * L <= m * L by { MulMono(x, m, L); }
      assert ((q + 1) * m) * L + m * L == ((q + 2) * L) * m;
      if x >= (q + 2) * L { MulMono((q + 2) * L, x, m); }
    }
  }

  /** Subtracting the low 256 bits of q' * L from those of x, for any q' congruent to the Barrett
      quotient, leaves x - q * L exactly. */
  lemma {:induction false} BarrettRemainder(x: nat, xlo: nat, qlo: nat, t: nat)
    requires x < W16 && xlo < W8 && xlo == x % W8
    requires qlo == x * R / W16 % W8 && t == qlo * L % W8
    ensures (xlo - t) % W8 == x - x * R / W16 * L
    ensures 0 <= (xlo - t) % W8 < 2 * L
  {
    var q := x * R / W16;
    BarrettQuotient(x, q);
    var a, b, c := x / W8, q / W8, qlo * L / W8;
    assert x == xlo + a * W8 && q == qlo + b * W8 && qlo * L == t + c * W8;
    assert q * L == qlo * L + (b * L) * W8;
    ModUnique(xlo - t, x - q * L, a - b * L - c, W8);
  }

  lemma {:induction false} SplitValue(s: seq<u32>, i: nat)
    requires i <= |s|
    ensures V(s) == V(s[..i]) + Pow(W, i) * V(s[i..]) && V(s[..i]) < Pow(W, i)
    ensures V(s) / Pow(W, i) == V(s[i..]) && V(s) % Pow(W, i) == V(s[..i])
  {
    assert s == s[..i] + s[i..];
    ValConcat(W, s[..i], s[i..]);
    ValBound(W, s[..i]);
    DivModUnique(V(s), V(s[i..]), V(s[..i]), Pow(W, i));
  }

  lemma {:induction false} QuotientLimbs(x: nat, prod: seq<u32>)
    requires |prod| == 25 && V(prod) == x * R
    ensures V(prod[16..24]) == x * R / W16 % W8
  {
    var high := prod[16..];
    assert V(high) == V(prod) / W16 by { SplitValue(prod, 16); PowNumerals(); }
    assert V(high[..8]) == V(high) % W8 by { SplitValue(high, 8); PowNumerals(); }
    assert high[..8] == prod[16..24];
  }

  /** What is left after the subtraction determines x mod L. */
  lemma {:induction false} Remainder(x: seq<u32>, qlo: nat, t: seq<u32>, d: nat)
    requires |x| == 16 && |t| == 8
    requires qlo == V(x) * R / W16 % W8 && V(t) % W8 == qlo * L % W8
    requires d == (V(x[..8]) - V(t)) % W8
    ensures d < 2 * L && V(x) % L == if d >= L then d - L else d
  {
    PowNumerals();
    SplitValue(x, 8);
    assert x[..16] == x;
    SplitValue(x, 16);
    ValBound(W, t);
    ModUnique(V(t), V(t), 0, W8);
    BarrettRemainder(V(x), V(x[..8]), qlo, V(t));
    var q := V(x) * R / W16;
    ModUnique(V(x), if d >= L then d - L else d, if d >= L then -q - 1 else -q, L);
  }

  method Zero8(xr: array<u32>)
    requires xr.Length >= 8
    modifies xr
    ensures xr[..8] == [0, 0, 0, 0, 0, 0, 0, 0] && xr[8..] == old(xr[8..])
  {
    for i := 0 to 8
      invariant xr[8..] == old(xr[8..]) && forall k :: 0 <= k < i ==> xr[k] == 0
    {
      xr[i] := 0;
    }
  }

  lemma {:induction false} SameMiddle(s: seq<u32>, t: seq<u32>)
    requires |s| == |t| == 25 && s[8..] == t[8..]
    ensures s[16..24] == t[16..24]
  {
    assert s[16..24] == s[8..][8..16];
    assert t[16..24] == t[8..][8..16];
  }

  /** Full reduction modulo L of a 512-bit number. */
  method ModL(x: seq<u32>) returns (reduced: seq<u32>)
    requires |x| == 16
    ensures |reduced| == 8 && V(reduced) == V(x) % L
  {
    var xr := new u32[25](i => 0);
    ZeroValue(xr[..16]);
    Multiply(xr, R_LIMBS, x);
    ghost var prod := xr[..];
    assert V(prod) == V(x) * R by { ConstantValues(); }
    Zero8(xr);
    assert xr[..][8..] == prod[8..];
    SameMiddle(xr[..], prod);
    assert xr[16..24] == xr[..][16..24];
    TimesLLow(xr);
    ghost var t := xr[..8];
    Subtract(xr, x[..8], xr[..8]);
    QuotientLimbs(V(x), prod);
    Remainder(x, V(prod[16..24]), t, V(xr[..8]));
    RemoveL(xr);
    reduced := xr[..8];
  }

  // ---- byte strings ----

  /** load32_le */
  function Load32(b: seq<u8>): u32
    requires |b| == 4
  {
    var b0: int, b1: int, b2: int, b3: int := b[0], b[1], b[2], b[3];
    b0 + b1 * 0x100 + b2 * 0x1_0000 + b3 * 0x100_0000
  }

  /** load32_le as the source writes it, with shifts and ors. */
  lemma {:induction false} Load32IsOr(b: seq<u8>)
    requires |b| == 4
    ensures Load32(b) == Or(Or(Or(b[0], b[1] * Pow(2, 8)), b[2] * Pow(2, 16)), b[3] * Pow(2, 24))
  {
    Powers2();
    var b0: nat, b1: nat, b2: nat, b3: nat := b[0], b[1], b[2], b[3];
    OrDisjoint(b0, b1, 8);
    OrDisjoint(b0 + b1 * 0x100, b2, 16);
    OrDisjoint(b0 + b1 * 0x100 + b2 * 0x1_0000, b3, 24);
  }

  lemma SplitWord(w: u32)
    ensures w / 0x100_0000 < 0x100
    ensures w == w % 0x100 + (w / 0x100 % 0x100) * 0x100 + (w / 0x1_0000 % 0x100) * 0x1_0000 + (w / 0x100_0000) * 0x100_0000
  {
    var q1 := w / 0x100;
    var q2 := q1 / 0x100;
    assert w / 0x1_0000 == q2;
    assert w / 0x100_0000 == q2 / 0x100;
  }

  /** store32_le */
  function Store32(w: u32): (b: seq<u8>)
    ensures |b| == 4 && Load32(b) == w
  {
    SplitWord(w);
    [w % 0x100, w / 0x100 % 0x100, w / 0x1_0000 % 0x100, w / 0x100_0000]
  }

  method Load32Buf(src: seq<u8>) returns (dst: seq<u32>)
    requires |src| % 4 == 0
    ensures |dst| == |src| / 4 && V(dst) == LeBytes(src)
  {
    dst := [];
    for i := 0 to |src| / 4
      invariant |dst| == i && V(dst) == LeBytes(src[..4 * i])
    {
      var w := Load32(src[4 * i..4 * i + 4]);
      LimbOfBytes(dst, src[..4 * i], src[4 * i..4 * i + 4]);
      assert src[..4 * (i + 1)] == src[..4 * i] + src[4 * i..4 * i + 4];
      dst := dst + [w];
    }
    assert src[..4 * (|src| / 4)] == src;
  }

  method Store32Buf(src: seq<u32>) returns (dst: seq<u8>)
    ensures |dst| == 4 * |src| && LeBytes(dst) == V(src)
  {
    dst := [];
    for i := 0 to |src|
      invariant |dst| == 4 * i && LeBytes(dst) == V(src[..i])
    {
      var b := Store32(src[i]);
      LimbOfBytes(src[..i], dst, b);
      assert src[..i + 1] == src[..i] + [src[i]];
      dst := dst + b;
    }
    assert src[..|src|] == src;
  }

  lemma {:induction false} PowFour(n: nat)
    ensures Pow(0x100, 4 * n) == Pow(W, n)
  {
    if n > 0 {
      PowFour(n - 1);
      PowAdd(0x100, 4, 4 * n - 4);
      assert Pow(0x100, 4) == 0x100 * Pow(0x100, 3) == 0x100 * (0x100 * Pow(0x100, 2));
      assert Pow(0x100, 2) == 0x100 * Pow(0x100, 1) == 0x100 * (0x100 * Pow(0x100, 0));
    }
  }

  lemma {:induction false} LimbOfBytes(limbs: seq<u32>, bytes: seq<u8>, b: seq<u8>)
    requires |b| == 4 && |bytes| == 4 * |limbs| && V(limbs) == LeBytes(bytes)
    ensures V(limbs + [Load32(b)]) == LeBytes(bytes + b)
  {
    ValSnoc(W, limbs, Load32(b));
    ValConcat(0x100, bytes, b);
    PowFour(|limbs|);
    FourBytes(b);
  }

  lemma FourBytes(b: seq<u8>)
    requires |b| == 4
    ensures LeBytes(b) == Load32(b)
  {
    assert Pow(0x100, 3) == 0x100 * (0x100 * Pow(0x100, 1)) == 0x100_0000;
    assert Pow(0x100, 1) == 0x100 * Pow(0x100, 0);
    assert b == [b[0]] + [b[1]] + [b[2]] + [b[3]];
    ValSnoc(0x100, [b[0]] + [b[1]] + [b[2]], b[3]);
    ValSnoc(0x100, [b[0]] + [b[1]], b[2]);
    ValSnoc(0x100, [b[0]], b[1]);
    ValSnoc(0x100, [], b[0]);
    assert [] + [b[0]] == [b[0]];
  }

  /** crypto_eddsa_reduce: the 512-bit hash modulo L. */
  method Reduce(expanded: seq<u8>) returns (reduced: seq<u8>)
    requires |expanded| == 64
    ensures |reduced| == 32 && LeBytes(reduced) == LeBytes(expanded) % L
  {
    var x := Load32Buf(expanded);
    var r := ModL(x);
    reduced := Store32Buf(r);
  }

  /** crypto_eddsa_mul_add: a * b + c modulo L, for all 256-bit a, b and c. */
  method MulAddL(a: seq<u8>, b: seq<u8>, c: seq<u8>) returns (r: seq<u8>)
    requires |a| == 32 && |b| == 32 && |c| == 32
    ensures |r| == 32 && LeBytes(r) == (LeBytes(a) * LeBytes(b) + LeBytes(c)) % L
  {
    var al := Load32Buf(a);
    var bl := Load32Buf(b);
    var cl := Load32Buf(c);
    var p := new u32[16](i requires 0 <= i < 16 && |cl| == 8 => if i < 8 then cl[i] else 0);
    assert p[..8] == cl;
    Multiply(p, al, bl);
    var m := ModL(p[..]);
    r := Store32Buf(m);
  }
}
