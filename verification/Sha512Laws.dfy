/** What the logical functions and the constants of SHA-512 are, bit by bit and root by root: sections
    4.1.3, 4.2.3 and 5.3.5 of FIPS 180-4. */
module Sha512Laws {
  import opened Words
  import opened Bits
  import opened Bitwise
  import opened Sha512Spec

  // ---- bits of the operators ----

  lemma {:induction false} AndBit(x: nat, y: nat, i: nat)
    ensures BitOf(And(x, y), i) == BitOf(x, i) * BitOf(y, i)
  {
    AndHalves(x, y);
    if i > 0 { AndBit(x / 2, y / 2, i - 1); }
  }

  lemma {:induction false} AndHalves(x: nat, y: nat)
    ensures And(x, y) % 2 == (x % 2) * (y % 2) && And(x, y) / 2 == And(x / 2, y / 2)
  {
    if x > 0 && y > 0 {
      DivModUnique(And(x, y), And(x / 2, y / 2), (x % 2) * (y % 2), 2);
    }
  }

  lemma {:induction false} ZeroBit(i: nat)
    ensures BitOf(0, i) == 0
  {
    if i > 0 { ZeroBit(i - 1); }
  }

  lemma {:induction false} XorBit(x: nat, y: nat, i: nat)
    ensures BitOf(Xor(x, y), i) == (BitOf(x, i) + BitOf(y, i)) % 2
  {
    XorHalves(x, y);
    if x == 0 && y == 0 {
      ZeroBit(i);
    } else if i > 0 {
      XorBit(x / 2, y / 2, i - 1);
    }
  }

  lemma {:induction false} XorHalves(x: nat, y: nat)
    ensures Xor(x, y) % 2 == (x % 2 + y % 2) % 2 && Xor(x, y) / 2 == Xor(x / 2, y / 2)
  {
    if x > 0 || y > 0 {
      DivModUnique(Xor(x, y), Xor(x / 2, y / 2), (x % 2 + y % 2) % 2, 2);
    }
  }

  lemma {:induction false} ComplementBit(x: nat, n: nat, i: nat)
    requires x < Pow(2, n) && i < n
    ensures BitOf(Pow(2, n) - 1 - x, i) == 1 - BitOf(x, i)
  {
    var z := Pow(2, n) - 1 - x;
    assert z / 2 == Pow(2, n - 1) - 1 - x / 2 && z % 2 == 1 - x % 2;
    if i > 0 { ComplementBit(x / 2, n - 1, i - 1); }
  }

  lemma Pow64()
    ensures Pow(2, 64) == M64 && Pow(2, 63) == 0x8000_0000_0000_0000
  {
    Powers2();
    PowAdd(2, 32, 32);
    assert Pow(2, 64) == 2 * Pow(2, 63);
  }

  lemma {:induction false} NotBit(x: u64, i: nat)
    requires i < 64
    ensures BitOf(Not(x), i) == 1 - BitOf(x, i)
  {
    Pow64();
    ComplementBit(x, 64, i);
  }

  /** A bit added above a number. */
  lemma {:induction false} TopBit(z: nat, b: nat, n: nat, i: nat)
    requires z < Pow(2, n) && b <= 1 && i <= n
    ensures BitOf(z + b * Pow(2, n), i) == if i == n then b else BitOf(z, i)
  {
    var p := Pow(2, n);
    assert b * p == if b == 1 then p else 0;
    if n > 0 {
      var h := Pow(2, n - 1);
      assert b * h == if b == 1 then h else 0;
      assert (z + b * p) / 2 == z / 2 + b * h && (z + b * p) % 2 == z % 2;
      if i > 0 { TopBit(z / 2, b, n - 1, i - 1); }
    }
  }

  lemma {:induction false} RotBit(x: nat, c: nat, i: nat)
    requires x < M64 && c <= 64 && i < 64
    ensures BitOf(Rot(x, c), i) == BitOf(x, (i + c) % 64)
    decreases c
  {
    if c > 0 {
      RotBit(x / 2 + (x % 2) * 0x8000_0000_0000_0000, c - 1, i);
      var k := (i + (c - 1)) % 64;
      RotOnce(x, k);
      NextPlace(i, c, k);
    }
  }

  /** One place: the lowest bit becomes the highest. */
  lemma {:induction false} RotOnce(x: nat, k: nat)
    requires x < M64 && k < 64
    ensures BitOf(x / 2 + (x % 2) * 0x8000_0000_0000_0000, k) == BitOf(x, if k == 63 then 0 else k + 1)
  {
    Pow64();
    TopBit(x / 2, x % 2, 63, k);
  }

  lemma NextPlace(i: nat, c: nat, k: nat)
    requires c > 0 && k == (i + (c - 1)) % 64
    ensures (i + c) % 64 == if k == 63 then 0 else k + 1
  {
    var q := (i + (c - 1)) / 64;
    DivModUnique(i + c, if k == 63 then q + 1 else q, if k == 63 then 0 else k + 1, 64);
  }

  lemma {:induction false} ShiftedBit(x: nat, k: nat, i: nat)
    ensures Pow(2, k) > 0 && BitOf(x / Pow(2, k), i) == BitOf(x, i + k)
  {
    PowPos(2, k);
    if k > 0 {
      PowPos(2, k - 1);
      DivDiv(x, 2, Pow(2, k - 1));
      ShiftedBit(x / 2, k - 1, i);
    }
  }

  lemma {:induction false} HighBit(x: nat, n: nat, i: nat)
    requires x < Pow(2, n) && n <= i
    ensures BitOf(x, i) == 0
  {
    if n == 0 { ZeroBit(i); } else { HighBit(x / 2, n - 1, i - 1); }
  }

  // ---- the six functions ----

  /** Ch chooses: y where x is one, z where it is zero. */
  lemma {:induction false} ChBit(x: u64, y: u64, z: u64, i: nat)
    requires i < 64
    ensures BitOf(Ch(x, y, z), i) == if BitOf(x, i) == 1 then BitOf(y, i) else BitOf(z, i)
  {
    XorBit(And(x, y), And(Not(x), z), i);
    AndBit(x, y, i);
    AndBit(Not(x), z, i);
    NotBit(x, i);
    ChoiceOf(BitOf(x, i), BitOf(y, i), BitOf(z, i));
  }

  lemma ChoiceOf(a: nat, b: nat, c: nat)
    requires a <= 1 && b <= 1 && c <= 1
    ensures (a * b + (1 - a) * c) % 2 == if a == 1 then b else c
  {
    if a == 0 { assert a * b == 0 && (1 - a) * c == c; } else { assert a * b == b && (1 - a) * c == 0; }
  }

  /** Maj is the majority of its three bits. */
  lemma {:induction false} MajBit(x: u64, y: u64, z: u64, i: nat)
    ensures BitOf(Maj(x, y, z), i) == if BitOf(x, i) + BitOf(y, i) + BitOf(z, i) >= 2 then 1 else 0
  {
    Xor3Bit(And(x, y), And(x, z), And(y, z), i);
    AndBit(x, y, i);
    AndBit(x, z, i);
    AndBit(y, z, i);
    MajorityOf(BitOf(x, i), BitOf(y, i), BitOf(z, i));
  }

  lemma MajorityOf(a: nat, b: nat, c: nat)
    requires a <= 1 && b <= 1 && c <= 1
    ensures (a * b + a * c + b * c) % 2 == if a + b + c >= 2 then 1 else 0
  {
    if a == 0 { assert a * b == 0 && a * c == 0; } else { assert a * b == b && a * c == c; }
    if b == 0 { assert b * c == 0; } else { assert b * c == c; }
  }

  lemma {:induction false} Xor3Bit(a: nat, b: nat, c: nat, i: nat)
    ensures BitOf(Xor(Xor(a, b), c), i) == (BitOf(a, i) + BitOf(b, i) + BitOf(c, i)) % 2
  {
    XorBit(Xor(a, b), c, i);
    XorBit(a, b, i);
  }

  /** The large sigmas combine three bits of their word, found by rotating. */
  lemma {:induction false} BigSigma0Bit(x: u64, i: nat)
    requires i < 64
    ensures BitOf(BigSigma0(x), i) == (BitOf(x, (i + 28) % 64) + BitOf(x, (i + 34) % 64) + BitOf(x, (i + 39) % 64)) % 2
  {
    Xor3Bit(Rot(x, 28), Rot(x, 34), Rot(x, 39), i);
    RotBit(x, 28, i);
    RotBit(x, 34, i);
    RotBit(x, 39, i);
  }

  lemma {:induction false} BigSigma1Bit(x: u64, i: nat)
    requires i < 64
    ensures BitOf(BigSigma1(x), i) == (BitOf(x, (i + 14) % 64) + BitOf(x, (i + 18) % 64) + BitOf(x, (i + 41) % 64)) % 2
  {
    Xor3Bit(Rot(x, 14), Rot(x, 18), Rot(x, 41), i);
    RotBit(x, 14, i);
    RotBit(x, 18, i);
    RotBit(x, 41, i);
  }

  /** x >> k in 64 bits. */
  lemma {:induction false} ShiftedWord(x: u64, k: nat, p: nat, i: nat)
    requires p == Pow(2, k) && k <= 64 && i < 64
    ensures p > 0 && BitOf(x / p, i) == if i + k < 64 then BitOf(x, i + k) else 0
  {
    ShiftedBit(x, k, i);
    Pow64();
    if i + k >= 64 { HighBit(x, 64, i + k); }
  }

  lemma {:induction false} Combined(a: nat, b: nat, c: nat, i: nat, u: nat, v: nat, w: nat)
    requires BitOf(a, i) == u && BitOf(b, i) == v && BitOf(c, i) == w
    ensures BitOf(Xor(Xor(a, b), c), i) == (u + v + w) % 2
  {
    Xor3Bit(a, b, c, i);
  }

  lemma {:induction false} Shift7(x: u64, i: nat)
    requires i < 64
    ensures BitOf(x / 0x80, i) == if i < 57 then BitOf(x, i + 7) else 0
  {
    Powers2();
    ShiftedWord(x, 7, 0x80, i);
  }

  lemma {:induction false} Shift6(x: u64, i: nat)
    requires i < 64
    ensures BitOf(x / 0x40, i) == if i < 58 then BitOf(x, i + 6) else 0
  {
    Powers2();
    ShiftedWord(x, 6, 0x40, i);
  }

  /** The small ones combine two rotated bits and, below the top, a shifted one. */
  lemma {:induction false} LitSigma0Bit(x: u64, i: nat)
    requires i < 64
    ensures BitOf(LitSigma0(x), i)
            == (BitOf(x, (i + 1) % 64) + BitOf(x, (i + 8) % 64) + (if i < 57 then BitOf(x, i + 7) else 0)) % 2
  {
    RotBit(x, 1, i);
    RotBit(x, 8, i);
    Shift7(x, i);
    Combined(Rot(x, 1), Rot(x, 8), x / 0x80, i, BitOf(x, (i + 1) % 64), BitOf(x, (i + 8) % 64), if i < 57 then BitOf(x, i + 7) else 0);
  }

  lemma {:induction false} LitSigma1Bit(x: u64, i: nat)
    requires i < 64
    ensures BitOf(LitSigma1(x), i)
            == (BitOf(x, (i + 19) % 64) + BitOf(x, (i + 61) % 64) + (if i < 58 then BitOf(x, i + 6) else 0)) % 2
  {
    RotBit(x, 19, i);
    RotBit(x, 61, i);
    Shift6(x, i);
    Combined(Rot(x, 19), Rot(x, 61), x / 0x40, i, BitOf(x, (i + 19) % 64), BitOf(x, (i + 61) % 64), if i < 58 then BitOf(x, i + 6) else 0);
  }

  // ---- rounds and schedule run backwards ----

  /** The state before a round, from the state behind it. */
  function Unround(s: State, k: u64, w: u64): State
  {
    var t1 := s.a - BigSigma0(s.b) - Maj(s.b, s.c, s.d);
    State(s.b, s.c, s.d, (s.e - t1) % M64, s.f, s.g, s.h, (t1 - BigSigma1(s.f) - Ch(s.f, s.g, s.h) - k - w) % M64)
  }

  /** A round is a permutation of the states: nothing of a state is lost, whatever the constant and the word. */
  lemma {:induction false} RoundInverts(s: State, k: u64, w: u64)
    ensures Unround(Round(s, k, w), k, w) == s
  {
    var p, q, r, m := BigSigma1(s.e), Ch(s.e, s.f, s.g), BigSigma0(s.a), Maj(s.a, s.b, s.c);
    Recovered(s.d, s.h, s.h + p + q + k + w, r + m, p + q + k + w);
  }

  lemma Recovered(d: u64, h: u64, t1: int, t2: int, rest: int)
    requires t1 == h + rest
    ensures ((d + t1) % M64 - ((t1 + t2) % M64 - t2)) % M64 == d
    ensures ((t1 + t2) % M64 - t2 - rest) % M64 == h
  {
    ModUnique((d + t1) % M64 - ((t1 + t2) % M64 - t2), d, (d + t1) / M64 - (t1 + t2) / M64, M64);
    ModUnique((t1 + t2) % M64 - t2 - rest, h, (t1 + t2) / M64, M64);
  }

  /** Hence the eighty rounds of a block never bring two states together. */
  lemma {:induction false} RoundsInjective(s: State, s': State, block: seq<u64>, t: nat)
    requires |block| == 16 && t <= 80 && Rounds(s, block, t) == Rounds(s', block, t)
    ensures s == s'
  {
    if t > 0 {
      RoundInverts(Rounds(s, block, t - 1), K[t - 1], Sched(block, t - 1));
      RoundInverts(Rounds(s', block, t - 1), K[t - 1], Sched(block, t - 1));
      RoundsInjective(s, s', block, t - 1);
    }
  }

  /** Any sixteen consecutive schedule words determine the one before them. */
  lemma {:induction false} ScheduleInverts(block: seq<u64>, t: nat)
    requires |block| == 16
    ensures Sched(block, t)
            == (Sched(block, t + 16) - LitSigma1(Sched(block, t + 14)) - Sched(block, t + 9) - LitSigma0(Sched(block, t + 1))) % M64
  {
    var x, y := Sched(block, t), LitSigma1(Sched(block, t + 14)) + Sched(block, t + 9) + LitSigma0(Sched(block, t + 1));
    assert Sched(block, t + 16) == (y + x) % M64;
    ModUnique((y + x) % M64 - y, x, (y + x) / M64, M64);
  }

  /** A block's state is added to the rounds' result, word by word: subtracting it gives the rounds back. */
  lemma {:induction false} FeedForward(h: State, block: seq<u64>)
    requires |block| == 16
    ensures var r, s := Compress(h, block), Rounds(h, block, 80);
            && (r.a - h.a) % M64 == s.a && (r.b - h.b) % M64 == s.b && (r.c - h.c) % M64 == s.c && (r.d - h.d) % M64 == s.d
            && (r.e - h.e) % M64 == s.e && (r.f - h.f) % M64 == s.f && (r.g - h.g) % M64 == s.g && (r.h - h.h) % M64 == s.h
  {
    PlusMinusHigh(h, Rounds(h, block, 80));
    PlusMinusLow(h, Rounds(h, block, 80));
  }

  lemma {:induction false} PlusMinusHigh(h: State, s: State)
    ensures var r := Plus(h, s);
            (r.a - h.a) % M64 == s.a && (r.b - h.b) % M64 == s.b && (r.c - h.c) % M64 == s.c && (r.d - h.d) % M64 == s.d
  {
    SumMinus(h.a, s.a);
    SumMinus(h.b, s.b);
    SumMinus(h.c, s.c);
    SumMinus(h.d, s.d);
  }

  lemma {:induction false} PlusMinusLow(h: State, s: State)
    ensures var r := Plus(h, s);
            (r.e - h.e) % M64 == s.e && (r.f - h.f) % M64 == s.f && (r.g - h.g) % M64 == s.g && (r.h - h.h) % M64 == s.h
  {
    SumMinus(h.e, s.e);
    SumMinus(h.f, s.f);
    SumMinus(h.g, s.g);
    SumMinus(h.h, s.h);
  }

  lemma SumMinus(x: u64, y: u64)
    ensures ((x + y) % M64 - x) % M64 == y
  {
    ModUnique((x + y) % M64 - x, y, (x + y) / M64, M64);
  }

  // ---- padding and output ----

  /** A padded message is the message, a one bit, fewer than 128 zero bytes and the length in bits, in whole
      blocks. */
  lemma {:induction false} PadShape(m: seq<u8>)
    requires 8 * |m| < M64 * M64
    ensures var p, n := Pad(m), |m|;
            && |p| % 128 == 0 && n + 17 <= |p| < n + 17 + 128
            && p[..n] == m && p[n] == 0x80 && (forall i :: n < i < |p| - 16 ==> p[i] == 0)
            && Be(p[|p| - 16..|p| - 8]) * M64 + Be(p[|p| - 8..]) == 8 * n
  {
    var p, n := Pad(m), |m|;
    Pow8();
    BeRoundTrip(LenHi(n), 8);
    BeRoundTrip(LenLo(n), 8);
    assert p[|p| - 16..|p| - 8] == BeBytes(LenHi(n), 8);
    assert p[|p| - 8..] == BeBytes(LenLo(n), 8);
    LengthWords(n);
  }

  lemma LengthWords(n: nat)
    requires 8 * n < M64 * M64
    ensures LenHi(n) * M64 + LenLo(n) == 8 * n
  {
    assert 8 * n / M64 < M64;
  }

  /** The digest spells the eight words, most significant byte first. */
  lemma {:induction false} OutputSpells(h: State)
    ensures var o := OutputBytes(h);
            && Be(o[..8]) == h.a && Be(o[8..16]) == h.b && Be(o[16..24]) == h.c && Be(o[24..32]) == h.d
            && Be(o[32..40]) == h.e && Be(o[40..48]) == h.f && Be(o[48..56]) == h.g && Be(o[56..]) == h.h
  {
    Pow8();
    var o := OutputBytes(h);
    WordAt(o, 0, h.a);
    WordAt(o, 8, h.b);
    WordAt(o, 16, h.c);
    WordAt(o, 24, h.d);
    WordAt(o, 32, h.e);
    WordAt(o, 40, h.f);
    WordAt(o, 48, h.g);
    WordAt(o, 56, h.h);
  }

  lemma {:induction false} WordAt(o: seq<u8>, i: nat, x: u64)
    requires i + 8 <= |o| && o[i..i + 8] == BeBytes(x, 8)
    ensures Be(o[i..i + 8]) == x
  {
    Pow8();
    BeRoundTrip(x, 8);
  }

  // ---- the constants ----

  predicate IsSquareRoot(x: nat, n: nat) { x * x <= n < (x + 1) * (x + 1) }

  predicate IsCubeRoot(x: nat, n: nat) { x * x * x <= n < (x + 1) * (x + 1) * (x + 1) }

  /** w holds the first 64 bits of the fractional part of the square root of p: the last 64 bits of the
      root scaled by 2^64. */
  ghost predicate SquareRootFraction(w: nat, p: nat)
  {
    exists x: nat :: IsSquareRoot(x, p * POW128) && x % M64 == w
  }

  ghost predicate CubeRootFraction(w: nat, p: nat)
  {
    exists x: nat :: IsCubeRoot(x, p * POW192) && x % M64 == w
  }

  const POW128: nat := 0x1_00000000_00000000_00000000_00000000
  const POW192: nat := 0x1_00000000_00000000_00000000_00000000_00000000_00000000

  lemma SquareRoot(x: nat, w: nat, p: nat)
    requires IsSquareRoot(x, p * POW128) && x % M64 == w
    ensures SquareRootFraction(w, p)
  {}

  lemma CubeRoot(x: nat, w: nat, p: nat)
    requires IsCubeRoot(x, p * POW192) && x % M64 == w
    ensures CubeRootFraction(w, p)
  {}

  /** The initial state: the square roots of the first eight primes. */
  lemma InitialValues()
    ensures SquareRootFraction(IV.a, 2) && SquareRootFraction(IV.b, 3) && SquareRootFraction(IV.c, 5) && SquareRootFraction(IV.d, 7)
    ensures SquareRootFraction(IV.e, 11) && SquareRootFraction(IV.f, 13) && SquareRootFraction(IV.g, 17) && SquareRootFraction(IV.h, 19)
  {
    SquareRoot(0x16a09e667f3bcc908, IV.a, 2);
    SquareRoot(0x1bb67ae8584caa73b, IV.b, 3);
    SquareRoot(0x23c6ef372fe94f82b, IV.c, 5);
    SquareRoot(0x2a54ff53a5f1d36f1, IV.d, 7);
    SquareRoot(0x3510e527fade682d1, IV.e, 11);
    SquareRoot(0x39b05688c2b3e6c1f, IV.f, 13);
    SquareRoot(0x41f83d9abfb41bd6b, IV.g, 17);
    SquareRoot(0x45be0cd19137e2179, IV.h, 19);
  }

  /** Word by word the cube roots of the numbers in p. */
  ghost predicate CubeRootsOf(k: seq<u64>, p: seq<nat>)
  {
    |k| == |p| && forall t :: 0 <= t < |k| ==> CubeRootFraction(k[t], p[t])
  }

  lemma {:induction false} CubeRootsJoin(k: seq<u64>, p: seq<nat>, k': seq<u64>, p': seq<nat>)
    requires CubeRootsOf(k, p) && CubeRootsOf(k', p')
    ensures CubeRootsOf(k + k', p + p')
  {}

  const PRIMES: seq<nat> := P0 + (P1 + (P2 + (P3 + (P4 + (P5 + (P6 + (P7 + (P8 + P9))))))))

  const P0: seq<nat> := [2, 3, 5, 7, 11, 13, 17, 19]
  const P1: seq<nat> := [23, 29, 31, 37, 41, 43, 47, 53]
  const P2: seq<nat> := [59, 61, 67, 71, 73, 79, 83, 89]
  const P3: seq<nat> := [97, 101, 103, 107, 109, 113, 127, 131]
  const P4: seq<nat> := [137, 139, 149, 151, 157, 163, 167, 173]
  const P5: seq<nat> := [179, 181, 191, 193, 197, 199, 211, 223]
  const P6: seq<nat> := [227, 229, 233, 239, 241, 251, 257, 263]
  const P7: seq<nat> := [269, 271, 277, 281, 283, 293, 307, 311]
  const P8: seq<nat> := [313, 317, 331, 337, 347, 349, 353, 359]
  const P9: seq<nat> := [367, 373, 379, 383, 389, 397, 401, 409]

  lemma RoundConstants0()
    ensures CubeRootsOf(K0, P0)
  {
    CubeRoot(0x1428a2f98d728ae22, K0[0], 2);
    CubeRoot(0x17137449123ef65cd, K0[1], 3);
    CubeRoot(0x1b5c0fbcfec4d3b2f, K0[2], 5);
    CubeRoot(0x1e9b5dba58189dbbc, K0[3], 7);
    CubeRoot(0x23956c25bf348b538, K0[4], 11);
    CubeRoot(0x259f111f1b605d019, K0[5], 13);
    CubeRoot(0x2923f82a4af194f9b, K0[6], 17);
    CubeRoot(0x2ab1c5ed5da6d8118, K0[7], 19);
  }

  lemma RoundConstants1()
    ensures CubeRootsOf(K1, P1)
  {
    CubeRoot(0x2d807aa98a3030242, K1[0], 23);
    CubeRoot(0x312835b0145706fbe, K1[1], 29);
    CubeRoot(0x3243185be4ee4b28c, K1[2], 31);
    CubeRoot(0x3550c7dc3d5ffb4e2, K1[3], 37);
    CubeRoot(0x372be5d74f27b896f, K1[4], 41);
    CubeRoot(0x380deb1fe3b1696b1, K1[5], 43);
    CubeRoot(0x39bdc06a725c71235, K1[6], 47);
    CubeRoot(0x3c19bf174cf692694, K1[7], 53);
  }

  lemma RoundConstants2()
    ensures CubeRootsOf(K2, P2)
  {
    CubeRoot(0x3e49b69c19ef14ad2, K2[0], 59);
    CubeRoot(0x3efbe4786384f25e3, K2[1], 61);
    CubeRoot(0x40fc19dc68b8cd5b5, K2[2], 67);
    CubeRoot(0x4240ca1cc77ac9c65, K2[3], 71);
    CubeRoot(0x42de92c6f592b0275, K2[4], 73);
    CubeRoot(0x44a7484aa6ea6e483, K2[5], 79);
    CubeRoot(0x45cb0a9dcbd41fbd4, K2[6], 83);
    CubeRoot(0x476f988da831153b5, K2[7], 89);
  }

  lemma RoundConstants3()
    ensures CubeRootsOf(K3, P3)
  {
    CubeRoot(0x4983e5152ee66dfab, K3[0], 97);
    CubeRoot(0x4a831c66d2db43210, K3[1], 101);
    CubeRoot(0x4b00327c898fb213f, K3[2], 103);
    CubeRoot(0x4bf597fc7beef0ee4, K3[3], 107);
    CubeRoot(0x4c6e00bf33da88fc2, K3[4], 109);
    CubeRoot(0x4d5a79147930aa725, K3[5], 113);
    CubeRoot(0x506ca6351e003826f, K3[6], 127);
    CubeRoot(0x5142929670a0e6e70, K3[7], 131);
  }

  lemma RoundConstants4()
    ensures CubeRootsOf(K4, P4)
  {
    CubeRoot(0x527b70a8546d22ffc, K4[0], 137);
    CubeRoot(0x52e1b21385c26c926, K4[1], 139);
    CubeRoot(0x54d2c6dfc5ac42aed, K4[2], 149);
    CubeRoot(0x553380d139d95b3df, K4[3], 151);
    CubeRoot(0x5650a73548baf63de, K4[4], 157);
    CubeRoot(0x5766a0abb3c77b2a8, K4[5], 163);
    CubeRoot(0x581c2c92e47edaee6, K4[6], 167);
    CubeRoot(0x592722c851482353b, K4[7], 173);
  }

  lemma RoundConstants5()
    ensures CubeRootsOf(K5, P5)
  {
    CubeRoot(0x5a2bfe8a14cf10364, K5[0], 179);
    CubeRoot(0x5a81a664bbc423001, K5[1], 181);
    CubeRoot(0x5c24b8b70d0f89791, K5[2], 191);
    CubeRoot(0x5c76c51a30654be30, K5[3], 193);
    CubeRoot(0x5d192e819d6ef5218, K5[4], 197);
    CubeRoot(0x5d69906245565a910, K5[5], 199);
    CubeRoot(0x5f40e35855771202a, K5[6], 211);
    CubeRoot(0x6106aa07032bbd1b8, K5[7], 223);
  }

  lemma RoundConstants6()
    ensures CubeRootsOf(K6, P6)
  {
    CubeRoot(0x619a4c116b8d2d0c8, K6[0], 227);
    CubeRoot(0x61e376c085141ab53, K6[1], 229);
    CubeRoot(0x62748774cdf8eeb99, K6[2], 233);
    CubeRoot(0x634b0bcb5e19b48a8, K6[3], 239);
    CubeRoot(0x6391c0cb3c5c95a63, K6[4], 241);
    CubeRoot(0x64ed8aa4ae3418acb, K6[5], 251);
    CubeRoot(0x65b9cca4f7763e373, K6[6], 257);
    CubeRoot(0x6682e6ff3d6b2b8a3, K6[7], 263);
  }

  lemma RoundConstants7()
    ensures CubeRootsOf(K7, P7)
  {
    CubeRoot(0x6748f82ee5defb2fc, K7[0], 269);
    CubeRoot(0x678a5636f43172f60, K7[1], 271);
    CubeRoot(0x684c87814a1f0ab72, K7[2], 277);
    CubeRoot(0x68cc702081a6439ec, K7[3], 281);
    CubeRoot(0x690befffa23631e28, K7[4], 283);
    CubeRoot(0x6a4506cebde82bde9, K7[5], 293);
    CubeRoot(0x6bef9a3f7b2c67915, K7[6], 307);
    CubeRoot(0x6c67178f2e372532b, K7[7], 311);
  }

  lemma RoundConstants8()
    ensures CubeRootsOf(K8, P8)
  {
    CubeRoot(0x6ca273eceea26619c, K8[0], 313);
    CubeRoot(0x6d186b8c721c0c207, K8[1], 317);
    CubeRoot(0x6eada7dd6cde0eb1e, K8[2], 331);
    CubeRoot(0x6f57d4f7fee6ed178, K8[3], 337);
    CubeRoot(0x706f067aa72176fba, K8[4], 347);
    CubeRoot(0x70a637dc5a2c898a6, K8[5], 349);
    CubeRoot(0x7113f9804bef90dae, K8[6], 353);
    CubeRoot(0x71b710b35131c471b, K8[7], 359);
  }

  lemma RoundConstants9()
    ensures CubeRootsOf(K9, P9)
  {
    CubeRoot(0x728db77f523047d84, K9[0], 367);
    CubeRoot(0x732caab7b40c72493, K9[1], 373);
    CubeRoot(0x73c9ebe0a15c9bebc, K9[2], 379);
    CubeRoot(0x7431d67c49c100d4c, K9[3], 383);
    CubeRoot(0x74cc5d4becb3e42b6, K9[4], 389);
    CubeRoot(0x7597f299cfc657e2a, K9[5], 397);
    CubeRoot(0x75fcb6fab3ad6faec, K9[6], 401);
    CubeRoot(0x76c44198c4a475817, K9[7], 409);
  }

  /** The round constants: the cube roots of the first eighty primes. */
  lemma RoundConstants()
    ensures CubeRootsOf(K, PRIMES)
  {
    RoundConstants0();
    RoundConstants1();
    RoundConstants2();
    RoundConstants3();
    RoundConstants4();
    RoundConstants5();
    RoundConstants6();
    RoundConstants7();
    RoundConstants8();
    RoundConstants9();
    CubeRootsJoin(K8, P8, K9, P9);
    CubeRootsJoin(K7, P7, K8 + K9, P8 + P9);
    CubeRootsJoin(K6, P6, K7 + (K8 + K9), P7 + (P8 + P9));
    CubeRootsJoin(K5, P5, K6 + (K7 + (K8 + K9)), P6 + (P7 + (P8 + P9)));
    CubeRootsJoin(K4, P4, K5 + (K6 + (K7 + (K8 + K9))), P5 + (P6 + (P7 + (P8 + P9))));
    CubeRootsJoin(K3, P3, K4 + (K5 + (K6 + (K7 + (K8 + K9)))), P4 + (P5 + (P6 + (P7 + (P8 + P9)))));
    CubeRootsJoin(K2, P2, K3 + (K4 + (K5 + (K6 + (K7 + (K8 + K9))))), P3 + (P4 + (P5 + (P6 + (P7 + (P8 + P9))))));
    CubeRootsJoin(K1, P1, K2 + (K3 + (K4 + (K5 + (K6 + (K7 + (K8 + K9)))))), P2 + (P3 + (P4 + (P5 + (P6 + (P7 + (P8 + P9)))))));
    CubeRootsJoin(K0, P0, K1 + (K2 + (K3 + (K4 + (K5 + (K6 + (K7 + (K8 + K9))))))), P1 + (P2 + (P3 + (P4 + (P5 + (P6 + (P7 + (P8 + P9))))))));
  }

  // ---- the first eighty primes ----

  ghost predicate Prime(n: nat)
  {
    n >= 2 && forall d :: 2 <= d < n ==> n % d != 0
  }

  /** Divisible by no prime below 21 but itself. */
  predicate Sifted(n: nat)
  {
    n >= 2 && (n == 2 || n % 2 != 0) && (n == 3 || n % 3 != 0) && (n == 5 || n % 5 != 0) && (n == 7 || n % 7 != 0)
    && (n == 11 || n % 11 != 0) && (n == 13 || n % 13 != 0) && (n == 17 || n % 17 != 0) && (n == 19 || n % 19 != 0)
  }

  /** Below 21 * 21 that is primality. */
  lemma {:induction false} SiftedIsPrime(n: nat)
    requires n < 441
    ensures Sifted(n) <==> Prime(n)
  {
    if Prime(n) {
      PrimeIsSifted(n);
    } else if n >= 2 {
      var d :| 2 <= d < n && n % d == 0;
      FactorFound(n, d, n / d);
    }
  }

  lemma {:induction false} PrimeIsSifted(n: nat)
    requires Prime(n)
    ensures Sifted(n)
  {
    assert forall d :: 2 <= d < n ==> n % d != 0;
    assert n > 2 ==> n % 2 != 0;
    assert n > 3 ==> n % 3 != 0;
    assert n > 5 ==> n % 5 != 0;
    assert n > 7 ==> n % 7 != 0;
  }

  lemma {:induction false} FactorFound(n: nat, d: nat, e: nat)
    requires n < 441 && 2 <= d < n && n == d * e
    ensures !Sifted(n)
  {
    SecondFactor(d, e);
    if d < 21 {
      SmallFactor(n, d, e);
    } else {
      assert n == e * d;
      SmallFactor(n, e, d);
    }
  }

  lemma SecondFactor(d: nat, e: nat)
    requires d < d * e < 441
    ensures e >= 2 && (d >= 21 ==> e < 21)
  {
    if d >= 21 && e >= 21 { MulMono(d, 21, e); }
  }

  lemma {:induction false} SmallFactor(n: nat, d: nat, e: nat)
    requires 2 <= d < 21 && 2 <= e && n == d * e
    ensures !Sifted(n)
  {
    var q := if d % 2 == 0 then 2 else if d % 3 == 0 then 3 else if d % 5 == 0 then 5 else d;
    assert q in {2, 3, 5, 7, 11, 13, 17, 19} && d % q == 0;
    Divides(n, d, e, q);
  }

  lemma {:induction false} Divides(n: nat, d: nat, e: nat, q: nat)
    requires q > 0 && d % q == 0 && d > 0 && e >= 2 && n == d * e
    ensures n % q == 0 && n > q
  {
    var m := d / q;
    assert d == q * m && m >= 1;
    assert n == (m * e) * q by { assert q * m * e == (m * e) * q; }
    assert m * e >= e >= 2;
    assert (m * e) * q >= 2 * q;
    ModUnique(n, 0, -(m * e), q);
  }

  /** b is the next prime behind a. */
  ghost predicate NextPrime(a: nat, b: nat)
  {
    a < b && Prime(b) && forall n :: a < n < b ==> !Prime(n)
  }

  /** None of the k numbers from a on is sifted. */
  predicate NoneSifted(a: nat, k: nat)
    decreases k, a
  {
    k == 0 || (!Sifted(a) && NoneSifted(a + 1, k - 1))
  }

  lemma {:induction false} NoneBetween(a: nat, k: nat, n: nat)
    requires NoneSifted(a, k) && a <= n < a + k
    ensures !Sifted(n)
    decreases k
  {
    if a < n { NoneBetween(a + 1, k - 1, n); }
  }

  lemma {:induction false} Next(a: nat, k: nat)
    requires 0 < a && a + k < 441 && NoneSifted(a, k) && Sifted(a + k)
    ensures NextPrime(a - 1, a + k)
  {
    SiftedIsPrime(a + k);
    forall n | a <= n < a + k ensures !Prime(n) {
      NoneBetween(a, k, n);
      SiftedIsPrime(n);
    }
  }

  /** The primes that follow a, in order and without a gap. */
  ghost predicate PrimesAfter(a: nat, p: seq<nat>)
  {
    (|p| > 0 ==> NextPrime(a, p[0])) && forall t :: 0 < t < |p| ==> NextPrime(p[t - 1], p[t])
  }

  lemma {:induction false} PrimesJoin(a: nat, p: seq<nat>, p': seq<nat>)
    requires |p| == 8 && PrimesAfter(a, p) && PrimesAfter(p[7], p')
    ensures PrimesAfter(a, p + p')
  {
    var s := p + p';
    forall t | 0 < t < |s| ensures NextPrime(s[t - 1], s[t]) {
      if t >= 8 { assert s[t] == p'[t - 8]; }
      if t > 8 { assert s[t - 1] == p'[(t - 8) - 1]; }
    }
  }

  lemma Primes0()
    ensures PrimesAfter(0, P0)
  {
    Next(1, 1);
    Next(3, 0);
    Next(4, 1);
    Next(6, 1);
    Next(8, 3);
    Next(12, 1);
    Next(14, 3);
    Next(18, 1);
  }

  lemma Primes1()
    ensures PrimesAfter(19, P1)
  {
    Next(20, 3);
    Next(24, 5);
    Next(30, 1);
    Next(32, 5);
    Next(38, 3);
    Next(42, 1);
    Next(44, 3);
    Next(48, 5);
  }

  lemma Primes2()
    ensures PrimesAfter(53, P2)
  {
    Next(54, 5);
    Next(60, 1);
    Next(62, 5);
    Next(68, 3);
    Next(72, 1);
    Next(74, 5);
    Next(80, 3);
    Next(84, 5);
  }

  lemma Primes3()
    ensures PrimesAfter(89, P3)
  {
    Next(90, 7);
    Next(98, 3);
    Next(102, 1);
    Next(104, 3);
    Next(108, 1);
    Next(110, 3);
    Next(114, 13);
    Next(128, 3);
  }

  lemma Primes4()
    ensures PrimesAfter(131, P4)
  {
    Next(132, 5);
    Next(138, 1);
    Next(140, 9);
    Next(150, 1);
    Next(152, 5);
    Next(158, 5);
    Next(164, 3);
    Next(168, 5);
  }

  lemma Primes5()
    ensures PrimesAfter(173, P5)
  {
    Next(174, 5);
    Next(180, 1);
    Next(182, 9);
    Next(192, 1);
    Next(194, 3);
    Next(198, 1);
    Next(200, 11);
    Next(212, 11);
  }

  lemma Primes6()
    ensures PrimesAfter(223, P6)
  {
    Next(224, 3);
    Next(228, 1);
    Next(230, 3);
    Next(234, 5);
    Next(240, 1);
    Next(242, 9);
    Next(252, 5);
    Next(258, 5);
  }

  lemma Primes7()
    ensures PrimesAfter(263, P7)
  {
    Next(264, 5);
    Next(270, 1);
    Next(272, 5);
    Next(278, 3);
    Next(282, 1);
    Next(284, 9);
    Next(294, 13);
    Next(308, 3);
  }

  lemma Primes8()
    ensures PrimesAfter(311, P8)
  {
    Next(312, 1);
    Next(314, 3);
    Next(318, 13);
    Next(332, 5);
    Next(338, 9);
    Next(348, 1);
    Next(350, 3);
    Next(354, 5);
  }

  lemma Primes9()
    ensures PrimesAfter(359, P9)
  {
    Next(360, 7);
    Next(368, 5);
    Next(374, 5);
    Next(380, 3);
    Next(384, 5);
    Next(390, 7);
    Next(398, 3);
    Next(402, 7);
  }

  /** The first eighty primes: none is missing. */
  lemma FirstPrimes()
    ensures |PRIMES| == 80 && PrimesAfter(0, PRIMES)
  {
    Primes0();
    Primes1();
    Primes2();
    Primes3();
    Primes4();
    Primes5();
    Primes6();
    Primes7();
    Primes8();
    Primes9();
    PrimesJoin(311, P8, P9);
    PrimesJoin(263, P7, P8 + P9);
    PrimesJoin(223, P6, P7 + (P8 + P9));
    PrimesJoin(173, P5, P6 + (P7 + (P8 + P9)));
    PrimesJoin(131, P4, P5 + (P6 + (P7 + (P8 + P9))));
    PrimesJoin(89, P3, P4 + (P5 + (P6 + (P7 + (P8 + P9)))));
    PrimesJoin(53, P2, P3 + (P4 + (P5 + (P6 + (P7 + (P8 + P9))))));
    PrimesJoin(19, P1, P2 + (P3 + (P4 + (P5 + (P6 + (P7 + (P8 + P9)))))));
    PrimesJoin(0, P0, P1 + (P2 + (P3 + (P4 + (P5 + (P6 + (P7 + (P8 + P9))))))));
  }
}
