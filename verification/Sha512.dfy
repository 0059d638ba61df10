/** SHA-512 as monocypher-ed25519.c computes it: a 16-word rolling message schedule and a
    word- and block-aligned streaming buffer, against the definitions of FIPS 180-4. */
module Sha512Spec {
  import opened Words

  datatype State = State(a: u64, b: u64, c: u64, d: u64, e: u64, f: u64, g: u64, h: u64)

  const M64: nat := 0x1_0000_0000_0000_0000

  const K: seq<u64> := K0 + (K1 + (K2 + (K3 + (K4 + (K5 + (K6 + (K7 + (K8 + K9))))))))

  const K0: seq<u64> := [0x428a2f98d728ae22, 0x7137449123ef65cd, 0xb5c0fbcfec4d3b2f, 0xe9b5dba58189dbbc,
                         0x3956c25bf348b538, 0x59f111f1b605d019, 0x923f82a4af194f9b, 0xab1c5ed5da6d8118]
  const K1: seq<u64> := [0xd807aa98a3030242, 0x12835b0145706fbe, 0x243185be4ee4b28c, 0x550c7dc3d5ffb4e2,
                         0x72be5d74f27b896f, 0x80deb1fe3b1696b1, 0x9bdc06a725c71235, 0xc19bf174cf692694]
  const K2: seq<u64> := [0xe49b69c19ef14ad2, 0xefbe4786384f25e3, 0x0fc19dc68b8cd5b5, 0x240ca1cc77ac9c65,
                         0x2de92c6f592b0275, 0x4a7484aa6ea6e483, 0x5cb0a9dcbd41fbd4, 0x76f988da831153b5]
  const K3: seq<u64> := [0x983e5152ee66dfab, 0xa831c66d2db43210, 0xb00327c898fb213f, 0xbf597fc7beef0ee4,
                         0xc6e00bf33da88fc2, 0xd5a79147930aa725, 0x06ca6351e003826f, 0x142929670a0e6e70]
  const K4: seq<u64> := [0x27b70a8546d22ffc, 0x2e1b21385c26c926, 0x4d2c6dfc5ac42aed, 0x53380d139d95b3df,
                         0x650a73548baf63de, 0x766a0abb3c77b2a8, 0x81c2c92e47edaee6, 0x92722c851482353b]
  const K5: seq<u64> := [0xa2bfe8a14cf10364, 0xa81a664bbc423001, 0xc24b8b70d0f89791, 0xc76c51a30654be30,
                         0xd192e819d6ef5218, 0xd69906245565a910, 0xf40e35855771202a, 0x106aa07032bbd1b8]
  const K6: seq<u64> := [0x19a4c116b8d2d0c8, 0x1e376c085141ab53, 0x2748774cdf8eeb99, 0x34b0bcb5e19b48a8,
                         0x391c0cb3c5c95a63, 0x4ed8aa4ae3418acb, 0x5b9cca4f7763e373, 0x682e6ff3d6b2b8a3]
  const K7: seq<u64> := [0x748f82ee5defb2fc, 0x78a5636f43172f60, 0x84c87814a1f0ab72, 0x8cc702081a6439ec,
                         0x90befffa23631e28, 0xa4506cebde82bde9, 0xbef9a3f7b2c67915, 0xc67178f2e372532b]
  const K8: seq<u64> := [0xca273eceea26619c, 0xd186b8c721c0c207, 0xeada7dd6cde0eb1e, 0xf57d4f7fee6ed178,
                         0x06f067aa72176fba, 0x0a637dc5a2c898a6, 0x113f9804bef90dae, 0x1b710b35131c471b]
  const K9: seq<u64> := [0x28db77f523047d84, 0x32caab7b40c72493, 0x3c9ebe0a15c9bebc, 0x431d67c49c100d4c,
                         0x4cc5d4becb3e42b6, 0x597f299cfc657e2a, 0x5fcb6fab3ad6faec, 0x6c44198c4a475817]

  const IV: State := State(0x6a09e667f3bcc908, 0xbb67ae8584caa73b, 0x3c6ef372fe94f82b, 0xa54ff53a5f1d36f1,
                           0x510e527fade682d1, 0x9b05688c2b3e6c1f, 0x1f83d9abfb41bd6b, 0x5be0cd19137e2179)

  // ---- section 4.1.3 of FIPS 180-4, on naturals ----

  /** Rotation of a 64-bit word to the right, one place at a time. */
  function Rot(x: nat, c: nat): nat
    decreases c, x
  {
    if c == 0 then x else Rot(x / 2 + (x % 2) * 0x8000_0000_0000_0000, c - 1)
  }

  function Not(x: u64): u64 { M64 - 1 - x }
  function Ch(x: u64, y: u64, z: u64): nat { Xor(And(x, y), And(Not(x), z)) }
  function Maj(x: u64, y: u64, z: u64): nat { Xor(Xor(And(x, y), And(x, z)), And(y, z)) }
  function BigSigma0(x: u64): nat { Xor(Xor(Rot(x, 28), Rot(x, 34)), Rot(x, 39)) }
  function BigSigma1(x: u64): nat { Xor(Xor(Rot(x, 14), Rot(x, 18)), Rot(x, 41)) }
  function LitSigma0(x: u64): nat { Xor(Xor(Rot(x, 1), Rot(x, 8)), x / 0x80) }
  function LitSigma1(x: u64): nat { Xor(Xor(Rot(x, 19), Rot(x, 61)), x / 0x40) }

  // ---- section 6.4.2: schedule, rounds, compression of one block ----

  function Sched(block: seq<u64>, t: nat): u64
    requires |block| == 16
    decreases t, block
  {
    if t < 16 then block[t]
    else (LitSigma1(Sched(block, t - 2)) + Sched(block, t - 7) + LitSigma0(Sched(block, t - 15)) + Sched(block, t - 16)) % M64
  }

  function Round(s: State, k: u64, w: u64): State
  {
    var t1 := s.h + BigSigma1(s.e) + Ch(s.e, s.f, s.g) + k + w;
    var t2 := BigSigma0(s.a) + Maj(s.a, s.b, s.c);
    State((t1 + t2) % M64, s.a, s.b, s.c, (s.d + t1) % M64, s.e, s.f, s.g)
  }

  function Rounds(s: State, block: seq<u64>, t: nat): State
    requires |block| == 16 && t <= 80
    decreases t, block
  {
    if t == 0 then s else Round(Rounds(s, block, t - 1), K[t - 1], Sched(block, t - 1))
  }

  function Plus(h: State, s: State): State
  {
    State((h.a + s.a) % M64, (h.b + s.b) % M64, (h.c + s.c) % M64, (h.d + s.d) % M64,
          (h.e + s.e) % M64, (h.f + s.f) % M64, (h.g + s.g) % M64, (h.h + s.h) % M64)
  }

  function Compress(h: State, block: seq<u64>): State
    requires |block| == 16
  {
    Plus(h, Rounds(h, block, 80))
  }

  // ---- sections 5.1.2 and 5.2.2: padding and parsing ----

  /** The number a big-endian byte string stands for. */
  function Be(s: seq<u8>): nat
  {
    if s == [] then 0 else Be(s[..|s| - 1]) * 0x100 + s[|s| - 1]
  }

  lemma {:induction false} BeBound(s: seq<u8>)
    ensures Be(s) < Pow(0x100, |s|)
  {
    if s != [] { BeBound(s[..|s| - 1]); }
  }

  lemma Pow8()
    ensures Pow(0x100, 8) == M64
  {
    assert Pow(0x100, 2) == 0x100 * Pow(0x100, 1) == 0x100 * (0x100 * Pow(0x100, 0));
    PowAdd(0x100, 2, 2);
    PowAdd(0x100, 4, 4);
  }

  /** load64_be */
  function BeWord(b: seq<u8>): u64
    requires |b| == 8
  {
    BeBound(b);
    Pow8();
    Be(b)
  }

  function WordsOf(s: seq<u8>, n: nat): (w: seq<u64>)
    requires |s| == 8 * n
    ensures |w| == n && forall k :: 0 <= k < n ==> w[k] == BeWord(s[8 * k..8 * k + 8])
  {
    seq(n, k requires 0 <= k < n => BeWord(s[8 * k..8 * k + 8]))
  }

  /** The last n bytes of x, most significant first. */
  function BeBytes(x: nat, n: nat): (b: seq<u8>)
    ensures |b| == n
    decreases n, x
  {
    if n == 0 then [] else BeBytes(x / 0x100, n - 1) + [x % 0x100]
  }

  lemma {:induction false} BeRoundTrip(x: nat, n: nat)
    requires x < Pow(0x100, n)
    ensures Be(BeBytes(x, n)) == x
  {
    if n > 0 {
      BeRoundTrip(x / 0x100, n - 1);
      assert BeBytes(x, n)[..n - 1] == BeBytes(x / 0x100, n - 1);
    }
  }

  /** The two words of the 128-bit message length in bits. */
  function LenHi(n: nat): u64 { 8 * n / M64 % M64 }
  function LenLo(n: nat): u64 { 8 * n % M64 }

  /** Zeros that bring n + 1 bytes to 112 modulo 128. */
  function PadZeros(n: nat): (z: nat)
    ensures z < 128 && (n + 1 + z + 16) % 128 == 0
  {
    var q, z := (111 - n) / 128, (111 - n) % 128;
    assert n + 1 + z + 16 == 128 * (1 - q);
    DivModUnique(n + 1 + z + 16, 1 - q, 0, 128);
    z
  }

  /** The message, one bit, zeros up to 112 bytes in the last block, and the length. */
  function Pad(m: seq<u8>): (p: seq<u8>)
    ensures |p| % 128 == 0
  {
    m + [0x80] + Zeros(PadZeros(|m|)) + BeBytes(LenHi(|m|), 8) + BeBytes(LenLo(|m|), 8)
  }

  /** Section 6.4: one compression per block, for a given compression function. */
  function HashBlocks(f: (State, seq<u64>) -> State, h: State, s: seq<u8>): State
    requires |s| % 128 == 0
    decreases |s|
  {
    if s == [] then h else HashBlocks(f, f(h, WordsOf(s[..128], 16)), s[128..])
  }

  function OutputBytes(h: State): (o: seq<u8>)
    ensures |o| == 64
  {
    BeBytes(h.a, 8) + BeBytes(h.b, 8) + BeBytes(h.c, 8) + BeBytes(h.d, 8) + BeBytes(h.e, 8) + BeBytes(h.f, 8) + BeBytes(h.g, 8) + BeBytes(h.h, 8)
  }

  /** The hash of a whole message, for a given compression function. */
  function DigestWith(f: (State, seq<u64>) -> State, m: seq<u8>): (d: seq<u8>)
    ensures |d| == 64
  {
    OutputBytes(HashBlocks(f, IV, Pad(m)))
  }

  const COMPRESSION: (State, seq<u64>) -> State := (h, b) => if |b| == 16 then Compress(h, b) else h

  /** SHA-512 of a whole message. */
  function Digest(m: seq<u8>): (d: seq<u8>)
    ensures |d| == 64
  {
    DigestWith(COMPRESSION, m)
  }

  /** f is the compression function of SHA-512. The defining equation is used only where asked for. */
  ghost predicate AskC(h: State, block: seq<u64>) { true }
  ghost predicate IsSha512(f: (State, seq<u64>) -> State)
  {
    forall h: State, block: seq<u64> {:trigger AskC(h, block)} :: |block| == 16 ==> f(h, block) == Compress(h, block)
  }
}

module Sha512 {
  import opened Words
  import opened Bits
  import opened Bitwise
  import opened Sha512Spec

  // ---- rotation ----

  lemma RotStep(x: nat, b: nat, m: nat, p: nat, h: nat)
    requires m > 0 && h == p * m
    ensures (x + b * h) / m == x / m + b * p && (x + b * h) % m == x % m
  {
    assert b * h == (b * p) * m by { MulAssoc(b, p, m); }
    DivModUnique(x + b * h, x / m + b * p, x % m, m);
  }

  lemma {:induction false} RotSum(x: nat, c: nat)
    requires c <= 64
    ensures Pow(2, c) > 0 && Rot(x, c) == x / Pow(2, c) + (x % Pow(2, c)) * Pow(2, 64 - c)
    decreases c
  {
    PowPos(2, c);
    if c > 0 {
      var y := x / 2 + (x % 2) * 0x8000_0000_0000_0000;
      RotSum(y, c - 1);
      Pow2Sum(c - 1);
      PowPos(2, c - 1);
      RotHalf(x, y, Pow(2, c - 1), Pow(2, 64 - c));
    }
  }

  /** One place of a rotation: what the parts of x at 2m are in terms of those of its rotation y at m. */
  lemma RotHalf(x: nat, y: nat, m: nat, p: nat)
    requires m > 0 && p * m == 0x8000_0000_0000_0000 && y == x / 2 + (x % 2) * 0x8000_0000_0000_0000
    ensures y / m + (y % m) * (2 * p) == x / (2 * m) + (x % (2 * m)) * p
  {
    var b, r := x % 2, x / 2 % m;
    RotStep(x / 2, b, m, p, 0x8000_0000_0000_0000);
    assert x / (2 * m) == x / 2 / m by { DivDiv(x, 2, m); }
    assert x % (2 * m) == 2 * r + b by { HalfMod(x, m); }
    RotRecombine(r, b, p);
  }

  lemma RotRecombine(r: nat, b: nat, p: nat)
    ensures b * p + r * (2 * p) == (2 * r + b) * p
  {}

  lemma Pow2Sum(k: nat)
    requires k <= 63
    ensures Pow(2, 63 - k) * Pow(2, k) == 0x8000_0000_0000_0000 && Pow(2, 64 - k) == 2 * Pow(2, 63 - k)
  {
    PowAdd(2, 63 - k, k);
    PowAdd(2, 32, 31);
    PowAdd(2, 24, 7);
    Powers2();
  }

  /** rot as the source writes it: (x >> c) | (x << (64 - c)) in 64 bits. */
  lemma {:induction false} RotIsShifts(x: u64, c: nat)
    requires 0 < c < 64
    ensures Pow(2, c) > 0 && Rot(x, c) == Or(x / Pow(2, c), x * Pow(2, 64 - c) % M64)
  {
    RotSum(x, c);
    SplitWord(c);
    RotParts(x, Pow(2, c), Pow(2, 64 - c), 64 - c);
  }

  lemma SplitWord(c: nat)
    requires 0 < c < 64
    ensures Pow(2, 64 - c) * Pow(2, c) == M64 && Pow(2, c) > 0 && Pow(2, 64 - c) > 0
  {
    PowPos(2, c);
    PowPos(2, 64 - c);
    PowAdd(2, 64 - c, c);
    Pow2Sum(0);
  }

  lemma {:induction false} RotParts(x: u64, m: nat, p: nat, n: nat)
    requires m > 0 && p == Pow(2, n) && p > 0 && p * m == M64
    ensures Or(x / m, x * p % M64) == x / m + (x % m) * p
  {
    ShiftLeft(x, m, p);
    QuotientBelow(x, m, p);
    OrDisjoint(x / m, x % m, n);
  }

  lemma QuotientBelow(x: nat, m: nat, p: nat)
    requires m > 0 && x < p * m
    ensures x / m < p
  {
    if x / m >= p { MulMono(p, x / m, m); }
  }

  lemma ShiftLeft(x: nat, m: nat, p: nat)
    requires m > 0 && p > 0 && p * m == M64
    ensures x * p % M64 == (x % m) * p
  {
    var q, r := x / m, x % m;
    assert x * p == r * p + M64 * q by {
      assert x == m * q + r;
      assert (m * q) * p == (p * m) * q by { MulAssoc(p, m, q); }
    }
    assert r * p <= (m - 1) * p by { MulMono(r, m - 1, p); }
    assert 0 <= r * p by { MulMono(0, r, p); }
    DivModUnique(x * p, q, r * p, M64);
  }

  lemma {:induction false} HashConcat(f: (State, seq<u64>) -> State, h: State, a: seq<u8>, b: seq<u8>)
    requires |a| % 128 == 0 && |b| % 128 == 0
    ensures HashBlocks(f, h, a + b) == HashBlocks(f, HashBlocks(f, h, a), b)
    decreases |a|
  {
    if a == [] {
      assert a + b == b;
    } else {
      assert (a + b)[..128] == a[..128] && (a + b)[128..] == a[128..] + b;
      HashConcat(f, f(h, WordsOf(a[..128], 16)), a[128..], b);
    }
  }

  lemma {:induction false} HashOne(f: (State, seq<u64>) -> State, h: State, b: seq<u8>)
    requires |b| == 128
    ensures HashBlocks(f, h, b) == f(h, WordsOf(b, 16))
  {
    assert b[..128] == b && b[128..] == [];
  }

  lemma WrapAdd(x: nat, y: nat)
    ensures (x % M64 + y) % M64 == (x + y) % M64
  {}

  /** One round of sha512_compress, every addition wrapping at 64 bits. */
  method RoundStep(s: State, k: u64, w: u64) returns (r: State)
    ensures r == Round(s, k, w)
  {
    var x, y := RoundSums(BigSigma1(s.e), Ch(s.e, s.f, s.g), s.h, k, w, BigSigma0(s.a), Maj(s.a, s.b, s.c), s.d);
    r := State(x, s.a, s.b, s.c, y, s.e, s.f, s.g);
  }

  /** The two sums of a round, wrapping at every addition. */
  method RoundSums(sigma1: nat, ch: nat, h: u64, k: u64, w: u64, sigma0: nat, maj: nat, d: u64) returns (x: u64, y: u64)
    ensures x == ((h + sigma1 + ch + k + w) + (sigma0 + maj)) % M64
    ensures y == (d + (h + sigma1 + ch + k + w)) % M64
  {
    var t1: u64 := (((sigma1 + ch) % M64 + h) % M64 + (k + w) % M64) % M64;
    var t2: u64 := (sigma0 + maj) % M64;
    x := (t1 + t2) % M64;
    y := (d + t1) % M64;
    WrapRound(sigma1, ch, h, k, w, sigma0 + maj, d);
  }

  lemma {:induction false} WrapRound(a: nat, b: nat, c: nat, k: nat, w: nat, e: nat, d: nat)
    ensures var t1 := (((a + b) % M64 + c) % M64 + (k + w) % M64) % M64;
            && (t1 + e % M64) % M64 == ((c + a + b + k + w) + e) % M64
            && (d + t1) % M64 == (d + (c + a + b + k + w)) % M64
  {
    WrapAdd(a + b, c);
    WrapAdd(a + b + c, (k + w) % M64);
    WrapAdd(k + w, a + b + c);
    WrapAdd(c + a + b + k + w, e % M64);
    WrapAdd(e, c + a + b + k + w);
    WrapAdd(c + a + b + k + w, d);
  }

  lemma WrapSum(a: nat, b: nat, c: nat, d: nat)
    ensures (((d + a) % M64 + c) % M64 + b) % M64 == (a + b + c + d) % M64
  {
    WrapAdd(d + a, c);
    WrapAdd(d + a + c, b);
  }

  /** The rolling schedule: before round 16 i + j, slots below j hold this pass's words
      and the others those of the pass before. */
  ghost predicate Rolling(input: seq<u64>, block: seq<u64>, i: nat, j: nat)
  {
    && |input| == 16 && |block| == 16 && j <= 16 && 1 <= i
    && forall k :: 0 <= k < 16 ==> input[k] == Sched(block, if k < j then 16 * i + k else 16 * (i - 1) + k)
  }

  /** sha512_compress; the input buffer is left holding the last sixteen schedule words. */
  method CompressInPlace(h: State, input: array<u64>) returns (r: State)
    requires input.Length == 16
    modifies input
    ensures r == Compress(h, old(input[..]))
  {
    ghost var block := input[..];
    var s := FirstPass(h, input);
    for i := 1 to 5
      invariant s == Rounds(h, block, 16 * i) && Rolling(input[..], block, i, 0)
    {
      s := Pass(h, s, input, block, i);
    }
    r := Plus(h, s);
  }

  /** Rounds 0 to 15, on the block itself. */
  method FirstPass(h: State, input: array<u64>) returns (s: State)
    requires input.Length == 16
    ensures s == Rounds(h, input[..], 16) && Rolling(input[..], input[..], 1, 0)
  {
    s := h;
    ghost var block := input[..];
    for j := 0 to 16
      invariant s == Rounds(h, block, j)
    {
      FirstRounds(h, block, j);
      s := RoundStep(s, K[j], input[j]);
    }
    StartRolling(block);
  }

  lemma {:induction false} FirstRounds(h: State, block: seq<u64>, j: nat)
    requires |block| == 16 && j < 16
    ensures Rounds(h, block, j + 1) == Round(Rounds(h, block, j), K[j], block[j])
  {}

  lemma StartRolling(block: seq<u64>)
    requires |block| == 16
    ensures Rolling(block, block, 1, 0)
  {}

  /** Rounds 16 i to 16 i + 15, extending the schedule in place. */
  method Pass(ghost h: State, s0: State, input: array<u64>, ghost block: seq<u64>, i: nat) returns (s: State)
    requires input.Length == 16 && 1 <= i < 5 && |block| == 16
    requires s0 == Rounds(h, block, 16 * i) && Rolling(input[..], block, i, 0)
    modifies input
    ensures s == Rounds(h, block, 16 * (i + 1)) && Rolling(input[..], block, i + 1, 0)
  {
    s := s0;
    for j := 0 to 16
      invariant s == Rounds(h, block, 16 * i + j) && Rolling(input[..], block, i, j)
    {
      s := ScheduledRound(h, s, input, block, i, j);
    }
    NextPass(input[..], block, i);
  }

  /** One round of a later pass: the next schedule word, then the round. */
  method ScheduledRound(ghost h: State, s0: State, input: array<u64>, ghost block: seq<u64>, i: nat, j: nat) returns (s: State)
    requires input.Length == 16 && 1 <= i < 5 && j < 16 && |block| == 16
    requires s0 == Rounds(h, block, 16 * i + j) && Rolling(input[..], block, i, j)
    modifies input
    ensures s == Rounds(h, block, 16 * i + j + 1) && Rolling(input[..], block, i, j + 1)
  {
    Schedule(input, block, i, j);
    assert input[..][j] == Sched(block, 16 * i + j);
    s := RoundStep(s0, K[16 * i + j], input[j]);
  }

  lemma NextPass(input: seq<u64>, block: seq<u64>, i: nat)
    requires Rolling(input, block, i, 16)
    ensures Rolling(input, block, i + 1, 0)
  {}

  /** (j - d) & 15 */
  function Back(j: nat, d: nat): (k: nat)
    requires j < 16 && d < 16
    ensures k < 16
  {
    if d <= j then j - d else j + 16 - d
  }

  /** The slot d places back holds the schedule word d rounds back. */
  lemma {:induction false} Slot(input: seq<u64>, block: seq<u64>, i: nat, j: nat, d: nat)
    requires j < 16 && 1 <= d < 16 && Rolling(input, block, i, j)
    ensures input[Back(j, d)] == Sched(block, 16 * i + j - d)
  {}

  lemma {:induction false} Rolled(input: seq<u64>, block: seq<u64>, i: nat, j: nat, w: u64)
    requires j < 16 && Rolling(input, block, i, j) && w == Sched(block, 16 * i + j)
    ensures Rolling(input[j := w], block, i, j + 1)
  {}

  /** The three in-place additions that turn slot j into the next schedule word. */
  method Schedule(input: array<u64>, ghost block: seq<u64>, i: nat, j: nat)
    requires input.Length == 16 && j < 16 && Rolling(input[..], block, i, j)
    modifies input
    ensures Rolling(input[..], block, i, j + 1)
  {
    ghost var before := input[..];
    NextWord(before, block, i, j);
    input[j] := (input[j] + LitSigma1(input[Back(j, 2)])) % M64;
    input[j] := (input[j] + LitSigma0(input[Back(j, 15)])) % M64;
    input[j] := (input[j] + input[Back(j, 7)]) % M64;
    assert input[..] == before[j := input[j]];
    Rolled(before, block, i, j, input[j]);
  }

  lemma {:induction false} NextWord(input: seq<u64>, block: seq<u64>, i: nat, j: nat)
    requires j < 16 && Rolling(input, block, i, j)
    ensures (((input[j] + LitSigma1(input[Back(j, 2)])) % M64 + LitSigma0(input[Back(j, 15)])) % M64
             + input[Back(j, 7)]) % M64 == Sched(block, 16 * i + j)
  {
    assert input[j] == Sched(block, 16 * i + j - 16);
    Slot(input, block, i, j, 2);
    Slot(input, block, i, j, 15);
    Slot(input, block, i, j, 7);
    SchedOrder(block, 16 * i + j, input[Back(j, 2)], input[Back(j, 7)], input[Back(j, 15)], input[j]);
  }

  lemma SchedOrder(block: seq<u64>, t: nat, x2: u64, x7: u64, x15: u64, x16: u64)
    requires |block| == 16 && t >= 16
    requires x2 == Sched(block, t - 2) && x7 == Sched(block, t - 7) && x15 == Sched(block, t - 15) && x16 == Sched(block, t - 16)
    ensures (((x16 + LitSigma1(x2)) % M64 + LitSigma0(x15)) % M64 + x7) % M64 == Sched(block, t)
  {
    WrapSum(LitSigma1(x2), x7, LitSigma0(x15), x16);
  }

  // ---- the streaming buffer ----

  const M128: nat := 0x1_0000_0000_0000_0000_0000_0000_0000_0000

  /** w | (b << 8k), where byte k of w is zero. */
  function OrByte(w: u64, b: u8, k: nat): (r: nat)
    requires Pow(0x100, k) > 0 && w / Pow(0x100, k) % 0x100 == 0
    ensures r == w + b * Pow(0x100, k)
  {
    PowEight(k);
    OrInto(w, b, 8 * k);
    Or(w, b * Pow(2, 8 * k))
  }

  lemma {:induction false} PutByte(s: seq<u8>, j: nat, b: u8)
    requires j < |s| && s[j] == 0
    ensures Be(s[j := b]) == Be(s) + b * Pow(0x100, |s| - 1 - j)
    ensures Pow(0x100, |s| - 1 - j) > 0 && Be(s) / Pow(0x100, |s| - 1 - j) % 0x100 == 0
  {
    PutByteValue(s, j, b);
    ZeroByteAt(s, j);
  }

  lemma {:induction false} PutByteValue(s: seq<u8>, j: nat, b: u8)
    requires j < |s| && s[j] == 0
    ensures Be(s[j := b]) == Be(s) + b * Pow(0x100, |s| - 1 - j)
  {
    var n := |s| - 1;
    if j == n {
      assert s[j := b][..n] == s[..n];
    } else {
      PutByteValue(s[..n], j, b);
      assert s[j := b][..n] == s[..n][j := b];
      ShiftByte(Be(s[..n]), b, Pow(0x100, n - 1 - j), s[n]);
    }
  }

  lemma {:induction false} ZeroByteAt(s: seq<u8>, j: nat)
    requires j < |s| && s[j] == 0
    ensures Pow(0x100, |s| - 1 - j) > 0 && Be(s) / Pow(0x100, |s| - 1 - j) % 0x100 == 0
  {
    var n := |s| - 1;
    var x, y: nat := Be(s[..n]), s[n];
    if j < n {
      ZeroByteAt(s[..n], j);
      var p, q := Pow(0x100, n - 1 - j), Pow(0x100, n - j);
      assert q == 0x100 * p;
      OneByteOn(x, y, p);
    } else {
      assert Pow(0x100, 0) == 1;
      DivModUnique(x * 0x100, x, 0, 0x100);
    }
  }

  lemma OneByteOn(x: nat, y: u8, p: nat)
    requires p > 0
    ensures (x * 0x100 + y) / (0x100 * p) == x / p
  {
    DivModUnique(x * 0x100 + y, x, y, 0x100);
    DivDiv(x * 0x100 + y, 0x100, p);
  }

  lemma ShiftByte(x: int, b: int, p: int, y: int)
    ensures (x + b * p) * 0x100 + y == (x * 0x100 + y) + b * (0x100 * p)
  {}

  /** The sixteen words of a partly filled block. */
  ghost function Filled(t: seq<u8>): (w: seq<u64>)
    requires |t| <= 128
    ensures |w| == 16
  {
    WordsOf(t + Zeros(128 - |t|), 16)
  }

  lemma {:induction false} FilledSnoc(t: seq<u8>, b: u8, k: nat, j: nat)
    requires |t| < 128 && |t| == 8 * k + j && j < 8
    ensures Pow(0x100, 7 - j) > 0 && Filled(t)[k] / Pow(0x100, 7 - j) % 0x100 == 0
    ensures Filled(t + [b])[k] == Filled(t)[k] + b * Pow(0x100, 7 - j)
    ensures forall i :: 0 <= i < 16 && i != k ==> Filled(t + [b])[i] == Filled(t)[i]
  {
    var u, v := t + Zeros(128 - |t|), (t + [b]) + Zeros(127 - |t|);
    assert v == u[8 * k + j := b];
    SplicedWords(u, v, k, j, b);
  }

  lemma {:induction false} SplicedWords(u: seq<u8>, v: seq<u8>, k: nat, j: nat, b: u8)
    requires |u| == 128 && k < 16 && j < 8 && u[8 * k + j] == 0 && v == u[8 * k + j := b]
    ensures Pow(0x100, 7 - j) > 0 && WordsOf(u, 16)[k] / Pow(0x100, 7 - j) % 0x100 == 0
    ensures WordsOf(v, 16)[k] == WordsOf(u, 16)[k] + b * Pow(0x100, 7 - j)
    ensures forall i :: 0 <= i < 16 && i != k ==> WordsOf(v, 16)[i] == WordsOf(u, 16)[i]
  {
    PutByte(u[8 * k..8 * k + 8], j, b);
    assert v[8 * k..8 * k + 8] == u[8 * k..8 * k + 8][j := b];
    forall i | 0 <= i < 16 && i != k
      ensures v[8 * i..8 * i + 8] == u[8 * i..8 * i + 8]
    {}
  }

  lemma {:induction false} FilledWord(t: seq<u8>, b: seq<u8>)
    requires |t| % 8 == 0 && |t| <= 120 && |b| == 8
    ensures Filled(t + b) == Filled(t)[|t| / 8 := BeWord(b)]
  {
    var k := |t| / 8;
    var u, v := t + Zeros(128 - |t|), (t + b) + Zeros(120 - |t|);
    assert v[8 * k..8 * k + 8] == b;
    forall i | 0 <= i < 16 && i != k
      ensures Filled(t + b)[i] == Filled(t)[i]
    {
      assert v[8 * i..8 * i + 8] == u[8 * i..8 * i + 8];
    }
  }

  /** (~x + 1) & (p - 1): how far x is from the next multiple of p. */
  function Align(x: nat, p: nat): nat
    requires p > 0
  {
    (0 - x) % p
  }

  lemma AlignGap(x: nat)
    requires 0 < x < 128
    ensures Align(x, 128) == 128 - x
  {}

  lemma NextEight(t: seq<u8>, message: seq<u8>, i: nat)
    requires 8 * i + 8 <= |message|
    ensures (t + message[..8 * i]) + message[8 * i..8 * i + 8] == t + message[..8 * (i + 1)]
  {}

  lemma NextBlock(done: seq<u8>, rest: seq<u8>)
    requires |rest| >= 128
    ensures (done + rest[..128]) + [] + rest[128..] == done + [] + rest
  {
    assert rest == rest[..128] + rest[128..];
  }

  class Ctx {
    var hash: State
    const input: array<u64>
    var idx: nat
    var sizeHi: u64
    var sizeLo: u64
    ghost const f: (State, seq<u64>) -> State

    /** Blocks `done` are compressed and counted; the input buffer holds the bytes `t` and zeros. */
    ghost predicate Holds(done: seq<u8>, t: seq<u8>)
      reads this, input
    {
      && input.Length == 16 && IsSha512(f)
      && |done| % 128 == 0 && |t| <= 128
      && hash == HashBlocks(f, IV, done)
      && input[..] == Filled(t)
      && sizeHi * M64 + sizeLo == 8 * |done| % M128
    }

    /** Between calls the context stands for the bytes fed so far, fewer than 128 of them buffered. */
    ghost predicate Represents(m: seq<u8>)
      reads this, input
    {
      idx == |m| % 128 && Holds(m[..|m| - idx], m[|m| - idx..])
    }

    /** crypto_sha512_init */
    constructor ()
      ensures Represents([]) && fresh(input) && f == COMPRESSION
    {
      hash := IV;
      sizeHi, sizeLo := 0, 0;
      idx := 0;
      input := new u64[16](i => 0);
      f := COMPRESSION;
      new;
      ZeroBlock();
      assert input[..] == Filled([]);
    }

    /** sha512_incr on the 128-bit bit count. */
    method Incr(y: u64)
      modifies this`sizeHi, this`sizeLo
      ensures sizeHi * M64 + sizeLo == (old(sizeHi * M64 + sizeLo) + y) % M128
    {
      sizeLo := (sizeLo + y) % M64;
      if sizeLo < y {
        sizeHi := (sizeHi + 1) % M64;
      }
    }

    /** sha512_set_input: one byte at position |t|. */
    method SetInput(b: u8, ghost done: seq<u8>, ghost t: seq<u8>)
      requires Holds(done, t) && idx == |t| < 128
      modifies input
      ensures Holds(done, t + [b])
    {
      FilledSnoc(t, b, idx / 8, idx % 8);
      input[idx / 8] := OrByte(input[idx / 8], b, 7 - idx % 8);
      assert input[..] == Filled(t + [b]);
    }

    /** load64_be_buf into the buffer, n words at word position |t|/8. */
    method LoadWords(at: nat, message: seq<u8>, n: nat, ghost done: seq<u8>, ghost t: seq<u8>)
      requires Holds(done, t) && (n == 0 || |t| == 8 * at) && at + n <= 16 && 8 * n <= |message|
      modifies input
      ensures Holds(done, t + message[..8 * n])
    {
      assert t + message[..0] == t;
      for i := 0 to n
        invariant Holds(done, t + message[..8 * i])
      {
        NextEight(t, message, i);
        LoadWord(at + i, message[8 * i..8 * i + 8], done, t + message[..8 * i]);
      }
    }

    method LoadWord(k: nat, word: seq<u8>, ghost done: seq<u8>, ghost t: seq<u8>)
      requires Holds(done, t) && |t| == 8 * k && k < 16 && |word| == 8
      modifies input
      ensures Holds(done, t + word)
    {
      FilledWord(t, word);
      input[k] := BeWord(word);
    }

    /** Counts and compresses a full buffer, then clears it. */
    method Flush(ghost done: seq<u8>, ghost t: seq<u8>)
      requires Holds(done, t) && |t| == 128
      modifies this, input
      ensures Holds(done + t, []) && idx == 0
    {
      Incr(1024);
      CompressBlock();
      idx := 0;
      ZeroInput(16);
      BlockDone(f, done, t);
      CountBlock(|done|);
      ZeroBlock();
      assert input[..] == Filled([]);
    }

    /** sha512_compress on the buffer, which it leaves clobbered. */
    method CompressBlock()
      requires input.Length == 16 && IsSha512(f)
      modifies this`hash, input
      ensures hash == f(old(hash), old(input[..]))
    {
      assert AskC(hash, input[..]);
      hash := CompressInPlace(hash, input);
    }

    /** ZERO(ctx->input, n) */
    method ZeroInput(n: nat)
      requires n <= input.Length
      modifies input
      ensures input[..n] == seq(n, i => 0) && input[n..] == old(input[n..])
    {
      for i := 0 to n
        invariant forall k :: 0 <= k < i ==> input[k] == 0
        invariant input[n..] == old(input[n..])
      {
        input[i] := 0;
      }
    }

    /** Byte by byte until the buffer position is a multiple of eight. */
    method AlignWord(message: seq<u8>, ghost done: seq<u8>, ghost t: seq<u8>) returns (rest: seq<u8>, ghost t': seq<u8>)
      requires Holds(done, t) && idx == |t| < 128
      modifies this`idx, input
      ensures Holds(done, t') && idx == |t'| && t' + rest == t + message
      ensures idx % 8 == 0 || rest == []
    {
      rest, t' := message, t;
      if idx % 8 != 0 {
        var n := if Align(idx, 8) <= |message| then Align(idx, 8) else |message|;
        rest, t' := FeedBytes(message, n, done, t);
      }
    }

    /** The loop over sha512_set_input. */
    method FeedBytes(message: seq<u8>, n: nat, ghost done: seq<u8>, ghost t: seq<u8>) returns (rest: seq<u8>, ghost t': seq<u8>)
      requires Holds(done, t) && idx == |t| && n <= |message| && idx + n <= 128
      modifies this`idx, input
      ensures t' == t + message[..n] && rest == message[n..] && t' + rest == t + message
      ensures Holds(done, t') && idx == |t'|
    {
      t' := t;
      for i := 0 to n
        invariant Holds(done, t') && t' == t + message[..i] && idx == |t'|
      {
        SetInput(message[i], done, t');
        idx := idx + 1;
        t' := t' + [message[i]];
      }
      rest := message[n..];
    }

    /** Word by word until the block is full or fewer than eight bytes are left. */
    method AlignBlock(message: seq<u8>, ghost done: seq<u8>, ghost t: seq<u8>) returns (rest: seq<u8>, ghost t': seq<u8>)
      requires Holds(done, t) && idx == |t| && (idx % 8 == 0 || message == [])
      modifies this`idx, input
      ensures Holds(done, t') && idx == |t'| && t' + rest == t + message
      ensures idx == 0 || idx == 128 || (|rest| < 8 && idx + |rest| < 128)
    {
      rest, t' := message, t;
      if idx % 128 != 0 {
        var gap := Align(idx, 128);
        var n := (if gap <= |message| then gap else |message|) / 8;
        AlignGap(idx);
        LoadWords(idx / 8, message, n, done, t);
        t' := t + message[..8 * n];
        idx := idx + 8 * n;
        rest := message[8 * n..];
      }
    }

    /** Whole blocks straight from the message. */
    /** The first block of the message, compressed straight from it. */
    method LoadBlock(message: seq<u8>, ghost done: seq<u8>)
      requires Holds(done, []) && |message| >= 128
      modifies this, input
      ensures Holds(done + message[..128], []) && idx == 0
    {
      LoadWords(0, message, 16, done, []);
      assert [] + message[..128] == message[..128];
      Flush(done, message[..128]);
    }

    method WholeBlocks(message: seq<u8>, ghost done: seq<u8>, ghost t: seq<u8>)
      returns (rest: seq<u8>, ghost done': seq<u8>, ghost t': seq<u8>)
      requires Holds(done, t) && idx == |t| < 128 && (idx == 0 || |message| < 8)
      modifies this, input
      ensures Holds(done', t') && idx == |t'| && done' + t' + rest == done + t + message
      ensures |rest| < 128 && (idx == 0 || |rest| < 8) && idx == old(idx) && (idx != 0 ==> rest == message)
    {
      rest, done', t' := message, done, t;
      while |rest| >= 128
        invariant Holds(done', t') && idx == |t'| == old(idx) && done' + t' + rest == done + t + message
        invariant idx == 0 || rest == message
      {
        NextBlock(done', rest);
        LoadBlock(rest, done');
        done', t' := done' + rest[..128], [];
        rest := rest[128..];
      }
    }

    /** The two alignment steps, and the compression when they fill the block. */
    method FillBlock(message: seq<u8>, ghost done: seq<u8>, ghost t: seq<u8>)
      returns (rest: seq<u8>, ghost done': seq<u8>, ghost t': seq<u8>)
      requires Holds(done, t) && idx == |t| < 128
      modifies this, input
      ensures Holds(done', t') && idx == |t'| < 128 && done' + t' + rest == done + t + message
      ensures idx == 0 || (|rest| < 8 && idx + |rest| < 128)
    {
      assert done + t + message == done + (t + message);
      done' := done;
      rest, t' := AlignWord(message, done, t);
      rest, t' := AlignBlock(rest, done, t');
      assert done + t' + rest == done + (t' + rest);
      if idx == 128 {
        Flush(done, t');
        done', t' := done + t', [];
      }
    }

    /** crypto_sha512_update */
    method Update(message: seq<u8>, ghost m: seq<u8>)
      requires Represents(m)
      modifies this, input
      ensures Represents(m + message)
    {
      if |message| == 0 {
        assert m + message == m;
        return;
      }
      ghost var done, t := m[..|m| - idx], m[|m| - idx..];
      assert done + t == m;
      var rest;
      rest, done, t := FillBlock(message, done, t);
      rest, done, t := WholeBlocks(rest, done, t);
      assert done + t + rest == done + (t + rest);
      if |rest| != 0 {
        t := Remainder(rest, done, t);
      } else {
        assert t + rest == t;
      }
      assert done + t == m + message;
      Boundary(done, t);
    }

    /** Fewer than 128 bytes: words, then bytes. */
    method Remainder(message: seq<u8>, ghost done: seq<u8>, ghost t: seq<u8>) returns (ghost t': seq<u8>)
      requires Holds(done, t) && idx == |t| < 128 && |message| < 128
      requires t == [] || (|message| < 8 && idx + |message| < 128)
      modifies this`idx, input
      ensures Holds(done, t') && idx == |t'| < 128 && t' == t + message
    {
      var n := |message| / 8;
      LoadWords(0, message, n, done, t);
      idx := idx + 8 * n;
      t' := t + message[..8 * n];
      var rest := message[8 * n..];
      rest, t' := FeedBytes(rest, |rest|, done, t');
    }

    /** crypto_sha512_final */
    method Final(ghost m: seq<u8>) returns (digest: seq<u8>)
      requires Represents(m)
      modifies this, input
      ensures digest == DigestWith(f, m)
    {
      ghost var done, t := m[..|m| - idx], m[|m| - idx..];
      assert done + t == m;
      SetInput(0x80, done, t);
      Incr(8 * idx);
      CountTail(|done|, |t|, sizeHi, sizeLo);
      if idx > 111 {
        FinishLong(done, t, |m|);
      } else {
        LastBlock(f, done, t, |m|);
        CompressLength(Filled(t + [0x80]), |m|);
      }
      digest := OutputBytes(hash);
    }

    /** No room for the length: the block is compressed and the length gets one of its own. */
    method FinishLong(ghost done: seq<u8>, ghost t: seq<u8>, ghost n: nat)
      requires input.Length == 16 && IsSha512(f) && |done| % 128 == 0 && 111 < |t| < 128 && n == |done + t|
      requires hash == HashBlocks(f, IV, done) && input[..] == Filled(t + [0x80]) && sizeHi == LenHi(n) && sizeLo == LenLo(n)
      modifies this`hash, input
      ensures hash == HashBlocks(f, IV, Pad(done + t))
    {
      LastTwoBlocks(f, done, t, n);
      CompressBlock();
      ZeroInput(14);
      ZeroBlock();
      CompressLength(Filled([]), n);
    }

    /** The last compression, with the bit count in the last two words. */
    method CompressLength(ghost w: seq<u64>, ghost n: nat)
      requires input.Length == 16 && IsSha512(f) && |w| == 16
      requires input[..14] == w[..14] && sizeHi == LenHi(n) && sizeLo == LenLo(n)
      modifies this`hash, input
      ensures hash == f(old(hash), LengthBlock(w, n))
    {
      input[14] := sizeHi;
      input[15] := sizeLo;
      assert input[..] == LengthBlock(w, n);
      CompressBlock();
    }

    lemma {:induction false} Boundary(done: seq<u8>, t: seq<u8>)
      requires Holds(done, t) && idx == |t| < 128
      ensures Represents(done + t)
    {
      var m := done + t;
      DivModUnique(|m|, |done| / 128, idx, 128);
      assert m[..|m| - idx] == done && m[|m| - idx..] == t;
    }
  }

  /** The block that carries the length. */
  ghost function LengthBlock(w: seq<u64>, n: nat): seq<u64>
    requires |w| == 16
  {
    w[..14] + [LenHi(n), LenLo(n)]
  }

  lemma {:induction false} LengthWords(t: seq<u8>, n: nat)
    requires |t| <= 112
    ensures WordsOf(t + Zeros(112 - |t|) + BeBytes(LenHi(n), 8) + BeBytes(LenLo(n), 8), 16) == LengthBlock(Filled(t), n)
  {
    var u := t + Zeros(112 - |t|) + BeBytes(LenHi(n), 8) + BeBytes(LenLo(n), 8);
    var v := t + Zeros(128 - |t|);
    Pow8();
    BeRoundTrip(LenHi(n), 8);
    BeRoundTrip(LenLo(n), 8);
    assert u[112..120] == BeBytes(LenHi(n), 8) && u[120..128] == BeBytes(LenLo(n), 8);
    forall k | 0 <= k < 14
      ensures u[8 * k..8 * k + 8] == v[8 * k..8 * k + 8]
    {}
  }

  lemma {:induction false} PadTail(done: seq<u8>, t: seq<u8>, z: nat)
    requires |done| % 128 == 0 && |t| < 128 && z == if |t| <= 111 then 111 - |t| else 239 - |t|
    ensures Pad(done + t) == done + (t + [0x80] + Zeros(z) + BeBytes(LenHi(|done + t|), 8) + BeBytes(LenLo(|done + t|), 8))
  {
    PadZerosOf(|done|, |t|, z);
    assert |done + t| == |done| + |t|;
  }

  lemma PadZerosOf(d: nat, t: nat, z: nat)
    requires d % 128 == 0 && t < 128 && z == if t <= 111 then 111 - t else 239 - t
    ensures PadZeros(d + t) == z
  {
    var q := d / 128;
    DivModUnique(111 - (d + t), if t <= 111 then -q else -q - 1, z, 128);
  }

  /** The padding closes the message in one block when it leaves room for the length. */
  lemma {:induction false} LastBlock(f: (State, seq<u64>) -> State, done: seq<u8>, t: seq<u8>, n: nat)
    requires |done| % 128 == 0 && |t| <= 111 && n == |done + t|
    ensures HashBlocks(f, IV, Pad(done + t)) == f(HashBlocks(f, IV, done), LengthBlock(Filled(t + [0x80]), n))
  {
    var tail := t + [0x80] + Zeros(111 - |t|) + BeBytes(LenHi(n), 8) + BeBytes(LenLo(n), 8);
    PadTail(done, t, 111 - |t|);
    HashConcat(f, IV, done, tail);
    HashOne(f, HashBlocks(f, IV, done), tail);
    LengthWords(t + [0x80], n);
  }

  /** Otherwise in two. */
  lemma {:induction false} LastTwoBlocks(f: (State, seq<u64>) -> State, done: seq<u8>, t: seq<u8>, n: nat)
    requires |done| % 128 == 0 && 111 < |t| < 128 && n == |done + t|
    ensures HashBlocks(f, IV, Pad(done + t)) ==
            f(f(HashBlocks(f, IV, done), Filled(t + [0x80])), LengthBlock(Filled([]), n))
  {
    var first := (t + [0x80]) + Zeros(127 - |t|);
    var second := [] + Zeros(112) + BeBytes(LenHi(n), 8) + BeBytes(LenLo(n), 8);
    PadTail(done, t, 239 - |t|);
    assert t + [0x80] + Zeros(239 - |t|) + BeBytes(LenHi(n), 8) + BeBytes(LenLo(n), 8) == first + second;
    HashConcat(f, IV, done, first + second);
    HashConcat(f, HashBlocks(f, IV, done), first, second);
    HashOne(f, HashBlocks(f, IV, done), first);
    HashOne(f, f(HashBlocks(f, IV, done), Filled(t + [0x80])), second);
    LengthWords([], n);
  }

  lemma CountTail(done: nat, t: nat, hi: u64, lo: u64)
    requires hi * M64 + lo == (8 * done % M128 + 8 * t) % M128
    ensures hi == LenHi(done + t) && lo == LenLo(done + t)
  {
    var x := 8 * (done + t);
    assert hi * M64 + lo == x % M128;
    DivModUnique(x % M128, hi, lo, M64);
    var q, r := x / M128, x % M128;
    DivModUnique(x, q * M64 + hi, lo, M64);
    DivModUnique(q * M64 + hi, q, hi, M64);
  }

  lemma {:induction false} BlockDone(f: (State, seq<u64>) -> State, done: seq<u8>, t: seq<u8>)
    requires |done| % 128 == 0 && |t| == 128
    ensures |done + t| % 128 == 0 && HashBlocks(f, IV, done + t) == f(HashBlocks(f, IV, done), Filled(t))
  {
    assert t + Zeros(0) == t;
    HashConcat(f, IV, done, t);
    HashOne(f, HashBlocks(f, IV, done), t);
  }

  lemma CountBlock(n: nat)
    ensures (8 * n % M128 + 1024) % M128 == 8 * (n + 128) % M128
  {}

  lemma {:induction false} ZeroBlock()
    ensures Filled([]) == seq(16, i => 0)
  {
    assert [] + Zeros(128) == Zeros(128);
    forall k | 0 <= k < 16
      ensures BeWord(Zeros(128)[8 * k..8 * k + 8]) == 0
    {
      ZeroBe(Zeros(128)[8 * k..8 * k + 8]);
    }
  }

  lemma {:induction false} ZeroBe(s: seq<u8>)
    requires forall i :: 0 <= i < |s| ==> s[i] == 0
    ensures Be(s) == 0
  {
    if s != [] { ZeroBe(s[..|s| - 1]); }
  }
}
