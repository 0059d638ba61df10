/** Ed25519 signatures as the identity layer makes and checks them, over an arbitrary abelian
    group with a base point of order dividing L (sections 5.1.6 and 5.1.7 of RFC 8032). */
module EdDSA {
  import opened Words
  import opened ScalarL
  import opened Bits
  import opened Groups
  import opened Slide
  import opened Comb
  import opened Sha512Spec
  import opened Sha512

  /** The group, the precomputed tables and the point codec. `decodeNeg` yields the negated point. */
  datatype Curve<!P(!new)> = Curve(g: Group<P>, b: P, bWindow: seq<P>, combLow: seq<P>, combHigh: seq<P>,
                                   encode: P -> seq<u8>, decodeNeg: seq<u8> -> Option<P>)

  datatype ExpandedKey = ExpandedKey(scalar: seq<u8>, prefix: seq<u8>)
  datatype Signature = Signature(r: seq<u8>, s: seq<u8>)

  const ZERO_POINT: seq<u8> := [1] + Zeros(31)

  ghost predicate AskP<P>(p: P) { true }

  ghost predicate Codec<P(!new)>(c: Curve<P>)
  {
    && c.encode(c.g.zero) == ZERO_POINT
    && forall p: P {:trigger AskP(p)} :: |c.encode(p)| == 32 && c.decodeNeg(c.encode(p)) == Some(c.g.neg(p))
  }

  /** What the tables and the codec are documented to be. */
  ghost predicate WellFormed<P(!new)>(c: Curve<P>)
  {
    && Abelian(c.g) && Mul(c.g, L, c.b) == c.g.zero
    && |c.bWindow| == 8 && OddMultiples(c.g, c.b, c.bWindow)
    && CombTable(c.combLow, MultiplesOf(c.g, c.b), 1) && CombTable(c.combHigh, MultiplesOf(c.g, c.b), P128)
    && Codec(c)
  }

  /** crypto_eddsa_scalarbase */
  method ScalarBase<P(!new)>(c: Curve<P>, scalar: seq<u8>) returns (point: seq<u8>)
    requires WellFormed(c) && |scalar| == 32
    ensures point == c.encode(Mul(c.g, LeBytes(scalar), c.b)) && |point| == 32
  {
    Multiples(c.g, c.b);
    PeriodicMultiples(c.g, c.b, L);
    var p := ScalarMultBase(c.g, c.combLow, c.combHigh, scalar, MultiplesOf(c.g, c.b));
    assert AskP(p);
    point := c.encode(p);
  }

  /** Hash of the concatenation of the non-empty parts, reduced modulo L. */
  method HashReduce4(a: seq<u8>, b: seq<u8>, c: seq<u8>, d: seq<u8>) returns (out: seq<u8>)
    ensures |out| == 32 && LeBytes(out) == LeBytes(Digest(a + b + c + d)) % L
  {
    var ctx := new Ctx();
    assert [] + a == a;
    ctx.Update(a, []);
    ctx.Update(b, a);
    ctx.Update(c, a + b);
    ctx.Update(d, a + b + c);
    var hash := ctx.Final(a + b + c + d);
    out := Reduce(hash);
  }

  // ---- signing ----

  /** The nonce of a message and the challenge of a signature, modulo L. */
  function Nonce(key: ExpandedKey, message: seq<u8>): nat
  {
    LeBytes(Digest(key.prefix + message)) % L
  }

  function Challenge(r: seq<u8>, publicKey: seq<u8>, message: seq<u8>): nat
  {
    LeBytes(Digest(r + publicKey + message)) % L
  }

  /** What section 5.1.6 of RFC 8032 asks of a signature. */
  ghost predicate IsSignature<P(!new)>(c: Curve<P>, key: ExpandedKey, publicKey: seq<u8>, message: seq<u8>, sig: Signature)
  {
    && |sig.r| == 32 && |sig.s| == 32
    && sig.r == c.encode(Mul(c.g, Nonce(key, message), c.b))
    && LeBytes(sig.s) == (Challenge(sig.r, publicKey, message) * LeBytes(key.scalar) + Nonce(key, message)) % L
  }

  /** meshcore_identity_sign_expanded_private_key */
  method Sign<P(!new)>(c: Curve<P>, key: ExpandedKey, publicKey: seq<u8>, message: seq<u8>) returns (sig: Signature)
    requires WellFormed(c) && |key.scalar| == 32
    ensures IsSignature(c, key, publicKey, message, sig)
  {
    var r := HashReduce4(key.prefix, message, [], []);
    assert key.prefix + message + [] + [] == key.prefix + message;
    var rPoint := ScalarBase(c, r);
    var h := HashReduce4(rPoint, publicKey, message, []);
    assert rPoint + publicKey + message + [] == rPoint + publicKey + message;
    var s := MulAddL(h, key.scalar, r);
    sig := Signature(rPoint, s);
  }

  // ---- checking ----

  /** The cofactored equation [8](sB - hA - R) = 0 for challenge h, with S below L. */
  ghost predicate AcceptsChallenge<P(!new)>(c: Curve<P>, publicKey: seq<u8>, h: nat, sig: Signature)
    requires |sig.r| == 32 && |sig.s| == 32
  {
    var minusA, minusR := c.decodeNeg(publicKey), c.decodeNeg(sig.r);
    && minusA.Some? && minusR.Some? && LeBytes(sig.s) < L
    && CofactoredEquation(c, LeBytes(sig.s), h, minusA.value, minusR.value)
  }

  ghost predicate Accepts<P(!new)>(c: Curve<P>, publicKey: seq<u8>, message: seq<u8>, sig: Signature)
    requires |sig.r| == 32 && |sig.s| == 32
  {
    AcceptsChallenge(c, publicKey, Challenge(sig.r, publicKey, message), sig)
  }

  ghost predicate CofactoredEquation<P(!new)>(c: Curve<P>, s: nat, h: nat, q: P, r: P)
  {
    Mul(c.g, 8, c.g.add(c.g.add(Mul(c.g, s, c.b), Mul(c.g, h, q)), r)) == c.g.zero
  }

  lemma {:induction false} Double3<P(!new)>(g: Group<P>, p: P)
    requires Abelian(g)
    ensures g.Double(g.Double(g.Double(p))) == Mul(g, 8, p)
  {
    assert Mul(g, 1, p) == p by { assert Mul(g, 0, p) == g.zero && Ask(g.zero, p, p) && Ask(p, p, p); }
    MulDouble(g, 1, p);
    MulDouble(g, 2, p);
    MulDouble(g, 4, p);
  }

  lemma EncodeZero<P(!new)>(c: Curve<P>, p: P)
    requires Codec(c) && Abelian(c.g)
    ensures c.encode(p) == ZERO_POINT <==> p == c.g.zero
  {
    assert AskP(p) && AskP(c.g.zero);
    NegNeg(c.g, p);
    NegNeg(c.g, c.g.zero);
  }

  lemma BelowPow253(n: nat)
    requires n < L
    ensures n < Pow(2, 253)
  {
    PowBytes();
    PowAdd(2, 253, 3);
    Pow2Value(3);
  }

  /** The order of the base point, section 5.1 of RFC 8032. */
  lemma {:induction false} OrderOfBase()
    ensures L == Pow(2, 252) + 27742317777372353535851937790883648493
  {
    PowBytes();
    PowAdd(2, 252, 4);
    Pow2Value(4);
  }

  /** crypto_eddsa_check_equation */
  method CheckEquation<P(!new)>(c: Curve<P>, sig: Signature, publicKey: seq<u8>, h: seq<u8>) returns (ok: bool)
    requires WellFormed(c) && |sig.r| == 32 && |sig.s| == 32
    requires |h| == 32 && LeBytes(h) < L
    ensures ok <==> AcceptsChallenge(c, publicKey, LeBytes(h), sig)
  {
    var minusA, minusR := c.decodeNeg(publicKey), c.decodeNeg(sig.r);
    var s32 := Load32Buf(sig.s);
    var above := IsAboveL(s32);
    if minusA.None? || minusR.None? || above {
      return false;
    }
    BelowPow253(LeBytes(sig.s));
    BelowPow253(LeBytes(h));
    ok := CofactoredZero(c, sig.s, h, minusA.value, minusR.value);
  }

  /** The end of crypto_eddsa_check_equation: [8]([s]B + [h]q + r) compared with the zero point. */
  method CofactoredZero<P(!new)>(c: Curve<P>, s: seq<u8>, h: seq<u8>, q: P, r: P) returns (ok: bool)
    requires WellFormed(c) && |s| == 32 && LeBytes(s) < Pow(2, 253) && |h| == 32 && LeBytes(h) < Pow(2, 253)
    ensures ok <==> CofactoredEquation(c, LeBytes(s), LeBytes(h), q, r)
  {
    var sum := DoubleScalarMul(c.g, s, c.b, c.bWindow, h, q);
    sum := c.g.add(sum, r);
    Double3(c.g, sum);
    sum := c.g.Double(c.g.Double(c.g.Double(sum)));
    EncodeZero(c, sum);
    ok := c.encode(sum) == ZERO_POINT;
  }

  /** crypto_ed25519_check */
  method Check<P(!new)>(c: Curve<P>, sig: Signature, publicKey: seq<u8>, message: seq<u8>) returns (ok: bool)
    requires WellFormed(c) && |sig.r| == 32 && |sig.s| == 32
    ensures ok <==> Accepts(c, publicKey, message, sig)
  {
    var h := HashReduce4(sig.r, publicKey, message, []);
    assert sig.r + publicKey + message + [] == sig.r + publicKey + message;
    ok := CheckEquation(c, sig, publicKey, h);
  }

  // ---- every signature checks ----

  lemma {:induction false} SignatureAccepted<P(!new)>(c: Curve<P>, key: ExpandedKey, publicKey: seq<u8>, message: seq<u8>, sig: Signature)
    requires WellFormed(c) && IsSignature(c, key, publicKey, message, sig)
    requires publicKey == c.encode(Mul(c.g, LeBytes(key.scalar), c.b))
    ensures Accepts(c, publicKey, message, sig)
  {
    var a, r, h := LeBytes(key.scalar), Nonce(key, message), Challenge(sig.r, publicKey, message);
    assert AskP(Mul(c.g, a, c.b)) && AskP(Mul(c.g, r, c.b));
    Equation(c.g, c.b, a, r, h, LeBytes(sig.s));
    MulZero(c.g, 8);
  }

  lemma {:induction false} Equation<P(!new)>(g: Group<P>, b: P, a: int, r: int, h: int, s: int)
    requires Abelian(g) && Mul(g, L, b) == g.zero && s == (h * a + r) % L
    ensures g.add(g.add(Mul(g, s, b), Mul(g, h, g.neg(Mul(g, a, b)))), g.neg(Mul(g, r, b))) == g.zero
  {
    var x := h * a;
    Reduced(g, b, x + r, s);
    NegatedKey(g, b, h, a, x);
    MulNeg(g, r, b);
    Cancel3(g, b, x, r);
  }

  lemma {:induction false} Reduced<P(!new)>(g: Group<P>, b: P, n: int, s: int)
    requires Abelian(g) && Mul(g, L, b) == g.zero && s == n % L
    ensures Mul(g, s, b) == Mul(g, n, b)
  {
    MulMod(g, n, s, L, n / L, b);
  }

  lemma NegatedKey<P(!new)>(g: Group<P>, b: P, h: int, a: int, x: int)
    requires Abelian(g) && x == h * a
    ensures Mul(g, h, g.neg(Mul(g, a, b))) == Mul(g, -x, b)
  {
    MulNeg(g, a, b);
    MulMul(g, h, -a, b);
    assert h * (-a) == -x;
  }

  lemma Cancel3<P(!new)>(g: Group<P>, b: P, x: int, r: int)
    requires Abelian(g)
    ensures g.add(g.add(Mul(g, x + r, b), Mul(g, -x, b)), Mul(g, -r, b)) == g.zero
  {
    MulSum(g, x + r, -x, b);
    MulSum(g, r, -r, b);
  }

  /** Whatever the identity layer signs, the identity layer accepts. */
  method SignThenCheck<P(!new)>(c: Curve<P>, key: ExpandedKey, message: seq<u8>) returns (ok: bool)
    requires WellFormed(c) && |key.scalar| == 32
    ensures ok
  {
    var publicKey := ScalarBase(c, key.scalar);
    var sig := Sign(c, key, publicKey, message);
    SignatureAccepted(c, key, publicKey, message, sig);
    ok := Check(c, sig, publicKey, message);
  }

  // ---- what is accepted ----

  lemma {:induction false} MulOfNeg<P(!new)>(g: Group<P>, n: int, p: P)
    requires Abelian(g)
    ensures Mul(g, n, g.neg(p)) == g.neg(Mul(g, n, p))
  {
    assert Mul(g, 1, p) == p by { assert Mul(g, 0, p) == g.zero && Ask(g.zero, p, p) && Ask(p, p, p); }
    MulNeg(g, 1, p);
    MulMul(g, n, -1, p);
    MulNeg(g, n, p);
  }

  lemma {:induction false} Differ<P(!new)>(g: Group<P>, a: P, b: P)
    requires Abelian(g)
    ensures g.add(a, g.neg(b)) == g.zero <==> a == b
  {
    assert Ask(b, b, b) && Ask(a, g.neg(b), b);
    if g.add(a, g.neg(b)) == g.zero {
      NegUnique(g, a, g.neg(b));
      NegNeg(g, a);
      NegNeg(g, b);
    }
  }

  /** s + (-y) + (-r) = s - (r + y) */
  lemma {:induction false} Regroup<P(!new)>(g: Group<P>, s: P, y: P, r: P)
    requires Abelian(g)
    ensures g.add(g.add(s, g.neg(y)), g.neg(r)) == g.add(s, g.neg(g.add(r, y)))
  {
    NegAdd(g, r, y);
    assert Ask(s, g.neg(y), g.neg(r)) && Ask(g.neg(y), g.neg(r), s);
  }

  /** For the key of a point A and the R of a signature, a challenge h is met exactly by an S below L with
      [8][S]B = [8](R + [h]A): the equation of section 5.1.7 of RFC 8032. */
  lemma {:induction false} VerificationEquation<P(!new)>(c: Curve<P>, a: P, r: P, h: nat, s: seq<u8>)
    requires WellFormed(c) && |s| == 32
    ensures |c.encode(r)| == 32
    ensures AcceptsChallenge(c, c.encode(a), h, Signature(c.encode(r), s)) <==>
            LeBytes(s) < L && Mul(c.g, 8, Mul(c.g, LeBytes(s), c.b)) == Mul(c.g, 8, c.g.add(r, Mul(c.g, h, a)))
  {
    var g, x, y := c.g, Mul(c.g, LeBytes(s), c.b), Mul(c.g, h, a);
    assert AskP(a) && AskP(r);
    MulOfNeg(g, h, a);
    Regroup(g, x, y, r);
    var z := g.add(r, y);
    MulDist(g, 8, x, g.neg(z));
    MulOfNeg(g, 8, z);
    Differ(g, Mul(g, 8, x), Mul(g, 8, z));
  }

  /** So a signature cannot be restated with another representative of S: the one below L is the only one
      accepted. */
  lemma {:induction false} LargerScalarRefused<P(!new)>(c: Curve<P>, publicKey: seq<u8>, message: seq<u8>, sig: Signature, s: seq<u8>, k: nat)
    requires |sig.r| == 32 && |sig.s| == 32 && |s| == 32 && k > 0 && LeBytes(s) == LeBytes(sig.s) + k * L
    ensures !Accepts(c, publicKey, message, Signature(sig.r, s))
  {
    MulMono(1, k, L);
  }
}
