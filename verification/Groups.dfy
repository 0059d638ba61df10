/** Curve points as elements of an arbitrary abelian group, and integer multiples of them. */
module Groups {

  datatype Group<!P(!new)> = Group(zero: P, add: (P, P) -> P, neg: P -> P)
  {
    function Sub(a: P, b: P): P { add(a, neg(b)) }
    function Double(a: P): P { add(a, a) }
  }

  /** The group laws are instantiated only at the triples a proof asks about. */
  ghost predicate Ask<P>(a: P, b: P, c: P) { true }

  ghost predicate Abelian<P(!new)>(g: Group<P>)
  {
    forall a: P, b: P, c: P {:trigger Ask(a, b, c)} ::
      && g.add(a, g.add(b, c)) == g.add(g.add(a, b), c)
      && g.add(a, b) == g.add(b, a)
      && g.add(a, g.zero) == a
      && g.add(a, g.neg(a)) == g.zero
  }

  function Mul<P(!new)>(g: Group<P>, n: int, p: P): P
    decreases (if n < 0 then -n + 1 else n), g
  {
    if n == 0 then g.zero
    else if n > 0 then g.add(Mul(g, n - 1, p), p)
    else g.neg(Mul(g, -n, p))
  }

  lemma Cancel<P(!new)>(g: Group<P>, a: P, b: P)
    requires Abelian(g)
    ensures g.add(g.add(a, b), g.neg(b)) == a
  {
    assert Ask(a, b, g.neg(b)) && Ask(b, b, b);
  }

  lemma NegUnique<P(!new)>(g: Group<P>, a: P, b: P)
    requires Abelian(g) && g.add(a, b) == g.zero
    ensures b == g.neg(a)
  {
    Cancel(g, b, a);
    assert Ask(b, a, a);
    assert Ask(g.neg(a), g.zero, g.zero) && Ask(g.zero, g.neg(a), g.zero);
  }

  /** -(a + b) = -a + -b */
  lemma NegAdd<P(!new)>(g: Group<P>, a: P, b: P)
    requires Abelian(g)
    ensures g.neg(g.add(a, b)) == g.add(g.neg(a), g.neg(b))
  {
    var s := g.add(a, b);
    var t := g.add(g.neg(a), g.neg(b));
    assert Ask(g.neg(a), g.neg(b), t);
    assert t == g.add(g.neg(b), g.neg(a));
    assert Ask(s, g.neg(b), g.neg(a));
    Cancel(g, a, b);
    assert Ask(a, a, a);
    NegUnique(g, s, t);
  }

  lemma NegNeg<P(!new)>(g: Group<P>, a: P)
    requires Abelian(g)
    ensures g.neg(g.neg(a)) == a && g.neg(g.zero) == g.zero
  {
    assert Ask(a, g.neg(a), a) && Ask(g.zero, g.zero, g.zero);
    NegUnique(g, g.neg(a), a);
    NegUnique(g, g.zero, g.zero);
  }

  lemma MulSucc<P(!new)>(g: Group<P>, n: int, p: P)
    requires Abelian(g)
    ensures Mul(g, n + 1, p) == g.add(Mul(g, n, p), p)
  {
    if n < 0 {
      var m := Mul(g, -n - 1, p);
      // Mul(n) = -(m + p), so adding p gives -m
      NegAdd(g, m, p);
      Cancel(g, g.neg(m), g.neg(p));
      NegNeg(g, p);
      NegNeg(g, g.zero);
    }
  }

  lemma {:induction false} MulSum<P(!new)>(g: Group<P>, a: int, b: int, p: P)
    requires Abelian(g)
    ensures Mul(g, a + b, p) == g.add(Mul(g, a, p), Mul(g, b, p))
    decreases if b < 0 then -b else b
  {
    var x := Mul(g, a, p);
    if b == 0 {
      assert Ask(x, x, x);
    } else if b > 0 {
      MulSum(g, a, b - 1, p);
      MulSucc(g, a + b - 1, p);
      MulSucc(g, b - 1, p);
      assert Ask(x, Mul(g, b - 1, p), p);
    } else {
      MulSum(g, a, b + 1, p);
      MulSucc(g, a + b, p);
      MulSucc(g, b, p);
      assert Ask(x, Mul(g, b, p), p);
      Cancel(g, Mul(g, a + b, p), p);
      Cancel(g, g.add(x, Mul(g, b, p)), p);
    }
  }

  lemma {:induction false} MulDouble<P(!new)>(g: Group<P>, n: int, p: P)
    requires Abelian(g)
    ensures g.Double(Mul(g, n, p)) == Mul(g, 2 * n, p)
  {
    MulSum(g, n, n, p);
  }

  lemma MulNeg<P(!new)>(g: Group<P>, n: int, p: P)
    requires Abelian(g)
    ensures Mul(g, -n, p) == g.neg(Mul(g, n, p))
  {
    MulSum(g, n, -n, p);
    NegUnique(g, Mul(g, n, p), Mul(g, -n, p));
  }

  lemma {:induction false} MulMul<P(!new)>(g: Group<P>, a: int, b: int, p: P)
    requires Abelian(g)
    ensures Mul(g, a * b, p) == Mul(g, a, Mul(g, b, p))
    decreases if a < 0 then -a else a
  {
    var q := Mul(g, b, p);
    if a > 0 {
      MulMul(g, a - 1, b, p);
      MulSum(g, (a - 1) * b, b, p);
      assert a * b == (a - 1) * b + b;
    } else if a < 0 {
      MulMul(g, a + 1, b, p);
      MulSum(g, (a + 1) * b, -b, p);
      assert a * b == (a + 1) * b + -b;
      MulNeg(g, b, p);
      MulSucc(g, a, q);
      Cancel(g, Mul(g, a, q), q);
    }
  }

  /** Multiples of a point whose L-fold is zero depend on the scalar modulo L only. */
  lemma {:induction false} MulMod<P(!new)>(g: Group<P>, a: int, b: int, l: nat, k: int, p: P)
    requires Abelian(g) && Mul(g, l, p) == g.zero && a == b + k * l
    ensures Mul(g, a, p) == Mul(g, b, p)
  {
    MulSum(g, b, k * l, p);
    MulMul(g, k, l, p);
    MulZero(g, k);
    assert Ask(Mul(g, b, p), p, p);
  }

  lemma {:induction false} MulZero<P(!new)>(g: Group<P>, k: int)
    requires Abelian(g)
    ensures Mul(g, k, g.zero) == g.zero
    decreases if k < 0 then -k + 1 else k
  {
    assert Ask(g.zero, g.zero, g.zero);
    if k > 0 {
      MulZero(g, k - 1);
    } else if k < 0 {
      MulZero(g, -k);
      NegNeg(g, g.zero);
    }
  }

  /** n(p + q) = np + nq */
  lemma {:induction false} MulDist<P(!new)>(g: Group<P>, n: nat, p: P, q: P)
    requires Abelian(g)
    ensures Mul(g, n, g.add(p, q)) == g.add(Mul(g, n, p), Mul(g, n, q))
  {
    if n == 0 {
      assert Ask(g.zero, g.zero, g.zero);
    } else {
      MulDist(g, n - 1, p, q);
      Interchange(g, Mul(g, n - 1, p), Mul(g, n - 1, q), p, q);
    }
  }

  lemma Interchange<P(!new)>(g: Group<P>, a: P, b: P, c: P, d: P)
    requires Abelian(g)
    ensures g.add(g.add(a, b), g.add(c, d)) == g.add(g.add(a, c), g.add(b, d))
  {
    assert Ask(g.add(a, b), c, d) && Ask(a, b, c) && Ask(b, c, c) && Ask(a, c, b) && Ask(g.add(a, c), b, d);
  }

  // ---- multiples of a fixed point as a homomorphism from the integers ----

  ghost predicate AskZ(a: int, b: int) { true }

  /** phi(n) = [n]phi(1): phi turns integer addition into group addition. */
  ghost predicate Additive<P(!new)>(g: Group<P>, phi: int -> P)
  {
    forall a: int, b: int {:trigger AskZ(a, b)} :: AskZ(a, b) ==>
      && phi(a + b) == g.add(phi(a), phi(b))
      && phi(-a) == g.neg(phi(a))
      && phi(0) == g.zero
  }

  /** The multiples of a point of order dividing l repeat after l. */
  ghost predicate Periodic<P(!new)>(phi: int -> P, l: nat)
  {
    forall a: int, k: int {:trigger AskZ(a, k)} :: AskZ(a, k) ==> phi(a + k * l) == phi(a)
  }

  /** The multiples of p, as one function of the factor. */
  ghost function MultiplesOf<P(!new)>(g: Group<P>, p: P): (phi: int -> P)
    ensures forall n :: phi(n) == Mul(g, n, p)
  {
    n => Mul(g, n, p)
  }

  lemma {:induction false} Multiples<P(!new)>(g: Group<P>, p: P)
    requires Abelian(g)
    ensures Additive(g, MultiplesOf(g, p))
  {
    var phi := MultiplesOf(g, p);
    forall a: int, b: int {:trigger AskZ(a, b)}
      ensures phi(a + b) == g.add(phi(a), phi(b)) && phi(-a) == g.neg(phi(a)) && phi(0) == g.zero
    {
      MulSum(g, a, b, p);
      MulNeg(g, a, p);
    }
  }

  lemma {:induction false} PeriodicMultiples<P(!new)>(g: Group<P>, p: P, l: nat)
    requires Abelian(g) && Mul(g, l, p) == g.zero
    ensures Periodic(MultiplesOf(g, p), l)
  {
    var phi := MultiplesOf(g, p);
    forall a: int, k: int {:trigger AskZ(a, k)}
      ensures phi(a + k * l) == phi(a)
    {
      MulMod(g, a + k * l, a, l, k, p);
    }
  }
}
