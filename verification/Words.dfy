/** Machine words as subset types, and the numbers that little-endian limb and
    byte strings stand for. Assigning to a `u32` or `u64` variable is a proof that
    the C variable of that type does not overflow. */
module Words {

  type u8 = x: int | 0 <= x < 0x100
  type u16 = x: int | 0 <= x < 0x1_0000
  type u32 = x: int | 0 <= x < 0x1_0000_0000
  type u64 = x: int | 0 <= x < 0x1_0000_0000_0000_0000
  type i8 = x: int | -0x80 <= x < 0x80
  type i16 = x: int | -0x8000 <= x < 0x8000

  const W: nat := 0x1_0000_0000

  datatype Option<+T> = None | Some(value: T)

  function Pow(b: nat, n: nat): nat
  {
    if n == 0 then 1 else b * Pow(b, n - 1)
  }

  lemma {:induction false} PowAdd(b: nat, m: nat, n: nat)
    ensures Pow(b, m + n) == Pow(b, m) * Pow(b, n)
  {
    if m > 0 {
      PowAdd(b, m - 1, n);
      MulAssoc(b, Pow(b, m - 1), Pow(b, n));
    }
  }

  lemma MulAssoc(x: int, y: int, z: int)
    ensures x * (y * z) == (x * y) * z
  {}

  lemma {:induction false} PowPos(b: nat, n: nat)
    requires b > 0
    ensures Pow(b, n) > 0
  {
    if n > 0 { PowPos(b, n - 1); }
  }

  /** The number a little-endian digit string in base `b` stands for. */
  function Val(b: nat, s: seq<nat>): nat
  {
    if |s| == 0 then 0 else Val(b, s[..|s| - 1]) + s[|s| - 1] * Pow(b, |s| - 1)
  }

  /** The number a little-endian byte string stands for. */
  function LeBytes(s: seq<u8>): nat
  {
    Val(0x100, s)
  }

  function Zeros(n: nat): (z: seq<u8>)
    ensures |z| == n && forall i :: 0 <= i < n ==> z[i] == 0
  {
    seq(n, _ => 0)
  }

  lemma {:induction false} ValSnoc(b: nat, s: seq<nat>, x: nat)
    ensures Val(b, s + [x]) == Val(b, s) + x * Pow(b, |s|)
  {
    assert (s + [x])[..|s|] == s;
  }

  lemma {:induction false} ValConcat(b: nat, s: seq<nat>, t: seq<nat>)
    ensures Val(b, s + t) == Val(b, s) + Pow(b, |s|) * Val(b, t)
  {
    if t == [] {
      assert s + t == s;
    } else {
      var t0, x := t[..|t| - 1], t[|t| - 1];
      assert s + t == (s + t0) + [x] && t == t0 + [x];
      ValSnoc(b, s + t0, x);
      ValSnoc(b, t0, x);
      ValConcat(b, s, t0);
      PowAdd(b, |s|, |t0|);
      calc {
        Val(b, s + t);
        Val(b, s) + Pow(b, |s|) * Val(b, t0) + x * (Pow(b, |s|) * Pow(b, |t0|));
        { MulAssoc(x, Pow(b, |s|), Pow(b, |t0|)); MulAssoc(Pow(b, |s|), x, Pow(b, |t0|)); }
        Val(b, s) + Pow(b, |s|) * Val(b, t0) + Pow(b, |s|) * (x * Pow(b, |t0|));
        Val(b, s) + Pow(b, |s|) * (Val(b, t0) + x * Pow(b, |t0|));
      }
    }
  }

  lemma {:induction false} ValBound(b: nat, s: seq<nat>)
    requires forall i :: 0 <= i < |s| ==> s[i] < b
    ensures Val(b, s) < Pow(b, |s|)
  {
    if s != [] {
      var p := Pow(b, |s| - 1);
      ValBound(b, s[..|s| - 1]);
      assert s[|s| - 1] * p <= (b - 1) * p by { MulMono(s[|s| - 1], b - 1, p); }
    }
  }

  lemma MulMono(x: int, y: int, z: int)
    requires x <= y && 0 <= z
    ensures x * z <= y * z
  {}

  lemma Distrib(q: int, u: int, v: int)
    ensures q * (u + v) == q * u + q * v
  {}

  lemma ModUnique(n: int, r: int, k: int, m: int)
    requires 0 <= r < m && r == n + k * m
    ensures n % m == r
  {
    var d := n / m + k;
    assert r == n % m + d * m;
    if d >= 1 { MulMono(1, d, m); }
    if d <= -1 { MulMono(d, -1, m); }
  }

  lemma ModShift(n: int, k: int, m: int)
    requires m > 0
    ensures (n + k * m) % m == n % m
  {
    ModUnique(n + k * m, n % m, -(n / m + k), m);
  }

  lemma DivModUnique(n: int, q: int, r: int, m: int)
    requires 0 <= r < m && n == r + m * q
    ensures n / m == q && n % m == r
  {
    ModUnique(n, r, -q, m);
    assert m * (n / m - q) == 0;
  }

  lemma HalfMod(v: int, m: nat)
    requires m > 0
    ensures v % (2 * m) == 2 * ((v / 2) % m) + v % 2
  {
    var h := v / 2;
    assert h == m * (h / m) + h % m;
    assert (2 * m) * (h / m) == 2 * (m * (h / m));
    DivModUnique(v, h / m, 2 * (h % m) + v % 2, 2 * m);
  }

  lemma DivDiv(n: nat, a: nat, b: nat)
    requires a > 0 && b > 0
    ensures a * b > 0 && n / (a * b) == n / a / b
  {
    var q, r := n / a, n % a;
    var q', r' := q / b, q % b;
    assert n == a * q + r && q == b * q' + r';
    assert a * (b * q') == (a * b) * q' by { MulAssoc(a, b, q'); }
    assert a * r' <= a * (b - 1) by { MulMono(r', b - 1, a); }
    assert 0 <= a * r' by { MulMono(0, r', a); }
    assert n == (a * r' + r) + (a * b) * q';
    assert 0 < a * b by { MulMono(1, b, a); }
    DivModUnique(n, q', a * r' + r, a * b);
  }

  /** Bitwise and of two naturals. */
  function And(x: nat, y: nat): nat
  {
    if x == 0 || y == 0 then 0 else (x % 2) * (y % 2) + 2 * And(x / 2, y / 2)
  }

  /** Bitwise or of two naturals. */
  function Or(x: nat, y: nat): nat
  {
    if x == 0 then y else if y == 0 then x else (if x % 2 + y % 2 > 0 then 1 else 0) + 2 * Or(x / 2, y / 2)
  }

  lemma {:induction false} OrRange(x: nat, y: nat, n: nat)
    requires x < Pow(2, n) && y < Pow(2, n)
    ensures x <= Or(x, y) < Pow(2, n)
  {
    if x != 0 && y != 0 { OrRange(x / 2, y / 2, n - 1); }
  }

  /** One bit of an or that is an addition. */
  lemma {:induction false} OrAddStep(x: nat, y: nat, c: nat)
    requires y == 2 * c && Or(x / 2, c) == x / 2 + c
    ensures Or(x, y) == x + y
  {}

  lemma TwiceProduct(h: nat, n: nat)
    requires n > 0
    ensures h * Pow(2, n) == 2 * (h * Pow(2, n - 1)) && h * Pow(2, n - 1) >= 0
  {
    var p := Pow(2, n - 1);
    MulAssoc(h, 2, p);
    MulMono(0, h, p);
  }

  /** Bits that do not overlap: or is addition. */
  lemma {:induction false} OrDisjoint(lo: nat, hi: nat, n: nat)
    requires lo < Pow(2, n)
    ensures Or(lo, hi * Pow(2, n)) == lo + hi * Pow(2, n)
  {
    if n > 0 {
      OrDisjoint(lo / 2, hi, n - 1);
      TwiceProduct(hi, n);
      OrAddStep(lo, hi * Pow(2, n), hi * Pow(2, n - 1));
    }
  }

  /** Bitwise exclusive or of two naturals. */
  function Xor(x: nat, y: nat): nat
  {
    if x == 0 && y == 0 then 0 else (x % 2 + y % 2) % 2 + 2 * Xor(x / 2, y / 2)
  }
}
