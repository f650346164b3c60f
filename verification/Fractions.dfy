/** Quotients and divisibility of natural numbers, and powers of fractions. */
module Fractions {

  lemma Multiple(e: int, d: nat)
    ensures e >= 1 ==> e * d >= d
    ensures e <= -1 ==> e * d <= -(d as int)
  {
    if e >= 1 {
      assert (e - 1) * d >= 0;
    } else if e <= -1 {
      assert (-1 - e) * d >= 0;
    }
  }

  lemma QuotientIs(n: nat, d: nat, q: nat, r: nat)
    requires d >= 1 && n == q * d + r && r < d
    ensures n / d == q
  {
    var e := n / d - q;
    assert n == d * (n / d) + n % d;
    assert e * d == r - n % d;
    Multiple(e, d);
  }

  lemma QuotientBelow(n: nat, p: nat, k: nat)
    requires k >= 1 && n < p * k
    ensures n / k < p
  {
    var e := n / k - p;
    assert n == k * (n / k) + n % k;
    assert e * k == n - n % k - p * k;
    Multiple(e, k);
  }

  lemma DivideTwice(n: nat, a: nat, b: nat, ab: nat)
    requires a >= 1 && b >= 1 && ab == a * b
    ensures ab >= 1 && n / a / b == n / ab
  {
    var m := n / a;
    var q, r, s := m / b, m % b, n % a;
    DivideParts(n, a, b, ab, m, q, r, s);
    QuotientIs(n, ab, q, a * r + s);
  }

  lemma DivideParts(n: nat, a: nat, b: nat, ab: nat, m: nat, q: nat, r: nat, s: nat)
    requires n == a * m + s && m == b * q + r && r < b && s < a && ab == a * b
    ensures n == q * ab + (a * r + s) && a * r + s < ab
  {
    RegroupParts(a, b, m, q, r);
    RemainderFits(a, b, r);
  }

  lemma RegroupParts(a: nat, b: nat, m: nat, q: nat, r: nat)
    requires m == b * q + r
    ensures a * m == q * (a * b) + a * r
  {
    var z := b * q;
    assert a * (z + r) == a * z + a * r;
    assert a * (b * q) == q * (a * b);
  }

  lemma RemainderFits(a: nat, b: nat, r: nat)
    requires r < b
    ensures a * r + a <= a * b
  {
    var j := b - 1 - r;
    assert a * j >= 0;
    assert a * (j + r + 1) == a * j + a * r + a;
  }

  function NatPower(k: nat, n: nat): nat {
    if n == 0 then 1 else k * NatPower(k, n - 1)
  }

  lemma {:induction false} NatPowerPositive(k: nat, n: nat)
    requires k >= 1
    ensures NatPower(k, n) >= 1
  {
    if n > 0 {
      NatPowerPositive(k, n - 1);
      assert (k - 1) * NatPower(k, n - 1) >= 0;
    }
  }

  lemma {:induction false} NatPowerOfOne(n: nat)
    ensures NatPower(1, n) == 1
  {
    if n > 0 {
      NatPowerOfOne(n - 1);
    }
  }

  predicate Divides(d: nat, n: int)
    requires d >= 1
  {
    n % d == 0
  }

  lemma DividesIntro(d: nat, n: int, k: int)
    requires d >= 1 && n == k * d
    ensures Divides(d, n)
  {
    assert n == d * (n / d) + n % d;
    var j := k - n / d;
    assert j * d == n % d;
    if j >= 1 {
      AtLeastOnce(j, d);
    } else if j <= -1 {
      AtLeastOnce(-j, d);
    }
  }

  lemma AtLeastOnce(j: int, d: nat)
    requires j >= 1
    ensures j * d >= d
  {
    assert (j - 1) * d >= 0;
  }

  lemma DividesElim(d: nat, n: int) returns (k: int)
    requires d >= 1 && Divides(d, n)
    ensures n == k * d
  {
    k := n / d;
  }

  /** No common divisor but 1. */
  ghost predicate Coprime(p: nat, q: nat) {
    forall d: nat :: d >= 1 && Divides(d, p) && Divides(d, q) ==> d == 1
  }

  /** Euclid's algorithm: some combination of p and q divides both. */
  lemma {:induction false} Bezout(p: nat, q: nat) returns (u: int, v: int, g: nat)
    requires q >= 1
    ensures g >= 1 && u * p + v * q == g && Divides(g, p) && Divides(g, q)
    decreases q
  {
    hide Divides;
    var r, k := p % q, p / q;
    assert p == k * q + r;
    if r == 0 {
      u, v, g := 0, 1, q;
      DividesIntro(q, p, k);
      DividesIntro(q, q, 1);
    } else {
      var u0, v0;
      u0, v0, g := Bezout(q, r);
      u, v := v0, u0 - v0 * k;
      assert v0 * p == v0 * (k * q) + v0 * r;
      assert v0 * (k * q) == v0 * k * q;
      assert (u0 - v0 * k) * q == u0 * q - v0 * k * q;
      var a := DividesElim(g, q);
      var b := DividesElim(g, r);
      assert k * (a * g) == k * a * g;
      assert (k * a + b) * g == k * a * g + b * g;
      DividesIntro(g, p, k * a + b);
    }
  }

  /** Euclid's lemma. */
  lemma DropFactor(p: nat, q: nat, z: int)
    requires q >= 1 && Coprime(p, q) && Divides(q, p * z)
    ensures Divides(q, z)
  {
    hide Divides;
    var u, v, g := Bezout(p, q);
    assert g == 1;
    var k := DividesElim(q, p * z);
    assert (u * p + v * q) * z == u * p * z + v * q * z;
    assert u * p * z == u * (p * z) == u * (k * q) == u * k * q;
    assert v * q * z == v * z * q;
    assert (u * k + v * z) * q == u * k * q + v * z * q;
    DividesIntro(q, z, u * k + v * z);
  }

  lemma {:induction false} DropPower(p: nat, q: nat, j: nat, z: int)
    requires q >= 1 && Coprime(p, q) && Divides(q, NatPower(p, j) * z)
    ensures Divides(q, z)
  {
    hide Divides, Coprime;
    if j > 0 {
      var w := NatPower(p, j - 1);
      assert p * w * z == p * (w * z);
      DropFactor(p, q, w * z);
      DropPower(p, q, j - 1, z);
    } else {
      assert NatPower(p, 0) * z == z;
    }
  }

  /** A power of q that divides a multiple of a power of p divides the other factor, for coprime p and q. */
  lemma {:induction false} PowerDividesFactor(p: nat, q: nat, j: nat, k: nat, z: int)
    requires q >= 1 && Coprime(p, q) && NatPower(q, k) >= 1 && Divides(NatPower(q, k), NatPower(p, j) * z)
    ensures Divides(NatPower(q, k), z)
  {
    hide Divides, Coprime;
    if k == 0 {
      DividesIntro(1, z, z);
    } else {
      var w, y := NatPower(q, k - 1), NatPower(p, j);
      NatPowerPositive(q, k - 1);
      var c := DividesElim(q * w, y * z);
      assert c * (q * w) == c * w * q;
      DividesIntro(q, y * z, c * w);
      DropPower(p, q, j, z);
      var z1 := DividesElim(q, z);
      assert y * (z1 * q) == y * z1 * q;
      CancelFactor(q, y * z1, c * w);
      DividesIntro(w, y * z1, c);
      PowerDividesFactor(p, q, j, k - 1, z1);
      var e := DividesElim(w, z1);
      assert e * w * q == e * (q * w);
      DividesIntro(q * w, z, e);
    }
  }

  lemma CancelFactor(q: nat, a: int, b: int)
    requires q >= 1 && a * q == b * q
    ensures a == b
  {
    var j := a - b;
    assert j * q == a * q - b * q == 0;
    if j >= 1 {
      AtLeastOnce(j, q);
    } else if j <= -1 {
      AtLeastOnce(-j, q);
    }
  }

  lemma {:induction false} PowerDividesPower(q: nat, a: nat, c: nat)
    requires q >= 1 && a <= c && NatPower(q, a) >= 1
    ensures Divides(NatPower(q, a), NatPower(q, c))
    decreases c
  {
    hide Divides;
    if a == c {
      DividesIntro(NatPower(q, a), NatPower(q, c), 1);
    } else {
      PowerDividesPower(q, a, c - 1);
      var k := DividesElim(NatPower(q, a), NatPower(q, c - 1));
      assert q * (k * NatPower(q, a)) == q * k * NatPower(q, a);
      DividesIntro(NatPower(q, a), NatPower(q, c), q * k);
    }
  }

  lemma DividesChain(d: nat, e: nat, n: int)
    requires d >= 1 && e >= 1 && Divides(d, e) && Divides(e, n)
    ensures Divides(d, n)
  {
    hide Divides;
    var k := DividesElim(d, e);
    var l := DividesElim(e, n);
    assert l * (k * d) == l * k * d;
    DividesIntro(d, n, l * k);
  }
}
