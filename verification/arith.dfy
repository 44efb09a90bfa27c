/**
 * Small facts about multiplication, division and divisibility on naturals,
 * each stated for an arbitrary divisor and proved from the uniqueness of
 * Euclidean quotient and remainder.
 */
module Arith {

  lemma MulLe(a: nat, b: nat, c: nat)
    requires a <= b
    ensures c * a <= c * b
  {
  }

  lemma Distrib(u: nat, v: nat, w: nat)
    ensures (u + v) * w == u * w + v * w
  {
  }

  /** d * (b + k) splits, and the extra part is at least d when k >= 1. */
  lemma MulSplit(d: nat, b: nat, k: nat)
    ensures d * (b + k) == d * b + d * k
    ensures k >= 1 ==> d * k >= d
  {
    if k >= 1 {
      MulLe(1, k, d);
    }
  }

  /** Quotient and remainder are the only pair with n == d * q + r, r < d. */
  lemma DivModUnique(n: nat, d: nat, q: nat, r: nat)
    requires d > 0 && r < d && n == d * q + r
    ensures n / d == q && n % d == r
  {
    var q', r' := n / d, n % d;
    if q' > q {
      MulSplit(d, q, q' - q);
    } else if q' < q {
      MulSplit(d, q', q - q');
    }
  }

  lemma ModAddMul(d: nat, a: nat, r: nat)
    requires d > 0
    ensures (d * a + r) % d == r % d && (d * a + r) / d == a + r / d
  {
    var n := d * a + r;
    assert r == d * (r / d) + r % d;
    MulSplit(d, a, r / d);
    DivModUnique(n, d, a + r / d, r % d);
  }

  /** A number below d is its own remainder. */
  lemma ModSmall(r: nat, d: nat)
    requires r < d
    ensures r % d == r && r / d == 0
  {
    DivModUnique(r, d, 0, r);
  }

  /** A multiple of d has remainder 0 and quotient a. */
  lemma MulDiv(d: nat, a: nat)
    requires d > 0
    ensures (d * a) % d == 0 && (d * a) / d == a
  {
    ModAddMul(d, a, 0);
  }

  /** Division by d is monotone. */
  lemma DivMono(a: nat, c: nat, d: nat)
    requires d > 0 && a <= c
    ensures a / d <= c / d
  {
    DivBounds(a, d);
    MulDivLe(d, a / d, c);
  }

  /** The quotient of naturals is a natural. */
  lemma DivNat(n: nat, d: nat)
    requires d > 0
    ensures n / d >= 0 && n % d < d
  {
  }

  /** A multiple of d is d times its quotient. */
  lemma DivExact(n: nat, d: nat)
    requires d > 0 && n % d == 0
    ensures n == d * (n / d)
  {
  }

  /** The product of naturals, named so that callers need not re-derive
      that it is a natural. */
  function Product(a: nat, b: nat): (c: nat)
    ensures c == a * b
  {
    a * b
  }

  /** A remainder is below both the divisor and the dividend. */
  lemma ModLe(a: nat, d: nat)
    requires d > 0
    ensures a % d < d && a % d <= a
  {
    if a < d {
      ModSmall(a, d);
    }
  }

  /** The cofactor of an exact divisor, as a natural. */
  lemma Cofactor(n: nat, d: nat) returns (q: nat)
    requires d > 0 && n % d == 0
    ensures q == n / d && n == d * q
  {
    DivNat(n, d);
    q := n / d;
    DivExact(n, d);
  }

  /** d * (n / d) never exceeds n, and n is below d * (n / d + 1). */
  lemma DivBounds(n: nat, d: nat)
    requires d > 0
    ensures d * (n / d) <= n < d * (n / d) + d
  {
  }

  lemma DividesMul(d: nat, x: nat, a: nat)
    requires d > 0 && x % d == 0
    ensures (x * a) % d == 0
  {
    var m := x / d;
    assert x == d * m;
    assert x * a == d * (m * a);
    MulDiv(d, m * a);
  }

  /** Every divisor of m divides every multiple of m. */
  lemma DivisorOfMultiple(d: nat, m: nat, a: nat)
    requires d > 0
    ensures m % d == 0 ==> (m * a) % d == 0
  {
    if m % d == 0 {
      DividesMul(d, m, a);
    }
  }

  lemma DividesAdd(d: nat, x: nat, y: nat)
    requires d > 0 && x % d == 0 && y % d == 0
    ensures (x + y) % d == 0
  {
    var a, b := x / d, y / d;
    assert x + y == d * (a + b);
    MulDiv(d, a + b);
  }

  lemma DividesSub(d: nat, x: nat, y: nat)
    requires d > 0 && x % d == 0 && y % d == 0 && y <= x
    ensures (x - y) % d == 0
  {
    var a, b := x / d, y / d;
    MulLe(b, a, d);
    assert x - y == d * (a - b);
    MulDiv(d, a - b);
  }

  /** Divisibility is transitive. */
  lemma DividesTrans(e: nat, q: nat, x: nat)
    requires e > 0 && q > 0 && q % e == 0 && x % q == 0
    ensures x % e == 0
  {
    var a, b := x / q, q / e;
    assert x == q * a;
    assert q == e * b;
    assert x == e * (b * a);
    MulDiv(e, b * a);
  }

  /** A positive multiple of d is at least d. */
  lemma DividesLe(d: nat, x: nat)
    requires d > 0 && x > 0 && x % d == 0
    ensures d <= x
  {
    var a := x / d;
    assert x == d * a;
    MulSplit(d, 0, a);
  }

  /** The remainder of a product depends only on the factors' remainders. */
  lemma ModMul(x: nat, y: nat, d: nat)
    requires d > 0
    ensures (x * y) % d == ((x % d) * (y % d)) % d
  {
    var a: nat, r: nat := x / d, x % d;
    var c: nat, s: nat := y / d, y % d;
    var k: nat := a * (d * c + s) + r * c;
    var rs: nat := r * s;
    assert x * y == d * k + rs by {
      assert x == d * a + r && y == d * c + s;
      ProductSplit(d, a, r, c, s);
    }
    ModAddMul(d, k, rs);
  }

  /** (d * a + r) * (d * c + s) is d * (a * (d * c + s) + r * c) + r * s. */
  lemma ProductSplit(d: nat, a: nat, r: nat, c: nat, s: nat)
    ensures (d * a + r) * (d * c + s) == d * (a * (d * c + s) + r * c) + r * s
  {
    var y := d * c + s;
    Distrib(d * a, r, y);
    Distrib(d * c, s, r);
    MulSplit(d, a * y, r * c);
  }

  /** p * w <= x exactly when w <= x / p. */
  lemma MulDivLe(p: nat, w: nat, x: nat)
    requires p > 0
    ensures p * w <= x <==> w <= x / p
  {
    var q := x / p;
    assert p * q <= x < p * q + p;
    if w <= q {
      MulLe(w, q, p);
    } else {
      MulLe(q + 1, w, p);
      MulSplit(p, q, 1);
    }
  }

  /** Reducing modulo a multiple of 30 keeps the residue mod 30 and the byte
      offset inside the period. */
  lemma ModPeriod30(x: nat, l30: nat)
    requires l30 > 0
    ensures x % (30 * l30) % 30 == x % 30
    ensures x % (30 * l30) / 30 == (x / 30) % l30
  {
    var l := 30 * l30;
    var a, r := x / l, x % l;
    assert x == l * a + r;
    var c, s := r / 30, r % 30;
    assert r == 30 * c + s;
    assert x == 30 * (l30 * a + c) + s;
    DivModUnique(x, 30, l30 * a + c, s);
    assert c < l30;
    DivModUnique(x / 30, l30, a, c);
  }
}
