/**
 * Primes, rough numbers and the ascending list of primes up to n: the
 * mathematical vocabulary in which the sieve's results are stated.
 */
module Primes {
  import opened Arith

  predicate Divides(d: nat, x: nat)
    requires d > 0
  {
    x % d == 0
  }

  /** x has no divisor in [2, p): it survives sieving by every number below p. */
  ghost predicate Rough(x: nat, p: nat) {
    forall d :: 2 <= d < p ==> !Divides(d, x)
  }

  ghost predicate IsPrime(n: nat) {
    n >= 2 && Rough(n, n)
  }

  /** The primes up to n in ascending order. */
  ghost function PrimesUpTo(n: nat): seq<nat> {
    if n < 2 then [] else PrimesUpTo(n - 1) + (if IsPrime(n) then [n] else [])
  }

  ghost predicate StrictlyIncreasing(s: seq<nat>) {
    forall i, j :: 0 <= i < j < |s| ==> s[i] < s[j]
  }

  // ---------------------------------------------------------------------
  // Rough numbers
  // ---------------------------------------------------------------------

  /** Rough for a larger bound implies rough for a smaller one. */
  lemma RoughMono(x: nat, p: nat, q: nat)
    requires p <= q && Rough(x, q)
    ensures Rough(x, p)
  {
  }

  lemma RoughNoDivisor(x: nat, p: nat, d: nat)
    requires Rough(x, p) && 2 <= d < p
    ensures x % d != 0
  {
    assert !Divides(d, x);
  }

  /** A number 2 <= x < p is not p-rough: it divides itself. */
  lemma NotRoughBelow(x: nat, p: nat)
    requires 2 <= x < p
    ensures !Rough(x, p)
  {
    MulDiv(x, 1);
    assert Divides(x, x);
  }

  /** The least divisor >= d of x, searching upwards from d. */
  ghost function LeastDivisorFrom(x: nat, d: nat): (q: nat)
    requires 2 <= d <= x && Rough(x, d)
    ensures d <= q <= x && Divides(q, x) && Rough(x, q)
    decreases x - d
  {
    if Divides(d, x) then d else LeastDivisorFrom(x, d + 1)
  }

  /** Every x >= 2 has a prime factor q, and no number in [2, q) divides x. */
  lemma LeastPrimeFactor(x: nat) returns (q: nat)
    requires x >= 2
    ensures 2 <= q <= x && IsPrime(q) && Divides(q, x) && Rough(x, q)
  {
    q := LeastDivisorFrom(x, 2);
    forall e | 2 <= e < q
      ensures !Divides(e, q)
    {
      if Divides(e, q) {
        DividesTrans(e, q, x);
        assert Divides(e, x);
      }
    }
  }

  /** A p-rough number with a divisor d in [2, p') has a prime factor in
      [p, d]. */
  lemma RoughFactor(x: nat, p: nat, d: nat) returns (f: nat)
    requires Rough(x, p) && 2 <= d && Divides(d, x)
    ensures IsPrime(f) && p <= f <= d && Divides(f, x)
  {
    f := LeastPrimeFactor(d);
    DividesTrans(f, d, x);
    assert Divides(f, x);
  }

  /** Rough for a bound p is periodic with any period L that every prime
      below p divides. */
  lemma RoughPeriodic(x: nat, l: nat, p: nat)
    requires l > 0
    requires forall q: nat :: IsPrime(q) && q < p ==> Divides(q, l)
    ensures Rough(x, p) <==> Rough(x % l, p)
  {
    var a, r := x / l, x % l;
    assert x == l * a + r;
    if !Rough(x, p) {
      FactorToRemainder(x, l, a, r, p);
    }
    if !Rough(r, p) {
      FactorFromRemainder(x, l, a, r, p);
    }
  }

  lemma FactorToRemainder(x: nat, l: nat, a: nat, r: nat, p: nat)
    requires l > 0 && x == l * a + r && !Rough(x, p)
    requires forall q: nat :: IsPrime(q) && q < p ==> Divides(q, l)
    ensures !Rough(r, p)
  {
    var d :| 2 <= d < p && Divides(d, x);
    var f := LeastPrimeFactor(d);
    DividesTrans(f, d, x);
    DividesMul(f, l, a);
    DividesSub(f, x, l * a);
    assert Divides(f, r) && 2 <= f < p;
  }

  lemma FactorFromRemainder(x: nat, l: nat, a: nat, r: nat, p: nat)
    requires l > 0 && x == l * a + r && !Rough(r, p)
    requires forall q: nat :: IsPrime(q) && q < p ==> Divides(q, l)
    ensures !Rough(x, p)
  {
    var d :| 2 <= d < p && Divides(d, r);
    var f := LeastPrimeFactor(d);
    DividesTrans(f, d, r);
    DividesMul(f, l, a);
    DividesAdd(f, l * a, r);
    assert Divides(f, x) && 2 <= f < p;
  }

  /** A p-rough number below p * p is prime (or 1 or 0). */
  lemma RoughBelowSquare(x: nat, p: nat)
    requires 2 <= x < p * p && Rough(x, p)
    ensures IsPrime(x)
  {
    if !Rough(x, x) {
      var d :| 2 <= d < x && Divides(d, x);
      // x = f * m with both factors at least p, so x >= p * p.
      var f := RoughFactor(x, p, d);
      var m := Cofactor(x, f);
      CofactorDivides(x, f, m);
      var g := RoughFactor(x, p, m);
      SquareBelow(p, f, m, g);
    }
  }

  /** The cofactor m of a proper divisor f of x is a divisor of x too. */
  lemma CofactorDivides(x: nat, f: nat, m: nat)
    requires 0 < f < x && x == f * m
    ensures m >= 2 && Divides(m, x)
  {
    assert m != 0 && m != 1;
    MulDiv(m, f);
  }

  /** p <= f and p <= g <= m give p * p <= f * m. */
  lemma SquareBelow(p: nat, f: nat, m: nat, g: nat)
    requires p <= f && p <= g <= m
    ensures p * p <= f * m
  {
    MulLe(p, f, m);
    MulLe(p, g, p);
    MulLe(g, m, p);
  }

  // ---------------------------------------------------------------------
  // The ascending list of primes
  // ---------------------------------------------------------------------

  /** PrimesUpTo(n) holds exactly the primes <= n, in increasing order. */
  lemma {:induction false} PrimesUpToSpec(n: nat)
    ensures StrictlyIncreasing(PrimesUpTo(n))
    ensures forall x: nat :: x in PrimesUpTo(n) <==> IsPrime(x) && x <= n
  {
    if n >= 2 {
      PrimesUpToSpec(n - 1);
      var s := PrimesUpTo(n - 1);
      forall i | 0 <= i < |s|
        ensures s[i] < n
      {
        assert s[i] in s;
      }
    }
  }

  /** Without a prime in (a, b], the lists up to a and up to b agree. */
  lemma {:induction false} PrimesGap(a: nat, b: nat)
    requires a <= b
    requires forall x :: a < x <= b ==> !IsPrime(x)
    ensures PrimesUpTo(b) == PrimesUpTo(a)
    decreases b - a
  {
    if a < b {
      PrimesGap(a, b - 1);
      assert !IsPrime(b);
    }
  }

  /** The head of a strictly increasing list is its least element. */
  lemma HeadIsLeast(s: seq<nat>, x: nat)
    requires StrictlyIncreasing(s) && x in s
    ensures s[0] <= x
  {
  }

  lemma HeadIn(t: seq<nat>)
    requires |t| > 0
    ensures t[0] in t
  {
  }

  /** Two strictly increasing lists with the same elements are equal. */
  lemma {:induction false} IncreasingUnique(s: seq<nat>, t: seq<nat>)
    requires StrictlyIncreasing(s) && StrictlyIncreasing(t)
    requires forall x :: x in s <==> x in t
    ensures s == t
    decreases |s|
  {
    if s == [] {
      if |t| > 0 {
        HeadIn(t);
      }
    } else {
      assert s[0] in t;
      HeadIsLeast(t, s[0]);
      assert t[0] in s;
      HeadIsLeast(s, t[0]);
      forall x
        ensures x in s[1..] <==> x in t[1..]
      {
        if x in s[1..] {
          var i :| 1 <= i < |s| && s[i] == x;
          assert x in t && x != t[0];
        }
        if x in t[1..] {
          var i :| 1 <= i < |t| && t[i] == x;
          assert x in s && x != s[0];
        }
      }
      IncreasingUnique(s[1..], t[1..]);
      assert s == [s[0]] + s[1..];
      assert t == [t[0]] + t[1..];
    }
  }

  // ---------------------------------------------------------------------
  // Primorials
  // ---------------------------------------------------------------------

  /** The product of the primes below p: P_k when p is the (k+1)-th prime. */
  ghost function Primorial(p: nat): (r: nat)
    ensures r >= 1
  {
    if p == 0 then 1
    else
      var f: nat := if IsPrime(p - 1) then p - 1 else 1;
      MulLe(1, f, Primorial(p - 1));
      Primorial(p - 1) * f
  }

  /** Passing a prime p multiplies the primorial by p. */
  lemma PrimorialStep(p: nat)
    requires IsPrime(p)
    ensures Primorial(p + 1) == p * Primorial(p)
  {
    assert Primorial(p + 1) == Primorial(p) * p;
  }

  /** Passing integers that are not prime leaves the primorial unchanged. */
  lemma {:induction false} PrimorialGap(a: nat, b: nat)
    requires a <= b
    requires forall x: nat :: a <= x < b ==> !IsPrime(x)
    ensures Primorial(b) == Primorial(a)
    decreases b
  {
    if a < b {
      PrimorialGap(a, b - 1);
      assert !IsPrime(b - 1);
    }
  }

  /** The primorial never decreases. */
  lemma {:induction false} PrimorialMono(a: nat, b: nat)
    requires a <= b
    ensures Primorial(a) <= Primorial(b)
    decreases b
  {
    if a < b {
      PrimorialMono(a, b - 1);
      var f: nat := if IsPrime(b - 1) then b - 1 else 1;
      assert Primorial(b) == Primorial(b - 1) * f;
      MulLe(1, f, Primorial(b - 1));
    }
  }

  /** Every prime below p divides the primorial of p. */
  lemma {:induction false} PrimorialDivisible(p: nat)
    ensures forall q: nat :: IsPrime(q) && q < p ==> Divides(q, Primorial(p))
    decreases p
  {
    if p > 0 {
      PrimorialDivisible(p - 1);
      var a := Primorial(p - 1);
      var f: nat := if IsPrime(p - 1) then p - 1 else 1;
      assert Primorial(p) == a * f;
      forall q: nat | IsPrime(q) && q < p
        ensures Divides(q, Primorial(p))
      {
        if q < p - 1 {
          DivisorOfMultiple(q, a, f);
        } else {
          MulDiv(q, a);
          assert a * f == q * a;
        }
      }
    }
  }

  // ---------------------------------------------------------------------
  // Primes below 121
  // ---------------------------------------------------------------------

  /** Below 121 = 11 * 11 primality is decided by the divisors 2, 3, 5, 7. */
  predicate SmallPrime(x: nat) {
    x == 2 || x == 3 || x == 5 || x == 7
    || (x >= 2 && x % 2 != 0 && x % 3 != 0 && x % 5 != 0 && x % 7 != 0)
  }

  lemma PrimeBelow121(x: nat)
    requires x < 121
    ensures IsPrime(x) <==> SmallPrime(x)
  {
    if IsPrime(x) {
      PrimeIsSmallPrime(x);
    }
    if SmallPrime(x) {
      SmallPrimeIsPrime(x);
    }
  }

  lemma PrimeIsSmallPrime(x: nat)
    requires x < 121 && IsPrime(x)
    ensures SmallPrime(x)
  {
    if x > 7 {
      RoughNoDivisor(x, x, 2);
      RoughNoDivisor(x, x, 3);
      RoughNoDivisor(x, x, 5);
      RoughNoDivisor(x, x, 7);
    } else if x == 4 || x == 6 {
      RoughNoDivisor(x, x, 2);
    }
  }

  lemma SmallPrimeIsPrime(x: nat)
    requires x < 121 && SmallPrime(x)
    ensures IsPrime(x)
  {
    if x > 7 {
      forall d | 2 <= d < 11
        ensures !Divides(d, x)
      {
        if d % 2 == 0 && x % d == 0 {
          DividesTrans(2, d, x);
        } else if d == 9 && x % d == 0 {
          DividesTrans(3, d, x);
        }
      }
      RoughBelowSquare(x, 11);
    }
  }

  /** The number of x in (lo, hi] with SmallPrime(x). */
  function SmallPrimesIn(lo: nat, hi: nat): nat
    decreases hi
  {
    if hi <= lo then 0 else SmallPrimesIn(lo, hi - 1) + (if SmallPrime(hi) then 1 else 0)
  }

  /** Below 121 the list of primes grows by the count of SmallPrime. */
  lemma {:induction false} PrimesUpToCount(lo: nat, hi: nat)
    requires lo <= hi < 121
    ensures |PrimesUpTo(hi)| == |PrimesUpTo(lo)| + SmallPrimesIn(lo, hi)
    decreases hi
  {
    if lo < hi {
      PrimesUpToCount(lo, hi - 1);
      PrimeBelow121(hi);
    }
  }

  lemma Block0() ensures SmallPrimesIn(0, 10) == 4 { }
  lemma Block1() ensures SmallPrimesIn(10, 20) == 4 { }
  lemma Block2() ensures SmallPrimesIn(20, 30) == 2 { }
  lemma Block3() ensures SmallPrimesIn(30, 40) == 2 { }
  lemma Block4() ensures SmallPrimesIn(40, 50) == 3 { }
  lemma Block5() ensures SmallPrimesIn(50, 60) == 2 { }
  lemma Block6() ensures SmallPrimesIn(60, 70) == 2 { }
  lemma Block7() ensures SmallPrimesIn(70, 80) == 3 { }
  lemma Block8() ensures SmallPrimesIn(80, 90) == 2 { }
  lemma Block9() ensures SmallPrimesIn(90, 100) == 1 { }

  /** One step of a count: c primes up to lo and d more in (lo, hi]. */
  lemma CountStep(lo: nat, hi: nat, c: nat, d: nat)
    requires lo <= hi < 121 && |PrimesUpTo(lo)| == c && SmallPrimesIn(lo, hi) == d
    ensures |PrimesUpTo(hi)| == c + d
  {
    PrimesUpToCount(lo, hi);
  }

  /** There are 25 primes up to 100. */
  lemma PrimesToHundred()
    ensures |PrimesUpTo(100)| == 25
  {
    assert PrimesUpTo(0) == [];
    Block0(); CountStep(0, 10, 0, 4);
    Block1(); CountStep(10, 20, 4, 4);
    Block2(); CountStep(20, 30, 8, 2);
    Block3(); CountStep(30, 40, 10, 2);
    Block4(); CountStep(40, 50, 12, 3);
    Block5(); CountStep(50, 60, 15, 2);
    Block6(); CountStep(60, 70, 17, 2);
    Block7(); CountStep(70, 80, 19, 3);
    Block8(); CountStep(80, 90, 22, 2);
    Block9(); CountStep(90, 100, 24, 1);
  }
}
