/**
 * Pritchard's wheel sieve on finite sets, the abstract layer the bitmap
 * engine refines.
 *
 * After the primes below p have been processed, the wheel W restricted to
 * [1, n] is the set of p-rough numbers in [1, n] (every number coprime to
 * all primes below p).  Extending replicates a wheel of period l up to n;
 * deleting the prime p removes p and every p * w with w in the wheel.
 */
module Pritchard {
  import opened Arith
  import opened Primes
  import opened Wheel30

  /** The wheel of the primes below p, restricted to [1, n]. */
  ghost function Wheel(p: nat, n: nat): set<nat> {
    set x: nat | 1 <= x <= n && Rough(x, p)
  }

  /** The member of the first period [1, l] that x repeats. */
  function Template(x: nat, l: nat): nat
    requires x >= 1 && l > 0
  {
    (x - 1) % l + 1
  }

  /** Pritchard's extend: roll the wheel w of period l forward up to n. */
  ghost function AbsExtend(w: set<nat>, l: nat, n: nat): set<nat>
    requires l > 0
  {
    set x: nat | 1 <= x <= n && Template(x, l) in w
  }

  /** Pritchard's delete: drop p and every multiple p * v of a member v. */
  ghost function AbsDelete(w: set<nat>, p: nat): set<nat>
    requires p > 0
  {
    set x | x in w && x != p && !(x % p == 0 && x / p in w)
  }

  /** The first wheel (primes 2, 3 and 5) is exactly the integers coprime
      to 30. */
  lemma Rough7(x: nat)
    ensures Rough(x, 7) <==> Coprime30(x)
  {
    if Rough(x, 7) {
      assert !Divides(2, x) && !Divides(3, x) && !Divides(5, x);
    }
    if Coprime30(x) {
      forall d | 2 <= d < 7
        ensures !Divides(d, x)
      {
        if d == 4 && Divides(4, x) {
          DividesTrans(2, 4, x);
        }
        if d == 6 && Divides(6, x) {
          DividesTrans(2, 6, x);
        }
      }
    }
  }

  /** Extending the wheel of length l (a multiple of every prime below p)
      up to n gives the wheel up to n. */
  lemma ExtendWheel(p: nat, l: nat, n: nat)
    requires 1 <= l <= n
    requires forall q: nat :: IsPrime(q) && q < p ==> Divides(q, l)
    ensures AbsExtend(Wheel(p, l), l, n) == Wheel(p, n)
  {
    forall x: nat | 1 <= x <= n
      ensures Template(x, l) in Wheel(p, l) <==> Rough(x, p)
    {
      TemplateRough(x, l, p);
    }
  }

  /** x and its template are rough together. */
  lemma TemplateRough(x: nat, l: nat, p: nat)
    requires x >= 1 && l > 0
    requires forall q: nat :: IsPrime(q) && q < p ==> Divides(q, l)
    ensures 1 <= Template(x, l) <= l
    ensures Rough(Template(x, l), p) <==> Rough(x, p)
  {
    var y := Template(x, l);
    DivNat(x - 1, l);
    var a: nat := (x - 1) / l;
    assert x == l * a + y;
    ModAddMul(l, a, y);
    RoughPeriodic(x, l, p);
    RoughPeriodic(y, l, p);
  }

  /** Deleting the prime p from the wheel of the primes below p gives the
      wheel of the primes up to p; the sentinel 1 may be absent on both
      sides. */
  lemma DeleteWheel(p: nat, n: nat, drop: set<nat>)
    requires IsPrime(p) && drop <= {1}
    ensures AbsDelete(Wheel(p, n) - drop, p) == Wheel(p + 1, n) - drop
  {
    forall x: nat
      ensures x in AbsDelete(Wheel(p, n) - drop, p) <==> x in Wheel(p + 1, n) - drop
    {
      DeleteMember(p, n, drop, x);
    }
  }

  lemma DeleteMember(p: nat, n: nat, drop: set<nat>, x: nat)
    requires IsPrime(p) && drop <= {1}
    ensures x in AbsDelete(Wheel(p, n) - drop, p) <==> x in Wheel(p + 1, n) - drop
  {
    RoughNext(x, p);
    MulDiv(p, 1);
    if x in Wheel(p, n) - drop && x % p == 0 && x != p {
      CofactorInWheel(p, n, drop, x);
    }
  }

  /** Rough for p + 1 is rough for p and not a multiple of p. */
  lemma RoughNext(x: nat, p: nat)
    requires p >= 2
    ensures Rough(x, p + 1) <==> Rough(x, p) && !Divides(p, x)
  {
  }

  /** The cofactor of a wheel member x = p * m other than p is itself a
      wheel member: m is neither 1 nor divisible by a number below p. */
  lemma CofactorInWheel(p: nat, n: nat, drop: set<nat>, x: nat)
    requires IsPrime(p) && drop <= {1}
    requires x in Wheel(p, n) - drop && x % p == 0 && x != p
    ensures x / p in Wheel(p, n) - drop
  {
    var m := Cofactor(x, p);
    RoughCofactor(x, p, m);
    MulLe(1, p, m);
    assert m != 1;
  }

  /** A cofactor of a p-rough number is p-rough. */
  lemma RoughCofactor(x: nat, p: nat, m: nat)
    requires Rough(x, p) && x == p * m
    ensures Rough(m, p)
  {
    forall d | 2 <= d < p
      ensures !Divides(d, m)
    {
      DivisorOfMultiple(d, m, p);
      RoughNoDivisor(x, p, d);
    }
  }

  /** With no a-rough number in [a, q), the wheel of the numbers below a
      equals the wheel of the numbers below q: after the prime p, the next
      wheel member q > p is the next prime. */
  lemma NextWheel(a: nat, q: nat, n: nat)
    requires a < q
    requires forall x: nat :: a <= x < q && 1 <= x <= n ==> !Rough(x, a)
    ensures Wheel(a, n) == Wheel(q, n)
  {
    forall x | x in Wheel(a, n)
      ensures Rough(x, q)
    {
      forall d | 2 <= d < q
        ensures !Divides(d, x)
      {
        if Divides(d, x) {
          var f := RoughFactor(x, a, d);
          DividesLe(f, x);
          RoughMono(f, a, f);
        }
      }
    }
  }

  /** Once p * p > n, the wheel without 1 holds exactly the primes in
      [p, n]. */
  lemma WheelPrimes(p: nat, n: nat)
    requires 2 <= p && n < p * p
    ensures forall x: nat :: x in Wheel(p, n) - {1} <==> IsPrime(x) && p <= x <= n
  {
    forall x: nat | 1 <= x <= n
      ensures x in Wheel(p, n) - {1} <==> IsPrime(x) && p <= x
    {
      if x in Wheel(p, n) - {1} {
        RoughBelowSquare(x, p);
        if x < p {
          NotRoughBelow(x, p);
        }
      }
      if IsPrime(x) && p <= x {
        RoughMono(x, p, x);
      }
    }
  }
}
