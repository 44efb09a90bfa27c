/**
 * Sift(N): Pritchard's sieve on the wheel-30 bitmap.
 *
 * The primes 2, 3 and 5 are emitted first; the bitmap then starts as the
 * wheel {1, 7, 11, ..., 29} of period 30 (cut down to N when N < 30).  While
 * p * p <= N, each round extends the wheel towards p * length, deletes p and
 * its multiples, emits p and steps p to the next marked integer.  Finally the
 * wheel is extended to N, 1 is unmarked, and the survivors are counted or
 * enumerated: they are exactly the primes in [p, N].
 */
module Sift {
  import opened Arith
  import opened Primes
  import opened Wheel30
  import opened Bitmap
  import opened Pritchard
  import opened Composite
  import Delete
  import Extend

  function Min(a: int, b: int): int {
    if a <= b then a else b
  }

  /** `((N / 30 + 1 - 1) / 8 + 1) * 8`: a byte for every integer up to N,
      rounded up to whole 64-bit words. */
  function BitmapSize(n: nat): (size: nat)
    ensures size % 8 == 0 && n / 30 < size
    ensures size == 8 * (n / 240) + 8
  {
    ((n / 30 + 1 - 1) / 8 + 1) * 8
  }

  /** Every prime below p divides l: l is a period of the wheel of the
      primes below p. */
  ghost predicate Period(p: nat, l: nat) {
    forall q: nat :: IsPrime(q) && q < p ==> Divides(q, l)
  }

  /** The invariant of the main loop.  p is the next integer to delete (a
      prime while p <= n); the bitmap holds the wheel of the primes below p
      up to length, less the sentinel 1 once it has been unmarked; length
      is min(P, n) for P the product of the primes below p, and while
      length < n it is a multiple of 30 and a period of that wheel; and the
      primes emitted so far are the primes below p. */
  ghost predicate Sieving(b: Bytes, n: nat, p: nat, pIndex: nat, length: nat, drop: set<nat>, primes: seq<nat>) {
    && 7 <= p && Coprime30(p) && pIndex % 8 == BitPos(p)
    && |b| == BitmapSize(n)
    && 7 <= length <= n
    && length == Min(Primorial(p), n)
    && (length < n ==> 30 <= length && length % 30 == 0 && drop == {} && Period(p, length))
    && (p <= n ==> IsPrime(p) && p <= length)
    && drop <= {1}
    && Abs(b) == Wheel(p, length) - drop
    && primes == PrimesUpTo(Min(p - 1, n))
  }

  // ---------------------------------------------------------------------
  // Sift
  // ---------------------------------------------------------------------

  /** `Sift(N, printPrimes)`: returns the number of primes up to N and, when
      printing, the lines printed, which are those primes in ascending
      order. */
  method Sift(w: Width, n: nat, printPrimes: bool) returns (count: nat, out: seq<nat>)
    requires n >= 2
    ensures count == |PrimesUpTo(n)|
    ensures out == if printPrimes then PrimesUpTo(n) else []
  {
    var primes: seq<nat> := [2];
    var k: nat := 1;
    if n >= 3 {
      k := k + 1;
      primes := primes + [3];
    }
    if n >= 5 {
      k := k + 1;
      primes := primes + [5];
    }
    if n < 7 {
      SmallPrimes(n);
      count := k;
      out := if printPrimes then primes else [];
      return;
    }
    var b, length := FirstBitmap(n);
    var p: nat, pIndex: nat := 7, 1;
    ghost var drop: set<nat> := {};
    FirstRound(n);
    FirstPrimorial();
    while p * p <= n
      invariant Sieving(b, n, p, pIndex, length, drop, primes) && k == |primes|
      decreases n - p
    {
      b, p, pIndex, length, drop, primes := Round(w, b, n, p, pIndex, length, drop, primes);
      k := k + 1;
    }
    b := Finish(b, n, p, length, drop);
    count, out := Report(b, n, p, primes, k, printPrimes);
  }

  /** `calloc`, `bitmap[0] = 0xFF` and, when N < 30, the mask down to N:
      the first wheel up to length = min(30, N). */
  method FirstBitmap(n: nat) returns (b: Bytes, length: nat)
    requires n >= 7
    ensures |b| == BitmapSize(n) && length == (if n < 30 then n else 30)
    ensures Abs(b) == Wheel(7, length)
  {
    b := seq(BitmapSize(n), _ => 0 as bv8);
    b := b[0 := 0xFF];
    length := 30;
    if n < 30 {
      b := b[0 := b[0] & Extend.KeepThrough(LastBit(n))];
      length := n;
    }
    FirstWheel(b, n, length);
  }

  /** The final count (or print) of the bitmap, added to the primes
      emitted in the loop. */
  method Report(b: Bytes, n: nat, p: nat, primes: seq<nat>, k: nat, printPrimes: bool) returns (count: nat, out: seq<nat>)
    requires |b| == BitmapSize(n) && n < p * p && p >= 2 && Abs(b) == Wheel(p, n) - {1}
    requires primes == PrimesUpTo(Min(p - 1, n)) && k == |primes|
    ensures count == |PrimesUpTo(n)|
    ensures out == if printPrimes then PrimesUpTo(n) else []
  {
    var size := |b|;
    Remaining(b, n, p);
    var nr: nat;
    var listed: seq<nat> := [];
    if printPrimes {
      listed, nr := Print(b, size / 8);
    } else {
      nr := Count(b, size);
    }
    Concluded(primes, Listed(b, 64 * (size / 8)), p, n);
    count := k + nr;
    out := if printPrimes then primes + listed else [];
  }

  /** The primes up to n < 7 are the ones emitted before the bitmap. */
  lemma SmallPrimes(n: nat)
    requires 2 <= n < 7
    ensures PrimesUpTo(n) == [2] + (if n >= 3 then [3] else []) + (if n >= 5 then [5] else [])
  {
    PrimesToSix();
    if n < 6 {
      assert PrimesUpTo(6) == PrimesUpTo(5);
      if n < 5 {
        assert PrimesUpTo(5) == PrimesUpTo(4) + [5];
        if n < 4 {
          assert PrimesUpTo(4) == PrimesUpTo(3);
          if n < 3 {
            assert PrimesUpTo(3) == PrimesUpTo(2) + [3];
          }
        }
      }
    }
  }

  /** 2, 3 and 5 are the primes up to 6. */
  lemma PrimesToSix()
    ensures PrimesUpTo(6) == [2, 3, 5]
    ensures forall q: nat :: IsPrime(q) && q < 7 ==> q == 2 || q == 3 || q == 5
  {
    assert !Rough(4, 4) by {
      assert Divides(2, 4);
    }
    assert !Rough(6, 6) by {
      assert Divides(2, 6);
    }
    assert Rough(5, 5) by {
      forall d | 2 <= d < 5
        ensures !Divides(d, 5)
      {
      }
    }
    assert PrimesUpTo(2) == [2];
  }

  /** The bitmap 0xFF, 0, 0, ... (masked down to n when n < 30) holds the
      first wheel up to min(30, n). */
  lemma FirstWheel(b: Bytes, n: nat, length: nat)
    requires 7 <= n && |b| == BitmapSize(n) && length == (if n < 30 then n else 30)
    requires b[0] == (if n < 30 then 0xFF & Extend.KeepThrough(LastBit(n)) else 0xFF)
    requires forall j :: 1 <= j < |b| ==> b[j] == 0
    ensures Abs(b) == Wheel(7, length)
  {
    forall x: nat
      ensures x in Abs(b) <==> x in Wheel(7, length)
    {
      Rough7(x);
      if Coprime30(x) {
        MarkedHeld(b, x);
        if x < 30 {
          FirstByte(b[0], n, length, x);
        } else {
          assert x != 30;
          if x / 30 < |b| {
            assert b[x / 30] == 0;
          }
        }
      }
    }
  }

  /** Byte 0 of the first bitmap has the bit of a wheel integer x < 30
      exactly when x <= min(30, n). */
  lemma FirstByte(v: bv8, n: nat, length: nat, x: nat)
    requires 7 <= n && length == (if n < 30 then n else 30)
    requires v == (if n < 30 then 0xFF & Extend.KeepThrough(LastBit(n)) else 0xFF)
    requires Coprime30(x) && x < 30
    ensures ByteBit(v, BitPos(x)) <==> x <= length
  {
    var j := BitPos(x);
    FullByte(j);
    if n < 30 {
      assert n % 30 == n;
      var t := LastBit(n);
      Extend.ByteMask(0xFF, t, j);
      Extend.SameByteOrder(x, n);
    }
  }

  lemma FullByte(j: nat)
    requires j < 8
    ensures ByteBit(0xFF, j)
  {
  }

  /** The product of the primes below 7 is 30, the period of the first
      wheel. */
  lemma FirstPrimorial()
    ensures Primorial(7) == 30
  {
    PrimesToSix();
    PrimesUpToSpec(6);
    assert IsPrime(2) && IsPrime(3) && IsPrime(5);
    assert !IsPrime(4) && !IsPrime(6);
    assert Primorial(2) == 1;
    assert Primorial(4) == 6;
    assert Primorial(6) == 30;
  }

  /** The invariant holds on entry with p = 7: the primes below 7 are
      2, 3 and 5, which divide 30, and 7 is prime. */
  lemma FirstRound(n: nat)
    requires n >= 7
    ensures PrimesUpTo(Min(7 - 1, n)) == [2, 3, 5]
    ensures Period(7, 30) && IsPrime(7) && Coprime30(7) && BitPos(7) == 1
  {
    PrimesToSix();
    forall q: nat | IsPrime(q) && q < 7
      ensures Divides(q, 30)
    {
    }
    assert Rough(7, 7) by {
      forall d | 2 <= d < 7
        ensures !Divides(d, 7)
      {
      }
    }
  }

  // ---------------------------------------------------------------------
  // One round of the main loop
  // ---------------------------------------------------------------------

  /** Extend, delete p, emit p, step to the next marked integer. */
  method Round(w: Width, b: Bytes, n: nat, p: nat, pIndex: nat, length: nat, ghost drop: set<nat>, primes: seq<nat>)
    returns (b': Bytes, p': nat, pIndex': nat, length': nat, ghost drop': set<nat>, primes': seq<nat>)
    requires Sieving(b, n, p, pIndex, length, drop, primes) && p * p <= n
    ensures Sieving(b', n, p', pIndex', length', drop', primes') && p < p' && |primes'| == |primes| + 1
  {
    MulLe(1, p, p);
    var b1;
    b1, length', drop' := Grow(b, n, p, length, drop);
    DeleteReady(b1, p, length', drop', n);
    var b2 := Delete.Delete(w, b1, p, length');
    Delete.DeleteRefines(b1, b2, p, length');
    DeleteWheel(p, length', drop');
    primes' := primes + [p];
    PrimeAppended(primes, p, n);
    p', pIndex' := Advance(b2, n, p, pIndex, length', drop');
    NextPrime(b2, n, p, p', length', drop');
    LengthStep(p, p', n, length, length');
    b' := b2;
  }

  /** The extension step of a round: while length < n, roll the wheel
      forward to min(p * length, n) and unmark 1 when n is reached. */
  method Grow(b: Bytes, n: nat, p: nat, length: nat, ghost drop: set<nat>)
    returns (b': Bytes, length': nat, ghost drop': set<nat>)
    requires |b| == BitmapSize(n) && 7 <= p <= length <= n && IsPrime(p) && p * p <= n
    requires length < n ==> 30 <= length && length % 30 == 0 && drop == {} && Period(p, length)
    requires drop <= {1} && Abs(b) == Wheel(p, length) - drop
    ensures |b'| == |b| && p * p <= length' <= n && length <= length'
    ensures length' == if length < n then Min(p * length, n) else length
    ensures drop' <= {1} && Abs(b') == Wheel(p, length') - drop'
    ensures length' < n ==> 30 <= length' && length' % 30 == 0 && drop' == {} && Period(p + 1, length')
  {
    if length < n {
      var target: nat := Min(p * length, n);
      MulLe(p, length, p);
      MulLe(1, p, length);
      b', length' := Extend.Extend(b, length, target);
      Extend.ExtendRefines(b, b', length / 30, length, target);
      ExtendWheel(p, length, target);
      drop' := {};
      if length' == n {
        UnmarkSpec(b', 1);
        b' := Unmark(b', 1);
        drop' := {1};
      } else {
        PeriodGrow(p, length);
      }
    } else {
      b', length', drop' := b, length, drop;
    }
  }

  /** `length = min(P_k, N)` is kept: growing length towards p * length
      and stepping p to the next prime q multiplies P by p alone, since no
      prime lies strictly between p and q. */
  lemma LengthStep(p: nat, q: nat, n: nat, length: nat, length': nat)
    requires 2 <= p < q && IsPrime(p) && length <= n
    requires length == Min(Primorial(p), n)
    requires length' == if length < n then Min(p * length, n) else length
    requires PrimesUpTo(Min(q - 1, n)) == PrimesUpTo(p)
    requires q > n ==> length' == n
    ensures length' == Min(Primorial(q), n)
  {
    var pp := Primorial(p);
    PrimorialStep(p);
    MulLe(1, p, pp);
    if q <= n {
      forall x: nat | p + 1 <= x < q
        ensures !IsPrime(x)
      {
        PrimesUpToSpec(p);
        PrimesUpToSpec(q - 1);
        assert x !in PrimesUpTo(p);
      }
      PrimorialGap(p + 1, q);
    } else {
      PrimorialMono(p + 1, q);
    }
  }

  /** Multiplying a period of the wheel of the primes below p by p gives a
      multiple of 30 that is a period of the wheel of the primes up to p. */
  lemma PeriodGrow(p: nat, l: nat)
    requires p >= 2 && l % 30 == 0 && Period(p, l)
    ensures (p * l) % 30 == 0 && Period(p + 1, p * l)
  {
    DivisorOfMultiple(30, l, p);
    forall q: nat | IsPrime(q) && q < p + 1
      ensures Divides(q, p * l)
    {
      if q < p {
        DivisorOfMultiple(q, l, p);
      } else {
        MulDiv(p, l);
      }
    }
  }

  /** What Delete demands holds in the middle of a round: no wheel integer
      strictly between 1 and p is p-rough, so none is marked. */
  lemma DeleteReady(b: Bytes, p: nat, length: nat, drop: set<nat>, n: nat)
    requires |b| == BitmapSize(n) && 7 <= p && IsPrime(p) && p * p <= length <= n
    requires drop <= {1} && Abs(b) == Wheel(p, length) - drop
    ensures Delete.DeleteReq(b, p, length)
  {
    Rough7(p);
    RoughMono(p, 7, p);
    forall m: nat | 1 < m < p && Coprime30(m)
      ensures !Marked(b, m)
    {
      NotRoughBelow(m, p);
      MarkedHeld(b, m);
    }
    DivMono(length, n, 240);
  }

  /** Emitting the prime p extends the primes below p by p. */
  lemma PrimeAppended(primes: seq<nat>, p: nat, n: nat)
    requires 7 <= p <= n && IsPrime(p) && primes == PrimesUpTo(Min(p - 1, n))
    ensures primes + [p] == PrimesUpTo(p)
  {
  }

  /** The next-prime search `p += diff[p_index++ % 8]` until marked: the
      first marked wheel integer after p.  The search stops at n, which it
      never reaches while length < n. */
  method Advance(b: Bytes, n: nat, p: nat, pIndex: nat, length: nat, ghost drop: set<nat>)
    returns (q: nat, qIndex: nat)
    requires |b| == BitmapSize(n) && 7 <= p && p * p <= length <= n
    requires IsPrime(p) && Coprime30(p) && pIndex % 8 == BitPos(p)
    requires drop <= {1} && Abs(b) == Wheel(p + 1, length) - drop
    requires length < n ==> length % 30 == 0 && drop == {} && Period(p + 1, length)
    ensures p < q && Coprime30(q) && qIndex % 8 == BitPos(q)
    ensures q <= n ==> Marked(b, q)
    ensures q > n ==> length == n
    ensures Unmarked(b, p, q)
  {
    ghost var bound: nat := n;
    if length < n {
      LastOfPeriod(b, p, length);
      bound := length - 1;
    }
    SearchStep(p, pIndex);
    q, qIndex := p + Diff[pIndex % 8], pIndex + 1;
    while q <= n && !Marked(b, q)
      invariant p < q && Coprime30(q) && qIndex % 8 == BitPos(q)
      invariant Unmarked(b, p, q)
      invariant length < n ==> q <= bound && Marked(b, bound) && Coprime30(bound)
      decreases n - q
    {
      SearchStep(q, qIndex);
      UnmarkedStep(b, p, q, qIndex);
      q, qIndex := q + Diff[qIndex % 8], qIndex + 1;
    }
  }

  /** No wheel integer strictly between p and q is marked. */
  ghost predicate Unmarked(b: Bytes, p: nat, q: nat) {
    forall y: nat :: p < y < q && Coprime30(y) ==> !Marked(b, y)
  }

  /** Stepping past an unmarked q keeps the gap unmarked. */
  lemma UnmarkedStep(b: Bytes, p: nat, q: nat, i: nat)
    requires Unmarked(b, p, q) && p < q && !Marked(b, q) && Coprime30(q) && i % 8 == BitPos(q)
    ensures Unmarked(b, p, q + Diff[i % 8])
  {
    SearchStep(q, i);
  }

  /** `x += diff[i++ % 8]` with i in step with the bit of x: x moves to
      the very next wheel integer and i stays in step. */
  lemma SearchStep(x: nat, i: nat)
    requires Coprime30(x) && i % 8 == BitPos(x)
    ensures x < x + Diff[i % 8] && Coprime30(x + Diff[i % 8]) && (i + 1) % 8 == BitPos(x + Diff[i % 8])
    ensures forall y: nat :: x < y < x + Diff[i % 8] ==> !Coprime30(y)
  {
    DiffStep(x);
    NextResidueIndex(i);
    NoWheelBetween(x);
  }

  /** No wheel integer lies strictly between x and the next one. */
  lemma NoWheelBetween(x: nat)
    requires Coprime30(x)
    ensures forall y: nat :: x < y < x + Diff[BitPos(x)] ==> !Coprime30(y)
  {
    DiffStep(x);
    var z := x + Diff[BitPos(x)];
    IdxVal(Idx(x) + 1);
    forall y: nat | x < y < z && Coprime30(y)
      ensures false
    {
      IdxMonotone(x, y);
      IdxMonotone(y, z);
    }
  }

  lemma NextResidueIndex(i: nat)
    ensures (i + 1) % 8 == (i % 8 + 1) % 8
  {
    var q: nat, r: nat := i / 8, i % 8;
    assert i + 1 == 8 * q + (r + 1);
    ModAddMul(8, q, r + 1);
  }

  /** While length < n, length - 1 is a marked wheel integer above p: it
      is coprime to every prime up to p, all of which divide length. */
  lemma LastOfPeriod(b: Bytes, p: nat, length: nat)
    requires 7 <= p && p * p <= length && length % 30 == 0 && Period(p + 1, length)
    requires Abs(b) == Wheel(p + 1, length)
    ensures p < length - 1 && Coprime30(length - 1) && Marked(b, length - 1)
  {
    MulLe(7, p, p);
    RoughBeforePeriod(length, p + 1);
    RoughMono(length - 1, 7, p + 1);
    Rough7(length - 1);
    assert length - 1 in Wheel(p + 1, length);
    MarkedHeld(b, length - 1);
  }

  /** l - 1 shares no factor with a period l: it is rough for the wheel
      that l is a period of. */
  lemma RoughBeforePeriod(l: nat, a: nat)
    requires l >= 2 && Period(a, l)
    ensures Rough(l - 1, a)
  {
    var m: nat := l - 1;
    forall d | 2 <= d < a
      ensures !Divides(d, m)
    {
      if Divides(d, m) {
        var f := LeastPrimeFactor(d);
        DividesTrans(f, d, m);
        assert Divides(f, l);
        PredecessorNotDivisible(f, l);
      }
    }
  }

  /** A divisor f >= 2 of l does not divide l - 1. */
  lemma PredecessorNotDivisible(f: nat, l: nat)
    requires f >= 2 && l >= 1 && l % f == 0
    ensures (l - 1) % f != 0
  {
    var m := Cofactor(l, f);
    assert m >= 1;
    var m1: nat := m - 1;
    MulSplit(f, m1, 1);
    assert l - 1 == f * m1 + (f - 1);
    ModAddMul(f, m1, f - 1);
    ModSmall(f - 1, f);
  }

  /** The integer the search stops at is the next prime (or lies past n),
      the wheel of the primes below it equals the wheel of the primes up to
      p, and no prime lies strictly between. */
  lemma NextPrime(b: Bytes, n: nat, p: nat, q: nat, length: nat, drop: set<nat>)
    requires 7 <= p < q && p * p <= length <= n && IsPrime(p) && Coprime30(p)
    requires drop <= {1} && Abs(b) == Wheel(p + 1, length) - drop
    requires length < n ==> Period(p + 1, length)
    requires q <= n ==> Marked(b, q)
    requires q > n ==> length == n
    requires Coprime30(q)
    requires Unmarked(b, p, q)
    ensures Wheel(p + 1, length) == Wheel(q, length)
    ensures q <= n ==> IsPrime(q) && q <= length
    ensures PrimesUpTo(Min(q - 1, n)) == PrimesUpTo(p)
    ensures length < n ==> Period(q, length)
  {
    SameWheel(b, p, q, length, drop);
    if q <= n {
      MarkedHeld(b, q);
      RoughMono(q, q, q);
    }
    MulLe(1, p, p);
    var top: nat := Min(q - 1, n);
    assert p <= top <= length;
    NoPrimeBetween(p, q, top, length);
    PrimesGap(p, top);
    if length < n {
      PeriodNext(p, q, length);
    }
  }

  /** No (p + 1)-rough integer lies strictly between p and the first marked
      one, so the two wheels agree. */
  lemma SameWheel(b: Bytes, p: nat, q: nat, length: nat, drop: set<nat>)
    requires 7 <= p < q && Coprime30(p) && Coprime30(q)
    requires drop <= {1} && Abs(b) == Wheel(p + 1, length) - drop
    requires forall y: nat :: p < y < q && Coprime30(y) ==> !Marked(b, y)
    ensures Wheel(p + 1, length) == Wheel(q, length)
  {
    var a := p + 1;
    assert a < q;
    forall x: nat | a <= x < q && 1 <= x <= length
      ensures !Rough(x, a)
    {
      GapNotRough(b, p, q, length, drop, x);
    }
    NextWheel(a, q, length);
  }

  /** An integer x in (p, q) within length is not (p + 1)-rough. */
  lemma GapNotRough(b: Bytes, p: nat, q: nat, length: nat, drop: set<nat>, x: nat)
    requires 7 <= p < x < q && x <= length
    requires drop <= {1} && Abs(b) == Wheel(p + 1, length) - drop
    requires forall y: nat :: p < y < q && Coprime30(y) ==> !Marked(b, y)
    ensures !Rough(x, p + 1)
  {
    if Rough(x, p + 1) {
      RoughMono(x, 7, p + 1);
      Rough7(x);
      MarkedHeld(b, x);
    }
  }

  /** With the wheel of the primes up to p equal to the wheel of the
      primes below q, no prime lies in (p, top] for top < q within the
      wheel's length. */
  lemma NoPrimeBetween(p: nat, q: nat, top: nat, length: nat)
    requires p < q && top < q && top <= length && Wheel(p + 1, length) == Wheel(q, length)
    ensures forall x: nat :: p < x <= top ==> !IsPrime(x)
  {
    forall x: nat | p < x <= top
      ensures !IsPrime(x)
    {
      if IsPrime(x) {
        RoughMono(x, p + 1, x);
        assert x in Wheel(p + 1, length);
        NotRoughBelow(x, q);
      }
    }
  }

  /** A period of the wheel of the primes up to p is one of the wheel of
      the primes below q when no prime lies in (p, q). */
  lemma PeriodNext(p: nat, q: nat, length: nat)
    requires p < q && Period(p + 1, length)
    requires PrimesUpTo(q - 1) == PrimesUpTo(p)
    ensures Period(q, length)
  {
    forall r: nat | IsPrime(r) && r < q
      ensures Divides(r, length)
    {
      PrimesUpToSpec(p);
      PrimesUpToSpec(q - 1);
      assert r in PrimesUpTo(q - 1);
    }
  }

  // ---------------------------------------------------------------------
  // After the main loop
  // ---------------------------------------------------------------------

  /** `if (length < N) Extend(bitmap, length, N); unmark(1, bitmap);`: the
      bitmap then holds the wheel of the primes below p up to n, without 1. */
  method Finish(b: Bytes, n: nat, p: nat, length: nat, ghost drop: set<nat>) returns (b': Bytes)
    requires |b| == BitmapSize(n) && 7 <= p && 7 <= length <= n
    requires length < n ==> 30 <= length && length % 30 == 0 && drop == {} && Period(p, length)
    requires drop <= {1} && Abs(b) == Wheel(p, length) - drop
    ensures |b'| == |b| && Abs(b') == Wheel(p, n) - {1}
  {
    b' := b;
    if length < n {
      var length';
      b', length' := Extend.Extend(b, length, n);
      Extend.ExtendRefines(b, b', length / 30, length, n);
      ExtendWheel(p, length, n);
    }
    UnmarkSpec(b', 1);
    b' := Unmark(b', 1);
  }

  /** The integers the final count or print enumerates are the primes in
      [p, n], in ascending order. */
  lemma Remaining(b: Bytes, n: nat, p: nat)
    requires |b| % 8 == 0 && n < p * p && p >= 2 && Abs(b) == Wheel(p, n) - {1}
    ensures StrictlyIncreasing(Listed(b, 64 * (|b| / 8)))
    ensures forall x: nat :: x in Listed(b, 64 * (|b| / 8)) <==> IsPrime(x) && p <= x <= n
  {
    var m: nat := 64 * (|b| / 8);
    assert m == 8 * |b|;
    ListedSpec(b, m);
    WheelPrimes(p, n);
    forall x: nat
      ensures x in Listed(b, m) <==> x in Abs(b)
    {
      MarkedBit(b, x);
      IdxParts(x);
    }
  }

  /** The primes emitted in the loop followed by the enumerated survivors
      are all the primes up to n, in ascending order. */
  lemma Concluded(primes: seq<nat>, listed: seq<nat>, p: nat, n: nat)
    requires p >= 2 && primes == PrimesUpTo(Min(p - 1, n))
    requires StrictlyIncreasing(listed)
    requires forall x: nat :: x in listed <==> IsPrime(x) && p <= x <= n
    ensures primes + listed == PrimesUpTo(n)
  {
    PrimesUpToSpec(Min(p - 1, n));
    PrimesUpToSpec(n);
    IncreasingConcat(primes, listed, p);
    IncreasingUnique(primes + listed, PrimesUpTo(n));
  }

  /** A list below c followed by a list from c on is increasing when both are. */
  lemma IncreasingConcat(s: seq<nat>, t: seq<nat>, c: nat)
    requires StrictlyIncreasing(s) && StrictlyIncreasing(t)
    requires forall x :: x in s ==> x < c
    requires forall x :: x in t ==> c <= x
    ensures StrictlyIncreasing(s + t)
  {
    forall i, j | 0 <= i < j < |s + t|
      ensures (s + t)[i] < (s + t)[j]
    {
      if i < |s| && |s| <= j {
        assert s[i] in s && t[j - |s|] in t;
      }
    }
  }
}
