/**
 * Delete(bitmap, p, length): removes from the wheel every composite p * w
 * whose quotient w is still marked and p * w <= length, then p itself.
 *
 * The quotients are read word by word from word p / 240 up to the word of
 * maxf, the largest odd number <= length / p.  When p * p * p > length
 * every composite written is p or exceeds maxf, so a single forward pass
 * never reads a bit it has already cleared.  Otherwise the composites of
 * the quotients <= maxfOnp (the largest odd number <= maxf / p), which
 * may themselves be quotients still to be read, are stacked and cleared
 * only after the pass.
 */
module Delete {
  import opened Arith
  import opened Primes
  import opened Wheel30
  import opened Bitmap
  import opened Pritchard
  import opened Composite
  import opened Scan

  /** What Delete demands of its caller: p is a wheel number >= 7 with
      p * p <= length, the bitmap holds every word up to length, and no
      wheel number strictly between 1 and p is marked. */
  ghost predicate DeleteReq(b: Bytes, p: nat, length: nat) {
    && p >= 7 && Coprime30(p) && p * p <= length
    && 8 * (length / 240) + 8 <= |b|
    && NoneBelow(b, p)
  }

  /** y is a composite p * w <= length of a quotient w marked in b: what
      Delete unmarks besides p itself. */
  predicate Struck(b: Bytes, p: nat, length: nat, y: nat)
    requires p > 0
  {
    y % p == 0 && y <= length && Marked(b, y / p)
  }

  /** No wheel number strictly between 1 and p is marked. */
  ghost predicate NoneBelow(b: Bytes, p: nat) {
    forall m: nat :: 1 < m < p && Coprime30(m) ==> !Marked(b, m)
  }

  /** The stack size the small-p branch allocates: ((maxf - 1) / 30 + 1) * 8. */
  function StackCap(maxf: nat): int {
    ((maxf - 1) / 30 + 1) * 8
  }

  // ---------------------------------------------------------------------
  // Bounds
  // ---------------------------------------------------------------------

  /** The bitmap reaches past length. */
  lemma LengthFits(length: nat, n: nat)
    requires 8 * (length / 240) + 8 <= n
    ensures length < 30 * n && length / 30 < n
  {
    WordParts(length);
  }

  /** maxf is odd, at least p, and p * maxf <= length. */
  lemma MaxfBounds(p: nat, length: nat)
    requires p >= 7 && p % 2 == 1 && p * p <= length
    ensures p <= MaxOdd(length / p) <= length / p && MaxOdd(length / p) % 2 == 1
    ensures p * MaxOdd(length / p) <= length && MaxOdd(length / p) <= length
  {
    var q: nat := length / p;
    MulDivLe(p, p, length);
    MaxOddGe(q, p);
    var maxf: nat := MaxOdd(q);
    MaxOddBound(p, length, maxf);
    MulLe(1, p, maxf);
  }

  /** In the large-p branch no composite p * w with w >= p is <= maxf. */
  lemma LargeSquare(p: nat, length: nat)
    requires p >= 7 && p * p * p > length
    ensures p * p > length / p
  {
    MulDivLe(p, p * p, length);
  }

  /** The largest odd number <= x is at least every odd y <= x. */
  lemma MaxOddGe(x: nat, y: nat)
    requires y % 2 == 1 && y <= x
    ensures y <= MaxOdd(x)
  {
  }

  /** In the small-p branch maxf >= p * p. */
  lemma SmallMaxf(p: nat, length: nat)
    requires p >= 7 && Coprime30(p) && p * p * p <= length
    ensures p * p <= length && p * p <= MaxOdd(length / p)
  {
    assert p * p * p == p * (p * p);
    MulDivLe(p, p * p, length);
    MulLe(1, p, p * p);
    CoprimeMul(p, p);
    MaxOddGe(length / p, p * p);
  }

  /** In the small-p branch maxfOnp is odd, at least p and below maxf, and
      the stacked quotient indices fit in StackCap(maxf). */
  lemma MaxfOnpBounds(p: nat, maxf: nat)
    requires p >= 7 && p % 2 == 1 && maxf % 2 == 1 && p * p <= maxf
    ensures p <= MaxOdd(maxf / p) < maxf && MaxOdd(maxf / p) % 2 == 1
    ensures Cut(MaxOdd(maxf / p)) <= StackCap(maxf)
  {
    MaxfBounds(p, maxf);
    var mo := MaxOdd(maxf / p);
    DivShrinks(maxf, p);
    CutBounds(mo);
    assert mo / 30 <= (maxf - 1) / 30;
  }

  lemma DivShrinks(x: nat, p: nat)
    requires p >= 2 && x >= 1
    ensures x / p < x
  {
    MulLe(1, p, x / p);
  }

  /** Cut is monotone. */
  lemma CutMono(m1: nat, m2: nat)
    requires m1 % 2 == 1 && m2 % 2 == 1 && m1 <= m2
    ensures Cut(m1) <= Cut(m2)
  {
    CutBounds(m1);
    var i: nat := Cut(m1) - 1;
    CutSpec(m1, i);
    assert Val(i) <= m2;
    CutSpec(m2, i);
  }

  // ---------------------------------------------------------------------
  // Reads are never disturbed
  // ---------------------------------------------------------------------

  /** A cleared composite is p times a wheel number whose index lies in
      the window and whose bit is set. */
  lemma KilledQuotient(b: Bytes, p: nat, a: int, f: int, j: nat) returns (m: nat)
    requires Coprime30(p) && Killed(b, p, a, f, j)
    ensures m == Val(j) / p && Val(j) == p * m && Coprime30(m)
    ensures a <= Idx(m) < f && Bit(b, Idx(m))
  {
    m := Cofactor(Val(j), p);
    IdxVal(j);
    CoprimeFactor(p, m);
  }

  /** A composite cleared by the scan from word p / 240 is p itself (from
      the quotient 1) or at least p * p, since no marked quotient lies
      strictly between 1 and p. */
  lemma KilledShape(b: Bytes, p: nat, a: int, f: int, j: nat)
    requires Coprime30(p) && NoneBelow(b, p)
    ensures Killed(b, p, a, f, j) ==> (Val(j) == p && j == Idx(p)) || Val(j) >= p * p
  {
    if Killed(b, p, a, f, j) {
      var m: nat := KilledQuotient(b, p, a, f, j);
      QuotientSize(b, p, m);
      ProductShape(p, m, j);
    }
  }

  /** No marked wheel number lies strictly between 1 and p. */
  lemma QuotientSize(b: Bytes, p: nat, m: nat)
    requires NoneBelow(b, p) && Coprime30(m) && Bit(b, Idx(m))
    ensures m == 1 || m >= p
  {
    MarkedBit(b, m);
  }

  /** Val(j) = p * m with m = 1 or m >= p is p itself or at least p * p. */
  lemma ProductShape(p: nat, m: nat, j: nat)
    requires Val(j) == p * m && (m == 1 || m >= p)
    ensures (Val(j) == p && j == Idx(p)) || Val(j) >= p * p
  {
    if m >= p {
      MulLe(p, m, p);
    } else {
      IdxVal(j);
    }
  }

  /** In the large-p branch, bit j of word k at or below maxf is untouched
      while the words before k are processed. */
  lemma LargeUntouched(b: Bytes, b': Bytes, p: nat, length: nat, k: nat, j: nat)
    requires DeleteReq(b, p, length) && p * p * p > length
    requires ClearedUpTo(b, b', p, 64 * (p / 240), 64 * k)
    requires j / 64 == k && j < Cut(MaxOdd(length / p))
    ensures Bit(b', j) <==> Bit(b, j)
  {
    MaxfBounds(p, length);
    KilledShape(b, p, 64 * (p / 240), 64 * k, j);
    CutSpec(MaxOdd(length / p), j);
    LargeSquare(p, length);
    IdxWord(p);
  }

  /** A composite cleared from a quotient index at or above Cut(mo), with
      mo = MaxOdd(maxf / p), exceeds maxf. */
  lemma KilledAbove(b: Bytes, p: nat, maxf: nat, mo: nat, f: nat, j: nat)
    requires p > 0 && Coprime30(p) && mo == MaxOdd(maxf / p) && mo % 2 == 1
    ensures Killed(b, p, Cut(mo), f, j) ==> Val(j) > maxf
  {
    if Killed(b, p, Cut(mo), f, j) {
      var m := KilledQuotient(b, p, Cut(mo), f, j);
      CutIdx(mo, m);
      AboveQuotient(p, maxf, m);
    }
  }

  /** An odd quotient above MaxOdd(x / p) has its composite above x. */
  lemma AboveQuotient(p: nat, x: nat, m: nat)
    requires p > 0 && m % 2 == 1 && m > MaxOdd(x / p)
    ensures p * m > x
  {
    MaxOddBound(p, x, m);
  }

  /** In the small-p branch, the immediate writes never touch a bit at or
      below maxf. */
  lemma HighUntouched(b: Bytes, b': Bytes, p: nat, maxf: nat, mo: nat, f: nat, j: nat)
    requires p > 0 && Coprime30(p) && maxf % 2 == 1 && mo == MaxOdd(maxf / p) && mo % 2 == 1
    requires ClearedUpTo(b, b', p, Cut(mo), f) && j < Cut(maxf)
    ensures Bit(b', j) <==> Bit(b, j)
  {
    KilledAbove(b, p, maxf, mo, f, j);
    CutSpec(maxf, j);
  }

  /** A word read in the large-p branch shows the original bits. */
  lemma LargeWord(b: Bytes, b': Bytes, p: nat, length: nat, k: nat, e: nat, bitset: set<nat>)
    requires DeleteReq(b, p, length) && p * p * p > length
    requires ClearedUpTo(b, b', p, 64 * (p / 240), 64 * k) && e <= 64 && 64 * k + e <= Cut(MaxOdd(length / p))
    requires forall r: nat :: r in bitset <==> r < e && WordBit(b', k, r)
    ensures WindowOf(b, k, 0, e, bitset)
  {
    forall r: nat | r < e
      ensures WordBit(b', k, r) <==> WordBit(b, k, r)
    {
      DivMod64(k, r);
      LargeUntouched(b, b', p, length, k, 64 * k + r);
    }
  }

  /** A word read in the small-p branch, at or above Cut(maxfOnp), shows
      the original bits. */
  lemma HighWord(b: Bytes, b': Bytes, p: nat, maxf: nat, mo: nat, f: nat, k: nat, s: nat, e: nat, bitset: set<nat>)
    requires p > 0 && Coprime30(p) && maxf % 2 == 1 && mo == MaxOdd(maxf / p) && mo % 2 == 1
    requires ClearedUpTo(b, b', p, Cut(mo), f) && e <= 64 && 64 * k + e <= Cut(maxf)
    requires forall r: nat :: r in bitset <==> s <= r < e && WordBit(b', k, r)
    ensures WindowOf(b, k, s, e, bitset)
  {
    forall r: nat | r < e
      ensures WordBit(b', k, r) <==> WordBit(b, k, r)
    {
      HighUntouched(b, b', p, maxf, mo, f, 64 * k + r);
    }
  }

  lemma DivMod64(k: nat, r: nat)
    requires r < 64
    ensures (64 * k + r) / 64 == k
  {
  }

  // ---------------------------------------------------------------------
  // The branch p * p * p > length
  // ---------------------------------------------------------------------

  /** One forward pass over the words p / 240 .. maxf / 240, clearing every
      composite at once; the last word is masked down to maxf. */
  method DeleteLarge(w: Width, b: Bytes, p: nat, length: nat) returns (b': Bytes)
    requires DeleteReq(b, p, length) && p * p * p > length
    ensures ClearedUpTo(b, b', p, 64 * (p / 240), Cut(MaxOdd(length / p)))
  {
    var on30, tag := Tables(w, p);
    MaxfBounds(p, length);
    var maxf := length / p;
    if maxf % 2 == 0 {
      maxf := maxf - 1;
    }
    b' := LargePass(w, p, length, on30, tag, b, maxf);
  }

  /** The words from p / 240 to maxf / 240, the last one masked. */
  method LargePass(w: Width, p: nat, length: nat, on30: seq<nat>, tag: seq<nat>, b: Bytes, maxf: nat)
    returns (b': Bytes)
    requires DeleteReq(b, p, length) && p * p * p > length && TablesOk(w, p, on30, tag)
    requires maxf == MaxOdd(length / p)
    ensures ClearedUpTo(b, b', p, 64 * (p / 240), Cut(maxf))
  {
    LastBounds(b, p, length);
    var kmin, kmax := p / 240, maxf / 240;
    var baseon30: nat := kmin * p * 8;
    BaseStart(p, kmin);
    b' := b;
    var k := kmin;
    while k < kmax
      invariant kmin <= k <= kmax && baseon30 == 8 * p * k
      invariant ClearedUpTo(b, b', p, 64 * kmin, 64 * k)
    {
      b' := LargeStep(w, p, length, on30, tag, b, b', k, baseon30);
      BaseStep(p, k);
      baseon30 := baseon30 + p * 8;
      k := k + 1;
    }
    b' := LargeLast(w, p, length, on30, tag, b, b', baseon30);
  }

  /** A whole word k below the word of maxf in the large-p pass. */
  method LargeStep(w: Width, p: nat, length: nat, on30: seq<nat>, tag: seq<nat>, b: Bytes, b1: Bytes, k: nat,
                   baseon30: nat)
    returns (b': Bytes)
    requires DeleteReq(b, p, length) && p * p * p > length && TablesOk(w, p, on30, tag)
    requires p / 240 <= k < MaxOdd(length / p) / 240 && baseon30 == 8 * p * k
    requires ClearedUpTo(b, b1, p, 64 * (p / 240), 64 * k)
    ensures ClearedUpTo(b, b', p, 64 * (p / 240), 64 * (k + 1))
  {
    LastBounds(b, p, length);
    var maxf: nat := MaxOdd(length / p);
    CutBounds(maxf);
    var bitset := Word(b1, k);
    LargeWord(b, b1, p, length, k, 64, bitset);
    b' := ClearWord(w, p, on30, tag, b, b1, k, baseon30, bitset, 64 * (p / 240), 0, 64, maxf);
  }

  /** The masked last word of the large-p pass. */
  method LargeLast(w: Width, p: nat, length: nat, on30: seq<nat>, tag: seq<nat>, b: Bytes, b1: Bytes, baseon30: nat)
    returns (b': Bytes)
    requires DeleteReq(b, p, length) && p * p * p > length && TablesOk(w, p, on30, tag)
    requires baseon30 == 8 * p * (MaxOdd(length / p) / 240)
    requires ClearedUpTo(b, b1, p, 64 * (p / 240), 64 * (MaxOdd(length / p) / 240))
    ensures ClearedUpTo(b, b', p, 64 * (p / 240), Cut(MaxOdd(length / p)))
  {
    LastBounds(b, p, length);
    var maxf: nat := MaxOdd(length / p);
    var kmax := maxf / 240;
    var bit64: nat := WordBitBound(maxf);
    var bitset := AndLowMask(Word(b1, kmax), bit64);
    LargeWord(b, b1, p, length, kmax, bit64 + 1, bitset);
    b' := ClearWord(w, p, on30, tag, b, b1, kmax, baseon30, bitset, 64 * (p / 240), 0, bit64 + 1, maxf);
  }

  /** maxf = MaxOdd(length / p) is odd, its word lies in the bitmap at or
      after the word of p, and its composite with p fits the bitmap. */
  lemma LastBounds(b: Bytes, p: nat, length: nat)
    requires DeleteReq(b, p, length)
    ensures MaxOdd(length / p) % 2 == 1 && 0 <= WordBitBound(MaxOdd(length / p)) < 64
    ensures p / 240 <= MaxOdd(length / p) / 240 && 8 * (MaxOdd(length / p) / 240) + 8 <= |b|
    ensures p * MaxOdd(length / p) < 30 * |b|
  {
    MaxfBounds(p, length);
    LengthFits(length, |b|);
    CutBounds(MaxOdd(length / p));
    DivMono(p, MaxOdd(length / p), 240);
    DivMono(MaxOdd(length / p), length, 240);
  }

  lemma BaseStart(p: nat, k: nat)
    ensures k * p * 8 == 8 * p * k
  {
  }

  /** `baseon30 += p * 8` moves the base to the next word. */
  lemma BaseStep(p: nat, k: nat)
    ensures 8 * p * k + p * 8 == 8 * p * (k + 1)
  {
  }

  // ---------------------------------------------------------------------
  // The branch p * p * p <= length
  // ---------------------------------------------------------------------

  /** The stacking pass: the composites of the quotients from word p / 240
      up to maxfOnp are pushed, in index order, and nothing is written. */
  method PushPhase(w: Width, p: nat, on30: seq<nat>, tag: seq<nat>, b: Bytes, maxf: nat, mo: nat)
    returns (stack: seq<nat>, ghost cs: seq<nat>, baseon30: nat)
    requires Coprime30(p) && TablesOk(w, p, on30, tag)
    requires maxf % 2 == 1 && p * maxf < 30 * |b| && 8 * (maxf / 240) + 8 <= |b|
    requires mo % 2 == 1 && p <= mo <= maxf
    ensures StackOk(w, p, b, 64 * (p / 240), Cut(mo), stack, cs)
    ensures baseon30 == 8 * p * (mo / 240)
  {
    PushBounds(b, p, maxf, mo);
    var kmin, kmid := p / 240, mo / 240;
    stack, cs := [], [];
    baseon30 := kmin * p * 8;
    BaseStart(p, kmin);
    var k := kmin;
    while k < kmid
      invariant kmin <= k <= kmid && baseon30 == 8 * p * k
      invariant StackOk(w, p, b, 64 * kmin, 64 * k, stack, cs)
    {
      stack, cs := PushStep(w, p, on30, tag, b, maxf, mo, k, baseon30, stack, cs);
      BaseStep(p, k);
      baseon30 := baseon30 + p * 8;
      k := k + 1;
    }
    stack, cs := PushLast(w, p, on30, tag, b, maxf, mo, baseon30, stack, cs);
  }

  /** The word of maxfOnp, masked down to maxfOnp. */
  method PushLast(w: Width, p: nat, on30: seq<nat>, tag: seq<nat>, b: Bytes, maxf: nat, mo: nat,
                  baseon30: nat, stack: seq<nat>, ghost cs: seq<nat>)
    returns (stack': seq<nat>, ghost cs': seq<nat>)
    requires TablesOk(w, p, on30, tag)
    requires maxf % 2 == 1 && p * maxf < 30 * |b| && 8 * (maxf / 240) + 8 <= |b|
    requires mo % 2 == 1 && p <= mo <= maxf && baseon30 == 8 * p * (mo / 240)
    requires StackOk(w, p, b, 64 * (p / 240), 64 * (mo / 240), stack, cs)
    ensures StackOk(w, p, b, 64 * (p / 240), Cut(mo), stack', cs')
    ensures |stack| <= |stack'| && stack'[..|stack|] == stack
  {
    PushBounds(b, p, maxf, mo);
    var kmid := mo / 240;
    var bit64mid: nat := WordBitBound(mo);
    var bitset := AndLowMask(Word(b, kmid), bit64mid);
    stack', cs' := PushWord(w, p, on30, tag, b, kmid, baseon30, bitset, stack, cs, 64 * (p / 240), 0, bit64mid + 1, maxf);
  }

  /** The word bounds of the stacking pass: word mo / 240 lies in the
      bitmap, between the word of p and the word of maxf. */
  lemma PushBounds(b: Bytes, p: nat, maxf: nat, mo: nat)
    requires maxf % 2 == 1 && 8 * (maxf / 240) + 8 <= |b| && mo % 2 == 1 && p <= mo <= maxf
    ensures 0 <= WordBitBound(mo) < 64 && 64 * (mo / 240) < Cut(mo) <= Cut(maxf)
    ensures p / 240 <= mo / 240 <= maxf / 240 && 8 * (mo / 240) + 8 <= |b|
  {
    CutBounds(mo);
    CutMono(mo, maxf);
    DivMono(p, mo, 240);
    DivMono(mo, maxf, 240);
  }

  /** A whole word k below the word of maxfOnp in the stacking pass. */
  method PushStep(w: Width, p: nat, on30: seq<nat>, tag: seq<nat>, b: Bytes, maxf: nat, mo: nat, k: nat,
                  baseon30: nat, stack: seq<nat>, ghost cs: seq<nat>)
    returns (stack': seq<nat>, ghost cs': seq<nat>)
    requires TablesOk(w, p, on30, tag)
    requires maxf % 2 == 1 && p * maxf < 30 * |b| && 8 * (maxf / 240) + 8 <= |b|
    requires mo % 2 == 1 && p <= mo <= maxf && p / 240 <= k < mo / 240 && baseon30 == 8 * p * k
    requires StackOk(w, p, b, 64 * (p / 240), 64 * k, stack, cs)
    ensures StackOk(w, p, b, 64 * (p / 240), 64 * (k + 1), stack', cs')
    ensures |stack| <= |stack'| && stack'[..|stack|] == stack
  {
    PushBounds(b, p, maxf, mo);
    var bitset := Word(b, k);
    stack', cs' := PushWord(w, p, on30, tag, b, k, baseon30, bitset, stack, cs, 64 * (p / 240), 0, 64, maxf);
  }

  /** The immediate pass: the composites of the quotients above maxfOnp and
      up to maxf are cleared at once, from the high part of word kmid on. */
  method ClearPhase(w: Width, p: nat, on30: seq<nat>, tag: seq<nat>, b: Bytes, maxf: nat, mo: nat, baseon30: nat)
    returns (b': Bytes)
    requires p >= 7 && Coprime30(p) && TablesOk(w, p, on30, tag)
    requires maxf % 2 == 1 && p * maxf < 30 * |b| && 8 * (maxf / 240) + 8 <= |b|
    requires mo == MaxOdd(maxf / p) && mo % 2 == 1 && mo <= maxf
    requires baseon30 == 8 * p * (mo / 240)
    ensures ClearedUpTo(b, b', p, Cut(mo), Cut(maxf))
  {
    b' := ClearMid(w, p, on30, tag, b, maxf, mo, baseon30);
    if maxf / 240 > mo / 240 {
      BaseStep(p, mo / 240);
      b' := ClearRest(w, p, on30, tag, b, b', maxf, mo, baseon30 + p * 8);
    }
  }

  /** Word kmid above bit64mid: to its end, or to bit64 when maxf lies in
      the same word. */
  method ClearMid(w: Width, p: nat, on30: seq<nat>, tag: seq<nat>, b: Bytes, maxf: nat, mo: nat, baseon30: nat)
    returns (b': Bytes)
    requires p >= 7 && Coprime30(p) && TablesOk(w, p, on30, tag)
    requires maxf % 2 == 1 && p * maxf < 30 * |b| && 8 * (maxf / 240) + 8 <= |b|
    requires mo == MaxOdd(maxf / p) && mo % 2 == 1 && mo <= maxf
    requires baseon30 == 8 * p * (mo / 240)
    ensures ClearedUpTo(b, b', p, Cut(mo), if maxf / 240 > mo / 240 then 64 * (mo / 240 + 1) else Cut(maxf))
  {
    var kmid, kmax := mo / 240, maxf / 240;
    CutBounds(mo);
    CutBounds(maxf);
    var bit64mid: nat := WordBitBound(mo);
    var bit64: nat := WordBitBound(maxf);
    CutMono(mo, maxf);
    DivMono(mo, maxf, 240);
    var bitset: set<nat> := {};
    if bit64mid < 63 {
      bitset := AndHighMask(Word(b, kmid), bit64mid);
    }
    HighWindow(b, kmid, bit64mid, bitset);
    ClearedEmpty(b, p, Cut(mo));
    if kmax > kmid {
      b' := ClearWord(w, p, on30, tag, b, b, kmid, baseon30, bitset, Cut(mo), bit64mid + 1, 64, maxf);
    } else {
      LowWindow(b, kmid, bit64mid + 1, bitset, bit64);
      var low := AndLowMask(Word(b, kmid), bit64);
      bitset := bitset * low;
      b' := ClearWord(w, p, on30, tag, b, b, kmid, baseon30, bitset, Cut(mo), bit64mid + 1, bit64 + 1, maxf);
    }
  }

  /** The bits of word k above t (none when t is the last bit). */
  lemma HighWindow(b: Bytes, k: nat, t: nat, bitset: set<nat>)
    requires 8 * k + 8 <= |b| && t < 64
    requires bitset == if t == 63 then {} else MaskHigh(Word(b, k), t)
    ensures WindowOf(b, k, t + 1, 64, bitset)
  {
  }

  /** Masking a window of word k at bit u cuts it at u + 1. */
  lemma LowWindow(b: Bytes, k: nat, s: nat, bitset: set<nat>, u: nat)
    requires 8 * k + 8 <= |b| && u < 64 && s <= u + 1 && WindowOf(b, k, s, 64, bitset)
    ensures WindowOf(b, k, s, u + 1, bitset * MaskLow(Word(b, k), u))
  {
  }

  /** Nothing is cleared over an empty window. */
  lemma ClearedEmpty(b: Bytes, p: nat, a: nat)
    ensures ClearedUpTo(b, b, p, a, a)
  {
  }

  /** The words after kmid, the last one masked down to maxf. */
  method ClearRest(w: Width, p: nat, on30: seq<nat>, tag: seq<nat>, b: Bytes, b1: Bytes, maxf: nat, mo: nat,
                   baseon30: nat)
    returns (b': Bytes)
    requires p >= 7 && Coprime30(p) && TablesOk(w, p, on30, tag)
    requires maxf % 2 == 1 && p * maxf < 30 * |b| && 8 * (maxf / 240) + 8 <= |b|
    requires mo == MaxOdd(maxf / p) && mo % 2 == 1 && mo / 240 < maxf / 240
    requires baseon30 == 8 * p * (mo / 240 + 1)
    requires ClearedUpTo(b, b1, p, Cut(mo), 64 * (mo / 240 + 1))
    ensures ClearedUpTo(b, b', p, Cut(mo), Cut(maxf))
  {
    var kmax := maxf / 240;
    var base: nat := baseon30;
    b' := b1;
    var k := mo / 240 + 1;
    while k < kmax
      invariant mo / 240 < k <= kmax && base == 8 * p * k
      invariant ClearedUpTo(b, b', p, Cut(mo), 64 * k)
    {
      b' := ClearRestStep(w, p, on30, tag, b, b', maxf, mo, k, base);
      BaseStep(p, k);
      base := base + p * 8;
      k := k + 1;
    }
    b' := ClearRestLast(w, p, on30, tag, b, b', maxf, mo, base);
  }

  /** A whole word k strictly between kmid and the word of maxf. */
  method ClearRestStep(w: Width, p: nat, on30: seq<nat>, tag: seq<nat>, b: Bytes, b1: Bytes, maxf: nat, mo: nat,
                       k: nat, base: nat)
    returns (b': Bytes)
    requires p >= 7 && Coprime30(p) && TablesOk(w, p, on30, tag)
    requires maxf % 2 == 1 && p * maxf < 30 * |b| && 8 * (maxf / 240) + 8 <= |b|
    requires mo == MaxOdd(maxf / p) && mo % 2 == 1 && mo / 240 < k < maxf / 240 && base == 8 * p * k
    requires ClearedUpTo(b, b1, p, Cut(mo), 64 * k)
    ensures ClearedUpTo(b, b', p, Cut(mo), 64 * (k + 1))
  {
    CutBounds(mo);
    CutBounds(maxf);
    b' := ClearHigh(w, p, on30, tag, b, b1, maxf, mo, k, base, Word(b1, k), 64);
  }

  /** The word of maxf, masked down to maxf. */
  method ClearRestLast(w: Width, p: nat, on30: seq<nat>, tag: seq<nat>, b: Bytes, b1: Bytes, maxf: nat, mo: nat,
                       base: nat)
    returns (b': Bytes)
    requires p >= 7 && Coprime30(p) && TablesOk(w, p, on30, tag)
    requires maxf % 2 == 1 && p * maxf < 30 * |b| && 8 * (maxf / 240) + 8 <= |b|
    requires mo == MaxOdd(maxf / p) && mo % 2 == 1 && mo / 240 < maxf / 240 && base == 8 * p * (maxf / 240)
    requires ClearedUpTo(b, b1, p, Cut(mo), 64 * (maxf / 240))
    ensures ClearedUpTo(b, b', p, Cut(mo), Cut(maxf))
  {
    CutBounds(mo);
    CutBounds(maxf);
    var kmax := maxf / 240;
    var bit64: nat := WordBitBound(maxf);
    var bitset := AndLowMask(Word(b1, kmax), bit64);
    b' := ClearHigh(w, p, on30, tag, b, b1, maxf, mo, kmax, base, bitset, bit64 + 1);
  }

  /** One word after kmid, read from the current bitmap (its bits up to
      bit e are still the original ones) and cleared. */
  method ClearHigh(w: Width, p: nat, on30: seq<nat>, tag: seq<nat>, b: Bytes, b1: Bytes, maxf: nat, mo: nat,
                   k: nat, base: nat, bitset: set<nat>, ghost e: nat)
    returns (b': Bytes)
    requires p >= 7 && Coprime30(p) && TablesOk(w, p, on30, tag) && base == 8 * p * k
    requires maxf % 2 == 1 && p * maxf < 30 * |b| && mo == MaxOdd(maxf / p) && mo % 2 == 1
    requires Cut(mo) <= 64 * k && e <= 64 && 64 * k + e <= Cut(maxf)
    requires ClearedUpTo(b, b1, p, Cut(mo), 64 * k)
    requires forall r: nat :: r in bitset <==> r < e && WordBit(b1, k, r)
    ensures ClearedUpTo(b, b', p, Cut(mo), 64 * k + e)
  {
    HighWord(b, b1, p, maxf, mo, 64 * k, k, 0, e, bitset);
    b' := ClearWord(w, p, on30, tag, b, b1, k, base, bitset, Cut(mo), 0, e, maxf);
  }

  /** Clearing [f, g) and then replaying [a, f) clears [a, g). */
  lemma ClearedJoin(b: Bytes, bm: Bytes, b': Bytes, p: nat, a: nat, f: nat, g: nat)
    requires p > 0 && a <= f <= g && ClearedUpTo(b, bm, p, f, g) && |b'| == |b|
    requires forall j: nat :: Bit(b', j) <==> Bit(bm, j) && !Killed(b, p, a, f, j)
    ensures ClearedUpTo(b, b', p, a, g)
  {
  }

  /** The small-p branch: stack, clear the rest at once, replay the stack.
      `pushed` is the number of stacked entries. */
  method DeleteSmall(w: Width, b: Bytes, p: nat, length: nat) returns (b': Bytes, pushed: nat)
    requires DeleteReq(b, p, length) && p * p * p <= length
    ensures ClearedUpTo(b, b', p, 64 * (p / 240), Cut(MaxOdd(length / p)))
    ensures pushed <= StackCap(MaxOdd(length / p))
  {
    ghost var kmin: nat := p / 240;
    SmallMaxf(p, length);
    MaxfBounds(p, length);
    LengthFits(length, |b|);
    var maxf: nat := MaxOdd(length / p);
    MaxfOnpBounds(p, maxf);
    DivMono(maxf, length, 240);
    var maxfOnp: nat := MaxOdd(maxf / p);
    var on30, tag := Tables(w, p);
    var stack, cs, baseon30 := PushPhase(w, p, on30, tag, b, maxf, maxfOnp);
    pushed := |stack|;
    var bm := ClearPhase(w, p, on30, tag, b, maxf, maxfOnp, baseon30);
    b' := Replay(w, p, b, bm, stack, cs, 64 * kmin, Cut(maxfOnp));
    CutMono(maxfOnp, maxf);
    ClearedJoin(b, bm, b', p, 64 * kmin, Cut(maxfOnp), Cut(maxf));
  }

  // ---------------------------------------------------------------------
  // Delete
  // ---------------------------------------------------------------------

  /** Delete(bitmap, p, length): afterwards a wheel number y is marked
      exactly when it was marked before, is not p, and is not a composite
      p * w <= length of a quotient w marked before. */
  method Delete(w: Width, b: Bytes, p: nat, length: nat) returns (b': Bytes)
    requires DeleteReq(b, p, length)
    ensures |b'| == |b|
    ensures forall y: nat :: Coprime30(y) ==>
      (Marked(b', y) <==> Marked(b, y) && y != p && !Struck(b, p, length, y))
  {
    var bc;
    if p * p * p > length {
      bc := DeleteLarge(w, b, p, length);
    } else {
      var pushed;
      bc, pushed := DeleteSmall(w, b, p, length);
    }
    MulLe(1, p, p);
    LengthFits(length, |b|);
    b' := Unmark(bc, p);
    DeleteEffect(b, bc, b', p, length);
  }

  /** The net effect of the scan and the final `unmark(p)`. */
  lemma DeleteEffect(b: Bytes, bc: Bytes, b': Bytes, p: nat, length: nat)
    requires DeleteReq(b, p, length)
    requires ClearedUpTo(b, bc, p, 64 * (p / 240), Cut(MaxOdd(length / p)))
    requires |b'| == |bc| && forall j: nat :: Bit(b', j) <==> Bit(bc, j) && j != Idx(p)
    ensures |b'| == |b|
    ensures forall y: nat :: Coprime30(y) ==>
      (Marked(b', y) <==> Marked(b, y) && y != p && !Struck(b, p, length, y))
  {
    MaxfBounds(p, length);
    var mf: nat := MaxOdd(length / p);
    forall y: nat | Coprime30(y)
      ensures Marked(b', y) <==> Marked(b, y) && y != p && !Struck(b, p, length, y)
    {
      MarkedBit(b', y);
      MarkedBit(b, y);
      IdxMonotone(y, p);
      IdxMonotone(p, y);
      ValIdx(y);
      if y != p {
        KilledMeaning(b, p, length, mf, y);
      }
    }
  }

  /** For a wheel number y other than p, the scan clears y exactly when y
      is a composite p * w <= length of a marked quotient w. */
  lemma KilledMeaning(b: Bytes, p: nat, length: nat, mf: nat, y: nat)
    requires p > 0 && Coprime30(p) && NoneBelow(b, p) && mf == MaxOdd(length / p) && mf % 2 == 1
    requires Coprime30(y) && y != p
    ensures Killed(b, p, 64 * (p / 240), Cut(mf), Idx(y)) <==> Struck(b, p, length, y)
  {
    CoprimePositive(p);
    DivNat(y, p);
    ValIdx(y);
    if y % p == 0 {
      var m := Cofactor(y, p);
      MultipleKilled(b, p, length, mf, y, m);
    }
  }

  /** The multiple y = p * m is cleared exactly when m is marked and y is
      within the length. */
  lemma MultipleKilled(b: Bytes, p: nat, length: nat, mf: nat, y: nat, m: nat)
    requires Coprime30(p) && NoneBelow(b, p) && mf == MaxOdd(length / p) && mf % 2 == 1
    requires Coprime30(y) && y != p && y == p * m && Val(Idx(y)) == y
    ensures Killed(b, p, 64 * (p / 240), Cut(mf), Idx(y)) <==> y <= length && Marked(b, m)
  {
    KilledAt(b, p, 64 * (p / 240), Cut(mf), Idx(y), m);
    CoprimeFactor(p, m);
    MarkedBit(b, m);
    if Marked(b, m) {
      QuotientLow(b, p, m, y);
    }
    QuotientWithin(p, length, mf, m);
  }

  /** The index of an odd quotient m is below Cut(MaxOdd(length / p))
      exactly when p * m is within the length. */
  lemma QuotientWithin(p: nat, length: nat, mf: nat, m: nat)
    requires p > 0 && mf == MaxOdd(length / p) && mf % 2 == 1 && Coprime30(m)
    ensures Idx(m) < Cut(mf) <==> p * m <= length
  {
    CutIdx(mf, m);
    MaxOddBound(p, length, m);
  }

  /** Index j holding p * m is cleared exactly when the index of m is in
      the window and set. */
  lemma KilledAt(b: Bytes, p: nat, a: int, f: int, j: nat, m: nat)
    requires p > 0 && Val(j) == p * m
    ensures Killed(b, p, a, f, j) <==> a <= Idx(m) < f && Bit(b, Idx(m))
  {
    MulDiv(p, m);
  }

  /** A marked quotient of a multiple y != p of p lies at or after word p / 240. */
  lemma QuotientLow(b: Bytes, p: nat, m: nat, y: nat)
    requires Coprime30(p) && NoneBelow(b, p) && y == p * m && y != p && Coprime30(m) && Marked(b, m)
    ensures Idx(m) >= 64 * (p / 240)
  {
    assert m != 1;
    assert m >= p;
    DivMono(p, m, 240);
    IdxWord(m);
  }

  /** Delete refines Pritchard's delete on the set the bitmap holds, when
      that set lies in [1, length]. */
  lemma DeleteRefines(b: Bytes, b': Bytes, p: nat, length: nat)
    requires p > 0 && |b'| == |b|
    requires forall y: nat :: Coprime30(y) ==>
      (Marked(b', y) <==> Marked(b, y) && y != p && !Struck(b, p, length, y))
    requires forall x :: x in Abs(b) ==> x <= length
    ensures Abs(b') == AbsDelete(Abs(b), p)
  {
    forall x: nat
      ensures x in Abs(b') <==> x in AbsDelete(Abs(b), p)
    {
      if x in Abs(b) && x % p == 0 {
        QuotientInAbs(b, p, x);
      }
    }
  }

  /** The quotient of a held multiple of p is a wheel number inside the bitmap. */
  lemma QuotientInAbs(b: Bytes, p: nat, x: nat)
    requires p > 0 && x in Abs(b) && x % p == 0
    ensures x / p in Abs(b) <==> Marked(b, x / p)
  {
    DivExact(x, p);
    CoprimeFactor(p, x / p);
    MulLe(1, p, x / p);
    if Marked(b, x / p) {
      AbsMember(b, x / p);
    }
  }
}
