/**
 * The inner loops of Delete.  Each takes the snapshot `bitset` of the
 * window [s, e) of word k (the set bits of the original bitmap b0 there),
 * consumes it lowest bit first, and for the quotient index 64k + r of each
 * bit r either clears the composite at once (`bitmap[cOn30] &= ...`) or
 * pushes its packed address onto the stack; the replay loop later clears
 * the stacked composites.  Progress is recorded with Killed: the
 * composites of the quotient indices of b0 in a window [a, f).
 */
module Scan {
  import opened Arith
  import opened Wheel30
  import opened Bitmap
  import opened Composite
  import Primes

  /** bitset holds exactly the set bits of b0 in positions [s, e) of word k. */
  ghost predicate WindowOf(b0: Bytes, k: nat, s: nat, e: nat, bitset: set<nat>) {
    e <= 64 && forall r: nat :: r in bitset <==> s <= r < e && WordBit(b0, k, r)
  }

  /** Clearing the composite of the set bit f extends the cleared window. */
  lemma ClearedAdd(b0: Bytes, b: Bytes, b': Bytes, p: nat, a: nat, f: nat)
    requires Coprime30(p) && a <= f && Bit(b0, f) && ClearedUpTo(b0, b, p, a, f)
    requires |b'| == |b| && forall j: nat :: Bit(b', j) <==> Bit(b, j) && j != CompIdx(p, f)
    ensures ClearedUpTo(b0, b', p, a, f + 1)
  {
    forall j: nat
      ensures Bit(b', j) <==> Bit(b0, j) && !Killed(b0, p, a, f + 1, j)
    {
      KilledAdd(b0, p, a, f, j);
    }
  }

  /** A quotient index below Cut(bound) has its composite inside the bitmap
      when p * bound fits. */
  lemma CompositeInRange(p: nat, bound: nat, n: nat, i: nat)
    requires bound % 2 == 1 && p * bound < 30 * n && i < Cut(bound)
    ensures CompIdx(p, i) / 8 < n
  {
    CutSpec(bound, i);
    var v := Val(i);
    MulLe(v, bound, p);
    var c := p * v;
    assert CompIdx(p, i) == Idx(c);
    IdxParts(c);
    DivBounds(c, 30);
  }

  /** The window bits of b0 between lo and r are clear. */
  lemma WindowGap(b0: Bytes, k: nat, lo: nat, r: nat, e: nat, bitset: set<nat>)
    requires WindowOf(b0, k, lo, e, bitset) && r <= e
    requires forall x :: x in bitset ==> r <= x
    ensures forall i: nat :: 64 * k + lo <= i < 64 * k + r ==> !Bit(b0, i)
  {
    forall i: nat | 64 * k + lo <= i < 64 * k + r
      ensures !Bit(b0, i)
    {
      assert !WordBit(b0, k, i - 64 * k);
    }
  }

  /** The composites of a window with no set bit need no clearing. */
  lemma ClearedSkip(b0: Bytes, b: Bytes, p: nat, a: nat, f: nat, g: nat)
    requires p > 0 && f <= g && ClearedUpTo(b0, b, p, a, f)
    requires forall i: nat :: f <= i < g ==> !Bit(b0, i)
    ensures ClearedUpTo(b0, b, p, a, g)
  {
    forall j: nat
      ensures Killed(b0, p, a, f, j) <==> Killed(b0, p, a, g, j)
    {
      KilledSkip(b0, p, a, f, g, j);
    }
  }

  // ---------------------------------------------------------------------
  // Clearing at once
  // ---------------------------------------------------------------------

  /** What the scan has done once the window bits of word k below lo are
      consumed and their composites cleared. */
  ghost predicate ClearState(b0: Bytes, b: Bytes, p: nat, a: nat, k: nat, lo: nat, e: nat, bitset: set<nat>) {
    a <= 64 * k + lo && lo <= e && WindowOf(b0, k, lo, e, bitset) && ClearedUpTo(b0, b, p, a, 64 * k + lo)
  }

  /** Consuming the lowest bit r of a window leaves the window above r;
      the bits between the old front and r are clear. */
  lemma WindowNext(b0: Bytes, k: nat, lo: nat, e: nat, bitset: set<nat>, r: nat)
    requires WindowOf(b0, k, lo, e, bitset) && r in bitset && forall x :: x in bitset ==> r <= x
    ensures lo <= r < e && Bit(b0, 64 * k + r) && WindowOf(b0, k, r + 1, e, bitset - {r})
    ensures forall i: nat :: 64 * k + lo <= i < 64 * k + r ==> !Bit(b0, i)
  {
    WindowGap(b0, k, lo, r, e, bitset);
  }

  /** Clearing the composite of the set bit i (byte c, entry t) extends
      the cleared window past it; the composite lies inside the bitmap. */
  lemma ClearedAt(w: Width, p: nat, b0: Bytes, b: Bytes, i: nat, g: nat, a: nat, bound: nat, c: nat, t: nat)
    requires Coprime30(p) && bound % 2 == 1 && p * bound < 30 * |b0| && i < Cut(bound) && g == i + 1
    requires a <= i && Bit(b0, i) && ClearedUpTo(b0, b, p, a, i)
    requires c == CompIdx(p, i) / 8 && t == TagOf(w, CompIdx(p, i) % 8)
    ensures c < |b| && t < Radix(w)
    ensures ClearedUpTo(b0, ClearAt(w, b, c, t), p, a, g)
  {
    CompositeInRange(p, bound, |b|, i);
    ClearIndex(w, b, CompIdx(p, i));
    ClearedAdd(b0, b, ClearAt(w, b, c, t), p, a, i);
  }

  /** One step of a clearing loop: consume the lowest bit r and clear the
      composite of 64k + r. */
  method ClearStep(w: Width, p: nat, on30: seq<nat>, tag: seq<nat>, b0: Bytes, b: Bytes, k: nat, base: nat,
                   bitset: set<nat>, ghost a: nat, ghost lo: nat, ghost e: nat, ghost bound: nat)
    returns (b': Bytes, bitset': set<nat>, ghost lo': nat)
    requires Coprime30(p) && TablesOk(w, p, on30, tag) && base == 8 * p * k
    requires bound % 2 == 1 && p * bound < 30 * |b0| && 64 * k + e <= Cut(bound)
    requires bitset != {} && ClearState(b0, b, p, a, k, lo, e, bitset)
    ensures ClearState(b0, b', p, a, k, lo', e, bitset') && |bitset'| < |bitset|
  {
    var r := LowestBit(bitset);
    ClearNext(w, p, on30, tag, b0, b, k, base, a, lo, e, bitset, r, bound);
    b' := ClearAt(w, b, base + on30[r], tag[r]);
    bitset' := bitset - {r};
    lo' := r + 1;
  }

  /** Consuming the lowest window bit r and clearing its composite keeps
      the clearing state. */
  lemma ClearNext(w: Width, p: nat, on30: seq<nat>, tag: seq<nat>, b0: Bytes, b: Bytes, k: nat, base: nat,
                  a: nat, lo: nat, e: nat, bitset: set<nat>, r: nat, bound: nat)
    requires Coprime30(p) && TablesOk(w, p, on30, tag) && base == 8 * p * k
    requires bound % 2 == 1 && p * bound < 30 * |b0| && 64 * k + e <= Cut(bound)
    requires ClearState(b0, b, p, a, k, lo, e, bitset)
    requires r in bitset && forall x :: x in bitset ==> r <= x
    ensures r < 64 && |on30| == 64 && |tag| == 64
    ensures base + on30[r] < |b| && tag[r] < Radix(w)
    ensures ClearState(b0, ClearAt(w, b, base + on30[r], tag[r]), p, a, k, r + 1, e, bitset - {r})
  {
    CoprimePositive(p);
    TablesSize(w, p, on30, tag);
    WindowNext(b0, k, lo, e, bitset, r);
    ClearedSkip(b0, b, p, a, 64 * k + lo, 64 * k + r);
    CompositeByte(w, p, on30, tag, k, r);
    ClearedAt(w, p, b0, b, 64 * k + r, 64 * k + (r + 1), a, bound, base + on30[r], tag[r]);
  }

  /** Consumes the window [s, e) of word k, clearing the composite of every
      set bit. */
  method ClearWord(w: Width, p: nat, on30: seq<nat>, tag: seq<nat>, b0: Bytes, b: Bytes, k: nat, base: nat,
                   bitset: set<nat>, ghost a: nat, ghost s: nat, ghost e: nat, ghost bound: nat)
    returns (b': Bytes)
    requires Coprime30(p) && TablesOk(w, p, on30, tag) && base == 8 * p * k
    requires bound % 2 == 1 && p * bound < 30 * |b0| && 64 * k + e <= Cut(bound)
    requires ClearState(b0, b, p, a, k, s, e, bitset)
    ensures ClearedUpTo(b0, b', p, a, 64 * k + e)
  {
    b' := b;
    var rest := bitset;
    ghost var lo := s;
    while rest != {}
      invariant ClearState(b0, b', p, a, k, lo, e, rest)
      decreases |rest|
    {
      b', rest, lo := ClearStep(w, p, on30, tag, b0, b', k, base, rest, a, lo, e, bound);
    }
    WindowGap(b0, k, lo, e, e, rest);
    ClearedSkip(b0, b', p, a, 64 * k + lo, 64 * k + e);
  }

  // ---------------------------------------------------------------------
  // Stacking
  // ---------------------------------------------------------------------

  /** The packed stack entry of the composite of quotient index i. */
  function Entry(w: Width, p: nat, i: nat): nat {
    Pack(w, CompIdx(p, i) / 8, TagOf(w, CompIdx(p, i) % 8))
  }

  /** The stack holds the packed composites of exactly the set bits of b0
      in [a, f), in the order of their indices; cs records those indices. */
  ghost predicate StackOk(w: Width, p: nat, b0: Bytes, a: nat, f: nat, stack: seq<nat>, cs: seq<nat>) {
    && |stack| == |cs| && |cs| + a <= f
    && (forall s, t :: 0 <= s < t < |cs| ==> cs[s] < cs[t])
    && (forall t :: 0 <= t < |cs| ==>
          a <= cs[t] < f && Bit(b0, cs[t]) && CompIdx(p, cs[t]) / 8 < |b0| && stack[t] == Entry(w, p, cs[t]))
    && (forall i: nat :: a <= i < f && Bit(b0, i) ==> i in cs)
  }

  /** The stack is determined by the bitmap and the range: two stacks that
      both satisfy StackOk hold the same entries in the same order. */
  lemma StackUnique(w: Width, p: nat, b0: Bytes, a: nat, f: nat, stack1: seq<nat>, cs1: seq<nat>,
                    stack2: seq<nat>, cs2: seq<nat>)
    requires StackOk(w, p, b0, a, f, stack1, cs1) && StackOk(w, p, b0, a, f, stack2, cs2)
    ensures cs1 == cs2 && stack1 == stack2
  {
    forall x
      ensures x in cs1 <==> x in cs2
    {
      if x in cs1 {
        var t :| 0 <= t < |cs1| && cs1[t] == x;
      }
      if x in cs2 {
        var t :| 0 <= t < |cs2| && cs2[t] == x;
      }
    }
    Primes.IncreasingUnique(cs1, cs2);
  }

  /** What the stacking scan has done once the window bits of word k below
      lo are consumed. */
  ghost predicate PushState(w: Width, p: nat, b0: Bytes, a: nat, k: nat, lo: nat, e: nat, bitset: set<nat>,
                            stack: seq<nat>, cs: seq<nat>) {
    a <= 64 * k + lo && lo <= e && WindowOf(b0, k, lo, e, bitset) && StackOk(w, p, b0, a, 64 * k + lo, stack, cs)
  }

  /** Pushing the composite of the next set bit i keeps the stack exact. */
  lemma StackPush(w: Width, p: nat, b0: Bytes, a: nat, f: nat, stack: seq<nat>, cs: seq<nat>, i: nat, g: nat,
                  bound: nat, stack': seq<nat>, cs': seq<nat>)
    requires StackOk(w, p, b0, a, f, stack, cs) && f <= i && Bit(b0, i) && g == i + 1
    requires forall j: nat :: f <= j < i ==> !Bit(b0, j)
    requires bound % 2 == 1 && p * bound < 30 * |b0| && i < Cut(bound)
    requires stack' == stack + [Entry(w, p, i)] && cs' == cs + [i]
    ensures StackOk(w, p, b0, a, g, stack', cs')
  {
    CompositeInRange(p, bound, |b0|, i);
    var cs' := cs + [i];
    forall j: nat | a <= j < i + 1 && Bit(b0, j)
      ensures j in cs'
    {
      if j < f {
        assert j in cs;
      } else {
        assert cs'[|cs|] == j;
      }
    }
  }

  /** Consuming the lowest window bit r and pushing its entry keeps the
      stacking state. */
  lemma PushNext(w: Width, p: nat, b0: Bytes, a: nat, k: nat, lo: nat, e: nat, bitset: set<nat>,
                 stack: seq<nat>, cs: seq<nat>, r: nat, bound: nat)
    requires PushState(w, p, b0, a, k, lo, e, bitset, stack, cs)
    requires r in bitset && forall x :: x in bitset ==> r <= x
    requires bound % 2 == 1 && p * bound < 30 * |b0| && 64 * k + e <= Cut(bound)
    ensures r < 64
    ensures PushState(w, p, b0, a, k, r + 1, e, bitset - {r}, stack + [Entry(w, p, 64 * k + r)], cs + [64 * k + r])
  {
    WindowNext(b0, k, lo, e, bitset, r);
    var stack', cs' := stack + [Entry(w, p, 64 * k + r)], cs + [64 * k + r];
    StackPush(w, p, b0, a, 64 * k + lo, stack, cs, 64 * k + r, 64 * k + (r + 1), bound, stack', cs');
  }

  /** The value pushed for bit r of word k is the packed composite of 64k + r. */
  lemma PushEntry(w: Width, p: nat, on30: seq<nat>, tag: seq<nat>, k: nat, r: nat, base: nat)
    requires TablesOk(w, p, on30, tag) && base == 8 * p * k && r < 64
    ensures Pack(w, base + on30[r], tag[r]) == Entry(w, p, 64 * k + r)
  {
    CompositeByte(w, p, on30, tag, k, r);
  }

  /** One step of a stacking loop: consume the lowest bit r and push the
      packed address of the composite of 64k + r. */
  method PushStep(w: Width, p: nat, on30: seq<nat>, tag: seq<nat>, b0: Bytes, k: nat, base: nat,
                  bitset: set<nat>, stack: seq<nat>, ghost cs: seq<nat>, ghost a: nat, ghost lo: nat, ghost e: nat,
                  ghost bound: nat)
    returns (bitset': set<nat>, stack': seq<nat>, ghost cs': seq<nat>, ghost lo': nat)
    requires TablesOk(w, p, on30, tag) && base == 8 * p * k
    requires bound % 2 == 1 && p * bound < 30 * |b0| && 64 * k + e <= Cut(bound)
    requires bitset != {} && PushState(w, p, b0, a, k, lo, e, bitset, stack, cs)
    ensures PushState(w, p, b0, a, k, lo', e, bitset', stack', cs') && |bitset'| < |bitset|
    ensures |stack'| == |stack| + 1 && stack'[..|stack|] == stack && cs'[..|cs|] == cs
  {
    var r := LowestBit(bitset);
    PushNext(w, p, b0, a, k, lo, e, bitset, stack, cs, r, bound);
    PushEntry(w, p, on30, tag, k, r, base);
    stack' := stack + [Pack(w, base + on30[r], tag[r])];
    cs' := cs + [64 * k + r];
    bitset' := bitset - {r};
    lo' := r + 1;
  }

  /** Consumes the window [s, e) of word k, pushing the composite of every
      set bit. */
  method PushWord(w: Width, p: nat, on30: seq<nat>, tag: seq<nat>, b0: Bytes, k: nat, base: nat,
                  bitset: set<nat>, stack: seq<nat>, ghost cs: seq<nat>, ghost a: nat, ghost s: nat, ghost e: nat,
                  ghost bound: nat)
    returns (stack': seq<nat>, ghost cs': seq<nat>)
    requires TablesOk(w, p, on30, tag) && base == 8 * p * k
    requires bound % 2 == 1 && p * bound < 30 * |b0| && 64 * k + e <= Cut(bound)
    requires PushState(w, p, b0, a, k, s, e, bitset, stack, cs)
    ensures StackOk(w, p, b0, a, 64 * k + e, stack', cs')
    ensures |stack| <= |stack'| && stack'[..|stack|] == stack && cs'[..|cs|] == cs
  {
    stack', cs' := stack, cs;
    var rest := bitset;
    ghost var lo := s;
    while rest != {}
      invariant PushState(w, p, b0, a, k, lo, e, rest, stack', cs')
      invariant |stack| <= |stack'| && stack'[..|stack|] == stack && cs'[..|cs|] == cs
      decreases |rest|
    {
      rest, stack', cs', lo := PushStep(w, p, on30, tag, b0, k, base, rest, stack', cs', a, lo, e, bound);
    }
    WindowGap(b0, k, lo, e, e, rest);
  }

  // ---------------------------------------------------------------------
  // Replay
  // ---------------------------------------------------------------------

  /** j is the composite of one of the stacked indices cs[t], t >= ics. */
  ghost predicate InStack(p: nat, cs: seq<nat>, ics: nat, j: nat) {
    exists t :: ics <= t < |cs| && j == CompIdx(p, cs[t])
  }

  ghost predicate ReplayState(w: Width, p: nat, b0: Bytes, bm: Bytes, b: Bytes, stack: seq<nat>, cs: seq<nat>,
                              ics: nat, a: nat, f: nat) {
    && ics <= |cs| && StackOk(w, p, b0, a, f, stack, cs) && |b| == |bm| == |b0|
    && forall j: nat :: Bit(b, j) <==> Bit(bm, j) && !InStack(p, cs, ics, j)
  }

  /** One step of the replay: pop an entry, unpack it and clear its bit. */
  method ReplayStep(w: Width, p: nat, b0: Bytes, bm: Bytes, b: Bytes, stack: seq<nat>, ghost cs: seq<nat>,
                    ics: nat, ghost a: nat, ghost f: nat)
    returns (b': Bytes, ics': nat)
    requires ics > 0 && ReplayState(w, p, b0, bm, b, stack, cs, ics, a, f)
    ensures ReplayState(w, p, b0, bm, b', stack, cs, ics', a, f) && ics' == ics - 1
  {
    ics' := ics - 1;
    var t := stack[ics'];
    ghost var j0 := CompIdx(p, cs[ics']);
    PackRoundTrip(w, j0 / 8, TagOf(w, j0 % 8));
    var c := t / Radix(w);
    ClearIndex(w, b, j0);
    b' := b[c := ApplyTag(w, b[c], t % Radix(w))];
    assert b' == ClearAt(w, b, c, t % Radix(w));
    forall j: nat
      ensures InStack(p, cs, ics', j) <==> InStack(p, cs, ics, j) || j == j0
    {
      if InStack(p, cs, ics', j) && j != j0 {
        var u :| ics' <= u < |cs| && j == CompIdx(p, cs[u]);
        assert u != ics';
      }
    }
  }

  /** The replay clears exactly the composites of the stacked indices:
      those of the set bits of b0 in [a, f). */
  method Replay(w: Width, p: nat, b0: Bytes, bm: Bytes, stack: seq<nat>, ghost cs: seq<nat>,
                ghost a: nat, ghost f: nat)
    returns (b': Bytes)
    requires Coprime30(p) && |bm| == |b0| && StackOk(w, p, b0, a, f, stack, cs)
    ensures |b'| == |b0|
    ensures forall j: nat :: Bit(b', j) <==> Bit(bm, j) && !Killed(b0, p, a, f, j)
  {
    b' := bm;
    var ics: nat := |stack|;
    while ics > 0
      invariant ReplayState(w, p, b0, bm, b', stack, cs, ics, a, f)
    {
      b', ics := ReplayStep(w, p, b0, bm, b', stack, cs, ics, a, f);
    }
    forall j: nat
      ensures InStack(p, cs, 0, j) <==> Killed(b0, p, a, f, j)
    {
      StackKilled(w, p, b0, a, f, stack, cs, j);
    }
  }

  /** The stacked composites are exactly the Killed indices of [a, f). */
  lemma StackKilled(w: Width, p: nat, b0: Bytes, a: nat, f: nat, stack: seq<nat>, cs: seq<nat>, j: nat)
    requires Coprime30(p) && StackOk(w, p, b0, a, f, stack, cs)
    ensures InStack(p, cs, 0, j) <==> Killed(b0, p, a, f, j)
  {
    CoprimePositive(p);
    DivNat(Val(j), p);
    if InStack(p, cs, 0, j) {
      var t :| 0 <= t < |cs| && j == CompIdx(p, cs[t]);
      KillChar(p, cs[t], j);
    }
    if Killed(b0, p, a, f, j) {
      var i := Idx(Val(j) / p);
      assert i in cs;
      var t :| 0 <= t < |cs| && cs[t] == i;
      KillChar(p, i, j);
    }
  }
}
