/**
 * The arithmetic of Delete: the per-prime tables that address the
 * composite p * w of a quotient w read from a 64-bit word, the bounds
 * maxf and maxfOnp and the word bits they select, and the bookkeeping of
 * which composites have been cleared.
 *
 * The 32-bit program (`Narrow`) keeps for each table entry the bit of the
 * composite inside its byte and clears it with `&= ~(1 << bit)`; the
 * 64-bit program (`Wide`) keeps the complement mask `~(1 << bit)` and
 * clears with `&= mask`.  Both pack a stacked composite as its byte offset
 * shifted left past the entry: `(cOn30 << 3) | bit` and
 * `(cOn30 << 8) | mask`; since the entry is below the radix, the shift and
 * the `|` are a multiplication and an addition.
 */
module Composite {
  import opened Arith
  import opened Wheel30
  import opened Bitmap

  datatype Width = Narrow | Wide

  /** The radix of a packed stack entry: 1 << 3 or 1 << 8. */
  function Radix(w: Width): nat {
    match w
    case Narrow => 8
    case Wide => 256
  }

  /** The table entry kept for bit j of a byte: j itself (`pr240bit8`) or
      the mask `~(1 << j)` (`pr240bit8mask`). */
  function TagOf(w: Width, j: nat): (t: nat)
    requires j < 8
    ensures t < Radix(w)
  {
    match w
    case Narrow => j
    case Wide => (!BitMask(j)) as nat
  }

  /** Applying an entry to a byte: `&= ~(1 << t)` or `&= t`. */
  function ApplyTag(w: Width, v: bv8, t: nat): bv8
    requires t < Radix(w)
  {
    match w
    case Narrow => v & !BitMask(t)
    case Wide => v & (t as bv8)
  }

  /** Entry t clears bit j of any byte and keeps its other bits. */
  ghost predicate ClearsOnly(w: Width, t: nat, j: nat) {
    t < Radix(w) && forall v: bv8, i: nat :: ByteBit(ApplyTag(w, v, t), i) <==> ByteBit(v, i) && i != j
  }

  /** Both kinds of entry clear exactly their bit. */
  lemma TagClears(w: Width, j: nat)
    requires j < 8
    ensures ClearsOnly(w, TagOf(w, j), j)
  {
    TagApplies(w, j);
    forall v: bv8, i: nat
      ensures ByteBit(ApplyTag(w, v, TagOf(w, j)), i) <==> ByteBit(v, i) && i != j
    {
      ClearByteBit(v, i, j);
    }
  }

  /** Either entry for bit j applies the mask `~(1 << j)`. */
  lemma TagApplies(w: Width, j: nat)
    requires j < 8
    ensures forall v: bv8 :: ApplyTag(w, v, TagOf(w, j)) == v & !BitMask(j)
  {
    if w == Wide {
      MaskRoundTrip(!BitMask(j));
    }
  }

  /** A byte mask survives the trip through a table entry. */
  lemma MaskRoundTrip(m: bv8)
    ensures (m as nat) as bv8 == m
  {
  }

  /** Writing entry t to byte c of the bitmap clears global bit 8c + j only. */
  function ClearAt(w: Width, b: Bytes, c: nat, t: nat): (b': Bytes)
    requires c < |b| && t < Radix(w)
    ensures |b'| == |b|
  {
    b[c := ApplyTag(w, b[c], t)]
  }

  lemma ClearAtBit(w: Width, b: Bytes, c: nat, t: nat, j: nat)
    requires c < |b| && j < 8 && ClearsOnly(w, t, j)
    ensures forall i: nat :: Bit(ClearAt(w, b, c, t), i) <==> Bit(b, i) && i != 8 * c + j
  {
    forall i: nat
      ensures Bit(ClearAt(w, b, c, t), i) <==> Bit(b, i) && i != 8 * c + j
    {
      DivMod8(i / 8, i % 8);
      DivMod8(c, j);
      if i / 8 == c {
        assert ByteBit(ApplyTag(w, b[c], t), i % 8) <==> ByteBit(b[c], i % 8) && i % 8 != j;
      }
    }
  }

  /** Applying the entry for bit i % 8 at byte i / 8 clears global bit i and
      nothing else: the effect of `unmark` on the index of a composite. */
  lemma ClearIndex(w: Width, b: Bytes, i: nat)
    requires i / 8 < |b|
    ensures forall j: nat :: Bit(ClearAt(w, b, i / 8, TagOf(w, i % 8)), j) <==> Bit(b, j) && j != i
  {
    TagClears(w, i % 8);
    ClearAtBit(w, b, i / 8, TagOf(w, i % 8), i % 8);
  }

  /** A packed stack entry: byte offset c and table entry t. */
  function Pack(w: Width, c: nat, t: nat): nat {
    c * Radix(w) + t
  }

  /** Unpacking `t >> 3`, `t & 7` (or `t >> 8`, `t & 0xFF`) gives back the
      byte offset and the entry. */
  lemma PackRoundTrip(w: Width, c: nat, t: nat)
    requires t < Radix(w)
    ensures Pack(w, c, t) / Radix(w) == c && Pack(w, c, t) % Radix(w) == t
  {
    DivModUnique(Pack(w, c, t), Radix(w), c, t);
  }

  // ---------------------------------------------------------------------
  // The tables pr240On30 and pr240bit8 / pr240bit8mask
  // ---------------------------------------------------------------------

  /** pr240On30[r]: the byte offset of the composite p * bit64toval240[r]. */
  function CompByte(p: nat, r: nat): nat
    requires r < 64
  {
    var v := Bit64ToVal240[r];
    MulLe(0, v, p);
    p * v / 30
  }

  /** The bit of the composite p * bit64toval240[r] inside its byte. */
  function CompBit(p: nat, r: nat): (j: nat)
    requires r < 64
    ensures j < 8
  {
    var v := Bit64ToVal240[r];
    MulLe(0, v, p);
    BitPos(p * v)
  }

  /** pr240On30: entry r is the byte offset of p * bit64toval240[r]. */
  function OnTable(p: nat): seq<nat> {
    seq(64, r requires 0 <= r < 64 => CompByte(p, r))
  }

  /** pr240bit8 (Narrow) or pr240bit8mask (Wide): entry r clears the bit
      of p * bit64toval240[r]. */
  function TagTable(w: Width, p: nat): seq<nat> {
    seq(64, r requires 0 <= r < 64 => TagOf(w, CompBit(p, r)))
  }

  /** The two tables Delete builds for p. */
  predicate TablesOk(w: Width, p: nat, on30: seq<nat>, tag: seq<nat>) {
    on30 == OnTable(p) && tag == TagTable(w, p)
  }

  lemma TablesSize(w: Width, p: nat, on30: seq<nat>, tag: seq<nat>)
    requires TablesOk(w, p, on30, tag)
    ensures |on30| == 64 && |tag| == 64
    ensures forall r :: 0 <= r < 64 ==> tag[r] < Radix(w)
  {
  }

  /** The table loop of Delete: for every word k and bit r, the composite
      of the quotient at index 64k + r lies in byte 8pk + on30[r], and
      tag[r] clears exactly its bit there. */
  method Tables(w: Width, p: nat) returns (on30: seq<nat>, tag: seq<nat>)
    ensures TablesOk(w, p, on30, tag)
    ensures |on30| == 64 && |tag| == 64
    ensures forall i: nat ::
      (CompIdx(p, i) / 8 == 8 * p * (i / 64) + on30[i % 64] && tag[i % 64] == TagOf(w, CompIdx(p, i) % 8))
  {
    on30 := OnTable(p);
    tag := TagTable(w, p);
    forall i: nat
      ensures CompIdx(p, i) / 8 == 8 * p * (i / 64) + on30[i % 64] && tag[i % 64] == TagOf(w, CompIdx(p, i) % 8)
    {
      assert i == 64 * (i / 64) + i % 64;
      CompositeByte(w, p, on30, tag, i / 64, i % 64);
    }
  }

  /** For the quotient w = 240k + bit64toval240[r] (index 64k + r), the
      composite p * w lies in byte 8pk + pr240On30[r] at the bit of
      p * bit64toval240[r]: the offset `baseon30 + pr240On30[r]` with
      baseon30 = 8pk. */
  lemma CompositeAddress(p: nat, k: nat, r: nat)
    requires r < 64
    ensures p * Val(64 * k + r) / 30 == 8 * p * k + CompByte(p, r)
    ensures BitPos(p * Val(64 * k + r)) == CompBit(p, r)
  {
    var v := Bit64ToVal240[r];
    ValWord(k, r);
    MulSplit(p, 240 * k, v);
    Mul240(p, k);
    BitPosShift(8 * p * k, p * v);
  }

  lemma Mul240(p: nat, k: nat)
    ensures p * (240 * k) == 30 * (8 * p * k)
  {
  }

  // ---------------------------------------------------------------------
  // Composites and the record of cleared bits
  // ---------------------------------------------------------------------

  /** The index of the composite p * Val(i) of quotient index i. */
  function CompIdx(p: nat, i: nat): nat {
    Idx(p * Val(i))
  }

  /** The composite of quotient index 64k + r sits at bit
      pr240bit8[r] of byte 8pk + pr240On30[r], and entry r of the tag table
      clears exactly that bit. */
  lemma CompositeByte(w: Width, p: nat, on30: seq<nat>, tag: seq<nat>, k: nat, r: nat)
    requires TablesOk(w, p, on30, tag) && r < 64
    ensures CompIdx(p, 64 * k + r) / 8 == 8 * p * k + on30[r]
    ensures tag[r] == TagOf(w, CompIdx(p, 64 * k + r) % 8)
  {
    var x := p * Val(64 * k + r);
    assert CompIdx(p, 64 * k + r) == Idx(x);
    CompositeAddress(p, k, r);
    IdxParts(x);
    assert tag[r] == TagOf(w, CompBit(p, r));
  }

  /** Index j is the composite of quotient index i exactly when Val(j) is p
      times the integer at index i. */
  lemma KillChar(p: nat, i: nat, j: nat)
    requires Coprime30(p)
    ensures j == CompIdx(p, i) <==> Val(j) % p == 0 && Idx(Val(j) / p) == i
  {
    CoprimePositive(p);
    DivNat(Val(j), p);
    if j == CompIdx(p, i) {
      var x := CompositeOf(p, i);
    }
    if Val(j) % p == 0 && Idx(Val(j) / p) == i {
      KillCharBack(p, i, j);
    }
  }

  /** The composite of quotient index i is x = p * Val(i), stored at
      CompIdx(p, i), and its cofactor is back at index i. */
  lemma CompositeOf(p: nat, i: nat) returns (x: nat)
    requires Coprime30(p)
    ensures x == p * Val(i) && Val(CompIdx(p, i)) == x
    ensures x % p == 0 && Idx(x / p) == i
  {
    var v := Val(i);
    x := Product(p, v);
    IdxVal(i);
    CoprimeMul(p, v);
    MulDiv(p, v);
    ValIdx(x);
  }

  lemma KillCharBack(p: nat, i: nat, j: nat)
    requires Coprime30(p) && Val(j) % p == 0 && Idx(Val(j) / p) == i
    ensures j == CompIdx(p, i)
  {
    var m := Cofactor(Val(j), p);
    IdxVal(j);
    CoprimeFactor(p, m);
    ValIdx(m);
  }

  /** Index j was cleared as the composite of a quotient index in [a, f)
      set in the original bitmap b0. */
  ghost predicate Killed(b0: Bytes, p: nat, a: int, f: int, j: nat) {
    p > 0 && Val(j) % p == 0 && a <= Idx(Val(j) / p) < f && Bit(b0, Idx(Val(j) / p))
  }

  /** b is b0 with the composites of the quotient indices in [a, f) cleared. */
  ghost predicate ClearedUpTo(b0: Bytes, b: Bytes, p: nat, a: int, f: int) {
    |b| == |b0| && forall j: nat {:trigger Bit(b, j)} :: Bit(b, j) <==> Bit(b0, j) && !Killed(b0, p, a, f, j)
  }

  /** Moving the front of the window over a stretch of clear bits changes
      nothing. */
  lemma KilledSkip(b0: Bytes, p: nat, a: nat, f: nat, g: nat, j: nat)
    requires p > 0 && f <= g
    requires forall i: nat :: f <= i < g ==> !Bit(b0, i)
    ensures Killed(b0, p, a, f, j) <==> Killed(b0, p, a, g, j)
  {
  }

  /** Moving the front over a set bit f adds the composite of f. */
  lemma KilledAdd(b0: Bytes, p: nat, a: nat, f: nat, j: nat)
    requires Coprime30(p) && a <= f && Bit(b0, f)
    ensures Killed(b0, p, a, f + 1, j) <==> Killed(b0, p, a, f, j) || j == CompIdx(p, f)
  {
    KillChar(p, f, j);
  }

  // ---------------------------------------------------------------------
  // The bounds maxf, maxfOnp and the word bits they select
  // ---------------------------------------------------------------------

  /** `x; if (x % 2 == 0) x -= 1`: the largest odd number <= x. Delete
      only takes it of quotients x >= 7, so the source's -1 at x = 0 is
      replaced by 0, which bounds the same (empty) set of odd numbers; the
      parameter is an int only so that callers need not prove a quotient
      non-negative. */
  function MaxOdd(x: int): nat {
    if x <= 0 then 0 else if x % 2 == 1 then x else x - 1
  }

  /** maxf = MaxOdd(length / p) bounds exactly the odd quotients w whose
      composite p * w is at most length. */
  lemma MaxOddBound(p: nat, x: nat, w: nat)
    requires p > 0 && w % 2 == 1
    ensures w <= MaxOdd(x / p) <==> p * w <= x
  {
    MulDivLe(p, w, x);
  }

  /** One past the last index whose integer is at most m (m odd): bits
      WordBitBound(m) and below of word m / 240, and every earlier word. */
  function Cut(m: nat): nat {
    64 * (m / 240) + WordBitBound(m) + 1
  }

  /** The indices below Cut(m) are exactly those of the integers <= m. */
  lemma CutSpec(m: nat, i: nat)
    requires m % 2 == 1
    ensures i < Cut(m) <==> Val(i) <= m
  {
    IdxVal(i);
    var v := Val(i);
    IdxWord(v);
    WordBitBoundRange(m);
    var K := m / 240;
    assert i == 64 * (i / 64) + i % 64;
    if i / 64 == K {
      WordBitBoundExact(m, v);
    } else if i / 64 < K {
      assert v < 240 * (v / 240) + 240;
      assert 240 * (v / 240 + 1) <= 240 * K;
    } else {
      assert 240 * (K + 1) <= 240 * (v / 240) <= v;
    }
  }

  /** For a wheel integer x, Idx(x) < Cut(m) exactly when x <= m. */
  lemma CutIdx(m: nat, x: nat)
    requires m % 2 == 1 && Coprime30(x)
    ensures Idx(x) < Cut(m) <==> x <= m
  {
    CutSpec(m, Idx(x));
    ValIdx(x);
  }

  /** Cut(m) is the index after the bit of word m / 240 selected by
      WordBitBound(m), and is at most 8 * (m / 30) + 8. */
  lemma CutBounds(m: nat)
    requires m % 2 == 1
    ensures 0 <= WordBitBound(m) < 64
    ensures 64 * (m / 240) < Cut(m) <= 8 * (m / 30) + 8
  {
    WordBitBoundRange(m);
    WordParts(m);
    var q, a := m / 240, m % 240 / 30;
    assert m == 30 * (8 * q + a) + m % 30;
    DivMod30(8 * q + a, m % 30);
    Mod30ToBit8Range(m % 30);
  }
}
