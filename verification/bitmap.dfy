/**
 * The wheel-30 bitmap: a byte sequence in which bit BitPos(x) of byte
 * x / 30 says whether the wheel integer x is in the set.
 *
 * The engine also reads the bytes as little-endian 64-bit words: word k is
 * bytes 8k .. 8k+7 and its bit r is bit r % 8 of byte 8k + r / 8, so word
 * bit r of word k is global bit 64k + r.  A word is modelled as the set of
 * its set bit positions (each < 64); "lowest set bit" (__builtin_ctzll and
 * `bitset & -bitset`) is the least element, clearing it (`bitset ^= t`)
 * removes that element, and the population count (__builtin_popcountll) is
 * the cardinality.
 */
module Bitmap {
  import opened Arith
  import opened Wheel30
  import opened Primes

  type Bytes = seq<bv8>

  /** `1 << j` for a bit j < 8 of a byte, spelt out with the eight masks
      (BitMaskShift states the agreement). */
  function BitMask(j: nat): bv8
    requires j < 8
  {
    if j < 4 then
      if j < 2 then (if j == 0 then 0x01 else 0x02)
      else (if j == 2 then 0x04 else 0x08)
    else
      if j < 6 then (if j == 4 then 0x10 else 0x20)
      else (if j == 6 then 0x40 else 0x80)
  }

  lemma BitMaskShift(j: nat)
    requires j < 8
    ensures BitMask(j) == (1 as bv8) << j
  {
  }

  /** Bit j of byte v is set: `v & (1 << j) != 0`; there is no bit 8 or above. */
  predicate ByteBit(v: bv8, j: nat) {
    j < 8 && v & BitMask(j) != 0
  }

  /** Global bit i: bit i % 8 of byte i / 8; bytes past the end read as 0. */
  predicate Bit(b: Bytes, i: nat) {
    i / 8 < |b| && ByteBit(b[i / 8], i % 8)
  }

  /** The `marked(x, bitmap)` macro: `bitmap[x / 30] & (1 << bit)`. */
  predicate Marked(b: Bytes, x: nat) {
    x / 30 < |b| && ByteBit(b[x / 30], BitPos(x))
  }

  /** The set of integers the bitmap holds. */
  ghost function Abs(b: Bytes): set<nat> {
    set x: nat | x < 30 * |b| && Coprime30(x) && Marked(b, x)
  }

  lemma AbsMember(b: Bytes, x: nat)
    requires x < 30 * |b| && Coprime30(x) && Marked(b, x)
    ensures x in Abs(b)
  {
  }

  /** A wheel integer is held exactly when it is marked. */
  lemma MarkedHeld(b: Bytes, x: nat)
    requires Coprime30(x)
    ensures x in Abs(b) <==> Marked(b, x)
  {
    if Marked(b, x) {
      var q: nat := x / 30;
      DivBounds(x, 30);
      MulLe(q + 1, |b|, 30);
    }
  }

  /** `marked` tests the global bit at the index of x. */
  lemma MarkedBit(b: Bytes, x: nat)
    ensures Marked(b, x) <==> Bit(b, Idx(x))
  {
    IdxParts(x);
  }

  /** Clearing bit j of a byte touches no other bit. */
  lemma ClearByteBit(v: bv8, i: nat, j: nat)
    requires j < 8
    ensures ByteBit(v & !BitMask(j), i) <==> ByteBit(v, i) && i != j
  {
  }

  /** Clears global bit i: `bitmap[i / 8] &= ~(1 << i % 8)`. */
  function ClearBit(b: Bytes, i: nat): (b': Bytes)
    requires i / 8 < |b|
    ensures |b'| == |b|
    ensures forall j: nat :: Bit(b', j) <==> Bit(b, j) && j != i
  {
    var c: nat, t: nat := i / 8, i % 8;
    var b' := b[c := b[c] & !BitMask(t)];
    forall j: nat
      ensures Bit(b', j) <==> Bit(b, j) && j != i
    {
      SplitEq(i, j);
      if j / 8 == c {
        ClearByteBit(b[c], j % 8, t);
      }
    }
    b'
  }

  /** Two indices are equal exactly when their bytes and bits are. */
  lemma SplitEq(i: nat, j: nat)
    ensures i == j <==> i / 8 == j / 8 && i % 8 == j % 8
  {
  }

  /** The `unmark(x, bitmap)` macro. */
  function Unmark(b: Bytes, x: nat): (b': Bytes)
    requires x / 30 < |b|
    ensures |b'| == |b|
    ensures forall j: nat :: Bit(b', j) <==> Bit(b, j) && j != Idx(x)
  {
    IdxParts(x);
    ClearBit(b, Idx(x))
  }

  /** Unmarking a wheel integer x removes x and nothing else. */
  lemma UnmarkSpec(b: Bytes, x: nat)
    requires x / 30 < |b| && Coprime30(x)
    ensures forall y: nat :: Coprime30(y) ==> (Marked(Unmark(b, x), y) <==> Marked(b, y) && y != x)
    ensures Abs(Unmark(b, x)) == Abs(b) - {x}
  {
    forall y: nat | Coprime30(y)
      ensures Marked(Unmark(b, x), y) <==> Marked(b, y) && y != x
    {
      MarkedBit(b, y);
      MarkedBit(Unmark(b, x), y);
      IdxMonotone(x, y);
      IdxMonotone(y, x);
    }
  }

  // ---------------------------------------------------------------------
  // 64-bit words
  // ---------------------------------------------------------------------

  /** Bit r of word k: global bit 64k + r. */
  predicate WordBit(b: Bytes, k: nat, r: nat) {
    Bit(b, 64 * k + r)
  }

  /** Word k of the bitmap, as the set of its set bit positions. */
  function Word(b: Bytes, k: nat): (s: set<nat>)
    requires 8 * k + 8 <= |b|
    ensures forall r: nat :: r in s <==> r < 64 && WordBit(b, k, r)
  {
    set r: nat | r < 64 && WordBit(b, k, r)
  }

  const AllOnes: bv64 := 0xFFFF_FFFF_FFFF_FFFF

  /** `0xFFFFFFFFFFFFFFFF >> (63 - t)` keeps exactly the bits r <= t. */
  lemma ShiftRightMask(t: bv64, r: bv64)
    requires t < 64 && r < 64
    ensures (AllOnes >> (63 - t)) & (1 << r) != 0 <==> r <= t
  {
  }

  /** `0xFFFFFFFFFFFFFFFF << (t + 1)` keeps exactly the bits r > t (t < 63). */
  lemma ShiftLeftMask(t: bv64, r: bv64)
    requires t < 63 && r < 64
    ensures (AllOnes << (t + 1)) & (1 << r) != 0 <==> t < r
  {
  }

  /** `s & (0xFFFFFFFFFFFFFFFF >> (63 - t))`: the bits of s at or below t. */
  function MaskLow(s: set<nat>, t: nat): set<nat>
    requires t < 64
  {
    set r | r in s && r <= t
  }

  /** `s & (0xFFFFFFFFFFFFFFFF << (t + 1))`: the bits of s above t. */
  function MaskHigh(s: set<nat>, t: nat): set<nat>
    requires t < 63
  {
    set r | r in s && t < r
  }

  /** A bit position below 64 as a 64-bit shift count. */
  function Pos(r: nat): (c: bv64)
    requires r < 64
    ensures c < 64 && c as nat == r
  {
    if r == 0 then 0 else Pos(r - 1) + 1
  }

  lemma CountOrder(a: bv64, b: bv64)
    requires a < 64 && b < 64
    ensures a <= b <==> a as nat <= b as nat
  {
  }

  /** Bit r of a 64-bit value: `v & (1 << r) != 0`. */
  predicate ValueBit(v: bv64, r: nat) {
    r < 64 && v & (1 << Pos(r)) != 0
  }

  /** The set bit positions of a 64-bit value. */
  function BitsOf(v: bv64): (s: set<nat>)
    ensures forall r: nat :: r in s <==> ValueBit(v, r)
  {
    set r: nat | r < 64 && ValueBit(v, r)
  }

  lemma LowMaskBit(t: bv64, r: nat)
    requires t < 64 && r < 64
    ensures ValueBit(AllOnes >> (63 - t), r) <==> r <= t as nat
  {
    var c := Pos(r);
    ShiftRightMask(t, c);
    CountOrder(c, t);
  }

  lemma HighMaskBit(t: bv64, r: nat)
    requires t < 63 && r < 64
    ensures ValueBit(AllOnes << (t + 1), r) <==> t as nat < r
  {
    var c := Pos(r);
    ShiftLeftMask(t, c);
    CountOrder(t, c);
  }

  /** Masking a word with `0xFFFFFFFFFFFFFFFF >> (63 - t)` is MaskLow. */
  lemma MaskLowBits(s: set<nat>, t: bv64)
    requires t < 64 && IsWord(s)
    ensures MaskLow(s, t as nat) == s * BitsOf(AllOnes >> (63 - t))
  {
    forall r | r in s
      ensures r in BitsOf(AllOnes >> (63 - t)) <==> r <= t as nat
    {
      LowMaskBit(t, r);
    }
  }

  /** Masking a word with `0xFFFFFFFFFFFFFFFF << (t + 1)` is MaskHigh. */
  lemma MaskHighBits(s: set<nat>, t: bv64)
    requires t < 63 && IsWord(s)
    ensures MaskHigh(s, t as nat) == s * BitsOf(AllOnes << (t + 1))
  {
    forall r | r in s
      ensures r in BitsOf(AllOnes << (t + 1)) <==> t as nat < r
    {
      HighMaskBit(t, r);
    }
  }

  /** `word & (0xFFFFFFFFFFFFFFFF >> (63 - t))`, on the word's set bits. */
  method AndLowMask(s: set<nat>, t: nat) returns (r: set<nat>)
    requires t < 64 && IsWord(s)
    ensures r == MaskLow(s, t)
  {
    MaskLowBits(s, Pos(t));
    r := s * BitsOf(AllOnes >> (63 - Pos(t)));
  }

  /** `word & (0xFFFFFFFFFFFFFFFF << (t + 1))`, on the word's set bits. */
  method AndHighMask(s: set<nat>, t: nat) returns (r: set<nat>)
    requires t < 63 && IsWord(s)
    ensures r == MaskHigh(s, t)
  {
    MaskHighBits(s, Pos(t));
    r := s * BitsOf(AllOnes << (Pos(t) + 1));
  }

  predicate IsWord(s: set<nat>) {
    forall r :: r in s ==> r < 64
  }

  /** __builtin_ctzll: the least bit of a non-zero word. */
  function LowestBit(s: set<nat>): (r: nat)
    requires s != {} && IsWord(s)
    ensures r in s && forall x :: x in s ==> r <= x
  {
    LowestFrom(s, 0)
  }

  function LowestFrom(s: set<nat>, i: nat): (r: nat)
    requires s != {} && IsWord(s) && forall x :: x in s ==> i <= x
    ensures r in s && forall x :: x in s ==> r <= x
    decreases 64 - i
  {
    if i in s then i else LowestFrom(s, i + 1)
  }

  // ---------------------------------------------------------------------
  // Enumeration and counting
  // ---------------------------------------------------------------------

  /** The integers encoded by the set bits among indices [0, n), in index
      order: the reference enumeration of the bitmap. */
  function Listed(b: Bytes, n: nat): seq<nat> {
    if n == 0 then [] else Listed(b, n - 1) + (if Bit(b, n - 1) then [Val(n - 1)] else [])
  }

  /** The enumeration lists exactly the wheel integers whose bit is set
      below index n, in strictly increasing order. */
  lemma {:induction false} ListedSpec(b: Bytes, n: nat)
    ensures StrictlyIncreasing(Listed(b, n))
    ensures forall x: nat :: x in Listed(b, n) <==> Coprime30(x) && Idx(x) < n && Bit(b, Idx(x))
  {
    if n > 0 {
      ListedSpec(b, n - 1);
      ListedBelow(b, n - 1);
      if Bit(b, n - 1) {
        IncreasingAppend(Listed(b, n - 1), Val(n - 1));
      }
      forall x: nat
        ensures x in Listed(b, n) <==> Coprime30(x) && Idx(x) < n && Bit(b, Idx(x))
      {
        ListedMember(b, n - 1, x);
      }
    }
  }

  /** Appending an element above all others keeps a list increasing. */
  lemma IncreasingAppend(s: seq<nat>, v: nat)
    requires StrictlyIncreasing(s) && forall y :: y in s ==> y < v
    ensures StrictlyIncreasing(s + [v])
  {
    forall i, j | 0 <= i < j < |s| + 1
      ensures (s + [v])[i] < (s + [v])[j]
    {
      assert s[i] in s;
    }
  }

  /** Every integer listed below index i is below Val(i). */
  lemma ListedBelow(b: Bytes, i: nat)
    requires forall x: nat :: x in Listed(b, i) <==> Coprime30(x) && Idx(x) < i && Bit(b, Idx(x))
    ensures forall y :: y in Listed(b, i) ==> y < Val(i)
  {
    IdxVal(i);
    forall y | y in Listed(b, i)
      ensures y < Val(i)
    {
      IdxMonotone(y, Val(i));
    }
  }

  /** The membership step of ListedSpec at index i. */
  lemma ListedMember(b: Bytes, i: nat, x: nat)
    requires forall x: nat :: x in Listed(b, i) <==> Coprime30(x) && Idx(x) < i && Bit(b, Idx(x))
    ensures x in Listed(b, i + 1) <==> Coprime30(x) && Idx(x) < i + 1 && Bit(b, Idx(x))
  {
    IdxVal(i);
    if Coprime30(x) && Idx(x) == i {
      ValIdx(x);
    }
  }

  /** Indices with no set bit add nothing to the enumeration. */
  lemma {:induction false} ListedSkip(b: Bytes, a: nat, c: nat)
    requires a <= c
    requires forall i: nat :: a <= i < c ==> !Bit(b, i)
    ensures Listed(b, c) == Listed(b, a)
    decreases c - a
  {
    if a < c {
      ListedSkip(b, a, c - 1);
    }
  }

  /** The set bits of word k below position m. */
  ghost function WordPrefix(b: Bytes, k: nat, m: nat): set<nat> {
    set r: nat | r < m && WordBit(b, k, r)
  }

  /** The integers listed from word k up to position m are the set bits
      of its prefix. */
  lemma {:induction false} WordPrefixCount(b: Bytes, k: nat, m: nat)
    ensures |Listed(b, 64 * k + m)| == |Listed(b, 64 * k)| + |WordPrefix(b, k, m)|
  {
    if m > 0 {
      WordPrefixCount(b, k, m - 1);
      PrefixCountStep(b, k, m);
    } else {
      assert WordPrefix(b, k, 0) == {};
    }
  }

  lemma PrefixCountStep(b: Bytes, k: nat, m: nat)
    requires m > 0 && |Listed(b, 64 * k + (m - 1))| == |Listed(b, 64 * k)| + |WordPrefix(b, k, m - 1)|
    ensures |Listed(b, 64 * k + m)| == |Listed(b, 64 * k)| + |WordPrefix(b, k, m)|
  {
    var i := 64 * k + (m - 1);
    ListedLength(b, i);
    WordPrefixStep(b, k, m - 1);
    assert Listed(b, i + 1) == Listed(b, 64 * k + m);
  }

  /** Index i adds one integer to the enumeration exactly when its bit is set. */
  lemma ListedLength(b: Bytes, i: nat)
    ensures |Listed(b, i + 1)| == |Listed(b, i)| + (if Bit(b, i) then 1 else 0)
  {
  }

  /** Position r adds one bit to the prefix of word k exactly when it is set. */
  lemma WordPrefixStep(b: Bytes, k: nat, r: nat)
    ensures |WordPrefix(b, k, r + 1)| == |WordPrefix(b, k, r)| + (if Bit(b, 64 * k + r) then 1 else 0)
  {
    if WordBit(b, k, r) {
      assert WordPrefix(b, k, r + 1) == WordPrefix(b, k, r) + {r};
    } else {
      assert WordPrefix(b, k, r + 1) == WordPrefix(b, k, r);
    }
  }

  /** The population count of word k is the number of integers it lists. */
  lemma WordCount(b: Bytes, k: nat)
    requires 8 * k + 8 <= |b|
    ensures |Word(b, k)| == |Listed(b, 64 * k + 64)| - |Listed(b, 64 * k)|
  {
    WordPrefixCount(b, k, 64);
    assert Word(b, k) == WordPrefix(b, k, 64);
  }

  /** `count`: the number of set bits in the first size / 8 words, summing
      the population count word by word. */
  method Count(b: Bytes, size: nat) returns (sum: nat)
    requires size <= |b|
    ensures sum == |Listed(b, 64 * (size / 8))|
  {
    sum := 0;
    var k := 0;
    while k < size / 8
      invariant k <= size / 8
      invariant sum == |Listed(b, 64 * k)|
    {
      WordCount(b, k);
      sum := sum + |Word(b, k)|;
      k := k + 1;
    }
  }

  /** `print`: enumerates 240 * k + bit64toval240[r] for every set bit r of
      every word k below `words`, lowest bit first, and counts them. */
  method Print(b: Bytes, words: nat) returns (out: seq<nat>, pos: nat)
    requires 8 * words <= |b|
    ensures out == Listed(b, 64 * words) && pos == |out|
  {
    out, pos := [], 0;
    var base := 0;
    var k := 0;
    while k < words
      invariant k <= words && base == 240 * k
      invariant out == Listed(b, 64 * k) && pos == |out|
    {
      out, pos := PrintWord(b, k, base, out, pos);
      base := base + 240;
      k := k + 1;
    }
  }

  /** The body of `print` for word k: appends the integers of its set bits,
      lowest bit first. */
  method PrintWord(b: Bytes, k: nat, base: nat, out0: seq<nat>, pos0: nat)
    returns (out: seq<nat>, pos: nat)
    requires 8 * k + 8 <= |b| && base == 240 * k
    requires out0 == Listed(b, 64 * k) && pos0 == |out0|
    ensures out == Listed(b, 64 * k + 64) && pos == |out|
  {
    out, pos := out0, pos0;
    var bitset := Word(b, k);
    ghost var lo := 0;
    assert bitset == WordFrom(b, k, 0);
    while bitset != {}
      invariant PrintState(b, k, bitset, lo, out, pos)
      decreases |bitset|
    {
      bitset, lo, out, pos := PrintBit(b, k, base, bitset, lo, out, pos);
    }
    WordFromEmpty(b, k, lo);
    ListedRest(b, k, lo);
  }

  /** The set bits of word k at or above position lo. */
  ghost function WordFrom(b: Bytes, k: nat, lo: nat): set<nat> {
    set r: nat | lo <= r < 64 && WordBit(b, k, r)
  }

  /** What `print` has done once the bits of word k below lo are consumed. */
  ghost predicate PrintState(b: Bytes, k: nat, bitset: set<nat>, lo: nat, out: seq<nat>, pos: nat) {
    && lo <= 64
    && bitset == WordFrom(b, k, lo)
    && out == Listed(b, 64 * k + lo)
    && pos == |out|
  }

  /** One step of `print`: consume the lowest set bit of the word. */
  method PrintBit(b: Bytes, k: nat, base: nat, bitset: set<nat>, ghost lo: nat, out: seq<nat>, pos: nat)
    returns (bitset': set<nat>, ghost lo': nat, out': seq<nat>, pos': nat)
    requires base == 240 * k && bitset != {}
    requires PrintState(b, k, bitset, lo, out, pos)
    ensures PrintState(b, k, bitset', lo', out', pos') && |bitset'| < |bitset|
  {
    WordFromIsWord(b, k, lo);
    var r := LowestBit(bitset);
    WordFromNext(b, k, lo, r);
    var x := base + Bit64ToVal240[r];
    ListedAppend(b, k, lo, r, out, x);
    out', pos' := out + [x], pos + 1;
    bitset' := bitset - {r};
    lo' := r + 1;
  }

  lemma WordFromIsWord(b: Bytes, k: nat, lo: nat)
    ensures IsWord(WordFrom(b, k, lo))
  {
  }

  /** The least set bit r at or above lo: no set bit lies in [lo, r), and
      the bits above r remain. */
  lemma WordFromNext(b: Bytes, k: nat, lo: nat, r: nat)
    requires r in WordFrom(b, k, lo) && forall x :: x in WordFrom(b, k, lo) ==> r <= x
    ensures lo <= r < 64 && WordBit(b, k, r)
    ensures forall i: nat :: lo <= i < r ==> !WordBit(b, k, i)
    ensures WordFrom(b, k, lo) - {r} == WordFrom(b, k, r + 1)
  {
    forall i: nat | lo <= i < r
      ensures !WordBit(b, k, i)
    {
      assert i !in WordFrom(b, k, lo);
    }
  }

  /** No set bit is left at or above lo. */
  lemma WordFromEmpty(b: Bytes, k: nat, lo: nat)
    requires WordFrom(b, k, lo) == {}
    ensures forall i: nat :: lo <= i < 64 ==> !WordBit(b, k, i)
  {
    forall i: nat | lo <= i < 64
      ensures !WordBit(b, k, i)
    {
      assert i !in WordFrom(b, k, lo);
    }
  }

  /** Indices [64k + lo, 64k + r) with no set bit add nothing. */
  lemma ListedGap(b: Bytes, k: nat, lo: nat, r: nat)
    requires lo <= r
    requires forall i: nat :: lo <= i < r ==> !WordBit(b, k, i)
    ensures Listed(b, 64 * k + r) == Listed(b, 64 * k + lo)
  {
    forall i | 64 * k + lo <= i < 64 * k + r
      ensures !Bit(b, i)
    {
      assert !WordBit(b, k, i - 64 * k);
    }
    ListedSkip(b, 64 * k + lo, 64 * k + r);
  }

  /** Consuming the lowest set bit r at or above lo of word k appends
      240 * k + bit64toval240[r] to the enumeration. */
  lemma ListedAppend(b: Bytes, k: nat, lo: nat, r: nat, out: seq<nat>, x: nat)
    requires lo <= r < 64 && WordBit(b, k, r)
    requires forall i: nat :: lo <= i < r ==> !WordBit(b, k, i)
    requires out == Listed(b, 64 * k + lo) && x == 240 * k + Bit64ToVal240[r]
    ensures out + [x] == Listed(b, 64 * k + (r + 1))
  {
    ListedGap(b, k, lo, r);
    ValWord(k, r);
    assert Listed(b, 64 * k + (r + 1)) == Listed(b, 64 * k + r) + [Val(64 * k + r)];
  }

  /** With no set bit left at or above lo, word k adds nothing more. */
  lemma ListedRest(b: Bytes, k: nat, lo: nat)
    requires lo <= 64
    requires forall i: nat :: lo <= i < 64 ==> !WordBit(b, k, i)
    ensures Listed(b, 64 * k + 64) == Listed(b, 64 * k + lo)
  {
    ListedGap(b, k, lo, 64);
  }
}
