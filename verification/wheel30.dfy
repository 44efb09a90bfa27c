/**
 * The wheel-30 codec of the bitmap sieve.
 *
 * Only integers coprime to 30 are stored: each byte of the bitmap covers
 * 30 consecutive integers and holds one bit for each of the 8 residues
 * 1, 7, 11, 13, 17, 19, 23, 29.  A 64-bit word (8 bytes) covers 240
 * consecutive integers.  Integer x lives in byte x / 30 at bit
 * (x % 30) * 8 / 30; this module calls 8 * (x / 30) + that bit the
 * "index" of x, and the inverse map from an index back to its integer
 * the "value" of the index.
 */
module Wheel30 {
  import opened Arith

  /** mod30_to_bit8: for r > 0, the bit of the largest wheel residue <= r. */
  const Mod30ToBit8: seq<int> :=
    [-1, 0, 0, 0, 0, 0, 0, 1, 1, 1, 1, 2, 2, 3, 3, 3, 3, 4, 4, 5, 5, 5, 5, 6, 6, 6, 6, 6, 6, 7]

  /** bit64toval240: the integer (below 240) encoded by bit r of a 64-bit word. */
  const Bit64ToVal240: seq<nat> :=
    [  1,   7,  11,  13,  17,  19,  23,  29] + [ 31,  37,  41,  43,  47,  49,  53,  59] +
    [ 61,  67,  71,  73,  77,  79,  83,  89] + [ 91,  97, 101, 103, 107, 109, 113, 119] +
    [121, 127, 131, 133, 137, 139, 143, 149] + [151, 157, 161, 163, 167, 169, 173, 179] +
    [181, 187, 191, 193, 197, 199, 203, 209] + [211, 217, 221, 223, 227, 229, 233, 239]

  /** diff: the gaps between consecutive wheel residues, starting at 1 -> 7. */
  const Diff: seq<nat> := [6, 4, 2, 4, 2, 4, 6, 2]

  predicate Coprime30(x: nat) {
    x % 2 != 0 && x % 3 != 0 && x % 5 != 0
  }

  /** The bit of x inside its byte, as the `marked`/`unmark` macros compute it. */
  function BitPos(x: nat): (j: nat)
    ensures j < 8
  {
    (x % 30) * 8 / 30
  }

  /** The wheel residues of one byte: the first row of bit64toval240. */
  const ByteResidues: seq<nat> := [1, 7, 11, 13, 17, 19, 23, 29]

  /** The wheel residue stored at bit j of a byte. */
  function Residue(j: nat): nat
    requires j < 8
  {
    ByteResidues[j]
  }

  lemma CoprimePositive(x: nat)
    requires Coprime30(x)
    ensures x >= 1
  {
  }

  /** Global bit index of x: byte x / 30, bit BitPos(x). */
  function Idx(x: nat): nat {
    8 * (x / 30) + BitPos(x)
  }

  /** The integer encoded by global bit index i. */
  function Val(i: nat): nat {
    30 * (i / 8) + Residue(i % 8)
  }

  /** Largest bit, inside the 64-bit word holding m, whose value is <= m
      (the `bit64` / `bit64mid` expressions of Delete). */
  function WordBitBound(m: nat): int {
    m % 240 / 30 * 8 + Mod30ToBit8[m % 240 % 30]
  }

  // ---------------------------------------------------------------------
  // Table facts
  // ---------------------------------------------------------------------

  /** The 8 residues are coprime to 30, below 30, strictly increasing, and
      both the macro formula and mod30_to_bit8 map them back to their bit. */
  lemma ResidueCodec(j: nat)
    requires j < 8
    ensures Residue(j) < 30 && Coprime30(Residue(j))
    ensures BitPos(Residue(j)) == j && Mod30ToBit8[Residue(j)] == j
    ensures forall j' :: j < j' < 8 ==> Residue(j) < Residue(j')
  {
  }

  /** Every residue coprime to 30 is one of the 8 wheel residues, and for it
      the macro formula (x % 30) * 8 / 30 agrees with mod30_to_bit8. */
  lemma CoprimeResidue(c: nat)
    requires c < 30 && Coprime30(c)
    ensures Residue(BitPos(c)) == c
    ensures Mod30ToBit8[c] == BitPos(c)
  {
  }

  /** The 8 bit positions of the coprime residues are distinct. */
  lemma BitPosInjective(c: nat, d: nat)
    requires c < 30 && d < 30 && Coprime30(c) && Coprime30(d)
    ensures BitPos(c) == BitPos(d) ==> c == d
  {
    CoprimeResidue(c);
    CoprimeResidue(d);
  }

  lemma Row0(r: nat) requires r < 8 ensures Bit64ToVal240[r] == Residue(r % 8) {
  }
  lemma Row1(r: nat) requires 8 <= r < 16 ensures Bit64ToVal240[r] == 30 + Residue(r % 8) {
    if r == 8 {} else if r == 9 {} else if r == 10 {} else if r == 11 {}
    else if r == 12 {} else if r == 13 {} else if r == 14 {} else {}
  }
  lemma Row2(r: nat) requires 16 <= r < 24 ensures Bit64ToVal240[r] == 60 + Residue(r % 8) {
    if r == 16 {} else if r == 17 {} else if r == 18 {} else if r == 19 {}
    else if r == 20 {} else if r == 21 {} else if r == 22 {} else {}
  }
  lemma Row3(r: nat) requires 24 <= r < 32 ensures Bit64ToVal240[r] == 90 + Residue(r % 8) {
    if r == 24 {} else if r == 25 {} else if r == 26 {} else if r == 27 {}
    else if r == 28 {} else if r == 29 {} else if r == 30 {} else {}
  }
  lemma Row4(r: nat) requires 32 <= r < 40 ensures Bit64ToVal240[r] == 120 + Residue(r % 8) {
    if r == 32 {} else if r == 33 {} else if r == 34 {} else if r == 35 {}
    else if r == 36 {} else if r == 37 {} else if r == 38 {} else {}
  }
  lemma Row5(r: nat) requires 40 <= r < 48 ensures Bit64ToVal240[r] == 150 + Residue(r % 8) {
    if r == 40 {} else if r == 41 {} else if r == 42 {} else if r == 43 {}
    else if r == 44 {} else if r == 45 {} else if r == 46 {} else {}
  }
  lemma Row6(r: nat) requires 48 <= r < 56 ensures Bit64ToVal240[r] == 180 + Residue(r % 8) {
    if r == 48 {} else if r == 49 {} else if r == 50 {} else if r == 51 {}
    else if r == 52 {} else if r == 53 {} else if r == 54 {} else {}
  }
  lemma Row7(r: nat) requires 56 <= r < 64 ensures Bit64ToVal240[r] == 210 + Residue(r % 8) {
    if r == 56 {} else if r == 57 {} else if r == 58 {} else if r == 59 {}
    else if r == 60 {} else if r == 61 {} else if r == 62 {} else {}
  }

  /** Entry r of bit64toval240 is residue r % 8 of byte r / 8. */
  lemma Table64Row(r: nat)
    requires r < 64
    ensures Bit64ToVal240[r] == 30 * (r / 8) + Residue(r % 8)
  {
    var q := r / 8;
    if q == 0 { Row0(r); } else if q == 1 { Row1(r); } else if q == 2 { Row2(r); }
    else if q == 3 { Row3(r); } else if q == 4 { Row4(r); } else if q == 5 { Row5(r); }
    else if q == 6 { Row6(r); } else { Row7(r); }
  }

  /** bit64toval240 is the codec of the 8 byte residues repeated over the 8
      bytes of a word: entry r is coprime to 30, lies in byte r / 8, and
      mod30_to_bit8 maps it back to bit r % 8. */
  lemma Table64(r: nat)
    requires r < 64
    ensures Bit64ToVal240[r] == 30 * (r / 8) + Residue(r % 8)
    ensures Coprime30(Bit64ToVal240[r])
    ensures Bit64ToVal240[r] / 30 == r / 8
    ensures Mod30ToBit8[Bit64ToVal240[r] % 30] == r % 8
  {
    Table64Row(r);
    ResidueCodec(r % 8);
    DivMod30(r / 8, Residue(r % 8));
    Coprime30Shift(r / 8, Residue(r % 8));
  }

  /** bit64toval240 is strictly increasing. */
  lemma Table64Increasing(r: nat, s: nat)
    requires r < s < 64
    ensures Bit64ToVal240[r] < Bit64ToVal240[s]
  {
    Table64Row(r);
    Table64Row(s);
    RowOrder(r, s);
  }

  /** Table64Increasing without the table: byte-major order of the codec. */
  lemma RowOrder(r: nat, s: nat)
    requires r < s < 64
    ensures 30 * (r / 8) + Residue(r % 8) < 30 * (s / 8) + Residue(s % 8)
  {
    var a, b := r / 8, s / 8;
    ResidueCodec(r % 8);
    ResidueCodec(s % 8);
    if a == b {
      assert r % 8 < s % 8;
    } else {
      assert a < b;
      assert 30 * a + Residue(r % 8) < 30 * a + 30 <= 30 * b;
    }
  }

  // ---------------------------------------------------------------------
  // Division by the constant moduli, one modulus at a time
  // ---------------------------------------------------------------------

  lemma DivMod8(a: nat, r: nat)
    requires r < 8
    ensures (8 * a + r) / 8 == a && (8 * a + r) % 8 == r
  {
  }

  lemma DivMod30(a: nat, r: nat)
    requires r < 30
    ensures (30 * a + r) / 30 == a && (30 * a + r) % 30 == r
  {
  }

  lemma Shift2(a: nat, r: nat) ensures (2 * a + r) % 2 == r % 2 {}
  lemma Shift3(a: nat, r: nat) ensures (3 * a + r) % 3 == r % 3 {}
  lemma Shift5(a: nat, r: nat) ensures (5 * a + r) % 5 == r % 5 {}

  /** Divisibility by 2, 3 and 5 only depends on the residue mod 30. */
  lemma Coprime30Shift(a: nat, r: nat)
    ensures Coprime30(30 * a + r) <==> Coprime30(r)
  {
    Shift2(15 * a, r);
    Shift3(10 * a, r);
    Shift5(6 * a, r);
    assert 30 * a + r == 2 * (15 * a) + r;
    assert 30 * a + r == 3 * (10 * a) + r;
    assert 30 * a + r == 5 * (6 * a) + r;
  }

  lemma Coprime30Mod(x: nat)
    ensures Coprime30(x) <==> Coprime30(x % 30)
  {
    Coprime30Shift(x / 30, x % 30);
  }

  // ---------------------------------------------------------------------
  // Index / value round trip and order
  // ---------------------------------------------------------------------

  /** The index of x splits into byte x / 30 and bit BitPos(x). */
  lemma IdxParts(x: nat)
    ensures Idx(x) / 8 == x / 30 && Idx(x) % 8 == BitPos(x)
    ensures BitPos(x % 30) == BitPos(x)
  {
    DivMod8(x / 30, BitPos(x));
  }

  /** Decoding the index of a wheel integer gives the integer back. */
  lemma ValIdx(x: nat)
    requires Coprime30(x)
    ensures Val(Idx(x)) == x
  {
    IdxParts(x);
    Coprime30Mod(x);
    CoprimeResidue(x % 30);
  }

  /** Val(i) splits into byte i / 8 and residue Residue(i % 8). */
  lemma ValParts(i: nat)
    ensures Val(i) / 30 == i / 8 && Val(i) % 30 == Residue(i % 8)
    ensures Coprime30(Val(i))
  {
    ResidueCodec(i % 8);
    DivMod30(i / 8, Residue(i % 8));
    Coprime30Shift(i / 8, Residue(i % 8));
  }

  /** Every index encodes a wheel integer, whose index is the index itself. */
  lemma IdxVal(i: nat)
    ensures Coprime30(Val(i))
    ensures Idx(Val(i)) == i
  {
    ValParts(i);
    ResidueCodec(i % 8);
    assert BitPos(Val(i)) == BitPos(Residue(i % 8));
  }

  /** The index of x is in 64-bit word x / 240. */
  lemma IdxWord(x: nat)
    ensures Idx(x) / 64 == x / 240
    ensures Idx(x) % 64 == 8 * (x % 240 / 30) + BitPos(x)
  {
    var q := x / 240;
    var s := x % 240;
    assert x == 240 * q + s;
    assert x / 30 == 8 * q + s / 30;
    assert x % 30 == s % 30;
    var t := 8 * (s / 30) + BitPos(x);
    assert t < 64;
    assert Idx(x) == 64 * q + t;
  }

  /** The value of bit r of word k is 240 * k + bit64toval240[r]. */
  lemma ValWord(k: nat, r: nat)
    requires r < 64
    ensures Val(64 * k + r) == 240 * k + Bit64ToVal240[r]
  {
    Table64Row(r);
    ValWordParts(k, r);
  }

  lemma ValWordParts(k: nat, r: nat)
    requires r < 64
    ensures Val(64 * k + r) == 240 * k + (30 * (r / 8) + Residue(r % 8))
  {
    var q, t := r / 8, r % 8;
    assert r == 8 * q + t;
    var i := 64 * k + r;
    assert i == 8 * (8 * k + q) + t;
    DivMod8(8 * k + q, t);
    assert Val(i) == 30 * (8 * k + q) + Residue(t);
  }

  /** The codec preserves order in both directions. */
  lemma IdxMonotone(x: nat, y: nat)
    requires Coprime30(x) && Coprime30(y)
    ensures x < y <==> Idx(x) < Idx(y)
  {
    IdxParts(x);
    IdxParts(y);
    Coprime30Mod(x);
    Coprime30Mod(y);
    CoprimeResidue(x % 30);
    CoprimeResidue(y % 30);
    if x / 30 == y / 30 {
      if x % 30 < y % 30 {
        ResidueCodec(BitPos(x));
      } else if y % 30 < x % 30 {
        ResidueCodec(BitPos(y));
      }
    }
  }

  lemma ValMonotone(i: nat, j: nat)
    ensures i < j <==> Val(i) < Val(j)
  {
    IdxVal(i);
    IdxVal(j);
    IdxMonotone(Val(i), Val(j));
  }

  /** No wheel integer lies strictly between two consecutive indices. */
  lemma NoneBetween(i: nat, y: nat)
    requires Val(i) < y < Val(i + 1)
    ensures !Coprime30(y)
  {
    if Coprime30(y) {
      IdxVal(i);
      IdxVal(i + 1);
      IdxMonotone(Val(i), y);
      IdxMonotone(y, Val(i + 1));
    }
  }

  // ---------------------------------------------------------------------
  // The diff cycle
  // ---------------------------------------------------------------------

  lemma DiffResidue(j: nat)
    requires j < 8
    ensures j < 7 ==> Residue(j) + Diff[j] == Residue(j + 1)
    ensures j == 7 ==> Residue(j) + Diff[j] == 30 + Residue(0)
  {
  }

  /** Adding diff[BitPos(x)] to a wheel integer x steps to the very next
      wheel integer, whose bit is the next bit of the cycle. */
  lemma DiffStep(x: nat)
    requires Coprime30(x)
    ensures x + Diff[BitPos(x)] == Val(Idx(x) + 1)
    ensures Coprime30(x + Diff[BitPos(x)])
    ensures BitPos(x + Diff[BitPos(x)]) == (BitPos(x) + 1) % 8
  {
    var i := Idx(x) + 1;
    DiffVal(x);
    IdxVal(i);
    IdxParts(Val(i));
    IdxParts(x);
    NextMod8(Idx(x));
  }

  /** The value part of DiffStep. */
  lemma DiffVal(x: nat)
    requires Coprime30(x)
    ensures x + Diff[BitPos(x)] == Val(Idx(x) + 1)
  {
    var q, j := x / 30, BitPos(x);
    ValIdx(x);
    IdxParts(x);
    DiffResidue(j);
    var i := Idx(x) + 1;
    assert x == 30 * q + Residue(j);
    if j < 7 {
      DivMod8(q, j + 1);
      assert i == 8 * q + (j + 1);
    } else {
      DivMod8(q + 1, 0);
      assert i == 8 * (q + 1) + 0;
    }
  }

  lemma NextMod8(a: nat)
    ensures (a + 1) % 8 == (a % 8 + 1) % 8
  {
    DivMod8(a / 8, a % 8);
    if a % 8 < 7 {
      DivMod8(a / 8, a % 8 + 1);
    } else {
      DivMod8(a / 8 + 1, 0);
    }
  }

  /** One turn of the diff cycle advances by exactly one period. */
  lemma DiffPeriod()
    ensures Diff[0] + Diff[1] + Diff[2] + Diff[3] + Diff[4] + Diff[5] + Diff[6] + Diff[7] == 30
  {
  }

  // ---------------------------------------------------------------------
  // Word masks
  // ---------------------------------------------------------------------

  /** For 1 <= r < 30, mod30_to_bit8[r] bounds exactly the residues <= r. */
  lemma ResidueMask(c: nat, r: nat)
    requires c < 30 && Coprime30(c) && 1 <= r < 30
    ensures BitPos(c) <= Mod30ToBit8[r] <==> c <= r
  {
    CoprimeResidue(c);
    ResidueMaskBit(BitPos(c), r);
  }

  /** Bit j is at or below mod30_to_bit8[r] exactly when its residue is <= r. */
  lemma ResidueMaskBit(j: nat, r: nat)
    requires j < 8 && 1 <= r < 30
    ensures j <= Mod30ToBit8[r] <==> Residue(j) <= r
  {
    Mod30Bracket(r);
    var t := Mod30ToBit8[r];
    ResidueCodec(j);
    ResidueCodec(t);
    if j > t {
      ResidueCodec(t + 1);
    }
  }

  /** mod30_to_bit8[r] is the bit of the largest wheel residue <= r: its
      residue is at most r and the next one, if any, exceeds r. */
  lemma Mod30Bracket(r: nat)
    requires 1 <= r < 30
    ensures 0 <= Mod30ToBit8[r] < 8 && Residue(Mod30ToBit8[r]) <= r
    ensures Mod30ToBit8[r] < 7 ==> r < Residue(Mod30ToBit8[r] + 1)
  {
    if r == 1 {} else if r == 2 {} else if r == 3 {} else if r == 4 {} else if r == 5 {} else if r == 6 {}
    else if r == 7 {} else if r == 8 {} else if r == 9 {} else if r == 10 {} else if r == 11 {}
    else if r == 12 {} else if r == 13 {} else if r == 14 {} else if r == 15 {} else if r == 16 {}
    else if r == 17 {} else if r == 18 {} else if r == 19 {} else if r == 20 {} else if r == 21 {}
    else if r == 22 {} else if r == 23 {} else if r == 24 {} else if r == 25 {} else if r == 26 {}
    else if r == 27 {} else if r == 28 {} else {}
  }

  /** For odd m, WordBitBound(m) is a bit of the word holding m, and the bits
      at or below it are exactly the wheel integers of that word up to m. */
  lemma WordBitBoundExact(m: nat, w: nat)
    requires m % 2 == 1 && Coprime30(w) && w / 240 == m / 240
    ensures 0 <= WordBitBound(m) < 64
    ensures Idx(w) % 64 <= WordBitBound(m) <==> w <= m
  {
    var cm := m % 30;
    OddResidue(m);
    WordParts(m);
    Coprime30Mod(w);
    IdxParts(w);
    ResidueMask(w % 30, cm);
    BoundParts(m, w, Mod30ToBit8[cm]);
  }

  /** An odd m has an odd, hence non-zero, residue mod 30 with an entry in mod30_to_bit8. */
  lemma OddResidue(m: nat)
    requires m % 2 == 1
    ensures 1 <= m % 30 < 30 && 0 <= Mod30ToBit8[m % 30] < 8
  {
    assert m % 30 % 2 == 1 by { Shift2(15 * (m / 30), m % 30); }
    Mod30Bracket(m % 30);
  }

  /** WordBitBoundExact with the table entry t of m % 30 as a parameter. */
  lemma BoundParts(m: nat, w: nat, t: int)
    requires Coprime30(w) && w / 240 == m / 240 && 0 <= t < 8
    requires BitPos(w) <= t <==> w % 30 <= m % 30
    ensures 0 <= 8 * (m % 240 / 30) + t < 64
    ensures Idx(w) % 64 <= 8 * (m % 240 / 30) + t <==> w <= m
  {
    WordParts(m);
    WordParts(w);
    IdxWord(w);
    WordOrder(m / 240, w % 240 / 30, m % 240 / 30, w % 30, m % 30, BitPos(w), t);
  }

  /** Within one word, comparing (byte, bit) pairs compares the integers,
      given that the bits of two residues compare like the residues. */
  lemma WordOrder(q: nat, a: nat, b: nat, cw: nat, cm: nat, j: nat, t: int)
    requires a < 8 && b < 8 && cw < 30 && cm < 30 && j < 8 && 0 <= t < 8
    requires j <= t <==> cw <= cm
    ensures 8 * a + j <= 8 * b + t <==> 240 * q + 30 * a + cw <= 240 * q + 30 * b + cm
  {
    if a < b {
      assert 8 * a + j < 8 * b;
      assert 30 * a + cw < 30 * b;
    } else if a > b {
      assert 8 * a + j >= 8 * b + 8;
      assert 30 * a + cw >= 30 * b + 30;
    }
  }

  lemma Mod30ToBit8Range(r: nat)
    requires 1 <= r < 30
    ensures 0 <= Mod30ToBit8[r] < 8
  {
  }

  /** mod30_to_bit8[r] for 1 <= r < 30: the bit of the largest wheel
      residue at most r. */
  function LastBit(r: nat): (t: nat)
    requires 1 <= r < 30
    ensures t < 8 && Residue(t) <= r
    ensures t < 7 ==> r < Residue(t + 1)
  {
    Mod30ToBit8Range(r);
    Mod30ToBit8[r]
  }

  /** x splits into word x / 240, byte x % 240 / 30 of it, and residue x % 30. */
  lemma WordParts(x: nat)
    ensures x % 240 % 30 == x % 30 && x % 240 / 30 < 8
    ensures x == 240 * (x / 240) + 30 * (x % 240 / 30) + x % 30
  {
    var q, s := x / 240, x % 240;
    var a, c := s / 30, s % 30;
    assert x == 30 * (8 * q + a) + c;
    DivMod30(8 * q + a, c);
  }

  /** Products of wheel integers are wheel integers. */
  lemma CoprimeMul(p: nat, m: nat)
    requires Coprime30(p) && Coprime30(m)
    ensures Coprime30(p * m)
  {
    ModMul(p, m, 2);
    ModMul(p, m, 3);
    ModMul(p, m, 5);
    UnitProduct(p % 2, m % 2, 2);
    UnitProduct(p % 3, m % 3, 3);
    UnitProduct(p % 5, m % 5, 5);
  }

  /** Modulo a prime d in {2, 3, 5}, a product of non-zero residues is
      non-zero. */
  lemma UnitProduct(r: nat, s: nat, d: nat)
    requires d == 2 || d == 3 || d == 5
    requires 0 < r < d && 0 < s < d
    ensures (r * s) % d != 0
  {
  }

  /** A factor of a wheel integer is a wheel integer. */
  lemma CoprimeFactor(p: nat, m: nat)
    requires Coprime30(p * m)
    ensures Coprime30(m)
  {
    DivisorOfMultiple(2, m, p);
    DivisorOfMultiple(3, m, p);
    DivisorOfMultiple(5, m, p);
  }

  /** For odd m, bit WordBitBound(m) is a bit of a 64-bit word. */
  lemma WordBitBoundRange(m: nat)
    requires m % 2 == 1
    ensures 0 <= WordBitBound(m) < 64
  {
    WordParts(m);
    OddResidue(m);
  }

  /** Adding a multiple of 30 moves x by whole bytes and keeps its bit. */
  lemma BitPosShift(a: nat, y: nat)
    ensures (30 * a + y) / 30 == a + y / 30 && BitPos(30 * a + y) == BitPos(y)
  {
    ModAddMul(30, a, y);
  }
}
