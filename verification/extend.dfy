/**
 * `Extend`: rolls the wheel stored in the first length / 30 bytes of the
 * bitmap forward until it covers [1, n], by whole-period byte copies, one
 * partial copy and a masked last byte.  `length` is a multiple of 30, so
 * one period of the wheel is exactly length / 30 bytes.
 */
module Extend {
  import opened Arith
  import opened Wheel30
  import opened Bitmap
  import opened Pritchard

  /** `memcpy(bitmap + dst, bitmap + src, len)` for non-overlapping ranges. */
  function Memcpy(b: Bytes, dst: nat, src: nat, len: nat): (b': Bytes)
    requires src + len <= dst && dst + len <= |b|
    ensures |b'| == |b|
    ensures forall j :: 0 <= j < |b| ==> b'[j] == if dst <= j < dst + len then b[src + (j - dst)] else b[j]
  {
    b[..dst] + b[src..src + len] + b[dst + len..]
  }

  /** The byte masks that keep the bits 0 .. t, for t = 0 .. 7. */
  const KeepMasks: seq<bv8> := [0x01, 0x03, 0x07, 0x0F, 0x1F, 0x3F, 0x7F, 0xFF]

  /** `0xFF >> (7 - t)`, read from the table (KeepThroughShift states the
      agreement). */
  function KeepThrough(t: nat): bv8
    requires t < 8
  {
    KeepMasks[t]
  }

  lemma KeepThroughShift(t: nat)
    requires t < 8
    ensures KeepThrough(t) == (0xFF as bv8) >> (7 - t)
  {
  }

  /** Masking with KeepThrough(t) keeps exactly the bits j <= t of a byte. */
  lemma ByteMask(v: bv8, t: nat, j: nat)
    requires t < 8
    ensures ByteBit(v & KeepThrough(t), j) <==> ByteBit(v, j) && j <= t
  {
  }

  /** The byte Extend leaves at index n / 30: untouched when 30 divides n,
      otherwise the byte of the first period it repeats, keeping only the
      residues up to n % 30. */
  function LastByte(b: Bytes, l30: nat, n: nat): bv8
    requires 0 < l30 <= n / 30 < |b|
  {
    if n % 30 == 0 then b[n / 30]
    else b[(n / 30) % l30] & KeepThrough(LastBit(n % 30))
  }

  /** b' is b rolled forward up to n with a period of l30 bytes: bytes
      below n / 30 repeat the first l30 bytes, byte n / 30 is LastByte,
      and the later bytes are untouched. */
  ghost predicate Rolled(b: Bytes, b': Bytes, l30: nat, n: nat)
    requires l30 > 0
  {
    && |b'| == |b| && l30 <= n / 30 < |b|
    && (forall j :: 0 <= j < n / 30 ==> b'[j] == b[j % l30])
    && (forall j :: n / 30 < j < |b| ==> b'[j] == b[j])
    && b'[n / 30] == LastByte(b, l30, n)
  }

  /** The bytes of b below `upto` repeat the first l30 bytes of b0; the
      others are those of b0. */
  ghost predicate RolledTo(b0: Bytes, b: Bytes, l30: nat, upto: nat)
    requires l30 > 0
  {
    && |b| == |b0|
    && forall j :: 0 <= j < |b| ==> b[j] == if j < upto then b0[j % l30] else b0[j]
  }

  /** Copying the first len <= l30 bytes to a period boundary dst extends
      the rolled prefix by len bytes. */
  lemma CopyPeriod(b0: Bytes, b: Bytes, l30: nat, dst: nat, len: nat)
    requires l30 > 0 && dst % l30 == 0 && l30 <= dst && len <= l30 && dst + len <= |b|
    requires RolledTo(b0, b, l30, dst)
    ensures RolledTo(b0, Memcpy(b, dst, 0, len), l30, dst + len)
  {
    var c := Memcpy(b, dst, 0, len);
    forall j | 0 <= j < |c|
      ensures c[j] == if j < dst + len then b0[j % l30] else b0[j]
    {
      if dst <= j < dst + len {
        var r := j - dst;
        ModSmall(r, l30);
        assert l30 * (dst / l30) == dst;
        ModAddMul(l30, dst / l30, r);
      }
    }
  }

  /** n splits into q whole periods of length = 30 * l30 and a remainder
      rem: in bytes, q * l30 whole periods and rem / 30 more. */
  lemma PeriodSplit(n: nat, l30: nat)
    requires l30 > 0 && 30 * l30 <= n
    ensures n / (30 * l30) >= 1
    ensures n / 30 == n / (30 * l30) * l30 + n % (30 * l30) / 30
    ensures n % 30 == n % (30 * l30) % 30
    ensures n % (30 * l30) / 30 < l30
  {
    var len := 30 * l30;
    var q, rem := n / len, n % len;
    assert n == len * q + rem;
    ModAddMul(len, 1, n - len);
    var a, c := rem / 30, rem % 30;
    assert rem == 30 * a + c;
    assert len * q == 30 * (l30 * q);
    assert n == 30 * (l30 * q + a) + c;
    DivModUnique(n, 30, l30 * q + a, c);
  }

  /** Before any copy, the first period trivially repeats itself. */
  lemma RolledStart(b: Bytes, l30: nat)
    requires 0 < l30 <= |b|
    ensures RolledTo(b, b, l30, l30)
  {
    forall j | 0 <= j < l30
      ensures b[j] == b[j % l30]
    {
      ModSmall(j, l30);
    }
  }

  /** One more whole period fits before the q-th period boundary. */
  lemma PeriodStep(i: nat, q: nat, l30: nat, offset: nat)
    requires l30 > 0 && 1 <= i < q && offset + l30 == i * l30
    ensures (offset + l30) % l30 == 0 && l30 <= offset + l30
    ensures offset + l30 + l30 == (i + 1) * l30 <= q * l30
  {
    MulDiv(l30, i);
    MulSplit(l30, i, 1);
    MulLe(i + 1, q, l30);
  }

  /** The state of Extend after the last copy: the rolled prefix reaches
      n / 30; writing the masked last byte completes the rolled wheel. */
  lemma ExtendFinish(b: Bytes, b1: Bytes, l30: nat, n: nat, b': Bytes)
    requires 0 < l30 <= n / 30 < |b| && RolledTo(b, b1, l30, n / 30)
    requires n % 30 == 0 ==> b' == b1
    requires n % 30 != 0 ==> b' == b1[n / 30 := b1[(n / 30) % l30] & KeepThrough(LastBit(n % 30))]
    ensures Rolled(b, b', l30, n)
  {
    if n % 30 != 0 {
      var t := (n / 30) % l30;
      ModSmall(t, l30);
      assert b1[t] == b[t % l30];
    }
  }

  /** The loop of whole-period copies: for i in 1 .. q - 1, copy the first
      l30 bytes to offset i * l30. */
  method FullCopies(b: Bytes, l30: nat, q: nat) returns (b': Bytes, offset: nat)
    requires 0 < l30 && 1 <= q && q * l30 <= |b|
    ensures offset + l30 == q * l30
    ensures RolledTo(b, b', l30, q * l30)
  {
    b' := b;
    offset := 0;
    MulLe(1, q, l30);
    RolledStart(b, l30);
    var i := 1;
    while i < q
      invariant 1 <= i <= q && offset + l30 == i * l30
      invariant RolledTo(b, b', l30, offset + l30)
    {
      b', offset := CopyNext(b, b', l30, q, i, offset);
      i := i + 1;
    }
  }

  /** One iteration of the full-copy loop. */
  method CopyNext(b0: Bytes, b: Bytes, l30: nat, q: nat, i: nat, offset: nat)
    returns (b': Bytes, offset': nat)
    requires 0 < l30 && 1 <= i < q && q * l30 <= |b| && offset + l30 == i * l30
    requires RolledTo(b0, b, l30, offset + l30)
    ensures offset' + l30 == (i + 1) * l30
    ensures RolledTo(b0, b', l30, offset' + l30)
  {
    PeriodStep(i, q, l30, offset);
    offset' := offset + l30;
    CopyPeriod(b0, b, l30, offset', l30);
    b' := Memcpy(b, offset', 0, l30);
  }

  /** `Extend(bitmap, length, n)`: rolls the wheel of period length
      forward up to n and returns the new length n. */
  method Extend(b: Bytes, length: nat, n: nat) returns (b': Bytes, length': nat)
    requires 30 <= length <= n && length % 30 == 0
    requires n / 30 < |b|
    ensures length' == n
    ensures Rolled(b, b', length / 30, n)
  {
    var l30: nat := length / 30;
    var q: nat := n / length;
    var rem: nat := n % length;
    ExtendOffsets(n, l30, length, q, rem);
    var offset;
    b', offset := FullCopies(b, l30, q);
    offset := offset + length / 30;
    CopyPeriod(b, b', l30, offset, rem / 30);
    b' := Memcpy(b', offset, 0, rem / 30);
    offset := offset + rem / 30;
    var rem30: nat := rem % 30;
    ghost var b1 := b';
    if rem30 > 0 {
      assert offset == n / 30 && rem / 30 < l30 <= n / 30 < |b'|;
      b' := b'[offset := b'[rem / 30] & KeepThrough(LastBit(rem30))];
    }
    ExtendFinish(b, b1, l30, n, b');
    length' := n;
  }

  /** The offsets of Extend: q = n / length >= 1 whole periods of l30
      bytes end at byte q * l30, the partial copy of rem / 30 < l30 bytes
      ends at n / 30, and the last byte repeats byte rem / 30. */
  lemma ExtendOffsets(n: nat, l30: nat, length: nat, q: nat, rem: nat)
    requires 30 <= length <= n && length % 30 == 0 && l30 == length / 30
    requires q == n / length && rem == n % length
    ensures length == 30 * l30 && l30 > 0 && q >= 1
    ensures (q * l30) % l30 == 0 && l30 <= q * l30
    ensures rem / 30 < l30 && q * l30 + rem / 30 == n / 30
    ensures rem % 30 == n % 30 && rem / 30 == (n / 30) % l30
  {
    assert length == 30 * l30;
    PeriodSplit(n, l30);
    MulDiv(l30, q);
    MulLe(1, q, l30);
    ModPeriod30(n, l30);
  }

  /** The template of an integer x for a period length = 30 * l30 has the
      residue of x modulo 30; for a wheel integer it is x % length, in byte
      (x / 30) % l30 at the same bit as x. */
  lemma TemplateCodec(x: nat, l30: nat, length: nat)
    requires x >= 1 && l30 > 0 && length == 30 * l30
    ensures 1 <= Template(x, length) <= length
    ensures Template(x, length) % 30 == x % 30
    ensures Coprime30(Template(x, length)) <==> Coprime30(x)
    ensures Coprime30(x) ==> Template(x, length) == x % length
    ensures Coprime30(x) ==> Template(x, length) / 30 == (x / 30) % l30
    ensures Coprime30(x) ==> BitPos(Template(x, length)) == BitPos(x)
  {
    var t := Template(x, length);
    ExtendTemplate(x, length);
    ModPeriod30(x, l30);
    if x % length == 0 {
      MulDiv(30, l30);
      DividesTrans(30, length, x);
      ModSmall(0, 30);
    }
    Coprime30Mod(x);
    Coprime30Mod(t);
  }

  /** Integers of the first period are their own template. */
  lemma TemplateSmall(x: nat, length: nat)
    requires 1 <= x <= length
    ensures Template(x, length) == x
  {
    ModSmall(x - 1, length);
  }

  /** What Extend does to the integers of the wheel: those up to n read
      the bit of their template (x - 1) % length + 1, so those up to
      length are kept; above n only the integers of later bytes survive. */
  lemma ExtendMarked(b: Bytes, b': Bytes, l30: nat, length: nat, n: nat, x: nat)
    requires length == 30 * l30 && 30 <= length <= n && Rolled(b, b', l30, n)
    requires Coprime30(x)
    ensures 1 <= x <= n ==> (Marked(b', x) <==> Marked(b, Template(x, length)))
    ensures x <= length ==> (Marked(b', x) <==> Marked(b, x))
    ensures n < x ==> (Marked(b', x) <==> Marked(b, x) && (n % 30 == 0 || n / 30 < x / 30))
  {
    CoprimePositive(x);
    if x <= n {
      ExtendMarkedBelow(b, b', l30, length, n, x);
      if x <= length {
        TemplateSmall(x, length);
      }
    } else {
      ExtendMarkedAbove(b, b', l30, n, x);
    }
  }

  /** A wheel integer x <= n reads the bit of its template. */
  lemma ExtendMarkedBelow(b: Bytes, b': Bytes, l30: nat, length: nat, n: nat, x: nat)
    requires length == 30 * l30 && 30 <= length <= n && Rolled(b, b', l30, n)
    requires Coprime30(x) && 1 <= x <= n
    ensures Marked(b', x) <==> Marked(b, Template(x, length))
  {
    var t := Template(x, length);
    TemplateCodec(x, l30, length);
    if n % 30 == 0 {
      WheelBelowBoundary(x, n);
    }
    if x / 30 < n / 30 {
      CopiedByte(b, b', l30, n, x, t);
    } else {
      DivMono(x, n, 30);
      MaskedByte(b, b', l30, n, x);
    }
  }

  /** A wheel integer above n keeps its bit, unless it shares the masked
      byte of n. */
  lemma ExtendMarkedAbove(b: Bytes, b': Bytes, l30: nat, n: nat, x: nat)
    requires 0 < l30 && Rolled(b, b', l30, n)
    requires Coprime30(x) && n < x
    ensures Marked(b', x) <==> Marked(b, x) && (n % 30 == 0 || n / 30 < x / 30)
  {
    DivMono(n, x, 30);
    if x / 30 == n / 30 && n % 30 != 0 {
      MaskedByte(b, b', l30, n, x);
    }
  }

  /** Below the byte of n, x reads the byte of its template. */
  lemma CopiedByte(b: Bytes, b': Bytes, l30: nat, n: nat, x: nat, t: nat)
    requires 0 < l30 && Rolled(b, b', l30, n) && x / 30 < n / 30
    requires t / 30 == (x / 30) % l30 && BitPos(t) == BitPos(x)
    ensures Marked(b', x) <==> Marked(b, t)
  {
    ModLe(x / 30, l30);
    assert b'[x / 30] == b[t / 30];
  }

  /** A wheel integer up to a multiple n of 30 lies in a byte below n / 30. */
  lemma WheelBelowBoundary(x: nat, n: nat)
    requires Coprime30(x) && x <= n && n % 30 == 0
    ensures x / 30 < n / 30
  {
    Coprime30Mod(x);
    var q: nat, r: nat := x / 30, x % 30;
    assert x == 30 * q + r && r != 0;
    assert n == 30 * (n / 30);
  }

  /** Inside the masked last byte, exactly the wheel integers up to n keep
      the bit of their template byte. */
  lemma MaskedByte(b: Bytes, b': Bytes, l30: nat, n: nat, x: nat)
    requires 0 < l30 && Rolled(b, b', l30, n) && n % 30 != 0
    requires Coprime30(x) && x / 30 == n / 30
    ensures Marked(b', x) <==> ByteBit(b[(n / 30) % l30], BitPos(x)) && x <= n
  {
    var v := b[(n / 30) % l30];
    var t := LastBit(n % 30);
    assert b'[x / 30] == v & KeepThrough(t);
    ByteMask(v, t, BitPos(x));
    SameByteOrder(x, n);
  }

  /** For wheel x in the byte of n (30 not dividing n), x <= n exactly when
      the bit of x is at most mod30_to_bit8[n % 30]. */
  lemma SameByteOrder(x: nat, n: nat)
    requires Coprime30(x) && x / 30 == n / 30 && n % 30 != 0
    ensures BitPos(x) <= LastBit(n % 30) <==> x <= n
  {
    Coprime30Mod(x);
    assert x <= n <==> x % 30 <= n % 30;
    ResidueMask(x % 30, n % 30);
    IdxParts(x);
  }

  /** Extend refines Pritchard's extend: the bitmap of a wheel of period
      length, empty above length, becomes the rolled wheel up to n. */
  lemma ExtendRefines(b: Bytes, b': Bytes, l30: nat, length: nat, n: nat)
    requires length == 30 * l30 && 30 <= length <= n && Rolled(b, b', l30, n)
    requires forall x :: x in Abs(b) ==> x <= length
    ensures Abs(b') == AbsExtend(Abs(b), length, n)
  {
    forall x: nat
      ensures x in Abs(b') <==> x in AbsExtend(Abs(b), length, n)
    {
      ExtendMember(b, b', l30, length, n, x);
    }
  }

  /** One integer of ExtendRefines. */
  lemma ExtendMember(b: Bytes, b': Bytes, l30: nat, length: nat, n: nat, x: nat)
    requires length == 30 * l30 && 30 <= length <= n && Rolled(b, b', l30, n)
    requires forall x :: x in Abs(b) ==> x <= length
    ensures x in Abs(b') <==> x in AbsExtend(Abs(b), length, n)
  {
    if x in Abs(b') {
      CoprimePositive(x);
      ExtendMarked(b, b', l30, length, n, x);
      if Marked(b, x) && n < x {
        AbsMember(b, x);
      }
      TemplateCodec(x, l30, length);
      TemplateInAbs(b, Template(x, length), length, n);
    }
    if x in AbsExtend(Abs(b), length, n) {
      TemplateCodec(x, l30, length);
      ExtendMarked(b, b', l30, length, n, x);
      AbsMember(b', x);
    }
  }

  /** A marked wheel integer up to n lies in Abs(b). */
  lemma TemplateInAbs(b: Bytes, t: nat, length: nat, n: nat)
    requires length <= n && n / 30 < |b| && t <= length && Coprime30(t)
    ensures t in Abs(b) <==> Marked(b, t)
  {
  }

  /** For x not a multiple of length, the template of x is x % length;
      for a multiple, it is length itself. */
  lemma ExtendTemplate(x: nat, length: nat)
    requires x >= 1 && length > 0
    ensures x % length != 0 ==> Template(x, length) == x % length
    ensures x % length == 0 ==> Template(x, length) == length
  {
    DivNat(x, length);
    var a: nat, r: nat := x / length, x % length;
    assert x == length * a + r;
    if r != 0 {
      ShiftedRemainder(length, a, r - 1);
    } else {
      assert a >= 1;
      var a1: nat := a - 1;
      MulSplit(length, a1, 1);
      ShiftedRemainder(length, a1, length - 1);
    }
  }

  /** (length * a + s) % length == s for s < length. */
  lemma ShiftedRemainder(length: nat, a: nat, s: nat)
    requires s < length
    ensures (length * a + s) % length == s
  {
    ModAddMul(length, a, s);
    ModSmall(s, length);
  }

  /** Extending to n == length changes nothing: the only bitmap Extend can
      return then is b itself. */
  lemma ExtendSame(b: Bytes, b': Bytes, length: nat)
    requires 30 <= length && length % 30 == 0 && length / 30 < |b|
    requires Rolled(b, b', length / 30, length)
    ensures b' == b
  {
    var l30: nat := length / 30;
    forall j | 0 <= j < |b|
      ensures b'[j] == b[j]
    {
      if j < l30 {
        ModSmall(j, l30);
      }
    }
  }
}
