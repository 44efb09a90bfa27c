# Sieve of Pritchard on a wheel-30 bitmap, modelled in Dafny

This project models the engine of a Sieve of Pritchard written in C++ in two
variants: `wheel_sieve_optimized.cpp` (32-bit indices) and
`wheel_sieve_bitmap.cpp` (64-bit indices). The algorithm is the same in both.

**The bitmap.** The bitmap stores only integers coprime to 30, using eight
bits per 30 integers. Integer x lives in bit `(x % 30) * 8 / 30` of byte
`x / 30`. The engine also reads the bytes as little-endian 64-bit words,
and each word covers 240 consecutive integers.

**Sift.** Sift(N) works as follows:
- It emits 2, 3 and 5.
- It seeds the wheel {1, 7, 11, 13, 17, 19, 23, 29}.
- While p * p <= N, it alternates two steps:
  - `Extend`, which rolls the periodic wheel forward by byte copies and masks the last byte;
  - `Delete`, which removes every composite p * w of a still-marked w, then p itself.
- It steps p to the next marked integer along the `diff` gap cycle.
- It unmarks the sentinel 1, then counts or enumerates the survivors.

**Delete's two regimes.**
- For p above the cube root of length, Delete clears the composites during one forward pass.
- Otherwise it stages on a stack the composites whose quotient might still be read. It clears the others at once, then replays the stack.

**Modules.** The model has an abstract layer and a concrete layer.

| Module | Layer | Contents |
|---|---|---|
| `Pritchard` | abstract | p-rough integers, the wheel as a set, and extend and delete on sets |
| `Primes` | abstract | primality and the reference list `PrimesUpTo` |
| `Arith` | support | arithmetic facts used by the other modules |
| `Wheel30` | concrete | the codec tables and macros |
| `Bitmap` | concrete | bytes, words, `print` and `count` |
| `Composite` | concrete | the per-prime tables, stack packing and quotient bounds |
| `Scan` | concrete | the per-word clear, push and replay loops |
| `Delete` | concrete | the Delete procedure |
| `Extend` | concrete | the Extend procedure |
| `Sift` | concrete | the driver and its loop invariant |

Each concrete operation is proved to refine its abstract counterpart. `Sift`
is proved to return the number of primes up to N and, when printing, exactly
those primes in ascending order.

**The two source files.** One model covers both files.
- Integers are unbounded `nat`s.
- `Width` selects the one place where the files differ: how a cleared bit is kept in the per-prime table and in a stacked entry.
  - `Narrow` is the 32-bit file. It keeps the bit number and packs `(cOn30 << 3) | bit`.
  - `Wide` is the 64-bit file. It keeps the complement mask `~(1 << bit)` and packs `(cOn30 << 8) | mask`.
- The 64-bit file's early `return` after the large-p pass has the same effect as the 32-bit file's shared final `unmark(p)`.

**Correspondence with the 64-bit file.** The 64-bit file matches the 32-bit file as follows:

| Part | wheel_sieve_bitmap.cpp | wheel_sieve_optimized.cpp |
|---|---|---|
| codec | 18-25 | 19-26 |
| print | 27-42 | 28-43 |
| count | 44-50 | 45-51 |
| Extend | 52-64 | 53-67 |
| Delete | 75-151 | 69-179 |
| Sift | 153-181 | 181-213 |

The table below cites the 32-bit file, except where the 64-bit file's code differs.

## Model

| member | source | states |
|---|---|---|
| Wheel30.ResidueCodec | wheel_sieve_optimized.cpp:19-26 | the j-th wheel residue is below 30 and coprime to 30; both the macro's `(x%30)*8/30` and `mod30_to_bit8` map it back to bit j; the residues increase with j |
| Wheel30.CoprimeResidue | wheel_sieve_optimized.cpp:19-25 | for every residue c coprime to 30, the macro's bit and `mod30_to_bit8[c]` agree, and decoding that bit gives c back |
| Wheel30.BitPosInjective | wheel_sieve_optimized.cpp:25 | two distinct residues coprime to 30 get distinct bits |
| Wheel30.Table64 | wheel_sieve_optimized.cpp:20-22 | `bit64toval240[r]` is coprime to 30, lies in byte r/8 of its word, and `mod30_to_bit8` of its residue is r%8 |
| Wheel30.Table64Increasing | wheel_sieve_optimized.cpp:20-22 | `bit64toval240` is strictly increasing |
| Wheel30.ValIdx | wheel_sieve_optimized.cpp:25-26 | decoding the bit index of a wheel integer gives the integer back |
| Wheel30.IdxVal | wheel_sieve_optimized.cpp:25-26 | every bit index decodes to an integer coprime to 30, whose index is that bit |
| Wheel30.IdxMonotone | wheel_sieve_optimized.cpp:25 | the encoding preserves order in both directions |
| Wheel30.IdxWord | wheel_sieve_optimized.cpp:78-79 | wheel integer x lies in 64-bit word x/240, at bit 8*(x%240/30) plus its byte bit |
| Wheel30.ValWord | wheel_sieve_optimized.cpp:36 | bit r of word k encodes 240k + `bit64toval240[r]` |
| Wheel30.DiffStep | wheel_sieve_optimized.cpp:200 | adding `diff[bit of x]` to a wheel integer x gives the next wheel integer, whose bit is the next bit mod 8 |
| Wheel30.NoneBetween | wheel_sieve_optimized.cpp:200 | no integer coprime to 30 lies strictly between the integers of two consecutive bit indices |
| Wheel30.DiffPeriod | wheel_sieve_optimized.cpp:23 | the eight gaps of `diff` sum to 30 |
| Wheel30.ResidueMask | wheel_sieve_optimized.cpp:65 | for a wheel residue c and any r in [1, 30): bit(c) <= `mod30_to_bit8[r]` exactly when c <= r |
| Wheel30.LastBit | wheel_sieve_optimized.cpp:193 | `mod30_to_bit8[r]` is the bit of the largest wheel residue at most r |
| Wheel30.WordBitBoundExact | wheel_sieve_optimized.cpp:79 | for odd m, `bit64` lies in [0, 64); a wheel integer w in m's word has its word bit at or below `bit64` exactly when w <= m |
| Wheel30.CoprimeMul | wheel_sieve_optimized.cpp:74 | the product of two integers coprime to 30 is coprime to 30 |
| Bitmap.BitMaskShift | wheel_sieve_optimized.cpp:25 | the byte mask of bit j is `1 << j` |
| Bitmap.MarkedBit | wheel_sieve_optimized.cpp:25 | `marked(x)` is the bit at x's index in the flat bit numbering that the 64-bit words use |
| Bitmap.MarkedHeld | wheel_sieve_optimized.cpp:185 | a wheel integer is in the abstract set of the bitmap exactly when it is marked |
| Bitmap.Unmark | wheel_sieve_optimized.cpp:26 | `unmark(x)` clears the bit of x and leaves every other bit unchanged |
| Bitmap.UnmarkSpec | wheel_sieve_optimized.cpp:26 | after `unmark(x)`, exactly x has left the abstract set |
| Bitmap.ShiftRightMask | wheel_sieve_optimized.cpp:97 | `0xFF..FF >> (63 - t)` has bit r set exactly when r <= t |
| Bitmap.ShiftLeftMask | wheel_sieve_optimized.cpp:138 | `0xFF..FF << (t + 1)` has bit r set exactly when t < r, for t < 63 |
| Bitmap.MaskLowBits | wheel_sieve_optimized.cpp:97 | the set bits of a word ANDed with `0xFF..FF >> (63 - t)` are MaskLow(word, t), the bits at or below t |
| Bitmap.MaskHighBits | wheel_sieve_optimized.cpp:138 | the set bits of a word ANDed with `0xFF..FF << (t + 1)` are MaskHigh(word, t), the bits above t |
| Bitmap.AndLowMask | wheel_sieve_optimized.cpp:163-164 | reading a word through `& (0xFF..FF >> (63 - t))`, as every masked read of Delete does, yields exactly the word's bits at or below t |
| Bitmap.AndHighMask | wheel_sieve_optimized.cpp:138 | reading a word through `& (0xFF..FF << (t + 1))` yields exactly the word's bits above t |
| Bitmap.LowestBit | wheel_sieve_optimized.cpp:34-35 | ctz of a non-zero word is a set bit, and no set bit is lower |
| Bitmap.ListedSpec | wheel_sieve_optimized.cpp:28-43 | the reference enumeration is strictly increasing and holds exactly the wheel integers whose bit is set |
| Bitmap.Print | wheel_sieve_optimized.cpp:28-43 | print emits the reference enumeration of all its words, and the returned count is its length |
| Bitmap.WordCount | wheel_sieve_optimized.cpp:49 | the popcount of word k is the number of integers the enumeration lists from that word |
| Bitmap.Count | wheel_sieve_optimized.cpp:45-51 | count returns the length of the same enumeration, so it equals print's total |
| Composite.TagClears | wheel_sieve_bitmap.cpp:79-81 | the stored entry clears exactly one bit of any byte and keeps the others. For the 64-bit file the entry is the complement mask; for the 32-bit file it is the bit number |
| Composite.TagApplies | wheel_sieve_bitmap.cpp:94 | applying an entry is the byte `&= ~(1 << j)` |
| Composite.ClearIndex | wheel_sieve_optimized.cpp:92 | clearing at byte i/8 with the entry of bit i%8 clears exactly global bit i |
| Composite.PackRoundTrip | wheel_sieve_optimized.cpp:175 | a packed stack entry decodes to the same byte offset and entry (`>> 3` and `& 7`, or `>> 8` and `& 0xFF`) |
| Composite.CompositeAddress | wheel_sieve_optimized.cpp:74 | for w = 240k + `bit64toval240[r]`: (p*w)/30 is 8pk + `pr240On30[r]`, and the bit of p*w is `pr240bit8[r]` |
| Composite.Tables | wheel_sieve_optimized.cpp:72-74 | the tables address the byte and bit of the composite p * Val(i) for every bit index i |
| Composite.CompositeByte | wheel_sieve_optimized.cpp:90-91 | `baseon30 + pr240On30[r]` and the table entry address the composite of the quotient at bit r of word k |
| Composite.KillChar | wheel_sieve_optimized.cpp:92 | bit j is the composite of quotient bit i exactly when p divides Val(j) with quotient at index i |
| Composite.KilledAdd | wheel_sieve_optimized.cpp:86-94 | taking one more set quotient bit adds exactly its composite to the cleared set |
| Composite.MaxOddBound | wheel_sieve_optimized.cpp:76 | for odd w: w <= `lengthOnp` exactly when p*w <= length |
| Composite.CutSpec | wheel_sieve_optimized.cpp:78-79 | for odd m, the bit indices below word m/240 and bit `bit64` are exactly those encoding integers <= m |
| Scan.ClearWord | wheel_sieve_optimized.cpp:85-94 | clearing the composites of one word's set bits extends the cleared prefix to the end of that window |
| Scan.PushWord | wheel_sieve_optimized.cpp:115-124 | pushing one word's set bits appends their packed composites to the stack, in increasing index order, leaving the entries already pushed in place |
| Scan.StackUnique | wheel_sieve_optimized.cpp:113-136 | the stack contents are determined by the bitmap and the scanned range: the entries of every set bit, once each, in increasing index order |
| Scan.StackKilled | wheel_sieve_optimized.cpp:113-136 | the stacked composites are exactly the composites of the set quotient bits in the scanned range |
| Scan.Replay | wheel_sieve_optimized.cpp:175 | the reverse replay clears exactly the stacked composites and keeps every other bit |
| Delete.MaxfBounds | wheel_sieve_optimized.cpp:76 | `lengthOnp` is odd, at least p and at most length/p, and p * `lengthOnp` <= length |
| Delete.MaxfOnpBounds | wheel_sieve_optimized.cpp:108-113 | `lengthOnp2` is odd and lies in [p, `lengthOnp`); every quotient it covers fits in a stack of `((lengthOnp-1)/30+1)*8` entries |
| Delete.KilledShape | wheel_sieve_optimized.cpp:78 | with nothing marked in (1, p), a cleared bit is p itself or encodes a composite >= p*p |
| Delete.QuotientLow | wheel_sieve_optimized.cpp:78 | every marked quotient of a composite other than p lies at or after word p/240, so starting the scan there loses nothing |
| Delete.LargeUntouched | wheel_sieve_optimized.cpp:83-106 | when p*p*p > length, words not yet scanned still read as in the pre-state, up to the last quotient bit |
| Delete.LargePass | wheel_sieve_optimized.cpp:84-106 | the forward pass clears the composites of every set quotient bit from word p/240 through `bit64` of word `kmax` |
| Delete.DeleteLarge | wheel_sieve_bitmap.cpp:89-104 | the large-p branch clears exactly the composites p*w of the w <= `maxf` marked beforehand |
| Delete.PushPhase | wheel_sieve_optimized.cpp:114-136 | the stack holds the composites of every set quotient bit up to `bit64mid` of word `kmid`, once each and in increasing index order |
| Delete.KilledAbove | wheel_sieve_optimized.cpp:137-146 | a composite of a quotient above `lengthOnp2` exceeds `lengthOnp`, so it is never read later as a quotient |
| Delete.HighWindow | wheel_sieve_optimized.cpp:138 | the high mask keeps exactly the bits above `bit64mid`; when `bit64mid == 63` the word is empty |
| Delete.LowWindow | wheel_sieve_optimized.cpp:164 | when `kmax == kmid`, the extra mask keeps exactly the bits up to `bit64` |
| Delete.ClearPhase | wheel_sieve_optimized.cpp:137-173 | the immediate clears remove exactly the composites of set quotient bits after `lengthOnp2` and up to `lengthOnp` |
| Delete.DeleteSmall | wheel_sieve_optimized.cpp:107-177 | the small-p branch clears exactly the composites p*w of the w <= `lengthOnp` marked beforehand, and at most `((lengthOnp-1)/30+1)*8` entries are pushed |
| Delete.KilledMeaning | wheel_sieve_optimized.cpp:69-70 | for a wheel integer y other than p: y is cleared by the scan exactly when y = p*w <= length for some w marked beforehand |
| Delete.Delete | wheel_sieve_optimized.cpp:69-179 | a wheel integer is marked afterwards exactly when it was marked before, is not p, and is not p*w <= length for some w marked beforehand |
| Delete.DeleteRefines | wheel_sieve_optimized.cpp:198 | the abstract set after Delete is the abstract set before, minus p and p times its members |
| Extend.Memcpy | wheel_sieve_optimized.cpp:58 | a non-overlapping `memcpy` copies the source bytes into the destination range and changes nothing else |
| Extend.KeepThroughShift | wheel_sieve_optimized.cpp:65 | the keep mask of bit t is `0xFF >> (7 - t)` |
| Extend.ByteMask | wheel_sieve_optimized.cpp:65 | masking with it keeps exactly bits 0..t of the byte |
| Extend.Extend | wheel_sieve_optimized.cpp:53-67 | sets length to n; bytes below n/30 repeat the first period; the byte at n/30 keeps only residues <= n%30; later bytes are unchanged |
| Extend.ExtendMarked | wheel_sieve_optimized.cpp:56-65 | wheel x <= n is marked afterwards exactly when ((x-1) mod length)+1 was marked before; x <= old length is unchanged; x > n in the last byte is cleared |
| Extend.ExtendSame | wheel_sieve_optimized.cpp:53-67 | any bitmap Extend may return for n == length (Rolled with one period covering the whole range) is the input bitmap itself |
| Extend.ExtendRefines | wheel_sieve_optimized.cpp:53-54 | the abstract set after Extend is the periodic extension of the abstract set before, up to n |
| Pritchard.Rough7 | wheel_sieve_optimized.cpp:190 | the integers with no divisor in [2, 7) are exactly those coprime to 30 |
| Pritchard.ExtendWheel | wheel_sieve_optimized.cpp:197 | if every prime below p divides l, extending the wheel of p from l to n gives the wheel of p up to n |
| Pritchard.DeleteWheel | wheel_sieve_optimized.cpp:198 | deleting prime p and its multiples by members turns the wheel of p into the wheel of p+1, with or without 1 |
| Pritchard.NextWheel | wheel_sieve_optimized.cpp:200 | when no integer in [a, q) is a-rough, the wheels of a and q agree |
| Pritchard.WheelPrimes | wheel_sieve_optimized.cpp:203-212 | when n < p*p, the wheel of p without 1 is exactly the primes in [p, n] |
| Primes.RoughBelowSquare | wheel_sieve_optimized.cpp:196 | an integer in [2, p*p) with no divisor below p is prime |
| Primes.PrimesUpToSpec | wheel_sieve_optimized.cpp:182 | the reference list of primes up to n is strictly increasing and holds exactly the primes <= n |
| Primes.PrimorialStep | wheel_sieve_optimized.cpp:194-195 | P, the product of the primes below p, grows by the factor p when p is passed |
| Primes.PrimorialGap | wheel_sieve_optimized.cpp:194-195 | passing integers that are not prime leaves P unchanged |
| Primes.PrimorialMono | wheel_sieve_optimized.cpp:194-195 | P never decreases as p grows |
| Primes.PrimorialDivisible | wheel_sieve_optimized.cpp:194-195 | every prime below p divides P, so P is a period of the wheel of the primes below p |
| Primes.PrimesToHundred | wheel_sieve_optimized.cpp:181-182 | there are 25 primes up to 100, so by Sift.Sift's contract Sift(100) returns 25 |
| Sift.BitmapSize | wheel_sieve_optimized.cpp:183 | the size is a whole number of 64-bit words, 8*(N/240)+8, and covers byte N/30 |
| Sift.SmallPrimes | wheel_sieve_optimized.cpp:186-189 | for N < 7, the primes up to N are 2, then 3 when N >= 3, then 5 when N >= 5, so Sift returns 1, 2 or 3 |
| Sift.FirstPrimorial | wheel_sieve_optimized.cpp:190-194 | the product of the primes below 7 is 30, so the first length min(30, N) is min(P, N) |
| Sift.FirstBitmap | wheel_sieve_optimized.cpp:191-193 | the first bitmap is the wheel of 7 up to min(30, N) |
| Sift.Grow | wheel_sieve_optimized.cpp:197 | `Extend` to min(p*length, N), with 1 unmarked once N is reached, keeps the bitmap equal to the wheel of p up to the new length, which is min(p*length, N) while length < N and unchanged after; below N, that length is a period of the next wheel |
| Sift.LengthStep | wheel_sieve_optimized.cpp:194-202 | the invariant length = min(P, N) survives a round: the new length is min(P', N) for P' the product of the primes below the next prime |
| Sift.PeriodGrow | wheel_sieve_optimized.cpp:197 | p*length is again a multiple of 30 and a period of the wheel of p+1 |
| Sift.Advance | wheel_sieve_optimized.cpp:200 | the `diff` search stops at the next marked wheel integer above p (or beyond N) and skips only unmarked ones |
| Sift.NextPrime | wheel_sieve_optimized.cpp:200 | the integer found is the next prime after p, and the wheel of p+1 is the wheel of that prime |
| Sift.Round | wheel_sieve_optimized.cpp:196-202 | one loop iteration preserves the loop invariant (p prime, bitmap = wheel of the primes below p up to length, length = min(P, N) for P the product of the primes below p, primes emitted so far = the primes below p) and emits one prime |
| Sift.Finish | wheel_sieve_optimized.cpp:203-204 | after the final `Extend` and `unmark(1)`, the bitmap is the wheel of p up to N without 1 |
| Sift.Remaining | wheel_sieve_optimized.cpp:206-210 | the bits left set then enumerate exactly the primes in [p, N], in increasing order |
| Sift.Concluded | wheel_sieve_optimized.cpp:212 | the primes emitted in the loop followed by that enumeration are the primes up to N |
| Sift.Report | wheel_sieve_optimized.cpp:205-212 | k plus print's or count's total is the number of primes up to N, and print lists those primes in order |
| Sift.Sift | wheel_sieve_optimized.cpp:181-213 | Sift(N) returns the number of primes <= N and, when printing, emits exactly those primes in ascending order (the 64-bit driver, wheel_sieve_bitmap.cpp:153-181, is the same) |

## Left out

- `main`, the command line, usage text, `clock()` timing and `printf` are left out. `print` returns the sequence of lines it would print.
- The little-endian check (wheel_sieve_bitmap.cpp:184-186) and the `char*` to `uint64_t*` casts are left out. The model assumes little-endian order: word k is bytes 8k..8k+7, and word bit r is bit r%8 of byte 8k + r/8.
- `cbrt(length)` in floating point is replaced by the exact test p*p*p > length. Each branch of Delete is proved under its own condition.
- Fixed-width overflow and the maximum-N constants are left out, because all integers are unbounded. `main` enforces 2e9 in the 32-bit file and 1e11 in the 64-bit file; the 64-bit header comment says 4e9.
- `calloc`, `new`, `delete[]` and `free` are left out. The bitmap is a zero-initialised sequence and the stack is a sequence.
- `__builtin_ctzll` and `__builtin_popcountll` are specified functionally: a word is the set of its set bits, ctz is its least element, and popcount is its cardinality.
- The AVX-512 remark (wheel_sieve_bitmap.cpp:66-67) is left out.
- Sift.Advance: the next-prime search is bounded at N. The source's scan has no bound. While length < N, the integer length-1 is still marked and stops it. Once length == N, the source relies on a prime between p and 2p, which lies in (p, N] because p*p <= N (Bertrand's postulate). The model stops the search at N. It proves that the search can pass N only when length == N, but not that it never does.
- Delete.Delete: requires p*p <= length, and that nothing is marked strictly between 1 and p, which is the state Sift calls it in.
- Composite.PackRoundTrip: models the shift `cOn30 << 3` and the `|` as multiplication by the radix and addition, which agree because the entry is below the radix.
- Composite.MaxOddBound: MaxOdd returns 0 instead of the source's unsigned wrap-around at 0, a case that Delete's requirement p*p <= length excludes.
- Bitmap.BitMaskShift: the byte masks are a table of eight constants, tied to the source's shifts by this lemma and by Extend.KeepThroughShift.
