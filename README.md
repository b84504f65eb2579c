# Wii number descrambling and validation, in Dafny

This project models `src/index.ts` of nwc24js, which decodes and validates
the 16-digit "Wii number" a Wii console shows its user. It also proves
properties of that model. The code has four parts:

- **descrambler `unscrambleId`.** It turns the number into the console's
  unscrambled identifier word, in this order:
  - masks the input to 53 bits;
  - whitens it with `0x5E5E5E5E5E5E`;
  - rotates it right by one within 53 bits;
  - permutes the low six bytes through `table2`;
  - substitutes every nibble of those bytes through `invertedTable`;
  - reshuffles the bits around the 32-bit boundary;
  - xors the result with `0xB3B3B3B3B3B3`.

  It uses the byte helpers `getByte` and `insertByte`.
- **field extractor `loadWiiNumber`.** It slices the Hollywood id, the
  generation count, the hardware model and the area code out of the
  unscrambled word, and keeps them in a `WiiNumber` object. Its fields are
  public and not `readonly`, but nothing in the file assigns them after the
  constructor.
- **checksum `checkWiiNumber`.** Working on the whole unscrambled word, it
  clears bits 52 down to 10, one per step, by xor-ing in the generator
  `0x635` shifted under the bit being cleared. It accepts the word when the
  low byte of what is left is zero; bits 0..9 take part, not only 10..52.
- **`isValidWiiNumber`.** It drops every non-digit and requires exactly 16
  digits. It reads them as a decimal number, loads it, runs the checksum,
  and refuses the reserved Hollywood id `0x0403AC68`.

The source computes mostly on JavaScript `bigint`, which is unbounded and
never negative here, so every value is a Dafny `nat`. The exceptions are
`getByte`'s result, the nibble expression at src/index.ts:105, the loop indices and
the `table2` entries, which are JavaScript `number`s; they never exceed 255,
where the 32-bit `number` operators agree with the unbounded ones (see
"## Left out"). The operators become:

- `>>` is floor division by a power of two (`Bits.Shr`);
- `<<` is multiplication by a power of two (`Bits.Shl`);
- `&`, `|`, `^` and `& ~` are defined bit by bit (`Bits.And`, `Bits.Or`,
  `Bits.Xor`, `Bits.AndNot`).

`Bits.Bit` reads one bit. Every operation comes with a lemma that says what
it does to bit `j`.

Files and modules:

- `bits.dfy` (`Bits`): the bigint bit operations and their bit-wise laws.
- `bytes.dfy` (`Bytes`): `getByte` and `insertByte`, and `WithLowBytes`,
  the reference "replace the low bytes" operation.
- `descrambler.dfy` (`Descrambler`): the tables, `unscrambleId`, and the
  four stages it is specified by.
- `wii_number.dfy` (`WiiNumbers`): the `WiiNumber` record with
  `checkWiiNumber` and its getters, and `loadWiiNumber`.
- `validation.dfy` (`Validation`): `isValidWiiNumber`, the digit filter and
  the decimal reading.

The two loop-based functions of the source are methods with loop
invariants:

- `Descrambler.UnscrambleId` runs the statements of `unscrambleId` one by
  one, with its two six-step byte loops. It is proved equal to `Unscramble`.
  `Unscramble` composes four stage functions. Stages 1 and 4 are stated
  without the source's shifts and masks. Stages 2 and 3 read bytes through
  `GetByte`, whose bits `Bytes.BitGetByte` gives:
  - `Rotated`: a 53-bit rotation of the whitened input;
  - `Permuted`: byte `k` becomes byte `Table2[k]`;
  - `Substituted`: a per-byte nibble lookup;
  - `Reshuffled`: a 53-bit rotation left by ten, with bits 43..52 repeated
    at bits 53..62, xor `0xB3B3B3B3B3B3`.
- `WiiNumbers.WiiNumber.CheckWiiNumber` runs the 43-step loop of
  `checkWiiNumber`. It is proved equal to `ChecksumValid`, which is defined
  by the recursive `Reduce`.

A reader may expect the unscrambled identifier to fit in 53 bits, since
every field lies in bits 10..52. `unscrambleId` never masks its result
(src/index.ts:111-113), and the model follows the code.
`Descrambler.UnscrambleHighBits` shows that bits 53..62 of the result repeat
bits 0..9, each xor-ed with the same bit of `0xB3B3B3B3B3B3`.
`Descrambler.UnscrambleFits53Iff` shows that the result is below 2^53
exactly when its low ten bits are `0x3B3`.

## Model

| member | source | states |
|---|---|---|
| Bytes.GetByte | src/index.ts:74-76 | `getByte` returns a value below 256 |
| Bytes.BitGetByte | src/index.ts:74-76 | bit `j` of `getByte(v, i)` is bit `8i + j` of `v` for `j < 8`; every higher bit is clear |
| Bytes.InsertByte | src/index.ts:78-82 | no contract of its own; its meaning is stated by `Bytes.BitInsertByte`, `Bytes.GetInsertSame` and `Bytes.GetInsertOther` |
| Bytes.BitInsertByte | src/index.ts:78-82 | for `b < 256`, inside byte `i`, `insertByte(v, i, b)` carries the bits of `b`; outside it, the bits of `v` |
| Bytes.GetInsertSame | src/index.ts:74-82 | for `b < 256`, `getByte(insertByte(v, i, b), i) == b` |
| Bytes.GetInsertOther | src/index.ts:74-82 | for `b < 256`, inserting at byte `i` leaves every other byte `k != i` as it was |
| Bytes.InsertKeepsOtherBits | src/index.ts:78-82 | for `b < 256`, `insertByte` changes no bit outside bits `8i .. 8i+7` |
| Bytes.InsertKeepsHigh | src/index.ts:78-82 | for `i < 6` and `b < 256`, bits 48 and up are kept |
| Bytes.InsertBound | src/index.ts:78-82 | for a value below 2^53, `i < 6` and `b < 256`, the result stays below 2^53 |
| Bytes.LowBytesDetermine | src/index.ts:98-107 | two values with equal bytes 0..5 and equal bits from 48 up are equal |
| Descrambler.UnscrambleId | src/index.ts:89-114 | the statement-by-statement descrambler computes `Unscramble`, the composition of the four stages |
| Descrambler.PrologueIsRotation | src/index.ts:90-97 | the masking, whitening and carry assignments (lines 90-92, 95-97) compute `Rotated(x)`; lines 93-94 do not enter this value |
| Descrambler.PrologueMasks | src/index.ts:90-92 | mask, whiten, mask again is `(x mod 2^53) xor 0x5E5E5E5E5E5E` |
| Descrambler.PrologueRotates | src/index.ts:95-97 | on a 53-bit value, or-ing in `((m << 5) & 0x20) << 48` and then shifting right by one is the 53-bit rotation right by one |
| Descrambler.CarryBit | src/index.ts:95-96 | `((m << 5) & 0x20) << 48` holds bit 0 of `m` at bit 53, and no other bit |
| Descrambler.RotatedBits | src/index.ts:90-97 | after the prologue, bit 52 is the old bit 0 of the whitened value, bit `j < 52` is its old bit `j + 1`, and no higher bit is set |
| Descrambler.RotatedBound | src/index.ts:90-97 | after the prologue the working value is below 2^53 |
| Descrambler.UnscrambleMasks | src/index.ts:89-114 | `unscrambleId(x) == unscrambleId(x mod 2^53)`: only the low 53 bits are read |
| Descrambler.PermutedFacts | src/index.ts:98-102 | after the permutation, byte `k < 6` is byte `table2[k]` of the snapshot taken at line 98; bits from 48 up are unchanged; a value below 2^53 stays below it |
| Descrambler.PermutedByBytes | src/index.ts:98-102 | any value whose bytes and high bits satisfy the loop's final invariant is `Permuted` of the snapshot |
| Descrambler.PermutedInjective | src/index.ts:98-102 | entries 0..5 of `table2` are a permutation of 0..5, so two different inputs never permute to the same value |
| Descrambler.NewByteIsSubst | src/index.ts:105 | the expression at line 105 is `SubstByte`: for a byte `v`, the high nibble becomes `invertedTable[v / 16]` and the low nibble `invertedTable[v % 16]` |
| Descrambler.SubstByte | src/index.ts:105 | the substituted byte is below 256 |
| Descrambler.SubstitutedFacts | src/index.ts:103-107 | after the substitution, every byte `k < 6` is `SubstByte` of the old byte `k`; bits from 48 up are unchanged; a value below 2^53 stays below it |
| Descrambler.SubstitutedByBytes | src/index.ts:103-107 | any value whose bytes and high bits satisfy the loop's final invariant is `Substituted` of the loop's input |
| Descrambler.TablesInverse | src/index.ts:2 | `invertedTable` is a permutation of 0..15; `ForwardTable` is its inverse on both sides |
| Descrambler.SubstByteInverse | src/index.ts:103-107 | the substitution is a bijection on bytes: `UnsubstByte` undoes `SubstByte`, and the reverse |
| Descrambler.SubstitutedInjective | src/index.ts:103-107 | two different inputs never substitute to the same value |
| Descrambler.FinaleIsReshuffle | src/index.ts:108-112 | the last five assignments, with the literal `* 0x400`, compute `Reshuffled` of the substituted value |
| Descrambler.TimesIsShift | src/index.ts:110 | `w * 0x400` is `w << 10` |
| Descrambler.MixHighBound | src/index.ts:109 | for a stage-4 input below 2^53, `anotherMixIdCopy` is below 2^31 |
| Descrambler.ReshuffledBits | src/index.ts:108-113 | bit `j` of the result is bit `j + 43` (for `j < 10`) or bit `j - 10` (for `j >= 10`) of the stage-4 input, xor bit `j` of `0xB3B3B3B3B3B3` |
| Descrambler.ReshuffledInjective | src/index.ts:108-113 | stage 4 is one-to-one on values below 2^53 |
| Descrambler.StagesBound | src/index.ts:98-107 | the input of stage 4 is below 2^53 |
| Descrambler.UnscrambleBound | src/index.ts:108-113 | the descrambler's result is below 2^63, so it fits in 64 bits |
| Descrambler.UnscrambleHighBits | src/index.ts:108-113 | bit `53 + j` of the result, for `j < 10`, is bit `j` of the result xor bit `j` of `0xB3B3B3B3B3B3` |
| Descrambler.UnscrambleFits53Iff | src/index.ts:108-113 | the result is below 2^53 if and only if its low ten bits are `0x3B3` |
| Descrambler.HighCopyFits53 | src/index.ts:108-113 | for a value below 2^63 whose bits 53..62 repeat bits 0..9 xor `0xB3B3B3B3B3B3`: it is below 2^53 iff its low ten bits are `0x3B3` |
| Descrambler.UnscrambleInjective | src/index.ts:89-114 | two numbers with different low 53 bits never unscramble to the same value |
| WiiNumbers.WiiNumber.CheckWiiNumber | src/index.ts:29-39 | the 43-step loop returns true iff the low byte of `Remainder(unscrambled)` is zero |
| WiiNumbers.TestBit | src/index.ts:32-33 | `(temp >> k) & 1` is nonzero exactly when bit `k` of `temp` is set |
| WiiNumbers.GeneratorBits | src/index.ts:34 | `0x635` has bits 0, 2, 4, 5, 9 and 10 and no others |
| WiiNumbers.BitReduceStep | src/index.ts:32-36 | step `i` changes only bits `42 - i .. 52 - i`, and only when bit `52 - i` is set |
| WiiNumbers.ReduceStepClears | src/index.ts:32-36 | step `i` always leaves bit `52 - i` clear |
| WiiNumbers.ReduceClears | src/index.ts:31-37 | once bits `53 - i .. 52` are clear, the remaining steps clear bits 10..52 |
| WiiNumbers.RemainderHasNoMiddleBits | src/index.ts:31-37 | after the loop, bits 10..52 of `temp` are zero |
| WiiNumbers.RemainderKeepsHigh | src/index.ts:31-37 | the loop never changes a bit at or above 53 |
| WiiNumbers.RemainderLinear | src/index.ts:31-37 | the loop commutes with xor: `R(a ^ b) == R(a) ^ R(b)` |
| WiiNumbers.RemainderOfReduced | src/index.ts:31-37 | a value with no bit in 10..52 passes through the loop unchanged |
| WiiNumbers.LowByteZero | src/index.ts:38 | `temp & 0xFF == 0` exactly when bits 0..7 of `temp` are clear |
| WiiNumbers.ChecksumReadsLow53 | src/index.ts:29-39 | the verdict on `u` is the verdict on `u mod 2^53` |
| WiiNumbers.FlipRemainder | src/index.ts:31-37 | flipping bit `k < 10` of the input flips the same bit of the remainder |
| WiiNumbers.LowFlipDetected | src/index.ts:29-39 | flipping any one of bits 0..7 of a word that passes makes it fail |
| WiiNumbers.Bit8And9FlipUndetected | src/index.ts:29-39 | flipping bit 8 or bit 9 never changes the verdict |
| WiiNumbers.LoadWiiNumber | src/index.ts:121-130 | `unscrambled` is `unscrambleId(x)`; `hollywoodId` is `(u >> 15) mod 2^32`; `generationCount` is `(u >> 10) mod 32`; `hardwareModel` is `(u >> 47) mod 8`; `areaCode` is `(u >> 50) mod 8` |
| WiiNumbers.FromUnscrambled | src/index.ts:123-129 | the record built from `u` keeps `u`, and its four fields are the bit slices of `u` given above |
| WiiNumbers.FieldMasks | src/index.ts:124-127 | each mask literal keeps its field modulo its width: `0xFFFFFFFF` is 2^32, `0x1F` is 32, `7` is 8 |
| WiiNumbers.FieldsTile | src/index.ts:123-129 | the four fields and bits 0..9 give back bits 0..52 of `u`: area code 50..52, hardware model 47..49, Hollywood id 15..46, generation count 10..14 |
| WiiNumbers.GettersReturnFields | src/index.ts:45-71 | each getter returns the field `loadWiiNumber` stored, as the bit slice of `unscrambleId(x)` |
| WiiNumbers.WiiNumber.GetHollywoodID | src/index.ts:45-47 | no contract of its own; `WiiNumbers.GettersReturnFields` states what it returns |
| WiiNumbers.WiiNumber.GetGenerationCount | src/index.ts:53-55 | no contract of its own; `WiiNumbers.GettersReturnFields` states what it returns |
| WiiNumbers.WiiNumber.GetHardwareModel | src/index.ts:61-63 | no contract of its own; `WiiNumbers.GettersReturnFields` states what it returns |
| WiiNumbers.WiiNumber.GetAreaCode | src/index.ts:69-71 | no contract of its own; `WiiNumbers.GettersReturnFields` states what it returns |
| Validation.IsValidWiiNumber | src/index.ts:137-152 | the guard chain returns exactly `ValidWiiNumber`: exactly 16 digits remain after removing non-digits; the checksum of the descrambled number passes; its Hollywood id is not `0x0403AC68` |
| Validation.ValidWiiNumberIff | src/index.ts:137-152 | `ValidWiiNumber` holds iff exactly 16 digits remain after removing non-digits, the checksum of the descrambled number passes, and its Hollywood id is not `0x0403AC68` |
| Validation.Digits | src/index.ts:138 | the cleaned string holds only digits and is no longer than the input |
| Validation.DigitsCount | src/index.ts:138 | the cleaned string holds every digit of the input as often as the input does, and no other character |
| Validation.DigitsAppend | src/index.ts:138 | cleaning a concatenation concatenates the cleaned parts |
| Validation.DigitsOfDigitString | src/index.ts:138 | a string of digits is left unchanged |
| Validation.DigitsIdempotent | src/index.ts:138 | cleaning twice is cleaning once |
| Validation.SeparatorIgnored | src/index.ts:138 | a non-digit inserted anywhere disappears |
| Validation.ParseBound | src/index.ts:144 | an `n`-digit string reads as a number below `10^n` |
| Validation.ParseOfToDecimal | src/index.ts:144 | reading the `n`-digit decimal form of a number below `10^n` gives that number back |
| Validation.ToDecimalOfParse | src/index.ts:144 | writing a digit string's value with as many digits gives that string back |
| Validation.ParseInjective | src/index.ts:144 | two different digit strings of the same length read as different numbers |
| Validation.WrongLengthRejected | src/index.ts:140-142 | any digit count other than 16 gives false |
| Validation.SameDigitsSameVerdict | src/index.ts:137-152 | two strings with the same digit sequence get the same verdict |
| Validation.SeparatorKeepsVerdict | src/index.ts:137-152 | inserting a non-digit, such as the `-` between groups, does not change the verdict |
| Validation.ParsedBelow10To16 | src/index.ts:140-144 | a string that passes the length guard reads as a number below 10^16 |
| Validation.VerdictReadsLow53 | src/index.ts:144-151 | for a string with 16 digits, the verdict is the checksum and reserved-id test on the descrambled value of the parsed number modulo 2^53 |

## Left out

- The regular-expression engine behind `replace(/\D/g, '')` is not modelled. Its effect is the filter `Validation.Digits`, which keeps the ASCII digits `'0'..'9'` in order.
- The `BigInt(cleanedNumber)` conversion is not modelled. Its effect is the decimal fold `Validation.ParseDecimal` over the digits. It is only applied to strings of digits, where the conversion cannot fail.
- `Bytes.GetByte`: the `Number(...)` conversion at line 75 is the identity, because the value is below 256.
- The dead assignment `mixId ^= 0xFF` at line 94 is kept in `Descrambler.UnscrambleId`, which still proves `r == Unscramble(wiiNumber)`; that is what shows the assignment has no effect.
- `Descrambler.NewByteIsSubst`: the expression at line 105 (`(val >> 4) & 0xF`, `<< 4`, `|`, `& 0xFF`) works on JavaScript `number`s with 32-bit operators; the model uses the unbounded `Bits` operators, which agree with them because every operand is below 256. The same holds for the loop indices and the `table2` entries.
- Entries 6 and 7 of `table2` are in the constant, but nothing reads them.
- `WiiNumber`'s fields are public and not `readonly` (src/index.ts:4-9), but no code in the file assigns them after the constructor (src/index.ts:18-22), so the model makes it a `datatype`. A caller that mutates a `WiiNumber` after loading it is not modelled, and neither is object identity.
- The model has no concrete test vectors for particular Wii numbers. The recursive bit functions are not evaluated on literals.
- The checksum is analysed for single-bit flips at bits 0..9 of the unscrambled word (`LowFlipDetected`, `Bit8And9FlipUndetected`). Flips of bits 10..52 are not characterised.
