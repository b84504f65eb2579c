/**
 * The `WiiNumber` record (src/index.ts:4-72), its checksum `checkWiiNumber`
 * and the field extractor `loadWiiNumber` (src/index.ts:121-130).
 *
 * The checksum reduces bits 52 down to 10 of the unscrambled word by the
 * generator 0x635, one bit per step, most significant first: when bit
 * `52 - i` is set, the generator shifted to bits `42 - i .. 52 - i` is
 * xor-ed in, which clears it. What is left has no bit in 10..52; the number
 * is accepted when the low byte of what is left is zero.
 */
module WiiNumbers {
  import opened Bits
  import opened Descrambler

  /** The checksum's generator polynomial, x^10 + x^9 + x^5 + x^4 + x^2 + 1. */
  const Generator: nat := 0x635

  /** Step `i` of the checksum loop (lines 32-36). */
  function ReduceStep(temp: nat, i: nat): nat
    requires i <= 42
  {
    if Bit(temp, 52 - i) then Xor(temp, Shl(Generator, 42 - i)) else temp
  }

  /** Steps `i` to 42 of the checksum loop. */
  function Reduce(temp: nat, i: nat): nat
    requires i <= 43
    decreases 43 - i
  {
    if i == 43 then temp else Reduce(ReduceStep(temp, i), i + 1)
  }

  /** What the 43 steps leave of `u`. */
  function Remainder(u: nat): nat
  {
    Reduce(u, 0)
  }

  /** The checksum holds: the low byte of the remainder is zero. */
  predicate ChecksumValid(u: nat)
  {
    Remainder(u) % 256 == 0
  }

  /** The decoded fields of a Wii number and the unscrambled word they came from. */
  datatype WiiNumber = WiiNumber(
    hollywoodId: nat,
    generationCount: nat,
    hardwareModel: nat,
    areaCode: nat,
    unscrambled: nat)
  {
    /** `checkWiiNumber`, statement by statement. */
    method CheckWiiNumber() returns (ok: bool)
      ensures ok == ChecksumValid(unscrambled)
    {
      var temp := unscrambled;
      for i := 0 to 43
        invariant Reduce(temp, i) == Remainder(unscrambled)
      {
        var val := Shr(temp, 52 - i);
        TestBit(temp, 52 - i);
        if And(val, 1) != 0 {
          var xorVal := Shl(0x635, 42 - i);
          temp := Xor(temp, xorVal);
        }
      }
      Pow2Small();
      SmallMasks();
      AndOnesIsMod(temp, 8);
      ok := And(temp, 0xFF) == 0;
    }

    function GetHollywoodID(): nat { hollywoodId }

    function GetGenerationCount(): nat { generationCount }

    function GetHardwareModel(): nat { hardwareModel }

    function GetAreaCode(): nat { areaCode }
  }

  /** `loadWiiNumber`: descramble, then slice the fields out of the result. */
  function LoadWiiNumber(wiiNumber: nat): (r: WiiNumber)
    ensures r.unscrambled == Unscramble(wiiNumber)
    ensures r.hollywoodId == Shr(r.unscrambled, 15) % 0x1_0000_0000
    ensures r.generationCount == Shr(r.unscrambled, 10) % 32
    ensures r.hardwareModel == Shr(r.unscrambled, 47) % 8
    ensures r.areaCode == Shr(r.unscrambled, 50) % 8
  {
    FromUnscrambled(Unscramble(wiiNumber))
  }

  /** The record built at lines 123-129 from the unscrambled word `u`. */
  function FromUnscrambled(u: nat): (r: WiiNumber)
    ensures r.unscrambled == u
    ensures r.hollywoodId == Shr(u, 15) % 0x1_0000_0000
    ensures r.generationCount == Shr(u, 10) % 32
    ensures r.hardwareModel == Shr(u, 47) % 8
    ensures r.areaCode == Shr(u, 50) % 8
  {
    FieldMasks(u);
    WiiNumber(
      And(Shr(u, 15), 0xFFFF_FFFF),
      And(Shr(u, 10), 0x1F),
      And(Shr(u, 47), 7),
      And(Shr(u, 50), 7),
      u)
  }

  /** The masks of lines 124-127 keep the field modulo its width. */
  lemma FieldMasks(u: nat)
    ensures And(Shr(u, 15), 0xFFFF_FFFF) == Shr(u, 15) % 0x1_0000_0000
    ensures And(Shr(u, 10), 0x1F) == Shr(u, 10) % 32
    ensures And(Shr(u, 47), 7) == Shr(u, 47) % 8
    ensures And(Shr(u, 50), 7) == Shr(u, 50) % 8
  {
    Pow2Small();
    SmallMasks();
    WideMasks();
    AndOnesIsMod(Shr(u, 15), 32);
    AndOnesIsMod(Shr(u, 10), 5);
    AndOnesIsMod(Shr(u, 47), 3);
    AndOnesIsMod(Shr(u, 50), 3);
  }

  // ---------------------------------------------------------------------
  // The checksum loop

  /** `(temp >> k) & 1` is nonzero exactly when bit `k` is set. */
  lemma TestBit(temp: nat, k: nat)
    ensures (And(Shr(temp, k), 1) != 0) == Bit(temp, k)
  {
    AndOnesIsMod(Shr(temp, k), 1);
    BitShr(temp, k, 0);
  }

  lemma GeneratorBits(j: nat)
    ensures Bit(Generator, j) == (j == 0 || j == 2 || j == 4 || j == 5 || j == 9 || j == 10)
  {
    var g := Generator;
    assert g == 2 * 794 + 1 && 794 == 2 * 397 && 397 == 2 * 198 + 1 && 198 == 2 * 99;
    assert 99 == 2 * 49 + 1 && 49 == 2 * 24 + 1 && 24 == 2 * 12 && 12 == 2 * 6 && 6 == 2 * 3 && 3 == 2 * 1 + 1;
    if j == 0 {
    } else if j == 1 {
    } else if j == 2 {
    } else if j == 3 {
    } else if j == 4 {
    } else if j == 5 {
    } else if j == 6 {
    } else if j == 7 {
    } else if j == 8 {
    } else if j == 9 {
    } else if j == 10 {
    } else {
      Pow2Small();
      BitAboveBound(Generator, 11, j);
    }
  }

  /** Step `i` xors bits `42 - i .. 52 - i` with the generator when bit `52 - i` is set, and leaves the rest. */
  lemma BitReduceStep(temp: nat, i: nat, j: nat)
    requires i <= 42
    ensures Bit(ReduceStep(temp, i), j)
         == if Bit(temp, 52 - i) && 42 - i <= j <= 52 - i
            then Bit(temp, j) != Bit(Generator, j - (42 - i))
            else Bit(temp, j)
  {
    BitXor(temp, Shl(Generator, 42 - i), j);
    BitShl(Generator, 42 - i, j);
    if j >= 42 - i {
      GeneratorBits(j - (42 - i));
    }
  }

  /** Step `i` clears bit `52 - i`. */
  lemma ReduceStepClears(temp: nat, i: nat)
    requires i <= 42
    ensures !Bit(ReduceStep(temp, i), 52 - i)
  {
    BitReduceStep(temp, i, 52 - i);
    GeneratorBits(10);
  }

  /** Once bits `53 - i .. 52` are clear, the remaining steps clear bits 10..52. */
  lemma {:induction false} ReduceClears(temp: nat, i: nat)
    requires i <= 43
    requires forall j: nat :: 53 - i <= j <= 52 ==> !Bit(temp, j)
    ensures forall j: nat :: 10 <= j <= 52 ==> !Bit(Reduce(temp, i), j)
    decreases 43 - i
  {
    if i < 43 {
      var next := ReduceStep(temp, i);
      forall j: nat | 53 - (i + 1) <= j <= 52 ensures !Bit(next, j) {
        if j == 52 - i {
          ReduceStepClears(temp, i);
        } else {
          BitReduceStep(temp, i, j);
        }
      }
      ReduceClears(next, i + 1);
    }
  }

  /** After the loop, bits 10..52 of the remainder are zero. */
  lemma RemainderHasNoMiddleBits(u: nat, j: nat)
    requires 10 <= j <= 52
    ensures !Bit(Remainder(u), j)
  {
    ReduceClears(u, 0);
  }

  /** The steps never touch the bits from 53 upward. */
  lemma {:induction false} ReduceKeepsHigh(temp: nat, i: nat, j: nat)
    requires i <= 43 && j >= 53
    ensures Bit(Reduce(temp, i), j) == Bit(temp, j)
    decreases 43 - i
  {
    if i < 43 {
      BitReduceStep(temp, i, j);
      ReduceKeepsHigh(ReduceStep(temp, i), i + 1, j);
    }
  }

  /** The remainder keeps every bit of `u` from 53 upward. */
  lemma RemainderKeepsHigh(u: nat, j: nat)
    requires j >= 53
    ensures Bit(Remainder(u), j) == Bit(u, j)
  {
    ReduceKeepsHigh(u, 0, j);
  }

  lemma StepLinear(a: nat, b: nat, i: nat)
    requires i <= 42
    ensures ReduceStep(Xor(a, b), i) == Xor(ReduceStep(a, i), ReduceStep(b, i))
  {
    forall j: nat ensures Bit(ReduceStep(Xor(a, b), i), j) == Bit(Xor(ReduceStep(a, i), ReduceStep(b, i)), j) {
      BitReduceStep(Xor(a, b), i, j);
      BitReduceStep(a, i, j);
      BitReduceStep(b, i, j);
      BitXor(a, b, j);
      BitXor(a, b, 52 - i);
      BitXor(ReduceStep(a, i), ReduceStep(b, i), j);
    }
    BitsEqual(ReduceStep(Xor(a, b), i), Xor(ReduceStep(a, i), ReduceStep(b, i)));
  }

  lemma {:induction false} ReduceLinear(a: nat, b: nat, i: nat)
    requires i <= 43
    ensures Reduce(Xor(a, b), i) == Xor(Reduce(a, i), Reduce(b, i))
    decreases 43 - i
  {
    if i < 43 {
      StepLinear(a, b, i);
      ReduceLinear(ReduceStep(a, i), ReduceStep(b, i), i + 1);
    }
  }

  /** The checksum reduction is linear over xor. */
  lemma RemainderLinear(a: nat, b: nat)
    ensures Remainder(Xor(a, b)) == Xor(Remainder(a), Remainder(b))
  {
    ReduceLinear(a, b, 0);
  }

  lemma {:induction false} ReduceNoop(temp: nat, i: nat)
    requires i <= 43
    requires forall j: nat :: 10 <= j <= 52 - i ==> !Bit(temp, j)
    ensures Reduce(temp, i) == temp
    decreases 43 - i
  {
    if i < 43 {
      assert !Bit(temp, 52 - i);
      ReduceNoop(temp, i + 1);
    }
  }

  /** A value without bits in 10..52 is its own remainder. */
  lemma RemainderOfReduced(u: nat)
    requires forall j: nat :: 10 <= j <= 52 ==> !Bit(u, j)
    ensures Remainder(u) == u
  {
    ReduceNoop(u, 0);
  }

  lemma {:induction false} ReduceLowAgree(a: nat, b: nat, i: nat)
    requires i <= 43
    requires forall j: nat :: j < 53 ==> Bit(a, j) == Bit(b, j)
    ensures forall j: nat :: j < 53 ==> Bit(Reduce(a, i), j) == Bit(Reduce(b, i), j)
    decreases 43 - i
  {
    if i < 43 {
      forall j: nat | j < 53 ensures Bit(ReduceStep(a, i), j) == Bit(ReduceStep(b, i), j) {
        BitReduceStep(a, i, j);
        BitReduceStep(b, i, j);
      }
      ReduceLowAgree(ReduceStep(a, i), ReduceStep(b, i), i + 1);
    }
  }

  /** Bits 0..7 of `x` are clear. */
  predicate LowByteClear(x: nat)
  {
    forall j: nat :: j < 8 ==> !Bit(x, j)
  }

  /** `x % 256 == 0` exactly when bits 0..7 of `x` are clear. */
  lemma LowByteZero(x: nat)
    ensures (x % 256 == 0) == LowByteClear(x)
  {
    Pow2Small();
    if x % 256 == 0 {
      forall j: nat | j < 8 ensures !Bit(x, j) {
        BitMod(x, 8, j);
        BitOfZero(j);
      }
    } else if LowByteClear(x) {
      forall j: nat ensures Bit(x % 256, j) == Bit(0, j) {
        BitMod(x, 8, j);
        BitOfZero(j);
      }
      BitsEqual(x % 256, 0);
    }
  }

  /** The verdict depends only on the low 53 bits of the unscrambled word. */
  lemma ChecksumReadsLow53(u: nat)
    ensures ChecksumValid(u) == ChecksumValid(u % Pow2(53))
  {
    forall j: nat | j < 53 ensures Bit(u, j) == Bit(u % Pow2(53), j) {
      BitMod(u, 53, j);
    }
    ReduceLowAgree(u, u % Pow2(53), 0);
    LowByteZero(Remainder(u));
    LowByteZero(Remainder(u % Pow2(53)));
  }

  /** Flipping one of bits 0..7 of a word that passes makes it fail. */
  lemma LowFlipDetected(u: nat, k: nat)
    requires k < 8 && ChecksumValid(u)
    ensures !ChecksumValid(Xor(u, Pow2(k)))
  {
    FlipRemainder(u, k);
    LowByteZero(Remainder(u));
    LowByteZero(Xor(Remainder(u), Pow2(k)));
    BitXor(Remainder(u), Pow2(k), k);
    BitPow2(k, k);
  }

  /** Flipping bit 8 or bit 9 does not change the verdict. */
  lemma Bit8And9FlipUndetected(u: nat, k: nat)
    requires k == 8 || k == 9
    ensures ChecksumValid(Xor(u, Pow2(k))) == ChecksumValid(u)
  {
    FlipRemainder(u, k);
    LowByteZero(Remainder(u));
    LowByteZero(Xor(Remainder(u), Pow2(k)));
    forall j: nat | j < 8 ensures Bit(Xor(Remainder(u), Pow2(k)), j) == Bit(Remainder(u), j) {
      BitXor(Remainder(u), Pow2(k), j);
      BitPow2(k, j);
    }
  }

  /** Flipping bit `k < 10` flips the same bit of the remainder. */
  lemma FlipRemainder(u: nat, k: nat)
    requires k < 10
    ensures Remainder(Xor(u, Pow2(k))) == Xor(Remainder(u), Pow2(k))
  {
    RemainderLinear(u, Pow2(k));
    forall j: nat | 10 <= j <= 52 ensures !Bit(Pow2(k), j) {
      BitPow2(k, j);
    }
    RemainderOfReduced(Pow2(k));
  }

  // ---------------------------------------------------------------------
  // The fields

  /**
   * The four fields and bits 0..9 are bits 0..52 of the unscrambled word:
   * area code 50..52, hardware model 47..49, Hollywood ID 15..46,
   * generation count 10..14.
   */
  lemma FieldsTile(u: nat)
    ensures var r := FromUnscrambled(u);
            u % Pow2(53)
            == Or(Shl(r.areaCode, 50), Or(Shl(r.hardwareModel, 47), Or(Shl(r.hollywoodId, 15),
                 Or(Shl(r.generationCount, 10), u % Pow2(10)))))
  {
    var r := FromUnscrambled(u);
    Pow2Small();
    Pow2Wide();
    var area, model, id, gen := Shr(u, 50) % Pow2(3), Shr(u, 47) % Pow2(3), Shr(u, 15) % Pow2(32), Shr(u, 10) % Pow2(5);
    assert r.areaCode == area && r.hardwareModel == model && r.hollywoodId == id && r.generationCount == gen;
    var low := u % Pow2(10);
    var t1 := Or(Shl(gen, 10), low);
    var t2 := Or(Shl(id, 15), t1);
    var t3 := Or(Shl(model, 47), t2);
    var rebuilt := Or(Shl(area, 50), t3);
    forall j: nat ensures Bit(u % Pow2(53), j) == Bit(rebuilt, j) {
      BitMod(u, 53, j);
      BitOr(Shl(area, 50), t3, j);
      BitOr(Shl(model, 47), t2, j);
      BitOr(Shl(id, 15), t1, j);
      BitOr(Shl(gen, 10), low, j);
      BitField(u, 50, 3, j);
      BitField(u, 47, 3, j);
      BitField(u, 15, 32, j);
      BitField(u, 10, 5, j);
      BitMod(u, 10, j);
    }
    BitsEqual(u % Pow2(53), rebuilt);
  }

  /** Bit `j` of `((u >> lo) % 2^w) << lo` is bit `j` of `u` inside `lo .. lo + w - 1`. */
  lemma BitField(u: nat, lo: nat, w: nat, j: nat)
    ensures Bit(Shl(Shr(u, lo) % Pow2(w), lo), j) == (lo <= j < lo + w && Bit(u, j))
  {
    BitShl(Shr(u, lo) % Pow2(w), lo, j);
    if j >= lo {
      BitMod(Shr(u, lo), w, j - lo);
      BitShr(u, lo, j - lo);
    }
  }

  /** The getters return the fields `loadWiiNumber` stored. */
  lemma GettersReturnFields(x: nat)
    ensures LoadWiiNumber(x).GetHollywoodID() == Shr(Unscramble(x), 15) % 0x1_0000_0000
    ensures LoadWiiNumber(x).GetGenerationCount() == Shr(Unscramble(x), 10) % 32
    ensures LoadWiiNumber(x).GetHardwareModel() == Shr(Unscramble(x), 47) % 8
    ensures LoadWiiNumber(x).GetAreaCode() == Shr(Unscramble(x), 50) % 8
  {
  }
}
