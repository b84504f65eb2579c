/**
 * The two byte helpers of the descrambler, `getByte` and `insertByte`
 * (src/index.ts:74-82). Byte `i` of a value is bits `8 * i` to `8 * i + 7`.
 */
module Bytes {
  import opened Bits

  /** Byte `shift` of `value`: `(value >> (shift * 8)) & 0xFF`. */
  function GetByte(value: nat, shift: nat): (r: nat)
    ensures r < 256
  {
    SmallMasks();
    Pow2Small();
    AndOnesIsMod(Shr(value, shift * 8), 8);
    And(Shr(value, shift * 8), 0xFF)
  }

  /** `value` with byte `shift` cleared and then or-ed with `byte << (shift * 8)`. */
  function InsertByte(value: nat, shift: nat, byte: nat): nat
  {
    var mask := Shl(0xFF, shift * 8);
    var inst := Shl(byte, shift * 8);
    Or(AndNot(value, mask), inst)
  }

  lemma BitGetByte(value: nat, shift: nat, j: nat)
    ensures Bit(GetByte(value, shift), j) == (j < 8 && Bit(value, 8 * shift + j))
  {
    SmallMasks();
    BitAnd(Shr(value, shift * 8), 0xFF, j);
    BitOnes(8, j);
    BitShr(value, shift * 8, j);
  }

  lemma BitInsertByte(value: nat, shift: nat, byte: nat, j: nat)
    requires byte < 256
    ensures Bit(InsertByte(value, shift, byte), j)
         == if 8 * shift <= j < 8 * shift + 8 then Bit(byte, j - 8 * shift) else Bit(value, j)
  {
    SmallMasks();
    Pow2Small();
    var mask := Shl(0xFF, shift * 8);
    var inst := Shl(byte, shift * 8);
    BitOr(AndNot(value, mask), inst, j);
    BitAndNot(value, mask, j);
    BitShl(0xFF, shift * 8, j);
    BitShl(byte, shift * 8, j);
    if j >= shift * 8 {
      BitOnes(8, j - shift * 8);
      if j - shift * 8 >= 8 {
        BitAboveBound(byte, 8, j - shift * 8);
      }
    }
  }

  /** Reading back the byte just inserted gives it. */
  lemma GetInsertSame(value: nat, shift: nat, byte: nat)
    requires byte < 256
    ensures GetByte(InsertByte(value, shift, byte), shift) == byte
  {
    Pow2Small();
    forall j: nat ensures Bit(GetByte(InsertByte(value, shift, byte), shift), j) == Bit(byte, j) {
      BitGetByte(InsertByte(value, shift, byte), shift, j);
      BitInsertByte(value, shift, byte, 8 * shift + j);
      if j >= 8 {
        BitAboveBound(byte, 8, j);
      }
    }
    BitsEqual(GetByte(InsertByte(value, shift, byte), shift), byte);
  }

  /** Inserting a byte leaves every other byte as it was. */
  lemma GetInsertOther(value: nat, shift: nat, byte: nat, k: nat)
    requires byte < 256 && k != shift
    ensures GetByte(InsertByte(value, shift, byte), k) == GetByte(value, k)
  {
    forall j: nat ensures Bit(GetByte(InsertByte(value, shift, byte), k), j) == Bit(GetByte(value, k), j) {
      BitGetByte(InsertByte(value, shift, byte), k, j);
      BitGetByte(value, k, j);
      BitInsertByte(value, shift, byte, 8 * k + j);
    }
    BitsEqual(GetByte(InsertByte(value, shift, byte), k), GetByte(value, k));
  }

  /** Outside byte `shift`, every bit of the result is the bit of `value`. */
  lemma InsertKeepsOtherBits(value: nat, shift: nat, byte: nat, j: nat)
    requires byte < 256 && (j < 8 * shift || j >= 8 * shift + 8)
    ensures Bit(InsertByte(value, shift, byte), j) == Bit(value, j)
  {
    BitInsertByte(value, shift, byte, j);
  }

  /** Inserting one of the six low bytes keeps the bits from 48 upward. */
  lemma InsertKeepsHigh(value: nat, shift: nat, byte: nat)
    requires byte < 256 && shift < 6
    ensures Shr(InsertByte(value, shift, byte), 48) == Shr(value, 48)
  {
    forall j: nat ensures Bit(Shr(InsertByte(value, shift, byte), 48), j) == Bit(Shr(value, 48), j) {
      BitShr(InsertByte(value, shift, byte), 48, j);
      BitShr(value, 48, j);
      BitInsertByte(value, shift, byte, j + 48);
    }
    BitsEqual(Shr(InsertByte(value, shift, byte), 48), Shr(value, 48));
  }

  /** A value is determined by its six low bytes and its bits from 48 upward. */
  lemma LowBytesDetermine(a: nat, b: nat)
    requires forall k: nat :: k < 6 ==> GetByte(a, k) == GetByte(b, k)
    requires Shr(a, 48) == Shr(b, 48)
    ensures a == b
  {
    forall j: nat ensures Bit(a, j) == Bit(b, j) {
      if j < 48 {
        var k, i := j / 8, j % 8;
        assert GetByte(a, k) == GetByte(b, k);
        BitGetByte(a, k, i);
        BitGetByte(b, k, i);
      } else {
        BitShr(a, 48, j - 48);
        BitShr(b, 48, j - 48);
      }
    }
    BitsEqual(a, b);
  }

  /** A value below `2^53` stays below it when one of its six low bytes is replaced. */
  lemma InsertBound(value: nat, shift: nat, byte: nat)
    requires value < Pow2(53) && byte < 256 && shift < 6
    ensures InsertByte(value, shift, byte) < Pow2(53)
  {
    forall j: nat | j >= 53 ensures !Bit(InsertByte(value, shift, byte), j) {
      BitInsertByte(value, shift, byte, j);
      BitAboveBound(value, 53, j);
    }
    BoundFromBits(InsertByte(value, shift, byte), 53);
  }

  /** The little-endian number whose byte `k` is `bs[k]`. */
  function Pack(bs: seq<nat>): nat
  {
    if |bs| == 0 then 0 else Or(bs[0], Shl(Pack(bs[1..]), 8))
  }

  /** `v` with its `|bs|` low bytes replaced by `bs`, byte 0 first. */
  function WithLowBytes(v: nat, bs: seq<nat>): nat
  {
    Or(Shl(Shr(v, 8 * |bs|), 8 * |bs|), Pack(bs))
  }

  predicate AllBytes(bs: seq<nat>)
  {
    forall k :: 0 <= k < |bs| ==> bs[k] < 256
  }

  lemma {:induction false} BitPack(bs: seq<nat>, j: nat)
    requires AllBytes(bs)
    ensures Bit(Pack(bs), j) == (j < 8 * |bs| && Bit(bs[j / 8], j % 8))
    decreases |bs|
  {
    Pow2Small();
    if |bs| == 0 {
      BitOfZero(j);
    } else {
      BitOr(bs[0], Shl(Pack(bs[1..]), 8), j);
      BitShl(Pack(bs[1..]), 8, j);
      if j < 8 {
      } else {
        BitAboveBound(bs[0], 8, j);
        BitPack(bs[1..], j - 8);
        assert (j - 8) / 8 == j / 8 - 1 && (j - 8) % 8 == j % 8;
      }
    }
  }

  lemma BitWithLowBytes(v: nat, bs: seq<nat>, j: nat)
    requires AllBytes(bs)
    ensures Bit(WithLowBytes(v, bs), j) == if j < 8 * |bs| then Bit(bs[j / 8], j % 8) else Bit(v, j)
  {
    BitOr(Shl(Shr(v, 8 * |bs|), 8 * |bs|), Pack(bs), j);
    BitShl(Shr(v, 8 * |bs|), 8 * |bs|, j);
    BitPack(bs, j);
    if j >= 8 * |bs| {
      BitShr(v, 8 * |bs|, j - 8 * |bs|);
    }
  }

  /** Byte `k` of `WithLowBytes(v, bs)` is `bs[k]`; the bits above `bs` are those of `v`. */
  lemma WithLowBytesBytes(v: nat, bs: seq<nat>)
    requires AllBytes(bs)
    ensures forall k: nat :: k < |bs| ==> GetByte(WithLowBytes(v, bs), k) == bs[k]
    ensures Shr(WithLowBytes(v, bs), 8 * |bs|) == Shr(v, 8 * |bs|)
  {
    Pow2Small();
    forall k: nat | k < |bs| ensures GetByte(WithLowBytes(v, bs), k) == bs[k] {
      forall j: nat ensures Bit(GetByte(WithLowBytes(v, bs), k), j) == Bit(bs[k], j) {
        BitGetByte(WithLowBytes(v, bs), k, j);
        BitWithLowBytes(v, bs, 8 * k + j);
        if j < 8 {
          assert (8 * k + j) / 8 == k && (8 * k + j) % 8 == j;
        } else {
          BitAboveBound(bs[k], 8, j);
        }
      }
      BitsEqual(GetByte(WithLowBytes(v, bs), k), bs[k]);
    }
    forall j: nat ensures Bit(Shr(WithLowBytes(v, bs), 8 * |bs|), j) == Bit(Shr(v, 8 * |bs|), j) {
      BitShr(WithLowBytes(v, bs), 8 * |bs|, j);
      BitShr(v, 8 * |bs|, j);
      BitWithLowBytes(v, bs, j + 8 * |bs|);
    }
    BitsEqual(Shr(WithLowBytes(v, bs), 8 * |bs|), Shr(v, 8 * |bs|));
  }

  /** Replacing the six low bytes of a value below `2^53` gives a value below `2^53`. */
  lemma WithLowBytesBound(v: nat, bs: seq<nat>)
    requires AllBytes(bs) && |bs| == 6 && v < Pow2(53)
    ensures WithLowBytes(v, bs) < Pow2(53)
  {
    forall j: nat | j >= 53 ensures !Bit(WithLowBytes(v, bs), j) {
      BitWithLowBytes(v, bs, j);
      BitAboveBound(v, 53, j);
    }
    BoundFromBits(WithLowBytes(v, bs), 53);
  }
}
