/**
 * The descrambler `unscrambleId` (src/index.ts:89-114), which turns the
 * number printed on a Wii into the console's raw 53-bit identifier word.
 *
 * The method `UnscrambleId` follows the source statement by statement. It is
 * proved equal to `Unscramble`, the composition of four stages. Stages 1 and
 * 4 are stated without the source's shifts and masks; stages 2 and 3 read
 * bytes through `GetByte`, whose bits `BitGetByte` gives:
 *   1. `Rotated`: keep 53 bits, xor with 0x5E5E5E5E5E5E, rotate right by one
 *      within 53 bits;
 *   2. `Permuted`: byte k of the low six bytes becomes byte Table2[k];
 *   3. `Substituted`: every nibble of the low six bytes goes through
 *      InvertedTable;
 *   4. `Reshuffled`: rotate left by ten within 53 bits, copy the top ten bits
 *      to bits 53..62, xor with 0xB3B3B3B3B3B3.
 */
module Descrambler {
  import opened Bits
  import opened Bytes

  /** Byte permutation table; only entries 0..5 are ever read. */
  const Table2: seq<nat> := [0x1, 0x5, 0x0, 0x4, 0x2, 0x3, 0x6, 0x7]

  /** Nibble substitution table. */
  const InvertedTable: seq<nat> := [0xD, 0x5, 0x9, 0x7, 0x0, 0xF, 0xA, 0x2, 0xC, 0x3, 0xE, 0x1, 0x8, 0x6, 0xB, 0x4]

  /** The nibble substitution that `InvertedTable` undoes. */
  const ForwardTable: seq<nat> := [0x4, 0xB, 0x7, 0x9, 0xF, 0x1, 0xD, 0x3, 0xC, 0x2, 0x6, 0xE, 0x8, 0x0, 0xA, 0x5]

  const Whitening: nat := 0x5E5E_5E5E_5E5E
  const FinalXor: nat := 0xB3B3_B3B3_B3B3

  // ---------------------------------------------------------------------
  // The stages

  /** Rotation of the `w`-bit value `v % 2^w` to the left by `k`. */
  function RotateLeft(v: nat, w: nat, k: nat): nat
    requires k <= w
  {
    Or(Shl(v % Pow2(w - k), k), Shr(v % Pow2(w), w - k))
  }

  /** Rotation of the `w`-bit value `v % 2^w` to the right by `k`. */
  function RotateRight(v: nat, w: nat, k: nat): nat
    requires k <= w
  {
    RotateLeft(v, w, w - k)
  }

  /** Stage 1: the low 53 bits of the input, whitened and rotated right by one. */
  function Rotated(x: nat): nat
  {
    RotateRight(Xor(x % Pow2(53), Whitening), 53, 1)
  }

  /** The six bytes of stage 2: byte `k` is byte `Table2[k]` of the input. */
  function PermutedBytes(m: nat): seq<nat>
  {
    seq(6, k requires 0 <= k < 6 => GetByte(m, Table2[k]))
  }

  /** Stage 2: the byte permutation. */
  function Permuted(m: nat): nat
  {
    WithLowBytes(m, PermutedBytes(m))
  }

  /** A byte with both of its nibbles looked up in `InvertedTable`. */
  function SubstByte(v: nat): (r: nat)
    requires v < 256
    ensures r < 256
  {
    InvertedTable[v / 16] * 16 + InvertedTable[v % 16]
  }

  /** A byte with both of its nibbles looked up in `ForwardTable`. */
  function UnsubstByte(v: nat): (r: nat)
    requires v < 256
    ensures r < 256
  {
    ForwardTable[v / 16] * 16 + ForwardTable[v % 16]
  }

  /** The six bytes of stage 3. */
  function SubstitutedBytes(p: nat): seq<nat>
  {
    seq(6, k requires 0 <= k < 6 => SubstByte(GetByte(p, k)))
  }

  /** Stage 3: the nibble substitution of the six low bytes. */
  function Substituted(p: nat): nat
  {
    WithLowBytes(p, SubstitutedBytes(p))
  }

  /** Stage 4: rotate left by ten in 53 bits, repeat the top ten bits above bit 52, and xor. */
  function Reshuffled(s: nat): nat
  {
    Xor(Or(RotateLeft(s, 53, 10), Shl(Shr(s, 43), 53)), FinalXor)
  }

  /** The whole descrambler. */
  function Unscramble(x: nat): nat
  {
    Reshuffled(Substituted(Permuted(Rotated(x))))
  }

  // ---------------------------------------------------------------------
  // The source's algorithm

  /** `unscrambleId`, statement by statement. */
  method UnscrambleId(wiiNumber: nat) returns (r: nat)
    ensures r == Unscramble(wiiNumber)
  {
    var w := And(wiiNumber, 0x1F_FFFF_FFFF_FFFF);
    w := Xor(w, 0x5E5E_5E5E_5E5E);
    w := And(w, 0x1F_FFFF_FFFF_FFFF);
    var mixId := w;
    mixId := Xor(mixId, 0xFF);
    mixId := And(Shl(w, 5), 0x20);
    w := Or(w, Shl(mixId, 48));
    w := Shr(w, 1);
    PrologueIsRotation(wiiNumber);
    assert w == Rotated(wiiNumber);

    mixId := w;
    for i := 0 to 6
      invariant forall k: nat :: k < i ==> GetByte(w, k) == GetByte(mixId, Table2[k])
      invariant Shr(w, 48) == Shr(mixId, 48)
    {
      var val := GetByte(mixId, Table2[i]);
      forall k: nat | k < i + 1 ensures GetByte(InsertByte(w, i, val), k) == GetByte(mixId, Table2[k]) {
        if k < i {
          GetInsertOther(w, i, val, k);
        } else {
          GetInsertSame(w, i, val);
        }
      }
      InsertKeepsHigh(w, i, val);
      w := InsertByte(w, i, val);
    }
    PermutedByBytes(mixId, w);

    ghost var p := w;
    for i := 0 to 6
      invariant forall k: nat :: k < i ==> GetByte(w, k) == SubstByte(GetByte(p, k))
      invariant forall k: nat :: i <= k < 6 ==> GetByte(w, k) == GetByte(p, k)
      invariant Shr(w, 48) == Shr(p, 48)
    {
      var val := GetByte(w, i);
      NibbleIndices(val);
      var newByte := And(Or(Shl(InvertedTable[And(Shr(val, 4), 0xF)], 4), InvertedTable[And(val, 0xF)]), 0xFF);
      NewByteIsSubst(val);
      forall k: nat | k < 6 ensures GetByte(InsertByte(w, i, newByte), k)
                                   == if k <= i then SubstByte(GetByte(p, k)) else GetByte(p, k) {
        if k == i {
          GetInsertSame(w, i, newByte);
        } else {
          GetInsertOther(w, i, newByte, k);
        }
      }
      InsertKeepsHigh(w, i, newByte);
      w := InsertByte(w, i, newByte);
    }
    SubstitutedByBytes(p, w);

    RotatedBound(wiiNumber);
    PermutedFacts(Rotated(wiiNumber));
    SubstitutedFacts(Permuted(Rotated(wiiNumber)));
    var mixIdCopy := Shr(w, 0x20);
    var anotherMixIdCopy := Or(Shr(w, 0x16), Shl(And(mixIdCopy, 0x7FF), 10));
    mixIdCopy := Or(w * 0x400, And(Shr(mixIdCopy, 0xB), 0x3FF));
    mixIdCopy := Or(Shl(anotherMixIdCopy, 0x20), mixIdCopy);
    mixIdCopy := Xor(mixIdCopy, 0xB3B3_B3B3_B3B3);
    FinaleIsReshuffle(w);
    r := mixIdCopy;
  }

  // ---------------------------------------------------------------------
  // Stage 1

  lemma BitRotateLeft(v: nat, w: nat, k: nat, j: nat)
    requires k <= w
    ensures Bit(RotateLeft(v, w, k), j)
         == if j < k then Bit(v, j + w - k) else j < w && Bit(v, j - k)
  {
    BitOr(Shl(v % Pow2(w - k), k), Shr(v % Pow2(w), w - k), j);
    BitShl(v % Pow2(w - k), k, j);
    BitShr(v % Pow2(w), w - k, j);
    BitMod(v, w, j + (w - k));
    if j >= k {
      BitMod(v, w - k, j - k);
    }
  }

  /**
   * Lines 90-92 and 95-97 compute `Rotated`. Lines 93-94 feed nothing into
   * this value; `UnscrambleId` keeps them and still computes `Unscramble`.
   */
  lemma PrologueIsRotation(x: nat)
    ensures var m := And(Xor(And(x, 0x1F_FFFF_FFFF_FFFF), 0x5E5E_5E5E_5E5E), 0x1F_FFFF_FFFF_FFFF);
            Shr(Or(m, Shl(And(Shl(m, 5), 0x20), 48)), 1) == Rotated(x)
  {
    PrologueMasks(x);
    XorMod53Bound(x);
    PrologueRotates(Xor(x % Pow2(53), Whitening));
  }

  /** Lines 90-92: mask, whiten, mask again. */
  lemma PrologueMasks(x: nat)
    ensures And(Xor(And(x, 0x1F_FFFF_FFFF_FFFF), 0x5E5E_5E5E_5E5E), 0x1F_FFFF_FFFF_FFFF)
            == Xor(x % Pow2(53), Whitening)
  {
    WideMasks();
    var m := And(Xor(And(x, Ones(53)), Whitening), Ones(53));
    var whitened := Xor(x % Pow2(53), Whitening);
    forall j: nat ensures Bit(m, j) == Bit(whitened, j) {
      BitAnd(Xor(And(x, Ones(53)), Whitening), Ones(53), j);
      BitXor(And(x, Ones(53)), Whitening, j);
      BitAnd(x, Ones(53), j);
      BitOnes(53, j);
      BitXor(x % Pow2(53), Whitening, j);
      BitMod(x, 53, j);
      if j >= 53 {
        Pow2Wide();
        BitAboveBound(Whitening, 53, j);
      }
    }
    BitsEqual(m, whitened);
  }

  /** Lines 95-97: bit 0 is copied to bit 53 and everything shifted down by one. */
  lemma PrologueRotates(m: nat)
    requires m < Pow2(53)
    ensures Shr(Or(m, Shl(And(Shl(m, 5), 0x20), 48)), 1) == RotateRight(m, 53, 1)
  {
    Pow2Small();
    var carry := Shl(And(Shl(m, 5), Pow2(5)), 48);
    var t := Or(m, carry);
    forall j: nat ensures Bit(Shr(t, 1), j) == Bit(RotateLeft(m, 53, 52), j) {
      BitShr(t, 1, j);
      BitOr(m, carry, j + 1);
      CarryBit(m, j + 1);
      BitRotateLeft(m, 53, 52, j);
      if j >= 52 {
        BitAboveBound(m, 53, j + 1);
      }
    }
    BitsEqual(Shr(t, 1), RotateLeft(m, 53, 52));
  }

  /** `((m << 5) & 0x20) << 48` holds bit 0 of `m` at bit 53 and nothing else. */
  lemma CarryBit(m: nat, i: nat)
    ensures Bit(Shl(And(Shl(m, 5), Pow2(5)), 48), i) == (i == 53 && Bit(m, 0))
  {
    BitShl(And(Shl(m, 5), Pow2(5)), 48, i);
    if i >= 48 {
      BitAnd(Shl(m, 5), Pow2(5), i - 48);
      BitPow2(5, i - 48);
      BitShl(m, 5, i - 48);
    }
  }

  lemma XorMod53Bound(x: nat)
    ensures Xor(x % Pow2(53), Whitening) < Pow2(53)
  {
    Pow2Wide();
    XorBound(x % Pow2(53), Whitening, 53);
  }

  /** After stage 1 the value fits in 53 bits. */
  lemma RotatedBound(x: nat)
    ensures Rotated(x) < Pow2(53)
  {
    forall j: nat | j >= 53 ensures !Bit(Rotated(x), j) {
      BitRotateLeft(Xor(x % Pow2(53), Whitening), 53, 52, j);
    }
    BoundFromBits(Rotated(x), 53);
  }

  /** Stage 1 moves bit 0 of the whitened value to bit 52 and every other bit down by one. */
  lemma RotatedBits(x: nat, j: nat)
    ensures Bit(Rotated(x), j)
         == if j < 52 then Bit(Xor(x % Pow2(53), Whitening), j + 1)
            else j == 52 && Bit(Xor(x % Pow2(53), Whitening), 0)
  {
    BitRotateLeft(Xor(x % Pow2(53), Whitening), 53, 52, j);
  }

  // ---------------------------------------------------------------------
  // Stage 2

  /** Byte `k` of `Permuted(m)` is byte `Table2[k]` of `m`; bits 48 upward are kept. */
  lemma PermutedFacts(m: nat)
    ensures forall k: nat :: k < 6 ==> GetByte(Permuted(m), k) == GetByte(m, Table2[k])
    ensures Shr(Permuted(m), 48) == Shr(m, 48)
    ensures m < Pow2(53) ==> Permuted(m) < Pow2(53)
  {
    var bs := PermutedBytes(m);
    assert AllBytes(bs) by {
      forall k | 0 <= k < 6 ensures bs[k] < 256 {
        assert bs[k] == GetByte(m, Table2[k]);
      }
    }
    WithLowBytesBytes(m, bs);
    forall k: nat | k < 6 ensures GetByte(Permuted(m), k) == GetByte(m, Table2[k]) {
      assert bs[k] == GetByte(m, Table2[k]);
    }
    if m < Pow2(53) {
      WithLowBytesBound(m, bs);
    }
  }

  /** A value with the bytes the permutation loop produced is `Permuted(m)`. */
  lemma PermutedByBytes(m: nat, w: nat)
    requires forall k: nat :: k < 6 ==> GetByte(w, k) == GetByte(m, Table2[k])
    requires Shr(w, 48) == Shr(m, 48)
    ensures w == Permuted(m)
  {
    PermutedFacts(m);
    LowBytesDetermine(w, Permuted(m));
  }

  // ---------------------------------------------------------------------
  // Stage 3

  lemma NibbleIndices(val: nat)
    ensures And(Shr(val, 4), 0xF) < 16 && And(val, 0xF) < 16
  {
    LowNibble(Shr(val, 4));
    LowNibble(val);
  }

  lemma ShrIsDiv16(v: nat)
    ensures Shr(v, 4) == v / 16
  {
  }

  lemma LowNibble(v: nat)
    ensures And(v, 0xF) == v % 16
  {
    Pow2Small();
    AndOnesIsMod(v, 4);
  }

  lemma AndOfByte(v: nat)
    requires v < 256
    ensures And(v, 0xFF) == v
  {
    SmallMasks();
    Pow2Small();
    forall j: nat ensures Bit(And(v, Ones(8)), j) == Bit(v, j) {
      BitAnd(v, Ones(8), j);
      BitOnes(8, j);
      if j >= 8 {
        BitAboveBound(v, 8, j);
      }
    }
    BitsEqual(And(v, Ones(8)), v);
  }

  /** The two table indices of line 105 are the high and the low nibble. */
  lemma NibbleIndexValues(val: nat)
    requires val < 256
    ensures And(Shr(val, 4), 0xF) == val / 16 && And(val, 0xF) == val % 16
  {
    ShrIsDiv16(val);
    LowNibble(val / 16);
    LowNibble(val);
  }

  /** The byte whose high nibble is `hi` and whose low nibble is `lo`. */
  lemma AssembleByte(hi: nat, lo: nat)
    requires hi < 16 && lo < 16
    ensures And(Or(Shl(hi, 4), lo), 0xFF) == hi * 16 + lo
  {
    Pow2Small();
    ShlIsMul(hi, 4);
    assert Shl(hi, 4) == hi * 16;
    OrIsAdd(hi, 4, lo);
    AndOfByte(hi * 16 + lo);
  }

  /** Line 105 computes `SubstByte`. */
  lemma NewByteIsSubst(val: nat)
    requires val < 256
    ensures And(Shr(val, 4), 0xF) < 16 && And(val, 0xF) < 16
    ensures And(Or(Shl(InvertedTable[And(Shr(val, 4), 0xF)], 4), InvertedTable[And(val, 0xF)]), 0xFF)
         == SubstByte(val)
  {
    NibbleIndexValues(val);
    NibbleTables(val / 16);
    NibbleTables(val % 16);
    AssembleByte(InvertedTable[val / 16], InvertedTable[val % 16]);
  }

  /** An or of `q << w` and a number below `2^w` is their sum. */
  lemma OrIsAdd(q: nat, w: nat, b: nat)
    requires b < Pow2(w)
    ensures Or(Shl(q, w), b) == Shl(q, w) + b
  {
    forall j: nat ensures Bit(Or(Shl(q, w), b), j) == Bit(Shl(q, w) + b, j) {
      BitOr(Shl(q, w), b, j);
      BitAddLow(q, w, b, j);
      BitShl(q, w, j);
      if j >= w {
        BitAboveBound(b, w, j);
      }
    }
    BitsEqual(Or(Shl(q, w), b), Shl(q, w) + b);
  }

  /** The bits of `q * 2^w + b` for `b < 2^w`. */
  lemma {:induction false} BitAddLow(q: nat, w: nat, b: nat, j: nat)
    requires b < Pow2(w)
    ensures Bit(Shl(q, w) + b, j) == if j < w then Bit(b, j) else Bit(q, j - w)
    decreases w
  {
    if w == 0 {
    } else {
      assert (Shl(q, w) + b) / 2 == Shl(q, w - 1) + b / 2;
      assert (Shl(q, w) + b) % 2 == b % 2;
      if j > 0 {
        BitAddLow(q, w - 1, b / 2, j - 1);
      }
    }
  }

  /** Byte `k` of `Substituted(p)` is `SubstByte` of byte `k` of `p`; bits 48 upward are kept. */
  lemma SubstitutedFacts(p: nat)
    ensures forall k: nat :: k < 6 ==> GetByte(Substituted(p), k) == SubstByte(GetByte(p, k))
    ensures Shr(Substituted(p), 48) == Shr(p, 48)
    ensures p < Pow2(53) ==> Substituted(p) < Pow2(53)
  {
    var bs := SubstitutedBytes(p);
    assert AllBytes(bs) by {
      forall k | 0 <= k < 6 ensures bs[k] < 256 {
        assert bs[k] == SubstByte(GetByte(p, k));
      }
    }
    WithLowBytesBytes(p, bs);
    forall k: nat | k < 6 ensures GetByte(Substituted(p), k) == SubstByte(GetByte(p, k)) {
      assert bs[k] == SubstByte(GetByte(p, k));
    }
    if p < Pow2(53) {
      WithLowBytesBound(p, bs);
    }
  }

  /** A value with the bytes the substitution loop produced is `Substituted(p)`. */
  lemma SubstitutedByBytes(p: nat, w: nat)
    requires forall k: nat :: k < 6 ==> GetByte(w, k) == SubstByte(GetByte(p, k))
    requires Shr(w, 48) == Shr(p, 48)
    ensures w == Substituted(p)
  {
    SubstitutedFacts(p);
    LowBytesDetermine(w, Substituted(p));
  }

  /** `InvertedTable` is a permutation of 0..15 whose inverse is `ForwardTable`. */
  lemma TablesInverse()
    ensures |InvertedTable| == 16 && |ForwardTable| == 16
    ensures forall v :: 0 <= v < 16 ==> InvertedTable[v] < 16 && ForwardTable[v] < 16
    ensures forall v :: 0 <= v < 16 ==> ForwardTable[InvertedTable[v]] == v
    ensures forall v :: 0 <= v < 16 ==> InvertedTable[ForwardTable[v]] == v
  {
    forall v | 0 <= v < 16
      ensures InvertedTable[v] < 16 && ForwardTable[v] < 16
      ensures ForwardTable[InvertedTable[v]] == v && InvertedTable[ForwardTable[v]] == v
    {
      NibbleTables(v);
    }
  }

  lemma NibbleTables(v: int)
    requires 0 <= v < 16
    ensures InvertedTable[v] < 16 && ForwardTable[v] < 16
    ensures ForwardTable[InvertedTable[v]] == v && InvertedTable[ForwardTable[v]] == v
  {
    if v == 0 {} else if v == 1 {} else if v == 2 {} else if v == 3 {}
    else if v == 4 {} else if v == 5 {} else if v == 6 {} else if v == 7 {}
    else if v == 8 {} else if v == 9 {} else if v == 10 {} else if v == 11 {}
    else if v == 12 {} else if v == 13 {} else if v == 14 {} else {}
  }

  /** Stage 3 is a bijection on each byte: `UnsubstByte` undoes `SubstByte` and vice versa. */
  lemma SubstByteInverse(v: nat)
    requires v < 256
    ensures UnsubstByte(SubstByte(v)) == v
    ensures SubstByte(UnsubstByte(v)) == v
  {
    NibbleTables(v / 16);
    NibbleTables(v % 16);
    var s := SubstByte(v);
    assert s / 16 == InvertedTable[v / 16] && s % 16 == InvertedTable[v % 16];
    var u := UnsubstByte(v);
    assert u / 16 == ForwardTable[v / 16] && u % 16 == ForwardTable[v % 16];
  }

  // ---------------------------------------------------------------------
  // Stage 4

  /** `anotherMixIdCopy` of line 109, for a stage-4 input `s`. */
  function MixHigh(s: nat): nat
  {
    Or(Shr(s, 0x16), Shl(And(Shr(s, 0x20), 0x7FF), 10))
  }

  /** `mixIdCopy` after line 110, with `* 0x400` written as the shift it is. */
  function MixLow(s: nat): nat
  {
    Or(Shl(s, 10), And(Shr(Shr(s, 0x20), 0xB), 0x3FF))
  }

  /** Bit `i` of `anotherMixIdCopy` is bit `i + 22` of the input. */
  lemma BitMixHigh(s: nat, i: nat)
    ensures Bit(MixHigh(s), i) == Bit(s, i + 22)
  {
    SmallMasks();
    BitOr(Shr(s, 22), Shl(And(Shr(s, 32), Ones(11)), 10), i);
    BitShr(s, 22, i);
    BitShl(And(Shr(s, 32), Ones(11)), 10, i);
    if i >= 10 {
      BitAnd(Shr(s, 32), Ones(11), i - 10);
      BitOnes(11, i - 10);
      BitShr(s, 32, i - 10);
    }
  }

  /** Bits 0..9 of the low part come from bits 43..52 of the input, the others from 10 below. */
  lemma BitMixLow(s: nat, j: nat)
    ensures Bit(MixLow(s), j) == if j < 10 then Bit(s, j + 43) else Bit(s, j - 10)
  {
    SmallMasks();
    BitOr(Shl(s, 10), And(Shr(Shr(s, 32), 11), Ones(10)), j);
    BitShl(s, 10, j);
    BitAnd(Shr(Shr(s, 32), 11), Ones(10), j);
    BitOnes(10, j);
    BitShr(Shr(s, 32), 11, j);
    BitShr(s, 32, j + 11);
  }

  /** The bits of `Reshuffled` before the final xor. */
  lemma BitReshuffleCore(s: nat, j: nat)
    ensures Bit(Or(RotateLeft(s, 53, 10), Shl(Shr(s, 43), 53)), j)
         == if j < 10 then Bit(s, j + 43) else Bit(s, j - 10)
  {
    BitOr(RotateLeft(s, 53, 10), Shl(Shr(s, 43), 53), j);
    BitRotateLeft(s, 53, 10, j);
    BitShl(Shr(s, 43), 53, j);
    if j >= 53 {
      BitShr(s, 43, j - 53);
    }
  }

  /** `anotherMixIdCopy << 0x20` holds bit `j - 10` of the input at every bit `j` from 32 upward. */
  lemma BitShiftedMixHigh(s: nat, j: nat)
    ensures Bit(Shl(MixHigh(s), 32), j) == (j >= 32 && Bit(s, j - 10))
  {
    BitShl(MixHigh(s), 32, j);
    if j >= 32 {
      BitMixHigh(s, j - 32);
    }
  }

  /** Lines 108-112 compute `Reshuffled`. */
  lemma FinaleIsReshuffle(s: nat)
    ensures var hi := Shr(s, 0x20);
            var a := Or(Shr(s, 0x16), Shl(And(hi, 0x7FF), 10));
            var b := Or(s * 0x400, And(Shr(hi, 0xB), 0x3FF));
            Xor(Or(Shl(a, 0x20), b), 0xB3B3_B3B3_B3B3) == Reshuffled(s)
  {
    TimesIsShift(s);
    var t := Or(Shl(MixHigh(s), 32), MixLow(s));
    var core := Or(RotateLeft(s, 53, 10), Shl(Shr(s, 43), 53));
    forall j: nat ensures Bit(t, j) == Bit(core, j) {
      BitOr(Shl(MixHigh(s), 32), MixLow(s), j);
      BitShiftedMixHigh(s, j);
      BitMixLow(s, j);
      BitReshuffleCore(s, j);
    }
    BitsEqual(t, core);
  }

  /** `anotherMixIdCopy` (line 109) is below `2^31` when the stage-4 input is below `2^53`. */
  lemma MixHighBound(s: nat)
    requires s < Pow2(53)
    ensures MixHigh(s) < Pow2(31)
  {
    forall j: nat | j >= 31 ensures !Bit(MixHigh(s), j) {
      BitMixHigh(s, j);
      BitAboveBound(s, 53, j + 22);
    }
    BoundFromBits(MixHigh(s), 31);
  }

  /** The multiplication at line 110 is a left shift by ten. */
  lemma TimesIsShift(s: nat)
    ensures s * 0x400 == Shl(s, 10)
  {
    Pow2Small();
    ShlIsMul(s, 10);
  }

  /** The bits of stage 4: bit `j` comes from bit `j + 43` below 10 and from bit `j - 10` above. */
  lemma ReshuffledBits(s: nat, j: nat)
    requires s < Pow2(53)
    ensures Bit(Reshuffled(s), j)
         == ((if j < 10 then Bit(s, j + 43) else Bit(s, j - 10)) != Bit(FinalXor, j))
  {
    BitXor(Or(RotateLeft(s, 53, 10), Shl(Shr(s, 43), 53)), FinalXor, j);
    BitReshuffleCore(s, j);
  }

  /** The descrambler's result fits in 63 bits. */
  lemma UnscrambleBound(x: nat)
    ensures Unscramble(x) < Pow2(63)
  {
    var s := Substituted(Permuted(Rotated(x)));
    RotatedBound(x);
    PermutedFacts(Rotated(x));
    SubstitutedFacts(Permuted(Rotated(x)));
    Pow2Wide();
    forall j: nat | j >= 63 ensures !Bit(Unscramble(x), j) {
      ReshuffledBits(s, j);
      BitAboveBound(s, 53, j - 10);
      BitAboveBound(FinalXor, 63, j);
    }
    BoundFromBits(Unscramble(x), 63);
  }

  /**
   * The result is not masked to 53 bits: bits 53..62 repeat bits 0..9,
   * each xor-ed with the same bit of 0xB3B3B3B3B3B3.
   */
  lemma UnscrambleHighBits(x: nat, j: nat)
    requires j < 10
    ensures Bit(Unscramble(x), j + 53) == (Bit(Unscramble(x), j) != Bit(FinalXor, j))
  {
    StagesBound(x);
    ReshuffledHighBits(Substituted(Permuted(Rotated(x))), j);
  }

  lemma ReshuffledHighBits(s: nat, j: nat)
    requires s < Pow2(53) && j < 10
    ensures Bit(Reshuffled(s), j + 53) == (Bit(Reshuffled(s), j) != Bit(FinalXor, j))
  {
    ReshuffledLowBit(s, j);
    ReshuffledCopyBit(s, j);
  }

  lemma ReshuffledLowBit(s: nat, j: nat)
    requires s < Pow2(53) && j < 10
    ensures Bit(Reshuffled(s), j) == (Bit(s, j + 43) != Bit(FinalXor, j))
  {
    ReshuffledBits(s, j);
  }

  lemma ReshuffledCopyBit(s: nat, j: nat)
    requires s < Pow2(53) && j < 10
    ensures Bit(Reshuffled(s), j + 53) == Bit(s, j + 43)
  {
    ReshuffledBits(s, j + 53);
    FinalXorBound();
    BitAboveBound(FinalXor, 48, j + 53);
  }

  lemma FinalXorBound()
    ensures FinalXor < Pow2(48)
  {
    Pow2Wide();
  }

  /** The result fits in 53 bits exactly when its low ten bits are those of 0xB3B3B3B3B3B3, 0x3B3. */
  lemma UnscrambleFits53Iff(x: nat)
    ensures Unscramble(x) < Pow2(53) <==> Unscramble(x) % Pow2(10) == 0x3B3
  {
    UnscrambleBound(x);
    forall j: nat | j < 10
      ensures Bit(Unscramble(x), j + 53) == (Bit(Unscramble(x), j) != Bit(FinalXor, j))
    {
      UnscrambleHighBits(x, j);
    }
    HighCopyFits53(Unscramble(x));
  }

  /** A 63-bit word whose bits 53..62 repeat bits 0..9 xor 0xB3B3B3B3B3B3. */
  predicate HighCopy(u: nat)
  {
    u < Pow2(63) && forall j: nat :: j < 10 ==> Bit(u, j + 53) == (Bit(u, j) != Bit(FinalXor, j))
  }

  lemma HighCopyFits53(u: nat)
    requires HighCopy(u)
    ensures u < Pow2(53) <==> u % Pow2(10) == 0x3B3
  {
    FinalXorLowBits();
    if u < Pow2(53) {
      HighCopyLowBits(u);
    }
    if u % Pow2(10) == FinalXor % Pow2(10) {
      HighCopyBound(u);
    }
  }

  lemma HighCopyLowBits(u: nat)
    requires HighCopy(u) && u < Pow2(53)
    ensures u % Pow2(10) == FinalXor % Pow2(10)
  {
    forall j: nat ensures Bit(u % Pow2(10), j) == Bit(FinalXor % Pow2(10), j) {
      BitMod(u, 10, j);
      BitMod(FinalXor, 10, j);
      if j < 10 {
        BitAboveBound(u, 53, j + 53);
      }
    }
    BitsEqual(u % Pow2(10), FinalXor % Pow2(10));
  }

  lemma HighCopyBound(u: nat)
    requires HighCopy(u) && u % Pow2(10) == FinalXor % Pow2(10)
    ensures u < Pow2(53)
  {
    forall j: nat | j >= 53 ensures !Bit(u, j) {
      if j < 63 {
        assert Bit(u, (j - 53) + 53) == (Bit(u, j - 53) != Bit(FinalXor, j - 53));
        BitMod(u, 10, j - 53);
        BitMod(FinalXor, 10, j - 53);
      } else {
        BitAboveBound(u, 63, j);
      }
    }
    BoundFromBits(u, 53);
  }

  lemma FinalXorLowBits()
    ensures FinalXor % Pow2(10) == 0x3B3
  {
    Pow2Small();
  }

  /** Only the low 53 bits of the input are read. */
  lemma UnscrambleMasks(x: nat)
    ensures Unscramble(x) == Unscramble(x % Pow2(53))
  {
    ModUnique(x % Pow2(53), Pow2(53), 0, x % Pow2(53));
    assert Rotated(x) == Rotated(x % Pow2(53));
  }

  // ---------------------------------------------------------------------
  // Every stage can be undone: distinct 53-bit inputs stay distinct

  lemma RotatedInjective(x: nat, y: nat)
    requires Rotated(x) == Rotated(y)
    ensures x % Pow2(53) == y % Pow2(53)
  {
    var a, b := Xor(x % Pow2(53), Whitening), Xor(y % Pow2(53), Whitening);
    forall j: nat ensures Bit(x % Pow2(53), j) == Bit(y % Pow2(53), j) {
      BitMod(x, 53, j);
      BitMod(y, 53, j);
      if j < 53 {
        if j == 0 {
          RotatedBits(x, 52);
          RotatedBits(y, 52);
        } else {
          RotatedBits(x, j - 1);
          RotatedBits(y, j - 1);
          assert (j - 1) + 1 == j;
        }
        BitXor(x % Pow2(53), Whitening, j);
        BitXor(y % Pow2(53), Whitening, j);
      }
    }
    BitsEqual(x % Pow2(53), y % Pow2(53));
  }

  /** `Table2[..6]` is a permutation of 0..5, so stage 2 loses no byte. */
  lemma PermutedInjective(m: nat, n: nat)
    requires Permuted(m) == Permuted(n)
    ensures m == n
  {
    PermutedLowBytesAgree(m, n);
    PermutedFacts(m);
    PermutedFacts(n);
    LowBytesDetermine(m, n);
  }

  lemma PermutedLowBytesAgree(m: nat, n: nat)
    requires Permuted(m) == Permuted(n)
    ensures forall b: nat :: b < 6 ==> GetByte(m, b) == GetByte(n, b)
  {
    assert Table2[0] == 1 && Table2[1] == 5 && Table2[2] == 0;
    assert Table2[3] == 4 && Table2[4] == 2 && Table2[5] == 3;
    forall b: nat | b < 6 ensures GetByte(m, b) == GetByte(n, b) {
      if b == 0 {
        PermutedSourceAgrees(m, n, 2);
      } else if b == 1 {
        PermutedSourceAgrees(m, n, 0);
      } else if b == 2 {
        PermutedSourceAgrees(m, n, 4);
      } else if b == 3 {
        PermutedSourceAgrees(m, n, 5);
      } else if b == 4 {
        PermutedSourceAgrees(m, n, 3);
      } else {
        PermutedSourceAgrees(m, n, 1);
      }
    }
  }

  lemma PermutedSourceAgrees(m: nat, n: nat, k: nat)
    requires Permuted(m) == Permuted(n) && k < 6
    ensures GetByte(m, Table2[k]) == GetByte(n, Table2[k])
  {
    PermutedFacts(m);
    PermutedFacts(n);
  }

  lemma SubstitutedInjective(p: nat, q: nat)
    requires Substituted(p) == Substituted(q)
    ensures p == q
  {
    SubstitutedFacts(p);
    SubstitutedFacts(q);
    forall k: nat | k < 6 ensures GetByte(p, k) == GetByte(q, k) {
      assert GetByte(Substituted(p), k) == GetByte(Substituted(q), k);
      SubstByteInverse(GetByte(p, k));
      SubstByteInverse(GetByte(q, k));
    }
    LowBytesDetermine(p, q);
  }

  lemma ReshuffledInjective(s: nat, t: nat)
    requires s < Pow2(53) && t < Pow2(53)
    requires Reshuffled(s) == Reshuffled(t)
    ensures s == t
  {
    forall i: nat ensures Bit(s, i) == Bit(t, i) {
      if i < 53 {
        ReshuffledBits(s, i + 10);
        ReshuffledBits(t, i + 10);
        assert (i + 10) - 10 == i;
      } else {
        BitAboveBound(s, 53, i);
        BitAboveBound(t, 53, i);
      }
    }
    BitsEqual(s, t);
  }

  /**
   * The descrambler is one-to-one on 53-bit numbers: two inputs that differ
   * in their low 53 bits unscramble to different values.
   */
  lemma UnscrambleInjective(x: nat, y: nat)
    requires Unscramble(x) == Unscramble(y)
    ensures x % Pow2(53) == y % Pow2(53)
  {
    var rx, ry := Rotated(x), Rotated(y);
    var px, py := Permuted(rx), Permuted(ry);
    var sx, sy := Substituted(px), Substituted(py);
    assert Reshuffled(sx) == Reshuffled(sy);
    StagesBound(x);
    StagesBound(y);
    ReshuffledInjective(sx, sy);
    SubstitutedInjective(px, py);
    PermutedInjective(rx, ry);
    RotatedInjective(x, y);
  }

  /** The input of stage 4 fits in 53 bits. */
  lemma StagesBound(x: nat)
    ensures Substituted(Permuted(Rotated(x))) < Pow2(53)
  {
    RotatedBound(x);
    PermutedFacts(Rotated(x));
    SubstitutedFacts(Permuted(Rotated(x)));
  }
}
