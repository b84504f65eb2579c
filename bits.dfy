/**
 * Bitwise arithmetic on unbounded non-negative integers, the values the
 * source computes with (JavaScript `bigint`, never negative here).
 *
 * `Shr` is `>>` (floor division by a power of two), `Shl` is `<<`
 * (multiplication by a power of two), and `And`, `Or`, `Xor`, `AndNot` are
 * `&`, `|`, `^` and `a & ~b` bit by bit. Every operation is characterised by
 * a lemma that says what it does to bit `j`, and `BitsEqual` turns bit-wise
 * agreement back into equality of numbers.
 */
module Bits {

  function Pow2(k: nat): (r: nat)
    ensures r >= 1
  {
    if k == 0 then 1 else 2 * Pow2(k - 1)
  }

  /** Bit `j` of `n` (bit 0 is the least significant). */
  predicate Bit(n: nat, j: nat)
    decreases j
  {
    if j == 0 then n % 2 == 1 else Bit(n / 2, j - 1)
  }

  /** `n >> k` */
  function Shr(n: nat, k: nat): nat
    decreases k
  {
    if k == 0 then n else Shr(n / 2, k - 1)
  }

  /** `n << k` */
  function Shl(n: nat, k: nat): nat
    decreases k
  {
    if k == 0 then n else 2 * Shl(n, k - 1)
  }

  /** `a ^ b` */
  function Xor(a: nat, b: nat): nat
    decreases a + b
  {
    if a == 0 && b == 0 then 0
    else 2 * Xor(a / 2, b / 2) + (if a % 2 != b % 2 then 1 else 0)
  }

  /** `a & b` */
  function And(a: nat, b: nat): nat
    decreases a + b
  {
    if a == 0 || b == 0 then 0
    else 2 * And(a / 2, b / 2) + (if a % 2 == 1 && b % 2 == 1 then 1 else 0)
  }

  /** `a | b` */
  function Or(a: nat, b: nat): nat
    decreases a + b
  {
    if a == 0 then b
    else if b == 0 then a
    else 2 * Or(a / 2, b / 2) + (if a % 2 == 1 || b % 2 == 1 then 1 else 0)
  }

  /** `a & ~b`: the bits of `a` where `b` has none. */
  function AndNot(a: nat, b: nat): nat
    decreases a + b
  {
    if a == 0 then 0
    else if b == 0 then a
    else 2 * AndNot(a / 2, b / 2) + (if a % 2 == 1 && b % 2 == 0 then 1 else 0)
  }

  /** The mask of the `w` lowest bits, `2^w - 1`. */
  function Ones(w: nat): (r: nat)
    ensures r < Pow2(w)
  {
    Pow2(w) - 1
  }

  // ---------------------------------------------------------------------
  // Bit-wise characterisations

  lemma {:induction false} BitOfZero(j: nat)
    ensures !Bit(0, j)
    decreases j
  {
    if j > 0 { BitOfZero(j - 1); }
  }

  lemma {:induction false} BitXor(a: nat, b: nat, j: nat)
    ensures Bit(Xor(a, b), j) == (Bit(a, j) != Bit(b, j))
    decreases j
  {
    if a == 0 && b == 0 {
      BitOfZero(j);
    } else if j > 0 {
      BitXor(a / 2, b / 2, j - 1);
    }
  }

  lemma {:induction false} BitAnd(a: nat, b: nat, j: nat)
    ensures Bit(And(a, b), j) == (Bit(a, j) && Bit(b, j))
    decreases j
  {
    if a == 0 || b == 0 {
      BitOfZero(j);
    } else if j > 0 {
      BitAnd(a / 2, b / 2, j - 1);
    }
  }

  lemma {:induction false} BitOr(a: nat, b: nat, j: nat)
    ensures Bit(Or(a, b), j) == (Bit(a, j) || Bit(b, j))
    decreases j
  {
    if a == 0 {
      BitOfZero(j);
    } else if b == 0 {
      BitOfZero(j);
    } else if j > 0 {
      BitOr(a / 2, b / 2, j - 1);
    }
  }

  lemma {:induction false} BitAndNot(a: nat, b: nat, j: nat)
    ensures Bit(AndNot(a, b), j) == (Bit(a, j) && !Bit(b, j))
    decreases j
  {
    if a == 0 {
      BitOfZero(j);
    } else if b == 0 {
      BitOfZero(j);
    } else if j > 0 {
      BitAndNot(a / 2, b / 2, j - 1);
    }
  }

  lemma {:induction false} BitShr(n: nat, k: nat, j: nat)
    ensures Bit(Shr(n, k), j) == Bit(n, j + k)
    decreases k
  {
    if k > 0 {
      BitShr(n / 2, k - 1, j);
    }
  }

  lemma {:induction false} BitShl(n: nat, k: nat, j: nat)
    ensures Bit(Shl(n, k), j) == (j >= k && Bit(n, j - k))
    decreases k
  {
    if k > 0 {
      if j == 0 {
      } else {
        BitShl(n, k - 1, j - 1);
      }
    }
  }

  lemma {:induction false} BitPow2(k: nat, j: nat)
    ensures Bit(Pow2(k), j) == (j == k)
    decreases k
  {
    if k == 0 {
      if j > 0 { BitOfZero(j - 1); }
    } else if j > 0 {
      BitPow2(k - 1, j - 1);
    }
  }

  lemma {:induction false} BitOnes(w: nat, j: nat)
    ensures Bit(Ones(w), j) == (j < w)
    decreases w
  {
    if w == 0 {
      BitOfZero(j);
    } else if j > 0 {
      assert Ones(w) / 2 == Ones(w - 1);
      BitOnes(w - 1, j - 1);
    }
  }

  // ---------------------------------------------------------------------
  // From bits back to numbers

  /** Two numbers with the same bits are equal. */
  lemma {:induction false} BitsEqual(a: nat, b: nat)
    requires forall j: nat :: Bit(a, j) == Bit(b, j)
    ensures a == b
    decreases a + b
  {
    assert Bit(a, 0) == Bit(b, 0);
    if a != 0 || b != 0 {
      forall j: nat ensures Bit(a / 2, j) == Bit(b / 2, j) {
        assert Bit(a, j + 1) == Bit(b, j + 1);
      }
      BitsEqual(a / 2, b / 2);
    }
  }

  /** A number below `2^w` has no bit at or above `w`. */
  lemma {:induction false} BitAboveBound(n: nat, w: nat, j: nat)
    requires n < Pow2(w) && j >= w
    ensures !Bit(n, j)
    decreases w
  {
    if w == 0 {
      BitOfZero(j);
    } else {
      BitAboveBound(n / 2, w - 1, j - 1);
    }
  }

  /** A number with no bit at or above `w` is below `2^w`. */
  lemma {:induction false} BoundFromBits(n: nat, w: nat)
    requires forall j: nat :: j >= w ==> !Bit(n, j)
    ensures n < Pow2(w)
    decreases w
  {
    if w == 0 {
      if n != 0 {
        forall j: nat ensures Bit(n, j) == Bit(0, j) { BitOfZero(j); }
        BitsEqual(n, 0);
      }
    } else {
      forall j: nat | j >= w - 1 ensures !Bit(n / 2, j) {
        assert !Bit(n, j + 1);
      }
      BoundFromBits(n / 2, w - 1);
    }
  }

  /** Shifting left multiplies: `n << k == n * 2^k`. */
  lemma {:induction false} ShlIsMul(n: nat, k: nat)
    ensures Shl(n, k) == n * Pow2(k)
    decreases k
  {
    if k > 0 {
      ShlIsMul(n, k - 1);
    }
  }

  /** The remainder is the unique `r` with `a == d * q + r` and `0 <= r < d`. */
  lemma ModUnique(a: nat, d: nat, q: nat, r: nat)
    requires d > 0 && a == d * q + r && r < d
    ensures a % d == r && a / d == q
  {
    var q', r' := a / d, a % d;
    assert d * q' + r' == d * q + r;
    if q' < q {
      MulMono(d, q' + 1, q);
    } else if q' > q {
      MulMono(d, q + 1, q');
    }
  }

  lemma MulMono(d: nat, x: nat, y: nat)
    requires x <= y
    ensures d * x <= d * y
  {
  }

  /** Bit `j` of `n % 2^w` is bit `j` of `n` when `j < w`, and unset otherwise. */
  lemma {:induction false} BitMod(n: nat, w: nat, j: nat)
    ensures Bit(n % Pow2(w), j) == (j < w && Bit(n, j))
    decreases w
  {
    if w == 0 {
      BitOfZero(j);
    } else {
      var p := Pow2(w - 1);
      var r := n % Pow2(w);
      var m := p * (n / Pow2(w));
      assert n == 2 * m + r;
      ModUnique(n / 2, p, n / Pow2(w), r / 2);
      if j > 0 {
        BitMod(n / 2, w - 1, j - 1);
      }
    }
  }

  /** Masking with `w` ones keeps the value modulo `2^w`. */
  lemma AndOnesIsMod(n: nat, w: nat)
    ensures And(n, Ones(w)) == n % Pow2(w)
  {
    forall j: nat ensures Bit(And(n, Ones(w)), j) == Bit(n % Pow2(w), j) {
      BitAnd(n, Ones(w), j);
      BitOnes(w, j);
      BitMod(n, w, j);
    }
    BitsEqual(And(n, Ones(w)), n % Pow2(w));
  }

  lemma XorBound(a: nat, b: nat, w: nat)
    requires a < Pow2(w) && b < Pow2(w)
    ensures Xor(a, b) < Pow2(w)
  {
    forall j: nat | j >= w ensures !Bit(Xor(a, b), j) {
      BitXor(a, b, j);
      BitAboveBound(a, w, j);
      BitAboveBound(b, w, j);
    }
    BoundFromBits(Xor(a, b), w);
  }

  lemma {:induction false} Pow2Add(a: nat, b: nat)
    ensures Pow2(a + b) == Pow2(a) * Pow2(b)
    decreases a
  {
    if a > 0 {
      Pow2Add(a - 1, b);
    }
  }

  lemma Pow2Small()
    ensures Pow2(3) == 8 && Pow2(4) == 16 && Pow2(5) == 32 && Pow2(8) == 0x100
    ensures Pow2(10) == 0x400 && Pow2(11) == 0x800
  {
  }

  lemma Pow2Wide()
    ensures Pow2(16) == 0x1_0000 && Pow2(32) == 0x1_0000_0000
    ensures Pow2(48) == 0x1_0000_0000_0000 && Pow2(53) == 0x20_0000_0000_0000
    ensures Pow2(63) == 0x8000_0000_0000_0000
  {
    Pow2Small();
    Pow2Add(8, 8);
    assert Pow2(16) == 0x1_0000;
    Pow2Add(16, 16);
    assert Pow2(32) == 0x1_0000_0000;
    Pow2Add(32, 16);
    assert Pow2(48) == 0x1_0000_0000_0000;
    Pow2Add(48, 5);
    assert Pow2(53) == 0x20_0000_0000_0000;
    Pow2Add(53, 10);
  }

  /** The narrow masks that appear as literals in the source. */
  lemma SmallMasks()
    ensures Ones(3) == 7 && Ones(4) == 0xF && Ones(5) == 0x1F && Ones(8) == 0xFF
    ensures Ones(10) == 0x3FF && Ones(11) == 0x7FF
  {
    Pow2Small();
  }

  /** The wide masks that appear as literals in the source. */
  lemma WideMasks()
    ensures Ones(32) == 0xFFFF_FFFF && Ones(53) == 0x1F_FFFF_FFFF_FFFF
  {
    Pow2Wide();
  }
}
