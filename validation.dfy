/**
 * `isValidWiiNumber`: the check applied to a Wii number as typed by a user
 * (`xxxx-xxxx-xxxx-xxxx`). Everything that is not an ASCII digit is dropped,
 * exactly sixteen digits must remain, they are read as a decimal number, the
 * number is descrambled and its checksum checked, and one reserved Hollywood
 * id is refused.
 *
 * `Digits` stands for the regular-expression replacement that strips the
 * non-digits and `ParseDecimal` for the decimal conversion to `bigint`.
 */
module Validation {
  import opened Bits
  import opened Descrambler
  import opened WiiNumbers

  /** The Hollywood id that is never a valid Wii. */
  const ReservedHollywoodId: nat := 0x0403AC68

  /** The number of digits of a Wii number. */
  const WiiNumberLength: nat := 16

  /** The characters `\D` does not match. */
  predicate IsDigit(c: char) {
    '0' <= c <= '9'
  }

  predicate AllDigits(s: string) {
    forall i :: 0 <= i < |s| ==> IsDigit(s[i])
  }

  /** The digits of `s`, in their order: what remains after removing every non-digit. */
  function Digits(s: string): (r: string)
    ensures AllDigits(r)
    ensures |r| <= |s|
  {
    if s == [] then []
    else (if IsDigit(s[0]) then [s[0]] else []) + Digits(s[1..])
  }

  function Pow10(k: nat): (r: nat)
    ensures r >= 1
  {
    if k == 0 then 1 else 10 * Pow10(k - 1)
  }

  function DigitValue(c: char): (r: nat)
    requires IsDigit(c)
    ensures r < 10
  {
    c as int - '0' as int
  }

  /** The decimal value of a digit string, read from the most significant digit. */
  function ParseDecimal(ds: string): nat
    requires AllDigits(ds)
  {
    if ds == [] then 0
    else 10 * ParseDecimal(ds[..|ds| - 1]) + DigitValue(ds[|ds| - 1])
  }

  /**
   * The `len`-digit decimal representation of `n`, with leading zeros: the
   * reference that `ParseDecimal` inverts.
   */
  function ToDecimal(n: nat, len: nat): (r: string)
    ensures |r| == len && AllDigits(r)
  {
    if len == 0 then []
    else ToDecimal(n / 10, len - 1) + [('0' as int + n % 10) as char]
  }

  /** The verdict `isValidWiiNumber` reaches, as one condition. */
  predicate ValidWiiNumber(numberString: string) {
    var cleaned := Digits(numberString);
    |cleaned| == WiiNumberLength
    && var loaded := LoadWiiNumber(ParseDecimal(cleaned));
    ChecksumValid(loaded.unscrambled) && loaded.GetHollywoodID() != ReservedHollywoodId
  }

  /** The guard chain of `isValidWiiNumber`, running the checksum loop of the record. */
  method IsValidWiiNumber(numberString: string) returns (ok: bool)
    ensures ok == ValidWiiNumber(numberString)
  {
    var cleanedNumber := Digits(numberString);
    if |cleanedNumber| != WiiNumberLength {
      return false;
    }
    var wiiNumber := ParseDecimal(cleanedNumber);
    var loadedWiiNumber := LoadWiiNumber(wiiNumber);
    var checksumOk := loadedWiiNumber.CheckWiiNumber();
    if !checksumOk {
      return false;
    }
    return loadedWiiNumber.GetHollywoodID() != ReservedHollywoodId;
  }

  // ---------------------------------------------------------------------
  // Removing the non-digits

  lemma {:induction false} DigitsAppend(a: string, b: string)
    ensures Digits(a + b) == Digits(a) + Digits(b)
    decreases |a|
  {
    if a == [] {
      assert a + b == b;
    } else {
      assert (a + b)[1..] == a[1..] + b;
      DigitsAppend(a[1..], b);
    }
  }

  /** A digit string is left as it is. */
  lemma {:induction false} DigitsOfDigitString(s: string)
    requires AllDigits(s)
    ensures Digits(s) == s
    decreases |s|
  {
    if s != [] {
      DigitsOfDigitString(s[1..]);
    }
  }

  /** Stripping twice strips nothing more. */
  lemma DigitsIdempotent(s: string)
    ensures Digits(Digits(s)) == Digits(s)
  {
    DigitsOfDigitString(Digits(s));
  }

  /** A character that is not a digit can be inserted anywhere without effect. */
  lemma SeparatorIgnored(a: string, c: char, b: string)
    requires !IsDigit(c)
    ensures Digits(a + [c] + b) == Digits(a + b)
  {
    DigitsAppend(a + [c], b);
    DigitsAppend(a, [c]);
    DigitsAppend(a, b);
    assert Digits([c]) == [] by {
      assert [c][1..] == [];
    }
  }

  /** Every digit of `s` is kept, and nothing else. */
  lemma {:induction false} DigitsCount(s: string, c: char)
    ensures multiset(Digits(s))[c] == if IsDigit(c) then multiset(s)[c] else 0
    decreases |s|
  {
    if s != [] {
      DigitsCount(s[1..], c);
      assert s == [s[0]] + s[1..];
      assert multiset(s) == multiset([s[0]]) + multiset(s[1..]);
    }
  }

  // ---------------------------------------------------------------------
  // Reading the digits as a number

  lemma {:induction false} ParseBound(ds: string)
    requires AllDigits(ds)
    ensures ParseDecimal(ds) < Pow10(|ds|)
    decreases |ds|
  {
    if ds != [] {
      ParseBound(ds[..|ds| - 1]);
    }
  }

  lemma {:induction false} ParseOfToDecimal(n: nat, len: nat)
    requires n < Pow10(len)
    ensures ParseDecimal(ToDecimal(n, len)) == n
    decreases len
  {
    if len > 0 {
      var r := ToDecimal(n, len);
      assert r[..|r| - 1] == ToDecimal(n / 10, len - 1);
      ParseOfToDecimal(n / 10, len - 1);
    }
  }

  lemma {:induction false} ToDecimalOfParse(ds: string)
    requires AllDigits(ds)
    ensures ToDecimal(ParseDecimal(ds), |ds|) == ds
    decreases |ds|
  {
    if ds != [] {
      var front := ds[..|ds| - 1];
      var n := ParseDecimal(ds);
      var d := DigitValue(ds[|ds| - 1]);
      ModUnique(n, 10, ParseDecimal(front), d);
      ToDecimalOfParse(front);
      assert ds == front + [ds[|ds| - 1]];
    }
  }

  /** Different digit strings of the same length stand for different numbers. */
  lemma ParseInjective(a: string, b: string)
    requires AllDigits(a) && AllDigits(b) && |a| == |b|
    requires ParseDecimal(a) == ParseDecimal(b)
    ensures a == b
  {
    ToDecimalOfParse(a);
    ToDecimalOfParse(b);
  }

  lemma Pow10Of16()
    ensures Pow10(16) == 10_000_000_000_000_000
  {
    assert Pow10(4) == 10_000;
    assert Pow10(8) == 10_000 * Pow10(4) by { Pow10Add(4, 4); }
    assert Pow10(16) == Pow10(8) * Pow10(8) by { Pow10Add(8, 8); }
  }

  lemma {:induction false} Pow10Add(a: nat, b: nat)
    ensures Pow10(a + b) == Pow10(a) * Pow10(b)
    decreases a
  {
    if a > 0 {
      Pow10Add(a - 1, b);
    }
  }

  // ---------------------------------------------------------------------
  // The verdict

  /**
   * The verdict spelled out: sixteen digits remain, the checksum of the
   * descrambled number passes, and its Hollywood id is not the reserved one.
   */
  lemma ValidWiiNumberIff(s: string)
    ensures ValidWiiNumber(s)
            <==> |Digits(s)| == WiiNumberLength
                 && ChecksumValid(Unscramble(ParseDecimal(Digits(s))))
                 && Shr(Unscramble(ParseDecimal(Digits(s))), 15) % 0x1_0000_0000 != ReservedHollywoodId
  {
  }

  /** Any digit count other than sixteen is refused. */
  lemma WrongLengthRejected(s: string)
    requires |Digits(s)| != WiiNumberLength
    ensures !ValidWiiNumber(s)
  {
  }

  /** Only the digits, in their order, decide the verdict. */
  lemma SameDigitsSameVerdict(s: string, t: string)
    requires Digits(s) == Digits(t)
    ensures ValidWiiNumber(s) == ValidWiiNumber(t)
  {
  }

  /** Separators such as `-` between the groups do not change the verdict. */
  lemma SeparatorKeepsVerdict(a: string, c: char, b: string)
    requires !IsDigit(c)
    ensures ValidWiiNumber(a + [c] + b) == ValidWiiNumber(a + b)
  {
    SeparatorIgnored(a, c, b);
  }

  /** A string that passes the length guard reads as a number below `10^16`. */
  lemma ParsedBelow10To16(s: string)
    requires |Digits(s)| == WiiNumberLength
    ensures ParseDecimal(Digits(s)) < 10_000_000_000_000_000
  {
    ParseBound(Digits(s));
    Pow10Of16();
  }

  /**
   * The verdict depends on the parsed number only through its low 53 bits,
   * the bits the descrambler reads.
   */
  lemma VerdictReadsLow53(s: string)
    requires |Digits(s)| == WiiNumberLength
    ensures var low := ParseDecimal(Digits(s)) % Pow2(53);
            ValidWiiNumber(s)
            == (ChecksumValid(Unscramble(low)) && Shr(Unscramble(low), 15) % 0x1_0000_0000 != ReservedHollywoodId)
  {
    UnscrambleMasks(ParseDecimal(Digits(s)));
  }
}
