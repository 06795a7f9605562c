/**
 * Base-N numerals as the converters of Remal_CommonUtils produce them:
 * the digit alphabet 0-9A-Z, the mirrored lookup table the conversion
 * loops index with a signed remainder, C's truncating division, and the
 * fixed-width integer types of the C interface.
 */
module Numerals {
  import opened CStrings

  type u8 = x: int | 0 <= x < 0x100
  type u32 = x: int | 0 <= x < 0x1_0000_0000
  type i32 = x: int | -0x8000_0000 <= x < 0x8000_0000

  function Abs(x: int): nat { if x < 0 then -x else x }

  predicate ValidBase(base: int) { 2 <= base <= 36 }

  /** The digit character for a digit value: 0-9 then upper-case A-Z. */
  function Digit(d: nat): (c: char)
    requires d < 36
  {
    if d < 10 then (48 + d) as char else (55 + d) as char
  }

  /** The value of a digit character; 36 for a character that is not a digit. */
  function DigitValue(c: char): (d: nat)
    ensures d <= 36
  {
    if '0' <= c <= '9' then c as int - 48
    else if 'A' <= c <= 'Z' then c as int - 55
    else 36
  }

  lemma DigitValueOfDigit(d: nat)
    requires d < 36
    ensures DigitValue(Digit(d)) == d
    ensures Digit(d) != 0 as char && Digit(d) != '-'
  {
  }

  lemma DigitOfDigitValue(c: char)
    requires DigitValue(c) < 36
    ensures Digit(DigitValue(c)) == c
  {
  }

  /**
   * The lookup string of the conversion loops: position 35 holds '0', and
   * position 35 + r holds the digit of |r| for every remainder -35..35.
   * (One 71-character table, written here as two literals so the verifier
   * can index it.)
   */
  const DigitTable: string := "ZYXWVUTSRQPONMLKJIHGFEDCBA987654321" + "0123456789ABCDEFGHIJKLMNOPQRSTUVWXYZ"

  lemma DigitTableMirror(r: int)
    requires -36 < r < 36
    ensures |DigitTable| == 71 && DigitTable[35 + r] == Digit(Abs(r))
  {
    var upper := "0123456789ABCDEFGHIJKLMNOPQRSTUVWXYZ";
    var lower := "ZYXWVUTSRQPONMLKJIHGFEDCBA987654321";
    assert DigitTable == lower + upper;
    if r >= 0 {
      assert DigitTable[35 + r] == upper[r];
      UpperDigits(r);
    } else {
      assert DigitTable[35 + r] == lower[35 + r];
      LowerDigits(-r);
    }
  }

  lemma UpperDigits(d: nat)
    requires d < 36
    ensures "0123456789ABCDEFGHIJKLMNOPQRSTUVWXYZ"[d] == Digit(d)
  {
  }

  lemma LowerDigits(d: nat)
    requires 1 <= d < 36
    ensures "ZYXWVUTSRQPONMLKJIHGFEDCBA987654321"[35 - d] == Digit(d)
  {
  }

  /** The canonical numeral of v in the given base, most significant digit first. */
  function Numeral(v: nat, base: nat): string
    requires ValidBase(base)
    decreases v
  {
    DivStep(v, base);
    if v < base then [Digit(v)] else Numeral(v / base, base) + [Digit(v % base)]
  }

  /** The value that a digit string denotes in the given base (the reparse). */
  function ValueOf(s: string, base: nat): nat
  {
    if s == [] then 0 else ValueOf(s[..|s| - 1], base) * base + DigitValue(s[|s| - 1])
  }

  /** A well-formed numeral: non-empty, base digits only, no leading zero. */
  predicate IsNumeral(s: string, base: nat)
  {
    |s| > 0 &&
    (forall k :: 0 <= k < |s| ==> DigitValue(s[k]) < base) &&
    (|s| > 1 ==> s[0] != '0')
  }

  function Pow(b: nat, m: nat): nat
  {
    if m == 0 then 1 else b * Pow(b, m - 1)
  }

  lemma ValueOfSnoc(s: string, c: char, base: nat)
    ensures ValueOf(s + [c], base) == ValueOf(s, base) * base + DigitValue(c)
  {
    assert (s + [c])[..|s|] == s;
  }

  /** Peeling the last digit off a numeral: what one turn of a conversion loop relies on. */
  lemma NumeralPeel(v: nat, base: nat)
    requires ValidBase(base)
    ensures |Numeral(v, base)| >= 1
    ensures v / base == 0 ==> Numeral(v, base) == [Digit(v % base)]
    ensures v / base != 0 ==> Numeral(v, base) == Numeral(v / base, base) + [Digit(v % base)]
  {
    DivStep(v, base);
  }

  /** The digits of v in the order a divide-by-base loop produces them: least significant first. */
  function LowDigits(v: nat, base: nat): string
    requires ValidBase(base)
    decreases v
  {
    DivStep(v, base);
    [Digit(v % base)] + (if v / base == 0 then [] else LowDigits(v / base, base))
  }

  /** Reparsing the numeral gives back the value. */
  lemma {:induction false} NumeralRoundTrip(v: nat, base: nat)
    requires ValidBase(base)
    ensures ValueOf(Numeral(v, base), base) == v
    decreases v
  {
    if v < base {
      DigitValueOfDigit(v);
      ValueOfSnoc([], Digit(v), base);
    } else {
      DivSmaller(v, base);
      NumeralRoundTrip(v / base, base);
      DigitValueOfDigit(v % base);
      ValueOfSnoc(Numeral(v / base, base), Digit(v % base), base);
    }
  }

  /** The numeral is well formed; it starts with '0' exactly when it is "0". */
  lemma {:induction false} NumeralWellFormed(v: nat, base: nat)
    requires ValidBase(base)
    ensures IsNumeral(Numeral(v, base), base)
    ensures Numeral(v, base)[0] == '0' <==> v == 0
    ensures v == 0 ==> Numeral(v, base) == "0"
    ensures forall k :: 0 <= k < |Numeral(v, base)| ==> Numeral(v, base)[k] != 0 as char && Numeral(v, base)[k] != '-'
    decreases v
  {
    if v < base {
      DigitValueOfDigit(v);
    } else {
      NumeralWellFormed(v / base, base);
      DigitValueOfDigit(v % base);
      var init := Numeral(v / base, base);
      assert init[0] != '0';
      assert Numeral(v, base) == init + [Digit(v % base)];
    }
  }

  lemma {:induction false} ValueOfPositive(s: string, base: nat)
    requires ValidBase(base) && IsNumeral(s, base) && s[0] != '0'
    ensures ValueOf(s, base) >= 1
    decreases |s|
  {
    if |s| == 1 {
      assert s[..0] == [];
    } else {
      var init := s[..|s| - 1];
      assert init[0] == s[0];
      assert IsNumeral(init, base);
      ValueOfPositive(init, base);
    }
  }

  /** Every well-formed numeral is the numeral of its value: the reparse is injective. */
  lemma {:induction false} NumeralOfValue(s: string, base: nat)
    requires ValidBase(base) && IsNumeral(s, base)
    ensures Numeral(ValueOf(s, base), base) == s
    decreases |s|
  {
    var last := s[|s| - 1];
    DigitOfDigitValue(last);
    var init := s[..|s| - 1];
    assert s == init + [last];
    ValueOfSnoc(init, last, base);
    if |s| > 1 {
      assert init[0] == s[0];
      assert IsNumeral(init, base);
      NumeralOfValue(init, base);
      ValueOfPositive(init, base);
      MulAtLeast(ValueOf(init, base), base);
      DivModUnique(ValueOf(init, base), DigitValue(last), base);
    }
  }

  /** A value below base^m has at most m digits. */
  lemma {:induction false} NumeralLength(v: nat, base: nat, m: nat)
    requires ValidBase(base) && 1 <= m && v < Pow(base, m)
    ensures 1 <= |Numeral(v, base)| <= m
    decreases v
  {
    if v >= base {
      DivSmaller(v, base);
      if v / base >= Pow(base, m - 1) {
        MulLe(Pow(base, m - 1), v / base, base);
      }
      NumeralLength(v / base, base, m - 1);
    }
  }

  lemma {:induction false} PowMonotone(b: nat, m: nat)
    requires b >= 2
    ensures Pow(b, m) >= Pow(2, m)
  {
    if m > 0 {
      PowMonotone(b, m - 1);
      MulLe(2, b, Pow(b, m - 1));
    }
  }

  lemma {:induction false} PowAdd(b: nat, m: nat, n: nat)
    ensures Pow(b, m + n) == Pow(b, m) * Pow(b, n)
  {
    if m > 0 {
      PowAdd(b, m - 1, n);
      var x, y := Pow(b, m - 1), Pow(b, n);
      assert Pow(b, m + n) == b * (x * y);
      MulRegroup(b, x, y);
    }
  }

  lemma PowFacts()
    ensures Pow(2, 32) == 0x1_0000_0000 && Pow(10, 10) == 10_000_000_000 && Pow(16, 8) == 0x1_0000_0000
  {
    assert Pow(2, 8) == 0x100;
    PowAdd(2, 8, 8);
    PowAdd(2, 16, 16);
    assert Pow(10, 5) == 100_000;
    PowAdd(10, 5, 5);
    assert Pow(16, 4) == 0x1_0000;
    PowAdd(16, 4, 4);
  }

  /** A 32-bit value has at most 32 digits in any base, 10 in decimal and 8 in hexadecimal. */
  lemma NumeralFits(v: nat, base: nat)
    requires ValidBase(base) && v < 0x1_0000_0000
    ensures |Numeral(v, base)| <= 32
    ensures base == 10 ==> |Numeral(v, base)| <= 10
    ensures base == 16 ==> |Numeral(v, base)| <= 8
  {
    PowMonotone(base, 32);
    PowFacts();
    NumeralLength(v, base, 32);
    if base == 10 {
      NumeralLength(v, base, 10);
    }
    if base == 16 {
      NumeralLength(v, base, 8);
    }
  }

  /** Division facts, stated once so the proofs above stay linear. */
  lemma DivModParts(v: nat, b: nat)
    requires b > 0
    ensures v == (v / b) * b + v % b && 0 <= v % b < b
  {
  }

  lemma DivSmaller(v: nat, b: nat)
    requires 2 <= b <= v
    ensures 1 <= v / b < v
    ensures v == (v / b) * b + v % b && 0 <= v % b < b
  {
    DivModParts(v, b);
    MulLe(2, b, v / b);
  }

  /** One division step of a conversion loop: quotient, remainder, and when the quotient is zero. */
  lemma DivStep(v: nat, b: nat)
    requires 2 <= b
    ensures v == (v / b) * b + v % b && 0 <= v % b < b
    ensures v / b <= v && (v / b == 0 <==> v < b)
    ensures v >= b ==> v / b < v
  {
    DivModParts(v, b);
    if v >= b {
      DivSmaller(v, b);
    } else {
      DivModUnique(0, v, b);
    }
  }

  lemma MulRegroup(a: int, b: int, c: int)
    ensures a * (b * c) == (a * b) * c
  {
  }

  lemma Distrib(x: int, d: int, b: int)
    ensures (x + d) * b == x * b + d * b
  {
  }

  lemma {:induction false} MulAtLeast(d: nat, b: nat)
    requires d >= 1
    ensures d * b >= b
  {
    if d > 1 {
      MulAtLeast(d - 1, b);
      Distrib(d - 1, 1, b);
    }
  }

  lemma MulStep(x: nat, y: nat, b: nat)
    requires x < y
    ensures x * b + b <= y * b
  {
    Distrib(x, y - x, b);
    MulAtLeast(y - x, b);
  }

  lemma MulLe(x: nat, y: nat, b: nat)
    requires x <= y
    ensures x * b <= y * b
  {
    if x < y {
      MulStep(x, y, b);
    }
  }

  lemma DivModUnique(q: nat, r: nat, b: nat)
    requires r < b
    ensures (q * b + r) / b == q && (q * b + r) % b == r
  {
    var v := q * b + r;
    DivModParts(v, b);
    if q > v / b {
      MulStep(v / b, q, b);
    } else if q < v / b {
      MulStep(q, v / b, b);
    }
  }

  /** Producing digits least significant first and reversing them gives the numeral. */
  lemma {:induction false} LowDigitsReversed(v: nat, base: nat)
    requires ValidBase(base)
    ensures Reverse(LowDigits(v, base)) == Numeral(v, base)
    ensures |LowDigits(v, base)| == |Numeral(v, base)|
    decreases v
  {
    DivStep(v, base);
    var d := Digit(v % base);
    if v / base == 0 {
      assert LowDigits(v, base) == [d];
    } else {
      LowDigitsReversed(v / base, base);
      ReverseCons(d, LowDigits(v / base, base));
    }
  }

  /** C's `/` on signed operands: the quotient truncated toward zero. */
  function TruncDiv(a: int, b: nat): int
    requires b > 0
  {
    if a >= 0 then a / b else -((-a) / b)
  }

  /**
   * One turn of the conversion loops: dividing by the base (truncating
   * toward zero) peels the least significant digit of the magnitude off,
   * keeps the sign, and shrinks a nonzero quotient.
   */
  lemma LowDigitsStep(a: int, base: nat)
    requires ValidBase(base)
    ensures LowDigits(Abs(a), base) ==
      [Digit(Abs(a) % base)] + (if TruncDiv(a, base) == 0 then [] else LowDigits(Abs(TruncDiv(a, base)), base))
    ensures TruncDiv(a, base) != 0 ==> Abs(TruncDiv(a, base)) < Abs(a)
    ensures a >= 0 ==> 0 <= TruncDiv(a, base) <= a
    ensures a < 0 ==> a <= TruncDiv(a, base) <= 0
  {
    TruncDivMagnitude(a, base);
    DivStep(Abs(a), base);
  }

  /** Truncating division works on the magnitude and keeps the sign; the remainder is the magnitude's, signed. */
  lemma TruncDivMagnitude(a: int, b: nat)
    requires b > 0
    ensures Abs(TruncDiv(a, b)) == Abs(a) / b
    ensures Abs(a - TruncDiv(a, b) * b) == Abs(a) % b
    ensures -(b as int) < a - TruncDiv(a, b) * b < b
    ensures a >= 0 ==> TruncDiv(a, b) >= 0
    ensures a < 0 ==> TruncDiv(a, b) <= 0
  {
    var m := Abs(a);
    var q := m / b;
    var r := m % b;
    DivModParts(m, b);
    var p := q * b;
    assert m == p + r;
    if a >= 0 {
      assert TruncDiv(a, b) == q;
      assert a - TruncDiv(a, b) * b == r;
    } else {
      assert TruncDiv(a, b) == -q;
      assert TruncDiv(a, b) * b == -p;
      assert a - TruncDiv(a, b) * b == -r;
    }
  }
}
