/**
 * The text RML_COMM_ftoa produces for a double, on exact reals: the whole
 * part is C's truncating cast, printed in decimal with a '-' when it is
 * negative; then, for a nonzero number of places, a '.' and that many
 * digits, each obtained by multiplying the remaining fraction by ten and
 * truncating again.
 */
module Fixed {
  import opened Numerals

  /** C's cast of a floating value to an integer: truncation toward zero. */
  function Trunc(x: real): (t: int)
    ensures x >= 0.0 ==> 0 <= t && t as real <= x < t as real + 1.0
    ensures x < 0.0 ==> t <= 0 && t as real - 1.0 < x <= t as real
  {
    if x >= 0.0 then x.Floor else -((-x).Floor)
  }

  /**
   * The digits after the point: scale the fraction by ten, print the
   * truncated digit as '0' + digit, keep what is left. A negative fraction
   * yields digits below zero, printed as the characters just below '0'.
   */
  function FractionDigits(f: real, places: nat): (s: string)
    requires -1.0 < f < 1.0
    ensures |s| == places
    decreases places
  {
    if places == 0 then []
    else
      var d := Trunc(f * 10.0);
      [(48 + d) as char] + FractionDigits(f * 10.0 - d as real, places - 1)
  }

  /**
   * RML_COMM_ftoa's text: whole part (a leading '-' only when the
   * truncated whole part is negative, in which case the fraction is
   * negated too), then '.' and the fraction digits when places > 0.
   */
  function FtoaText(x: real, places: nat): (s: string)
  {
    var whole := Trunc(x);
    var frac := x - whole as real;
    (if whole < 0 then "-" else "") + Numeral(Abs(whole), 10) +
    (if places == 0 then "" else "." + FractionDigits(if whole < 0 then -frac else frac, places))
  }

  /**
   * With Afterpoint 0 the code prints the whole part alone: 1.5 comes
   * out as "1", with no point and no digits after it.
   */
  lemma FtoaZeroPlaces()
    ensures FtoaText(1.5, 0) == "1"
    ensures forall x: real :: '.' !in FtoaText(x, 0)
  {
    assert Trunc(1.5) == 1;
    assert Numeral(1, 10) == "1";
    forall x: real
      ensures '.' !in FtoaText(x, 0)
    {
      NumeralWellFormed(Abs(Trunc(x)), 10);
      assert DigitValue('.') == 36;
    }
  }

  /**
   * ftoa as its interface describes it: an Afterpoint of 0 stands for two
   * places, any other value for itself.
   */
  function FtoaTextDefaulted(x: real, afterpoint: nat): (s: string)
  {
    FtoaText(x, if afterpoint == 0 then 2 else afterpoint)
  }

  /**
   * The defaulted text always has a point after the whole part: with
   * Afterpoint 0 it is followed by two decimal digits, and for any other
   * Afterpoint the text is the one the code prints.
   */
  lemma FtoaDefaultedPlaces(x: real, afterpoint: nat)
    requires x >= 0.0 || x <= -1.0
    ensures var n := (if x <= -1.0 then 1 else 0) + |Numeral(Abs(Trunc(x)), 10)|;
      var s := FtoaTextDefaulted(x, afterpoint);
      |s| == n + 1 + (if afterpoint == 0 then 2 else afterpoint) && s[n] == '.' &&
      forall k :: n < k < |s| ==> '0' <= s[k] <= '9'
    ensures afterpoint > 0 ==> FtoaTextDefaulted(x, afterpoint) == FtoaText(x, afterpoint)
  {
    var places := if afterpoint == 0 then 2 else afterpoint;
    FtoaShape(x, places);
    FtoaFraction(x, places);
  }

  /** A '-' leads the text exactly when the number is at most -1: the sign of anything above -1 is lost. */
  lemma FtoaSign(x: real, places: nat)
    ensures |FtoaText(x, places)| >= 1 && (FtoaText(x, places)[0] == '-' <==> x <= -1.0)
  {
    var n := Numeral(Abs(Trunc(x)), 10);
    NumeralWellFormed(Abs(Trunc(x)), 10);
    assert n[0] != '-';
  }

  /** The magnitude of what is left once the whole part is cut off. */
  lemma FractionOfMagnitude(x: real)
    ensures Trunc(x) < 0 ==> 0.0 <= -(x - Trunc(x) as real) < 1.0
    ensures Trunc(x) >= 0 && x >= 0.0 ==> 0.0 <= x - Trunc(x) as real < 1.0
  {
  }

  /** Reading a digit string most significant first: the leading digit weighs base^(length of the rest). */
  lemma {:induction false} ValueOfCons(c: char, s: string, base: nat)
    ensures ValueOf([c] + s, base) == DigitValue(c) * Pow(base, |s|) + ValueOf(s, base)
    decreases |s|
  {
    if s == [] {
      assert [c] + s == [] + [c];
      ValueOfSnoc([], c, base);
    } else {
      var init := s[..|s| - 1];
      var last := s[|s| - 1];
      assert [c] + s == ([c] + init) + [last];
      assert s == init + [last];
      ValueOfSnoc([c] + init, last, base);
      ValueOfSnoc(init, last, base);
      ValueOfCons(c, init, base);
      var x := DigitValue(c);
      var p := Pow(base, |init|);
      var vi := ValueOf(init, base);
      assert Pow(base, |s|) == base * p;
      assert ValueOf([c] + s, base) == (x * p + vi) * base + DigitValue(last);
      assert ValueOf(s, base) == vi * base + DigitValue(last);
      Distrib(x * p, vi, base);
      MulAssoc(x, p, base);
    }
  }

  lemma MulAssoc(x: int, p: int, b: int)
    ensures (x * p) * b == x * (b * p)
  {
  }

  /** w is x with its fractional part cut off (x >= 0). */
  predicate Truncates(w: nat, x: real)
  {
    w as real <= x < w as real + 1.0
  }

  /** For a fraction in [0, 1) every digit after the point is a decimal digit. */
  lemma {:induction false} FractionDigitsDecimal(f: real, places: nat)
    requires 0.0 <= f < 1.0
    ensures forall k :: 0 <= k < places ==> '0' <= FractionDigits(f, places)[k] <= '9'
    decreases places
  {
    if places > 0 {
      var d := Trunc(f * 10.0);
      var g := f * 10.0 - d as real;
      assert 0 <= d <= 9 && 0.0 <= g < 1.0;
      FractionDigitsDecimal(g, places - 1);
      assert forall k :: 1 <= k < places ==> FractionDigits(f, places)[k] == FractionDigits(g, places - 1)[k - 1];
    }
  }

  /** x with the decimal point moved n places to the right. */
  function Shift(x: real, n: nat): real
  {
    if n == 0 then x else Shift(x, n - 1) * 10.0
  }

  /** Shifting is multiplying by 10^n. */
  lemma {:induction false} ShiftIsProduct(x: real, n: nat)
    ensures Shift(x, n) == x * Pow(10, n) as real
  {
    if n > 0 {
      ShiftIsProduct(x, n - 1);
      var p := Pow(10, n - 1) as real;
      assert Pow(10, n) as real == 10.0 * p;
      assert (x * p) * 10.0 == x * (10.0 * p);
    }
  }

  lemma {:induction false} ShiftFirst(x: real, n: nat)
    requires n > 0
    ensures Shift(x, n) == Shift(x * 10.0, n - 1)
  {
    if n > 1 {
      ShiftFirst(x, n - 1);
    }
  }

  lemma {:induction false} ShiftAdd(a: real, b: real, n: nat)
    ensures Shift(a + b, n) == Shift(a, n) + Shift(b, n)
  {
    if n > 0 {
      ShiftAdd(a, b, n - 1);
    }
  }

  lemma {:induction false} ShiftWhole(d: int, n: nat)
    ensures Shift(d as real, n) == (d * Pow(10, n)) as real
  {
    if n > 0 {
      ShiftWhole(d, n - 1);
      assert d * Pow(10, n) == (d * Pow(10, n - 1)) * 10;
    }
  }

  /**
   * For a fraction in [0, 1) the digits read back as the fraction shifted
   * by `places` and truncated: ftoa cuts the number off after `places`
   * decimals, it does not round.
   */
  lemma {:induction false} FractionDigitsValue(f: real, places: nat)
    requires 0.0 <= f < 1.0
    ensures Truncates(ValueOf(FractionDigits(f, places), 10), Shift(f, places))
    decreases places
  {
    if places > 0 {
      var d := Trunc(f * 10.0);
      var g := f * 10.0 - d as real;
      var rest := FractionDigits(g, places - 1);
      assert 0 <= d <= 9 && 0.0 <= g < 1.0;
      FractionDigitsValue(g, places - 1);
      assert FractionDigits(f, places) == [(48 + d) as char] + rest;
      ValueOfCons((48 + d) as char, rest, 10);
      ShiftFirst(f, places);
      ShiftAdd(d as real, g, places - 1);
      ShiftWhole(d, places - 1);
    }
  }

  /**
   * A number of at least zero, or at most -1, prints as its sign, the
   * decimal numeral of its whole part, and (for places > 0) a point
   * followed by exactly `places` decimal digits.
   */
  lemma FtoaShape(x: real, places: nat)
    requires x >= 0.0 || x <= -1.0
    ensures var sign := if x <= -1.0 then "-" else "";
      FtoaText(x, places)[..|sign| + |Numeral(Abs(Trunc(x)), 10)|] == sign + Numeral(Abs(Trunc(x)), 10)
    ensures |FtoaText(x, places)| ==
      (if x <= -1.0 then 1 else 0) + |Numeral(Abs(Trunc(x)), 10)| + (if places == 0 then 0 else places + 1)
    ensures forall k :: (if x <= -1.0 then 1 else 0) + |Numeral(Abs(Trunc(x)), 10)| < k < |FtoaText(x, places)| ==>
      '0' <= FtoaText(x, places)[k] <= '9'
  {
    var whole := Trunc(x);
    var frac := x - whole as real;
    var f := if whole < 0 then -frac else frac;
    assert whole < 0 <==> x <= -1.0;
    assert 0.0 <= f < 1.0;
    if places > 0 {
      FractionDigitsDecimal(f, places);
    }
  }

  /**
   * For a number of at least zero, or at most -1, and places > 0: after
   * the sign and the whole part comes the point, and the digits after it
   * are the magnitude's fractional part, shifted by `places` and truncated.
   */
  lemma FtoaFraction(x: real, places: nat)
    requires (x >= 0.0 || x <= -1.0) && places > 0
    ensures var n := (if x <= -1.0 then 1 else 0) + |Numeral(Abs(Trunc(x)), 10)|;
      n < |FtoaText(x, places)| && FtoaText(x, places)[n] == '.' &&
      Truncates(ValueOf(FtoaText(x, places)[n + 1..], 10), Shift(Magnitude(x) - Abs(Trunc(x)) as real, places))
  {
    var whole := Trunc(x);
    var frac := x - whole as real;
    var f := if whole < 0 then -frac else frac;
    assert whole < 0 <==> x <= -1.0;
    assert f == Magnitude(x) - Abs(whole) as real;
    var n := (if x <= -1.0 then 1 else 0) + |Numeral(Abs(whole), 10)|;
    var sign: string := if whole < 0 then "-" else "";
    assert FtoaText(x, places) == (sign + Numeral(Abs(whole), 10)) + ("." + FractionDigits(f, places));
    assert FtoaText(x, places)[n + 1..] == FractionDigits(f, places);
    FractionDigitsValue(f, places);
  }

  function Magnitude(x: real): real
  {
    if x < 0.0 then -x else x
  }

  /** The cast commutes with negation: truncation is symmetric about zero. */
  lemma TruncNegate(z: real)
    ensures Trunc(-z) == -Trunc(z)
  {
  }

  /**
   * The fraction loop run on -f writes, digit by digit, the character as
   * far below '0' as the loop on f writes above it.
   */
  lemma {:induction false} FractionDigitsNegate(f: real, places: nat)
    requires -1.0 < f < 1.0
    ensures forall k :: 0 <= k < places ==>
      FractionDigits(-f, places)[k] as int == 96 - FractionDigits(f, places)[k] as int
    decreases places
  {
    if places > 0 {
      var d := Trunc(f * 10.0);
      var g := f * 10.0 - d as real;
      var nf, ng := -f, -g;
      TruncNegate(f * 10.0);
      assert nf * 10.0 == -(f * 10.0);
      assert Trunc(nf * 10.0) == -d;
      assert nf * 10.0 - (-d) as real == ng;
      var pos, neg := FractionDigits(g, places - 1), FractionDigits(ng, places - 1);
      assert FractionDigits(f, places) == [(48 + d) as char] + pos;
      assert FractionDigits(nf, places) == [(48 - d) as char] + neg;
      FractionDigitsNegate(g, places - 1);
    }
  }

  /**
   * Every number strictly between -1 and 0 loses its sign: the whole part
   * truncates to 0, so the text is "0", then (for places > 0) '.' and one
   * character per place, each as far below '0' as the corresponding digit
   * of the magnitude's text lies above it, so no character exceeds '0'.
   */
  lemma FtoaBetweenMinusOneAndZero(x: real, places: nat)
    requires -1.0 < x < 0.0
    ensures Trunc(x) == 0
    ensures var s := FtoaText(x, places);
      s[0] == '0' && |s| == (if places == 0 then 1 else places + 2) &&
      (places > 0 ==> s[1] == '.')
    ensures var s, t := FtoaText(x, places), FtoaText(-x, places);
      |t| == |s| && t[0] == s[0] && (places > 0 ==> t[1] == s[1]) &&
      forall k :: 2 <= k < |s| ==> s[k] as int == 96 - t[k] as int && 39 <= s[k] as int <= 48
  {
    FtoaNoWhole(x, places);
    FtoaNoWhole(-x, places);
    if places > 0 {
      FractionDigitsNegate(x, places);
      FractionDigitsDecimal(-x, places);
      MirroredTail(FractionDigits(x, places), FractionDigits(-x, places));
    }
  }

  /** "0." followed by digits, and "0." followed by their mirror images below '0'. */
  lemma MirroredTail(neg: string, pos: string)
    requires |neg| == |pos|
    requires forall k :: 0 <= k < |pos| ==> neg[k] as int == 96 - pos[k] as int && '0' <= pos[k] <= '9'
    ensures var s, t := "0." + neg, "0." + pos;
      |s| == |neg| + 2 && s[0] == '0' && s[1] == '.' && |t| == |s| && t[..2] == s[..2] &&
      forall k :: 2 <= k < |s| ==> s[k] as int == 96 - t[k] as int && 39 <= s[k] as int <= 48
  {
    var s, t := "0." + neg, "0." + pos;
    assert forall k :: 2 <= k < |s| ==> s[k] == neg[k - 2] && t[k] == pos[k - 2];
  }

  /** A number strictly between -1 and 1 truncates to 0 and prints as "0", then the point and its fraction digits. */
  lemma FtoaNoWhole(y: real, places: nat)
    requires -1.0 < y < 1.0
    ensures Trunc(y) == 0
    ensures FtoaText(y, places) == "0" + (if places == 0 then "" else "." + FractionDigits(y, places))
  {
    var whole := Trunc(y);
    assert whole == 0;
    assert y - whole as real == y;
    assert Numeral(Abs(whole), 10) == "0";
  }

  /**
   * A negative number above -1 has whole part 0, so no '-' is printed and
   * the fraction stays negative: -0.5 to two places comes out as "0.+0"
   * ('0' - 5 is '+').
   */
  lemma FtoaSmallNegative()
    ensures FtoaText(-0.5, 2) == "0.+0"
    ensures FtoaText(-1.25, 2) == "-1.25"
  {
    assert Trunc(-0.5) == 0;
    assert Trunc(-5.0) == -5;
    assert Trunc(0.0) == 0;
    assert FractionDigits(-0.5, 2) == "+0";
    assert Trunc(-1.25) == -1;
    assert Trunc(2.5) == 2;
    assert Trunc(5.0) == 5;
    assert FractionDigits(0.25, 2) == "25";
  }
}
