/**
 * The integer converters of Remal_CommonUtils.cpp: utoa and itoa write a
 * base-N numeral into a caller buffer (digits least significant first,
 * then an in-place two-pointer reversal), and ReverseString reverses a
 * prefix of a character array in place.
 */
module Convert {
  import opened Numerals
  import opened CStrings

  /**
   * The text itoa produces: the digits of |v|, with a leading '-' only
   * when v is negative AND the base is 10 (other bases print the bare
   * magnitude).
   */
  function SignedNumeral(v: int, base: nat): (s: string)
    requires ValidBase(base)
  {
    (if v < 0 && base == 10 then "-" else "") + Numeral(Abs(v), base)
  }

  /**
   * Reading itoa's text back: a leading '-' appears exactly for a negative
   * value in base 10, and then the rest reads as the magnitude, so the
   * text denotes the value; in any other base the text reads as the
   * magnitude and the sign is lost.
   */
  lemma SignedNumeralRoundTrip(v: int, base: nat)
    requires ValidBase(base)
    ensures var s := SignedNumeral(v, base);
      |s| >= 1 &&
      (s[0] == '-' <==> v < 0 && base == 10) &&
      (s[0] == '-' ==> v == -(ValueOf(s[1..], base) as int)) &&
      (s[0] != '-' ==> ValueOf(s, base) == Abs(v))
  {
    var n := Numeral(Abs(v), base);
    NumeralRoundTrip(Abs(v), base);
    NumeralWellFormed(Abs(v), base);
    assert n[0] != '-';
    if v < 0 && base == 10 {
      assert SignedNumeral(v, base)[1..] == n;
    } else {
      assert SignedNumeral(v, base) == n;
    }
  }

  /**
   * The tail shared by utoa and itoa once n characters have been written
   * back to front: reject a result that does not leave room for the
   * terminator, otherwise terminate it and reverse it with two pointers.
   * The value returned is where the right-hand pointer stopped, (n - 1) / 2.
   */
  method TerminateAndReverse(buff: array<char>, n: nat, size: u32) returns (r: int)
    requires 1 <= n <= buff.Length && size <= buff.Length
    modifies buff
    ensures n >= size ==> r == -1 && buff[..] == old(buff[..])[0 := NUL]
    ensures n < size ==> r == (n - 1) / 2 && buff[..] == Reverse(old(buff[..n])) + [NUL] + old(buff[n + 1..])
  {
    if n >= size {
      buff[0] := NUL;
      return -1;
    }
    buff[n] := NUL;
    ghost var terminated := buff[..];
    assert terminated == old(buff[..n]) + [NUL] + old(buff[n + 1..]);
    r := SwapToMiddle(buff, n);
    assert terminated[..n] == old(buff[..n]);
    assert terminated[n..] == [NUL] + old(buff[n + 1..]);
  }

  /**
   * The two-pointer loop of utoa and itoa: swap the outermost pair of the
   * first n cells and move both pointers inward until they meet; the
   * right-hand pointer ends at (n - 1) / 2.
   */
  method SwapToMiddle(buff: array<char>, n: nat) returns (right: int)
    requires 1 <= n <= buff.Length
    modifies buff
    ensures right == (n - 1) / 2
    ensures buff[..] == Reverse(old(buff[..n])) + old(buff[n..])
  {
    var left := 0;
    right := n - 1;
    while left < right
      invariant 0 <= left <= right + 1 && left + right == n - 1
      invariant forall k :: 0 <= k < left ==> buff[k] == old(buff[n - 1 - k]) && buff[n - 1 - k] == old(buff[k])
      invariant forall k :: left <= k <= right ==> buff[k] == old(buff[k])
      invariant forall k :: n <= k < buff.Length ==> buff[k] == old(buff[k])
    {
      var tmp := buff[right];
      buff[right] := buff[left];
      right := right - 1;
      buff[left] := tmp;
      left := left + 1;
    }
    ReversedPrefix(buff[..], old(buff[..]), n);
  }

  /**
   * RML_COMM_utoa: -1 with an empty string for a base outside 2..36;
   * -1 with the first cell cleared when the digits do not leave room for
   * the terminator (the digits were already written); otherwise the
   * numeral, terminated, and the pointer offset (n - 1) / 2.
   */
  method Utoa(value: u32, buff: array<char>, size: u32, base: u8) returns (r: int)
    requires 1 <= buff.Length && size <= buff.Length
    requires ValidBase(base) ==> |Numeral(value, base)| <= buff.Length
    modifies buff
    ensures !ValidBase(base) ==> r == -1 && buff[..] == old(buff[..])[0 := NUL]
    ensures ValidBase(base) && |Numeral(value, base)| >= size ==>
      r == -1 && buff[..] == (LowDigits(value, base) + old(buff[|Numeral(value, base)|..]))[0 := NUL]
    ensures ValidBase(base) && |Numeral(value, base)| < size ==>
      r == (|Numeral(value, base)| - 1) / 2 &&
      buff[..] == Numeral(value, base) + [NUL] + old(buff[|Numeral(value, base)| + 1..])
  {
    if base < 2 || base > 36 {
      buff[0] := NUL;
      return -1;
    }
    var n := DigitLoop(value, buff, base);
    ghost var written := buff[..];
    r := TerminateAndReverse(buff, n, size);
    LowDigitsReversed(value, base);
    assert written[..n] == LowDigits(value, base);
  }

  /**
   * What utoa returns for 255 in base 16: the text "FF" has length 2, but
   * the value returned, (n - 1) / 2, is 0. Every successful call returns
   * less than the length of the text it wrote.
   */
  lemma UtoaReturnExample(n: nat)
    requires n >= 1
    ensures Numeral(255, 16) == "FF" && (|Numeral(255, 16)| - 1) / 2 == 0
    ensures (n - 1) / 2 < n
  {
    DivStep(255, 16);
    assert Numeral(15, 16) == "F";
  }

  /**
   * utoa as its interface describes it: the same conversion, returning the
   * length of the resulting string on success.
   */
  method UtoaLength(value: u32, buff: array<char>, size: u32, base: u8) returns (r: int)
    requires 1 <= buff.Length && size <= buff.Length
    requires ValidBase(base) ==> |Numeral(value, base)| <= buff.Length
    modifies buff
    ensures !ValidBase(base) ==> r == -1 && buff[..] == old(buff[..])[0 := NUL]
    ensures ValidBase(base) && |Numeral(value, base)| >= size ==>
      r == -1 && buff[..] == (LowDigits(value, base) + old(buff[|Numeral(value, base)|..]))[0 := NUL]
    ensures ValidBase(base) && |Numeral(value, base)| < size ==>
      buff[..] == Numeral(value, base) + [NUL] + old(buff[|Numeral(value, base)| + 1..]) &&
      CString(buff[..]) == Numeral(value, base) && r == |CString(buff[..])|
  {
    r := Utoa(value, buff, size, base);
    if r != -1 {
      var text := Numeral(value, base);
      NumeralWellFormed(value, base);
      CStringOfTerminated(text, buff[|text| + 1..]);
      assert buff[..] == text + [NUL] + buff[|text| + 1..];
      r := |text|;
    }
  }

  /**
   * itoa as its interface describes it: the same conversion, returning the
   * length of the resulting string on success.
   */
  method ItoaLength(value: i32, buff: array<char>, size: u32, base: u8) returns (r: int)
    requires 1 <= buff.Length && size <= buff.Length
    requires ValidBase(base) ==> |SignedNumeral(value, base)| <= buff.Length
    modifies buff
    ensures !ValidBase(base) ==> r == -1 && buff[..] == old(buff[..])[0 := NUL]
    ensures ValidBase(base) && |SignedNumeral(value, base)| >= size ==>
      r == -1 && buff[..] == (SignedLowDigits(value, base) + old(buff[|SignedNumeral(value, base)|..]))[0 := NUL]
    ensures ValidBase(base) && |SignedNumeral(value, base)| < size ==>
      buff[..] == SignedNumeral(value, base) + [NUL] + old(buff[|SignedNumeral(value, base)| + 1..]) &&
      CString(buff[..]) == SignedNumeral(value, base) && r == |CString(buff[..])|
  {
    r := Itoa(value, buff, size, base);
    if r != -1 {
      var text := SignedNumeral(value, base);
      NumeralWellFormed(Abs(value), base);
      assert NUL !in text;
      CStringOfTerminated(text, buff[|text| + 1..]);
      assert buff[..] == text + [NUL] + buff[|text| + 1..];
      r := |text|;
    }
  }

  /**
   * The do-while loop shared by utoa and itoa: divide by the base (C's
   * truncating division, so a negative value keeps its sign) until the
   * quotient is zero, writing each remainder's digit through the lookup
   * table, least significant first, from the start of the buffer. The
   * digits are those of the magnitude, even for the most negative int32.
   */
  method DigitLoop(value: int, buff: array<char>, base: u8) returns (n: nat)
    requires ValidBase(base) && |Numeral(Abs(value), base)| <= buff.Length
    modifies buff
    ensures n == |Numeral(Abs(value), base)|
    ensures buff[..] == LowDigits(Abs(value), base) + old(buff[n..])
  {
    var v := value;
    var ptr := 0;
    ghost var all := LowDigits(Abs(value), base);
    LowDigitsReversed(Abs(value), base);
    assert all[0..] == all;
    while true
      invariant ptr + |LowDigits(Abs(v), base)| == |all| <= buff.Length
      invariant all[ptr..] == LowDigits(Abs(v), base)
      invariant forall k :: 0 <= k < ptr ==> buff[k] == all[k]
      invariant forall k :: ptr <= k < buff.Length ==> buff[k] == old(buff[k])
      decreases Abs(v)
    {
      DigitStep(all, ptr, v, base);
      var q := DivideOut(buff, ptr, v, base);
      ptr := ptr + 1;
      v := q;
      if v == 0 {
        break;
      }
    }
    n := ptr;
    Spliced(buff[..], all, old(buff[..]));
  }

  /** A buffer that agrees with `front` on its first cells and with `before` on the rest. */
  lemma Spliced(now: string, front: string, before: string)
    requires |now| == |before| && |front| <= |now|
    requires forall k :: 0 <= k < |front| ==> now[k] == front[k]
    requires forall k :: |front| <= k < |now| ==> now[k] == before[k]
    ensures now == front + before[|front|..]
  {
  }

  /**
   * What one turn of DigitLoop relies on: the digit it writes is the next
   * one of the magnitude's digits, and the quotient holds the rest of them,
   * or none when it is zero.
   */
  lemma DigitStep(all: string, ptr: nat, v: int, base: nat)
    requires ValidBase(base)
    requires ptr + |LowDigits(Abs(v), base)| == |all| && all[ptr..] == LowDigits(Abs(v), base)
    ensures ptr < |all| && all[ptr] == Digit(Abs(v) % base)
    ensures TruncDiv(v, base) == 0 ==> ptr + 1 == |all|
    ensures TruncDiv(v, base) != 0 ==>
      Abs(TruncDiv(v, base)) < Abs(v) &&
      ptr + 1 + |LowDigits(Abs(TruncDiv(v, base)), base)| == |all| &&
      all[ptr + 1..] == LowDigits(Abs(TruncDiv(v, base)), base)
  {
    LowDigitsStep(v, base);
    assert all[ptr] == all[ptr..][0];
    assert all[ptr + 1..] == all[ptr..][1..];
  }

  /** What itoa has in the buffer before the reversal: the magnitude's digits, least significant first, then the sign if one is printed. */
  function SignedLowDigits(v: int, base: nat): (s: string)
    requires ValidBase(base)
  {
    LowDigits(Abs(v), base) + (if v < 0 && base == 10 then "-" else "")
  }

  /** Reversing what itoa wrote gives the signed numeral. */
  lemma SignedLowDigitsReversed(v: int, base: nat)
    requires ValidBase(base)
    ensures Reverse(SignedLowDigits(v, base)) == SignedNumeral(v, base)
    ensures |SignedLowDigits(v, base)| == |SignedNumeral(v, base)|
  {
    LowDigitsReversed(Abs(v), base);
    if v < 0 && base == 10 {
      ReverseSnoc(LowDigits(Abs(v), base), '-');
    } else {
      assert SignedLowDigits(v, base) == LowDigits(Abs(v), base);
    }
  }

  /**
   * RML_COMM_itoa: as utoa, on the magnitude of a signed value, with a
   * '-' written after the digits (so first once reversed) only for a
   * negative value in base 10; the terminator check counts the sign.
   */
  method Itoa(value: i32, buff: array<char>, size: u32, base: u8) returns (r: int)
    requires 1 <= buff.Length && size <= buff.Length
    requires ValidBase(base) ==> |SignedNumeral(value, base)| <= buff.Length
    modifies buff
    ensures !ValidBase(base) ==> r == -1 && buff[..] == old(buff[..])[0 := NUL]
    ensures ValidBase(base) && |SignedNumeral(value, base)| >= size ==>
      r == -1 && buff[..] == (SignedLowDigits(value, base) + old(buff[|SignedNumeral(value, base)|..]))[0 := NUL]
    ensures ValidBase(base) && |SignedNumeral(value, base)| < size ==>
      r == (|SignedNumeral(value, base)| - 1) / 2 &&
      buff[..] == SignedNumeral(value, base) + [NUL] + old(buff[|SignedNumeral(value, base)| + 1..])
  {
    if base < 2 || base > 36 {
      buff[0] := NUL;
      return -1;
    }
    var n := SignedDigits(value, buff, base);
    ghost var written := buff[..];
    r := TerminateAndReverse(buff, n, size);
    SignedLowDigitsReversed(value, base);
    assert written[..n] == SignedLowDigits(value, base);
  }

  /** The digit loop of itoa followed by its sign: the buffer holds SignedLowDigits from its first cell. */
  method SignedDigits(value: i32, buff: array<char>, base: u8) returns (n: nat)
    requires ValidBase(base) && |SignedNumeral(value, base)| <= buff.Length
    modifies buff
    ensures n == |SignedNumeral(value, base)|
    ensures buff[..] == SignedLowDigits(value, base) + old(buff[n..])
  {
    n := DigitLoop(value, buff, base);
    SignedLowDigitsReversed(value, base);
    ghost var digits := buff[..];
    if value < 0 && base == 10 {
      buff[n] := '-';
      Appended(digits, LowDigits(Abs(value), base), old(buff[..]), '-');
      n := n + 1;
    } else {
      assert SignedLowDigits(value, base) == LowDigits(Abs(value), base);
    }
  }

  /** Writing c just after the front part of a spliced buffer extends the front part by c. */
  lemma Appended(now: string, front: string, before: string, c: char)
    requires |now| == |before| && |front| < |now| && now == front + before[|front|..]
    ensures now[|front| := c] == (front + [c]) + before[|front| + 1..]
  {
  }

  /**
   * RML_COMM_ReverseString: swap Str[i] and Str[j] from both ends of the
   * first Length cells inward; the rest of the array is untouched.
   */
  method ReverseString(str: array<char>, length: u32)
    requires 1 <= length as int <= str.Length
    modifies str
    ensures str[..] == Reverse(old(str[..length])) + old(str[length..])
  {
    var i := 0;
    var j := length as int - 1;
    while i < j
      invariant 0 <= i <= j + 1 && i + j == length as int - 1
      invariant forall k :: 0 <= k < i ==> str[k] == old(str[length as int - 1 - k]) && str[length as int - 1 - k] == old(str[k])
      invariant forall k :: i <= k <= j ==> str[k] == old(str[k])
      invariant forall k :: length as int <= k < str.Length ==> str[k] == old(str[k])
    {
      str[i], str[j] := str[j], str[i];
      i := i + 1;
      j := j - 1;
    }
    ReversedPrefix(str[..], old(str[..]), length as int);
  }

  /**
   * One turn of the conversion loops of utoa and itoa: divide by the base
   * as C does (truncating toward zero) and store the digit of the
   * remainder, read from the mirrored table at 35 + remainder.
   */
  method DivideOut(buff: array<char>, ptr: nat, tmp: int, base: u8) returns (q: int)
    requires ValidBase(base) && ptr < buff.Length
    modifies buff
    ensures q == TruncDiv(tmp, base)
    ensures buff[..] == old(buff[..])[ptr := Digit(Abs(tmp) % base)]
  {
    q := TruncDiv(tmp, base);
    TruncDivMagnitude(tmp, base);
    DigitTableMirror(tmp - q * base);
    buff[ptr] := DigitTable[35 + (tmp - q * base)];
  }
}
