# Remal_CommonUtils formatted output, modelled in Dafny

This project models the formatted-output engine of Remal_CommonUtils
(`src/Remal_CommonUtils.cpp`), the logging helper of Remal's embedded
projects. It covers four parts:

- **Integer converters.** `RML_COMM_utoa` and `RML_COMM_itoa` write a base-2..36 numeral into a caller
  buffer. A do-while loop divides by the base and writes one digit per turn through a mirrored 71-character table.
  A size check follows, then a two-pointer reversal in place. `RML_COMM_ReverseString` is the same swap loop over a prefix of
  an array.
- **Format scanner.** `RML_COMM_vprintf` walks a format string, copies ordinary characters, and handles the
  specifiers `%s %c %u %d %i %x %X %f %.1f`–`%.6f` and `%%`, taking one argument per conversion.
  Anything else is echoed. `RML_COMM_printf` is a wrapper around it.
- **Float text.** `RML_COMM_ftoa` prints the truncated whole part, then the digits of the fraction, one
  multiplication by ten at a time.
- **Logger state.** The `Logger_InitDone` flag and the five-slot `LogLevelsEnable` table gate the output.
  `RML_COMM_LogLevelSet` updates the table, and `RML_COMM_LogMsg` prints a `> [LEVEL] source: message` line.

How the C is represented:

- The sink that every routine writes to is a character sequence, `Logger.out`, that only grows.
- A `va_list` is a sequence of tagged arguments, `Format.Arg`, consumed in order.
- Caller buffers are `array<char>`. The enable table is an `array<u8>` field of the `Logger` class.

What each file holds:

- `cstrings.dfy`: C strings (the text before the first NUL) and sequence reversal.
- `numerals.dfy`: the digit alphabet, the mirrored table, canonical numerals and their reparse, and C's truncating
  division.
- `convert.dfy`: utoa, itoa and ReverseString, written as imperative methods over arrays.
- `fixed.dfy`: the text of ftoa, on exact real numbers.
- `format.dfy`: the meaning of a format string and the scanner loop proved against it.
  - `Parse` cuts a format string into directives.
  - `Render` is what they print; `ArgKinds` is the argument types they take.
  - `FormatScan` is the vprintf loop, with the `switch` in `ScanDirective`.
- `logger.dfy`: the `Logger` class.

A format string is read as a C string: reading at or past its end yields NUL. The source instead steps over the
terminator in two cases: a `%.` that ends the string, and a `%.N` that ends it without the final character. The
model's end check stops the scan there instead.

Arguments that do not match the format string are undefined behaviour in C. The methods require that the arguments
fit (`Format.Fits`).

## Model

| member | source | states |
|---|---|---|
| CStrings.CStringOfTerminated | src/Remal_CommonUtils.cpp:395-400 | a terminated buffer, printed with `%s`, sends exactly the text before its terminator |
| Numerals.DigitTableMirror | src/Remal_CommonUtils.cpp:543 | the lookup string has 71 characters, and position 35 + r holds the digit of abs(r) for every remainder r from -35 to 35 |
| Numerals.NumeralRoundTrip | src/Remal_CommonUtils.cpp:536-544 | reading the numeral back in the same base gives the value |
| Numerals.NumeralWellFormed | src/Remal_CommonUtils.cpp:536-544 | the numeral is non-empty, uses only digits below the base from 0-9A-Z (upper case) and has no leading zero; it starts with '0' exactly when the value is 0, and then it is "0"; it holds no NUL and no '-' |
| Numerals.NumeralOfValue | src/Remal_CommonUtils.cpp:536-544 | every well-formed digit string is the numeral of its value, so each value has exactly one text |
| Numerals.NumeralFits | src/Remal_CommonUtils.cpp:366 | a 32-bit value has at most 32 digits in any base, 10 in decimal and 8 in hexadecimal, so vprintf's 20-character buffer always holds the text |
| Numerals.LowDigitsReversed | src/Remal_CommonUtils.cpp:536-563 | the digits in the order the loop writes them, least significant first, reverse to the numeral |
| Numerals.TruncDiv | src/Remal_CommonUtils.cpp:594-597 | C's `/` on a signed value; no ensures of its own, its meaning (quotient toward zero, remainder with the dividend's sign) is stated by Numerals.TruncDivMagnitude |
| Numerals.LowDigitsStep | src/Remal_CommonUtils.cpp:593-598 | one turn of the loop with truncating division writes the last digit of the magnitude, keeps the sign, and shrinks a nonzero quotient |
| Numerals.TruncDivMagnitude | src/Remal_CommonUtils.cpp:594-597 | C division of a negative value divides the magnitude and keeps the sign; the remainder lies strictly between -base and base and its magnitude is abs(value) mod base |
| Convert.DivideOut | src/Remal_CommonUtils.cpp:593-597 | one turn stores, at the pointer and nowhere else, the digit of the remainder's magnitude read from the table, and yields the truncated quotient |
| Convert.DigitLoop | src/Remal_CommonUtils.cpp:590-598 | the do-while loop leaves the digits of abs(value), least significant first, at the start of the buffer, even for the most negative int32; the rest is untouched, and the count is the numeral's length |
| Convert.SignedNumeral | src/Remal_CommonUtils.cpp:588-605 | the text itoa leaves in the buffer: '-' for a negative base-10 value, then the magnitude's numeral; no ensures of its own, its properties are Convert.SignedNumeralRoundTrip and Convert.SignedLowDigitsReversed |
| Convert.SignedNumeralRoundTrip | src/Remal_CommonUtils.cpp:588-605 | itoa's text starts with '-' exactly for a negative value in base 10, and then reads back as the value; in other bases it reads back as the magnitude, so the sign is lost |
| Convert.SignedDigits | src/Remal_CommonUtils.cpp:590-605 | itoa's loop then appends '-' only for a negative value in base 10 |
| Convert.SignedLowDigitsReversed | src/Remal_CommonUtils.cpp:600-624 | reversing what itoa wrote puts the sign first, then the numeral of the magnitude |
| Convert.SwapToMiddle | src/Remal_CommonUtils.cpp:557-563 | the two-pointer loop reverses the first n cells, leaves the rest, and stops the right pointer at (n - 1) / 2 |
| Convert.TerminateAndReverse | src/Remal_CommonUtils.cpp:546-566 | when n reaches the size it returns -1 with only the first cell cleared; otherwise it terminates, reverses the n characters and returns (n - 1) / 2 |
| Convert.Utoa | src/Remal_CommonUtils.cpp:520-567 | a base outside 2..36 gives -1 and a cleared first cell; a numeral not shorter than the size gives -1 with the digits written and the first cell cleared; otherwise the numeral is followed by NUL and the return value is (n - 1) / 2, not n |
| Convert.Itoa | src/Remal_CommonUtils.cpp:572-628 | the same for the signed text: '-' only for a negative value in base 10, the bare magnitude in other bases, the sign counted in the size check |
| Convert.UtoaReturnExample | src/Remal_CommonUtils.cpp:565-566 | as written, utoa of 255 in base 16 writes "FF" (length 2) and returns (2 - 1) / 2 = 0; for every text of length n >= 1 the value returned, (n - 1) / 2, is below n |
| Convert.UtoaLength | src/Remal_CommonUtils.h:352-353 | utoa with the return value its interface promises: the same buffer outcomes, and on success it returns the length of the C string left in the buffer, which is the numeral |
| Convert.ItoaLength | src/Remal_CommonUtils.h:380-381 | the same for itoa: on success the buffer reads as the signed text and the return value is its length |
| Convert.ReverseString | src/Remal_CommonUtils.cpp:633-643 | for a length of at least 1, the first Length cells are reversed and no other cell changes |
| Fixed.Trunc | src/Remal_CommonUtils.cpp:650 | the cast to an integer truncates toward zero |
| Fixed.TruncNegate | src/Remal_CommonUtils.cpp:650 | the cast commutes with negation: the truncation of -z is minus the truncation of z |
| Fixed.FractionDigits | src/Remal_CommonUtils.cpp:701-715 | the fraction loop writes exactly Afterpoint digits |
| Fixed.FractionDigitsValue | src/Remal_CommonUtils.cpp:701-715 | for a fraction f in [0, 1), the digits read as a number are f * 10^places truncated, not rounded |
| Fixed.FtoaText | src/Remal_CommonUtils.cpp:648-729 | the text ftoa writes, on exact reals; no ensures of its own, its properties are Fixed.FtoaSign, Fixed.FtoaShape, Fixed.FtoaFraction, Fixed.FtoaBetweenMinusOneAndZero and Fixed.FractionDigitsValue |
| Fixed.FtoaSign | src/Remal_CommonUtils.cpp:650-682 | the text is never empty, and it starts with '-' exactly when the value is at most -1 |
| Fixed.FtoaShape | src/Remal_CommonUtils.cpp:648-729 | a value of at least 0 or at most -1 prints as its sign, the decimal numeral of its whole part and, for places > 0, a point and exactly `places` decimal digits; for 0 places there is no point and no fraction |
| Fixed.FtoaFraction | src/Remal_CommonUtils.cpp:688-715 | after the whole part comes '.', and the digits after it are the magnitude's fractional part shifted by `places` and truncated |
| Fixed.FractionDigitsNegate | src/Remal_CommonUtils.cpp:701-715 | run on -f, the fraction loop writes each character as far below '0' as the loop on f writes it above |
| Fixed.FtoaNoWhole | src/Remal_CommonUtils.cpp:650-688 | a value strictly between -1 and 1 truncates to 0 and prints as "0", then, for places > 0, the point and the fraction loop's digits of the value itself |
| Fixed.FtoaBetweenMinusOneAndZero | src/Remal_CommonUtils.cpp:650-715 | every value strictly between -1 and 0 has whole part 0 and prints with no sign: "0", then, for places > 0, '.' and `places` characters; each of them lies as far below '0' as the matching digit of the magnitude's text lies above it, so none exceeds '0' |
| Fixed.FtoaSmallNegative | src/Remal_CommonUtils.cpp:650-661 | two instances: -0.5 to two places prints "0.+0", while -1.25 prints "-1.25" |
| Fixed.FtoaZeroPlaces | src/Remal_CommonUtils.cpp:687-688 | as written, an Afterpoint of 0 prints the whole part alone: 1.5 prints "1", and no text with 0 places has a point |
| Fixed.FtoaDefaultedPlaces | src/Remal_CommonUtils.h:418-419 | with Afterpoint 0 standing for 2, as the interface describes, the text of a value of at least 0 or at most -1 always has a point after the whole part, followed by 2 (for Afterpoint 0) or Afterpoint decimal digits; for Afterpoint > 0 it is the text the code prints |
| Format.Specifier | src/Remal_CommonUtils.cpp:378-506 | every branch of the switch moves the cursor forward by at least one character |
| Format.ParseEnd | src/Remal_CommonUtils.cpp:371 | the scan stops at the terminator |
| Format.ParseNext | src/Remal_CommonUtils.cpp:371-514 | otherwise the scan handles the directive at the cursor and carries on right after it |
| Format.LiteralPrefix | src/Remal_CommonUtils.cpp:509-513 | text without '%' or NUL is printed as it is, each character once, and takes no argument |
| Format.ConversionPrefix | src/Remal_CommonUtils.cpp:381-424 | each of %s %c %u %d %i %x %X %f takes exactly the next argument and prints its conversion (%x and %X both upper-case base 16; %u base 10; %d/%i the signed decimal; %f two places), and the rest of the string continues with the next argument |
| Format.PrecisionPrefix | src/Remal_CommonUtils.cpp:427-477 | "%.N" with N from 1 to 6 takes one double, prints it to N places and skips N and the character after it |
| Format.EchoPrefix | src/Remal_CommonUtils.cpp:412-415 | "%%" prints '%'; "%." then a character outside 1-6 prints only that character (lines 481-484); '%' then any unknown character prints both (lines 501-505); none of them takes an argument |
| Format.TrailingPercent | src/Remal_CommonUtils.cpp:497-498 | a '%' at the end of the string prints nothing and ends the scan |
| Format.RenderEmpty | src/Remal_CommonUtils.cpp:371 | an empty format string prints nothing and takes nothing |
| Format.HexExample | src/Remal_CommonUtils.cpp:418-424 | 255 prints as "FF" under both %x and %X |
| Format.PrecisionOutOfRangeExample | src/Remal_CommonUtils.cpp:481-484 | "%.7f" prints "7f" and takes no argument |
| Format.PrintLaterArgs | src/Remal_CommonUtils.cpp:381-494 | arguments are pulled strictly in order: what remains of the string never reads an argument already taken |
| Format.UnreadArgs | src/Remal_CommonUtils.cpp:381-494 | the output depends only on the arguments the directives take |
| Format.ExtraArgsIgnored | src/Remal_CommonUtils.cpp:381-494 | arguments beyond those the format string takes are never read |
| Format.UnsignedText | src/Remal_CommonUtils.cpp:395-400 | utoa into the 20-character buffer, printed as a C string, sends the numeral of the value in base 10 or 16 |
| Format.SignedText | src/Remal_CommonUtils.cpp:403-409 | itoa in base 10 into the buffer, printed, sends the signed decimal numeral |
| Format.ScanDirective | src/Remal_CommonUtils.cpp:373-513 | one pass of the loop body prints the text of the directive at the cursor, moves past it, and takes as many arguments as it uses |
| Format.FormatScan | src/Remal_CommonUtils.cpp:362-514 | the whole loop prints exactly what the format string means (Render) and takes exactly the arguments it lists (ArgKinds) |
| Logging.Sanitize | src/Remal_CommonUtils.cpp:297-300 | the stored value is 0 or 1, and 0 exactly when Enable is 0 |
| Logging.LabelIdentifiesLevel | src/Remal_CommonUtils.cpp:110-117 | two levels with the same label in a log line are the same level, or both unknown |
| Logging.SetDecidesLevel | src/Remal_CommonUtils.cpp:288-330 | after initialisation, setting a known level decides whether it is printed (any nonzero Enable turns it on, 0 off) and leaves every other level as it was |
| Logging.GateFacts | src/Remal_CommonUtils.cpp:180-244 | nothing is printed before initialisation; after it, an unknown level is always printed |
| Logging.LogLine | src/Remal_CommonUtils.cpp:252-279 | the line LogMsg sends: "> [", the level's label, "] ", the source name, ": ", the message and CR LF; no ensures of its own, its shape is Logging.LogLineShape and Logging.LineSegments |
| Logging.LogLineShape | src/Remal_CommonUtils.cpp:252-279 | a log line starts with "> [" and the level's label, and ends with CR LF |
| Logging.LineSegments | src/Remal_CommonUtils.cpp:252-279 | the segments LogMsg sends one after another form the log line |
| Logging.Logger.constructor | src/Remal_CommonUtils.cpp:97-104 | at start-up the logger is not initialised, all five levels are enabled and nothing has been printed |
| Logging.Logger.LoggerInit | src/Remal_CommonUtils.cpp:124-172 | a baud rate of 0 or above 115200 returns -1 and changes nothing; otherwise the logger is initialised and 0 returned; the table stays five 0/1 slots |
| Logging.Logger.LogLevelSet | src/Remal_CommonUtils.cpp:288-330 | before initialisation it returns -1 and changes nothing; for levels 0-4 it stores min(Enable, 1) in that slot only and returns 0; for any other level it returns -1 with the table unchanged; the table stays 0/1-valued |
| Logging.Logger.Vprintf | src/Remal_CommonUtils.cpp:354-360 | before initialisation nothing is printed; afterwards the sink grows by exactly the formatted text; the table stays five 0/1 slots |
| Logging.Logger.Printf | src/Remal_CommonUtils.cpp:335-349 | the same as vprintf, through the wrapper, keeping the table's invariant |
| Logging.Logger.LogMsg | src/Remal_CommonUtils.cpp:177-284 | the sink grows by the log line exactly when the logger is initialised and the level is unknown or enabled, and by nothing otherwise; the table stays five 0/1 slots |

## Findings

| source | as written | input that shows it | evidently intended | confidence | as-written member | corrected member |
|---|---|---|---|---|---|---|
| src/Remal_CommonUtils.cpp:565-566 | utoa (and itoa, at lines 626-627) returns `ptr - ResultBuff` after the reversal loop, which is (n - 1) / 2 for a text of n characters | `RML_COMM_utoa(255, buf, 20, 16)` writes "FF" and returns 0 | the length of the resulting string, as the comment above the return and the interface (src/Remal_CommonUtils.h:352-353, 380-381) say | high, not executed | Convert.UtoaReturnExample | Convert.UtoaLength |
| src/Remal_CommonUtils.cpp:687-688 | an Afterpoint of 0 prints no point and no fraction | `RML_COMM_ftoa(1.5, buf, 20, 0)` writes "1" | two places, as the interface says (src/Remal_CommonUtils.h:418-419) | medium (the interface comment may be the stale half), not executed | Fixed.FtoaZeroPlaces | Fixed.FtoaDefaultedPlaces |

vprintf discards the value utoa and itoa return, so the model's `%u`, `%x` and `%d` go through `Convert.UtoaLength` and
`Convert.ItoaLength`, whose buffers are exactly those of the code. vprintf never passes an Afterpoint of 0 (`%f` is
two places, `%.N` is 1 to 6), and for every other Afterpoint `Fixed.FtoaTextDefaulted` is the code's text, so `%f`
prints `Fixed.FtoaText`.

## Left out

- Per-MCU output plumbing (`Serial.printf`, `HAL_UART_Transmit`, `printf`), `Serial.begin` and the mutex creation in
  `RML_COMM_LoggerInit`: every write is an append to `Logger.out`. The UART pins and the MCU detection are not modelled.
- The ESP32 spinlock around a log message: it exists only for concurrency, which the model does not have.
- The ANSI colour strings: colour support is compiled out (`ENABLE_COLOR_SUPPORT` is 0), so every colour string and
  the reset string are empty, and the model sends nothing for them.
- `_RML_COMM_Assert` and the `RML_ASSERT`/`BASENAME` macros: a deliberate infinite loop, outside the output engine.
- Fixed.FtoaText: computed on exact real numbers, not IEEE doubles. The repeated `FractionalPart *= 10` rounding of a
  double is not captured.
- Fixed.FtoaText: does not model ftoa's buffer checks. These are the early returns at lines 666-674, 690-698 and
  705-713, the '-' that is silently dropped when the buffer is full (line 678), the write at index BuffSize on the decimal-point overflow path (line 697), and the final check (lines
  719-728), which returns i rather than -1. In vprintf the 20-character buffer never reaches them for values whose
  whole part fits in an int32.
- Fixed.FtoaText: does not model the int32 cast of a value outside the int32 range, nor negating INT32_MIN
  (undefined in C).
- Format.FormatScan: requires arguments that match the format string, because a mismatched or missing argument is
  undefined behaviour in C. `Format.Show` prints nothing for such an argument only so that `Render` is total.
- Format.FormatScan: reads past the end of the string as NUL. In the source, a `%.` that ends the string, or a `%.N`
  whose final character is missing, moves the cursor past the terminator. The model stops there instead.
- Format.Specifier: its own contract states only that every case moves the cursor on. What each case prints and
  takes is stated by Format.ConversionPrefix, Format.PrecisionPrefix, Format.EchoPrefix and Format.TrailingPercent.
- Convert.Utoa and Convert.Itoa: require a buffer long enough for all the digits. The source writes every digit
  before it checks the size, so a shorter buffer overflows.
- Convert.ReverseString: requires Length >= 1. A Length of 0 wraps `j` to 2^32 - 1 and reads outside the array.
