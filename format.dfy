/**
 * The format-string scanner of RML_COMM_vprintf. A format string is read
 * as a C string: reading at or beyond its end yields NUL, as reading a
 * terminator would. The scanner copies ordinary characters and, at '%',
 * looks at the next character:
 *   s, c, u, d/i, x/X, f   take one argument from the argument list;
 *   .1 to .6               take a double and skip the digit and the
 *                          character after it (the 'f');
 *   . then anything else   print that character;
 *   %                      print '%';
 *   NUL                    stop;
 *   anything else          print '%' and the character.
 * The argument list is a sequence of tagged values consumed in order.
 */
module Format {
  import opened CStrings
  import opened Numerals
  import opened Convert
  import opened Fixed

  /** One value passed through the variable argument list. */
  datatype Arg =
    | Str(s: seq<char>)      // char *: the buffer it points to
    | Char(c: char)          // int promoted from char
    | Unsigned(u: u32)       // uint32_t
    | Signed(i: i32)         // int32_t
    | Double(x: real)        // double

  /** The type an argument has, and the type a conversion takes with va_arg. */
  datatype Kind = StrKind | CharKind | UnsignedKind | SignedKind | DoubleKind

  function KindOf(a: Arg): Kind
  {
    match a
    case Str(_) => StrKind
    case Char(_) => CharKind
    case Unsigned(_) => UnsignedKind
    case Signed(_) => SignedKind
    case Double(_) => DoubleKind
  }

  /** What a conversion prints its argument as. */
  datatype Conversion =
    | Text                    // %s
    | OneChar                 // %c
    | Decimal                 // %u
    | Hex                     // %x and %X
    | SignedDecimal           // %d and %i
    | FixedPoint(places: nat) // %f (two places) and %.1f to %.6f

  /**
   * One step of the scanner: print `text`, or print a conversion of the
   * next argument; either way move `width` characters on.
   */
  datatype Directive = Emit(text: string, width: nat) | Take(conv: Conversion, width: nat)

  /** The character at i, or NUL at and beyond the end. */
  function At(fmt: string, i: int): char
  {
    if 0 <= i < |fmt| then fmt[i] else NUL
  }

  /** The directive that starts at i (a character other than NUL). */
  function DirectiveAt(fmt: string, i: nat): (d: Directive)
    ensures d.width >= 1
  {
    if At(fmt, i) != '%' then Emit([At(fmt, i)], 1) else Specifier(At(fmt, i + 1), At(fmt, i + 2))
  }

  /** The switch on the character c after '%'; p is the character after c. */
  function Specifier(c: char, p: char): (d: Directive)
    ensures d.width >= 1
  {
    if c == 's' then Take(Text, 2)
    else if c == 'c' then Take(OneChar, 2)
    else if c == 'u' then Take(Decimal, 2)
    else if c == 'i' || c == 'd' then Take(SignedDecimal, 2)
    else if c == '%' then Emit("%", 2)
    else if c == 'X' || c == 'x' then Take(Hex, 2)
    else if c == '.' then
      if '1' <= p <= '6' then Take(FixedPoint(p as int - '0' as int), 4)
      else Emit([p], 3)
    else if c == 'f' then Take(FixedPoint(2), 2)
    else if c == NUL then Emit("", 1)
    else Emit(['%', c], 2)
  }

  function Needs(c: Conversion): Kind
  {
    match c
    case Text => StrKind
    case OneChar => CharKind
    case Decimal => UnsignedKind
    case Hex => UnsignedKind
    case SignedDecimal => SignedKind
    case FixedPoint(_) => DoubleKind
  }

  /** The text a conversion prints for an argument of the type it takes. */
  function ConversionText(c: Conversion, a: Arg): string
    requires KindOf(a) == Needs(c)
  {
    match c
    case Text => CString(a.s)
    case OneChar => [a.c]
    case Decimal => Numeral(a.u, 10)
    case Hex => Numeral(a.u, 16)
    case SignedDecimal => SignedNumeral(a.i, 10)
    case FixedPoint(places) => FtoaText(a.x, places)
  }

  /** How many arguments a directive takes: one for a conversion, none otherwise. */
  function Uses(d: Directive): nat
  {
    if d.Take? then 1 else 0
  }

  /** The types of the arguments a directive takes. */
  function Kinds(d: Directive): seq<Kind>
  {
    if d.Take? then [Needs(d.conv)] else []
  }

  /** The format string from position n on (empty once n is past the end). */
  function Drop(fmt: string, n: nat): (r: string)
    ensures |r| == if n <= |fmt| then |fmt| - n else 0
  {
    if n <= |fmt| then fmt[n..] else []
  }

  lemma DropAt(fmt: string, n: nat, t: nat)
    ensures At(Drop(fmt, n), t) == At(fmt, n + t)
  {
  }

  /** The directives the scanner meets, in order: the first one and those after it. */
  datatype Directives = Done | Then(first: Directive, rest: Directives)

  /** The directives of a format string, up to the first NUL. */
  function Parse(fmt: string): Directives
    decreases |fmt|
  {
    if At(fmt, 0) == NUL then Done
    else
      var d := DirectiveAt(fmt, 0);
      Then(d, Parse(Drop(fmt, d.width)))
  }

  /** The argument types the directives take, in order. */
  function KindsOf(ds: Directives): seq<Kind>
  {
    match ds
    case Done => []
    case Then(d, rest) => Kinds(d) + KindsOf(rest)
  }

  /** What the directives print, with argument k next. */
  function Print(ds: Directives, args: seq<Arg>, k: nat): string
  {
    match ds
    case Done => []
    case Then(d, rest) => Piece(d, args, k) + Print(rest, args, k + Uses(d))
  }

  /** The types of the arguments a format string takes, in order. */
  function ArgKinds(fmt: string): seq<Kind>
  {
    KindsOf(Parse(fmt))
  }

  /** Everything vprintf prints for a format string and its arguments. */
  function Render(fmt: string, args: seq<Arg>): string
  {
    Print(Parse(fmt), args, 0)
  }

  /** The arguments supply (at least) the values of the given types, in order. */
  predicate Fits(kinds: seq<Kind>, args: seq<Arg>)
  {
    |kinds| <= |args| && forall j :: 0 <= j < |kinds| ==> KindOf(args[j]) == kinds[j]
  }

  /**
   * The text of the k-th argument under conversion c. C leaves a missing
   * or ill-typed argument undefined; this model prints nothing for it,
   * and its methods require arguments that fit (see Fits).
   */
  function Show(c: Conversion, args: seq<Arg>, k: nat): string
  {
    if k < |args| && KindOf(args[k]) == Needs(c) then ConversionText(c, args[k]) else []
  }

  /** What a directive prints, with argument k next. */
  function Piece(d: Directive, args: seq<Arg>, k: nat): string
  {
    match d
    case Emit(t, _) => t
    case Take(c, _) => Show(c, args, k)
  }

  /** The scanner stops at the terminator. */
  lemma ParseEnd(fmt: string, i: nat)
    requires At(fmt, i) == NUL
    ensures Parse(Drop(fmt, i)) == Done
  {
    DropAt(fmt, i, 0);
  }

  /** Otherwise it handles the directive at i and carries on from i + its width. */
  lemma ParseNext(fmt: string, i: nat, next: nat)
    requires At(fmt, i) != NUL && next == i + DirectiveAt(fmt, i).width
    ensures Parse(Drop(fmt, i)) == Then(DirectiveAt(fmt, i), Parse(Drop(fmt, next)))
  {
    var s := Drop(fmt, i);
    var d := DirectiveAt(fmt, i);
    DropAt(fmt, i, 0);
    assert DirectiveAt(s, 0) == d by {
      DropAt(fmt, i, 1);
      DropAt(fmt, i, 2);
    }
    assert Drop(s, d.width) == Drop(fmt, next);
  }

  /** A directive that spans all of pre is followed by the directives of what comes after. */
  lemma ParseLeading(pre: string, fmt: string)
    requires At(pre + fmt, 0) != NUL && DirectiveAt(pre + fmt, 0).width == |pre|
    ensures Parse(pre + fmt) == Then(DirectiveAt(pre + fmt, 0), Parse(fmt))
  {
    assert Drop(pre + fmt, |pre|) == fmt;
  }

  /** A leading conversion takes the first argument; the rest of the string starts at the second. */
  lemma TakePrefix(pre: string, fmt: string, c: Conversion, a: Arg, args: seq<Arg>)
    requires Parse(pre + fmt) == Then(Take(c, |pre|), Parse(fmt)) && KindOf(a) == Needs(c)
    ensures ArgKinds(pre + fmt) == [Needs(c)] + ArgKinds(fmt)
    ensures Render(pre + fmt, [a] + args) == ConversionText(c, a) + Render(fmt, args)
  {
    assert ([a] + args)[0] == a;
    PrintLaterArgs(Parse(fmt), a, args, 0);
  }

  /** A leading directive that takes no argument prints its text before the rest. */
  lemma EmitPrefix(pre: string, fmt: string, t: string, args: seq<Arg>)
    requires Parse(pre + fmt) == Then(Emit(t, |pre|), Parse(fmt))
    ensures ArgKinds(pre + fmt) == ArgKinds(fmt)
    ensures Render(pre + fmt, args) == t + Render(fmt, args)
  {
    assert [] + ArgKinds(fmt) == ArgKinds(fmt);
  }

  lemma AppendAssoc<T>(a: seq<T>, b: seq<T>, c: seq<T>)
    ensures (a + b) + c == a + (b + c)
  {
  }

  /** Arguments before the k-th are never read: dropping one leading argument shifts k by one. */
  lemma {:induction false} PrintLaterArgs(ds: Directives, a: Arg, args: seq<Arg>, k: nat)
    ensures Print(ds, [a] + args, k + 1) == Print(ds, args, k)
  {
    match ds
    case Done =>
    case Then(d, rest) =>
      if d.Take? && k < |args| {
        assert ([a] + args)[k + 1] == args[k];
      }
      PrintLaterArgs(rest, a, args, k + Uses(d));
  }

  /** What is printed depends only on the arguments the directives take. */
  lemma {:induction false} UnreadArgs(ds: Directives, a: seq<Arg>, b: seq<Arg>, k: nat)
    requires k + |KindsOf(ds)| <= |a| && k + |KindsOf(ds)| <= |b|
    requires a[k..k + |KindsOf(ds)|] == b[k..k + |KindsOf(ds)|]
    ensures Print(ds, a, k) == Print(ds, b, k)
  {
    match ds
    case Done =>
    case Then(d, rest) =>
      var m := |KindsOf(ds)|;
      assert m == Uses(d) + |KindsOf(rest)|;
      if d.Take? {
        assert a[k] == a[k..k + m][0] && b[k] == b[k..k + m][0];
        assert a[k + 1..k + m] == a[k..k + m][1..];
        assert b[k + 1..k + m] == b[k..k + m][1..];
      }
      UnreadArgs(rest, a, b, k + Uses(d));
  }

  /** Arguments beyond those the format string takes are never read. */
  lemma ExtraArgsIgnored(fmt: string, args: seq<Arg>)
    requires |ArgKinds(fmt)| <= |args|
    ensures Render(fmt, args) == Render(fmt, args[..|ArgKinds(fmt)|])
  {
    var m := |ArgKinds(fmt)|;
    assert args[..m][0..m] == args[0..m];
    UnreadArgs(Parse(fmt), args, args[..m], 0);
  }

  /**
   * Ordinary characters are copied to the sink one by one and take no
   * argument: text without '%' or NUL in front of a format string is
   * printed as it is.
   */
  lemma {:induction false} LiteralPrefix(lit: string, fmt: string, args: seq<Arg>)
    requires forall c :: c in lit ==> c != '%' && c != NUL
    ensures ArgKinds(lit + fmt) == ArgKinds(fmt)
    ensures Render(lit + fmt, args) == lit + Render(fmt, args)
    decreases |lit|
  {
    if lit != [] {
      var c, tail := lit[0], lit[1..];
      var g := tail + fmt;
      assert c in lit;
      assert forall x :: x in tail ==> x in lit;
      assert lit + fmt == [c] + g;
      LiteralParse(c, g);
      EmitPrefix([c], g, [c], args);
      LiteralPrefix(tail, fmt, args);
      AppendAssoc([c], tail, Render(fmt, args));
      assert [c] + tail == lit;
    } else {
      assert lit + fmt == fmt;
    }
  }

  lemma LiteralParse(c: char, fmt: string)
    requires c != '%' && c != NUL
    ensures Parse([c] + fmt) == Then(Emit([c], 1), Parse(fmt))
  {
    assert DirectiveAt([c] + fmt, 0) == Emit([c], 1);
    ParseLeading([c], fmt);
  }

  /** The conversion a specifier character taking one argument selects ('.' aside). */
  function ConversionOf(c: char): Conversion
    requires c in "scuidxXf"
  {
    Specifier(c, NUL).conv
  }

  /**
   * "%s", "%c", "%u", "%d", "%i", "%x", "%X" and "%f" each take exactly the
   * next argument and print its conversion: %u and %x/%X the unsigned
   * numeral in base 10 and 16 (upper case either way), %d/%i the signed
   * decimal, %f the value to two places.
   */
  lemma ConversionPrefix(c: char, fmt: string, a: Arg, args: seq<Arg>)
    requires c in "scuidxXf" && KindOf(a) == Needs(ConversionOf(c))
    ensures ArgKinds(['%', c] + fmt) == [KindOf(a)] + ArgKinds(fmt)
    ensures Render(['%', c] + fmt, [a] + args) == ConversionText(ConversionOf(c), a) + Render(fmt, args)
  {
    ConversionParse(c, fmt);
    TakePrefix(['%', c], fmt, ConversionOf(c), a, args);
  }

  lemma ConversionParse(c: char, fmt: string)
    requires c in "scuidxXf"
    ensures Parse(['%', c] + fmt) == Then(Take(ConversionOf(c), 2), Parse(fmt))
  {
    assert DirectiveAt(['%', c] + fmt, 0) == Take(ConversionOf(c), 2);
    ParseLeading(['%', c], fmt);
  }

  /**
   * "%.N" with N from 1 to 6 takes the next argument as a double, prints
   * it to N places and skips N and the character after it (the 'f').
   */
  lemma PrecisionPrefix(n: char, f: char, fmt: string, x: real, args: seq<Arg>)
    requires '1' <= n <= '6'
    ensures ArgKinds(['%', '.', n, f] + fmt) == [DoubleKind] + ArgKinds(fmt)
    ensures Render(['%', '.', n, f] + fmt, [Double(x)] + args) ==
      FtoaText(x, n as int - '0' as int) + Render(fmt, args)
  {
    PrecisionParse(n, f, fmt);
    TakePrefix(['%', '.', n, f], fmt, FixedPoint(n as int - '0' as int), Double(x), args);
  }

  lemma PrecisionParse(n: char, f: char, fmt: string)
    requires '1' <= n <= '6'
    ensures Parse(['%', '.', n, f] + fmt) == Then(Take(FixedPoint(n as int - '0' as int), 4), Parse(fmt))
  {
    assert DirectiveAt(['%', '.', n, f] + fmt, 0) == Take(FixedPoint(n as int - '0' as int), 4);
    ParseLeading(['%', '.', n, f], fmt);
  }

  /**
   * Specifiers that take no argument: "%%" prints '%'; "%." followed by
   * anything but 1 to 6 prints only that character; '%' followed by any
   * other character prints both.
   */
  lemma EchoPrefix(c: char, p: char, fmt: string, args: seq<Arg>)
    requires c != NUL && c !in "scuidxXf"
    requires c == '.' ==> !('1' <= p <= '6')
    ensures var pre := if c == '.' then ['%', c, p] else ['%', c];
      ArgKinds(pre + fmt) == ArgKinds(fmt) &&
      Render(pre + fmt, args) == (if c == '%' then "%" else if c == '.' then [p] else ['%', c]) + Render(fmt, args)
  {
    EchoParse(c, p, fmt);
    var pre := if c == '.' then ['%', c, p] else ['%', c];
    var t := if c == '%' then "%" else if c == '.' then [p] else ['%', c];
    EmitPrefix(pre, fmt, t, args);
  }

  lemma EchoParse(c: char, p: char, fmt: string)
    requires c != NUL && c !in "scuidxXf"
    requires c == '.' ==> !('1' <= p <= '6')
    ensures var pre := if c == '.' then ['%', c, p] else ['%', c];
      var t := if c == '%' then "%" else if c == '.' then [p] else ['%', c];
      Parse(pre + fmt) == Then(Emit(t, |pre|), Parse(fmt))
  {
    var pre := if c == '.' then ['%', c, p] else ['%', c];
    var t := if c == '%' then "%" else if c == '.' then [p] else ['%', c];
    assert DirectiveAt(pre + fmt, 0) == Emit(t, |pre|);
    ParseLeading(pre, fmt);
  }

  /** A '%' that ends the format string prints nothing and ends the scan. */
  lemma TrailingPercent(lit: string, args: seq<Arg>)
    requires forall c :: c in lit ==> c != '%' && c != NUL
    ensures ArgKinds(lit + "%") == []
    ensures Render(lit + "%", args) == lit
  {
    LiteralPrefix(lit, "%", args);
    assert Drop("%", 1) == [];
    assert Parse("%") == Then(Emit("", 1), Done);
    assert Print(Done, args, 0) == [];
    assert Print(Then(Emit("", 1), Done), args, 0) == "" + [];
    assert Render("%", args) == "" + [];
    assert lit + ("" + []) == lit;
  }

  /** The empty format string prints nothing and takes nothing. */
  lemma RenderEmpty(args: seq<Arg>)
    ensures ArgKinds("") == [] && Render("", args) == []
  {
    ParseEnd("", 0);
    assert Drop("", 0) == "";
  }

  /** "%x" and "%X" both print upper-case hexadecimal: 255 prints as "FF". */
  lemma HexExample()
    ensures Render("%x", [Unsigned(255)]) == "FF" && Render("%X", [Unsigned(255)]) == "FF"
  {
    RenderEmpty([]);
    assert Numeral(255, 16) == "FF";
    ConversionPrefix('x', "", Unsigned(255), []);
    ConversionPrefix('X', "", Unsigned(255), []);
    assert ['%', 'x'] + "" == "%x" && ['%', 'X'] + "" == "%X";
    assert [Unsigned(255)] + [] == [Unsigned(255)];
  }

  /** "%.7f" is not a precision: it prints "7f" and takes no argument. */
  lemma PrecisionOutOfRangeExample(args: seq<Arg>)
    ensures ArgKinds("%.7f") == [] && Render("%.7f", args) == "7f"
  {
    RenderEmpty(args);
    LiteralPrefix("f", "", args);
    EchoPrefix('.', '7', "f", args);
    assert ['%', '.', '7'] + "f" == "%.7f";
    assert "f" + "" == "f";
  }

  /**
   * RML_COMM_utoa into the scanner's 20-character buffer, then the C
   * string it holds: any 32-bit value fits, so this is its numeral. The
   * value returned is not read.
   */
  method UnsignedText(u: u32, base: u8, intStr: array<char>) returns (t: string)
    requires base == 10 || base == 16
    requires intStr.Length == 20
    modifies intStr
    ensures t == Numeral(u, base)
  {
    NumeralFits(u, base);
    var _ := UtoaLength(u, intStr, 20, base);
    t := CString(intStr[..]);
  }

  /** RML_COMM_itoa in base 10 into the scanner's buffer, then the C string it holds; the value returned is not read. */
  method SignedText(v: i32, intStr: array<char>) returns (t: string)
    requires intStr.Length == 20
    modifies intStr
    ensures t == SignedNumeral(v, 10)
  {
    NumeralFits(Abs(v), 10);
    var _ := ItoaLength(v, intStr, 20, 10);
    t := CString(intStr[..]);
  }

  /**
   * RML_COMM_vprintf's loop: walk the format string, printing literal
   * characters and conversions, pulling one argument per conversion.
   * Returns the text sent to the sink and how many arguments were used.
   */
  method FormatScan(fmt: string, args: seq<Arg>) returns (text: string, used: nat)
    requires Fits(ArgKinds(fmt), args)
    ensures text == Render(fmt, args)
    ensures used == |ArgKinds(fmt)|
  {
    var intStr := new char[20];
    var i := 0;
    used := 0;
    text := [];
    ScanStart(fmt, args);
    while At(fmt, i) != NUL
      invariant Scanned(fmt, args, i, used, text)
      decreases |fmt| - i
    {
      ScanFits(fmt, args, i, used, text);
      var piece, next, nextUsed := ScanDirective(fmt, args, i, used, intStr);
      ScanNext(fmt, args, i, used, text, piece, next, nextUsed);
      text := text + piece;
      i, used := next, nextUsed;
    }
    ScanEnd(fmt, args, i, used, text);
  }

  /**
   * The scanner's loop invariant: `text` has been printed, the scan is at
   * position i with `used` arguments taken, and what the rest of the
   * string prints and takes completes the whole.
   */
  ghost predicate Scanned(fmt: string, args: seq<Arg>, i: nat, used: nat, text: string)
  {
    Remaining(ArgKinds(fmt), args, used, text, Render(fmt, args), Parse(Drop(fmt, i)))
  }

  lemma ScanStart(fmt: string, args: seq<Arg>)
    requires Fits(ArgKinds(fmt), args)
    ensures Scanned(fmt, args, 0, 0, [])
  {
    assert Drop(fmt, 0) == fmt;
    assert ArgKinds(fmt)[0..] == ArgKinds(fmt) && args[0..] == args;
  }

  /** The argument the directive at i takes is there, of the type it needs. */
  lemma ScanFits(fmt: string, args: seq<Arg>, i: nat, used: nat, text: string)
    requires Scanned(fmt, args, i, used, text) && At(fmt, i) != NUL
    ensures Fits(Kinds(DirectiveAt(fmt, i)), args[used..])
  {
    var next := i + DirectiveAt(fmt, i).width;
    ParseNext(fmt, i, next);
    FitsHead(ArgKinds(fmt), args, used, DirectiveAt(fmt, i), Parse(Drop(fmt, next)));
  }

  /** One turn of the loop, handling the directive at i, keeps the invariant. */
  lemma ScanNext(fmt: string, args: seq<Arg>, i: nat, used: nat, text: string,
                 piece: string, next: nat, nextUsed: nat)
    requires Scanned(fmt, args, i, used, text) && At(fmt, i) != NUL
    requires next == i + DirectiveAt(fmt, i).width
    requires nextUsed == used + Uses(DirectiveAt(fmt, i))
    requires piece == Piece(DirectiveAt(fmt, i), args, used)
    ensures Scanned(fmt, args, next, nextUsed, text + piece)
  {
    ParseNext(fmt, i, next);
    Step(ArgKinds(fmt), args, used, text, Render(fmt, args), Parse(Drop(fmt, i)),
         DirectiveAt(fmt, i), Parse(Drop(fmt, next)), piece, nextUsed);
  }

  /** The types still to be taken, the arguments still to be read, and the text still to be printed. */
  ghost predicate Remaining(all: seq<Kind>, args: seq<Arg>, used: nat, text: string, total: string, rest: Directives)
  {
    used <= |all| && KindsOf(rest) == all[used..] &&
    used <= |args| && Fits(all[used..], args[used..]) &&
    text + Print(rest, args, used) == total
  }

  /** The first of the remaining directives finds its arguments. */
  lemma FitsHead(all: seq<Kind>, args: seq<Arg>, used: nat, d: Directive, after: Directives)
    requires used <= |all| && KindsOf(Then(d, after)) == all[used..]
    requires used <= |args| && Fits(all[used..], args[used..])
    ensures Fits(Kinds(d), args[used..])
  {
    forall j | 0 <= j < |Kinds(d)|
      ensures KindOf(args[used..][j]) == Kinds(d)[j]
    {
      assert all[used..][j] == Kinds(d)[j];
    }
  }

  /** Handling the first of the remaining directives leaves the others remaining. */
  lemma Step(all: seq<Kind>, args: seq<Arg>, used: nat, text: string, total: string,
             rest: Directives, d: Directive, after: Directives, piece: string, nextUsed: nat)
    requires Remaining(all, args, used, text, total, rest) && rest == Then(d, after)
    requires piece == Piece(d, args, used) && nextUsed == used + Uses(d)
    ensures Remaining(all, args, nextUsed, text + piece, total, after)
  {
    var n := Uses(d);
    assert |Kinds(d)| == n;
    assert all[used + n..] == all[used..][n..];
    FitsDrop(all[used..], args[used..], n);
    assert args[used..][n..] == args[used + n..];
    AppendAssoc(text, Piece(d, args, used), Print(after, args, used + n));
  }

  /** At the terminator the loop has printed everything and taken every argument. */
  lemma ScanEnd(fmt: string, args: seq<Arg>, i: nat, used: nat, text: string)
    requires Scanned(fmt, args, i, used, text) && At(fmt, i) == NUL
    ensures text == Render(fmt, args) && used == |ArgKinds(fmt)|
  {
    ParseEnd(fmt, i);
    assert text + [] == text;
  }

  /** Dropping the first n types and the first n arguments keeps them in step. */
  lemma FitsDrop(kinds: seq<Kind>, args: seq<Arg>, n: nat)
    requires Fits(kinds, args) && n <= |kinds|
    ensures Fits(kinds[n..], args[n..])
  {
    forall j | 0 <= j < |kinds| - n
      ensures KindOf(args[n..][j]) == kinds[n..][j]
    {
      assert args[n..][j] == args[n + j];
    }
  }

  /**
   * One pass of the loop body: the switch on the character after '%', or
   * the copy of an ordinary character. Its output and the new positions
   * are those of the directive at i.
   */
  method ScanDirective(fmt: string, args: seq<Arg>, i: nat, used: nat, intStr: array<char>)
    returns (piece: string, next: nat, nextUsed: nat)
    requires At(fmt, i) != NUL && used <= |args| && Fits(Kinds(DirectiveAt(fmt, i)), args[used..])
    requires intStr.Length == 20
    modifies intStr
    ensures next == i + DirectiveAt(fmt, i).width
    ensures nextUsed == used + Uses(DirectiveAt(fmt, i))
    ensures piece == Piece(DirectiveAt(fmt, i), args, used)
  {
    if fmt[i] != '%' {
      return [fmt[i]], i + 1, used;
    }
    var c := At(fmt, i + 1);
    nextUsed := used + 1;
    next := i + 2;
    if c == 's' {
      piece := CString(args[used].s);
    } else if c == 'c' {
      piece := [args[used].c];
    } else if c == 'u' {
      piece := UnsignedText(args[used].u, 10, intStr);
    } else if c == 'i' || c == 'd' {
      piece := SignedText(args[used].i, intStr);
    } else if c == '%' {
      piece, nextUsed := "%", used;
    } else if c == 'X' || c == 'x' {
      piece := UnsignedText(args[used].u, 16, intStr);
    } else if c == '.' {
      var p := At(fmt, i + 2);
      if '1' <= p <= '6' {
        piece := FtoaText(args[used].x, p as int - '0' as int);
        next := i + 4;
      } else {
        piece, next, nextUsed := [p], i + 3, used;
      }
    } else if c == 'f' {
      piece := FtoaText(args[used].x, 2);
    } else if c == NUL {
      piece, next, nextUsed := "", i + 1, used;
    } else {
      piece, nextUsed := ['%', c], used;
    }
  }
}
