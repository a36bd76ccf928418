/** What formats print, said over their text: one directive with its flags, width, precision, length
    modifiers and conversion, and whatever comes behind it. */
module FormatText {
  import opened Arithmetic
  import opened CString
  import opened Format
  import opened NumberText
  import opened Options
  import opened Printer
  import opened Sequences

  // ---------------------------------------------------------------------
  // Flags

  predicate IsFlagChar(c: char) { c == '#' || c == '0' || c == '-' || c == ' ' || c == '+' }

  predicate IsFlags(fs: string) { forall i | 0 <= i < |fs| :: IsFlagChar(fs[i]) }

  lemma FlagCharIff(c: char)
    ensures FlagOf(c).Some? <==> IsFlagChar(c)
  {
  }

  lemma {:induction false} FlagsAppend(fs: string, rest: string)
    requires IsFlags(fs) && (rest == [] || !IsFlagChar(rest[0]))
    ensures FlagCount(fs + rest) == |fs| && FlagsOf(fs + rest) == FlagsOf(fs)
    decreases |fs|
  {
    if fs == [] {
      assert fs + rest == rest;
    } else {
      assert (fs + rest)[1..] == fs[1..] + rest;
      FlagsAppend(fs[1..], rest);
    }
  }

  /** The flags that a text of flag characters sets. */
  lemma {:induction false} FlagsMean(fs: string)
    requires IsFlags(fs)
    ensures Alt in FlagsOf(fs) <==> '#' in fs
    ensures Zero in FlagsOf(fs) <==> '0' in fs
    ensures LeftJustify in FlagsOf(fs) <==> '-' in fs
    ensures SpacePositive in FlagsOf(fs) <==> ' ' in fs
    ensures PlusPositive in FlagsOf(fs) <==> '+' in fs
    decreases |fs|
  {
    if fs != [] {
      FlagsMean(fs[1..]);
      assert fs == [fs[0]] + fs[1..];
    }
  }

  // ---------------------------------------------------------------------
  // The fields of a directive

  /** Digits that an int holds, also while they are read. */
  predicate IsNumeral(s: string) { s != [] && AllDigits(s, 10) && Num(s, 10) + 48 < INT_LIMIT }

  /** A width or precision: not given, written in digits, or taken from an argument. */
  datatype Given = Missing | Digits(text: string) | Star(arg: int)
  {
    function Args(): Args { if Star? then [IntArg(arg)] else [] }
  }

  /** `%`, flags, a width, and a precision; a point alone is a precision without digits. */
  datatype Fields = Fields(flags: string, width: Given, precision: Given)
  {
    predicate Proper() {
      && IsFlags(flags)
      && (match width
          case Missing => true
          case Digits(text) => IsNumeral(text) && text[0] != '0'
          case Star(arg) => -INT_LIMIT <= arg < INT_LIMIT)
      && (match precision
          case Missing => true
          case Digits(text) => text == [] || IsNumeral(text)
          case Star(arg) => -INT_LIMIT <= arg < INT_LIMIT)
    }

    function WidthText(): string {
      match width case Missing => "" case Digits(text) => text case Star(_) => "*"
    }

    function PrecisionText(): string {
      match precision case Missing => "" case Digits(text) => "." + text case Star(_) => ".*"
    }

    function Text(): string { "%" + flags + WidthText() + PrecisionText() }

    function Args(): Args { width.Args() + precision.Args() }

    /** The width, or -1. */
    function Width(): int
      requires Proper()
    {
      match width case Missing => -1 case Digits(text) => Num(text, 10) case Star(arg) => arg
    }

    /** The precision, or -1; 0 for a point alone, and for a negative argument. */
    function Precision(): int
      requires Proper()
    {
      match precision
      case Missing => -1
      case Digits(text) => if text == [] then 0 else Num(text, 10)
      case Star(arg) => if arg < 0 then 0 else arg
    }
  }

  /** The character may follow the fields: it is not taken for a part of them. */
  predicate Follows(c: char) { !IsFlagChar(c) && !('1' <= c <= '9') && c != '*' && c != '.' }

  lemma NumeralReads(ds: string, rest: string, args: Args)
    requires IsNumeral(ds) && (rest == [] || !IsDigit(rest[0], 10))
    ensures Numeral(ds + rest, args) == Some(Field(Num(ds, 10), |ds|, args))
  {
    hide Num, IsDigit;
    assert (ds + rest)[..|ds|] == ds;
    DigitCountUnique(ds + rest, |ds|, 10);
  }

  lemma WidthReads(d: Fields, rest: string, args: Args)
    requires d.Proper() && (rest == [] || rest[0] == '.' || Follows(rest[0]))
    ensures var t := d.WidthText() + rest;
            && Format.Width(t, d.width.Args() + args) == Some(Field(d.Width(), |d.WidthText()|, args))
            && t[|d.WidthText()|..] == rest && (t == [] || !IsFlagChar(t[0]))
  {
    hide Num, Numeral;
    match d.width
    case Missing =>
      assert "" + rest == rest && d.width.Args() + args == args;
    case Digits(text) =>
      assert IsDigit(text[0], 10) && (text + rest)[0] == text[0] && d.width.Args() + args == args;
      assert rest != [] ==> !IsDigit(rest[0], 10);
      NumeralReads(text, rest, args);
    case Star(arg) =>
      assert ([IntArg(arg)] + args)[1..] == args;
  }

  lemma PrecisionReads(d: Fields, rest: string, args: Args)
    requires d.Proper() && (rest == [] || Follows(rest[0]))
    ensures var t := d.PrecisionText() + rest;
            && Format.Precision(t, d.precision.Args() + args) == Some(Field(d.Precision(), |d.PrecisionText()|, args))
            && t[|d.PrecisionText()|..] == rest && (t == [] || t[0] == '.' || Follows(t[0]))
  {
    hide Num, Numeral;
    match d.precision
    case Missing =>
      assert "" + rest == rest && d.precision.Args() + args == args;
    case Digits(text) =>
      var t := "." + text + rest;
      assert t[1..] == text + rest && d.precision.Args() + args == args;
      assert rest != [] ==> !IsDigit(rest[0], 10);
      if text == [] {
        assert rest != [] ==> t[1] == rest[0];
      } else {
        assert IsDigit(text[0], 10) && t[1] == text[0];
        NumeralReads(text, rest, args);
      }
    case Star(arg) =>
      assert (".*" + rest)[1] == '*' && ([IntArg(arg)] + args)[1..] == args;
  }

  // ---------------------------------------------------------------------
  // A directive and what follows it

  predicate IsLength(ls: string) { forall i | 0 <= i < |ls| :: ls[i] == 'l' || ls[i] == 'z' }

  lemma {:induction false} LengthReads(ls: string, rest: string)
    requires IsLength(ls) && (rest == [] || (rest[0] != 'l' && rest[0] != 'z'))
    ensures LengthCount(ls + rest) == |ls| && At(ls + rest, |ls|) == At(rest, 0)
    decreases |ls|
  {
    if ls == [] {
      assert ls + rest == rest;
    } else {
      assert (ls + rest)[1..] == ls[1..] + rest;
      LengthReads(ls[1..], rest);
    }
  }

  /** A conversion character: none that belongs to the fields or to the length. */
  predicate IsConversion(c: char) { Follows(c) && c != 'l' && c != 'z' && c != NUL }

  /** A conversion, or nothing at the end of the format. */
  predicate Ends(cs: string, rest: string) {
    |cs| <= 1 && (if cs == "" then rest == "" else IsConversion(cs[0]))
  }

  /** What a request prints in its directive. */
  function Requested(q: Request, flags: set<Flag>, width: int, precision: int): string {
    if q.conv.Some? then Render(Directive(flags, width, precision, q.conv.value)) else ""
  }

  lemma ConcludeReads(ls: string, cs: string, rest: string, flags: set<Flag>, width: int, precision: int, args: Args)
    requires IsLength(ls) && Ends(cs, rest) && RequestOf(At(cs, 0), ls != [], args).Some?
    ensures var q := RequestOf(At(cs, 0), ls != [], args).value;
            Conclude(ls + cs + rest, flags, width, precision, args)
            == Some(Printed(Requested(q, flags, width, precision), |ls| + |cs|, q.args))
  {
    hide Render, RequestOf;
    assert ls + cs + rest == ls + (cs + rest);
    LengthReads(ls, cs + rest);
  }

  /** A directive prints what its fields, its conversion and its arguments ask for, and the rest of the
      format prints what it does with the arguments that are left. */
  lemma DirectiveReads(d: Fields, ls: string, cs: string, rest: string, args: Args)
    requires d.Proper() && IsLength(ls) && Ends(cs, rest) && RequestOf(At(cs, 0), ls != [], args).Some?
    ensures var q := RequestOf(At(cs, 0), ls != [], args).value;
            Output(d.Text() + ls + cs + rest, d.Args() + args)
            == Prepend(Requested(q, FlagsOf(d.flags), d.Width(), d.Precision()), Output(rest, q.args))
  {
    hide RequestOf, Requested, FlagsOf, Behind;
    var last := ls + cs + rest;
    var t := d.flags + (d.WidthText() + (d.PrecisionText() + last));
    var f := d.Text() + ls + cs + rest;
    BehindReads(d, ls, cs, rest, args);
    Regroup("%", d.flags, d.WidthText(), d.PrecisionText(), last);
    assert f == d.Text() + last;
    assert f[0] == '%' && f[1..] == t;
    var n := |d.flags| + (|d.WidthText()| + |d.PrecisionText()| + (|ls| + |cs|));
    assert t[n..] == rest;
  }

  lemma Regroup(a: string, b: string, c: string, d: string, e: string)
    ensures a + b + c + d + e == a + (b + (c + (d + e)))
  {
  }

  lemma BehindReads(d: Fields, ls: string, cs: string, rest: string, args: Args)
    requires d.Proper() && IsLength(ls) && Ends(cs, rest) && RequestOf(At(cs, 0), ls != [], args).Some?
    ensures var q := RequestOf(At(cs, 0), ls != [], args).value;
            Behind(d.flags + (d.WidthText() + (d.PrecisionText() + (ls + cs + rest))), d.Args() + args)
            == Some(Printed(Requested(q, FlagsOf(d.flags), d.Width(), d.Precision()),
                            |d.flags| + (|d.WidthText()| + |d.PrecisionText()| + (|ls| + |cs|)), q.args))
  {
    hide RequestOf, Requested, FlagsOf, FlagCount, AfterFlags, Ends, IsLength, IsFlagChar, IsNumeral, Num,
         Fields.WidthText, Fields.PrecisionText, Fields.Width, Fields.Precision;
    var u := d.WidthText() + (d.PrecisionText() + (ls + cs + rest));
    FieldsRead(d, FlagsOf(d.flags), ls, cs, rest, args);
    FlagsAppend(d.flags, u);
    assert (d.flags + u)[|d.flags|..] == u;
  }

  lemma FieldsRead(d: Fields, flags: set<Flag>, ls: string, cs: string, rest: string, args: Args)
    requires d.Proper() && IsLength(ls) && Ends(cs, rest) && RequestOf(At(cs, 0), ls != [], args).Some?
    ensures var q := RequestOf(At(cs, 0), ls != [], args).value;
            var u := d.WidthText() + (d.PrecisionText() + (ls + cs + rest));
            && (u == [] || !IsFlagChar(u[0]))
            && AfterFlags(u, flags, d.Args() + args)
               == Some(Printed(Requested(q, flags, d.Width(), d.Precision()),
                               |d.WidthText()| + |d.PrecisionText()| + (|ls| + |cs|), q.args))
  {
    hide RequestOf, Requested, Width, Precision, Conclude, Fields.WidthText, Fields.PrecisionText, Fields.Proper;
    var last := ls + cs + rest;
    LastFollows(ls, cs, rest);
    hide Ends, IsLength, Follows, IsFlagChar;
    PrecisionReads(d, last, args);
    WidthReads(d, d.PrecisionText() + last, d.precision.Args() + args);
    assert d.Args() + args == d.width.Args() + (d.precision.Args() + args);
    ConcludeReads(ls, cs, rest, flags, d.Width(), d.Precision(), args);
  }

  lemma LastFollows(ls: string, cs: string, rest: string)
    requires IsLength(ls) && Ends(cs, rest)
    ensures var last := ls + cs + rest; last == [] || Follows(last[0])
  {
    var last := ls + cs + rest;
    assert last != [] ==> last[0] == if ls == [] then cs[0] else ls[0];
  }

  // ---------------------------------------------------------------------
  // What it prints

  function Positive(n: int): nat { if n > 0 then n else 0 }

  /** A text with blanks up to the width: behind it with the flag `-`, before it otherwise. */
  function Padded(d: Fields, body: string): string
    requires d.Proper()
  {
    var blanks := Repeat(' ', Positive(d.Width() - |body|));
    if '-' in d.flags then body + blanks else blanks + body
  }

  /** The mark and the digits of a number, with zeros between them: up to the precision if there is
      one, and otherwise up to the width with the flag `0`, unless there is the flag `-`. */
  function WithZeros(d: Fields, mark: string, digits: string): string
    requires d.Proper()
  {
    var zeros := if d.precision != Missing then Positive(d.Precision() - |digits|)
                 else if '0' in d.flags && '-' !in d.flags then Positive(d.Width() - |digits| - |mark|)
                 else 0;
    mark + Repeat('0', zeros) + digits
  }

  /** A text cut to the precision. */
  function Cut(d: Fields, text: string): string
    requires d.Proper()
  {
    if d.precision != Missing && d.Precision() < |text| then text[..d.Precision()] else text
  }

  /** The int that counts the blanks does not wrap around: what is printed is at most 2^31 characters
      longer than the width, or at least 2^32. */
  predicate Fits(d: Fields, body: string)
    requires d.Proper()
  {
    |body| <= d.Width() + 0x8000_0000 || |body| >= d.Width() + 0x1_0000_0000
  }

  lemma MissingIsMinusOne(d: Fields)
    requires d.Proper()
    ensures d.precision == Missing <==> d.Precision() < 0
    ensures -INT_LIMIT <= d.Width() < INT_LIMIT && -1 <= d.Precision() < INT_LIMIT
  {
    hide Num;
  }

  lemma RenderBody(dir: Directive, d: Fields, body: string)
    requires d.Proper() && InRange(dir) && dir.flags == FlagsOf(d.flags) && dir.width == d.Width()
    requires Core(dir) == body && Fits(d, body)
    ensures Render(dir) == Padded(d, body)
  {
    FlagsMean(d.flags);
    MissingIsMinusOne(d);
    CoreLength(dir);
    hide FlagsOf, InRange, Data, Prefix, ZeroCount, Repeat, Core, Fields.Width, Fields.Proper;
    BlanksFit(d.Width(), |body|);
  }

  lemma BlanksFit(width: int, length: nat)
    requires -INT_LIMIT <= width < INT_LIMIT && length <= INT_LIMIT + 1
    requires length <= width + INT_LIMIT || length >= width + 2 * INT_LIMIT
    ensures Positive(ToInt(width - length)) == Positive(width - length)
  {
    var x := width - length;
    assert ToInt(x) == if x < -INT_LIMIT then x + 2 * INT_LIMIT else x;
  }

  lemma RenderNumber(d: Fields, conv: Conversion)
    requires d.Proper()
    requires var dir := Directive(FlagsOf(d.flags), d.Width(), d.Precision(), conv);
             InRange(dir) && !conv.Text? && Fits(d, WithZeros(d, Prefix(dir), Data(dir)))
    ensures var dir := Directive(FlagsOf(d.flags), d.Width(), d.Precision(), conv);
            Render(dir) == Padded(d, WithZeros(d, Prefix(dir), Data(dir)))
  {
    var dir := Directive(FlagsOf(d.flags), d.Width(), d.Precision(), conv);
    FlagsMean(d.flags);
    MissingIsMinusOne(d);
    hide FlagsOf, InRange, Data, Prefix, Repeat, Padded, Fields.Width, Fields.Precision, Fields.Proper, Render;
    assert Core(dir) == WithZeros(d, Prefix(dir), Data(dir));
    RenderBody(dir, d, WithZeros(d, Prefix(dir), Data(dir)));
  }

  lemma RenderText(d: Fields, text: string)
    requires d.Proper() && |text| < INT_LIMIT && NUL !in text && Fits(d, Cut(d, text))
    ensures Render(Directive(FlagsOf(d.flags), d.Width(), d.Precision(), Text(text))) == Padded(d, Cut(d, text))
  {
    var dir := Directive(FlagsOf(d.flags), d.Width(), d.Precision(), Text(text));
    MissingIsMinusOne(d);
    hide FlagsOf, Repeat, Padded, Fields.Width, Fields.Precision, Fields.Proper, Render;
    assert Repeat('0', 0) == "";
    assert Core(dir) == Cut(d, text);
    RenderBody(dir, d, Cut(d, text));
  }

  /** The sign of a signed conversion. */
  function Sign(fs: string, v: int): string {
    if v < 0 then "-" else if '+' in fs then "+" else if ' ' in fs then " " else ""
  }

  function Absolute(v: int): nat { if v < 0 then -v else v }

  /** `%d` and `%i`, of an int or with a length of a long. */
  lemma SignedPrints(d: Fields, ls: string, c: char, v: int, rest: string, more: Args)
    requires d.Proper() && IsLength(ls) && (c == 'd' || c == 'i')
    requires if ls == [] then -INT_LIMIT <= v < INT_LIMIT else -HALF <= v < HALF
    requires Fits(d, WithZeros(d, Sign(d.flags, v), DigitsOf(Absolute(v), 10, true)))
    ensures Output(d.Text() + ls + [c] + rest, d.Args() + ([IntArg(v)] + more))
            == Prepend(Padded(d, WithZeros(d, Sign(d.flags, v), DigitsOf(Absolute(v), 10, true))), Output(rest, more))
  {
    hide Output, DigitsOf, Fields.Width, Fields.Precision, Fields.Text, Padded, WithZeros, Render, IsLength;
    assert ([IntArg(v)] + more)[1..] == more;
    DirectiveReads(d, ls, [c], rest, [IntArg(v)] + more);
    FlagsMean(d.flags);
    MissingIsMinusOne(d);
    hide Fields.Proper, FlagsOf;
    RenderNumber(d, Signed(v));
  }

  /** `%u`, of an unsigned int or with a length of an unsigned long: no sign, whatever the flags. */
  lemma UnsignedPrints(d: Fields, ls: string, v: nat, rest: string, more: Args)
    requires d.Proper() && IsLength(ls) && v < (if ls == [] then 2 * INT_LIMIT else WORD)
    requires Fits(d, WithZeros(d, "", DigitsOf(v, 10, true)))
    ensures Output(d.Text() + ls + "u" + rest, d.Args() + ([IntArg(v)] + more))
            == Prepend(Padded(d, WithZeros(d, "", DigitsOf(v, 10, true))), Output(rest, more))
  {
    hide Output, DigitsOf, Fields.Width, Fields.Precision, Fields.Text, Padded, WithZeros, Render, IsLength;
    assert ([IntArg(v)] + more)[1..] == more;
    DirectiveReads(d, ls, "u", rest, [IntArg(v)] + more);
    MissingIsMinusOne(d);
    hide Fields.Proper, FlagsOf;
    RenderNumber(d, Unsigned(v));
  }

  /** `%x` and `%X`, with a mark before numbers other than 0 if there is the flag `#`. */
  lemma HexPrints(d: Fields, ls: string, upper: bool, v: nat, rest: string, more: Args)
    requires d.Proper() && IsLength(ls) && v < (if ls == [] then 2 * INT_LIMIT else WORD)
    requires Fits(d, WithZeros(d, HexMarkOf(d.flags, upper, v), DigitsOf(v, 16, upper)))
    ensures Output(d.Text() + ls + [if upper then 'X' else 'x'] + rest, d.Args() + ([IntArg(v)] + more))
            == Prepend(Padded(d, WithZeros(d, HexMarkOf(d.flags, upper, v), DigitsOf(v, 16, upper))),
                       Output(rest, more))
  {
    hide Output, DigitsOf, Fields.Width, Fields.Precision, Fields.Text, Padded, WithZeros, Render, IsLength;
    assert ([IntArg(v)] + more)[1..] == more;
    DirectiveReads(d, ls, [if upper then 'X' else 'x'], rest, [IntArg(v)] + more);
    FlagsMean(d.flags);
    MissingIsMinusOne(d);
    hide Fields.Proper, FlagsOf;
    RenderNumber(d, Hex(v, upper));
  }

  function HexMarkOf(fs: string, upper: bool, v: nat): string {
    if '#' in fs && v != 0 then (if upper then "0X" else "0x") else ""
  }

  /** `%p` always has its mark. */
  lemma PointerPrints(d: Fields, ls: string, v: nat, rest: string, more: Args)
    requires d.Proper() && IsLength(ls) && v < WORD && Fits(d, WithZeros(d, "0x", DigitsOf(v, 16, false)))
    ensures Output(d.Text() + ls + "p" + rest, d.Args() + ([IntArg(v)] + more))
            == Prepend(Padded(d, WithZeros(d, "0x", DigitsOf(v, 16, false))), Output(rest, more))
  {
    hide Output, DigitsOf, Fields.Width, Fields.Precision, Fields.Text, Padded, WithZeros, Render, IsLength;
    assert ([IntArg(v)] + more)[1..] == more;
    DirectiveReads(d, ls, "p", rest, [IntArg(v)] + more);
    MissingIsMinusOne(d);
    hide Fields.Proper, FlagsOf;
    RenderNumber(d, Pointer(v));
  }

  /** `%s` prints its text, cut to the precision. */
  lemma StringPrints(d: Fields, ls: string, text: string, rest: string, more: Args)
    requires d.Proper() && IsLength(ls) && |text| < INT_LIMIT && NUL !in text && Fits(d, Cut(d, text))
    ensures Output(d.Text() + ls + "s" + rest, d.Args() + ([StringArg(text)] + more))
            == Prepend(Padded(d, Cut(d, text)), Output(rest, more))
  {
    hide Output, Fields.Width, Fields.Precision, Fields.Text, Padded, Cut, Render, IsLength;
    assert ([StringArg(text)] + more)[1..] == more;
    DirectiveReads(d, ls, "s", rest, [StringArg(text)] + more);
    hide Fields.Proper, FlagsOf;
    RenderText(d, text);
  }

  /** `%c` prints one character, or nothing for a NUL. */
  lemma CharPrints(d: Fields, ls: string, v: int, rest: string, more: Args)
    requires d.Proper() && IsLength(ls) && -INT_LIMIT <= v < INT_LIMIT
    requires Fits(d, Cut(d, if v % 256 == 0 then "" else [(v % 256) as char]))
    ensures Output(d.Text() + ls + "c" + rest, d.Args() + ([IntArg(v)] + more))
            == Prepend(Padded(d, Cut(d, if v % 256 == 0 then "" else [(v % 256) as char])), Output(rest, more))
  {
    hide Output, Fields.Width, Fields.Precision, Fields.Text, Padded, Cut, Render, IsLength;
    assert ([IntArg(v)] + more)[1..] == more;
    DirectiveReads(d, ls, "c", rest, [IntArg(v)] + more);
    hide Fields.Proper, FlagsOf;
    RenderText(d, if v % 256 == 0 then "" else [(v % 256) as char]);
  }

  /** `%C` takes a colour and prints nothing. */
  lemma ColourPrints(d: Fields, ls: string, v: int, rest: string, more: Args)
    requires d.Proper() && IsLength(ls) && -INT_LIMIT <= v < INT_LIMIT
    ensures Output(d.Text() + ls + "C" + rest, d.Args() + ([IntArg(v)] + more)) == Output(rest, more)
  {
    hide Output, Fields.Width, Fields.Precision, Fields.Text, Render, IsLength;
    assert ([IntArg(v)] + more)[1..] == more;
    DirectiveReads(d, ls, "C", rest, [IntArg(v)] + more);
    assert Output(rest, more).Some? ==> "" + Output(rest, more).value == Output(rest, more).value;
  }

  predicate TakesArgument(c: char) {
    c == 'd' || c == 'i' || c == 'u' || c == 'x' || c == 'X' || c == 'p' || c == 's' || c == 'c' || c == 'C'
  }

  /** Any other character, as in `%%`, prints itself and takes no argument. At the end of the format
      a `%` stands for itself. */
  lemma OtherPrints(d: Fields, ls: string, cs: string, rest: string, more: Args)
    requires d.Proper() && IsLength(ls) && Ends(cs, rest) && (cs != "" ==> !TakesArgument(cs[0]))
    requires Fits(d, Cut(d, if cs == "" then "%" else cs))
    ensures Output(d.Text() + ls + cs + rest, d.Args() + more)
            == Prepend(Padded(d, Cut(d, if cs == "" then "%" else cs)), Output(rest, more))
  {
    var text := if cs == "" then "%" else cs;
    assert cs != "" ==> cs == [cs[0]];
    assert RequestOf(At(cs, 0), ls != [], more) == Some(Request(Some(Text(text)), more)) && NUL !in text;
    hide Output, RequestOf, Fields.Width, Fields.Precision, Fields.Text, Padded, Cut, Render, IsLength;
    DirectiveReads(d, ls, cs, rest, more);
    hide Fields.Proper, FlagsOf;
    RenderText(d, text);
  }

  /** A text without `%` prints itself. */
  lemma {:induction false} LiteralPrints(t: string, rest: string, args: Args)
    requires '%' !in t
    ensures Output(t + rest, args) == Prepend(t, Output(rest, args)) && Output([], args) == Some([])
    decreases |t|
  {
    hide Behind;
    if t == [] {
      assert t + rest == rest;
      assert Output(rest, args).Some? ==> t + Output(rest, args).value == Output(rest, args).value;
    } else {
      assert (t + rest)[1..] == t[1..] + rest && t[0] in t;
      LiteralPrints(t[1..], rest, args);
      if Output(rest, args).Some? {
        assert [t[0]] + (t[1..] + Output(rest, args).value) == t + Output(rest, args).value;
      }
    }
  }

  /** What a long conversion asks for. */
  function LongConversion(c: char, v: int): Option<Conversion> {
    if c == 'd' then (if -HALF <= v < HALF then Some(Signed(v)) else None)
    else if !(0 <= v < WORD) then None
    else if c == 'u' then Some(Unsigned(v))
    else if c == 'x' || c == 'X' then Some(Hex(v, c == 'X'))
    else None
  }

  /** The text of one long directive prints what the directive with those fields does. */
  lemma LongPrints(d: Fields, c: char, v: int)
    requires d.Proper() && LongConversion(c, v).Some?
    ensures var dir := Directive(FlagsOf(d.flags), d.Width(), d.Precision(), LongConversion(c, v).value);
            InRange(dir) && Output(d.Text() + ['l', c], d.Args() + [IntArg(v)]) == Some(Render(dir))
  {
    hide Output, Fields.Width, Fields.Precision, Fields.Text, Render, FlagsOf;
    var dir := Directive(FlagsOf(d.flags), d.Width(), d.Precision(), LongConversion(c, v).value);
    MissingIsMinusOne(d);
    assert [IntArg(v)][1..] == [];
    DirectiveReads(d, "l", [c], "", [IntArg(v)]);
    assert d.Text() + "l" + [c] + "" == d.Text() + ['l', c];
    EmptyPrints();
    assert Render(dir) + [] == Render(dir);
  }

  lemma EmptyPrints()
    ensures Output("", []) == Some([])
  {
  }

  // ---------------------------------------------------------------------
  // Flag by flag

  /** A directive without flags, width and precision, but for those given. */
  function Just(flags: string, width: string): Fields {
    Fields(flags, if width == "" then Missing else Digits(width), Missing)
  }

  lemma JustText(d: Fields, ls: string, cs: string, args: Args)
    requires d.width.Missing? || d.width.Digits?
    requires d.precision.Missing? || d.precision.Digits?
    ensures d.Args() + args == args && d.Text() + ls + cs + "" == d.Text() + ls + cs
    ensures args + [] == args
  {
  }

  lemma PlainRest(text: string)
    ensures Prepend(text, Output("", [])) == Some(text)
  {
    assert text + [] == text;
  }

  /** `%`, flags, a width, and `lu`. */
  lemma JustUnsigned(fs: string, ws: string, v: nat)
    requires IsFlags(fs) && (ws == "" || (IsNumeral(ws) && ws[0] != '0')) && v < WORD
    requires var d := Just(fs, ws); Fits(d, WithZeros(d, "", DigitsOf(v, 10, true)))
    ensures var d := Just(fs, ws);
            Output("%" + fs + ws + "lu", [IntArg(v)]) == Some(Padded(d, WithZeros(d, "", DigitsOf(v, 10, true))))
  {
    hide Output, DigitsOf, Padded, WithZeros, IsNumeral, IsFlags, Num;
    var d := Just(fs, ws);
    UnsignedPrints(d, "l", v, "", []);
    JustText(d, "l", "u", [IntArg(v)]);
    PlainRest(Padded(d, WithZeros(d, "", DigitsOf(v, 10, true))));
    assert d.Text() + "l" + "u" == "%" + fs + ws + "lu";
  }

  lemma JustSigned(fs: string, v: int)
    requires IsFlags(fs) && -HALF <= v < HALF && '0' !in fs && '-' !in fs
    ensures Output("%" + fs + "l" + "d", [IntArg(v)]) == Some(Sign(fs, v) + DigitsOf(Absolute(v), 10, true))
  {
    NumberFits(Directive({}, -1, -1, Signed(v)));
    hide Output, DigitsOf, IsFlags, Sign;
    var d := Just(fs, "");
    var digits := DigitsOf(Absolute(v), 10, true);
    BareNumber(d, Sign(fs, v), digits);
    MarksAreShort(fs, true, v);
    hide Padded, WithZeros, Just;
    SignedPrints(d, "l", 'd', v, "", []);
    JustLongText(fs, "d", v);
    PlainRest(Sign(fs, v) + digits);
  }

  lemma JustHex(fs: string, upper: bool, v: nat)
    requires IsFlags(fs) && v < WORD && '0' !in fs && '-' !in fs
    ensures Output("%" + fs + "l" + [if upper then 'X' else 'x'], [IntArg(v)])
            == Some(HexMarkOf(fs, upper, v) + DigitsOf(v, 16, upper))
  {
    NumberFits(Directive({}, -1, -1, Hex(v, upper)));
    hide Output, DigitsOf, IsFlags, HexMarkOf;
    var d := Just(fs, "");
    BareNumber(d, HexMarkOf(fs, upper, v), DigitsOf(v, 16, upper));
    MarksAreShort(fs, upper, v);
    hide Padded, WithZeros, Just;
    HexPrints(d, "l", upper, v, "", []);
    JustLongText(fs, [if upper then 'X' else 'x'], v);
    PlainRest(HexMarkOf(fs, upper, v) + DigitsOf(v, 16, upper));
  }

  lemma JustLongText(fs: string, cs: string, v: int)
    ensures var d := Just(fs, "");
            && d.Args() + ([IntArg(v)] + []) == [IntArg(v)] && d.Text() + "l" + cs + "" == "%" + fs + "l" + cs
  {
  }

  lemma MarksAreShort(fs: string, upper: bool, v: int)
    ensures |Sign(fs, v)| <= 2 && (v >= 0 ==> |HexMarkOf(fs, upper, v)| <= 2)
  {
  }

  /** Without a width, a precision and flags about them nothing is added. */
  lemma BareNumber(d: Fields, mark: string, digits: string)
    requires d.Proper() && d.width == Missing && d.precision == Missing && '0' !in d.flags && '-' !in d.flags
    ensures WithZeros(d, mark, digits) == mark + digits && Padded(d, mark + digits) == mark + digits
  {
    assert Repeat('0', 0) == "" && Repeat(' ', 0) == "";
    assert mark + "" + digits == mark + digits && "" + (mark + digits) == mark + digits;
  }

  /** What a width leaves free, filled as a flag says. */
  function Filled(fs: string, gap: nat, digits: string): string {
    if fs == "0" then Repeat('0', gap) + digits
    else if fs == "-" then digits + Repeat(' ', gap)
    else Repeat(' ', gap) + digits
  }

  /** A width w, and no more digits than that: `%w` puts blanks before them, `%0w` zeros, and `%-w`
      blanks behind. */
  lemma WidthFlags(ws: string, w: nat, v: nat)
    requires IsNumeral(ws) && ws[0] != '0' && w == Num(ws, 10) && v < WORD && |DigitsOf(v, 10, true)| <= w
    ensures var digits := DigitsOf(v, 10, true);
            && Output("%" + ws + "lu", [IntArg(v)]) == Some(Repeat(' ', w - |digits|) + digits)
            && Output("%0" + ws + "lu", [IntArg(v)]) == Some(Repeat('0', w - |digits|) + digits)
            && Output("%-" + ws + "lu", [IntArg(v)]) == Some(digits + Repeat(' ', w - |digits|))
  {
    hide DigitsOf, Num, Output, IsNumeral, Repeat;
    FlagTexts();
    WidthFlag("", ws, w, v);
    WidthFlag("0", ws, w, v);
    WidthFlag("-", ws, w, v);
  }

  lemma WidthFlag(fs: string, ws: string, w: nat, v: nat)
    requires (fs == "" || fs == "0" || fs == "-") && IsNumeral(ws) && ws[0] != '0' && w == Num(ws, 10)
    requires v < WORD && |DigitsOf(v, 10, true)| <= w
    ensures var digits := DigitsOf(v, 10, true);
            Output("%" + fs + ws + "lu", [IntArg(v)]) == Some(Filled(fs, w - |digits|, digits))
  {
    hide DigitsOf, Num, Output, IsNumeral, Repeat, Padded, WithZeros, Just, Fits, Filled, Fields.Proper, IsFlags;
    WidthLayout(fs, ws, w, DigitsOf(v, 10, true));
    JustUnsigned(fs, ws, v);
  }

  lemma WidthLayout(fs: string, ws: string, w: nat, digits: string)
    requires (fs == "" || fs == "0" || fs == "-") && IsNumeral(ws) && ws[0] != '0' && w == Num(ws, 10)
    requires |digits| <= w
    ensures var d := Just(fs, ws);
            && IsFlags(fs) && d.Proper() && Fits(d, WithZeros(d, "", digits))
            && Padded(d, WithZeros(d, "", digits)) == Filled(fs, w - |digits|, digits)
  {
    NumeralNotEmpty(ws);
    var d := Just(fs, ws);
    assert d.Proper() && d.Width() == w && d.precision == Missing && d.flags == fs;
    hide Repeat, Num, IsNumeral, Fields.Width, Fields.Proper, Just, Padded, WithZeros;
    if fs == "0" {
      ZerosLayout(d, digits);
    } else {
      BlanksLayout(d, digits);
    }
  }

  lemma EmptyFront(a: string, b: string)
    ensures "" + a + b == a + b && "" + "" + b == b && "" + (a + b) == a + b
  {
  }

  lemma NoBlanks(d: Fields, body: string)
    requires d.Proper() && d.Width() <= |body|
    ensures Padded(d, body) == body
  {
    assert Repeat(' ', 0) == "";
    hide Repeat, Fields.Width, Fields.Proper;
    EmptyFront(body, "");
  }

  lemma ZerosLayout(d: Fields, digits: string)
    requires d.Proper() && d.precision == Missing && d.Width() >= |digits| && '0' in d.flags && '-' !in d.flags
    ensures var zeros := Repeat('0', d.Width() - |digits|);
            WithZeros(d, "", digits) == zeros + digits && Padded(d, zeros + digits) == zeros + digits
  {
    var zeros := Repeat('0', d.Width() - |digits|);
    hide Repeat, Fields.Width, Fields.Proper;
    EmptyFront(zeros, digits);
    NoBlanks(d, zeros + digits);
  }

  lemma BlanksLayout(d: Fields, digits: string)
    requires d.Proper() && d.precision == Missing && d.Width() >= |digits| && '0' !in d.flags
    ensures var blanks := Repeat(' ', d.Width() - |digits|);
            && WithZeros(d, "", digits) == digits
            && Padded(d, digits) == if '-' in d.flags then digits + blanks else blanks + digits
  {
    assert Repeat('0', 0) == "";
    hide Repeat, Fields.Width, Fields.Proper;
    EmptyFront("", digits);
  }

  lemma FlagTexts()
    ensures "%" + "" == "%" && "%" + "0" == "%0" && "%" + "-" == "%-"
    ensures "%" + "" + "l" + "d" == "%ld" && "%" + "+" + "l" + "d" == "%+ld" && "%" + " " + "l" + "d" == "% ld"
    ensures "%" + "" + "l" + ['X'] == "%lX" && "%" + "#" + "l" + ['X'] == "%#lX"
    ensures "%" + "" + "l" + ['x'] == "%lx" && "%" + "#" + "l" + ['x'] == "%#lx"
  {
  }

  /** `%+` and `% ` put a plus or a blank before a number that is not negative; `-` comes anyway. */
  lemma SignFlags(v: int)
    requires -HALF <= v < HALF
    ensures var digits := DigitsOf(Absolute(v), 10, true);
            && Output("%ld", [IntArg(v)]) == Some((if v < 0 then "-" else "") + digits)
            && Output("%+ld", [IntArg(v)]) == Some((if v < 0 then "-" else "+") + digits)
            && Output("% ld", [IntArg(v)]) == Some((if v < 0 then "-" else " ") + digits)
  {
    hide DigitsOf, Output;
    FlagTexts();
    JustSigned("", v);
    JustSigned("+", v);
    JustSigned(" ", v);
  }

  /** `%#` puts the mark of base 16 before a number other than 0. */
  lemma AltFlag(v: nat)
    requires v < WORD
    ensures Output("%lX", [IntArg(v)]) == Some(DigitsOf(v, 16, true))
    ensures Output("%lx", [IntArg(v)]) == Some(DigitsOf(v, 16, false))
    ensures Output("%#lX", [IntArg(v)]) == Some((if v == 0 then "" else "0X") + DigitsOf(v, 16, true))
    ensures Output("%#lx", [IntArg(v)]) == Some((if v == 0 then "" else "0x") + DigitsOf(v, 16, false))
  {
    hide DigitsOf, Output;
    FlagTexts();
    JustHex("", true, v);
    JustHex("#", true, v);
    JustHex("", false, v);
    JustHex("#", false, v);
    assert "" + DigitsOf(v, 16, true) == DigitsOf(v, 16, true) && "" + DigitsOf(v, 16, false) == DigitsOf(v, 16, false);
  }

  lemma JustString(d: Fields, text: string)
    requires d.Proper() && d.flags == "" && d.width == Missing && !d.precision.Star?
    requires |text| < INT_LIMIT && NUL !in text
    ensures Output(d.Text() + "s", [StringArg(text)]) == Some(Cut(d, text))
  {
    assert Repeat(' ', 0) == "";
    assert "" + Cut(d, text) == Cut(d, text);
    assert d.Args() == [];
    hide Output, Num, Fields.Text, Fields.Proper, Cut, IsNumeral, Repeat;
    StringPrints(d, "", text, "", []);
    JustText(d, "", "s", [StringArg(text)]);
    PlainRest(Cut(d, text));
    assert d.Text() + "" + "s" == d.Text() + "s";
  }

  lemma StringTexts(ps: string)
    requires IsNumeral(ps)
    ensures var d := Fields("", Missing, Missing); d.Proper() && d.Text() + "s" == "%s"
    ensures var d := Fields("", Missing, Digits(ps)); d.Proper() && d.Text() + "s" == "%." + ps + "s"
  {
    hide Num;
    assert "%" + "" + "" + "" + "s" == "%s";
    assert "%" + "" + "" + ("." + ps) + "s" == "%." + ps + "s";
  }

  /** `%s` prints its argument, and `%.ks` the first k characters of it. */
  lemma StringFlags(ps: string, text: string)
    requires IsNumeral(ps) && |text| < INT_LIMIT && NUL !in text
    ensures Output("%s", [StringArg(text)]) == Some(text)
    ensures Output("%." + ps + "s", [StringArg(text)])
            == Some(if Num(ps, 10) < |text| then text[..Num(ps, 10)] else text)
  {
    hide Num, Output, IsNumeral, Fields.Text, Fields.Proper;
    StringTexts(ps);
    NumeralNotEmpty(ps);
    JustString(Fields("", Missing, Missing), text);
    JustString(Fields("", Missing, Digits(ps)), text);
  }

  lemma NumeralNotEmpty(ps: string)
    requires IsNumeral(ps)
    ensures ps != []
  {
  }
}
