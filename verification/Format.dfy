/** The text of a format: what printer_vprintf makes of it and of its arguments, and vsnprintf. */
module Format {
  import Arithmetic
  import opened CString
  import opened NumberText
  import opened Options
  import opened Printer

  /** A variadic argument: an integer of the type that its directive reads, or a string. */
  datatype Arg = IntArg(v: int) | StringArg(text: string)

  type Args = seq<Arg>

  // ---------------------------------------------------------------------
  // The grammar of formats. A result of None stands for a format that reads an argument that is not
  // there or is of another type, or for a width or precision that leaves an int.

  function FlagOf(c: char): Option<Flag> {
    if c == '#' then Some(Alt)
    else if c == '0' then Some(Zero)
    else if c == '-' then Some(LeftJustify)
    else if c == ' ' then Some(SpacePositive)
    else if c == '+' then Some(PlusPositive)
    else None
  }

  /** How many flag characters a text starts with, and the flags they set. */
  function FlagCount(t: string): (n: nat)
    ensures n <= |t| && (n < |t| ==> FlagOf(t[n]).None?)
  {
    if t == [] || FlagOf(t[0]).None? then 0 else 1 + FlagCount(t[1..])
  }

  function FlagsOf(t: string): set<Flag> {
    if t == [] || FlagOf(t[0]).None? then {} else {FlagOf(t[0]).value} + FlagsOf(t[1..])
  }

  /** The next argument, as an integer from `low` to below `high`. */
  function Integer(args: Args, low: int, high: int): Option<int> {
    if args != [] && args[0].IntArg? && low <= args[0].v < high then Some(args[0].v) else None
  }

  /** A width or precision: its value, its length, and the arguments it leaves. */
  datatype Field = Field(value: int, length: nat, args: Args)

  /** The number in front of `t`; the int that is read into must hold it with a digit's code added. */
  function Numeral(t: string, args: Args): (r: Option<Field>)
    ensures r.Some? ==> r.value.length <= |t| && 0 <= r.value.value < INT_LIMIT
  {
    var n := DigitCount(t, 10);
    var v := Num(t[..n], 10);
    if v + 48 < INT_LIMIT then Some(Field(v, n, args)) else None
  }

  function Width(t: string, args: Args): (r: Option<Field>)
    ensures r.Some? ==> r.value.length <= |t| && -INT_LIMIT <= r.value.value < INT_LIMIT
  {
    if '1' <= At(t, 0) <= '9' then Numeral(t, args)
    else if At(t, 0) == '*' then
      match Integer(args, -INT_LIMIT, INT_LIMIT)
      case Some(v) => Some(Field(v, 1, args[1..]))
      case None => None
    else Some(Field(-1, 0, args))
  }

  function Precision(t: string, args: Args): (r: Option<Field>)
    ensures r.Some? ==> r.value.length <= |t| && -1 <= r.value.value < INT_LIMIT
  {
    if At(t, 0) != '.' then Some(Field(-1, 0, args))
    else if |t| > 1 && '0' <= t[1] <= '9' then
      match Numeral(t[1..], args)
      case Some(f) => Some(Field(f.value, f.length + 1, f.args))
      case None => None
    else if |t| > 1 && t[1] == '*' then
      match Integer(args, -INT_LIMIT, INT_LIMIT)
      case Some(v) => Some(Field(if v < 0 then 0 else v, 2, args[1..]))
      case None => None
    else Some(Field(0, 1, args))
  }

  function LengthCount(t: string): (n: nat)
    ensures n <= |t|
  {
    if t == [] || (t[0] != 'l' && t[0] != 'z') then 0 else 1 + LengthCount(t[1..])
  }

  function CharText(c: char): string { if c == NUL then "" else [c] }

  /** What a conversion character asks for, and the arguments it leaves; a colour prints nothing. */
  datatype Request = Request(conv: Option<Conversion>, args: Args)

  function RequestOf(c: char, long: bool, args: Args): Option<Request> {
    if c == 'd' || c == 'i' then
      match Integer(args, if long then -HALF else -INT_LIMIT, if long then HALF else INT_LIMIT)
      case Some(v) => Some(Request(Some(Signed(v)), args[1..]))
      case None => None
    else if c == 'u' || c == 'x' || c == 'X' || c == 'p' then
      match Integer(args, 0, if long || c == 'p' then Arithmetic.WORD else 2 * INT_LIMIT)
      case Some(v) =>
        var conv := if c == 'u' then Unsigned(v) else if c == 'p' then Pointer(v) else Hex(v, c == 'X');
        Some(Request(Some(conv), args[1..]))
      case None => None
    else if c == 's' then
      if args != [] && args[0].StringArg? && |args[0].text| < INT_LIMIT && NUL !in args[0].text
      then Some(Request(Some(Text(args[0].text)), args[1..]))
      else None
    else if c == 'C' || c == 'c' then
      match Integer(args, -INT_LIMIT, INT_LIMIT)
      case Some(v) => Some(Request(if c == 'C' then None else Some(Text(CharText((v % 256) as char))), args[1..]))
      case None => None
    else Some(Request(Some(Text([if c == NUL then '%' else c])), args))
  }

  /** The text of a directive, how long it is behind its '%', and the arguments it leaves. */
  datatype Printed = Printed(text: string, length: nat, args: Args)

  /** The end of a directive, from its length modifiers on. */
  function Conclude(t: string, flags: set<Flag>, width: int, precision: int, args: Args): (r: Option<Printed>)
    ensures r.Some? ==> r.value.length <= |t|
  {
    var n := LengthCount(t);
    match RequestOf(At(t, n), n > 0, args)
    case None => None
    case Some(q) =>
      var text := if q.conv.Some? then Render(Directive(flags, width, precision, q.conv.value)) else "";
      Some(Printed(text, if n == |t| then n else n + 1, q.args))
  }

  /** A directive whose flags have been read. */
  function AfterFlags(t: string, flags: set<Flag>, args: Args): (r: Option<Printed>)
    ensures r.Some? ==> r.value.length <= |t|
  {
    match Width(t, args)
    case None => None
    case Some(w) =>
      match Precision(t[w.length..], w.args)
      case None => None
      case Some(p) =>
        match Conclude(t[w.length..][p.length..], flags, w.value, p.value, p.args)
        case None => None
        case Some(d) => Some(Printed(d.text, w.length + p.length + d.length, d.args))
  }

  /** A directive behind its '%'. */
  function Behind(t: string, args: Args): (r: Option<Printed>)
    ensures r.Some? ==> r.value.length <= |t|
  {
    var n := FlagCount(t);
    match AfterFlags(t[n..], FlagsOf(t), args)
    case None => None
    case Some(d) => Some(Printed(d.text, n + d.length, d.args))
  }

  function Prepend(text: string, rest: Option<string>): Option<string> {
    if rest.Some? then Some(text + rest.value) else None
  }

  /** Everything that a format prints. */
  function Output(t: string, args: Args): Option<string>
    decreases |t|
  {
    if t == [] then Some([])
    else if t[0] != '%' then Prepend([t[0]], Output(t[1..], args))
    else
      match Behind(t[1..], args)
      case None => None
      case Some(d) => Prepend(d.text, Output(t[1..][d.length..], d.args))
  }

  /** The arguments suit the format: each directive finds one of the type that it reads, and no width
      or precision leaves an int. */
  predicate Suits(format: string, args: Args) { NUL !in format && Output(format, args).Some? }

  // ---------------------------------------------------------------------
  // The program

  method ReadFlags(f: string, start: nat) returns (i: nat, flags: set<Flag>)
    requires start <= |f|
    ensures i == start + FlagCount(f[start..]) && flags == FlagsOf(f[start..])
  {
    i, flags := start, {};
    while i < |f|
      invariant start <= i <= |f|
      invariant i + FlagCount(f[i..]) == start + FlagCount(f[start..])
      invariant flags + FlagsOf(f[i..]) == FlagsOf(f[start..])
      decreases |f| - i
    {
      var flag := FlagOf(f[i]);
      if flag == None {
        break;
      }
      assert f[i..][1..] == f[i + 1..];
      flags := flags + {flag.value};
      i := i + 1;
    }
  }

  /** The digit loops of a width and of a precision. */
  method ReadNumeral(f: string, start: nat, ghost args: Args) returns (i: nat, v: nat)
    requires start <= |f| && Numeral(f[start..], args).Some?
    ensures start <= i <= |f| && Numeral(f[start..], args) == Some(Field(v, i - start, args))
  {
    hide Num, AllDigits, IsDigit, DigitCount;
    i, v := start, 0;
    NumEmpty(10);
    assert f[start..i] == [];
    while '0' <= At(f, i) <= '9'
      invariant start <= i <= |f| && i - start + DigitCount(f[i..], 10) == DigitCount(f[start..], 10)
      invariant AllDigits(f[start..i], 10) && v == Num(f[start..i], 10)
      decreases |f| - i
    {
      assert f[i..][1..] == f[i + 1..];
      DecimalStep(f[start..i], f[i..]);
      assert f[start..i + 1] == f[start..i] + [f[i]];
      v := 10 * v + f[i] as int - 48;
      i := i + 1;
    }
    assert f[start..][..i - start] == f[start..i];
    NoMoreDigits(f[i..]);
  }

  /** A decimal digit goes from what is to be read to what has been read. */
  lemma DecimalStep(before: string, t: string)
    requires AllDigits(before, 10) && t != [] && '0' <= t[0] <= '9'
    ensures DigitCount(t, 10) == 1 + DigitCount(t[1..], 10) && AllDigits(before + [t[0]], 10)
    ensures Num(before + [t[0]], 10) == 10 * Num(before, 10) + t[0] as int - 48
  {
    hide Num;
    NumSnoc(before, t[0], 10);
  }

  lemma NoMoreDigits(t: string)
    requires t == [] || !('0' <= t[0] <= '9')
    ensures DigitCount(t, 10) == 0
  {
  }

  method ReadWidth(f: string, i: nat, args: Args) returns (j: nat, width: int, rest: Args)
    requires i <= |f| && Width(f[i..], args).Some?
    ensures i <= j <= |f| && Width(f[i..], args) == Some(Field(width, j - i, rest))
  {
    hide Numeral;
    width, j, rest := -1, i, args;
    if '1' <= At(f, i) <= '9' {
      j, width := ReadNumeral(f, i, args);
    } else if At(f, i) == '*' {
      width, rest, j := args[0].v, args[1..], i + 1;
    }
  }

  method ReadPrecision(f: string, i: nat, args: Args) returns (j: nat, precision: int, rest: Args)
    requires i <= |f| && Precision(f[i..], args).Some?
    ensures i <= j <= |f| && Precision(f[i..], args) == Some(Field(precision, j - i, rest))
  {
    hide Numeral;
    precision, j, rest := -1, i, args;
    if At(f, i) == '.' {
      assert f[i..][1..] == f[i + 1..];
      j := i + 1;
      if '0' <= At(f, j) <= '9' {
        j, precision := ReadNumeral(f, j, args);
      } else if At(f, j) == '*' {
        precision, rest, j := args[0].v, args[1..], j + 1;
      }
      if precision < 0 {
        precision := 0;
      }
    }
  }

  method SkipLength(f: string, start: nat) returns (i: nat)
    requires start <= |f|
    ensures start <= i <= |f| && i == start + LengthCount(f[start..])
  {
    i := start;
    while At(f, i) == 'l' || At(f, i) == 'z'
      invariant start <= i <= |f| && i + LengthCount(f[i..]) == start + LengthCount(f[start..])
      decreases |f| - i
    {
      assert f[i..][1..] == f[i + 1..];
      i := i + 1;
    }
  }

  /** The switch on the conversion character. */
  method ReadRequest(c: char, long: bool, args: Args) returns (conv: Option<Conversion>, rest: Args)
    requires RequestOf(c, long, args).Some?
    ensures RequestOf(c, long, args) == Some(Request(conv, rest))
  {
    rest := args;
    match c {
      case 'd' => conv, rest := Some(Signed(args[0].v)), args[1..];
      case 'i' => conv, rest := Some(Signed(args[0].v)), args[1..];
      case 'u' => conv, rest := Some(Unsigned(args[0].v)), args[1..];
      case 'x' => conv, rest := Some(Hex(args[0].v, false)), args[1..];
      case 'X' => conv, rest := Some(Hex(args[0].v, true)), args[1..];
      case 'p' => conv, rest := Some(Pointer(args[0].v)), args[1..];
      case 's' => conv, rest := Some(Text(args[0].text)), args[1..];
      case 'C' => conv, rest := None, args[1..];
      case 'c' => conv, rest := Some(Text(CharText((args[0].v % 256) as char))), args[1..];
      case _ => conv := Some(Text([if c == NUL then '%' else c]));
    }
  }

  /** A directive is in range for the printer, whatever its conversion. */
  lemma RequestInRange(c: char, long: bool, args: Args, flags: set<Flag>, width: int, precision: int)
    requires -INT_LIMIT <= width < INT_LIMIT && -1 <= precision < INT_LIMIT
    ensures var q := RequestOf(c, long, args);
            q.Some? && q.value.conv.Some? ==> InRange(Directive(flags, width, precision, q.value.conv.value))
  {
  }

  /** From the length modifiers on. */
  method PrintConversion(p: StringPrinter, f: string, start: nat, flags: set<Flag>, width: int, precision: int,
                         args: Args)
    returns (i: nat, rest: Args)
    requires p.Valid() && start <= |f| && NUL !in f && -INT_LIMIT <= width < INT_LIMIT && -1 <= precision < INT_LIMIT
    requires Conclude(f[start..], flags, width, precision, args).Some?
    modifies p`pos, p`n, p`output, p.s
    ensures p.Valid() && p.s[p.end..] == old(p.s[p.end..]) && start <= i <= |f| && old(p.output) <= p.output
    ensures Conclude(f[start..], flags, width, precision, args)
            == Some(Printed(p.output[|old(p.output)|..], i - start, rest))
  {
    hide RequestOf, Render, InRange;
    i := SkipLength(f, start);
    RequestInRange(At(f, i), i > start, args, flags, width, precision);
    var conv;
    conv, rest := ReadRequest(At(f, i), i > start, args);
    ghost var before := p.output;
    if conv.Some? {
      PutDirective(p, Directive(flags, width, precision, conv.value));
    }
    assert p.output[|before|..] == if conv.Some? then Render(Directive(flags, width, precision, conv.value)) else "";
    if i < |f| {
      i := i + 1;
    }
  }

  /** From the width on. */
  method PrintFields(p: StringPrinter, f: string, start: nat, flags: set<Flag>, args: Args) returns (i: nat, rest: Args)
    requires p.Valid() && start <= |f| && NUL !in f && AfterFlags(f[start..], flags, args).Some?
    modifies p`pos, p`n, p`output, p.s
    ensures p.Valid() && p.s[p.end..] == old(p.s[p.end..]) && start <= i <= |f| && old(p.output) <= p.output
    ensures AfterFlags(f[start..], flags, args) == Some(Printed(p.output[|old(p.output)|..], i - start, rest))
  {
    hide Width, Precision, Conclude;
    var width, precision;
    i, width, rest := ReadWidth(f, start, args);
    assert f[start..][i - start..] == f[i..];
    var j := i;
    i, precision, rest := ReadPrecision(f, i, rest);
    assert f[j..][i - j..] == f[i..];
    i, rest := PrintConversion(p, f, i, flags, width, precision, rest);
  }

  /** One directive behind its '%': its text is put, and the place behind it is returned. */
  method PrintDirective(p: StringPrinter, f: string, start: nat, args: Args) returns (i: nat, rest: Args)
    requires p.Valid() && start <= |f| && NUL !in f && Behind(f[start..], args).Some?
    modifies p`pos, p`n, p`output, p.s
    ensures p.Valid() && p.s[p.end..] == old(p.s[p.end..]) && start <= i <= |f| && old(p.output) <= p.output
    ensures Behind(f[start..], args) == Some(Printed(p.output[|old(p.output)|..], i - start, rest))
  {
    hide AfterFlags, FlagCount, FlagsOf;
    var flags;
    i, flags := ReadFlags(f, start);
    assert f[start..][i - start..] == f[i..];
    i, rest := PrintFields(p, f, i, flags, args);
  }

  method PrinterVprintf(p: StringPrinter, f: string, args: Args)
    requires p.Valid() && Suits(f, args)
    modifies p`pos, p`n, p`output, p.s
    ensures p.Valid() && p.s[p.end..] == old(p.s[p.end..])
    ensures p.output == old(p.output) + Output(f, args).value
  {
    hide Behind;
    var i: nat, rest := 0, args;
    ghost var all := Output(f, args).value;
    assert f[0..] == f;
    while i < |f|
      invariant i <= |f| && p.Valid() && p.s[p.end..] == old(p.s[p.end..])
      invariant Prepend(p.output, Output(f[i..], rest)) == Some(old(p.output) + all)
      decreases |f| - i
    {
      OutputStep(p.output, f, i, rest);
      if f[i] != '%' {
        p.Putc(f[i]);
        i := i + 1;
      } else {
        ghost var before := p.output;
        i, rest := PrintDirective(p, f, i + 1, rest);
        assert p.output == before + p.output[|before|..];
      }
    }
    assert f[i..] == [];
  }

  lemma OutputStep(before: string, f: string, i: nat, args: Args)
    requires i < |f| && Output(f[i..], args).Some?
    ensures f[i] != '%' ==> Prepend(before, Output(f[i..], args)) == Prepend(before + [f[i]], Output(f[i + 1..], args))
    ensures f[i] == '%' ==>
              && Behind(f[i + 1..], args).Some?
              && var d := Behind(f[i + 1..], args).value;
                 && i + 1 + d.length <= |f|
                 && Prepend(before, Output(f[i..], args))
                    == Prepend(before + d.text, Output(f[i + 1 + d.length..], d.args))
  {
    hide Behind;
    assert f[i..][1..] == f[i + 1..];
    if f[i] == '%' {
      var d := Behind(f[i + 1..], args).value;
      assert f[i + 1..][d.length..] == f[i + 1 + d.length..];
      var rest := Output(f[i + 1 + d.length..], d.args).value;
      assert before + (d.text + rest) == before + d.text + rest;
    } else {
      var rest := Output(f[i + 1..], args).value;
      assert before + ([f[i]] + rest) == before + [f[i]] + rest;
    }
  }

  /** A conversion that overruns its field: 1 with precision 2147483647 is 2147483649 characters, its
      mark included, and 2147483646 blanks come with them although no width is given. */
  lemma FieldOverrun()
    ensures var d := Directive({Alt}, -1, INT_LIMIT - 1, Hex(1, false));
            && InRange(d) && |Core(d)| == INT_LIMIT + 1 && |Render(d)| == |Core(d)| + (INT_LIMIT - 2)
            && Output("%#.*x", [IntArg(INT_LIMIT - 1), IntArg(1)]) == Some(Render(d))
  {
    var d := Directive({Alt}, -1, INT_LIMIT - 1, Hex(1, false));
    OverrunLength(d);
    hide Render, Core, InRange;
    OverrunReads(d);
    assert "%#.*x"[1..] == "#.*x" && "#.*x"[4..] == "";
    assert Render(d) + [] == Render(d);
  }

  lemma OverrunLength(d: Directive)
    requires d == Directive({Alt}, -1, INT_LIMIT - 1, Hex(1, false))
    ensures InRange(d) && |Core(d)| == INT_LIMIT + 1 && |Render(d)| == |Core(d)| + (INT_LIMIT - 2)
  {
    assert |DigitsOf(1, 16, false)| == 1;
    CoreLength(d);
    hide DigitsOf;
  }

  lemma OverrunReads(d: Directive)
    requires d == Directive({Alt}, -1, INT_LIMIT - 1, Hex(1, false))
    ensures Behind("#.*x", [IntArg(INT_LIMIT - 1), IntArg(1)]) == Some(Printed(Render(d), 4, []))
  {
    hide Render, Conclude;
    var args := [IntArg(INT_LIMIT - 1), IntArg(1)];
    OverrunFlags();
    OverrunConversion(d);
    hide FlagsOf, FlagCount;
    assert args[1..] == [IntArg(1)];
    assert "#.*x"[1..] == ".*x" && ".*x"[0..] == ".*x" && ".*x"[2..] == "x";
  }

  lemma OverrunFlags()
    ensures FlagsOf("#.*x") == {Alt} && FlagCount("#.*x") == 1
  {
    assert "#.*x"[1..] == ".*x" && FlagsOf(".*x") == {};
  }

  lemma OverrunConversion(d: Directive)
    requires d == Directive({Alt}, -1, INT_LIMIT - 1, Hex(1, false))
    ensures Conclude("x", {Alt}, -1, INT_LIMIT - 1, [IntArg(1)]) == Some(Printed(Render(d), 1, []))
  {
    hide Render;
    assert [IntArg(1)][1..] == [];
  }

  /** Stores the longest prefix of the text that fits with its terminator, and returns the length of
      the whole text. */
  method Vsnprintf(s: array<char>, size: nat, f: string, args: Args) returns (n: nat)
    requires size <= s.Length && Suits(f, args)
    modifies s
    ensures n == |Output(f, args).value| % Arithmetic.WORD
    ensures size > 0 ==>
              var out := Output(f, args).value;
              var k := Arithmetic.Min(|out|, size - 1);
              s[..k] == out[..k] && s[k] == NUL
    ensures s[size..] == old(s[size..])
  {
    hide Output;
    var sp := new StringPrinter(s, size);
    PrinterVprintf(sp, f, args);
    ghost var out := Output(f, args).value;
    assert sp.output == out && s[..sp.pos] == out[..sp.pos];
    if size > 0 && sp.pos < sp.end {
      s[sp.pos] := NUL;
    } else if size > 0 {
      s[sp.end - 1] := NUL;
    }
    return sp.n;
  }
}
