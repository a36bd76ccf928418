/** The conversions of printer_vprintf, and vsnprintf. */
module Printer {
  import opened Arithmetic
  import CString
  import opened NumberText
  import opened Sequences

  const INT_LIMIT := 0x8000_0000       // an int is below this and not below its negation

  datatype Flag = Alt | Zero | LeftJustify | SpacePositive | PlusPositive

  /** A conversion with its argument: %d and %i; %u; %x and %X; %p; %s, %c and the rest. */
  datatype Conversion = Signed(value: int) | Unsigned(num: nat) | Hex(num: nat, upper: bool) | Pointer(num: nat)
                      | Text(text: string)

  /** A directive of a format; a width or precision that is not given is -1. */
  datatype Directive = Directive(flags: set<Flag>, width: int, precision: int, conv: Conversion)

  predicate InRange(d: Directive) {
    && -INT_LIMIT <= d.width < INT_LIMIT && -1 <= d.precision < INT_LIMIT
    && match d.conv
       case Signed(value) => -HALF <= value < HALF
       case Unsigned(num) => num < WORD
       case Hex(num, _) => num < WORD
       case Pointer(num) => num < WORD
       case Text(text) => |text| < INT_LIMIT && CString.NUL !in text
  }

  // ---------------------------------------------------------------------
  // The text of a directive

  function Number(c: Conversion): nat {
    match c
    case Signed(value) => if value < 0 then 0 - value else value
    case Text(_) => 0
    case _ => c.num
  }

  function Base(c: Conversion): int {
    match c
    case Hex(_, upper) => if upper then 16 else -16
    case Pointer(_) => -16
    case _ => 10
  }

  function BaseSize(c: Conversion): (b: nat)
    ensures b == 10 || b == 16
  {
    if Base(c) < 0 then -Base(c) else Base(c)
  }

  function Prefix(d: Directive): (p: string)
    ensures |p| <= 2
  {
    match d.conv
    case Signed(value) =>
      if value < 0 then "-" else if PlusPositive in d.flags then "+" else if SpacePositive in d.flags then " " else ""
    case Hex(num, upper) => if Alt in d.flags && num != 0 then (if upper then "0X" else "0x") else ""
    case Pointer(_) => "0x"
    case _ => ""
  }

  function Data(d: Directive): string {
    match d.conv
    case Text(text) => if 0 <= d.precision < |text| then text[..d.precision] else text
    case c => DigitsOf(Number(c), BaseSize(c), Base(c) > 0)
  }

  function ZeroCount(d: Directive): nat {
    if d.conv.Text? then 0
    else if d.precision >= 0 then (if d.precision > |Data(d)| then d.precision - |Data(d)| else 0)
    else if Zero in d.flags && LeftJustify !in d.flags && |Data(d)| + |Prefix(d)| < d.width then
      d.width - |Data(d)| - |Prefix(d)|
    else 0
  }

  /** An int that a longer number is converted to. */
  function ToInt(x: int): int { (x + INT_LIMIT) % (2 * INT_LIMIT) - INT_LIMIT }

  function BlankCount(d: Directive): nat {
    var w := ToInt(d.width - (|Data(d)| + ZeroCount(d) + |Prefix(d)|));
    if w > 0 then w else 0
  }

  lemma Layout(before: string, b1: string, prefix: string, zeros: string, data: string, b2: string)
    ensures before + b1 + prefix + zeros + data + b2 == before + (b1 + (prefix + zeros + data) + b2)
    ensures b1 == [] ==> b1 + (prefix + zeros + data) + b2 == prefix + zeros + data + b2
    ensures b2 == [] ==> b1 + (prefix + zeros + data) + b2 == b1 + (prefix + zeros + data)
  {
  }

  lemma RepeatNone(c: char)
    ensures Repeat(c, 0) == []
  {
  }

  function Core(d: Directive): string { Prefix(d) + Repeat('0', ZeroCount(d)) + Data(d) }

  function Render(d: Directive): string {
    if LeftJustify in d.flags then Core(d) + Repeat(' ', BlankCount(d))
    else Repeat(' ', BlankCount(d)) + Core(d)
  }

  // ---------------------------------------------------------------------
  // The printer

  class StringPrinter {
    const s: array<char>
    const end: nat
    var pos: nat
    var n: nat
    ghost var output: string      // everything put so far

    ghost predicate Valid()
      reads this, s
    {
      && end <= s.Length && pos == Min(|output|, end) && s[..pos] == output[..pos]
      && n == |output| % WORD
    }

    constructor (s: array<char>, size: nat)
      requires size <= s.Length
      ensures Valid() && this.s == s && end == size && output == []
    {
      this.s, end, pos, n, output := s, size, 0, 0, [];
    }

    method Putc(c: char)
      requires Valid()
      modifies this`pos, this`n, this`output, s
      ensures Valid() && output == old(output) + [c]
      ensures s[end..] == old(s[end..])
    {
      ModNext(|output|, WORD);
      if pos < end {
        s[pos] := c;
        pos := pos + 1;
      }
      n := (n + 1) % WORD;
      output := output + [c];
    }

    method PutMany(c: char, count: nat)
      requires Valid()
      modifies this`pos, this`n, this`output, s
      ensures Valid() && output == old(output) + Repeat(c, count)
      ensures s[end..] == old(s[end..])
    {
      var i: nat := 0;
      while i < count
        invariant i <= count && Valid() && output == old(output) + Repeat(c, i) && s[end..] == old(s[end..])
      {
        Putc(c);
        i := i + 1;
      }
    }

    method PutText(text: string)
      requires Valid()
      modifies this`pos, this`n, this`output, s
      ensures Valid() && output == old(output) + text
      ensures s[end..] == old(s[end..])
    {
      var i: nat := 0;
      while i < |text|
        invariant i <= |text| && Valid() && output == old(output) + text[..i] && s[end..] == old(s[end..])
      {
        Putc(text[i]);
        i := i + 1;
      }
      assert text[..i] == text;
    }
  }

  lemma NumberFits(d: Directive)
    requires InRange(d)
    ensures Number(d.conv) < WORD
    ensures !d.conv.Text? ==> 1 <= |Data(d)| < NUMBUFSIZ
  {
    if !d.conv.Text? {
      WordFits(Number(d.conv), BaseSize(d.conv), Base(d.conv) > 0);
    }
  }

  /** A conversion fills its field, and no more than that, exactly if the subtraction of what it prints
      from the width stays in an int, or misses it by so much that it comes out negative again. */
  lemma FillsFieldIff(d: Directive)
    requires InRange(d)
    ensures |Render(d)| == (if |Core(d)| < d.width then d.width else |Core(d)|)
            <==> |Core(d)| <= d.width + INT_LIMIT || |Core(d)| >= d.width + 2 * INT_LIMIT
  {
    NumberFits(d);
    CoreLength(d);
    hide InRange, Data, Prefix, ZeroCount, Repeat;
    var x := d.width - |Core(d)|;
    assert -2 * INT_LIMIT - 1 <= x < INT_LIMIT;
    assert ToInt(x) == if x < -INT_LIMIT then x + 2 * INT_LIMIT else x;
  }

  lemma CoreLength(d: Directive)
    requires InRange(d)
    ensures |Core(d)| == |Data(d)| + ZeroCount(d) + |Prefix(d)| <= INT_LIMIT + 1
  {
    hide DigitsOf, Repeat;
    NumberFits(d);
  }

  /** The digits or the text that a conversion starts from. */
  method ConversionData(d: Directive) returns (data: string)
    requires InRange(d)
    ensures data == if d.conv.Text? then d.conv.text else DigitsOf(Number(d.conv), BaseSize(d.conv), Base(d.conv) > 0)
  {
    NumberFits(d);
    if d.conv.Text? {
      data := d.conv.text;
    } else {
      var numbuf := new char[NUMBUFSIZ];
      var start := FillNumbuf(numbuf, NUMBUFSIZ, Number(d.conv), Base(d.conv));
      data := numbuf[start..NUMBUFSIZ - 1];
    }
  }

  method ConversionPrefix(d: Directive) returns (prefix: string)
    ensures prefix == Prefix(d)
  {
    prefix := "";
    if d.conv.Signed? {
      if d.conv.value < 0 {
        prefix := "-";
      } else if PlusPositive in d.flags {
        prefix := "+";
      } else if SpacePositive in d.flags {
        prefix := " ";
      }
    } else if d.conv.Pointer? || (d.conv.Hex? && Alt in d.flags && d.conv.num != 0) {
      prefix := if Base(d.conv) == -16 then "0x" else "0X";
    }
  }

  /** The part of printer_vprintf that emits a conversion. */
  method PutParts(p: StringPrinter, left: bool, width: int, prefix: string, zeros: nat, data: string)
    requires p.Valid()
    modifies p`pos, p`n, p`output, p.s
    ensures p.Valid() && p.s[p.end..] == old(p.s[p.end..])
    ensures var core, blanks := prefix + Repeat('0', zeros) + data, Repeat(' ', if width > 0 then width else 0);
            p.output == old(p.output) + if left then core + blanks else blanks + core
  {
    hide Repeat;
    var rest: nat := if width > 0 then width else 0;
    ghost var before, b1, b2 := p.output, Repeat(' ', if left then 0 else rest), Repeat(' ', if left then rest else 0);
    if !left {
      p.PutMany(' ', rest);
      rest := 0;
    }
    assert p.output == before + b1 by { RepeatNone(' '); }
    p.PutText(prefix);
    p.PutMany('0', zeros);
    p.PutText(data);
    p.PutMany(' ', rest);
    Layout(before, b1, prefix, Repeat('0', zeros), data, b2);
    RepeatNone(' ');
  }

  /** How much of the data is printed, and how many zeros before it. */
  method ConversionSizes(d: Directive, data: string, prefix: string) returns (datalen: nat, zeros: nat)
    requires data == if d.conv.Text? then d.conv.text else DigitsOf(Number(d.conv), BaseSize(d.conv), Base(d.conv) > 0)
    requires prefix == Prefix(d)
    ensures datalen <= |data| && data[..datalen] == Data(d) && zeros == ZeroCount(d)
  {
    hide DigitsOf, Prefix;
    var numeric := !d.conv.Text?;
    datalen := |data|;
    if d.precision >= 0 && !numeric && d.precision < datalen {
      datalen := d.precision;
    }
    zeros := 0;
    if numeric && d.precision >= 0 {
      zeros := if d.precision > datalen then d.precision - datalen else 0;
    } else if numeric && Zero in d.flags && LeftJustify !in d.flags && datalen + |prefix| < d.width {
      zeros := d.width - datalen - |prefix|;
    }
  }

  /** One conversion of printer_vprintf. */
  method PutDirective(p: StringPrinter, d: Directive)
    requires p.Valid() && InRange(d)
    modifies p`pos, p`n, p`output, p.s
    ensures p.Valid() && p.output == old(p.output) + Render(d)
    ensures p.s[p.end..] == old(p.s[p.end..])
  {
    hide Data, ZeroCount, DigitsOf, Prefix, Repeat, ToInt, InRange;
    var data := ConversionData(d);
    var prefix := ConversionPrefix(d);
    var datalen, zeros := ConversionSizes(d, data, prefix);
    var width := ToInt(d.width - (datalen + zeros + |prefix|));
    PutParts(p, LeftJustify in d.flags, width, prefix, zeros, data[..datalen]);
  }
}
