/** What the printer's numeric conversions put is read back by strtoul and strtol: for every value, every
    combination of flags, width and precision, and for the text of formats. Blanks in front of the
    number are skipped, its sign and its mark are read as such, and its zeros do not change its value;
    what is behind its last digit, blanks or nothing, is where the reading stops. */
module PrintRoundTrip {
  import opened Arithmetic
  import opened CString
  import opened Format
  import opened FormatText
  import opened NumberText
  import opened Options
  import opened Printer
  import opened Sequences

  lemma ZeroIsDigit(base: nat)
    requires 2 <= base <= 36
    ensures DigitValue('0', base) == Some(0)
  {
  }

  lemma {:induction false} OnlyZeros(z: nat, base: nat)
    requires 2 <= base <= 36
    ensures AllDigits(Repeat('0', z), base) && Num(Repeat('0', z), base) == 0
  {
    hide Num, DigitValue;
    ZeroIsDigit(base);
    NumEmpty(base);
    if z > 0 {
      OnlyZeros(z - 1, base);
      NumSnoc(Repeat('0', z - 1), '0', base);
      assert 0 * base == 0;
    }
  }

  lemma {:induction false} LeadingZeros(z: nat, ds: string, base: nat)
    requires 2 <= base <= 36 && AllDigits(ds, base)
    ensures AllDigits(Repeat('0', z) + ds, base) && Num(Repeat('0', z) + ds, base) == Num(ds, base)
    decreases |ds|
  {
    hide Num, Repeat;
    if ds == [] {
      OnlyZeros(z, base);
      NumEmpty(base);
      assert Repeat('0', z) + ds == Repeat('0', z);
    } else {
      var n := |ds| - 1;
      LeadingZeros(z, ds[..n], base);
      NumSnoc(Repeat('0', z) + ds[..n], ds[n], base);
      NumSnoc(ds[..n], ds[n], base);
      assert ds[..n] + [ds[n]] == ds;
      assert Repeat('0', z) + ds == Repeat('0', z) + ds[..n] + [ds[n]];
    }
  }

  /** Zeros, the digits of a number, and blanks. */
  function Padded(z: nat, v: nat, base: nat, upper: bool, blanks: nat): string
    requires 2 <= base <= 16
  {
    Repeat('0', z) + DigitsOf(v, base, upper) + Repeat(' ', blanks)
  }

  function PaddedLength(z: nat, v: nat, base: nat, upper: bool): nat
    requires 2 <= base <= 16
  {
    z + |DigitsOf(v, base, upper)|
  }

  lemma BlankIsNoDigit(base: nat)
    requires 2 <= base <= 36
    ensures !IsDigit(' ', base)
  {
  }

  lemma PaddedReads(z: nat, v: nat, base: nat, upper: bool, blanks: nat)
    requires 2 <= base <= 16
    ensures var t, n := Padded(z, v, base, upper, blanks), PaddedLength(z, v, base, upper);
            && DigitCount(t, base) == n && AllDigits(t[..n], base) && Num(t[..n], base) == v
            && n < |t| + 1 && (n < |t| ==> t[n] == ' ')
  {
    hide DigitsOf, Num, AllDigits, IsDigit;
    var ds := DigitsOf(v, base, upper);
    var t := Padded(z, v, base, upper, blanks);
    DigitsRoundTrip(v, base, upper);
    LeadingZeros(z, ds, base);
    BlankIsNoDigit(base);
    assert t[..z + |ds|] == Repeat('0', z) + ds;
    DigitCountUnique(t, z + |ds|, base);
  }

  lemma DigitIsNoMark(c: char)
    requires IsDigit(c, 16)
    ensures c != 'x' && c != 'X' && c != '-' && c != '+' && !IsSpace(c)
  {
  }

  lemma MoreDigits(c: char, base: nat)
    requires 2 <= base <= 16 && IsDigit(c, base)
    ensures IsDigit(c, 16)
  {
  }

  lemma MagnitudeReads(z: nat, v: nat, base: nat, upper: bool, blanks: nat)
    requires (base == 10 || base == 16) && v < WORD
    ensures Magnitude(Padded(z, v, base, upper, blanks), base) == (v, PaddedLength(z, v, base, upper))
    ensures var t := Padded(z, v, base, upper, blanks); t != [] && IsDigit(t[0], 16)
  {
    hide DigitsOf, Num, DigitCount, IsDigit;
    var t, n := Padded(z, v, base, upper, blanks), PaddedLength(z, v, base, upper);
    PaddedReads(z, v, base, upper, blanks);
    assert t[0] == t[..n][0];
    MoreDigits(t[0], base);
    if |t| >= 2 && n >= 2 {
      assert t[1] == t[..n][1];
      MoreDigits(t[1], base);
      DigitIsNoMark(t[1]);
    }
    assert !HexMark(t);
    assert t[0..] == t;
  }

  /** A number after a mark of base 16. */
  lemma MarkedMagnitude(x: char, z: nat, v: nat, upper: bool, blanks: nat)
    requires (x == 'x' || x == 'X') && v < WORD
    ensures Magnitude(['0', x] + Padded(z, v, 16, upper, blanks), 16) == (v, 2 + PaddedLength(z, v, 16, upper))
  {
    hide DigitsOf, Num, DigitCount, IsDigit, Padded;
    var t := Padded(z, v, 16, upper, blanks);
    PaddedReads(z, v, 16, upper, blanks);
    var s := ['0', x] + t;
    assert HexMark(s) && s[2..] == t;
  }

  /** strtoul on blanks and a text that starts with a digit. */
  lemma UnsignedReads(a: nat, t: string, base: int)
    requires IsBase(base) && t != [] && IsDigit(t[0], 16)
    ensures UnsignedValue(Repeat(' ', a) + t, base) == (Magnitude(t, base).0, a + Magnitude(t, base).1)
  {
    hide Magnitude, Spaces;
    var s := Repeat(' ', a) + t;
    DigitIsNoMark(t[0]);
    SpacesUnique(s, a);
    assert s[a..] == t;
  }

  lemma PlusReads(t: string, base: int)
    requires IsBase(base) && t != [] && IsDigit(t[0], 16)
    ensures UnsignedValue("+" + t, base) == (Magnitude(t, base).0, 1 + Magnitude(t, base).1)
  {
    hide Magnitude, Spaces;
    SpacesUnique("+" + t, 0);
    assert ("+" + t)[1..] == t;
  }

  /** strtol on blanks and a text that starts with no blank. */
  lemma SignedReads(a: nat, t: string, base: int)
    requires IsBase(base) && t != [] && !IsSpace(t[0])
    ensures SignedValue(Repeat(' ', a) + t, base) ==
            if t[0] == '-' then
              (0 - Min(UnsignedValue(t[1..], base).0, HALF), a + 1 + UnsignedValue(t[1..], base).1)
            else
              (Min(UnsignedValue(t, base).0, HALF - 1), a + UnsignedValue(t, base).1)
  {
    hide UnsignedValue, Spaces;
    var s := Repeat(' ', a) + t;
    SpacesUnique(s, a);
    assert s[a..] == t && s[a + 1..] == t[1..];
  }

  lemma NoBlanks(t: string, base: int)
    requires IsBase(base) && t != [] && IsDigit(t[0], 16)
    ensures UnsignedValue(t, base) == Magnitude(t, base)
  {
    hide Magnitude, UnsignedValue, IsDigit;
    UnsignedReads(0, t, base);
    assert Repeat(' ', 0) + t == t;
  }

  /** Blanks before and after a number. */
  function Before(d: Directive): nat { if LeftJustify in d.flags then 0 else BlankCount(d) }

  function After(d: Directive): nat { if LeftJustify in d.flags then BlankCount(d) else 0 }

  /** The text of a number: blanks, its sign or mark, zeros, digits, blanks. */
  lemma RenderParts(d: Directive)
    requires !d.conv.Text?
    ensures Render(d) == Repeat(' ', Before(d)) + (Prefix(d) +
            Padded(ZeroCount(d), Number(d.conv), BaseSize(d.conv), Base(d.conv) > 0, After(d)))
    ensures |Render(d)| == Before(d) + |Prefix(d)|
                           + PaddedLength(ZeroCount(d), Number(d.conv), BaseSize(d.conv), Base(d.conv) > 0) + After(d)
  {
    hide DigitsOf, ZeroCount, BlankCount, Prefix;
    var zs, ds := Repeat('0', ZeroCount(d)), DigitsOf(Number(d.conv), BaseSize(d.conv), Base(d.conv) > 0);
    assert Core(d) == Prefix(d) + zs + ds;
  }

  lemma BlanksJoin(a: nat, t: string)
    ensures Repeat(' ', a) + (" " + t) == Repeat(' ', a + 1) + t
  {
  }

  /** strtol in base 10 gives back every long printed with %ld, and stops behind its digits. */
  lemma SignedRoundTrip(d: Directive)
    requires InRange(d) && d.conv.Signed?
    ensures SignedValue(Render(d), 10) == (d.conv.value, |Render(d)| - After(d))
  {
    hide Padded, PaddedLength, Render, ZeroCount, BlankCount, Magnitude, SignedValue, UnsignedValue, Repeat;
    var v, z := Number(d.conv), ZeroCount(d);
    var t := Padded(z, v, 10, true, After(d));
    RenderParts(d);
    MagnitudeReads(z, v, 10, true, After(d));
    DigitIsNoMark(t[0]);
    NoBlanks(t, 10);
    if d.conv.value < 0 {
      assert ("-" + t)[1..] == t;
      SignedReads(Before(d), "-" + t, 10);
    } else if PlusPositive in d.flags {
      PlusReads(t, 10);
      SignedReads(Before(d), "+" + t, 10);
    } else if SpacePositive in d.flags {
      BlanksJoin(Before(d), t);
      SignedReads(Before(d) + 1, t, 10);
    } else {
      assert "" + t == t;
      SignedReads(Before(d), t, 10);
    }
  }

  /** strtoul gives back every unsigned long printed with %lu, in base 10, or with %lx, in base 16. */
  lemma UnsignedRoundTrip(d: Directive)
    requires InRange(d) && (d.conv.Unsigned? || d.conv.Hex? || d.conv.Pointer?)
    ensures UnsignedValue(Render(d), BaseSize(d.conv)) == (d.conv.num, |Render(d)| - After(d))
  {
    hide Padded, PaddedLength, Render, ZeroCount, BlankCount, Magnitude, UnsignedValue, Repeat;
    var v, z, base, upper := Number(d.conv), ZeroCount(d), BaseSize(d.conv), Base(d.conv) > 0;
    var t := Padded(z, v, base, upper, After(d));
    RenderParts(d);
    if Prefix(d) == "" {
      assert "" + t == t;
      MagnitudeReads(z, v, base, upper, After(d));
      UnsignedReads(Before(d), t, base);
    } else {
      var x := Prefix(d)[1];
      assert Prefix(d) == ['0', x];
      MarkedMagnitude(x, z, v, upper, After(d));
      assert IsDigit(t[0], 16) by { MagnitudeReads(z, v, base, upper, After(d)); }
      assert (Prefix(d) + t)[0] == '0' && IsDigit('0', 16);
      UnsignedReads(Before(d), Prefix(d) + t, base);
    }
  }

  /** strtoul on decimal digits alone is their value, capped to the largest word. */
  lemma DecimalDigitsValue(s: string)
    requires s != [] && AllDigits(s, 10)
    ensures UnsignedValue(s, 10) == (Min(Num(s, 10), WORD - 1), |s|)
  {
    hide Num, DigitCount;
    assert IsDigit(s[0], 10);
    MoreDigits(s[0], 10);
    assert s[..|s|] == s && s[0..] == s;
    DigitCountUnique(s, |s|, 10);
    NoBlanks(s, 10);
  }

  // ---------------------------------------------------------------------
  // From format texts

  /** strtol in base 10 gives back every long that a format of `%`, any flags, any width, any precision
      and `ld` prints. */
  lemma LongRoundTrip(d: Fields, v: int)
    requires d.Proper() && -HALF <= v < HALF
    ensures var out := Output(d.Text() + "ld", d.Args() + [IntArg(v)]);
            out.Some? && SignedValue(out.value, 10).0 == v
  {
    hide Output, SignedValue, Render;
    LongPrints(d, 'd', v);
    SignedRoundTrip(Directive(FlagsOf(d.flags), d.Width(), d.Precision(), Signed(v)));
  }

  /** strtoul gives back every unsigned long printed with `lu`, in base 10, or with `lx` or `lX`, in
      base 16. */
  lemma UnsignedLongRoundTrip(d: Fields, c: char, v: nat)
    requires d.Proper() && v < WORD && (c == 'u' || c == 'x' || c == 'X')
    ensures var out := Output(d.Text() + ['l', c], d.Args() + [IntArg(v)]);
            out.Some? && UnsignedValue(out.value, if c == 'u' then 10 else 16).0 == v
  {
    hide Output, UnsignedValue, Render;
    LongPrints(d, c, v);
    var conv := if c == 'u' then Unsigned(v) else Hex(v, c == 'X');
    UnsignedRoundTrip(Directive(FlagsOf(d.flags), d.Width(), d.Precision(), conv));
  }
}
