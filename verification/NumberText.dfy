/** Numbers as text: the digits that the printer writes, and what strtoul and strtol read. */
module NumberText {
  import opened Arithmetic
  import opened CString
  import opened Options

  const HALF := 0x8000_0000_0000_0000
  const NUMBUFSIZ := 24

  // ---------------------------------------------------------------------
  // Writing digits

  function DigitChar(d: nat, upper: bool): char
    requires d < 16
  {
    (if d < 10 then 48 + d else if upper then 55 + d else 87 + d) as char
  }

  /** A number in a base, most significant digit first; zero has one digit. */
  function DigitsOf(v: nat, base: nat, upper: bool): (s: string)
    requires 2 <= base <= 16
    ensures |s| >= 1
    decreases v
  {
    if v < base then [DigitChar(v, upper)]
    else DigitsOf(v / base, base, upper) + [DigitChar(v % base, upper)]
  }

  lemma DigitsStep(v: nat, base: nat, upper: bool)
    requires 2 <= base <= 16
    ensures v / base >= 0 && 0 <= v % base < base
    ensures if v / base == 0 then v < base && DigitsOf(v, base, upper) == [DigitChar(v % base, upper)]
            else && v / base < v
                 && DigitsOf(v, base, upper) == DigitsOf(v / base, base, upper) + [DigitChar(v % base, upper)]
  {
    if v < base {
      SmallModulus(v, base);
    } else {
      TimesMonotone(2, base, v / base);
    }
  }

  lemma QuotientBelow(v: nat, b: nat, p: nat)
    requires b > 0 && v < b * p
    ensures v / b < p
  {
    if v / b >= p {
      TimesMonotone(p, v / b, b);
    }
  }

  lemma {:induction false} DigitsFit(v: nat, base: nat, upper: bool, k: nat)
    requires 2 <= base <= 16 && k > 0 && v < Power(base, k)
    ensures |DigitsOf(v, base, upper)| <= k
    decreases k
  {
    if v >= base {
      assert Power(base, 1) == base * Power(base, 0) == base;
      QuotientBelow(v, base, Power(base, k - 1));
      DigitsFit(v / base, base, upper, k - 1);
    }
  }

  /** In base 10 or more a word has at most 20 digits: with its terminator it fits in the buffer. */
  lemma WordFits(v: nat, base: nat, upper: bool)
    requires 10 <= base <= 16 && v < WORD
    ensures |DigitsOf(v, base, upper)| + 1 <= NUMBUFSIZ
  {
    PowerMonotone(10, base, 20);
    assert Power(10, 5) == 100000;
    assert Power(10, 10) == 10000000000;
    assert Power(10, 15) == 1000000000000000;
    assert Power(10, 20) > WORD;
    DigitsFit(v, base, upper, 20);
  }

  /** Fills a buffer backwards from its end. A negative base asks for lower-case digits. */
  method FillNumbuf(numbuf: array<char>, end: nat, val: nat, base: int) returns (start: nat)
    requires 2 <= base <= 16 || -16 <= base <= -2
    requires end <= numbuf.Length
    requires |DigitsOf(val, if base < 0 then -base else base, base > 0)| + 1 <= end
    modifies numbuf
    ensures start < end && numbuf[end - 1] == NUL
    ensures numbuf[start..end - 1] == DigitsOf(val, if base < 0 then -base else base, base > 0)
    ensures numbuf[..start] == old(numbuf[..start]) && numbuf[end..] == old(numbuf[end..])
  {
    hide DigitsOf, DigitChar;
    var upper := base > 0;
    var b: nat := if base < 0 then -base else base;
    ghost var digits := DigitsOf(val, b, upper);
    ghost var before := numbuf[..];
    start := end - 1;
    numbuf[start] := NUL;
    var v: nat := val;
    ghost var front := digits;
    while true
      invariant start < end && digits == front + numbuf[start..end - 1] && front == DigitsOf(v, b, upper)
      invariant |digits| + 1 <= end && numbuf[end - 1] == NUL
      invariant numbuf[..start] == before[..start] && numbuf[end..] == before[end..]
      decreases v
    {
      DigitsStep(v, b, upper);
      ghost var written := numbuf[start..end - 1];
      start := start - 1;
      numbuf[start] := DigitChar(v % b, upper);
      assert numbuf[start..end - 1] == [DigitChar(v % b, upper)] + written;
      v := v / b;
      if v == 0 {
        break;
      }
      front := DigitsOf(v, b, upper);
    }
  }

  // ---------------------------------------------------------------------
  // Reading digits

  /** A base argument with which the arithmetic of the digit tests stays in an int. */
  predicate IsBase(base: int) { -0x8000_0000 <= base && base + 97 < 0x8000_0000 }

  /** The number that digits stand for. */
  function Num(s: string, base: nat): nat
    requires AllDigits(s, base)
  {
    if s == [] then 0
    else Num(s[..|s| - 1], base) * base + DigitValue(s[|s| - 1], base).value
  }

  lemma NumSnoc(s: string, c: char, base: nat)
    requires AllDigits(s, base) && IsDigit(c, base)
    ensures AllDigits(s + [c], base) && Num(s + [c], base) == Num(s, base) * base + DigitValue(c, base).value
  {
    assert (s + [c])[..|s|] == s;
  }

  lemma DigitRoundTrip(d: nat, base: nat, upper: bool)
    requires 2 <= base <= 16 && d < base
    ensures DigitValue(DigitChar(d, upper), base) == Some(d)
  {
  }

  /** The digits of a number are read back as the number. */
  lemma {:induction false} DigitsRoundTrip(v: nat, base: nat, upper: bool)
    requires 2 <= base <= 16
    ensures AllDigits(DigitsOf(v, base, upper), base) && Num(DigitsOf(v, base, upper), base) == v
    decreases v
  {
    hide DigitsOf, DigitValue, DigitChar, Num, AllDigits;
    var q, r := v / base, v % base;
    DigitsStep(v, base, upper);
    DigitRoundTrip(r, base, upper);
    assert v == q * base + r;
    if q == 0 {
      NumEmpty(base);
      NumSnoc([], DigitChar(r, upper), base);
      assert [] + [DigitChar(r, upper)] == [DigitChar(r, upper)];
    } else {
      DigitsRoundTrip(q, base, upper);
      NumSnoc(DigitsOf(q, base, upper), DigitChar(r, upper), base);
    }
  }

  /** A character is the digit of a value below the base, in the table of the program. */
  predicate InTable(c: char, base: nat, upper: bool)
    requires base <= 16
  {
    c in (if upper then "0123456789ABCDEF" else "0123456789abcdef")[..base]
  }

  lemma DigitInTable(d: nat, base: nat, upper: bool)
    requires d < base <= 16
    ensures InTable(DigitChar(d, upper), base, upper) && (d > 0 ==> DigitChar(d, upper) != '0')
  {
    var table := if upper then "0123456789ABCDEF" else "0123456789abcdef";
    assert table[..base][d] == DigitChar(d, upper);
  }

  /** Every character of a number is a digit of the base from the table, and a number other than 0
      starts with no zero. */
  lemma {:induction false} DigitsFromTable(v: nat, base: nat, upper: bool, i: nat)
    requires 2 <= base <= 16 && i < |DigitsOf(v, base, upper)|
    ensures InTable(DigitsOf(v, base, upper)[i], base, upper)
    ensures i == 0 && v > 0 ==> DigitsOf(v, base, upper)[i] != '0'
    decreases v
  {
    hide InTable, DigitChar, DigitsOf;
    DigitsStep(v, base, upper);
    DigitInTable(v % base, base, upper);
    if v >= base && i < |DigitsOf(v / base, base, upper)| {
      DigitsFromTable(v / base, base, upper, i);
    }
  }

  lemma ZeroDigits(base: nat, upper: bool)
    requires 2 <= base <= 16
    ensures DigitsOf(0, base, upper) == "0"
  {
  }

  lemma NumEmpty(base: nat)
    ensures AllDigits([], base) && Num([], base) == 0
  {
  }

  predicate HexMark(s: string) { |s| >= 2 && s[0] == '0' && (s[1] == 'x' || s[1] == 'X') }

  /** The base of a number that starts here, and how much of its front is a mark of the base. */
  function BaseOf(s: string, base: int): (r: (nat, nat))
    requires IsBase(base)
    ensures r.1 <= |s|
  {
    if base == 0 then
      if HexMark(s) then (16, 2)
      else if At(s, 0) == '0' then (8, 0)
      else (10, 0)
    else if base == 16 && HexMark(s) then (16, 2)
    else (if base < 0 then 0 else base, 0)
  }

  /** The magnitude that a text without sign starts with, capped to a word; and its length. */
  function Magnitude(s: string, base: int): (r: (nat, nat))
    requires IsBase(base)
    ensures r.0 < WORD && r.1 <= |s|
  {
    var (b, k) := BaseOf(s, base);
    var n := DigitCount(s[k..], b);
    (Min(Num(s[k..][..n], b), WORD - 1), k + n)
  }

  /** A word negated. */
  function Minus(v: nat): nat { (WORD - v) % WORD }

  /** The value of strtoul and where it stops. */
  function UnsignedValue(s: string, base: int): (nat, nat)
    requires IsBase(base)
  {
    var k := Spaces(s);
    if At(s, k) == '-' then
      var (v, n) := Magnitude(s[k + 1..], base);
      (Minus(v), k + 1 + n)
    else if At(s, k) == '+' then
      var (v, n) := Magnitude(s[k + 1..], base);
      (v, k + 1 + n)
    else
      var (v, n) := Magnitude(s[k..], base);
      (v, k + n)
  }

  /** The value of strtol and where it stops: a '-' here negates what strtoul finds behind it. */
  function SignedValue(s: string, base: int): (int, nat)
    requires IsBase(base)
  {
    var k := Spaces(s);
    if At(s, k) == '-' then
      var (u, n) := UnsignedValue(s[k + 1..], base);
      (0 - Min(u, HALF), k + 1 + n)
    else
      var (u, n) := UnsignedValue(s[k..], base);
      (Min(u, HALF - 1), k + n)
  }

  // ---------------------------------------------------------------------
  // What they read, said over the text

  /** Digits and small letters stand for what they stand for in every base up to 36. So do capital
      letters exactly up to base 17: from 18 on the test for '0' and up takes 'A' first. */
  lemma DigitsMean(base: nat, d: nat)
    requires 2 <= base <= 36 && d < base
    ensures d < 10 ==> DigitValue((48 + d) as char, base) == Some(d)
    ensures d >= 10 ==> DigitValue((87 + d) as char, base) == Some(d)
    ensures d >= 10 ==> (DigitValue((55 + d) as char, base) == Some(d) <==> 7 + d >= base)
  {
  }

  lemma CapitalsIff(base: nat)
    requires 11 <= base <= 36
    ensures (forall d | 10 <= d < base :: DigitValue((55 + d) as char, base) == Some(d)) <==> base <= 17
  {
    DigitsMean(base, 10);
    forall d | 10 <= d < base ensures base <= 17 ==> DigitValue((55 + d) as char, base) == Some(d) {
      DigitsMean(base, d);
    }
  }

  /** No other characters are digits exactly in bases up to 10: above, those from ':' on are. */
  lemma OnlyAlphanumericIff(base: nat)
    requires 2 <= base <= 36
    ensures (forall c | IsDigit(c, base) :: '0' <= c <= '9' || 'a' <= c <= 'z' || 'A' <= c <= 'Z') <==> base <= 10
  {
    if base > 10 {
      assert IsDigit(':', base);
    }
  }

  /** The base in which the digits behind a mark are read. */
  function Radix(base: nat, mark: string, ds: string): nat {
    if mark != "" then 16 else if base != 0 then base else if ds != "" && ds[0] == '0' then 8 else 10
  }

  /** A mark and digits that are a number in `base`; `rest`, what follows, is not taken for more of it. */
  predicate IsNumber(mark: string, ds: string, rest: string, base: nat) {
    var t := ds + rest;
    && (base == 0 || 2 <= base <= 36)
    && (mark == "" || ((mark == "0x" || mark == "0X") && (base == 0 || base == 16)))
    && (mark == "" && (base == 0 || base == 16) ==> !HexMark(t))
    && AllDigits(ds, Radix(base, mark, ds)) && (rest == [] || !IsDigit(rest[0], Radix(base, mark, ds)))
    && (mark == "" && t != [] ==> NoSign(t[0]))
  }

  predicate NoSign(c: char) { !IsSpace(c) && c != '+' && c != '-' }

  lemma BaseReads(mark: string, ds: string, rest: string, base: nat)
    requires IsNumber(mark, ds, rest, base)
    ensures BaseOf(mark + (ds + rest), base) == (Radix(base, mark, ds), |mark|)
  {
    hide Num, IsSpace, AllDigits;
    var t := ds + rest;
    if mark == "" {
      assert mark + t == t;
      if ds == "" && rest != [] && base == 0 {
        DigitsMean(10, 0);
        assert t[0] == rest[0];
      }
    } else {
      assert mark + t == [mark[0], mark[1]] + t;
    }
  }

  /** The value of digits, as far as a word holds it. */
  function Capped(ds: string, b: nat): nat { if AllDigits(ds, b) then Min(Num(ds, b), WORD - 1) else 0 }

  lemma MagnitudeIs(u: string, t: string, ds: string, rest: string, base: int, b: nat)
    requires IsBase(base) && BaseOf(u, base).0 == b && t == u[BaseOf(u, base).1..] && t == ds + rest
    requires AllDigits(ds, b) && (rest == [] || !IsDigit(rest[0], b))
    ensures Magnitude(u, base) == (Capped(ds, b), BaseOf(u, base).1 + |ds|)
  {
    hide Num, IsDigit, BaseOf;
    assert t[..|ds|] == ds;
    DigitCountUnique(t, |ds|, b);
  }

  /** The base is found, and all digits are read. */
  lemma NumberReads(mark: string, ds: string, rest: string, base: nat)
    requires IsNumber(mark, ds, rest, base)
    ensures Magnitude(mark + (ds + rest), base) == (Capped(ds, Radix(base, mark, ds)), |mark| + |ds|)
  {
    BaseReads(mark, ds, rest, base);
    hide Magnitude, Capped, IsDigit, BaseOf, Radix;
    var t := ds + rest;
    assert (mark + t)[|mark|..] == t;
    MagnitudeIs(mark + t, t, ds, rest, base, Radix(base, mark, ds));
  }

  lemma StartsNumber(mark: string, ds: string, rest: string, base: nat)
    requires IsNumber(mark, ds, rest, base)
    ensures var u := mark + (ds + rest); u != [] ==> NoSign(u[0])
    ensures IsBase(base)
  {
    hide IsDigit, Num;
    if mark == "" {
      assert mark + (ds + rest) == ds + rest;
    }
  }

  /** What may stand in front of a number. */
  datatype Sign = Unmarked | Plus | Negative
  {
    function Text(): string { if Unmarked? then "" else if Plus? then "+" else "-" }
  }

  predicate AllSpaces(s: string) { forall i | 0 <= i < |s| :: IsSpace(s[i]) }

  /** Behind `k` spaces and a sign, `s` goes on with `u`. */
  predicate Starts(s: string, k: nat, sign: Sign, u: string) {
    && Spaces(s) == k <= |s| && (At(s, k) == '-' <==> sign == Negative) && (At(s, k) == '+' <==> sign == Plus)
    && (sign != Unmarked ==> k < |s|) && u == s[if sign == Unmarked then k else k + 1..]
  }

  lemma SpacesThen(blanks: string, t: string)
    requires AllSpaces(blanks) && (t == [] || !IsSpace(t[0]))
    ensures Spaces(blanks + t) == |blanks| && (blanks + t)[|blanks|..] == t && At(blanks + t, |blanks|) == At(t, 0)
  {
    hide Spaces;
    SpacesUnique(blanks + t, |blanks|);
  }

  function UnsignedOf(sign: Sign, v: nat): nat { if sign == Negative then Minus(v) else v }

  function SignedOf(sign: Sign, v: nat): int { if sign == Negative then 0 - Min(v, HALF) else Min(v, HALF - 1) }

  lemma UnsignedAtSign(s: string, k: nat, base: int)
    requires IsBase(base) && Spaces(s) == k && (At(s, k) == '-' || At(s, k) == '+')
    ensures k < |s|
    ensures var (v, n) := Magnitude(s[k + 1..], base);
            UnsignedValue(s, base) == (if At(s, k) == '-' then Minus(v) else v, k + 1 + n)
  {
    hide Magnitude, Spaces, Minus;
  }

  lemma UnsignedMarked(blanks: string, sign: Sign, u: string, base: int)
    requires AllSpaces(blanks) && IsBase(base) && sign != Unmarked
    ensures UnsignedValue(blanks + (sign.Text() + u), base)
            == (UnsignedOf(sign, Magnitude(u, base).0), |blanks| + 1 + Magnitude(u, base).1)
  {
    hide Magnitude, Spaces, Minus, AllSpaces, UnsignedValue;
    var t := sign.Text() + u;
    assert !IsSpace(t[0]);
    SpacesThen(blanks, t);
    UnsignedAtSign(blanks + t, |blanks|, base);
    assert (blanks + t)[|blanks| + 1..] == u;
  }

  lemma UnsignedUnmarked(blanks: string, u: string, base: int)
    requires AllSpaces(blanks) && IsBase(base) && (u != [] ==> NoSign(u[0]))
    ensures UnsignedValue(blanks + u, base) == (Magnitude(u, base).0, |blanks| + Magnitude(u, base).1)
  {
    SpacesThen(blanks, u);
    hide Magnitude, Spaces, Minus, AllSpaces;
  }

  lemma UnsignedBare(u: string, base: int)
    requires IsBase(base) && (u != [] ==> NoSign(u[0]))
    ensures UnsignedValue(u, base) == Magnitude(u, base)
  {
    hide Magnitude, UnsignedValue;
    UnsignedUnmarked("", u, base);
    assert "" + u == u;
  }

  lemma SignedAtMinus(s: string, k: nat, base: int)
    requires IsBase(base) && Spaces(s) == k && At(s, k) == '-'
    ensures k < |s|
    ensures SignedValue(s, base)
            == (0 - Min(UnsignedValue(s[k + 1..], base).0, HALF), k + 1 + UnsignedValue(s[k + 1..], base).1)
  {
    hide UnsignedValue, Spaces;
  }

  lemma SignedNegative(blanks: string, u: string, base: int)
    requires AllSpaces(blanks) && IsBase(base) && (u != [] ==> NoSign(u[0]))
    ensures SignedValue(blanks + ("-" + u), base)
            == (0 - Min(Magnitude(u, base).0, HALF), |blanks| + 1 + Magnitude(u, base).1)
  {
    hide Magnitude, Spaces, UnsignedValue, SignedValue, AllSpaces;
    var t := "-" + u;
    SpacesThen(blanks, t);
    SignedAtMinus(blanks + t, |blanks|, base);
    UnsignedBare(u, base);
    assert (blanks + t)[|blanks| + 1..] == u;
  }

  lemma SignedPositive(blanks: string, t: string, base: int)
    requires AllSpaces(blanks) && IsBase(base) && (t != [] ==> !IsSpace(t[0]) && t[0] != '-')
    ensures SignedValue(blanks + t, base)
            == (Min(UnsignedValue(t, base).0, HALF - 1), |blanks| + UnsignedValue(t, base).1)
  {
    SpacesThen(blanks, t);
    hide Spaces, UnsignedValue, AllSpaces;
  }

  lemma SignedText(blanks: string, sign: Sign, u: string, base: int)
    requires AllSpaces(blanks) && IsBase(base) && (u != [] ==> NoSign(u[0]))
    ensures var s, n := blanks + (sign.Text() + u), |blanks| + |sign.Text()| + Magnitude(u, base).1;
            && UnsignedValue(s, base) == (UnsignedOf(sign, Magnitude(u, base).0), n)
            && SignedValue(s, base) == (SignedOf(sign, Magnitude(u, base).0), n)
  {
    hide UnsignedValue, SignedValue, Magnitude, AllSpaces;
    match sign
    case Negative =>
      UnsignedMarked(blanks, sign, u, base);
      SignedNegative(blanks, u, base);
    case Plus =>
      UnsignedMarked(blanks, sign, u, base);
      NoSpaces();
      UnsignedMarked("", sign, u, base);
      assert "" + ("+" + u) == "+" + u;
      SignedPositive(blanks, "+" + u, base);
    case Unmarked =>
      assert "" + u == u;
      UnsignedBare(u, base);
      UnsignedUnmarked(blanks, u, base);
      SignedPositive(blanks, u, base);
  }

  lemma NoSpaces()
    ensures AllSpaces("")
  {
  }

  /** The number of a text: strtoul negates the capped value modulo 2^64 for a '-', and strtol clamps
      the capped value. Both stop behind the digits. */
  lemma TextReads(blanks: string, sign: Sign, mark: string, ds: string, rest: string, base: nat)
    requires AllSpaces(blanks) && IsNumber(mark, ds, rest, base)
    ensures var s := blanks + (sign.Text() + (mark + (ds + rest)));
            var v, end := Capped(ds, Radix(base, mark, ds)), |blanks| + |sign.Text()| + (|mark| + |ds|);
            && UnsignedValue(s, base) == (UnsignedOf(sign, v), end) && SignedValue(s, base) == (SignedOf(sign, v), end)
  {
    hide UnsignedValue, SignedValue, Magnitude, AllSpaces, AllDigits, Radix, Capped, Sign.Text, UnsignedOf, SignedOf,
         NoSign, IsNumber, IsDigit, HexMark;
    NumberReads(mark, ds, rest, base);
    StartsNumber(mark, ds, rest, base);
    SignedText(blanks, sign, mark + (ds + rest), base);
  }

  /** In a negative base nothing is a digit. */
  lemma NegativeBase(s: string, base: int)
    requires IsBase(base) && base < 0
    ensures Magnitude(s, base) == (0, 0)
  {
    assert DigitCount(s[0..], 0) == 0;
    assert s[0..][..0] == [];
  }

  /** The overflow test of the loop is exact. */
  lemma OverflowTest(x: nat, digit: nat, base: nat)
    requires base > 0 && digit < WORD
    ensures x > (WORD - 1 - digit) / base <==> x * base + digit >= WORD
  {
    var room := WORD - 1 - digit;
    assert room == room / base * base + room % base;
    if x > room / base {
      TimesMonotone(room / base + 1, x, base);
    } else {
      TimesMonotone(x, room / base, base);
    }
  }

  /** Takes one digit into the value, or finds that the value would not fit in a word. */
  method TakeDigit(x: nat, digit: nat, base: nat) returns (next: nat, fits: bool)
    requires x < WORD && digit < base < WORD
    ensures fits <==> x * base + digit < WORD
    ensures next == if fits then x * base + digit else x
  {
    OverflowTest(x, digit, base);
    fits := x <= (WORD - 1 - digit) / base;
    next := if fits then x * base + digit else x;
  }

  /** The value after one more digit. */
  lemma DigitStep(t: string, c: char, x: nat, overflow: bool, base: nat)
    requires AllDigits(t, base) && IsDigit(c, base)
    requires if overflow then Num(t, base) >= WORD else x == Num(t, base)
    ensures AllDigits(t + [c], base)
    ensures if overflow then Num(t + [c], base) >= WORD
            else Num(t + [c], base) == x * base + DigitValue(c, base).value
  {
    hide Num, AllDigits, DigitValue;
    NumSnoc(t, c, base);
    if overflow {
      TimesMonotone(1, base, Num(t, base));
    }
  }

  /** The digit loop of strtoul, with its overflow flag. */
  method ReadDigits(s: string, start: nat, base: nat) returns (x: nat, i: nat)
    requires start <= |s| && base < WORD
    ensures var n := DigitCount(s[start..], base);
            i == start + n && x == Min(Num(s[start..][..n], base), WORD - 1)
  {
    hide Num, AllDigits, DigitCount;
    x, i := 0, start;
    var overflow := false;
    NumEmpty(base);
    assert s[start..i] == [];
    while true
      invariant start <= i <= |s| && x < WORD
      invariant i - start + DigitCount(s[i..], base) == DigitCount(s[start..], base)
      invariant AllDigits(s[start..i], base)
      invariant if overflow then Num(s[start..i], base) >= WORD else x == Num(s[start..i], base)
      decreases |s| - i
    {
      DigitCountFirst(s, i, base);
      var c := At(s, i);
      var digit: nat;
      if c as int >= 128 {
        break;
      } else if 48 <= c as int < 48 + base {
        digit := c as int - 48;
      } else if base > 10 && 97 <= c as int < 97 + base - 10 {
        digit := c as int - 97 + 10;
      } else if base > 10 && 65 <= c as int < 65 + base - 10 {
        digit := c as int - 65 + 10;
      } else {
        break;
      }
      assert IsDigit(c, base) && DigitValue(c, base).value == digit;
      hide DigitValue;
      DigitStep(s[start..i], c, x, overflow, base);
      assert s[start..i + 1] == s[start..i] + [c];
      var fits;
      x, fits := TakeDigit(x, digit, base);
      if !fits {
        overflow := true;
      }
      i := i + 1;
    }
    assert s[start..][..i - start] == s[start..i];
    if overflow {
      x := WORD - 1;
    }
  }

  /** The part of strtoul after the sign. */
  method ReadMagnitude(s: string, start: nat, base: int) returns (x: nat, end: nat)
    requires NUL !in s && start <= |s| && IsBase(base)
    ensures x == Magnitude(s[start..], base).0 && end == start + Magnitude(s[start..], base).1
  {
    hide DigitCount, Num;
    var b: nat, i := if base < 0 then 0 else base, start;
    ghost var t := s[i..];
    if base == 0 {
      if At(s, i) == '0' && (At(s, i + 1) == 'x' || At(s, i + 1) == 'X') {
        b := 16;
        i := i + 2;
      } else if At(s, i) == '0' {
        b := 8;
      } else {
        b := 10;
      }
    } else if base == 16 && At(s, i) == '0' && (At(s, i + 1) == 'x' || At(s, i + 1) == 'X') {
      i := i + 2;
    }
    assert t[i - start..] == s[i..];
    x, end := ReadDigits(s, i, b);
  }

  method Strtoul(s: string, base: int) returns (x: nat, end: nat)
    requires NUL !in s && IsBase(base)
    ensures (x, end) == UnsignedValue(s, base)
  {
    hide Magnitude;
    var i := SkipSpaces(s, 0);
    assert s[0..] == s;
    var negative := At(s, i) == '-';
    if negative || At(s, i) == '+' {
      i := i + 1;
    }
    x, end := ReadMagnitude(s, i, base);
    if negative {
      x := (WORD - x) % WORD;
    }
  }

  lemma Negated(u: nat)
    requires u <= HALF
    ensures var n := (WORD - u) % WORD; (if n >= HALF then n - WORD else n) == 0 - u
  {
    if u == 0 {
      SmallModulus(0, WORD);
    } else {
      SmallModulus(WORD - u, WORD);
    }
  }

  method Strtol(s: string, base: int) returns (x: int, end: nat)
    requires NUL !in s && IsBase(base)
    ensures (x, end) == SignedValue(s, base)
  {
    hide UnsignedValue;
    var i := SkipSpaces(s, 0);
    assert s[0..] == s;
    var negative := At(s, i) == '-';
    if negative {
      i := i + 1;
    }
    var u, n := Strtoul(s[i..], base);
    end := i + n;
    var bound := if negative then HALF else HALF - 1;
    if u > bound {
      u := bound;
    }
    if negative {
      Negated(u);
      u := (WORD - u) % WORD;
    }
    x := if u >= HALF then u - WORD else u;
  }
}
