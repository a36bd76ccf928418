/** NUL-terminated text. A text is a sequence without its terminator; a pointer is an index into it. */
module CString {
  import opened Options

  const NUL: char := '\0'

  /** Memory at a place of a text; its terminator is at the end. */
  function At(s: string, i: nat): char
    requires i <= |s|
  {
    if i < |s| then s[i] else NUL
  }

  predicate IsSpace(c: char) { 9 <= c as int <= 13 || c == ' ' }

  /** How many spaces a text starts with. */
  function Spaces(s: string): (n: nat)
    ensures n <= |s| && (n < |s| ==> !IsSpace(s[n])) && forall i | 0 <= i < n :: IsSpace(s[i])
  {
    if s == [] || !IsSpace(s[0]) then 0 else 1 + Spaces(s[1..])
  }

  lemma SpacesUnique(s: string, n: nat)
    requires n <= |s| && (n < |s| ==> !IsSpace(s[n])) && forall i | 0 <= i < n :: IsSpace(s[i])
    ensures Spaces(s) == n
  {
  }

  /** The six characters that are spaces in the C locale. */
  lemma SpacesAre(c: char)
    ensures IsSpace(c) <==> c in {' ', '\t', '\n', '\r', 11 as char, 12 as char}
  {
  }

  method SkipSpaces(s: string, start: nat) returns (i: nat)
    requires start <= |s|
    ensures i == start + Spaces(s[start..]) && start <= i <= |s|
  {
    i := start;
    while IsSpace(At(s, i))
      invariant start <= i <= |s|
      invariant i + Spaces(s[i..]) == start + Spaces(s[start..])
      decreases |s| - i
    {
      assert s[i..][1..] == s[i + 1..];
      i := i + 1;
    }
  }

  /** What a character counts for; nothing does in base 0. In base 16 the first test takes ':' to '?'
      as well. A char from 128 on is negative. */
  function DigitValue(c: char, base: nat): (d: Option<nat>)
    ensures d.Some? ==> d.value < base
  {
    if c as int >= 128 then None
    else if 48 <= c as int < 48 + base then Some(c as int - 48)
    else if base > 10 && 97 <= c as int < 97 + base - 10 then Some(c as int - 97 + 10)
    else if base > 10 && 65 <= c as int < 65 + base - 10 then Some(c as int - 65 + 10)
    else None
  }

  predicate IsDigit(c: char, base: nat) { DigitValue(c, base).Some? }

  predicate AllDigits(s: string, base: nat) { forall i | 0 <= i < |s| :: IsDigit(s[i], base) }

  /** How many digits a text starts with. */
  function DigitCount(s: string, base: nat): (n: nat)
    ensures n <= |s| && AllDigits(s[..n], base) && (n < |s| ==> !IsDigit(s[n], base))
  {
    if s == [] || !IsDigit(s[0], base) then 0 else 1 + DigitCount(s[1..], base)
  }

  lemma DigitCountFirst(s: string, i: nat, base: nat)
    requires i <= |s|
    ensures if IsDigit(At(s, i), base) && i < |s| then DigitCount(s[i..], base) == 1 + DigitCount(s[i + 1..], base)
            else DigitCount(s[i..], base) == 0
  {
    if i < |s| {
      assert s[i..][0] == s[i] && s[i..][1..] == s[i + 1..];
    }
  }

  lemma PrefixDigits(s: string, n: nat, base: nat)
    requires n <= |s| && AllDigits(s[..n], base)
    ensures forall i | 0 <= i < n :: IsDigit(s[i], base)
  {
    forall i | 0 <= i < n ensures IsDigit(s[i], base) {
      assert s[..n][i] == s[i];
    }
  }

  lemma DigitCountUnique(s: string, n: nat, base: nat)
    requires n <= |s| && AllDigits(s[..n], base) && (n < |s| ==> !IsDigit(s[n], base))
    ensures DigitCount(s, base) == n
  {
    hide IsDigit;
    PrefixDigits(s, n, base);
    PrefixDigits(s, DigitCount(s, base), base);
  }
}
