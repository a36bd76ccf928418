/** The shell's tokenizer: `parse_shell_token` on a NUL-terminated command line. */
module ShellToken {
  import opened CString
  import opened Options

  const NORMAL := 0
  const REDIRECTION := 1
  const SEQUENCE := 2
  const BACKGROUND := 3
  const PIPE := 4
  const AND := 5
  const OR := 6
  const LPAREN := 7
  const RPAREN := 8
  const OTHER := -1

  /** An operator or the start of a comment: no unquoted word goes past one. */
  predicate IsSpecial(c: char) {
    c == '<' || c == '>' || c == '&' || c == '|' || c == ';' || c == '(' || c == ')' || c == '#'
  }

  datatype Token = Token(ty: int, text: string)

  /** A token and how many characters the pointer moves; or none, at the end of the line. */
  datatype Parsed = End | Parsed(token: Token, length: nat)

  // ---------------------------------------------------------------------
  // The grammar of tokens

  /** The rest of a word, inside the quotation `quoted` or outside of any (NUL), and its length. */
  function Word(t: string, quoted: char): (r: (string, nat))
    ensures r.1 <= |t|
    ensures t != [] && (quoted != NUL || (!IsSpace(t[0]) && !IsSpecial(t[0]))) ==> r.1 > 0
  {
    if t == [] || (quoted == NUL && (IsSpace(t[0]) || IsSpecial(t[0]))) then ([], 0)
    else if (t[0] == '\"' || t[0] == '\'') && quoted == NUL then
      var (w, n) := Word(t[1..], t[0]);
      (w, n + 1)
    else if t[0] == quoted then
      var (w, n) := Word(t[1..], NUL);
      (w, n + 1)
    else if t[0] == '\\' && |t| > 1 && quoted != '\'' then
      var (w, n) := Word(t[2..], quoted);
      ([t[1]] + w, n + 2)
    else
      var (w, n) := Word(t[1..], quoted);
      ([t[0]] + w, n + 1)
  }

  function SpecialType(c: char): int {
    if c == ';' then SEQUENCE
    else if c == '&' then BACKGROUND
    else if c == '|' then PIPE
    else if c == '(' then LPAREN
    else if c == ')' then RPAREN
    else OTHER
  }

  /** A redirection after `d` digits, whose `u` starts with '<' or '>'. The step past the digits of
      a target takes one character more. */
  function Redirection(t: string, d: nat): Parsed
    requires d < |t|
  {
    var u := t[d..];
    if |u| > 1 && u[1] == '>' then Parsed(Token(REDIRECTION, t[..d + 2]), d + 2)
    else if |u| > 2 && u[1] == '&' && IsDigit(u[2], 10) then
      var e := DigitCount(u[2..], 10);
      Parsed(Token(REDIRECTION, t[..d + 2 + e]), d + 2 + e + 1)
    else Parsed(Token(REDIRECTION, t[..d + 1]), d + 1)
  }

  /** The token at the start of a text that does not start with a space. */
  function Here(t: string): Parsed {
    if t == [] || t[0] == '#' then End
    else
      var d := DigitCount(t, 10);
      var u := t[d..];
      if u != [] && (u[0] == '<' || u[0] == '>') then Redirection(t, d)
      else if d == 0 && (t[0] == '&' || t[0] == '|') && |t| > 1 && t[1] == t[0] then
        Parsed(Token(if t[0] == '&' then AND else OR, t[..2]), 2)
      else if d == 0 && IsSpecial(t[0]) then Parsed(Token(SpecialType(t[0]), t[..1]), 1)
      else Parsed(Token(NORMAL, t[..d] + Word(u, NUL).0), d + Word(u, NUL).1)
  }

  function Parse(t: string): Parsed {
    var k := Spaces(t);
    match Here(t[k..])
    case End => End
    case Parsed(token, n) => Parsed(token, k + n)
  }

  /** The line ends in a redirection to a descriptor: its digits are the last characters. */
  predicate EndsInTarget(t: string) { IsTarget(t[Spaces(t)..]) }

  /** The whole of `u` is a redirection to a descriptor. */
  predicate IsTarget(u: string) {
    var v := u[DigitCount(u, 10)..];
    |v| > 2 && (v[0] == '<' || v[0] == '>') && v[1] == '&' && IsDigit(v[2], 10) && DigitCount(v[2..], 10) == |v| - 2
  }

  /** Every token strictly advances the pointer; it leaves the text exactly if the line ends in a
      redirection to a descriptor, and then by one character. The type is never TOKEN_OTHER. */
  lemma Advances(t: string)
    requires Parse(t).Parsed?
    ensures 1 <= Parse(t).length <= |t| + 1
    ensures Parse(t).length == |t| + 1 <==> EndsInTarget(t)
    ensures Parse(t).token.ty != OTHER
    ensures NORMAL <= Parse(t).token.ty <= RPAREN
  {
    hide Here, IsTarget;
    HereAdvances(t[Spaces(t)..]);
  }

  lemma HereAdvances(t: string)
    requires Here(t).Parsed? && (t == [] || !IsSpace(t[0]))
    ensures 1 <= Here(t).length <= |t| + 1
    ensures Here(t).length == |t| + 1 <==> IsTarget(t)
    ensures NORMAL <= Here(t).token.ty <= RPAREN
  {
    hide DigitValue, IsSpecial, IsSpace;
    var d := DigitCount(t, 10);
    if d < |t| && (t[d] == '<' || t[d] == '>') {
    } else if d == 0 && IsSpecial(t[0]) {
      SpecialHasType(t[0]);
    }
  }

  lemma SpecialHasType(c: char)
    requires IsSpecial(c) && c != '<' && c != '>' && c != '#'
    ensures NORMAL <= SpecialType(c) <= RPAREN
  {
  }

  /** Nothing is left exactly if the next character after spaces ends the line or starts a comment. */
  lemma EndsAt(t: string)
    ensures Parse(t).End? <==> Spaces(t) == |t| || t[Spaces(t)] == '#'
  {
  }

  // ---------------------------------------------------------------------
  // Round trip

  /** A character, as it is or with a backslash before. */
  datatype Char = Bare(c: char) | Slashed(c: char)

  /** A part of a word: a character, a text in single quotation marks, or characters in double ones. */
  datatype Piece = One(ch: Char) | Single(text: string) | Double(chars: seq<Char>)

  /** Tokens to print: words of any pieces, operators, and redirections. */
  datatype Item = WordItem(pieces: seq<Piece>) | OperatorItem(ty: int)
                | RedirectItem(fd: string, op: string) | DuplicateItem(fd: string, angle: char, target: string)

  /** A character that ends a word. */
  predicate EndsWord(c: char) { c in " \t\n\r" || c as int == 11 || c as int == 12 || c in "<>&|;()#" }

  /** What a character may be when it stands for itself: `quoted` tells whether in double quotation marks. */
  predicate CharPrintable(ch: Char, quoted: bool) {
    match ch
    case Slashed(c) => c != NUL
    case Bare(c) => c != NUL && c != '\"' && c != '\\' && (quoted || (c != '\'' && !EndsWord(c)))
  }

  predicate PiecePrintable(piece: Piece) {
    match piece
    case One(ch) => CharPrintable(ch, false)
    case Single(text) => NUL !in text && '\'' !in text
    case Double(chars) => forall i | 0 <= i < |chars| :: CharPrintable(chars[i], true)
  }

  function PrintChar(ch: Char): string { if ch.Bare? then [ch.c] else ['\\', ch.c] }

  function PrintChars(chars: seq<Char>): string {
    if chars == [] then [] else PrintChar(chars[0]) + PrintChars(chars[1..])
  }

  function CharsText(chars: seq<Char>): string { seq(|chars|, i requires 0 <= i < |chars| => chars[i].c) }

  function PrintPiece(piece: Piece): string {
    match piece
    case One(ch) => PrintChar(ch)
    case Single(text) => ['\''] + text + ['\'']
    case Double(chars) => ['\"'] + PrintChars(chars) + ['\"']
  }

  function PieceText(piece: Piece): string {
    match piece
    case One(ch) => [ch.c]
    case Single(text) => text
    case Double(chars) => CharsText(chars)
  }

  function PrintPieces(pieces: seq<Piece>): string {
    if pieces == [] then [] else PrintPiece(pieces[0]) + PrintPieces(pieces[1..])
  }

  function PiecesText(pieces: seq<Piece>): string {
    if pieces == [] then [] else PieceText(pieces[0]) + PiecesText(pieces[1..])
  }

  predicate WordPrintable(pieces: seq<Piece>) {
    pieces != [] && forall i | 0 <= i < |pieces| :: PiecePrintable(pieces[i])
  }

  function OperatorText(ty: int): string {
    if ty == SEQUENCE then ";" else if ty == BACKGROUND then "&" else if ty == PIPE then "|"
    else if ty == AND then "&&" else if ty == OR then "||" else if ty == LPAREN then "(" else ")"
  }

  ghost predicate Printable(item: Item) {
    match item
    case WordItem(pieces) => WordPrintable(pieces)
    case OperatorItem(ty) => SEQUENCE <= ty <= RPAREN
    case RedirectItem(fd, op) => AllDigits(fd, 10) && (op == "<" || op == ">" || op == "<>" || op == ">>")
    case DuplicateItem(fd, op, target) =>
      AllDigits(fd, 10) && (op == '<' || op == '>') && AllDigits(target, 10) && target != []
  }

  function Print(item: Item): string {
    match item
    case WordItem(pieces) => PrintPieces(pieces)
    case OperatorItem(ty) => OperatorText(ty)
    case RedirectItem(fd, op) => fd + op
    case DuplicateItem(fd, op, target) => fd + [op, '&'] + target
  }

  function TokenOf(item: Item): Token {
    match item
    case WordItem(pieces) => Token(NORMAL, PiecesText(pieces))
    case OperatorItem(ty) => Token(ty, OperatorText(ty))
    case RedirectItem(fd, op) => Token(REDIRECTION, fd + op)
    case DuplicateItem(fd, op, target) => Token(REDIRECTION, fd + [op, '&'] + target)
  }

  lemma EndsWordIff(c: char)
    ensures EndsWord(c) <==> IsSpace(c) || IsSpecial(c)
  {
  }

  lemma WordBare(c: char, after: string, quoted: char)
    requires (quoted == NUL || quoted == '\"') && CharPrintable(Bare(c), quoted != NUL)
    ensures Word([c] + after, quoted) == ([c] + Word(after, quoted).0, 1 + Word(after, quoted).1)
  {
    EndsWordIff(c);
    hide IsSpace, IsSpecial, EndsWord;
    assert ([c] + after)[1..] == after;
  }

  lemma WordSlashed(c: char, after: string, quoted: char)
    requires quoted == NUL || quoted == '\"'
    ensures Word(['\\', c] + after, quoted) == ([c] + Word(after, quoted).0, 2 + Word(after, quoted).1)
  {
    hide Word;
    var t := ['\\', c] + after;
    WordBackslash(t, quoted);
    assert t[2..] == after;
  }

  lemma WordBackslash(t: string, quoted: char)
    requires |t| > 1 && t[0] == '\\' && (quoted == NUL || quoted == '\"')
    ensures Word(t, quoted) == ([t[1]] + Word(t[2..], quoted).0, 2 + Word(t[2..], quoted).1)
  {
  }

  lemma WordChar(ch: Char, after: string, quoted: char)
    requires (quoted == NUL || quoted == '\"') && CharPrintable(ch, quoted != NUL)
    ensures Word(PrintChar(ch) + after, quoted)
            == ([ch.c] + Word(after, quoted).0, |PrintChar(ch)| + Word(after, quoted).1)
  {
    hide Word;
    match ch
    case Bare(c) => WordBare(c, after, quoted);
    case Slashed(c) => WordSlashed(c, after, quoted);
  }

  lemma {:induction false} WordDouble(chars: seq<Char>, after: string)
    requires forall i | 0 <= i < |chars| :: CharPrintable(chars[i], true)
    ensures Word(PrintChars(chars) + after, '\"')
            == (CharsText(chars) + Word(after, '\"').0, |PrintChars(chars)| + Word(after, '\"').1)
  {
    hide Word;
    if chars == [] {
      assert PrintChars(chars) + after == after && CharsText(chars) + Word(after, '\"').0 == Word(after, '\"').0;
    } else {
      var later := PrintChars(chars[1..]) + after;
      assert PrintChars(chars) + after == PrintChar(chars[0]) + later;
      WordChar(chars[0], later, '\"');
      WordDouble(chars[1..], after);
      assert CharsText(chars) == [chars[0].c] + CharsText(chars[1..]);
      assert [chars[0].c] + (CharsText(chars[1..]) + Word(after, '\"').0) == CharsText(chars) + Word(after, '\"').0;
    }
  }

  /** A quotation mark changes how what follows is read. */
  lemma QuoteTurns(t: string, q: char)
    requires t != [] && t[0] == q && (q == '\"' || q == '\'')
    ensures Word(t, q) == (Word(t[1..], NUL).0, 1 + Word(t[1..], NUL).1)
    ensures Word(t, NUL) == (Word(t[1..], q).0, 1 + Word(t[1..], q).1)
  {
  }

  /** In single quotation marks every other character stands for itself, a backslash too. */
  lemma {:induction false} WordSingle(text: string, after: string)
    requires NUL !in text && '\'' !in text
    ensures Word(text + after, '\'') == (text + Word(after, '\'').0, |text| + Word(after, '\'').1)
  {
    if text == [] {
      assert text + after == after && text + Word(after, '\'').0 == Word(after, '\'').0;
    } else {
      assert (text + after)[1..] == text[1..] + after && text[0] in text;
      WordSingle(text[1..], after);
      assert [text[0]] + (text[1..] + Word(after, '\'').0) == text + Word(after, '\'').0;
    }
  }

  /** A quotation `t`, when it is known that its inside, `n` characters up to `closing`, is read as `text`. */
  lemma WordQuoted(t: string, q: char, n: nat, text: string, closing: string, rest: string)
    requires (q == '\"' || q == '\'') && t != [] && t[0] == q
    requires Word(t[1..], q) == (text + Word(closing, q).0, n + Word(closing, q).1)
    requires closing != [] && closing[0] == q && closing[1..] == rest
    ensures Word(t, NUL) == (text + Word(rest, NUL).0, n + 2 + Word(rest, NUL).1)
  {
    hide Word;
    QuoteTurns(closing, q);
    QuoteTurns(t, q);
  }

  lemma BehindFirst(q: char, rest: string)
    ensures [q] + rest != [] && ([q] + rest)[0] == q && ([q] + rest)[1..] == rest
  {
  }

  lemma Inside(q: char, inside: string, rest: string)
    ensures var t := [q] + inside + [q] + rest; t != [] && t[0] == q && t[1..] == inside + ([q] + rest)
  {
  }

  lemma SingleInside(text: string, rest: string)
    requires NUL !in text && '\'' !in text
    ensures var t, closing := ['\''] + text + ['\''] + rest, ['\''] + rest;
            && t != [] && t[0] == '\''
            && Word(t[1..], '\'') == (text + Word(closing, '\'').0, |text| + Word(closing, '\'').1)
  {
    hide Word;
    Inside('\'', text, rest);
    WordSingle(text, ['\''] + rest);
  }

  lemma WordSinglePiece(text: string, rest: string)
    requires NUL !in text && '\'' !in text
    ensures Word(['\''] + text + ['\''] + rest, NUL) == (text + Word(rest, NUL).0, |text| + 2 + Word(rest, NUL).1)
  {
    hide Word;
    SingleInside(text, rest);
    BehindFirst('\'', rest);
    WordQuoted(['\''] + text + ['\''] + rest, '\'', |text|, text, ['\''] + rest, rest);
  }

  lemma DoubleInside(chars: seq<Char>, rest: string)
    requires forall i | 0 <= i < |chars| :: CharPrintable(chars[i], true)
    ensures var t, closing := ['\"'] + PrintChars(chars) + ['\"'] + rest, ['\"'] + rest;
            && t != [] && t[0] == '\"'
            && Word(t[1..], '\"')
               == (CharsText(chars) + Word(closing, '\"').0, |PrintChars(chars)| + Word(closing, '\"').1)
  {
    hide Word, PrintChars, CharsText;
    Inside('\"', PrintChars(chars), rest);
    WordDouble(chars, ['\"'] + rest);
  }

  lemma WordDoublePiece(chars: seq<Char>, rest: string)
    requires forall i | 0 <= i < |chars| :: CharPrintable(chars[i], true)
    ensures Word(['\"'] + PrintChars(chars) + ['\"'] + rest, NUL)
            == (CharsText(chars) + Word(rest, NUL).0, |PrintChars(chars)| + 2 + Word(rest, NUL).1)
  {
    hide Word, PrintChars, CharsText;
    DoubleInside(chars, rest);
    BehindFirst('\"', rest);
    var text := PrintChars(chars);
    WordQuoted(['\"'] + text + ['\"'] + rest, '\"', |text|, CharsText(chars), ['\"'] + rest, rest);
  }

  lemma WordPiece(piece: Piece, rest: string)
    requires PiecePrintable(piece)
    ensures Word(PrintPiece(piece) + rest, NUL)
            == (PieceText(piece) + Word(rest, NUL).0, |PrintPiece(piece)| + Word(rest, NUL).1)
  {
    hide Word, PrintChars, CharsText;
    match piece
    case One(ch) => WordChar(ch, rest, NUL);
    case Single(text) => WordSinglePiece(text, rest);
    case Double(chars) => WordDoublePiece(chars, rest);
  }

  /** A word is read as the texts of its pieces, one after the other. */
  lemma {:induction false} WordPieces(pieces: seq<Piece>, rest: string)
    requires forall i | 0 <= i < |pieces| :: PiecePrintable(pieces[i])
    ensures Word(PrintPieces(pieces) + rest, NUL)
            == (PiecesText(pieces) + Word(rest, NUL).0, |PrintPieces(pieces)| + Word(rest, NUL).1)
  {
    hide Word, PrintPiece, PieceText, PiecePrintable;
    if pieces == [] {
      assert PrintPieces(pieces) + rest == rest && PiecesText(pieces) + Word(rest, NUL).0 == Word(rest, NUL).0;
    } else {
      var after := PrintPieces(pieces[1..]) + rest;
      assert PrintPieces(pieces) + rest == PrintPiece(pieces[0]) + after;
      WordPiece(pieces[0], after);
      WordPieces(pieces[1..], rest);
      assert PieceText(pieces[0]) + (PiecesText(pieces[1..]) + Word(rest, NUL).0)
             == PiecesText(pieces) + Word(rest, NUL).0;
    }
  }

  /** At the end of the line a quotation that is still open ends, and a backslash stands for itself. */
  lemma SingleCutShort(text: string)
    requires NUL !in text && '\'' !in text
    ensures Word(['\''] + text, NUL) == (text, 1 + |text|)
  {
    NothingToRead('\'');
    hide Word;
    QuoteTurns(['\''] + text, '\'');
    WordSingle(text, []);
    assert text + [] == text && (['\''] + text)[1..] == text;
  }

  lemma DoubleCutShort(chars: seq<Char>)
    requires forall i | 0 <= i < |chars| :: CharPrintable(chars[i], true)
    ensures Word(['\"'] + PrintChars(chars), NUL) == (CharsText(chars), 1 + |PrintChars(chars)|)
  {
    NothingToRead('\"');
    hide Word;
    var text := PrintChars(chars);
    QuoteTurns(['\"'] + text, '\"');
    WordDouble(chars, []);
    assert text + [] == text && CharsText(chars) + [] == CharsText(chars) && (['\"'] + text)[1..] == text;
  }

  lemma NothingToRead(quoted: char)
    ensures Word([], quoted) == ([], 0)
  {
  }

  lemma LoneBackslash()
    ensures Word("\\", NUL) == ("\\", 1)
  {
    var t := "\\";
    assert t[1..] == "" && Word("", NUL) == ([], 0);
    assert [t[0]] + [] == t;
  }

  /** Digits are read like any other character of a word. */
  lemma {:induction false} WordDigits(ds: string, after: string)
    requires AllDigits(ds, 10)
    ensures Word(ds + after, NUL) == (ds + Word(after, NUL).0, |ds| + Word(after, NUL).1)
  {
    hide Word;
    if ds == [] {
      assert ds + after == after && ds + Word(after, NUL).0 == Word(after, NUL).0;
    } else {
      var later := ds[1..] + after;
      assert ds + after == [ds[0]] + later;
      DigitIsPlain(ds[0]);
      WordBare(ds[0], later, NUL);
      WordDigits(ds[1..], after);
      assert [ds[0]] + (ds[1..] + Word(after, NUL).0) == ds + Word(after, NUL).0;
    }
  }

  lemma DigitIsPlain(c: char)
    requires IsDigit(c, 10)
    ensures CharPrintable(Bare(c), false)
  {
  }

  /** All pieces are bare digits: before '<' or '>' they would be a descriptor. */
  predicate OnlyDigits(pieces: seq<Piece>) {
    forall i | 0 <= i < |pieces| :: pieces[i].One? && pieces[i].ch.Bare? && '0' <= pieces[i].ch.c <= '9'
  }

  lemma {:induction false} NoAngle(pieces: seq<Piece>, rest: string)
    requires (forall i | 0 <= i < |pieces| :: PiecePrintable(pieces[i])) && (rest == [] || EndsWord(rest[0]))
    requires OnlyDigits(pieces) ==> rest == [] || (rest[0] != '<' && rest[0] != '>')
    ensures var t := PrintPieces(pieces) + rest;
            var u := t[DigitCount(t, 10)..];
            u == [] || (u[0] != '<' && u[0] != '>')
  {
    hide PiecePrintable, PrintPiece, EndsWord, IsDigit;
    var t := PrintPieces(pieces) + rest;
    if pieces == [] {
      assert t == rest;
      if rest != [] {
        EndsAreNoDigits(rest[0]);
      }
    } else {
      var after := PrintPieces(pieces[1..]) + rest;
      assert t == PrintPiece(pieces[0]) + after;
      FirstOfPiece(pieces[0]);
      if IsDigit(t[0], 10) {
        assert t[1..] == after;
        if OnlyDigits(pieces[1..]) {
          MoreDigitPieces(pieces);
        }
        NoAngle(pieces[1..], rest);
        assert t[DigitCount(t, 10)..] == after[DigitCount(after, 10)..];
      } else {
        EndsAreNoDigits('<');
        EndsAreNoDigits('>');
      }
    }
  }

  lemma EndsAreNoDigits(c: char)
    ensures EndsWord(c) ==> !IsDigit(c, 10)
    ensures EndsWord('<') && EndsWord('>')
  {
  }

  lemma MoreDigitPieces(pieces: seq<Piece>)
    requires pieces != [] && OnlyDigits(pieces[..1]) && OnlyDigits(pieces[1..])
    ensures OnlyDigits(pieces)
  {
    assert forall i | 1 <= i < |pieces| :: pieces[i] == pieces[1..][i - 1];
    assert pieces[0] == pieces[..1][0];
  }

  lemma FirstOfPiece(piece: Piece)
    requires PiecePrintable(piece)
    ensures var p := PrintPiece(piece);
            && p != [] && !EndsWord(p[0])
            && (IsDigit(p[0], 10) ==> |p| == 1 && piece.One? && piece.ch.Bare? && '0' <= piece.ch.c <= '9')
  {
  }

  lemma {:induction false} DigitsAppend(ds: string, rest: string)
    requires AllDigits(ds, 10) && (rest == [] || !IsDigit(rest[0], 10))
    ensures DigitCount(ds + rest, 10) == |ds|
  {
    if ds == [] {
      assert ds + rest == rest;
    } else {
      assert (ds + rest)[1..] == ds[1..] + rest;
      DigitsAppend(ds[1..], rest);
    }
  }

  /** How far the pointer moves over a printed item. */
  function Stepped(item: Item): nat { |Print(item)| + if item.DuplicateItem? then 1 else 0 }

  /** A text that starts with no operator and with no redirection is a word. */
  lemma HereIsWord(t: string)
    requires t != [] && !IsSpecial(t[0])
    requires var u := t[DigitCount(t, 10)..]; u == [] || (u[0] != '<' && u[0] != '>')
    ensures Here(t) == Parsed(Token(NORMAL, Word(t, NUL).0), Word(t, NUL).1)
  {
    HereAsWord(t);
    hide Word, Here, IsSpecial;
    var d := DigitCount(t, 10);
    assert t == t[..d] + t[d..];
    WordDigits(t[..d], t[d..]);
  }

  lemma HereAsWord(t: string)
    requires t != [] && !IsSpecial(t[0])
    requires var u := t[DigitCount(t, 10)..]; u == [] || (u[0] != '<' && u[0] != '>')
    ensures var d := DigitCount(t, 10);
            Here(t) == Parsed(Token(NORMAL, t[..d] + Word(t[d..], NUL).0), d + Word(t[d..], NUL).1)
  {
    hide Word;
  }

  /** Digits and an angle bracket make a redirection. */
  lemma RedirectionHere(ds: string, u: string)
    requires AllDigits(ds, 10) && u != [] && (u[0] == '<' || u[0] == '>')
    ensures Here(ds + u) == Redirection(ds + u, |ds|)
  {
    DigitsAppend(ds, u);
    assert (ds + u)[|ds|..] == u;
  }

  /** A word of any pieces is one token, up to a character that ends it. */
  lemma WordPrints(pieces: seq<Piece>, rest: string)
    requires WordPrintable(pieces) && (rest == [] || EndsWord(rest[0]))
    requires OnlyDigits(pieces) ==> rest == [] || (rest[0] != '<' && rest[0] != '>')
    ensures Here(PrintPieces(pieces) + rest) == Parsed(Token(NORMAL, PiecesText(pieces)), |PrintPieces(pieces)|)
  {
    var t := PrintPieces(pieces) + rest;
    assert PrintPieces(pieces) == PrintPiece(pieces[0]) + PrintPieces(pieces[1..]);
    FirstOfPiece(pieces[0]);
    EndsWordIff(t[0]);
    if rest != [] {
      EndsWordIff(rest[0]);
    }
    NoAngle(pieces, rest);
    WordPieces(pieces, rest);
    assert Word(rest, NUL) == ([], 0);
    assert PiecesText(pieces) + [] == PiecesText(pieces);
    HereIsWord(t);
  }

  /** An operator is one token whatever follows, but for a second `&` or `|`. */
  lemma OperatorPrints(ty: int, rest: string)
    requires SEQUENCE <= ty <= RPAREN
    requires ty == BACKGROUND || ty == PIPE ==> rest == [] || rest[0] != OperatorText(ty)[0]
    ensures Here(OperatorText(ty) + rest) == Parsed(Token(ty, OperatorText(ty)), |OperatorText(ty)|)
  {
    hide Word, Redirection;
    var p := OperatorText(ty);
    var t := p + rest;
    assert t[..|p|] == p && t[0] == p[0];
    assert DigitCount(t, 10) == 0;
    if ty == AND || ty == OR {
      assert |t| > 1 && t[1] == t[0];
    } else if rest != [] {
      assert t[1] == rest[0];
    }
  }

  /** A redirection of a descriptor to or from a file. */
  lemma RedirectPrints(fd: string, op: string, rest: string)
    requires Printable(RedirectItem(fd, op))
    requires |op| == 1 ==> rest == [] || (rest[0] != '>' && !(|rest| > 1 && rest[0] == '&' && IsDigit(rest[1], 10)))
    ensures Here(fd + op + rest) == Parsed(Token(REDIRECTION, fd + op), |fd + op|)
  {
    hide Here;
    var u := op + rest;
    var t := fd + op + rest;
    assert t == fd + u && t[|fd|..] == u && t[..|fd| + |op|] == fd + op;
    RedirectionHere(fd, u);
    assert |op| == 1 ==> u[1..] == rest;
  }

  /** A redirection of a descriptor to another. */
  lemma DuplicatePrints(fd: string, angle: char, target: string, rest: string)
    requires Printable(DuplicateItem(fd, angle, target)) && (rest == [] || !IsDigit(rest[0], 10))
    ensures var p := fd + [angle, '&'] + target; Here(p + rest) == Parsed(Token(REDIRECTION, p), |p| + 1)
  {
    hide Here, DigitCount, DigitValue;
    var p := fd + [angle, '&'] + target;
    var after := target + rest;
    var u := [angle, '&'] + after;
    var t := p + rest;
    assert t == fd + u && t[|fd|..] == u && t[..|p|] == p;
    RedirectionHere(fd, u);
    assert u[2..] == after && u[2] == target[0];
    DigitsAppend(target, rest);
  }

  lemma SpaceIsNoDigit()
    ensures !IsDigit(' ', 10)
  {
  }

  lemma ItemPrints(item: Item, rest: string)
    requires Printable(item)
    ensures Here(Print(item) + " " + rest) == Parsed(TokenOf(item), Stepped(item))
  {
    hide Here, IsDigit;
    SpaceIsNoDigit();
    var after := " " + rest;
    assert Print(item) + " " + rest == Print(item) + after;
    match item
    case WordItem(pieces) => WordPrints(pieces, after);
    case OperatorItem(ty) => OperatorPrints(ty, after);
    case RedirectItem(fd, op) => RedirectPrints(fd, op, after);
    case DuplicateItem(fd, op, target) => DuplicatePrints(fd, op, target, after);
  }

  /** A text of characters that mean nothing to the shell is a word as it is. */
  lemma {:induction false} PlainPieces(text: string) returns (pieces: seq<Piece>)
    requires forall i | 0 <= i < |text| :: CharPrintable(Bare(text[i]), false)
    ensures PrintPieces(pieces) == text == PiecesText(pieces) && |pieces| == |text|
    ensures forall i | 0 <= i < |pieces| :: pieces[i] == One(Bare(text[i]))
  {
    pieces := [];
    if text != [] {
      var rest := PlainPieces(text[1..]);
      pieces := [One(Bare(text[0]))] + rest;
      assert pieces[1..] == rest && PrintChar(Bare(text[0])) == [text[0]];
      assert [text[0]] + text[1..] == text;
    }
  }

  lemma PlainWord(text: string, rest: string)
    requires text != [] && forall i | 0 <= i < |text| :: CharPrintable(Bare(text[i]), false)
    ensures Here(text + " " + rest) == Parsed(Token(NORMAL, text), |text|)
  {
    hide Here, CharPrintable;
    var pieces := PlainPieces(text);
    WordPrints(pieces, " " + rest);
    assert text + " " + rest == text + (" " + rest);
  }

  /** Every text can be written as a word, in double quotation marks. */
  lemma AnyText(text: string) returns (pieces: seq<Piece>)
    requires NUL !in text
    ensures WordPrintable(pieces) && PiecesText(pieces) == text
  {
    var chars := seq(|text|, i requires 0 <= i < |text| =>
                     if text[i] == '\"' || text[i] == '\\' then Slashed(text[i]) else Bare(text[i]));
    pieces := [Double(chars)];
    assert CharsText(chars) == text;
    assert PiecesText(pieces) == PieceText(pieces[0]) + PiecesText([]);
  }

  /** All tokens of a line; none if the pointer leaves the text before its end has been seen. */
  function Tokens(t: string): Option<seq<Token>>
    decreases |t|
  {
    match Parse(t)
    case End => Some([])
    case Parsed(token, n) =>
      Advances(t);
      if n > |t| then None
      else match Tokens(t[n..])
           case Some(more) => Some([token] + more)
           case None => None
  }

  /** A redirection at the end of a line is a token. */
  lemma TargetIsToken(t: string)
    ensures EndsInTarget(t) <==> Parse(t).Parsed? && Parse(t).length == |t| + 1
    ensures Parse(t).Parsed? ==> 1 <= Parse(t).length <= |t| + 1
  {
    if Parse(t).Parsed? {
      Advances(t);
    }
  }

  lemma TokensStep(t: string)
    ensures Parse(t).End? ==> Tokens(t) == Some([])
    ensures Parse(t).Parsed? ==> 1 <= Parse(t).length <= |t| + 1
    ensures Parse(t).Parsed? && Parse(t).length > |t| ==> Tokens(t) == None && EndsInTarget(t)
    ensures Parse(t).Parsed? && Parse(t).length <= |t| ==>
              && !EndsInTarget(t)
              && var more := Tokens(t[Parse(t).length..]);
                 Tokens(t) == if more.Some? then Some([Parse(t).token] + more.value) else None
  {
    hide EndsInTarget, Parse;
    TargetIsToken(t);
  }

  lemma {:induction false} AllDigitsLast(t: string)
    requires t != [] && DigitCount(t, 10) == |t|
    ensures IsDigit(t[|t| - 1], 10)
  {
    if |t| > 1 {
      AllDigitsLast(t[1..]);
    }
  }

  lemma EndsInDigit(t: string)
    requires EndsInTarget(t)
    ensures t != [] && IsDigit(t[|t| - 1], 10)
  {
    var u := t[Spaces(t)..];
    var v := u[DigitCount(u, 10)..];
    AllDigitsLast(v[2..]);
    assert v[2..][|v| - 3] == v[|v| - 1] == u[|u| - 1] == t[|t| - 1];
  }

  /** The loop over the tokens of a line leaves the text only if the line ends in a digit. */
  lemma {:induction false} LeavesOnlyAfterDigit(t: string)
    requires Tokens(t) == None
    ensures t != [] && IsDigit(t[|t| - 1], 10)
    decreases |t|
  {
    hide EndsInTarget, Parse, Tokens;
    TokensStep(t);
    var n := Parse(t).length;
    if n > |t| {
      EndsInDigit(t);
    } else {
      LeavesOnlyAfterDigit(t[n..]);
    }
  }

  /** The loop over the tokens of a line comes to place `k`. */
  predicate ComesTo(t: string, k: nat)
    requires k <= |t|
    decreases |t|
  {
    k == 0 ||
    match Parse(t)
    case End => false
    case Parsed(_, n) => Advances(t); n <= k && ComesTo(t[n..], k - n)
  }

  /** The loop leaves the text exactly if it comes to a place from which the line is one redirection
      to a descriptor, with no character behind its digits. */
  lemma {:induction false} LeavesIff(t: string)
    ensures Tokens(t) == None <==> exists k: nat | k <= |t| :: ComesTo(t, k) && EndsInTarget(t[k..])
    decreases |t|
  {
    hide EndsInTarget, Parse, Tokens, ComesTo;
    assert t[0..] == t;
    TokensStep(t);
    TargetIsToken(t);
    forall k: nat | k <= |t| {
      ComesToStep(t, k);
    }
    if Parse(t).Parsed? && Parse(t).length <= |t| {
      var n := Parse(t).length;
      LeavesIff(t[n..]);
      if Tokens(t) == None {
        var j: nat :| j <= |t[n..]| && ComesTo(t[n..], j) && EndsInTarget(t[n..][j..]);
        assert t[n..][j..] == t[n + j..];
        assert ComesTo(t, n + j) && EndsInTarget(t[n + j..]);
      }
      if k: nat :| k <= |t| && ComesTo(t, k) && EndsInTarget(t[k..]) {
        assert t[n..][k - n..] == t[k..];
        assert ComesTo(t[n..], k - n) && EndsInTarget(t[n..][k - n..]);
      }
    }
  }

  lemma ComesToStep(t: string, k: nat)
    requires k <= |t|
    ensures ComesTo(t, k) <==>
            || k == 0
            || (Parse(t).Parsed? && 1 <= Parse(t).length <= k && ComesTo(t[Parse(t).length..], k - Parse(t).length))
  {
    hide EndsInTarget, Parse;
    TargetIsToken(t);
  }

  /** A line that ends in a newline is read to its end, and so is any other with no digit at its end. */
  lemma LineIsRead(t: string)
    requires t == [] || !IsDigit(t[|t| - 1], 10)
    ensures Tokens(t).Some?
  {
    if Tokens(t) == None {
      LeavesOnlyAfterDigit(t);
    }
  }

  lemma NewlineIsRead(s: string)
    ensures Tokens(s + "\n").Some?
  {
    LineIsRead(s + "\n");
  }

  /** A line after which the loop reads beyond its terminator. */
  lemma LineNotRead()
    ensures Tokens("2>&1") == None
  {
    var t := "2>&1";
    assert Spaces(t) == 0 && t[0..] == t && DigitCount(t, 10) == 1;
    var v := t[1..];
    assert v[0] == '>' && v[1] == '&' && v[2..] == "1" && DigitCount("1", 10) == 1;
    Advances(t);
  }

  function PrintAll(items: seq<Item>): string {
    if items == [] then [] else Print(items[0]) + " " + PrintAll(items[1..])
  }

  function TokensOf(items: seq<Item>): seq<Token> {
    if items == [] then [] else [TokenOf(items[0])] + TokensOf(items[1..])
  }

  lemma SpaceFirst(t: string)
    ensures Tokens(" " + t) == Tokens(t)
  {
    hide Here, IsTarget;
    var s := " " + t;
    assert s[1..] == t;
    var k := Spaces(t);
    assert Spaces(s) == k + 1 && s[k + 1..] == t[k..];
    if Parse(t).Parsed? {
      var n := Parse(t).length;
      assert Parse(s) == Parsed(Parse(t).token, n + 1);
      assert n <= |t| ==> s[n + 1..] == t[n..];
    }
  }

  lemma NoLeadingSpace(item: Item)
    requires Printable(item)
    ensures Print(item) != [] && !IsSpace(Print(item)[0])
  {
    if item.WordItem? {
      FirstOfPiece(item.pieces[0]);
      EndsWordIff(Print(item)[0]);
    }
  }

  lemma ParseHere(t: string)
    requires t != [] && !IsSpace(t[0])
    ensures Parse(t) == Here(t)
  {
    assert Spaces(t) == 0 && t[0..] == t;
  }

  /** A list of tokens, printed with a space after each, is read back as that list. */
  lemma {:induction false} RoundTrip(items: seq<Item>)
    requires forall i | 0 <= i < |items| :: Printable(items[i])
    ensures Tokens(PrintAll(items)) == Some(TokensOf(items))
  {
    hide Parse, Here, Print, Printable, TokenOf;
    if items == [] {
      NothingLeft();
    } else {
      var p, rest := Print(items[0]), PrintAll(items[1..]);
      var t := p + " " + rest;
      NoLeadingSpace(items[0]);
      ItemPrints(items[0], rest);
      ParseHere(t);
      RoundTrip(items[1..]);
      SpaceFirst(rest);
      assert t[|p|..] == " " + rest && t[|p| + 1..] == rest;
    }
  }

  lemma NothingLeft()
    ensures Parse([]) == End
  {
  }

  // ---------------------------------------------------------------------
  // The program

  lemma WordStep(s: string, i: nat, quoted: char)
    requires i < |s|
    ensures var c, t := s[i], s[i..];
            Word(t, quoted) ==
            if quoted == NUL && (IsSpace(c) || IsSpecial(c)) then ([], 0)
            else if (c == '\"' || c == '\'') && quoted == NUL then
              (Word(s[i + 1..], c).0, Word(s[i + 1..], c).1 + 1)
            else if c == quoted then (Word(s[i + 1..], NUL).0, Word(s[i + 1..], NUL).1 + 1)
            else if c == '\\' && i + 1 < |s| && quoted != '\'' then
              ([s[i + 1]] + Word(s[i + 2..], quoted).0, Word(s[i + 2..], quoted).1 + 2)
            else ([c] + Word(s[i + 1..], quoted).0, Word(s[i + 1..], quoted).1 + 1)
  {
    hide IsSpace, IsSpecial;
    var t := s[i..];
    assert t[1..] == s[i + 1..];
    if i + 1 < |s| {
      assert t[2..] == s[i + 2..] && t[1] == s[i + 1];
    }
  }

  /** Reads characters up to the end of a word, after what has been built of the token already. */
  method ReadWord(s: string, start: nat, built: string) returns (i: nat, token: string)
    requires start <= |s| && NUL !in s
    ensures (token, i) == (built + Word(s[start..], NUL).0, start + Word(s[start..], NUL).1)
  {
    hide Word;
    i, token := start, built;
    var quoted := NUL;
    while (At(s, i) != NUL && quoted != NUL) || (At(s, i) != NUL && !IsSpace(At(s, i)) && !IsSpecial(At(s, i)))
      invariant start <= i <= |s|
      invariant token + Word(s[i..], quoted).0 == built + Word(s[start..], NUL).0
      invariant i + Word(s[i..], quoted).1 == start + Word(s[start..], NUL).1
      decreases |s| - i
    {
      WordStep(s, i, quoted);
      ghost var before, w := token, Word(s[i..], quoted).0;
      if (s[i] == '\"' || s[i] == '\'') && quoted == NUL {
        quoted := s[i];
      } else if s[i] == quoted {
        quoted := NUL;
      } else if s[i] == '\\' && At(s, i + 1) != NUL && quoted != '\'' {
        token := token + [s[i + 1]];
        assert before + ([s[i + 1]] + Word(s[i + 2..], quoted).0) == token + Word(s[i + 2..], quoted).0;
        i := i + 1;
      } else {
        token := token + [s[i]];
        assert before + ([s[i]] + Word(s[i + 1..], quoted).0) == token + Word(s[i + 1..], quoted).0;
      }
      i := i + 1;
    }
    WordStops(s, i, quoted);
    assert token + [] == token;
  }

  lemma WordStops(s: string, i: nat, quoted: char)
    requires i <= |s| && NUL !in s
    requires i == |s| || (quoted == NUL && (IsSpace(s[i]) || IsSpecial(s[i])))
    ensures Word(s[i..], quoted) == ([], 0)
  {
  }

  method SkipDigits(s: string, start: nat) returns (i: nat)
    requires start <= |s|
    ensures i == start + DigitCount(s[start..], 10) && start <= i <= |s|
  {
    i := start;
    while IsDigit(At(s, i), 10)
      invariant start <= i <= |s|
      invariant i + DigitCount(s[i..], 10) == start + DigitCount(s[start..], 10)
      decreases |s| - i
    {
      assert s[i..][1..] == s[i + 1..];
      i := i + 1;
    }
  }

  /** A redirection operator at `i`, after the digits from `k` on. */
  method ReadRedirection(s: string, k: nat, i: nat) returns (next: nat, token: string)
    requires k <= i < |s| && NUL !in s && (s[i] == '<' || s[i] == '>')
    ensures k <= next && Redirection(s[k..], i - k) == Parsed(Token(REDIRECTION, token), next - k)
  {
    hide DigitCount;
    ghost var t := s[k..];
    assert t[i - k..] == s[i..];
    if At(s, i + 1) == '>' {
      token := s[k..i + 2];
      next := i + 2;
    } else if At(s, i + 1) == '&' && IsDigit(At(s, i + 2), 10) {
      assert s[i..][2..] == s[i + 2..];
      next := SkipDigits(s, i + 2);
      token := s[k..next];
      next := next + 1;
    } else {
      token := s[k..i + 1];
      next := i + 1;
    }
    assert t[..|token|] == token;
  }

  /** The part of parse_shell_token after the spaces. */
  method ReadToken(s: string, k: nat) returns (next: Option<nat>, ty: int, token: string)
    requires NUL !in s && k <= |s|
    ensures match Here(s[k..])
            case End => next == None && ty == SEQUENCE && token == ""
            case Parsed(t, n) => next == Some(k + n) && t == Token(ty, token)
  {
    hide Word, DigitCount, Redirection;
    ghost var t := s[k..];
    if At(s, k) == NUL || At(s, k) == '#' {
      return None, SEQUENCE, "";
    }
    var i := SkipDigits(s, k);
    assert t[DigitCount(t, 10)..] == s[i..] && t[..DigitCount(t, 10)] == s[k..i];
    if At(s, i) == '<' || At(s, i) == '>' {
      ty := REDIRECTION;
      var j: nat;
      j, token := ReadRedirection(s, k, i);
      next := Some(j);
    } else if i == k && (s[i] == '&' || s[i] == '|') && At(s, i + 1) == s[i] {
      ty := if s[i] == '&' then AND else OR;
      token := [s[i], s[i + 1]];
      next := Some(i + 2);
    } else if i == k && IsSpecial(s[i]) {
      ty := SpecialType(s[i]);
      token := [s[i]];
      next := Some(i + 1);
    } else {
      ty := NORMAL;
      var j: nat;
      j, token := ReadWord(s, i, s[k..i]);
      next := Some(j);
    }
  }

  /** parse_shell_token: `str` is an index into the line `s`, or none for a null pointer. */
  method ParseShellToken(s: string, str: Option<nat>) returns (next: Option<nat>, ty: int, token: string)
    requires NUL !in s && (str.Some? ==> str.value <= |s|)
    ensures str.None? ==> next.None?
    ensures str.Some? ==> match Parse(s[str.value..])
                          case End => next == None
                          case Parsed(t, n) => next == Some(str.value + n) && t == Token(ty, token)
    ensures next.None? ==> ty == SEQUENCE && token == ""
  {
    hide Here, Spaces;
    if str.None? {
      return None, SEQUENCE, "";
    }
    var k := SkipSpaces(s, str.value);
    assert s[str.value..][k - str.value..] == s[k..];
    next, ty, token := ReadToken(s, k);
  }

  function Texts(tokens: seq<Token>): (r: seq<string>)
    ensures |r| == |tokens| && forall i | 0 <= i < |r| :: r[i] == tokens[i].text
  {
    if tokens == [] then [] else [tokens[0].text] + Texts(tokens[1..])
  }

  /** The texts of all tokens of a line, after `args`. */
  function TextsAfter(args: seq<string>, tokens: Option<seq<Token>>): Option<seq<string>> {
    match tokens
    case None => None
    case Some(ts) => Some(args + Texts(ts))
  }

  lemma OneText(args: seq<string>, t: string)
    ensures Parse(t).End? ==> TextsAfter(args, Tokens(t)) == Some(args)
    ensures Parse(t).Parsed? ==> 1 <= Parse(t).length <= |t| + 1
    ensures Parse(t).Parsed? && Parse(t).length > |t| ==> TextsAfter(args, Tokens(t)) == None
    ensures Parse(t).Parsed? && Parse(t).length <= |t| ==>
              TextsAfter(args, Tokens(t)) == TextsAfter(args + [Parse(t).token.text], Tokens(t[Parse(t).length..]))
  {
    hide EndsInTarget, Parse, Tokens, Texts;
    TokensStep(t);
    NoTexts(args);
    if Parse(t).Parsed? && Parse(t).length <= |t| && Tokens(t[Parse(t).length..]).Some? {
      TextsCons(args, Parse(t).token, Tokens(t[Parse(t).length..]).value);
    }
  }

  lemma NoTexts(args: seq<string>)
    ensures args + Texts([]) == args
  {
  }

  lemma TextsCons(args: seq<string>, token: Token, more: seq<Token>)
    ensures args + Texts([token] + more) == args + [token.text] + Texts(more)
  {
    assert ([token] + more)[1..] == more;
  }

  /** The loop of `eval_line`: the texts of all tokens. `inside` tells whether the pointer has stayed
      in the text; where it has not, the source reads on beyond the terminator and this stops. */
  method EvalLine(s: string) returns (args: seq<string>, inside: bool)
    requires NUL !in s
    ensures inside <==> Tokens(s).Some?
    ensures inside ==> args == Texts(Tokens(s).value)
    ensures s == [] || !IsDigit(s[|s| - 1], 10) ==> inside
  {
    hide Parse, Tokens, Texts;
    if s == [] || !IsDigit(s[|s| - 1], 10) {
      LineIsRead(s);
    }
    args := [];
    var str: nat := 0;
    assert s[0..] == s;
    ghost var all := TextsAfter([], Tokens(s));
    assert Tokens(s).Some? ==> [] + Texts(Tokens(s).value) == Texts(Tokens(s).value);
    while true
      invariant str <= |s| && TextsAfter(args, Tokens(s[str..])) == all
      decreases |s| - str
    {
      OneText(args, s[str..]);
      var next, _, token := ParseShellToken(s, Some(str));
      if next.None? {
        return args, true;
      }
      if next.value > |s| {
        return args, false;
      }
      assert s[str..][next.value - str..] == s[next.value..];
      args := args + [token];
      str := next.value;
    }
  }
}
