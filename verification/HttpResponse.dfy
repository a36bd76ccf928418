/** The client's side of an HTTP response: it arrives in pieces, and is parsed as it arrives. */
module HttpResponse {
  import opened Arithmetic
  import opened Options

  const CR := 13
  const LF := 10

  datatype ConnectionState = Idle | Waiting | Headers | Body | Closed | Broken

  /** The C library on the text of one line: the status code that `sscanf` finds in a status line, if
      it finds both numbers, and the number that `strtoul` reads. */
  datatype Library = Library(statusCode: seq<Byte> -> Option<int>, number: seq<Byte> -> nat)

  /** What a connection knows about its response. */
  datatype Response = Response(state: ConnectionState, status: int, length: nat, hasLength: bool)
  {
    predicate InHead() { state == Waiting || state == Headers }

    predicate Valid() { !hasLength ==> length == 0 }
  }

  // ---------------------------------------------------------------------
  // One pass over a stream

  /** The first line end. */
  function LineEnd(s: seq<Byte>): (r: Option<nat>)
    ensures match r
            case Some(i) => i + 2 <= |s| && s[i] == CR && s[i + 1] == LF
                            && forall k | 0 <= k < i :: !(s[k] == CR && s[k + 1] == LF)
            case None => forall k | 0 <= k < |s| - 1 :: !(s[k] == CR && s[k + 1] == LF)
  {
    if |s| < 2 then None
    else if s[0] == CR && s[1] == LF then Some(0)
    else match LineEnd(s[1..])
         case Some(i) => Some(i + 1)
         case None => None
  }

  /** "content-length: " */
  const CONTENT_LENGTH: seq<Byte> := [99, 111, 110, 116, 101, 110, 116, 45, 108, 101, 110, 103, 116, 104, 58, 32]

  function Lower(c: Byte): Byte { if 65 <= c <= 90 then c + 32 else c }

  predicate IsContentLength(line: seq<Byte>) {
    |line| >= 16 && forall i | 0 <= i < 16 :: Lower(line[i]) == CONTENT_LENGTH[i]
  }

  /** The byte is this character, or this letter in its other case. */
  predicate IsCharacter(b: Byte, c: char) {
    b == c as int || ('A' <= c <= 'Z' && b == c as int + 32) || ('a' <= c <= 'z' && b == c as int - 32)
  }

  /** The line starts with this text, in capital or small letters. */
  predicate GivesLength(line: seq<Byte>) {
    |line| >= 16 && forall i | 0 <= i < 16 :: IsCharacter(line[i], "Content-Length: "[i])
  }

  lemma ContentLengthText(line: seq<Byte>)
    ensures IsContentLength(line) <==> GivesLength(line)
  {
    if |line| >= 16 {
      forall i | 0 <= i < 16
        ensures Lower(line[i]) == CONTENT_LENGTH[i] <==> IsCharacter(line[i], "Content-Length: "[i])
      {
        SameCharacter(line[i], i);
      }
    }
  }

  lemma SameCharacter(b: Byte, i: nat)
    requires i < 16
    ensures Lower(b) == CONTENT_LENGTH[i] <==> IsCharacter(b, "Content-Length: "[i])
  {
  }

  /** What one line of the head does. */
  function Line(lib: Library, h: Response, line: seq<Byte>): (r: Response)
    requires h.InHead()
    ensures h.Valid() ==> r.Valid()
  {
    if h.state == Waiting then
      match lib.statusCode(line)
      case Some(code) => h.(state := Headers, status := code)
      case None => h.(state := Broken)
    else if line == [] then h.(state := Body)
    else if IsContentLength(line) then h.(length := lib.number(line[16..]), hasLength := true)
    else h
  }

  /** All lines of the head that are complete, and what remains. */
  function Consume(lib: Library, h: Response, s: seq<Byte>): (r: (Response, seq<Byte>))
    ensures h.Valid() ==> r.0.Valid()
    ensures r.0.InHead() ==> LineEnd(r.1).None?
    ensures r.0.state == Idle || r.0.state == Closed ==> r.0.state == h.state
    decreases |s|
  {
    if !h.InHead() then (h, s)
    else
      match LineEnd(s)
      case Some(i) => Consume(lib, Line(lib, h, s[..i]), s[i + 2..])
      case None => (h, s)
  }

  lemma LineEndUnique(s: seq<Byte>, i: nat)
    requires i + 2 <= |s| && s[i] == CR && s[i + 1] == LF
    requires forall k | 0 <= k < i :: !(s[k] == CR && s[k + 1] == LF)
    ensures LineEnd(s) == Some(i)
  {
  }

  lemma LineEndNone(s: seq<Byte>)
    requires forall k | 0 <= k < |s| - 1 :: !(s[k] == CR && s[k + 1] == LF)
    ensures LineEnd(s) == None
  {
  }

  lemma LineEndAppend(a: seq<Byte>, b: seq<Byte>)
    requires LineEnd(a).Some?
    ensures LineEnd(a + b) == LineEnd(a)
  {
    var i := LineEnd(a).value;
    assert forall k | 0 <= k < |a| :: (a + b)[k] == a[k];
    LineEndUnique(a + b, i);
  }

  lemma ConsumeLine(lib: Library, h: Response, s: seq<Byte>, i: nat)
    requires h.InHead() && i + 2 <= |s| && s[i] == CR && s[i + 1] == LF
    requires forall k | 0 <= k < i :: !(s[k] == CR && s[k + 1] == LF)
    ensures Consume(lib, h, s) == Consume(lib, Line(lib, h, s[..i]), s[i + 2..])
  {
    LineEndUnique(s, i);
  }

  lemma ConsumeStops(lib: Library, h: Response, s: seq<Byte>)
    requires h.InHead() ==> forall k | 0 <= k < |s| - 1 :: !(s[k] == CR && s[k + 1] == LF)
    ensures Consume(lib, h, s) == (h, s)
  {
    if h.InHead() {
      LineEndNone(s);
    }
  }

  lemma ConsumeTwice(lib: Library, h: Response, s: seq<Byte>)
    ensures var (h1, rest) := Consume(lib, h, s); Consume(lib, h1, rest) == (h1, rest)
  {
  }

  /** A stream can be divided anywhere: going on with what was left and what comes is one pass. */
  lemma {:induction false} ConsumeAppend(lib: Library, h: Response, a: seq<Byte>, b: seq<Byte>)
    ensures var (h1, rest) := Consume(lib, h, a);
            Consume(lib, h, a + b) == Consume(lib, h1, rest + b)
    decreases |a|
  {
    if h.InHead() && LineEnd(a).Some? {
      var i := LineEnd(a).value;
      LineEndAppend(a, b);
      assert (a + b)[..i] == a[..i];
      assert (a + b)[i + 2..] == a[i + 2..] + b;
      ConsumeAppend(lib, Line(lib, h, a[..i]), a[i + 2..], b);
    }
  }

  // ---------------------------------------------------------------------
  // A well-formed response

  /** The text of the head of a response, with its empty last line. */
  function HeadText(lines: seq<seq<Byte>>): seq<Byte> {
    if lines == [] then [CR, LF] else lines[0] + [CR, LF] + HeadText(lines[1..])
  }

  /** The header lines' effect. */
  function AfterLines(lib: Library, h: Response, lines: seq<seq<Byte>>): Response
    requires h.state == Headers && forall i | 0 <= i < |lines| :: lines[i] != []
    decreases |lines|
  {
    if lines == [] then h.(state := Body) else AfterLines(lib, Line(lib, h, lines[0]), lines[1..])
  }

  /** Header lines without a content-length line change nothing but the state. */
  lemma {:induction false} NoLengthLine(lib: Library, h: Response, lines: seq<seq<Byte>>)
    requires h.state == Headers && forall i | 0 <= i < |lines| :: lines[i] != [] && !IsContentLength(lines[i])
    ensures AfterLines(lib, h, lines) == h.(state := Body)
    decreases |lines|
  {
    hide IsContentLength;
    if lines != [] {
      NoLengthLine(lib, Line(lib, h, lines[0]), lines[1..]);
    }
  }

  /** Otherwise the last of these lines gives the length, whatever was given before. */
  lemma {:induction false} LastLengthLine(lib: Library, h: Response, lines: seq<seq<Byte>>, i: nat)
    requires h.state == Headers && forall k | 0 <= k < |lines| :: lines[k] != []
    requires i < |lines| && IsContentLength(lines[i])
    requires forall k | i < k < |lines| :: !IsContentLength(lines[k])
    ensures |lines[i]| >= 16
    ensures AfterLines(lib, h, lines) == h.(state := Body, length := lib.number(lines[i][16..]), hasLength := true)
    decreases |lines|
  {
    var rest := lines[1..];
    if i == 0 {
      NoLengthLine(lib, Line(lib, h, lines[0]), rest);
    } else {
      assert rest[i - 1] == lines[i];
      LastLengthLine(lib, Line(lib, h, lines[0]), rest, i - 1);
    }
  }

  lemma LineEndOfLine(line: seq<Byte>, rest: seq<Byte>)
    requires LineEnd(line).None?
    ensures LineEnd(line + [CR, LF] + rest) == Some(|line|)
  {
    var s := line + [CR, LF] + rest;
    forall k | 0 <= k < |line| ensures !(s[k] == CR && s[k + 1] == LF) {
      if k + 1 < |line| {
        assert s[k] == line[k] && s[k + 1] == line[k + 1];
      }
    }
    LineEndUnique(s, |line|);
  }

  /** The head of a response is parsed to its last line, and the body starts right after it. */
  lemma {:induction false} HeadParses(lib: Library, h: Response, lines: seq<seq<Byte>>, body: seq<Byte>)
    requires h.state == Headers && forall i | 0 <= i < |lines| :: lines[i] != [] && LineEnd(lines[i]).None?
    ensures Consume(lib, h, HeadText(lines) + body) == (AfterLines(lib, h, lines), body)
    decreases |lines|
  {
    var s := HeadText(lines) + body;
    if lines == [] {
      LineEndUnique(s, 0);
      assert s[..0] == [] && s[2..] == body;
    } else {
      var rest := HeadText(lines[1..]) + body;
      assert s == lines[0] + [CR, LF] + rest;
      LineEndOfLine(lines[0], rest);
      assert s[..|lines[0]|] == lines[0] && s[|lines[0]| + 2..] == rest;
      HeadParses(lib, Line(lib, h, lines[0]), lines[1..], body);
    }
  }

  /** Status line, header lines, empty line, body (section 6 of RFC 1945). */
  lemma ResponseParses(lib: Library, h: Response, statusLine: seq<Byte>, lines: seq<seq<Byte>>, body: seq<Byte>)
    requires h.state == Waiting && LineEnd(statusLine).None?
    requires forall i | 0 <= i < |lines| :: lines[i] != [] && LineEnd(lines[i]).None?
    ensures Consume(lib, h, statusLine + [CR, LF] + HeadText(lines) + body) ==
            match lib.statusCode(statusLine)
            case Some(code) => (AfterLines(lib, h.(state := Headers, status := code), lines), body)
            case None => (h.(state := Broken), HeadText(lines) + body)
  {
    var s := statusLine + [CR, LF] + HeadText(lines) + body;
    var rest := HeadText(lines) + body;
    assert s == statusLine + [CR, LF] + rest;
    LineEndOfLine(statusLine, rest);
    assert s[..|statusLine|] == statusLine && s[|statusLine| + 2..] == rest;
    if lib.statusCode(statusLine).Some? {
      HeadParses(lib, Line(lib, h, statusLine), lines, body);
    }
  }

  // ---------------------------------------------------------------------
  // Reads

  /** What one `read` from the connection gives: bytes, nothing yet (EINTR, EAGAIN), or its end. */
  datatype Read = Data(bytes: seq<Byte>) | Again | Eof

  /** All bytes up to the end of the connection. */
  function Stream(input: seq<Read>): seq<Byte> {
    if input == [] || input[0].Eof? then []
    else (if input[0].Data? then input[0].bytes else []) + Stream(input[1..])
  }

  /** Reads give their bytes one after the other, up to the end of the connection. */
  lemma {:induction false} StreamAppend(a: seq<Read>, b: seq<Read>)
    requires Eof !in a
    ensures Stream(a + b) == Stream(a) + Stream(b) && Stream(a + [Eof] + b) == Stream(a)
    ensures forall bytes :: Stream([Data(bytes)]) == bytes
    ensures Stream([Again]) == []
    decreases |a|
  {
    if a == [] {
      assert a + b == b && a + [Eof] + b == [Eof] + b;
    } else {
      assert a[0] in a;
      assert (a + b)[1..] == a[1..] + b && (a + [Eof] + b)[1..] == a[1..] + [Eof] + b;
      StreamAppend(a[1..], b);
    }
    assert forall bytes: seq<Byte> :: [Data(bytes)][1..] == [];
    assert [Again][1..] == [];
  }

  /** The response after its head, when the connection ends after the stream. */
  function AfterHead(lib: Library, h: Response, s: seq<Byte>): Response {
    var full := Consume(lib, h, s).0;
    if full.InHead() then full.(state := Broken) else full
  }

  /** How the body of a response ends, of which `n` bytes come before the end of the connection: at
      its length if it has one, else at the end of the connection (section 7.2.2 of RFC 1945). */
  function AfterBody(h: Response, n: nat): ConnectionState {
    if h.state != Body then h.state
    else if !h.hasLength then Closed
    else if n >= h.length then Idle
    else Broken
  }

  /** What a whole exchange leaves when the server sends `s` and closes the connection some time after. */
  ghost function Exchanged(lib: Library, s: seq<Byte>): Response {
    var (h, body) := Consume(lib, Response(Waiting, -1, 0, false), s);
    h.(state := if h.state != Body then Broken else AfterBody(h, |body|))
  }

  /** A response of this form. */
  ghost predicate IsResponse(lib: Library, s: seq<Byte>, statusLine: seq<Byte>,
                             lines: seq<seq<Byte>>, body: seq<Byte>) {
    && s == statusLine + [CR, LF] + HeadText(lines) + body
    && LineEnd(statusLine).None? && lib.statusCode(statusLine).Some?
    && forall i | 0 <= i < |lines| :: lines[i] != [] && LineEnd(lines[i]).None?
  }

  /** With a length, the connection is idle after as many bytes of body, and broken if it ends before. */
  lemma ExchangedWithLength(lib: Library, s: seq<Byte>, statusLine: seq<Byte>,
                            lines: seq<seq<Byte>>, body: seq<Byte>, i: nat)
    requires IsResponse(lib, s, statusLine, lines, body)
    requires i < |lines| && GivesLength(lines[i]) && forall k | i < k < |lines| :: !GivesLength(lines[k])
    ensures var n := lib.number(lines[i][16..]);
            Exchanged(lib, s)
            == Response(if |body| >= n then Idle else Broken, lib.statusCode(statusLine).value, n, true)
  {
    var h := Response(Waiting, -1, 0, false);
    ResponseParses(lib, h, statusLine, lines, body);
    forall k | 0 <= k < |lines| ensures IsContentLength(lines[k]) <==> GivesLength(lines[k]) {
      ContentLengthText(lines[k]);
    }
    hide IsContentLength, GivesLength;
    LastLengthLine(lib, h.(state := Headers, status := lib.statusCode(statusLine).value), lines, i);
  }

  /** Without one, the end of the connection is the end of the body. */
  lemma ExchangedWithoutLength(lib: Library, s: seq<Byte>, statusLine: seq<Byte>,
                               lines: seq<seq<Byte>>, body: seq<Byte>)
    requires IsResponse(lib, s, statusLine, lines, body)
    requires forall k | 0 <= k < |lines| :: !GivesLength(lines[k])
    ensures Exchanged(lib, s) == Response(Closed, lib.statusCode(statusLine).value, 0, false)
  {
    var h := Response(Waiting, -1, 0, false);
    ResponseParses(lib, h, statusLine, lines, body);
    forall k | 0 <= k < |lines| ensures !IsContentLength(lines[k]) {
      ContentLengthText(lines[k]);
    }
    hide IsContentLength, GivesLength;
    NoLengthLine(lib, h.(state := Headers, status := lib.statusCode(statusLine).value), lines);
  }

  /** Header lines, without the empty line at the end. */
  function LinesText(lines: seq<seq<Byte>>): seq<Byte> {
    if lines == [] then [] else lines[0] + [CR, LF] + LinesText(lines[1..])
  }

  lemma {:induction false} LinesStayInHead(lib: Library, h: Response, lines: seq<seq<Byte>>, cut: seq<Byte>)
    requires h.state == Headers && LineEnd(cut).None?
    requires forall i | 0 <= i < |lines| :: lines[i] != [] && LineEnd(lines[i]).None?
    ensures var r := Consume(lib, h, LinesText(lines) + cut).0; r.state == Headers && r.status == h.status
    decreases |lines|
  {
    var s := LinesText(lines) + cut;
    if lines == [] {
      assert s == cut;
    } else {
      var rest := LinesText(lines[1..]) + cut;
      assert s == lines[0] + [CR, LF] + rest;
      LineEndOfLine(lines[0], rest);
      assert s[..|lines[0]|] == lines[0] && s[|lines[0]| + 2..] == rest;
      LinesStayInHead(lib, Line(lib, h, lines[0]), lines[1..], cut);
    }
  }

  /** A connection that ends within the head is broken, without a status if it ends within the first
      line or if that is no status line. */
  lemma ExchangedCut(lib: Library, statusLine: seq<Byte>, lines: seq<seq<Byte>>, cut: seq<Byte>)
    requires LineEnd(statusLine).None? && LineEnd(cut).None?
    requires forall i | 0 <= i < |lines| :: lines[i] != [] && LineEnd(lines[i]).None?
    ensures Exchanged(lib, cut).state == Broken && Exchanged(lib, cut).status == -1
    ensures var r := Exchanged(lib, statusLine + [CR, LF] + LinesText(lines) + cut);
            && r.state == Broken
            && r.status == if lib.statusCode(statusLine).Some? then lib.statusCode(statusLine).value else -1
  {
    var h := Response(Waiting, -1, 0, false);
    var rest := LinesText(lines) + cut;
    var all := statusLine + [CR, LF] + LinesText(lines) + cut;
    assert all == statusLine + [CR, LF] + rest;
    LineEndOfLine(statusLine, rest);
    assert all[..|statusLine|] == statusLine && all[|statusLine| + 2..] == rest;
    assert Consume(lib, h, all) == Consume(lib, Line(lib, h, statusLine), rest);
    if lib.statusCode(statusLine).Some? {
      LinesStayInHead(lib, Line(lib, h, statusLine), lines, cut);
    }
  }

  class HttpConnection {
    const lib: Library
    var cstate: ConnectionState
    var statusCode: int
    var contentLength: nat
    var hasContentLength: bool
    var eof: bool
    var buf: seq<Byte>      // the response buffer, `len_` bytes

    function Value(): Response
      reads this
    {
      Response(cstate, statusCode, contentLength, hasContentLength)
    }

    constructor (lib: Library)
      ensures this.lib == lib && cstate == Idle && !eof
    {
      this.lib := lib;
      cstate := Idle;
      eof := false;
    }

    /** Clears the response information for a new request. */
    method SendRequest()
      requires cstate == Idle
      modifies this
      ensures Value() == Response(Waiting, -1, 0, false) && buf == [] && eof == old(eof)
    {
      cstate := Waiting;
      statusCode := -1;
      contentLength := 0;
      hasContentLength := false;
      buf := [];
    }

    /** What process_response_headers does with the line at the front of the buffer. */
    method TakeLine(line: seq<Byte>)
      requires Value().InHead()
      modifies this
      ensures Value() == Line(lib, old(Value()), line) && buf == old(buf) && eof == old(eof)
    {
      if cstate == Waiting {
        match lib.statusCode(line)
        case Some(code) =>
          statusCode := code;
          cstate := Headers;
        case None =>
          cstate := Broken;
      } else if line == [] {
        cstate := Body;
      } else if IsContentLength(line) {
        contentLength := lib.number(line[16..]);
        hasContentLength := true;
      }
    }

    /** Parses what is in the buffer; true if more of the head remains to be read. */
    method ProcessResponseHeaders() returns (more: bool)
      modifies this
      ensures eof == old(eof)
      ensures var (h, rest) := Consume(lib, old(Value()), old(buf));
              Value() == (if eof then h.(state := Broken) else h) && buf == rest
      ensures more <==> Value().InHead()
    {
      hide Consume, Line, LineEnd;
      ghost var all := Consume(lib, Value(), buf);
      var i: nat := 0;
      while (cstate == Waiting || cstate == Headers) && i + 2 <= |buf|
        invariant forall k | 0 <= k < i && k + 1 < |buf| :: !(buf[k] == CR && buf[k + 1] == LF)
        invariant Consume(lib, Value(), buf) == all && eof == old(eof)
        decreases |buf|, |buf| - i
      {
        if buf[i] == CR && buf[i + 1] == LF {
          ConsumeLine(lib, Value(), buf, i);
          TakeLine(buf[..i]);
          buf := buf[i + 2..];
          i := 0;
        } else {
          i := i + 1;
        }
      }
      ConsumeStops(lib, Value(), buf);
      if eof {
        cstate := Broken;
      }
      more := cstate == Waiting || cstate == Headers;
    }

    predicate Ended()
      reads this
    {
      cstate == Closed || cstate == Broken
    }

    /** One `read` into the buffer. The end of the connection is read again and again. */
    method Fill(input: seq<Read>) returns (rest: seq<Read>)
      requires !eof && Eof in input
      modifies this`eof, this`buf
      ensures buf + Stream(rest) == old(buf) + Stream(input)
      ensures if eof then buf == old(buf) && Stream(rest) == [] else Eof in rest && |rest| < |input|
    {
      rest := input[1..];
      match input[0] {
        case Eof =>
          eof := true;
          rest := input;
        case Again =>
          assert Stream(input) == Stream(rest);
        case Data(bytes) =>
          assert buf + (bytes + Stream(rest)) == (buf + bytes) + Stream(rest);
          buf := buf + bytes;
      }
    }

    /** Reads the head of the response. Returns the reads that it did not need, and whether the
        program exits because of the status. */
    method ReceiveResponseHeaders(input: seq<Read>) returns (rest: seq<Read>, exits: bool)
      requires cstate != Idle && (Ended() || (!eof && Eof in input))
      modifies this
      ensures old(Ended()) ==> Value() == old(Value()) && buf == old(buf) && eof == old(eof) && rest == input && !exits
      ensures !old(Ended()) ==>
                var s := old(buf) + Stream(input);
                && Value() == AfterHead(lib, old(Value()), s)
                && buf + Stream(rest) == Consume(lib, old(Value()), s).1
                && (eof <==> Consume(lib, old(Value()), s).0.InHead())
                && (!eof ==> Eof in rest)
                && (exits <==> statusCode >= 500)
    {
      hide Consume, Stream, LineEnd;
      rest := input;
      if cstate == Closed || cstate == Broken {
        return rest, false;
      }
      ghost var all := Consume(lib, Value(), buf + Stream(input));
      ConsumeAppend(lib, Value(), buf, Stream(input));
      ConsumeTwice(lib, Value(), buf);
      var more := ProcessResponseHeaders();
      while more
        invariant more <==> Value().InHead()
        invariant !eof ==> Eof in rest && Consume(lib, Value(), buf + Stream(rest)) == all
        invariant eof ==> all.0.InHead() && Value() == all.0.(state := Broken) && buf + Stream(rest) == all.1
        invariant more ==> !eof && Consume(lib, Value(), buf) == (Value(), buf)
        decreases !eof, |rest|
      {
        rest := Fill(rest);
        ConsumeAppend(lib, Value(), buf, Stream(rest));
        ConsumeTwice(lib, Value(), buf);
        assert eof ==> buf + Stream(rest) == buf;
        more := ProcessResponseHeaders();
      }
      StopsOutsideHead(lib, Value(), buf + Stream(rest));
      exits := statusCode >= 500;
    }

    /** True if more of the body should be read into the buffer. */
    method CheckResponseBody() returns (more: bool)
      modifies this`cstate
      ensures more <==> cstate == Body
      ensures var enough := old(cstate) == Body && (hasContentLength || eof) && |buf| >= contentLength;
              cstate == if eof then (if enough || old(cstate) == Idle || old(cstate) == Closed then Closed else Broken)
                        else if enough then Idle else old(cstate)
    {
      if cstate == Body && (hasContentLength || eof) && |buf| >= contentLength {
        cstate := Idle;
      }
      if eof {
        if cstate == Idle {
          cstate := Closed;
        } else if cstate != Closed {
          cstate := Broken;
        }
      }
      more := cstate == Body;
    }

    /** Reads the body of the response. Returns the reads that it did not need. */
    method ReceiveResponseBody(input: seq<Read>) returns (rest: seq<Read>)
      requires Ended() || (cstate == Body && !eof && Eof in input && Value().Valid())
      modifies this
      ensures old(Ended()) ==> Value() == old(Value()) && buf == old(buf) && eof == old(eof) && rest == input
      ensures !old(Ended()) ==>
                var body := old(buf) + Stream(input);
                && Value() == old(Value()).(state := AfterBody(old(Value()), |body|))
                && buf + Stream(rest) == body
                && (cstate == Idle ==> |buf| >= contentLength && !eof)
                && (cstate != Idle ==> buf == body)
                && (!eof ==> Eof in rest)
    {
      hide Stream;
      rest := input;
      if cstate == Closed || cstate == Broken {
        return;
      }
      ghost var h, body := Value(), buf + Stream(input);
      var more := CheckResponseBody();
      while more
        invariant Value().(state := Body) == h && buf + Stream(rest) == body && (more <==> cstate == Body)
        invariant !eof ==> Eof in rest
        invariant more ==> !eof && (hasContentLength ==> |buf| < contentLength)
        invariant !more ==> if eof then buf == body && cstate == AfterBody(h, |body|) && cstate != Idle
                            else cstate == Idle && hasContentLength && |buf| >= contentLength
        decreases !eof, |rest|
      {
        rest := Fill(rest);
        more := CheckResponseBody();
      }
    }

    /** One exchange over this connection: a request, and its response. A connection that is idle
        afterwards can take the next one. */
    method Exchange(input: seq<Read>) returns (rest: seq<Read>, exits: bool)
      requires cstate == Idle && !eof && Eof in input
      modifies this
      ensures var (r, body) := (Exchanged(lib, Stream(input)),
                                Consume(lib, Response(Waiting, -1, 0, false), Stream(input)).1);
              && statusCode == r.status && contentLength == r.length && hasContentLength == r.hasLength
              && (exits <==> statusCode >= 500)
              && (!exits ==>
                    && cstate == r.state && buf + Stream(rest) == body
                    && (cstate == Idle ==> |buf| >= contentLength && !eof)
                    && (cstate == Closed ==> buf == body))
      ensures !eof ==> Eof in rest
    {
      hide Consume, Stream;
      SendRequest();
      assert buf + Stream(input) == Stream(input);
      rest, exits := ReceiveResponseHeaders(input);
      if !exits {
        rest := ReceiveResponseBody(rest);
      }
    }
  }

  lemma StopsOutsideHead(lib: Library, h: Response, s: seq<Byte>)
    ensures !h.InHead() ==> Consume(lib, h, s) == (h, s)
  {
  }
}
