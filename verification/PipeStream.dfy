/** The byte streams of the pipe exchange: which message and which byte of it every position of a
    stream holds, and what a pipe between two positions carries. */
module PipeStream {
  import opened Arithmetic
  import Sequences

  const ID_SIZE := 8                       // sizeof(size_t)

  /** One row of the message table. */
  datatype Phase = Phase(batch: nat, request: nat, response: nat)

  datatype Direction = Requests | Responses

  function Size(p: Phase, d: Direction): nat {
    if d == Requests then p.request else p.response
  }

  ghost predicate ProperTable(table: seq<Phase>) {
    forall m | 0 <= m < |table| :: table[m].request >= ID_SIZE && table[m].response >= ID_SIZE
  }

  // ---------------------------------------------------------------------
  // Words in memory

  /** The `n` low bytes of `v`, least significant first. */
  function Bytes(n: nat, v: nat): (bs: seq<Byte>)
    ensures |bs| == n
  {
    if n == 0 then [] else [v % 256] + Bytes(n - 1, v / 256)
  }

  function Value(bs: seq<Byte>): nat {
    if bs == [] then 0 else bs[0] + 256 * Value(bs[1..])
  }

  lemma {:induction false} ValueOfBytes(n: nat, v: nat)
    requires v < Power(256, n)
    ensures Value(Bytes(n, v)) == v
  {
    if n > 0 {
      ValueOfBytes(n - 1, v / 256);
      assert Bytes(n, v)[1..] == Bytes(n - 1, v / 256);
    }
  }

  /** A size_t written to memory and read back. */
  lemma WordRoundTrip(v: nat)
    requires v < WORD
    ensures Value(Bytes(ID_SIZE, v)) == v
  {
    assert Power(256, 2) == 256 * 256;
    assert Power(256, 4) == 256 * (256 * Power(256, 2));
    assert Power(256, 6) == 256 * (256 * Power(256, 4));
    assert Power(256, 8) == 256 * (256 * Power(256, 6));
    ValueOfBytes(8, v);
  }

  /** The id that message number `q` carries. */
  function Id(q: nat): (id: seq<Byte>)
    ensures |id| == ID_SIZE
  {
    Bytes(ID_SIZE, q % WORD)
  }

  /** The byte at offset `o` of message number `q`, request or response: its id, and then zeros. */
  function Content(q: nat, o: nat): Byte {
    if o < ID_SIZE then Id(q)[o] else 0
  }

  // ---------------------------------------------------------------------
  // Messages and positions

  /** The messages of a table, one after the other; each is the row it belongs to. */
  function Messages(table: seq<Phase>): seq<Phase> {
    if table == [] then []
    else Messages(table[..|table| - 1]) + Sequences.Repeat(table[|table| - 1], table[|table| - 1].batch)
  }

  /** How many messages come before phase `m`. */
  function First(table: seq<Phase>, m: nat): nat
    requires m <= |table|
  {
    |Messages(table[..m])|
  }

  lemma {:induction false} MessageOf(table: seq<Phase>, m: nat, i: nat)
    requires m < |table| && i < table[m].batch
    ensures First(table, m) + i < |Messages(table)| && Messages(table)[First(table, m) + i] == table[m]
    decreases |table|
  {
    var n := |table| - 1;
    if m < n {
      MessageOf(table[..n], m, i);
      assert table[..n][..m] == table[..m];
    }
  }

  lemma FirstNext(table: seq<Phase>, m: nat)
    requires m < |table|
    ensures First(table, m + 1) == First(table, m) + table[m].batch
  {
    assert table[..m + 1][..m] == table[..m];
  }

  lemma FirstEnds(table: seq<Phase>)
    ensures First(table, 0) == 0 && First(table, |table|) == |Messages(table)|
  {
    assert table[..|table|] == table;
  }

  lemma {:induction false} FirstMonotone(table: seq<Phase>, m: nat, n: nat)
    requires m <= n <= |table|
    ensures First(table, m) <= First(table, n)
    decreases n
  {
    if m < n {
      FirstMonotone(table, m, n - 1);
      FirstNext(table, n - 1);
    }
  }

  /** Where message number `q` starts in its stream. */
  function Start(ms: seq<Phase>, d: Direction, q: nat): nat {
    if q == 0 then 0 else Start(ms, d, q - 1) + if q <= |ms| then Size(ms[q - 1], d) else 0
  }

  lemma {:induction false} StartMonotone(ms: seq<Phase>, d: Direction, p: nat, q: nat)
    requires p <= q <= |ms|
    ensures Start(ms, d, p) <= Start(ms, d, q)
    ensures p < q ==> Start(ms, d, p) + Size(ms[p], d) <= Start(ms, d, q)
    decreases q
  {
    if p < q {
      StartMonotone(ms, d, p, q - 1);
    }
  }

  /** A position of a stream lies in one message only. */
  lemma OneMessage(ms: seq<Phase>, d: Direction, p: nat, o: nat, q: nat, off: nat)
    requires p < |ms| && q < |ms| && o < Size(ms[p], d) && off < Size(ms[q], d)
    requires Start(ms, d, p) + o == Start(ms, d, q) + off
    ensures p == q && o == off
  {
    if p < q {
      StartMonotone(ms, d, p, q);
    } else if q < p {
      StartMonotone(ms, d, q, p);
    }
  }

  lemma {:induction false} StartInPhase(table: seq<Phase>, d: Direction, m: nat, i: nat)
    requires m < |table| && i <= table[m].batch
    ensures First(table, m) + i <= |Messages(table)|
    ensures Start(Messages(table), d, First(table, m) + i)
            == Start(Messages(table), d, First(table, m)) + i * Size(table[m], d)
  {
    hide Messages, First;
    FirstNext(table, m);
    FirstMonotone(table, m + 1, |table|);
    FirstEnds(table);
    if i > 0 {
      StartInPhase(table, d, m, i - 1);
      MessageOf(table, m, i - 1);
      var size := Size(table[m], d);
      assert i * size == (i - 1) * size + size;
    }
  }

  // ---------------------------------------------------------------------
  // Pipes

  ghost predicate ProperMessages(ms: seq<Phase>) {
    forall q | 0 <= q < |ms| :: ms[q].request >= ID_SIZE && ms[q].response >= ID_SIZE
  }

  lemma {:induction false} MessagesProper(table: seq<Phase>)
    requires ProperTable(table)
    ensures ProperMessages(Messages(table))
    decreases |table|
  {
    if table != [] {
      MessagesProper(table[..|table| - 1]);
    }
  }

  /** The pipe holds the bytes of its stream from position `from` to `to`. */
  ghost predicate Carries(ms: seq<Phase>, d: Direction, pipe: seq<Byte>, from: nat, to: nat) {
    && from + |pipe| == to
    && (forall q: nat, o: nat | q < |ms| && o < Size(ms[q], d) && from <= Start(ms, d, q) + o < to ::
          pipe[Start(ms, d, q) + o - from] == Content(q, o))
  }

  lemma PushCarries(ms: seq<Phase>, d: Direction, pipe: seq<Byte>, from: nat, q: nat, off: nat, b: Byte)
    requires ProperMessages(ms) && q < |ms| && off < Size(ms[q], d)
    requires Carries(ms, d, pipe, from, Start(ms, d, q) + off)
    requires b == Content(q, off)
    ensures Carries(ms, d, pipe + [b], from, Start(ms, d, q) + off + 1)
  {
    hide Content, Start;
    var to := Start(ms, d, q) + off;
    forall p: nat, o: nat | p < |ms| && o < Size(ms[p], d) && from <= Start(ms, d, p) + o < to + 1
      ensures (pipe + [b])[Start(ms, d, p) + o - from] == Content(p, o)
    {
      if Start(ms, d, p) + o == to {
        OneMessage(ms, d, p, o, q, off);
      }
    }
  }

  lemma PopCarries(ms: seq<Phase>, d: Direction, pipe: seq<Byte>, to: nat, q: nat, off: nat)
    requires q < |ms| && off < Size(ms[q], d) && pipe != [] && Carries(ms, d, pipe, Start(ms, d, q) + off, to)
    ensures Carries(ms, d, pipe[1..], Start(ms, d, q) + off + 1, to)
    ensures pipe[0] == Content(q, off)
  {
    hide Content, Start;
  }
}
