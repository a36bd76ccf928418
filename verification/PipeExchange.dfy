/** The requester and the responder of the pipe exchange, one byte or one piece of local
    computation at a time, over two bounded pipes. */
module PipeExchange {
  import opened Arithmetic
  import opened Options
  import opened PipeStream
  import Sequences

  /** The message table and the capacities of the two pipes. */
  datatype Config = Config(table: seq<Phase>, requestRoom: nat, responseRoom: nat)
  {
    ghost predicate Proper() {
      ProperTable(table) && requestRoom >= 1 && responseRoom >= 1
    }
  }

  function MaxMessageSize(table: seq<Phase>): (size: nat)
    ensures forall m | 0 <= m < |table| :: table[m].request <= size && table[m].response <= size
    ensures size > 0 ==> exists m | 0 <= m < |table| :: size == table[m].request || size == table[m].response
  {
    if table == [] then 0
    else
      var n := |table| - 1;
      Max(MaxMessageSize(table[..n]), Max(table[n].request, table[n].response))
  }

  /** Top of the sending loop, in io61_write, top of the receiving loop, in io61_read; at the end;
      stopped by an assertion. */
  datatype RequesterPc = SendLoop | Sending | ReceiveLoop | Receiving | RequesterDone | RequesterAborted

  datatype Requester = Requester(pc: RequesterPc, mindex: nat, i: nat, off: nat, buf: seq<Byte>,
                                 requestid: nat, responseid: nat)

  datatype ResponderPc = ServeLoop | Taking | Answering | ResponderDone | ResponderAborted

  datatype Responder = Responder(pc: ResponderPc, mindex: nat, i: nat, off: nat, buf: seq<Byte>)

  /** Both processes and what is in the pipes. */
  datatype State = State(q: Requester, a: Responder, requests: seq<Byte>, responses: seq<Byte>)

  function Initial(c: Config): State {
    State(Requester(SendLoop, 0, 0, 0, Sequences.Repeat(0, MaxMessageSize(c.table)), 0, 0),
          Responder(ServeLoop, 0, 0, 0, Sequences.Repeat(0, MaxMessageSize(c.table))), [], [])
  }

  /** Loop counters and offsets are where the program can bring them. */
  ghost predicate InRange(c: Config, s: State) {
    && RequesterInRange(c.table, s.q) && ResponderInRange(c.table, s.a)
  }

  ghost predicate RequesterInRange(table: seq<Phase>, q: Requester) {
    && |q.buf| == MaxMessageSize(table) && q.mindex <= |table|
    && (q.pc == RequesterDone ==> q.mindex == |table|)
    && (q.mindex == |table| && q.pc != RequesterAborted ==> (q.pc == SendLoop || q.pc == RequesterDone) && q.i == 0)
    && (q.mindex < |table| ==> q.i <= table[q.mindex].batch)
    && (q.pc == Sending ==> q.i < table[q.mindex].batch && q.off <= table[q.mindex].request)
    && (q.pc == Receiving ==> q.i < table[q.mindex].batch && q.off <= table[q.mindex].response)
  }

  ghost predicate ResponderInRange(table: seq<Phase>, a: Responder) {
    && |a.buf| == MaxMessageSize(table) && a.mindex <= |table|
    && (a.pc == ResponderDone ==> a.mindex == |table|)
    && (a.mindex == |table| && a.pc != ResponderAborted ==> (a.pc == ServeLoop || a.pc == ResponderDone) && a.i == 0)
    && (a.mindex < |table| ==> a.i <= table[a.mindex].batch)
    && (a.pc == Taking ==> a.i < table[a.mindex].batch && a.off <= table[a.mindex].request)
    && (a.pc == Answering ==> a.i < table[a.mindex].batch && a.off <= table[a.mindex].response)
  }

  /** Copies `bytes` over the front of `buf`. */
  function Overwrite(buf: seq<Byte>, bytes: seq<Byte>): seq<Byte>
    requires |bytes| <= |buf|
  {
    bytes + buf[|bytes|..]
  }

  predicate ResponderGone(s: State) { s.a.pc == ResponderDone || s.a.pc == ResponderAborted }

  predicate RequesterGone(s: State) { s.q.pc == RequesterDone || s.q.pc == RequesterAborted }

  /** The requester's next step; none if it is blocked on a pipe or has ended. */
  function RequesterStep(c: Config, s: State): Option<State>
    requires c.Proper() && InRange(c, s)
  {
    var q := s.q;
    match q.pc
    case SendLoop =>
      if q.mindex == |c.table| then Some(s.(q := q.(pc := RequesterDone)))
      else if q.i < c.table[q.mindex].batch then
        Some(s.(q := q.(pc := Sending, off := 0, buf := Overwrite(q.buf, Bytes(ID_SIZE, q.requestid)),
                        requestid := (q.requestid + 1) % WORD)))
      else Some(s.(q := q.(pc := ReceiveLoop, i := 0)))
    case Sending =>
      if q.off == c.table[q.mindex].request then Some(s.(q := q.(pc := SendLoop, i := q.i + 1)))
      else if ResponderGone(s) then Some(s.(q := q.(pc := RequesterAborted)))        // the write fails
      else if |s.requests| < c.requestRoom then
        Some(s.(q := q.(off := q.off + 1), requests := s.requests + [q.buf[q.off]]))
      else None
    case ReceiveLoop =>
      if q.i < c.table[q.mindex].batch then Some(s.(q := q.(pc := Receiving, off := 0)))
      else Some(s.(q := q.(pc := SendLoop, mindex := q.mindex + 1, i := 0)))
    case Receiving =>
      if q.off == c.table[q.mindex].response then
        if Value(q.buf[..ID_SIZE]) == q.responseid then
          Some(s.(q := q.(pc := ReceiveLoop, i := q.i + 1, responseid := (q.responseid + 1) % WORD)))
        else Some(s.(q := q.(pc := RequesterAborted)))                               // assert(id == responseid)
      else if s.responses != [] then
        Some(s.(q := q.(off := q.off + 1, buf := q.buf[q.off := s.responses[0]]), responses := s.responses[1..]))
      else if ResponderGone(s) then Some(s.(q := q.(pc := RequesterAborted)))        // a short read
      else None
    case RequesterDone => None
    case RequesterAborted => None
  }

  /** The responder's next step; none if it is blocked on a pipe or has ended. */
  function ResponderStep(c: Config, s: State): Option<State>
    requires c.Proper() && InRange(c, s)
  {
    var a := s.a;
    match a.pc
    case ServeLoop =>
      if a.mindex == |c.table| then Some(s.(a := a.(pc := ResponderDone)))
      else if a.i < c.table[a.mindex].batch then Some(s.(a := a.(pc := Taking, off := 0)))
      else Some(s.(a := a.(mindex := a.mindex + 1, i := 0)))
    case Taking =>
      if a.off == c.table[a.mindex].request then Some(s.(a := a.(pc := Answering, off := 0)))
      else if s.requests != [] then
        Some(s.(a := a.(off := a.off + 1, buf := a.buf[a.off := s.requests[0]]), requests := s.requests[1..]))
      else if RequesterGone(s) then Some(s.(a := a.(pc := ResponderAborted)))        // a short read
      else None
    case Answering =>
      if a.off == c.table[a.mindex].response then Some(s.(a := a.(pc := ServeLoop, i := a.i + 1)))
      else if RequesterGone(s) then Some(s.(a := a.(pc := ResponderAborted)))        // the write fails
      else if |s.responses| < c.responseRoom then
        Some(s.(a := a.(off := a.off + 1), responses := s.responses + [a.buf[a.off]]))
      else None
    case ResponderDone => None
    case ResponderAborted => None
  }

  datatype Process = TheRequester | TheResponder

  function Step(c: Config, s: State, who: Process): Option<State>
    requires c.Proper() && InRange(c, s)
  {
    if who == TheRequester then RequesterStep(c, s) else ResponderStep(c, s)
  }

  // ---------------------------------------------------------------------
  // Positions in the streams

  /** How many requests the requester has begun to send. */
  function Begun(table: seq<Phase>, q: Requester): nat
    requires q.mindex <= |table|
  {
    match q.pc
    case SendLoop => First(table, q.mindex) + q.i
    case Sending => First(table, q.mindex) + q.i + 1
    case _ => First(table, if q.mindex < |table| then q.mindex + 1 else q.mindex)
  }

  /** How many responses the requester has got. */
  function Got(table: seq<Phase>, q: Requester): nat
    requires q.mindex <= |table|
  {
    First(table, q.mindex) + if q.pc == ReceiveLoop || q.pc == Receiving then q.i else 0
  }

  /** How many requests the responder has answered. */
  function Served(table: seq<Phase>, a: Responder): nat
    requires a.mindex <= |table|
  {
    First(table, a.mindex) + a.i
  }

  /** How far the four ends of the two pipes are in their streams. */
  function Sent(table: seq<Phase>, q: Requester): nat
    requires q.mindex <= |table|
  {
    if q.pc == Sending then Start(Messages(table), Requests, First(table, q.mindex) + q.i) + q.off
    else Start(Messages(table), Requests, Begun(table, q))
  }

  function Received(table: seq<Phase>, q: Requester): nat
    requires q.mindex <= |table|
  {
    Start(Messages(table), Responses, Got(table, q)) + if q.pc == Receiving then q.off else 0
  }

  function Taken(table: seq<Phase>, a: Responder): nat
    requires a.mindex <= |table|
  {
    if a.pc == Answering then Start(Messages(table), Requests, Served(table, a) + 1)
    else Start(Messages(table), Requests, Served(table, a)) + if a.pc == Taking then a.off else 0
  }

  function Answered(table: seq<Phase>, a: Responder): nat
    requires a.mindex <= |table|
  {
    Start(Messages(table), Responses, Served(table, a)) + if a.pc == Answering then a.off else 0
  }

  /** Of message `q`, the first `n` bytes are in the buffer. */
  ghost predicate Holds(buf: seq<Byte>, n: nat, q: nat) {
    n <= |buf| && forall o | 0 <= o < n :: buf[o] == Content(q, o)
  }

  /** No process writes anything but ids, so that both buffers stay zero behind them. */
  ghost predicate ZeroBehindId(buf: seq<Byte>) {
    forall o | ID_SIZE <= o < |buf| :: buf[o] == 0
  }

  // ---------------------------------------------------------------------
  // The invariant

  /** The pipes carry what the writers have written and the readers have not read. */
  ghost predicate PipesInv(c: Config, s: State)
    requires s.q.mindex <= |c.table| && s.a.mindex <= |c.table|
  {
    && Carries(Messages(c.table), Requests, s.requests, Taken(c.table, s.a), Sent(c.table, s.q))
    && Carries(Messages(c.table), Responses, s.responses, Received(c.table, s.q), Answered(c.table, s.a))
    && |s.requests| <= c.requestRoom && |s.responses| <= c.responseRoom
  }

  ghost predicate RequesterInv(table: seq<Phase>, q: Requester)
    requires q.mindex <= |table|
  {
    && q.pc != RequesterAborted
    && q.requestid == Begun(table, q) % WORD && q.responseid == Got(table, q) % WORD
    && ZeroBehindId(q.buf)
    && (q.pc == Sending ==> Holds(q.buf, |q.buf|, First(table, q.mindex) + q.i))
    && (q.pc == Receiving ==> Holds(q.buf, q.off, First(table, q.mindex) + q.i))
  }

  ghost predicate ResponderInv(table: seq<Phase>, a: Responder)
    requires a.mindex <= |table|
  {
    && a.pc != ResponderAborted
    && ZeroBehindId(a.buf)
    && (a.pc == Taking ==> Holds(a.buf, a.off, Served(table, a)))
    && (a.pc == Answering ==> Holds(a.buf, |a.buf|, Served(table, a)))
  }

  ghost predicate Inv(c: Config, s: State) {
    && InRange(c, s) && PipesInv(c, s)
    && RequesterInv(c.table, s.q) && ResponderInv(c.table, s.a)
  }

  lemma InitialInv(c: Config)
    requires c.Proper()
    ensures Inv(c, Initial(c))
  {
    hide Messages, First, MaxMessageSize, Id, Sequences.Repeat;
    FirstEnds(c.table);
  }

  lemma PipeLengths(c: Config, s: State)
    requires c.Proper() && Inv(c, s)
    ensures Taken(c.table, s.a) + |s.requests| == Sent(c.table, s.q)
    ensures Received(c.table, s.q) + |s.responses| == Answered(c.table, s.a)
  {
  }

  lemma NextMod(n: nat)
    ensures (n % WORD + 1) % WORD == (n + 1) % WORD
  {
  }

  /** Message `First + i` belongs to the phase, and ends where the next one starts. */
  lemma InPhase(table: seq<Phase>, m: nat, i: nat)
    requires ProperTable(table) && m < |table| && i < table[m].batch
    ensures var ms, q := Messages(table), First(table, m) + i;
            && ProperMessages(ms) && q < |ms| && ms[q] == table[m]
            && Start(ms, Requests, q + 1) == Start(ms, Requests, q) + table[m].request <= Start(ms, Requests, |ms|)
            && Start(ms, Responses, q + 1) == Start(ms, Responses, q) + table[m].response <= Start(ms, Responses, |ms|)
  {
    MessagesProper(table);
    MessageOf(table, m, i);
    var ms, q := Messages(table), First(table, m) + i;
    StartMonotone(ms, Requests, q + 1, |ms|);
    StartMonotone(ms, Responses, q + 1, |ms|);
  }

  lemma SendLoopKeepsInv(c: Config, s: State)
    requires c.Proper() && Inv(c, s) && s.q.pc == SendLoop
    ensures var r := RequesterStep(c, s); r.Some? && Inv(c, r.value)
  {
    hide Messages, First, Start, Carries, Bytes, MaxMessageSize;
    var q := s.q;
    FirstEnds(c.table);
    if q.mindex < |c.table| {
      FirstNext(c.table, q.mindex);
      if q.i < c.table[q.mindex].batch {
        InPhase(c.table, q.mindex, q.i);
        NextMod(Begun(c.table, q));
      }
    }
  }

  lemma RequesterLoops(c: Config, s: State)
    requires c.Proper() && Inv(c, s) && (s.q.pc == SendLoop || s.q.pc == ReceiveLoop)
    ensures var r := RequesterStep(c, s); r.Some? && Inv(c, r.value)
  {
    hide Messages, First, Start, Carries, Bytes, MaxMessageSize;
    if s.q.pc == SendLoop {
      hide Inv, RequesterStep;
      SendLoopKeepsInv(c, s);
    } else {
      FirstEnds(c.table);
      FirstNext(c.table, s.q.mindex);
    }
  }

  lemma IdRead(buf: seq<Byte>, q: nat)
    requires Holds(buf, ID_SIZE, q)
    ensures |buf| >= ID_SIZE && buf[..ID_SIZE] == Id(q) && Value(buf[..ID_SIZE]) == q % WORD
  {
    assert buf[..ID_SIZE] == Id(q);
    WordRoundTrip(q % WORD);
  }

  /** A byte that goes into the pipe is the next one of the stream. */
  lemma RequestGrows(c: Config, s: State)
    requires c.Proper() && Inv(c, s) && s.q.pc == Sending && s.q.off < c.table[s.q.mindex].request
    ensures s.q.off < |s.q.buf|
    ensures Carries(Messages(c.table), Requests, s.requests + [s.q.buf[s.q.off]], Taken(c.table, s.a),
                    Sent(c.table, s.q.(off := s.q.off + 1)))
  {
    hide Messages, First, Start, Id, Taken;
    var q := s.q;
    FirstEnds(c.table);
    InPhase(c.table, q.mindex, q.i);
    var k := First(c.table, q.mindex) + q.i;
    assert q.buf[q.off] == Content(k, q.off);
    hide Holds, MaxMessageSize, Carries;
    PushCarries(Messages(c.table), Requests, s.requests, Taken(c.table, s.a), k, q.off, q.buf[q.off]);
  }

  lemma RequesterSends(c: Config, s: State)
    requires c.Proper() && Inv(c, s) && s.q.pc == Sending
    ensures var r := RequesterStep(c, s); r.Some? ==> Inv(c, r.value)
  {
    hide Messages, First, Start, Id, MaxMessageSize, Carries, Holds;
    var q := s.q;
    FirstEnds(c.table);
    PipeLengths(c, s);
    InPhase(c.table, q.mindex, q.i);
    if q.off < c.table[q.mindex].request {
      RequestGrows(c, s);
    }
  }

  lemma RequesterReceives(c: Config, s: State)
    requires c.Proper() && Inv(c, s) && s.q.pc == Receiving && s.q.off < c.table[s.q.mindex].response
    ensures var r := RequesterStep(c, s); r.Some? ==> Inv(c, r.value)
  {
    hide Messages, First, Start, Id, Value, MaxMessageSize, Carries;
    var q := s.q;
    PipeLengths(c, s);
    FirstEnds(c.table);
    InPhase(c.table, q.mindex, q.i);
    if s.responses != [] {
      var k := First(c.table, q.mindex) + q.i;
      PopCarries(Messages(c.table), Responses, s.responses, Answered(c.table, s.a), k, q.off);
    }
  }

  lemma RequesterChecks(c: Config, s: State)
    requires c.Proper() && Inv(c, s) && s.q.pc == Receiving && s.q.off == c.table[s.q.mindex].response
    ensures Value(s.q.buf[..ID_SIZE]) == s.q.responseid
    ensures var r := RequesterStep(c, s); r.Some? && Inv(c, r.value)
  {
    hide Messages, First, Start, Id, Value, Carries, MaxMessageSize;
    var q := s.q;
    FirstNext(c.table, q.mindex);
    InPhase(c.table, q.mindex, q.i);
    IdRead(q.buf, First(c.table, q.mindex) + q.i);
    NextMod(First(c.table, q.mindex) + q.i);
  }

  lemma ResponderLoops(c: Config, s: State)
    requires c.Proper() && Inv(c, s) && s.a.pc == ServeLoop
    ensures var r := ResponderStep(c, s); r.Some? && Inv(c, r.value)
  {
    hide Messages, First, Start, Id;
    FirstEnds(c.table);
    if s.a.mindex < |c.table| {
      FirstNext(c.table, s.a.mindex);
    }
  }

  lemma ResponderTakes(c: Config, s: State)
    requires c.Proper() && Inv(c, s) && s.a.pc == Taking
    ensures var r := ResponderStep(c, s); r.Some? ==> Inv(c, r.value)
  {
    hide Messages, First, Start, Id, MaxMessageSize, Carries;
    var a, ms := s.a, Messages(c.table);
    PipeLengths(c, s);
    FirstEnds(c.table);
    InPhase(c.table, a.mindex, a.i);
    if a.off < c.table[a.mindex].request && s.requests != [] {
      PopCarries(ms, Requests, s.requests, Sent(c.table, s.q), Served(c.table, a), a.off);
    }
  }

  lemma ResponseGrows(c: Config, s: State)
    requires c.Proper() && Inv(c, s) && s.a.pc == Answering && s.a.off < c.table[s.a.mindex].response
    ensures s.a.off < |s.a.buf|
    ensures Carries(Messages(c.table), Responses, s.responses + [s.a.buf[s.a.off]], Received(c.table, s.q),
                    Answered(c.table, s.a.(off := s.a.off + 1)))
  {
    hide Messages, First, Start, Id, Received;
    var a := s.a;
    FirstEnds(c.table);
    InPhase(c.table, a.mindex, a.i);
    var k := Served(c.table, a);
    assert a.buf[a.off] == Content(k, a.off);
    hide Holds, MaxMessageSize, Carries;
    PushCarries(Messages(c.table), Responses, s.responses, Received(c.table, s.q), k, a.off, a.buf[a.off]);
  }

  lemma ResponderAnswers(c: Config, s: State)
    requires c.Proper() && Inv(c, s) && s.a.pc == Answering
    ensures var r := ResponderStep(c, s); r.Some? ==> Inv(c, r.value)
  {
    hide Messages, First, Start, Id, MaxMessageSize, Carries, Holds;
    var a := s.a;
    FirstEnds(c.table);
    PipeLengths(c, s);
    InPhase(c.table, a.mindex, a.i);
    if a.off < c.table[a.mindex].response {
      ResponseGrows(c, s);
    }
  }

  lemma StepKeepsInv(c: Config, s: State, who: Process)
    requires c.Proper() && Inv(c, s)
    ensures var r := Step(c, s, who); r.Some? ==> Inv(c, r.value)
  {
    hide PipesInv, RequesterInv, ResponderInv;
    if who == TheRequester {
      if s.q.pc == Sending {
        RequesterSends(c, s);
      } else if s.q.pc == Receiving {
        if s.q.off < c.table[s.q.mindex].response {
          RequesterReceives(c, s);
        } else {
          RequesterChecks(c, s);
        }
      } else if s.q.pc == SendLoop || s.q.pc == ReceiveLoop {
        RequesterLoops(c, s);
      }
    } else {
      if s.a.pc == Taking {
        ResponderTakes(c, s);
      } else if s.a.pc == Answering {
        ResponderAnswers(c, s);
      } else if s.a.pc == ServeLoop {
        ResponderLoops(c, s);
      }
    }
  }

  // ---------------------------------------------------------------------
  // Runs

  predicate Finished(s: State) { s.q.pc == RequesterDone && s.a.pc == ResponderDone }

  predicate Enabled(c: Config, s: State)
    requires c.Proper() && InRange(c, s)
  {
    RequesterStep(c, s).Some? || ResponderStep(c, s).Some?
  }

  /** The state after the processes have gone in the order of `sched`, if none was blocked. */
  ghost function Run(c: Config, s: State, sched: seq<Process>): (r: Option<State>)
    requires c.Proper() && Inv(c, s)
    ensures r.Some? ==> Inv(c, r.value)
    decreases |sched|
  {
    if sched == [] then Some(s)
    else
      StepKeepsInv(c, s, sched[0]);
      var next := Step(c, s, sched[0]);
      if next.None? then None else Run(c, next.value, sched[1..])
  }

  /** No assertion has failed, and a response that is complete in the requester's buffer is the next
      one, with the number of responses before it as its id. */
  ghost predicate InOrder(c: Config, s: State)
    requires InRange(c, s)
  {
    && s.q.pc != RequesterAborted && s.a.pc != ResponderAborted
    && (s.q.pc == Receiving && s.q.off == c.table[s.q.mindex].response ==>
          && Holds(s.q.buf, s.q.off, Got(c.table, s.q)) && |s.q.buf| >= ID_SIZE
          && Value(s.q.buf[..ID_SIZE]) == Got(c.table, s.q) % WORD == s.q.responseid)
  }

  lemma InvInOrder(c: Config, s: State)
    requires c.Proper() && Inv(c, s)
    ensures InOrder(c, s)
  {
    hide Messages, First, Start, Carries, Holds, Value, MaxMessageSize, RequesterStep, ResponderStep;
    if s.q.pc == Receiving && s.q.off == c.table[s.q.mindex].response {
      RequesterChecks(c, s);
    }
  }

  /** For every table and every interleaving: no assertion of either process fails, and the k-th
      response is id k and zeros. */
  lemma IdsMatch(c: Config, sched: seq<Process>)
    requires c.Proper()
    ensures Inv(c, Initial(c))
    ensures var r := Run(c, Initial(c), sched); r.Some? ==> InOrder(c, r.value)
  {
    hide Run, Initial, InOrder;
    InitialInv(c);
    var r := Run(c, Initial(c), sched);
    if r.Some? {
      InvInOrder(c, r.value);
    }
  }

  /** When both processes have ended, every request has its response and the pipes are empty. */
  lemma FinishedIsComplete(c: Config, s: State)
    requires c.Proper() && Inv(c, s) && Finished(s)
    ensures s.requests == [] && s.responses == []
    ensures s.q.requestid == s.q.responseid == |Messages(c.table)| % WORD
    ensures Sent(c.table, s.q) == Taken(c.table, s.a) == Start(Messages(c.table), Requests, |Messages(c.table)|)
    ensures Received(c.table, s.q) == Answered(c.table, s.a) == Start(Messages(c.table), Responses, |Messages(c.table)|)
  {
    FirstEnds(c.table);
  }
}
