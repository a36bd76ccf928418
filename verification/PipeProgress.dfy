/** The pipe exchange ends: how many steps it takes, and exactly when it cannot get stuck. */
module PipeProgress {
  import opened Arithmetic
  import opened Options
  import opened PipeExchange
  import opened PipeStream

  // ---------------------------------------------------------------------
  // Every run is finite

  function Times(n: nat, x: nat): nat { n * x }

  lemma TimesNext(i: nat, n: nat, x: nat)
    requires i <= n
    ensures Times(0, x) == 0
    ensures i < n ==> Times(i + 1, x) == Times(i, x) + x <= Times(n, x)
  {
    if i < n {
      TimesMonotone(i + 1, n, x);
    }
  }

  function RequesterCost(p: Phase): nat {
    Times(p.batch, p.request + 2) + 1 + Times(p.batch, p.response + 2) + 1
  }

  /** Steps in which the responder serves one request. */
  function Round(p: Phase): nat { p.request + p.response + 3 }

  function ResponderCost(p: Phase): nat {
    Times(p.batch, Round(p)) + 1
  }

  /** Steps from the start of phase `m` to the end of the process. */
  function RequesterAhead(table: seq<Phase>, m: nat): nat
    requires m <= |table|
    decreases |table| - m
  {
    if m == |table| then 1 else RequesterCost(table[m]) + RequesterAhead(table, m + 1)
  }

  function ResponderAhead(table: seq<Phase>, m: nat): nat
    requires m <= |table|
    decreases |table| - m
  {
    if m == |table| then 1 else ResponderCost(table[m]) + ResponderAhead(table, m + 1)
  }

  function RequesterLeft(table: seq<Phase>, q: Requester): int
    requires q.mindex <= |table|
  {
    if q.pc == RequesterDone || q.pc == RequesterAborted then 0
    else if q.mindex == |table| then 1
    else
      var p := table[q.mindex];
      RequesterAhead(table, q.mindex) -
      if q.pc == SendLoop then Times(q.i, p.request + 2)
      else if q.pc == Sending then Times(q.i, p.request + 2) + 1 + q.off
      else Times(p.batch, p.request + 2) + 1 + Times(q.i, p.response + 2) +
           if q.pc == ReceiveLoop then 0 else 1 + q.off
  }

  function ResponderLeft(table: seq<Phase>, a: Responder): int
    requires a.mindex <= |table|
  {
    if a.pc == ResponderDone || a.pc == ResponderAborted then 0
    else if a.mindex == |table| then 1
    else
      var p := table[a.mindex];
      ResponderAhead(table, a.mindex) - Times(a.i, Round(p)) -
      if a.pc == ServeLoop then 0
      else if a.pc == Taking then 1 + a.off
      else 1 + p.request + 1 + a.off
  }

  /** How many steps both processes have left. */
  function Left(c: Config, s: State): int
    requires s.q.mindex <= |c.table| && s.a.mindex <= |c.table|
  {
    RequesterLeft(c.table, s.q) + ResponderLeft(c.table, s.a)
  }

  lemma RequesterLeftBounds(table: seq<Phase>, q: Requester)
    requires RequesterInRange(table, q)
    ensures RequesterLeft(table, q) >= 0
    ensures RequesterLeft(table, q) == 0 <==> q.pc == RequesterDone || q.pc == RequesterAborted
  {
    hide MaxMessageSize, Times;
    if q.mindex < |table| {
      TimesNext(q.i, table[q.mindex].batch, table[q.mindex].request + 2);
      TimesNext(q.i, table[q.mindex].batch, table[q.mindex].response + 2);
    }
  }

  lemma ResponderLeftBounds(table: seq<Phase>, a: Responder)
    requires ResponderInRange(table, a)
    ensures ResponderLeft(table, a) >= 0
    ensures ResponderLeft(table, a) == 0 <==> a.pc == ResponderDone || a.pc == ResponderAborted
  {
    hide MaxMessageSize, Times;
    if a.mindex < |table| {
      TimesNext(a.i, table[a.mindex].batch, Round(table[a.mindex]));
    }
  }

  /** At a loop head the step left behind is the one into the message or into the next loop. */
  lemma RequesterLoopsSpendOne(c: Config, s: State)
    requires c.Proper() && InRange(c, s) && (s.q.pc == SendLoop || s.q.pc == ReceiveLoop)
    ensures RequesterLeft(c.table, RequesterStep(c, s).value.q) == RequesterLeft(c.table, s.q) - 1
  {
    hide MaxMessageSize, Times, Bytes, RequesterAhead;
    var q, table := s.q, c.table;
    if q.mindex < |table| {
      AheadNext(table, q.mindex);
      TimesNext(q.i, table[q.mindex].batch, table[q.mindex].request + 2);
      TimesNext(q.i, table[q.mindex].batch, table[q.mindex].response + 2);
      if q.mindex + 1 < |table| {
        TimesNext(0, 0, table[q.mindex + 1].request + 2);
      }
    }
  }

  lemma AheadNext(table: seq<Phase>, m: nat)
    requires m < |table|
    ensures RequesterAhead(table, m) == RequesterCost(table[m]) + RequesterAhead(table, m + 1)
    ensures ResponderAhead(table, m) == ResponderCost(table[m]) + ResponderAhead(table, m + 1)
    ensures RequesterAhead(table, |table|) == 1 == ResponderAhead(table, |table|)
  {
  }

  /** Within a message it is a byte, and at its end the step back to the loop head. */
  lemma RequesterMessagesSpendOne(c: Config, s: State)
    requires c.Proper() && InRange(c, s) && (s.q.pc == Sending || s.q.pc == Receiving) && RequesterStep(c, s).Some?
    requires RequesterStep(c, s).value.q.pc != RequesterAborted
    ensures RequesterLeft(c.table, RequesterStep(c, s).value.q) == RequesterLeft(c.table, s.q) - 1
  {
    hide MaxMessageSize, Times, Value, RequesterAhead;
    var p := c.table[s.q.mindex];
    if s.q.pc == Sending {
      TimesNext(s.q.i, p.batch, p.request + 2);
    } else {
      TimesNext(s.q.i, p.batch, p.response + 2);
    }
  }

  lemma RequesterSpendsOne(c: Config, s: State)
    requires c.Proper() && InRange(c, s) && RequesterStep(c, s).Some?
    requires RequesterStep(c, s).value.q.pc != RequesterAborted
    ensures RequesterLeft(c.table, RequesterStep(c, s).value.q) == RequesterLeft(c.table, s.q) - 1
  {
    hide MaxMessageSize, RequesterLeft, Value, Bytes;
    if s.q.pc == SendLoop || s.q.pc == ReceiveLoop {
      RequesterLoopsSpendOne(c, s);
    } else {
      RequesterMessagesSpendOne(c, s);
    }
  }

  lemma ResponderSpendsOne(c: Config, s: State)
    requires c.Proper() && InRange(c, s) && ResponderStep(c, s).Some?
    requires ResponderStep(c, s).value.a.pc != ResponderAborted
    ensures ResponderLeft(c.table, ResponderStep(c, s).value.a) == ResponderLeft(c.table, s.a) - 1
  {
    hide MaxMessageSize, Times, ResponderAhead;
    var a := s.a;
    if a.mindex < |c.table| {
      AheadNext(c.table, a.mindex);
      TimesNext(a.i, c.table[a.mindex].batch, Round(c.table[a.mindex]));
      if a.mindex + 1 < |c.table| {
        TimesNext(0, 0, Round(c.table[a.mindex + 1]));
      }
    }
  }

  lemma StepSpendsOne(c: Config, s: State, who: Process)
    requires c.Proper() && Inv(c, s) && Step(c, s, who).Some?
    ensures var s' := Step(c, s, who).value; Inv(c, s') && Left(c, s') == Left(c, s) - 1
  {
    hide PipesInv, RequesterLeft, ResponderLeft;
    StepKeepsInv(c, s, who);
    if who == TheRequester {
      RequesterSpendsOne(c, s);
    } else {
      ResponderSpendsOne(c, s);
    }
  }

  /** Every run is finite: each of its steps is one of those left at the start, and when none are
      left both processes have ended. */
  lemma {:induction false} RunsAreFinite(c: Config, s: State, sched: seq<Process>)
    requires c.Proper() && Inv(c, s) && Run(c, s, sched).Some?
    ensures var end := Run(c, s, sched).value;
            && |sched| + Left(c, end) == Left(c, s) && Left(c, end) >= 0
            && (|sched| == Left(c, s) <==> Finished(end))
    decreases |sched|
  {
    if sched == [] {
      RequesterLeftBounds(c.table, s.q);
      ResponderLeftBounds(c.table, s.a);
    } else {
      StepSpendsOne(c, s, sched[0]);
      RunsAreFinite(c, Step(c, s, sched[0]).value, sched[1..]);
    }
  }

  // ---------------------------------------------------------------------
  // Deadlock

  /** Batch k of requests of size R and responses of size S: k * R bytes fit in what the request pipe
      holds and what the responder takes while the response pipe has room for its answers. */
  predicate Fits(c: Config, p: Phase)
    requires p.response > 0
  {
    p.batch * p.request <= c.requestRoom + (c.responseRoom / p.response + 1) * p.request
  }

  /** The only way to be stuck before the end: both processes write into full pipes. */
  lemma OnlyBothWriting(c: Config, s: State)
    requires c.Proper() && Inv(c, s) && !Finished(s) && !Enabled(c, s)
    ensures s.q.pc == Sending && s.q.off < c.table[s.q.mindex].request && |s.requests| == c.requestRoom
    ensures s.a.pc == Answering && s.a.off < c.table[s.a.mindex].response && |s.responses| == c.responseRoom
  {
    hide Messages, First, Start, Id, MaxMessageSize;
    FirstEnds(c.table);
    if s.q.pc == Sending {
      InPhase(c.table, s.q.mindex, s.q.i);
    }
    if s.q.pc == Receiving {
      FirstNext(c.table, s.q.mindex);
      InPhase(c.table, s.q.mindex, s.q.i);
    }
    if s.a.pc == Taking || s.a.pc == Answering {
      InPhase(c.table, s.a.mindex, s.a.i);
    }
    if s.q.pc == Receiving && s.a.pc == Taking {
      BothReading(c, s);
    }
  }

  lemma BothReading(c: Config, s: State)
    requires c.Proper() && Inv(c, s) && s.q.pc == Receiving && s.a.pc == Taking
    requires s.q.off < c.table[s.q.mindex].response && s.a.off < c.table[s.a.mindex].request
    ensures s.requests != [] || s.responses != []
  {
    hide Messages, First, Start, Id, MaxMessageSize;
    var ms := Messages(c.table);
    var p, n := Served(c.table, s.a), First(c.table, s.q.mindex) + s.q.i;
    FirstNext(c.table, s.q.mindex);
    InPhase(c.table, s.q.mindex, s.q.i);
    InPhase(c.table, s.a.mindex, s.a.i);
    FirstMonotone(c.table, s.q.mindex + 1, |c.table|);
    FirstEnds(c.table);
    if p < First(c.table, s.q.mindex + 1) {
      StartMonotone(ms, Requests, p, First(c.table, s.q.mindex + 1));
    } else {
      StartMonotone(ms, Responses, n, p);
    }
  }

  /** Two processes that write are in the same phase. */
  lemma SamePhase(c: Config, s: State)
    requires c.Proper() && Inv(c, s) && s.q.pc == Sending && s.a.pc == Answering
    requires s.q.off < c.table[s.q.mindex].request && s.a.off < c.table[s.a.mindex].response
    ensures s.q.mindex == s.a.mindex
  {
    hide Messages, First, Start, Id, MaxMessageSize;
    var table, ms := c.table, Messages(c.table);
    InPhase(table, s.q.mindex, s.q.i);
    InPhase(table, s.a.mindex, s.a.i);
    var p, n := Served(table, s.a), First(table, s.q.mindex) + s.q.i;
    if s.a.mindex < s.q.mindex {
      FirstNext(table, s.a.mindex);
      FirstMonotone(table, s.a.mindex + 1, s.q.mindex);
      StartMonotone(ms, Responses, p + 1, First(table, s.q.mindex));
    } else if s.q.mindex < s.a.mindex {
      FirstNext(table, s.q.mindex);
      FirstMonotone(table, s.q.mindex + 1, s.a.mindex);
      StartMonotone(ms, Requests, n + 1, p);
    }
  }

  /** The requester in its request `i`, the responder in its answer `j`, of the same phase. */
  lemma FullPipes(c: Config, p: Phase, i: nat, off: nat, j: nat, offset: nat)
    requires i < p.batch && off < p.request && offset < p.response
    requires i * p.request + off == (j + 1) * p.request + c.requestRoom
    requires j * p.response + offset == c.responseRoom
    ensures !Fits(c, p)
  {
    DivUnique(j, offset, p.response);
    TimesMonotone(i + 1, p.batch, p.request);
  }

  lemma StuckBreaksFit(c: Config, s: State)
    requires c.Proper() && Inv(c, s) && !Finished(s) && !Enabled(c, s)
    ensures s.q.mindex < |c.table| && !Fits(c, c.table[s.q.mindex])
  {
    hide Messages, First, Start, Id, MaxMessageSize, Fits;
    OnlyBothWriting(c, s);
    SamePhase(c, s);
    var m, i, j := s.q.mindex, s.q.i, s.a.i;
    StartInPhase(c.table, Requests, m, i);
    StartInPhase(c.table, Requests, m, j + 1);
    StartInPhase(c.table, Responses, m, j);
    FullPipes(c, c.table[m], i, s.q.off, j, s.a.off);
  }

  /** The requester has not got past sending in phase `m`. */
  predicate Before(s: State, m: nat) {
    s.q.mindex < m || (s.q.mindex == m && (s.q.pc == SendLoop || s.q.pc == Sending))
  }

  lemma QuotientBound(i: nat, size: nat, room: nat)
    requires size > 0 && i * size <= room
    ensures i <= room / size
  {
    var q := room / size;
    assert room == q * size + room % size;
    if q < i {
      TimesMonotone(q + 1, i, size);
    }
  }

  /** The requester has sent the whole batch of phase `m` and read no response of it. */
  ghost predicate SentAll(c: Config, s: State, m: nat) {
    && c.Proper() && Inv(c, s) && m < |c.table|
    && s.q.pc == SendLoop && s.q.mindex == m && s.q.i == c.table[m].batch
  }

  /** If the responder has taken no byte of the phase, the request pipe holds the whole batch. */
  lemma SentAllToOneBehind(c: Config, s: State, m: nat)
    requires SentAll(c, s, m) && s.a.mindex < m
    ensures c.table[m].batch * c.table[m].request <= c.requestRoom
  {
    hide Messages, First, Start, Id, MaxMessageSize;
    var table, ms, n := c.table, Messages(c.table), s.a.mindex;
    FirstEnds(table);
    StartInPhase(table, Requests, m, table[m].batch);
    FirstNext(table, n);
    FirstMonotone(table, n + 1, m);
    FirstMonotone(table, m, |table|);
    if s.a.pc == ServeLoop {
      StartMonotone(ms, Requests, Served(table, s.a), First(table, m));
    } else {
      InPhase(table, n, s.a.i);
      StartMonotone(ms, Requests, Served(table, s.a) + 1, First(table, m));
    }
  }

  lemma SentAllInPhase(c: Config, s: State, m: nat)
    requires SentAll(c, s, m) && s.a.mindex == m
    ensures Fits(c, c.table[m])
  {
    hide Messages, First, Start, Id, MaxMessageSize;
    var table, p, j := c.table, c.table[m], s.a.i;
    StartInPhase(table, Requests, m, p.batch);
    StartInPhase(table, Responses, m, j);
    QuotientBound(j, p.response, c.responseRoom);
    TimesMonotone(j + 1, c.responseRoom / p.response + 1, p.request);
    if s.a.pc == ServeLoop {
      StartInPhase(table, Requests, m, j);
      TimesMonotone(j, j + 1, p.request);
    } else {
      StartInPhase(table, Requests, m, j + 1);
      InPhase(table, m, j);
    }
  }

  /** If the responder is past the phase, the response pipe holds all its responses. */
  lemma SentAllToOneAhead(c: Config, s: State, m: nat)
    requires SentAll(c, s, m) && m < s.a.mindex
    ensures c.table[m].batch * c.table[m].response <= c.responseRoom
  {
    hide Messages, First, Start, Id, MaxMessageSize, Carries, Holds;
    var table, ms, n := c.table, Messages(c.table), s.a.mindex;
    PipeLengths(c, s);
    FirstEnds(table);
    FirstNext(table, m);
    FirstMonotone(table, m + 1, n);
    FirstMonotone(table, n, |table|);
    StartInPhase(table, Responses, m, table[m].batch);
    if n < |table| {
      StartInPhase(table, Responses, n, s.a.i);
    }
    StartMonotone(ms, Responses, First(table, m + 1), First(table, n));
  }

  /** A pipe that holds a whole batch in its direction is enough. */
  lemma WholeBatchFits(c: Config, p: Phase)
    requires p.response > 0
    requires p.batch * p.request <= c.requestRoom || p.batch * p.response <= c.responseRoom
    ensures Fits(c, p)
  {
    if p.batch * p.response <= c.responseRoom {
      QuotientBound(p.batch, p.response, c.responseRoom);
      TimesMonotone(p.batch, c.responseRoom / p.response + 1, p.request);
    }
  }

  /** With the whole batch sent and no response read, the batch must fit. */
  lemma SentAllFits(c: Config, s: State, m: nat)
    requires SentAll(c, s, m)
    ensures Fits(c, c.table[m])
  {
    hide Inv;
    if s.a.mindex < m {
      SentAllToOneBehind(c, s, m);
      WholeBatchFits(c, c.table[m]);
    } else if s.a.mindex == m {
      SentAllInPhase(c, s, m);
    } else {
      SentAllToOneAhead(c, s, m);
      WholeBatchFits(c, c.table[m]);
    }
  }

  lemma {:induction false} NeverPast(c: Config, s: State, sched: seq<Process>, m: nat)
    requires c.Proper() && Inv(c, s) && m < |c.table| && !Fits(c, c.table[m]) && Before(s, m)
    ensures var r := Run(c, s, sched); r.Some? ==> Before(r.value, m)
    decreases |sched|
  {
    hide PipesInv, ResponderInv, Fits, MaxMessageSize, Begun, Got;
    if sched != [] {
      StepKeepsInv(c, s, sched[0]);
      var next := Step(c, s, sched[0]);
      if next.Some? {
        if s.q.pc == SendLoop && s.q.mindex == m && s.q.i == c.table[m].batch {
          SentAllFits(c, s, m);
        }
        NeverPast(c, next.value, sched[1..], m);
      }
    }
  }

  /** A run that goes on until no process can step. */
  lemma {:induction false} Exhaust(c: Config, s: State) returns (sched: seq<Process>)
    requires c.Proper() && Inv(c, s)
    ensures var r := Run(c, s, sched); r.Some? && !Enabled(c, r.value)
    decreases Left(c, s)
  {
    hide PipesInv, RequesterInv, ResponderInv, RequesterLeft, ResponderLeft, MaxMessageSize;
    if Enabled(c, s) {
      var who := if RequesterStep(c, s).Some? then TheRequester else TheResponder;
      StepSpendsOne(c, s, who);
      RequesterLeftBounds(c.table, s.q);
      ResponderLeftBounds(c.table, s.a);
      var rest := Exhaust(c, Step(c, s, who).value);
      sched := [who] + rest;
      assert sched[1..] == rest;
    } else {
      sched := [];
    }
  }

  /** From the start, every unfinished state that a run can reach has a process that can step. */
  ghost predicate DeadlockFree(c: Config)
    requires c.Proper()
  {
    InitialInv(c);
    forall sched ::
      var r := Run(c, Initial(c), sched);
      r.Some? && !Finished(r.value) ==> Enabled(c, r.value)
  }

  /** The exchange cannot get stuck exactly if the batch of every phase fits. */
  lemma DeadlockFreeIffFits(c: Config)
    requires c.Proper()
    ensures DeadlockFree(c) <==> forall m | 0 <= m < |c.table| :: Fits(c, c.table[m])
  {
    hide PipesInv, RequesterInv, ResponderInv, Fits, MaxMessageSize;
    InitialInv(c);
    if forall m | 0 <= m < |c.table| :: Fits(c, c.table[m]) {
      forall sched | Run(c, Initial(c), sched).Some? && !Finished(Run(c, Initial(c), sched).value)
        ensures Enabled(c, Run(c, Initial(c), sched).value)
      {
        var s := Run(c, Initial(c), sched).value;
        if !Enabled(c, s) {
          StuckBreaksFit(c, s);
        }
      }
    } else {
      var m :| 0 <= m < |c.table| && !Fits(c, c.table[m]);
      var sched := Exhaust(c, Initial(c));
      NeverPast(c, Initial(c), sched, m);
      assert !Finished(Run(c, Initial(c), sched).value);
    }
  }

  /** If the batches fit, a run that cannot go on has ended with everything answered and both pipes
      empty, and all such runs have the same number of steps. */
  lemma FullRunCompletes(c: Config, sched: seq<Process>)
    requires c.Proper() && forall m | 0 <= m < |c.table| :: Fits(c, c.table[m])
    ensures Inv(c, Initial(c))
    ensures var r := Run(c, Initial(c), sched);
            r.Some? && !Enabled(c, r.value) ==>
              && Finished(r.value) && r.value.requests == [] && r.value.responses == []
              && |sched| == Left(c, Initial(c))
  {
    hide PipesInv, RequesterInv, ResponderInv, Fits, MaxMessageSize, RequesterLeft, ResponderLeft;
    InitialInv(c);
    var r := Run(c, Initial(c), sched);
    if r.Some? && !Enabled(c, r.value) {
      DeadlockFreeIffFits(c);
      FinishedIsComplete(c, r.value);
      RunsAreFinite(c, Initial(c), sched);
    }
  }

  /** The table of the program. */
  function ProgramTable(): seq<Phase> {
    [Phase(1, 100, 100), Phase(1, 10000, 10000), Phase(20, 100, 100), Phase(20, 10000, 10000),
     Phase(1, 100, 100), Phase(1, 10000, 10000), Phase(20, 100, 100), Phase(20, 10000, 10000)]
  }

  predicate WideEnough(c: Config) { c.requestRoom + (c.responseRoom / 10000 + 1) * 10000 >= 200000 }

  lemma ProgramRowFits(c: Config, m: nat)
    requires m < 8 && WideEnough(c)
    ensures var p := ProgramTable()[m]; p.response > 0 && Fits(c, p)
  {
    assert c.responseRoom / 10000 * 10000 <= c.responseRoom < (c.responseRoom / 100 + 1) * 100;
  }

  /** The program cannot get stuck exactly if its pipes are this large. Two pipes of 65536 bytes
      are not: 65536 + (6 + 1) * 10000 < 20 * 10000. */
  lemma ProgramDeadlock(c: Config)
    requires c.table == ProgramTable() && c.requestRoom >= 1 && c.responseRoom >= 1
    ensures c.Proper()
    ensures DeadlockFree(c) <==> WideEnough(c)
    ensures c.requestRoom == c.responseRoom == 65536 ==> !DeadlockFree(c)
  {
    hide DeadlockFree;
    DeadlockFreeIffFits(c);
    if WideEnough(c) {
      hide Fits;
      forall m | 0 <= m < |c.table| ensures Fits(c, c.table[m]) {
        ProgramRowFits(c, m);
      }
    } else {
      assert c.table[3] == Phase(20, 10000, 10000) && !Fits(c, c.table[3]);
    }
  }
}
