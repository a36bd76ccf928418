/** The kernel's process table, its round-robin scheduler, and the transitions that an exception makes. */
module Scheduler {
  import Arithmetic
  import opened Options

  const NPROC := 16

  datatype ProcState = Free | Runnable | Blocked | Broken

  /** What made the processor enter the kernel while a process ran: `sys_yield`, a timer interrupt,
      a page fault of the process, or a system call that returns to its caller. */
  datatype Event = Yield | Timer | Fault | DirectSyscall

  /** The states of all processes, and the one that runs. */
  datatype Sys = Sys(states: seq<ProcState>, current: nat)
  {
    predicate InRange() { |states| == NPROC && current < NPROC }

    predicate Ready(p: nat) { p < |states| && states[p] == Runnable }

    /** A runnable process runs. */
    predicate Running() { InRange() && Ready(current) }
  }

  // ---------------------------------------------------------------------
  // The scheduler

  /** How many places after `from`, going round, `to` is: 1 for the next one, NPROC for itself. */
  function Distance(from: nat, to: nat): (d: nat)
    requires from < NPROC && to < NPROC
    ensures 1 <= d <= NPROC
    ensures (from + d) % NPROC == to
  {
    if from < to then to - from else to - from + NPROC
  }

  /** The nearest runnable process after `current`. */
  ghost predicate IsNext(s: Sys, p: nat)
    requires s.InRange()
  {
    s.Ready(p) && forall q | s.Ready(q) :: Distance(s.current, p) <= Distance(s.current, q)
  }

  /** The process that the loop of `schedule` finds, when `n` of its spins remain in this round. */
  function Spin(s: Sys, pid: nat, n: nat): (found: Option<nat>)
    requires s.InRange() && pid < NPROC
    ensures found.Some? ==> s.Ready(found.value)
    decreases n
  {
    if n == 0 then None
    else
      var next := (pid + 1) % NPROC;
      if s.states[next] == Runnable then Some(next) else Spin(s, next, n - 1)
  }

  lemma {:induction false} SpinFindsNext(s: Sys, pid: nat, n: nat)
    requires s.InRange() && pid < NPROC
    requires (n == NPROC && pid == s.current) || (n < NPROC && Distance(s.current, pid) == NPROC - n)
    requires n < NPROC ==> forall q | s.Ready(q) :: Distance(s.current, q) > NPROC - n
    ensures match Spin(s, pid, n)
            case Some(p) => IsNext(s, p)
            case None => forall q :: !s.Ready(q)
    decreases n
  {
    if n > 0 {
      var next := (pid + 1) % NPROC;
      if s.states[next] != Runnable {
        forall q | s.Ready(q) ensures Distance(s.current, q) > NPROC - (n - 1) {
          assert q != next;
        }
        SpinFindsNext(s, next, n - 1);
      }
    }
  }

  /** `schedule`: the next state, or none if it spins forever. */
  function Schedule(s: Sys): (r: Option<Sys>)
    requires s.InRange()
    ensures r.Some? ==> r.value.Running() && r.value.states == s.states
  {
    match Spin(s, s.current, NPROC)
    case Some(p) => Some(s.(current := p))
    case None => None
  }

  lemma SchedulePicksNext(s: Sys)
    requires s.InRange()
    ensures match Schedule(s)
            case Some(s') => IsNext(s, s'.current)
            case None => forall q :: !s.Ready(q)
  {
    SpinFindsNext(s, s.current, NPROC);
  }

  /** The process examined in spin number `n` of the source's endless loop. */
  function Examined(s: Sys, n: nat): nat { (s.current + 1 + n) % NPROC }

  /** The endless loop finds nothing in any number of spins exactly if no process is runnable;
      the first NPROC spins decide. */
  lemma SpinsForever(s: Sys)
    requires s.InRange()
    ensures Schedule(s).None? <==> forall n: nat :: s.states[Examined(s, n)] != Runnable
    ensures Schedule(s).None? <==> forall q :: !s.Ready(q)
  {
    SchedulePicksNext(s);
    if Schedule(s).Some? {
      var p := Schedule(s).value.current;
      assert Examined(s, Distance(s.current, p) - 1) == p;
    } else {
      forall n: nat ensures s.states[Examined(s, n)] != Runnable {
        assert !s.Ready(Examined(s, n));
      }
    }
  }

  /** No runnable process is among the next `n` places. */
  ghost predicate NoneWithin(s: Sys, n: nat)
    requires s.InRange()
  {
    forall q | s.Ready(q) :: Distance(s.current, q) > n
  }

  lemma ExaminedPlace(s: Sys, n: nat)
    requires s.InRange()
    ensures Examined(s, n) == ((s.current + n) % NPROC + 1) % NPROC == (s.current + (n + 1)) % NPROC
    ensures n < NPROC ==> Distance(s.current, Examined(s, n)) == n + 1
  {
    Arithmetic.ModNext(s.current + n, NPROC);
  }

  lemma StartsAtOwnPlace(s: Sys)
    requires s.InRange()
    ensures NoneWithin(s, 0) && (s.current + 0) % NPROC == s.current
  {
  }

  lemma NextIsUnique(s: Sys, p: nat, q: nat)
    requires s.InRange() && IsNext(s, p) && IsNext(s, q)
    ensures p == q
  {
    assert Distance(s.current, p) == Distance(s.current, q);
  }

  /** Spin number `n` finds the scheduler's process, if no runnable one is nearer; a whole round
      without a find means that there is none. */
  lemma SpinNumber(s: Sys, n: nat)
    requires s.InRange() && NoneWithin(s, n)
    ensures var p := Examined(s, n);
            if s.Ready(p) then Schedule(s) == Some(s.(current := p)) else NoneWithin(s, n + 1)
    ensures n >= NPROC ==> Schedule(s) == None
  {
    hide Spin;
    var p := Examined(s, n);
    SchedulePicksNext(s);
    ExaminedPlace(s, n);
    if n < NPROC {
      hide Distance, Examined;
      if s.Ready(p) {
        assert IsNext(s, p);
        NextIsUnique(s, Schedule(s).value.current, p);
      } else {
        forall q | s.Ready(q) ensures Distance(s.current, q) > n + 1 {
          if Distance(s.current, q) == n + 1 {
            DistanceInjective(s.current, p, q);
          }
        }
      }
    }
  }

  lemma DistanceInjective(from: nat, p: nat, q: nat)
    requires from < NPROC && p < NPROC && q < NPROC && Distance(from, p) == Distance(from, q)
    ensures p == q
  {
  }

  // ---------------------------------------------------------------------
  // Runs

  /** `exception` while `current` runs: back to it, or to `schedule`. */
  function Handle(s: Sys, e: Event): (r: Option<Sys>)
    requires s.Running()
    ensures r.Some? ==> r.value.Running()
  {
    match e
    case DirectSyscall => Some(s)
    case Fault => Schedule(s.(states := s.states[s.current := Broken]))
    case _ => Schedule(s)
  }

  predicate Decides(e: Event) { e != DirectSyscall }

  /** How many of the events call `schedule`. */
  function Decisions(events: seq<Event>): nat {
    if events == [] then 0 else (if Decides(events[0]) then 1 else 0) + Decisions(events[1..])
  }

  /** The first of the events that calls `schedule` is a fault, of the process that then runs. */
  predicate FaultsFirst(events: seq<Event>) {
    events != [] && (events[0] == Fault || (!Decides(events[0]) && FaultsFirst(events[1..])))
  }

  lemma DecisionsCons(e: Event, rest: seq<Event>)
    ensures Decisions([e] + rest) == (if Decides(e) then 1 else 0) + Decisions(rest)
  {
    assert ([e] + rest)[1..] == rest;
  }

  /** The states that a run goes through; it ends early if the scheduler spins forever. */
  function Trace(s: Sys, events: seq<Event>): (trace: seq<Sys>)
    requires s.Running()
    ensures 1 <= |trace| <= |events| + 1 && trace[0] == s
    ensures forall i | 0 <= i < |trace| :: trace[i].Running()
    decreases |events|
  {
    if events == [] then [s]
    else
      match Handle(s, events[0])
      case Some(s') => [s] + Trace(s', events[1..])
      case None => [s]
  }

  /** A process that has faulted never runs again. */
  lemma {:induction false} FaultedNeverRuns(s: Sys, p: nat, events: seq<Event>)
    requires s.Running() && p < NPROC && s.states[p] == Broken
    ensures forall i | 0 <= i < |Trace(s, events)| ::
              Trace(s, events)[i].states[p] == Broken && Trace(s, events)[i].current != p
    decreases |events|
  {
    if events != [] && Handle(s, events[0]).Some? {
      FaultedNeverRuns(Handle(s, events[0]).value, p, events[1..]);
    }
  }

  /** A process that faults is broken from then on, and is not current again. */
  lemma FaultBreaks(s: Sys, events: seq<Event>)
    requires s.Running()
    ensures forall i | 1 <= i < |Trace(s, [Fault] + events)| ::
              var r := Trace(s, [Fault] + events)[i]; r.states[s.current] == Broken && r.current != s.current
  {
    var r := Handle(s, Fault);
    assert ([Fault] + events)[1..] == events;
    if r.Some? {
      FaultedNeverRuns(r.value, s.current, events);
    }
  }

  /** Some of the first `i` events is a fault of process `p`. */
  ghost predicate HasFaulted(s: Sys, events: seq<Event>, p: nat, i: nat)
    requires s.Running() && i < |Trace(s, events)|
  {
    exists k | 0 <= k < i :: events[k] == Fault && Trace(s, events)[k].current == p
  }

  lemma TraceStep(s: Sys, events: seq<Event>)
    requires s.Running() && events != [] && Handle(s, events[0]).Some?
    ensures Trace(s, events) == [s] + Trace(Handle(s, events[0]).value, events[1..])
  {
  }

  /** Event `i` leads from state `i` of a run to the next one, or ends the run. */
  lemma {:induction false} EventAt(s: Sys, events: seq<Event>, i: nat)
    requires s.Running() && i < |Trace(s, events)| && i < |events|
    ensures Handle(Trace(s, events)[i], events[i])
            == if i + 1 < |Trace(s, events)| then Some(Trace(s, events)[i + 1]) else None
    decreases i
  {
    if i > 0 {
      TraceStep(s, events);
      hide Trace, Handle;
      EventAt(Handle(s, events[0]).value, events[1..], i - 1);
    }
  }

  lemma HandleStates(s: Sys, e: Event, p: nat)
    requires s.Running() && p < NPROC && Handle(s, e).Some?
    ensures Handle(s, e).value.states[p] == if e == Fault && p == s.current then Broken else s.states[p]
  {
  }

  lemma OneMoreEvent(s: Sys, events: seq<Event>, p: nat, i: nat)
    requires s.Running() && i + 1 < |Trace(s, events)|
    ensures HasFaulted(s, events, p, i + 1) <==>
            HasFaulted(s, events, p, i) || (events[i] == Fault && Trace(s, events)[i].current == p)
  {
    hide Trace;
  }

  /** In all of a run the processes that have faulted are broken, and every other process is in the
      state that it started in. */
  lemma {:induction false} BrokenIffFaulted(s: Sys, events: seq<Event>, p: nat, i: nat)
    requires s.Running() && p < NPROC && i < |Trace(s, events)|
    ensures Trace(s, events)[i].states[p] == if HasFaulted(s, events, p, i) then Broken else s.states[p]
    decreases i
  {
    if i > 0 {
      hide Trace, Handle, HasFaulted;
      BrokenIffFaulted(s, events, p, i - 1);
      EventAt(s, events, i - 1);
      OneMoreEvent(s, events, p, i - 1);
      HandleStates(Trace(s, events)[i - 1], events[i - 1], p);
    }
  }

  /** What each event of a run does with the processor: a system call that returns keeps it, and any
      other event gives it to the nearest process, going round, that can then run. */
  lemma RunsNearest(s: Sys, events: seq<Event>, i: nat)
    requires s.Running() && i + 1 < |Trace(s, events)|
    ensures var before, after := Trace(s, events)[i], Trace(s, events)[i + 1];
            if events[i] == DirectSyscall then after == before
            else
              && (events[i] == Fault ==> after.current != before.current)
              && forall q | after.Ready(q) :: Distance(before.current, after.current) <= Distance(before.current, q)
  {
    EventAt(s, events, i);
    var before := Trace(s, events)[i];
    SchedulePicksNext(before);
    SchedulePicksNext(before.(states := before.states[before.current := Broken]));
    hide Trace, Distance;
  }

  /** The event leaves no process that can run. */
  ghost predicate NoneLeft(s: Sys, e: Event) { e == Fault && forall q | s.Ready(q) :: q == s.current }

  /** A run ends early, because the scheduler spins forever, exactly at such an event. */
  lemma EndsIffNoneLeft(s: Sys, events: seq<Event>, i: nat)
    requires s.Running() && i < |Trace(s, events)| && i < |events|
    ensures i + 1 == |Trace(s, events)| <==> NoneLeft(Trace(s, events)[i], events[i])
  {
    EventAt(s, events, i);
    LeavesNoneIff(Trace(s, events)[i], events[i]);
    hide Trace, Handle, NoneLeft;
  }

  lemma LeavesNoneIff(s: Sys, e: Event)
    requires s.Running()
    ensures Handle(s, e).None? <==> NoneLeft(s, e)
  {
    var broken := s.(states := s.states[s.current := Broken]);
    SchedulePicksNext(s);
    SchedulePicksNext(broken);
    assert s.Ready(s.current);
    assert forall q :: broken.Ready(q) <==> s.Ready(q) && q != s.current;
  }

  /** At every decision that does not pick `p`, the distance from the running process to a runnable
      `p` falls. */
  lemma DistanceFalls(s: Sys, e: Event, p: nat)
    requires s.Running() && s.Ready(p) && Decides(e) && (p == s.current ==> e != Fault)
    ensures var r := Handle(s, e);
            && r.Some? && r.value.Ready(p)
            && (r.value.current != p ==> Distance(r.value.current, p) < Distance(s.current, p))
  {
    var s1 := if e == Fault then s.(states := s.states[s.current := Broken]) else s;
    assert s1.Ready(p);
    SchedulePicksNext(s1);
  }

  /** Fairness: once `schedule` has been called as often as `p` is places away, at most NPROC times,
      a runnable `p` has run again. The only run excluded is one in which `p` is running and its own
      fault comes before any other decision. */
  lemma {:induction false} RunsSoon(s: Sys, p: nat, events: seq<Event>) returns (k: nat)
    requires s.Running() && s.Ready(p) && Decisions(events) >= Distance(s.current, p)
    requires p == s.current ==> !FaultsFirst(events)
    ensures 1 <= k <= |events| && k < |Trace(s, events)| && Trace(s, events)[k].current == p
    ensures 1 <= Decisions(events[..k]) <= Distance(s.current, p)
    decreases |events|
  {
    FirstEvent(s, p, events);
    var e, rest := events[0], events[1..];
    var s' := Handle(s, e).value;
    hide Handle, Distance, Trace, Decisions, FaultsFirst;
    if Decides(e) && s'.current == p {
      k := 1;
      assert Trace(s, events)[1] == Trace(s', rest)[0];
      FirstDecision(events, 0);
    } else {
      var j := RunsSoon(s', p, rest);
      k := j + 1;
      assert Trace(s, events)[k] == Trace(s', rest)[j];
      FirstDecision(events, j);
    }
  }

  lemma FirstDecision(events: seq<Event>, j: nat)
    requires events != [] && j < |events|
    ensures Decisions(events[..j + 1]) == (if Decides(events[0]) then 1 else 0) + Decisions(events[1..][..j])
    ensures Decisions(events[1..][..0]) == 0
  {
    assert events[..j + 1] == [events[0]] + events[1..][..j];
    DecisionsCons(events[0], events[1..][..j]);
  }

  /** The first event of such a run, and what it leaves. */
  lemma FirstEvent(s: Sys, p: nat, events: seq<Event>)
    requires s.Running() && s.Ready(p) && Decisions(events) >= Distance(s.current, p)
    requires p == s.current ==> !FaultsFirst(events)
    ensures events != [] && Decisions([]) == 0
    ensures var e, rest, r := events[0], events[1..], Handle(s, events[0]);
            && r.Some? && r.value.Ready(p) && Trace(s, events) == [s] + Trace(r.value, rest)
            && (if Decides(e)
                then r.value.current != p ==>
                       && Distance(r.value.current, p) < Distance(s.current, p)
                       && Decisions(rest) == Decisions(events) - 1
                else
                  && r.value == s && Decisions(rest) == Decisions(events)
                  && (FaultsFirst(rest) ==> FaultsFirst(events)))
  {
    hide Distance;
    if Decides(events[0]) {
      DistanceFalls(s, events[0], p);
      hide Handle;
    }
  }

  // ---------------------------------------------------------------------
  // The process table in memory

  class Kernel {
    const ptable: array<ProcState>
    var current: nat

    ghost predicate Valid()
      reads this, ptable
    {
      ptable.Length == NPROC && current < NPROC
    }

    ghost function Value(): Sys
      reads this, ptable
    {
      Sys(ptable[..], current)
    }

    /** A kernel with the given processes set up; process 1 runs first. */
    constructor (setUp: set<nat>)
      requires 1 in setUp
      ensures Valid() && fresh(ptable) && Value().Running() && current == 1
      ensures forall p | 0 <= p < NPROC :: ptable[p] == if p in setUp then Runnable else Free
    {
      ptable := new ProcState[NPROC](p => if p in setUp then Runnable else Free);
      current := 1;
    }

    /** The loop of `schedule`, followed for any number of spins: it runs the process that the
        scheduler picks once it has come that far, and it goes on otherwise. */
    method DoSchedule(limit: nat) returns (running: bool)
      requires Valid()
      modifies this`current
      ensures Valid()
      ensures running ==> Schedule(old(Value())) == Some(Value())
      ensures !running ==> Value() == old(Value()) && NoneWithin(Value(), limit)
      ensures !running && limit >= NPROC ==> Schedule(Value()) == None
    {
      hide Schedule, Distance, NoneWithin, Examined;
      var pid: nat := current;
      ghost var s := Value();
      StartsAtOwnPlace(s);
      for spins := 0 to limit
        invariant Value() == s && pid == (s.current + spins) % NPROC && NoneWithin(s, spins)
      {
        SpinNumber(s, spins);
        ExaminedPlace(s, spins);
        pid := (pid + 1) % NPROC;
        if ptable[pid] == Runnable {
          Run(pid);
          return true;
        }
      }
      SpinNumber(s, limit);
      return false;
    }

    method Run(p: nat)
      requires Valid() && p < NPROC && ptable[p] == Runnable
      modifies this`current
      ensures Value() == old(Value()).(current := p)
    {
      assert ptable[p] == Runnable;
      current := p;
    }

    /** Handles an exception of the current process, with `schedule` followed for `limit` spins. */
    method Exception(e: Event, limit: nat) returns (running: bool)
      requires Valid() && Value().Running()
      modifies this`current, ptable
      ensures Valid()
      ensures running ==> Handle(old(Value()), e) == Some(Value())
      ensures !running && limit >= NPROC ==> Handle(old(Value()), e) == None
    {
      match e {
        case DirectSyscall =>
        case Yield =>
          running := DoSchedule(limit);
          return;
        case Timer =>
          running := DoSchedule(limit);
          return;
        case Fault =>
          ptable[current] := Broken;
      }
      if ptable[current] == Runnable {
        Run(current);
        running := true;
      } else {
        running := DoSchedule(limit);
      }
    }
  }
}
