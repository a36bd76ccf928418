/** The once-only lock around the initialization of a static variable, one atomic access at a time,
    with any number of threads in any interleaving. */
module CxaGuard {

  /** Where a thread is: not in a call; in the loop of `__cxa_guard_acquire`, about to exchange;
      in that loop, having taken a 2 out; or past a call that returned 1. */
  datatype Pc = Outside | Spin | Restore | Owner

  datatype Event = Returned1(t: nat) | Released(t: nat) | Returned0(t: nat)

  datatype State = State(guard: int, pc: map<nat, Pc>, log: seq<Event>)

  /** The next atomic access of thread `t`. */
  function Step(s: State, t: nat): State
    requires t in s.pc
  {
    match s.pc[t]
    case Outside =>      // guard->load
      if s.guard == 2 then s.(log := s.log + [Returned0(t)])
      else s.(pc := s.pc[t := Spin])
    case Spin =>         // guard->exchange(1)
      if s.guard == 2 then State(1, s.pc[t := Restore], s.log)
      else if s.guard == 1 then s
      else State(1, s.pc[t := Owner], s.log + [Returned1(t)])
    case Restore =>      // guard->exchange(2)
      State(2, s.pc[t := Outside], s.log + [Returned0(t)])
    case Owner =>        // __cxa_guard_release: guard->store(2)
      State(2, s.pc[t := Outside], s.log + [Released(t)])
  }

  ghost predicate Scheduled(s: State, sched: seq<nat>) { forall t | t in sched :: t in s.pc }

  function Run(s: State, sched: seq<nat>): (end: State)
    requires Scheduled(s, sched)
    ensures end.pc.Keys == s.pc.Keys
    decreases |sched|
  {
    if sched == [] then s else Run(Step(s, sched[0]), sched[1..])
  }

  function Start(threads: set<nat>): State { State(0, map t | t in threads :: Outside, []) }

  // ---------------------------------------------------------------------
  // Safety

  /** One call returns 1, then its release, and from then on every call returns 0. */
  predicate OnceOnly(log: seq<Event>) {
    && (|log| >= 1 ==> log[0].Returned1?)
    && (|log| >= 2 ==> log[1] == Released(log[0].t))
    && (forall i | 2 <= i < |log| :: log[i].Returned0?)
  }

  ghost predicate OnlyOneIn(pc: map<nat, Pc>, at: Pc, t: nat) {
    t in pc && pc[t] == at && forall u | u in pc && u != t :: pc[u] == Outside || pc[u] == Spin
  }

  ghost predicate NoneInside(pc: map<nat, Pc>) {
    forall u | u in pc :: pc[u] == Outside || pc[u] == Spin
  }

  /** Before the winner, while it initializes, and after its release. After the release the guard
      reads 1 exactly while one thread is between its exchange(1) and its exchange(2). */
  ghost predicate Inv(s: State) {
    && OnceOnly(s.log)
    && (|s.log| == 0 ==> s.guard == 0 && NoneInside(s.pc))
    && (|s.log| == 1 ==> s.guard == 1 && OnlyOneIn(s.pc, Owner, s.log[0].t))
    && (|s.log| >= 2 ==> (s.guard == 2 && NoneInside(s.pc))
                         || (s.guard == 1 && exists t :: OnlyOneIn(s.pc, Restore, t)))
  }

  lemma StepKeepsInv(s: State, t: nat)
    requires Inv(s) && t in s.pc
    ensures Inv(Step(s, t)) && s.log <= Step(s, t).log
  {
    var s' := Step(s, t);
    if |s.log| >= 2 && s.pc[t] == Spin && s.guard == 2 {
      assert OnlyOneIn(s'.pc, Restore, t);
    }
    if |s.log| >= 2 && s.guard == 1 {
      var r :| OnlyOneIn(s.pc, Restore, r);
      assert t != r ==> OnlyOneIn(s'.pc, Restore, r);
    }
  }

  lemma {:induction false} RunKeepsInv(s: State, sched: seq<nat>)
    requires Inv(s) && Scheduled(s, sched)
    ensures Inv(Run(s, sched)) && s.log <= Run(s, sched).log
    decreases |sched|
  {
    if sched != [] {
      StepKeepsInv(s, sched[0]);
      RunKeepsInv(Step(s, sched[0]), sched[1..]);
    }
  }

  /** In every run of any number of threads, the first acquire to return
      returns 1, no other does, and none returns 0 before the release of the guard. */
  lemma InitializedOnce(threads: set<nat>, sched: seq<nat>)
    requires Scheduled(Start(threads), sched)
    ensures var log := Run(Start(threads), sched).log;
            && (log != [] ==> log[0].Returned1?)
            && (forall i, j | 0 <= i < j < |log| :: !(log[i].Returned1? && log[j].Returned1?))
            && (forall i | 0 <= i < |log| && log[i].Returned0? ::
                  exists j, k | 0 <= j < k < i :: log[j].Returned1? && log[k] == Released(log[j].t))
  {
    RunKeepsInv(Start(threads), sched);
    var log := Run(Start(threads), sched).log;
    forall i | 0 <= i < |log| && log[i].Returned0?
      ensures exists j, k | 0 <= j < k < i :: log[j].Returned1? && log[k] == Released(log[j].t)
    {
      assert log[0].Returned1? && log[1] == Released(log[0].t);
    }
  }

  /** After the release the guard reads 2, except while exactly one thread is between its two
      exchanges; the threads then in the loop only read the 1 that it left. */
  lemma GuardAfterRelease(threads: set<nat>, sched: seq<nat>)
    requires Scheduled(Start(threads), sched)
    ensures var s := Run(Start(threads), sched);
            (exists i :: 0 <= i < |s.log| && s.log[i].Released?) ==>
              && (s.guard == 1 || s.guard == 2)
              && (s.guard == 1 <==> exists t :: OnlyOneIn(s.pc, Restore, t))
              && (s.guard == 2 <==> forall t | t in s.pc :: s.pc[t] != Restore)
  {
    RunKeepsInv(Start(threads), sched);
  }

  // ---------------------------------------------------------------------
  // Calls

  /** A thread that is in a call, or holds the guard, leaves only with its event, which is then the
      last of the log; and no step of a thread moves another. */
  lemma StepOfThread(s: State, t: nat, u: nat)
    requires t in s.pc && u in s.pc
    ensures var s' := Step(s, t);
            && s.log <= s'.log && (s'.log != s.log ==> |s'.log| == |s.log| + 1 && s'.log[|s.log|].t == t)
            && (u != t ==> s'.pc[u] == s.pc[u])
            && (s.pc[t] != Outside && s'.pc[t] == Outside ==> s'.log != s.log)
  {
  }

  /** Until one of its calls returns, a thread that has begun one is in it, and the thread that holds
      the guard holds it until its release. */
  lemma {:induction false} StaysInCall(s: State, t: nat, sched: seq<nat>)
    requires Scheduled(s, sched) && t in s.pc && s.pc[t] != Outside
    requires forall i | |s.log| <= i < |Run(s, sched).log| :: Run(s, sched).log[i].t != t
    ensures Run(s, sched).pc[t] != Outside
    decreases |sched|
  {
    if sched != [] {
      var s' := Step(s, sched[0]);
      StepOfThread(s, sched[0], t);
      LogGrows(s', sched[1..]);
      var log := Run(s, sched).log;
      assert Run(s', sched[1..]).log == log;
      assert s'.log != s.log ==> log[|s.log|] == s'.log[|s.log|];
      assert s'.pc[t] != Outside;
      StaysInCall(s', t, sched[1..]);
    }
  }

  lemma {:induction false} LogGrows(s: State, sched: seq<nat>)
    requires Scheduled(s, sched)
    ensures s.log <= Run(s, sched).log
    decreases |sched|
  {
    if sched != [] {
      StepOfThread(s, sched[0], sched[0]);
      LogGrows(Step(s, sched[0]), sched[1..]);
    }
  }

  /** Once the guard reads 2 and no thread is in a call, no call locks it again: every call takes one
      access, which reads the 2, and returns 0. */
  lemma {:induction false} FastOnceReleased(s: State, sched: seq<nat>)
    requires Scheduled(s, sched) && s.guard == 2 && forall t | t in s.pc :: s.pc[t] == Outside
    ensures var end := Run(s, sched);
            && end.guard == 2 && end.pc == s.pc && |end.log| == |s.log| + |sched| && s.log <= end.log
            && forall i | 0 <= i < |sched| :: end.log[|s.log| + i] == Returned0(sched[i])
    decreases |sched|
  {
    if sched != [] {
      FastOnceReleased(Step(s, sched[0]), sched[1..]);
    }
  }

  /** A waiter that finds the release takes the 2 out for a step: in between no other call can return. */
  lemma WaiterLocksAgain(s: State, t: nat, sched: seq<nat>)
    requires Inv(s) && |s.log| >= 2 && s.guard == 2 && t in s.pc && s.pc[t] == Spin
    requires Scheduled(s, sched) && t !in sched
    ensures Scheduled(Step(s, t), sched)
    ensures var end := Run(Step(s, t), sched); end.guard == 1 && end.log == s.log && end.pc[t] == Restore
  {
    StepKeepsInv(s, t);
    LockedOut(Step(s, t), t, sched);
  }

  lemma {:induction false} LockedOut(s: State, t: nat, sched: seq<nat>)
    requires s.guard == 1 && OnlyOneIn(s.pc, Restore, t) && Scheduled(s, sched) && t !in sched
    ensures var end := Run(s, sched); end.guard == 1 && end.log == s.log && end.pc[t] == Restore
    decreases |sched|
  {
    if sched != [] {
      assert OnlyOneIn(Step(s, sched[0]).pc, Restore, t);
      LockedOut(Step(s, sched[0]), t, sched[1..]);
    }
  }

  // ---------------------------------------------------------------------
  // Progress

  lemma {:induction false} RunAppend(s: State, a: seq<nat>, b: seq<nat>)
    requires Scheduled(s, a) && Scheduled(s, b)
    ensures Scheduled(s, a + b) && Scheduled(Run(s, a), b) && Run(s, a + b) == Run(Run(s, a), b)
    decreases |a|
  {
    if a == [] {
      assert a + b == b;
    } else {
      assert (a + b)[0] == a[0] && (a + b)[1..] == a[1..] + b;
      RunAppend(Step(s, a[0]), a[1..], b);
    }
  }

  /** The next step of thread `t` is the last of its call, whatever the other threads do before. */
  ghost predicate Due(s: State, t: nat) {
    t in s.pc && s.guard != 2 && |Step(s, t).log| > |s.log|
  }

  lemma {:induction false} DueReturns(s: State, t: nat, sched: seq<nat>)
    requires Inv(s) && Due(s, t) && Scheduled(s, sched) && t in sched
    ensures |Run(s, sched).log| > |s.log|
    decreases |sched|
  {
    var s' := Step(s, sched[0]);
    StepKeepsInv(s, sched[0]);
    if s'.log != s.log {
      RunKeepsInv(s', sched[1..]);
    } else {
      assert Due(s', t);
      DueReturns(s', t, sched[1..]);
    }
  }

  /** In every reachable state, a schedule that lets every thread go again after its first step
      makes some call return: threads never wait for each other in a circle. */
  lemma SomeCallReturns(s: State, sched: seq<nat>)
    requires Inv(s) && Scheduled(s, sched)
    requires sched != [] && forall t | t in s.pc :: t in sched[1..]
    ensures |Run(s, sched).log| > |s.log|
  {
    var t := sched[0];
    var s' := Step(s, t);
    StepKeepsInv(s, t);
    if s'.log != s.log {
      RunKeepsInv(s', sched[1..]);
    } else if |s.log| == 0 || (|s.log| >= 2 && s.guard == 2) {
      assert Due(s', t);
      DueReturns(s', t, sched[1..]);
    } else if |s.log| == 1 {
      assert Due(s', s.log[0].t);
      DueReturns(s', s.log[0].t, sched[1..]);
    } else {
      var r :| OnlyOneIn(s.pc, Restore, r);
      assert Due(s', r);
      DueReturns(s', r, sched[1..]);
    }
  }

  lemma RunOne(s: State, sched: seq<nat>, t: nat)
    requires Scheduled(s, sched) && t in s.pc
    ensures Scheduled(s, sched + [t]) && Run(s, sched + [t]) == Step(Run(s, sched), t)
  {
    RunAppend(s, sched, [t]);
    assert Run(Run(s, sched), [t]) == Run(Step(Run(s, sched), t), []);
  }

  /** A waiter is never stuck: in every state after the release at most three steps let it return. */
  lemma WaiterCanReturn(s: State, t: nat) returns (sched: seq<nat>)
    requires Inv(s) && |s.log| >= 2 && t in s.pc && s.pc[t] == Spin
    ensures |sched| <= 3 && Scheduled(s, sched)
    ensures s.log < Run(s, sched).log && Run(s, sched).log[|Run(s, sched).log| - 1] == Returned0(t)
  {
    if s.guard == 2 {
      sched := [t];
      RunOne(s, [], t);
    } else {
      var r :| OnlyOneIn(s.pc, Restore, r);
      RunOne(s, [], r);
      sched := [r, t];
      RunOne(s, [r], t);
    }
    RunOne(s, sched, t);
    sched := sched + [t];
  }
}
