/**
 threads/synch.cc: what the calls of a whole run of module Monitors come to. Every call does what it was
 made for exactly once, the lock's semaphore is one of module Semaphores, and waiters are signalled in turn.
*/
module MonitorRuns {
  import opened Common
  import opened Monitors
  import S = Semaphores

  // ---------------------------------------------------------------- every call is carried through

  /** The pieces that calls are made of. */
  datatype Deed =
    | TakeLock      // Acquire, and the end of Wait: P on the lock's semaphore finds its unit
    | GiveLock      // Release, and the beginning of Wait: V on the lock's semaphore
    | TakeUnit      // Wait: P on the waiter finds its unit
    | DeleteWaiter  // Wait: the waiter is deleted
    | EmptyQueue    // Broadcast: the loop has found the queue empty

  /** A thread calls an operation that this is a piece of. */
  predicate Asks(k: Move, deed: Deed) {
    match deed
    case TakeLock => k == Acquire || k == Wait
    case GiveLock => k == Release || k == Wait
    case TakeUnit => k == Wait
    case DeleteWaiter => k == Wait
    case EmptyQueue => k == Broadcast
  }

  /** The step does it. */
  predicate Does(s: State, t: Tid, deed: Deed) {
    t in s.pcs &&
    var pc := s.pcs[t];
    match deed
    case TakeLock => pc.AcqTest? && s.lock.value > 0
    case GiveLock => pc.RelV?
    case TakeUnit => pc.WaitTest? && pc.w in s.sems && s.sems[pc.w].value > 0
    case DeleteWaiter => pc.Dispose?
    case EmptyQueue => pc.Bcast? && s.waitQ == []
  }

  /** A thread here has yet to do it. */
  predicate Owes(pc: Pc, deed: Deed) {
    match deed
    case TakeLock =>
      pc.AcqTest? || pc.AcqAsleep? || (pc.RelV? && pc.next.Some?) || pc.WaitTest? || pc.WaitAsleep?
    case GiveLock => pc.RelV?
    case TakeUnit => (pc.RelV? && pc.next.Some?) || pc.WaitTest? || pc.WaitAsleep?
    case DeleteWaiter => Ticket(pc).Some?
    case EmptyQueue => pc.Bcast? || (pc.SigV? && pc.ret.ToLoop?) || (pc.SigRet? && pc.ret.ToLoop?)
  }

  function Asked(steps: seq<Step>, t: Tid, deed: Deed, i: nat): nat
    requires i <= |steps|
  {
    if i == 0 then 0
    else Asked(steps, t, deed, i - 1) + if steps[i - 1].t == t && Asks(steps[i - 1].k, deed) then 1 else 0
  }

  function Done(states: seq<State>, steps: seq<Step>, t: Tid, deed: Deed, i: nat): nat
    requires i <= |steps| < |states|
  {
    if i == 0 then 0
    else
      Done(states, steps, t, deed, i - 1)
      + if steps[i - 1].t == t && Does(states[i - 1], t, deed) then 1 else 0
  }

  /** Where the thread goes. */
  function Goes(s: State, t: Tid, k: Move): Pc
    requires Enabled(s, t, k)
  {
    match s.pcs[t]
    case Out => AcqTest(None)
    case AcqTest(re) => if s.lock.value == 0 then AcqAsleep(re) else AcqGot(re)
    case AcqGot(re) => if re.None? then In else Dispose(re.value)
    case In =>
      (match k
       case Release => RelV(None)
       case Wait => RelV(Some(Waiter(t, s.serial)))
       case Signal => if s.waitQ == [] then In else SigV(s.waitQ[0], ToCaller)
       case _ => Bcast(s.waitQ, 0))
    case Dispose(w) => In
    case RelV(next) => if next.None? then Out else WaitTest(next.value)
    case WaitTest(w) => if SemOf(s, w).value == 0 then WaitAsleep(w) else AcqTest(Some(w))
    case SigV(w, ret) => SigRet(w, ret)
    case SigRet(w, ret) => if ret.ToCaller? then In else Bcast(ret.all, ret.done)
    case Bcast(all, done) => if s.waitQ == [] then In else SigV(s.waitQ[0], ToLoop(all, done + 1))
    case pc => pc
  }

  /** A step moves its thread there, and others at most out of their sleep. */
  predicate Moves(s: State, e: Step, t: Tid, pc: Pc)
    requires Enabled(s, e.t, e.k) && t in s.pcs
  {
    if e.t == t then pc == Goes(s, t, e.k)
    else
      || pc == s.pcs[t]
      || (s.pcs[t].AcqAsleep? && pc == AcqTest(s.pcs[t].re))
      || (s.pcs[t].WaitAsleep? && pc == WaitTest(s.pcs[t].w))
  }

  lemma StepMoves(s: State, e: Step, t: Tid)
    requires Enabled(s, e.t, e.k) && t in s.pcs
    ensures t in Next(s, e.t, e.k).pcs && Moves(s, e, t, Next(s, e.t, e.k).pcs[t])
  {
    if e.t != t {
      OthersStay(s, e.t, e.k, t);
    }
  }

  /** What a thread owes changes by its own steps only. */
  lemma DebtChanges(s: State, e: Step, t: Tid, pc: Pc, deed: Deed)
    requires Enabled(s, e.t, e.k) && t in s.pcs && Moves(s, e, t, pc) && s.lock.value >= 0
    requires s.pcs[t].WaitTest? ==> s.pcs[t].w in s.sems && s.sems[s.pcs[t].w].value >= 0
    ensures (if Owes(pc, deed) then 1 else 0) ==
              (if Owes(s.pcs[t], deed) then 1 else 0)
              + (if e.t == t && Asks(e.k, deed) then 1 else 0) - (if e.t == t && Does(s, t, deed) then 1 else 0)
  {
  }

  lemma UnitsCount(s: State, t: Tid)
    requires Inv(s) && t in s.pcs
    ensures s.lock.value >= 0
    ensures s.pcs[t].WaitTest? ==> s.pcs[t].w in s.sems && s.sems[s.pcs[t].w].value >= 0
  {
    if s.pcs[t].WaitTest? {
      assert WaiterOk(s, s.pcs[t].w);
    }
  }

  /** Step i of a run, as thread t sees it. */
  lemma MovesAt(threads: set<Tid>, states: seq<State>, steps: seq<Step>, i: nat, t: Tid)
    requires IsRun(threads, states, steps) && i < |steps| && t in states[i].pcs
    ensures Enabled(states[i], steps[i].t, steps[i].k)
    ensures t in states[i + 1].pcs && Moves(states[i], steps[i], t, states[i + 1].pcs[t])
    ensures states[i].lock.value >= 0
    ensures var s := states[i]; s.pcs[t].WaitTest? ==> s.pcs[t].w in s.sems && s.sems[s.pcs[t].w].value >= 0
  {
    RunInv(threads, states, steps, i);
    UnitsCount(states[i], t);
    StepMoves(states[i], steps[i], t);
  }

  lemma {:induction false} ThreadsStay(threads: set<Tid>, states: seq<State>, steps: seq<Step>, i: nat)
    requires IsRun(threads, states, steps) && i < |states|
    ensures states[i].pcs.Keys == threads
  {
    if i > 0 {
      ThreadsStay(threads, states, steps, i - 1);
      var s, e := states[i - 1], steps[i - 1];
      assert states[i - 1 + 1] == Next(s, e.t, e.k);
      KeysStay(s, e.t, e.k);
    }
  }

  lemma KeysStay(s: State, t: Tid, k: Move)
    requires Enabled(s, t, k)
    ensures Next(s, t, k).pcs.Keys == s.pcs.Keys
  {
  }

  /** All that was asked for is done, except what the thread still owes. */
  ghost predicate Settled(states: seq<State>, steps: seq<Step>, i: nat, t: Tid, deed: Deed)
    requires i <= |steps| < |states|
  {
    && t in states[i].pcs
    && Asked(steps, t, deed, i) == Done(states, steps, t, deed, i) + if Owes(states[i].pcs[t], deed) then 1 else 0
  }

  lemma StaysSettled(states: seq<State>, steps: seq<Step>, i: nat, t: Tid, deed: Deed)
    requires i < |steps| < |states| && Settled(states, steps, i, t, deed)
    requires t in states[i + 1].pcs && Enabled(states[i], steps[i].t, steps[i].k)
    requires Moves(states[i], steps[i], t, states[i + 1].pcs[t]) && states[i].lock.value >= 0
    requires var s := states[i]; s.pcs[t].WaitTest? ==> s.pcs[t].w in s.sems && s.sems[s.pcs[t].w].value >= 0
    ensures Settled(states, steps, i + 1, t, deed)
  {
    DebtChanges(states[i], steps[i], t, states[i + 1].pcs[t], deed);
  }

  /**
   In every run: what a thread's calls asked for has been done, once for each, except what the call that it
   is in has not come to yet. A thread outside the calls owes nothing.
  */
  lemma {:induction false} CallsCarriedOut(
    threads: set<Tid>, states: seq<State>, steps: seq<Step>, i: nat, t: Tid, deed: Deed)
    requires IsRun(threads, states, steps) && i <= |steps| && t in threads
    ensures Settled(states, steps, i, t, deed)
    ensures states[i].pcs[t].Out? || states[i].pcs[t].In? ==>
              Asked(steps, t, deed, i) == Done(states, steps, t, deed, i)
  {
    if i > 0 {
      CallsCarriedOut(threads, states, steps, i - 1, t, deed);
      MovesAt(threads, states, steps, i - 1, t);
      StaysSettled(states, steps, i - 1, t, deed);
    }
  }

  // ---------------------------------------------------------------- the lock's semaphore

  /** The steps of a run on the lock's semaphore. */
  function LockOps(states: seq<State>, steps: seq<Step>, i: nat): seq<S.Op>
    requires i <= |steps| < |states|
  {
    if i == 0 then []
    else
      var s, t := states[i - 1], steps[i - 1].t;
      LockOps(states, steps, i - 1)
      + if t !in s.pcs then [] else if s.pcs[t].AcqTest? then [S.P(t)] else if s.pcs[t].RelV? then [S.V] else []
  }

  lemma LockStep(s: State, t: Tid, k: Move)
    requires QueueInv(s) && Enabled(s, t, k)
    ensures Next(s, t, k).lock ==
              if s.pcs[t].AcqTest? then S.PassP(s.lock, t) else if s.pcs[t].RelV? then S.StepV(s.lock) else s.lock
    ensures s.pcs[t].AcqTest? ==> t !in s.lock.queue
  {
  }

  lemma LockAt(threads: set<Tid>, states: seq<State>, steps: seq<Step>, i: nat)
    requires IsRun(threads, states, steps) && i < |steps|
    ensures var s, t := states[i], steps[i].t;
            && t in s.pcs
            && states[i + 1].lock == (if s.pcs[t].AcqTest? then S.PassP(s.lock, t)
                                      else if s.pcs[t].RelV? then S.StepV(s.lock) else s.lock)
            && (s.pcs[t].AcqTest? ==> t !in s.lock.queue)
  {
    RunInv(threads, states, steps, i);
    assert states[i + 1] == Next(states[i], steps[i].t, steps[i].k);
    LockStep(states[i], steps[i].t, steps[i].k);
  }

  lemma OneMoreOp(initial: nat, ops: seq<S.Op>, op: S.Op)
    requires S.IsRun(initial, ops) && S.CanDo(S.After(initial, ops), op)
    ensures S.IsRun(initial, ops + [op]) && S.After(initial, ops + [op]) == S.Do(S.After(initial, ops), op)
  {
    assert S.Front(ops + [op]) == ops;
  }

  /** The lock is a semaphore that begins with one unit: threads get it in the order in which they went to sleep. */
  lemma {:induction false} LockIsSemaphore(threads: set<Tid>, states: seq<State>, steps: seq<Step>, i: nat)
    requires IsRun(threads, states, steps) && i <= |steps|
    ensures S.IsRun(1, LockOps(states, steps, i))
    ensures states[i].lock == S.After(1, LockOps(states, steps, i))
    ensures S.Slept(1, LockOps(states, steps, i)) == S.Readied(1, LockOps(states, steps, i)) + states[i].lock.queue
  {
    if i > 0 {
      LockIsSemaphore(threads, states, steps, i - 1);
      LockAt(threads, states, steps, i - 1);
      var s, e, ops := states[i - 1], steps[i - 1], LockOps(states, steps, i - 1);
      if s.pcs[e.t].AcqTest? {
        OneMoreOp(1, ops, S.P(e.t));
      } else if s.pcs[e.t].RelV? {
        OneMoreOp(1, ops, S.V);
      } else {
        assert LockOps(states, steps, i) == ops;
      }
    }
    S.SleepersInOrder(1, LockOps(states, steps, i));
  }

  // ---------------------------------------------------------------- the condition's queue

  /** The waiters of the calls of Wait, in the order of these calls; the serial number counts them. */
  function Queued(states: seq<State>, steps: seq<Step>, i: nat): seq<Waiter>
    requires i <= |steps| < |states|
  {
    if i == 0 then []
    else
      var before := Queued(states, steps, i - 1);
      before + if steps[i - 1].k == Wait then [Waiter(steps[i - 1].t, |before|)] else []
  }

  /** The step takes a waiter off the queue: a Signal, or a turn of the loop of Broadcast. */
  predicate TakesOff(s: State, step: Step) {
    step.t in s.pcs && s.waitQ != [] && ((s.pcs[step.t].In? && step.k == Signal) || s.pcs[step.t].Bcast?)
  }

  /** The waiters taken off by one thread, or by any; and those that it has then given a V. */
  function TakenOff(states: seq<State>, steps: seq<Step>, who: Option<Tid>, i: nat): seq<Waiter>
    requires i <= |steps| < |states|
  {
    if i == 0 then []
    else
      var s, e := states[i - 1], steps[i - 1];
      TakenOff(states, steps, who, i - 1)
      + if TakesOff(s, e) && (who == None || who == Some(e.t)) then [s.waitQ[0]] else []
  }

  function GivenV(states: seq<State>, steps: seq<Step>, t: Tid, i: nat): seq<Waiter>
    requires i <= |steps| < |states|
  {
    if i == 0 then []
    else
      var s, e := states[i - 1], steps[i - 1];
      GivenV(states, steps, t, i - 1) + if e.t == t && t in s.pcs && s.pcs[t].SigV? then [s.pcs[t].w] else []
  }

  ghost predicate QueueMoves(s: State, e: Step, n: State) {
    && n.waitQ == (if TakesOff(s, e) then s.waitQ[1..]
                   else if e.k == Wait then s.waitQ + [Waiter(e.t, s.serial)] else s.waitQ)
    && n.serial == (s.serial + if e.k == Wait then 1 else 0)
    && !(TakesOff(s, e) && e.k == Wait)
  }

  lemma QueueAt(threads: set<Tid>, states: seq<State>, steps: seq<Step>, i: nat)
    requires IsRun(threads, states, steps) && i < |steps|
    ensures QueueMoves(states[i], steps[i], states[i + 1])
  {
    assert states[i + 1] == Next(states[i], steps[i].t, steps[i].k);
  }

  ghost predicate InTurn(states: seq<State>, steps: seq<Step>, i: nat)
    requires i <= |steps| < |states|
  {
    && Queued(states, steps, i) == TakenOff(states, steps, None, i) + states[i].waitQ
    && |Queued(states, steps, i)| == states[i].serial
  }

  lemma TurnKept(states: seq<State>, steps: seq<Step>, i: nat)
    requires i < |steps| < |states| && InTurn(states, steps, i) && QueueMoves(states[i], steps[i], states[i + 1])
    ensures InTurn(states, steps, i + 1)
  {
    var q := states[i].waitQ;
    assert TakesOff(states[i], steps[i]) ==> q == [q[0]] + q[1..];
  }

  /** Waiters leave the queue in the order in which their threads called Wait. */
  lemma {:induction false} SignalledInTurn(threads: set<Tid>, states: seq<State>, steps: seq<Step>, i: nat)
    requires IsRun(threads, states, steps) && i <= |steps|
    ensures InTurn(states, steps, i)
  {
    if i > 0 {
      SignalledInTurn(threads, states, steps, i - 1);
      QueueAt(threads, states, steps, i - 1);
      TurnKept(states, steps, i - 1);
    }
  }

  /** A waiter is in the thread's hands from the step that takes it off the queue to the V. */
  lemma InHand(s: State, e: Step, t: Tid, pc: Pc)
    requires Enabled(s, e.t, e.k) && t in s.pcs && Moves(s, e, t, pc)
    ensures if e.t == t && TakesOff(s, e) then pc.SigV? && pc.w == s.waitQ[0] && !s.pcs[t].SigV?
            else if e.t == t && s.pcs[t].SigV? then !pc.SigV?
            else pc.SigV? == s.pcs[t].SigV? && (s.pcs[t].SigV? ==> pc == s.pcs[t])
  {
  }

  /** What a thread takes off the queue it gives a V, at once and in this order. */
  lemma {:induction false} TakenIsSignalled(threads: set<Tid>, states: seq<State>, steps: seq<Step>, i: nat, t: Tid)
    requires IsRun(threads, states, steps) && i <= |steps| && t in threads
    ensures t in states[i].pcs
    ensures TakenOff(states, steps, Some(t), i) ==
              GivenV(states, steps, t, i) + if states[i].pcs[t].SigV? then [states[i].pcs[t].w] else []
  {
    ThreadsStay(threads, states, steps, i);
    if i > 0 {
      TakenIsSignalled(threads, states, steps, i - 1, t);
      MovesAt(threads, states, steps, i - 1, t);
      InHand(states[i - 1], steps[i - 1], t, states[i].pcs[t]);
    }
  }
}
