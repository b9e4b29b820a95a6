/**
 threads/synch.cc, classes Lock and Condition, run by any number of threads.

 One lock protects one condition. A thread outside the monitor may acquire the lock; inside it may
 wait, signal, broadcast or release, in any order and as often as it likes. A step is at most what
 runs without a chance of preemption; where the source could be preempted, and at some places where
 it could not, another thread may step in between.
*/
module Monitors {
  import opened Common
  import opened Semaphores

  /** The semaphore that one call of Wait allocates: who called, and a serial number of the allocation. */
  datatype Waiter = Waiter(caller: Tid, serial: nat)

  /** What Signal returns to: its caller, or the loop of Broadcast with its progress. */
  datatype Return = ToCaller | ToLoop(all: seq<Waiter>, done: nat)

  /** The program counter of a thread. */
  datatype Pc =
    | Out                                    // not in the monitor
    | AcqTest(re: Option<Waiter>)            // P on the lock's semaphore: about to test the value
    | AcqAsleep(re: Option<Waiter>)          //   asleep in its queue
    | AcqGot(re: Option<Waiter>)             //   unit taken, lockHolder not recorded yet
    | In                                     // inside the monitor
    | Dispose(w: Waiter)                     // Wait: lock held again, about to delete the waiter
    | RelV(next: Option<Waiter>)             // Release: lockHolder cleared, about to V; then P on next
    | WaitTest(w: Waiter)                    // Wait: P on the waiter, about to test its value
    | WaitAsleep(w: Waiter)                  //   asleep in its queue
    | SigV(w: Waiter, ret: Return)           // Signal: waiter taken off waitQueue, about to V it
    | SigRet(w: Waiter, ret: Return)         //   unit added, still inside V
    | Bcast(all: seq<Waiter>, done: nat)     // Broadcast: at the loop test

  /**
   `owner` and `signalled` are history: the thread that has the lock's unit, and the waiters that
   have been given a V.
  */
  datatype State = State(
    lock: Sem, holder: Option<Tid>, waitQ: seq<Waiter>, sems: map<Waiter, Sem>,
    pcs: map<Tid, Pc>, serial: nat, owner: Option<Tid>, signalled: set<Waiter>)

  /** What a thread does next; the choice matters only in Out and In. */
  datatype Move = Acquire | Release | Wait | Signal | Broadcast | Go

  predicate Enabled(s: State, t: Tid, k: Move) {
    && t in s.pcs
    && match s.pcs[t]
       case Out => k == Acquire
       case In => k != Acquire && k != Go
       case AcqAsleep(_) => false
       case WaitAsleep(_) => false
       case _ => k == Go
  }

  /** ReadyToRun for the thread that V takes off the queue: it will test the value again. */
  function Wake(pcs: map<Tid, Pc>, queue: seq<Tid>): map<Tid, Pc> {
    if queue == [] || queue[0] !in pcs then pcs else
    match pcs[queue[0]]
    case AcqAsleep(re) => pcs[queue[0] := AcqTest(re)]
    case WaitAsleep(w) => pcs[queue[0] := WaitTest(w)]
    case _ => pcs
  }

  function SemOf(s: State, w: Waiter): Sem {
    if w in s.sems then s.sems[w] else Sem(0, [], {})
  }

  function Goto(s: State, t: Tid, pc: Pc): State {
    s.(pcs := s.pcs[t := pc])
  }

  /** Release up to its V; `next` says whether Wait goes on to P on a waiter. */
  function ReleaseStep(s: State, t: Tid, next: Option<Waiter>): State {
    Goto(s.(holder := None), t, RelV(next))
  }

  function WaitStep(s: State, t: Tid): State {
    var w := Waiter(t, s.serial);
    ReleaseStep(s.(waitQ := s.waitQ + [w], sems := s.sems[w := Sem(0, [], {})], serial := s.serial + 1),
                t, Some(w))
  }

  /** Signal up to its V. */
  function SignalStep(s: State, t: Tid): State {
    if s.waitQ == [] then s
    else Goto(s.(waitQ := s.waitQ[1..]), t, SigV(s.waitQ[0], ToCaller))
  }

  function LoopStep(s: State, t: Tid, all: seq<Waiter>, done: nat): State {
    if s.waitQ == [] then Goto(s, t, In)
    else Goto(s.(waitQ := s.waitQ[1..]), t, SigV(s.waitQ[0], ToLoop(all, done + 1)))
  }

  function AcqTestStep(s: State, t: Tid, re: Option<Waiter>): State {
    if s.lock.value == 0
    then Goto(s.(lock := PassP(s.lock, t)), t, AcqAsleep(re))
    else Goto(s.(lock := PassP(s.lock, t), owner := Some(t)), t, AcqGot(re))
  }

  function AcqGotStep(s: State, t: Tid, re: Option<Waiter>): State {
    Goto(s.(holder := Some(t)), t, if re.None? then In else Dispose(re.value))
  }

  function DisposeStep(s: State, t: Tid, w: Waiter): State {
    Goto(s.(sems := s.sems - {w}), t, In)
  }

  function RelVStep(s: State, t: Tid, next: Option<Waiter>): State {
    Goto(s.(lock := StepV(s.lock), owner := None, pcs := Wake(s.pcs, s.lock.queue)),
         t, if next.None? then Out else WaitTest(next.value))
  }

  function WaitTestStep(s: State, t: Tid, w: Waiter): State {
    Goto(s.(sems := s.sems[w := PassP(SemOf(s, w), t)]),
         t, if SemOf(s, w).value == 0 then WaitAsleep(w) else AcqTest(Some(w)))
  }

  function SigVStep(s: State, t: Tid, w: Waiter, ret: Return): State {
    Goto(s.(sems := s.sems[w := StepV(SemOf(s, w))], signalled := s.signalled + {w},
            pcs := Wake(s.pcs, SemOf(s, w).queue)),
         t, SigRet(w, ret))
  }

  function SigRetStep(s: State, t: Tid, ret: Return): State {
    Goto(s, t, if ret.ToCaller? then In else Bcast(ret.all, ret.done))
  }

  function Next(s: State, t: Tid, k: Move): State
    requires Enabled(s, t, k)
  {
    match s.pcs[t]
    case Out => Goto(s, t, AcqTest(None))
    case AcqTest(re) => AcqTestStep(s, t, re)
    case AcqGot(re) => AcqGotStep(s, t, re)
    case In =>
      (match k
       case Release => ReleaseStep(s, t, None)
       case Wait => WaitStep(s, t)
       case Signal => SignalStep(s, t)
       case _ => Goto(s, t, Bcast(s.waitQ, 0)))
    case Dispose(w) => DisposeStep(s, t, w)
    case RelV(next) => RelVStep(s, t, next)
    case WaitTest(w) => WaitTestStep(s, t, w)
    case SigV(w, ret) => SigVStep(s, t, w, ret)
    case SigRet(w, ret) => SigRetStep(s, t, ret)
    case Bcast(all, done) => LoopStep(s, t, all, done)
    case _ => s
  }

  /** Lock::Lock and Condition::Condition, with every thread outside. */
  function Init(threads: set<Tid>): State {
    State(Sem(1, [], {}), None, [], map[], map t | t in threads :: Out, 0, None, {})
  }

  // ---------------------------------------------------------------- invariant

  /** The thread has completed P on the lock's semaphore and not yet its V. */
  predicate Owns(pc: Pc) {
    pc.AcqGot? || pc.RelV? || Records(pc)
  }

  /** The thread may rely on IsHeldByCurrentThread. */
  predicate Records(pc: Pc) {
    pc.In? || pc.Dispose? || pc.SigV? || pc.SigRet? || pc.Bcast?
  }

  /** The waiter of the call of Wait that the thread is in. */
  function Ticket(pc: Pc): Option<Waiter> {
    match pc
    case AcqTest(re) => re
    case AcqAsleep(re) => re
    case AcqGot(re) => re
    case Dispose(w) => Some(w)
    case RelV(next) => next
    case WaitTest(w) => Some(w)
    case WaitAsleep(w) => Some(w)
    case _ => None
  }

  /** Wait has not completed its P on the waiter yet. */
  predicate BeforeP(pc: Pc) {
    pc.RelV? || pc.WaitTest? || pc.WaitAsleep?
  }

  ghost predicate OwnerInv(s: State) {
    && s.lock.value == (if s.owner.None? then 1 else 0)
    && (s.owner.Some? ==> s.owner.value in s.pcs)
    && (s.holder.Some? ==> s.holder.value in s.pcs)
    && (forall t :: t in s.pcs ==> (Owns(s.pcs[t]) <==> s.owner == Some(t)))
    && (forall t :: t in s.pcs ==> (Records(s.pcs[t]) <==> s.holder == Some(t)))
  }

  ghost predicate QueueInv(s: State) {
    && SemOk(s.lock)
    && (forall t :: t in s.pcs ==> (s.pcs[t].AcqAsleep? <==> t in s.lock.queue))
    && (forall t :: t in s.lock.queue ==> t in s.pcs)
    && (forall t :: t in s.lock.woken ==> t in s.pcs && s.pcs[t].AcqTest?)
  }

  ghost predicate LockInv(s: State) {
    OwnerInv(s) && QueueInv(s)
  }

  ghost predicate TicketInv(s: State) {
    && (forall t :: t in s.pcs && Ticket(s.pcs[t]).Some? ==>
          var w := Ticket(s.pcs[t]).value; w.caller == t && w in s.sems)
    && (forall w :: w in s.sems ==> w.caller in s.pcs && Ticket(s.pcs[w.caller]) == Some(w) && w.serial < s.serial)
    && (forall w :: w in s.waitQ ==> w in s.sems)
    && (forall w :: w in s.signalled ==> w.serial < s.serial)
    && Distinct(s.waitQ)
  }

  /** A thread has taken w off waitQueue in Signal and is about to V it. */
  predicate BeingSignalled(s: State, w: Waiter) {
    s.owner.Some? && s.owner.value in s.pcs && s.pcs[s.owner.value].SigV? && s.pcs[s.owner.value].w == w
  }

  /** The life of one waiter: queued or being signalled; then a unit waits for its thread; then used up. */
  ghost predicate WaiterOk(s: State, w: Waiter)
    requires w in s.sems && w.caller in s.pcs
  {
    var pc, sem := s.pcs[w.caller], s.sems[w];
    && sem.queue == (if pc.WaitAsleep? then [w.caller] else [])
    && (w in s.signalled ==> w !in s.waitQ && !pc.WaitAsleep?)
    && (if BeforeP(pc)
        then sem.value == (if w in s.signalled then 1 else 0)
             && (w in s.signalled || w in s.waitQ || BeingSignalled(s, w))
        else sem.value == 0 && w in s.signalled)
  }

  ghost predicate LoopOk(s: State, all: seq<Waiter>, done: nat, sent: nat) {
    && sent <= done <= |all|
    && s.waitQ == all[done..]
    && (forall i :: 0 <= i < sent ==> all[i] in s.signalled)
  }

  ghost predicate SignalOk(s: State, pc: Pc) {
    && (pc.SigV? ==> pc.w in s.sems && pc.w !in s.waitQ && pc.w !in s.signalled)
    && (pc.SigRet? ==> pc.w in s.sems && pc.w in s.signalled)
    && (pc.SigV? && pc.ret.ToLoop? ==>
          pc.ret.done > 0 && LoopOk(s, pc.ret.all, pc.ret.done, pc.ret.done - 1) && pc.w == pc.ret.all[pc.ret.done - 1])
    && (pc.SigRet? && pc.ret.ToLoop? ==> LoopOk(s, pc.ret.all, pc.ret.done, pc.ret.done))
    && (pc.Bcast? ==> LoopOk(s, pc.all, pc.done, pc.done))
  }

  ghost predicate WaitersInv(s: State) {
    forall w :: w in s.sems ==> w.caller in s.pcs && WaiterOk(s, w)
  }

  ghost predicate SignalInv(s: State) {
    s.owner.Some? ==> s.owner.value in s.pcs && SignalOk(s, s.pcs[s.owner.value])
  }

  ghost predicate Inv(s: State) {
    LockInv(s) && TicketInv(s) && WaitersInv(s) && SignalInv(s)
  }

  // ---------------------------------------------------------------- every step keeps it

  /** A thread moves between points that mean the same to the lock. */
  lemma QuietLock(s: State, n: State, t: Tid, pc: Pc)
    requires LockInv(s) && t in s.pcs && n.pcs == s.pcs[t := pc]
    requires n.lock == s.lock && n.holder == s.holder && n.owner == s.owner
    requires Owns(pc) == Owns(s.pcs[t]) && Records(pc) == Records(s.pcs[t])
    requires !pc.AcqAsleep? && !s.pcs[t].AcqAsleep? && (s.pcs[t].AcqTest? ==> pc.AcqTest?)
    ensures LockInv(n)
  {
  }

  lemma AcqTestOwner(s: State, t: Tid)
    requires OwnerInv(s) && t in s.pcs && s.pcs[t].AcqTest?
    ensures OwnerInv(AcqTestStep(s, t, s.pcs[t].re))
  {
  }

  lemma AcqTestQueue(s: State, t: Tid)
    requires QueueInv(s) && t in s.pcs && s.pcs[t].AcqTest?
    ensures QueueInv(AcqTestStep(s, t, s.pcs[t].re))
  {
  }

  lemma AcqGotLock(s: State, t: Tid)
    requires LockInv(s) && t in s.pcs && s.pcs[t].AcqGot?
    ensures LockInv(AcqGotStep(s, t, s.pcs[t].re))
  {
  }

  lemma ReleaseLock(s: State, n: State, t: Tid, next: Option<Waiter>)
    requires LockInv(s) && t in s.pcs && s.pcs[t].In? && n.pcs == s.pcs[t := RelV(next)]
    requires n.lock == s.lock && n.holder == None && n.owner == s.owner
    ensures LockInv(n)
  {
  }

  lemma RelVOwner(s: State, t: Tid)
    requires OwnerInv(s) && t in s.pcs && s.pcs[t].RelV?
    ensures OwnerInv(RelVStep(s, t, s.pcs[t].next))
  {
  }

  lemma RelVQueue(s: State, t: Tid)
    requires QueueInv(s) && t in s.pcs && s.pcs[t].RelV?
    ensures QueueInv(RelVStep(s, t, s.pcs[t].next))
  {
    StepVKeepsOk(s.lock);
    if s.lock.queue != [] {
      assert s.lock.queue[0] in s.lock.queue;
    }
  }

  /** No call of Wait begins or ends. */
  lemma SameTickets(s: State, n: State)
    requires TicketInv(s) && n.pcs.Keys == s.pcs.Keys && n.sems.Keys == s.sems.Keys && n.serial == s.serial
    requires forall t :: t in s.pcs ==> Ticket(n.pcs[t]) == Ticket(s.pcs[t])
    requires n.waitQ == s.waitQ || (s.waitQ != [] && n.waitQ == s.waitQ[1..])
    requires forall w :: w in n.signalled ==> w in s.signalled || w in s.sems
    ensures TicketInv(n)
  {
  }

  /** Nothing changes for any waiter, except that one may pass from waitQueue to the signalling thread. */
  lemma SameWaiters(s: State, n: State)
    requires WaitersInv(s) && n.sems == s.sems && n.signalled == s.signalled
    requires forall w :: w in s.sems ==> w.caller in n.pcs
    requires forall w :: w in s.sems ==> BeforeP(n.pcs[w.caller]) == BeforeP(s.pcs[w.caller])
    requires forall w :: w in s.sems ==> n.pcs[w.caller].WaitAsleep? == s.pcs[w.caller].WaitAsleep?
    requires forall w :: w in n.waitQ ==> w in s.waitQ
    requires forall w :: w in s.waitQ || BeingSignalled(s, w) ==> w in n.waitQ || BeingSignalled(n, w)
    ensures WaitersInv(n)
  {
  }

  /** Nothing changes for the thread that is signalling, if there is one. */
  lemma SameSignals(s: State, n: State)
    requires SignalInv(s) && n.sems.Keys == s.sems.Keys && n.signalled == s.signalled && n.waitQ == s.waitQ
    requires n.owner.Some? ==> n.owner.value in n.pcs
    requires n.owner.Some?
      && (n.pcs[n.owner.value].SigV? || n.pcs[n.owner.value].SigRet? || n.pcs[n.owner.value].Bcast?)
      ==> n.owner == s.owner && n.owner.value in s.pcs && n.pcs[n.owner.value] == s.pcs[n.owner.value]
    ensures SignalInv(n)
  {
  }

  /** A thread that is not signalling moves between points that mean the same to every waiter. */
  lemma QuietRest(s: State, n: State, t: Tid, pc: Pc)
    requires TicketInv(s) && WaitersInv(s) && SignalInv(s) && t in s.pcs && n.pcs == s.pcs[t := pc]
    requires n.waitQ == s.waitQ && n.sems == s.sems && n.signalled == s.signalled && n.serial == s.serial
    requires Ticket(pc) == Ticket(s.pcs[t]) && !pc.WaitAsleep? && !s.pcs[t].WaitAsleep?
    requires Ticket(pc).Some? ==> BeforeP(pc) == BeforeP(s.pcs[t])
    requires !pc.SigV? && !pc.SigRet? && !pc.Bcast? && !s.pcs[t].SigV?
    requires n.owner == s.owner || (n.owner == Some(t) && s.owner == None)
    ensures TicketInv(n) && WaitersInv(n) && SignalInv(n)
  {
    SameTickets(s, n);
    SameWaiters(s, n);
    SameSignals(s, n);
  }

  lemma InitInv(threads: set<Tid>)
    ensures Inv(Init(threads))
  {
  }

  lemma OutKeeps(s: State, t: Tid)
    requires Inv(s) && t in s.pcs && s.pcs[t].Out?
    ensures Inv(Goto(s, t, AcqTest(None)))
  {
    var n := Goto(s, t, AcqTest(None));
    QuietLock(s, n, t, AcqTest(None));
    QuietRest(s, n, t, AcqTest(None));
  }

  lemma AcqTestKeeps(s: State, t: Tid)
    requires Inv(s) && t in s.pcs && s.pcs[t].AcqTest?
    ensures Inv(AcqTestStep(s, t, s.pcs[t].re))
  {
    var n := AcqTestStep(s, t, s.pcs[t].re);
    AcqTestOwner(s, t);
    AcqTestQueue(s, t);
    QuietRest(s, n, t, n.pcs[t]);
  }

  lemma AcqGotKeeps(s: State, t: Tid)
    requires Inv(s) && t in s.pcs && s.pcs[t].AcqGot?
    ensures Inv(AcqGotStep(s, t, s.pcs[t].re))
  {
    var n := AcqGotStep(s, t, s.pcs[t].re);
    AcqGotLock(s, t);
    QuietRest(s, n, t, n.pcs[t]);
  }

  lemma DisposeKeeps(s: State, t: Tid)
    requires Inv(s) && t in s.pcs && s.pcs[t].Dispose?
    ensures Inv(DisposeStep(s, t, s.pcs[t].w))
  {
    QuietLock(s, DisposeStep(s, t, s.pcs[t].w), t, In);
    DisposeRest(s, t);
  }

  lemma DisposeRest(s: State, t: Tid)
    requires TicketInv(s) && WaitersInv(s) && t in s.pcs && s.pcs[t].Dispose? && s.owner == Some(t)
    ensures var n := DisposeStep(s, t, s.pcs[t].w); TicketInv(n) && WaitersInv(n) && SignalInv(n)
  {
    assert WaiterOk(s, s.pcs[t].w);
  }

  lemma ReleaseKeeps(s: State, t: Tid)
    requires Inv(s) && t in s.pcs && s.pcs[t].In?
    ensures Inv(ReleaseStep(s, t, None))
  {
    var n := ReleaseStep(s, t, None);
    ReleaseLock(s, n, t, None);
    QuietRest(s, n, t, RelV(None));
  }

  lemma WaitKeeps(s: State, t: Tid)
    requires Inv(s) && t in s.pcs && s.pcs[t].In?
    ensures Inv(WaitStep(s, t))
  {
    ReleaseLock(s, WaitStep(s, t), t, Some(Waiter(t, s.serial)));
    WaitTickets(s, t);
    WaitRest(s, t);
  }

  lemma WaitTickets(s: State, t: Tid)
    requires TicketInv(s) && t in s.pcs && s.pcs[t].In?
    ensures TicketInv(WaitStep(s, t))
  {
  }

  lemma WaitRest(s: State, t: Tid)
    requires TicketInv(s) && WaitersInv(s) && t in s.pcs && s.pcs[t].In? && s.owner == Some(t)
    ensures WaitersInv(WaitStep(s, t)) && SignalInv(WaitStep(s, t))
  {
  }

  lemma SignalKeeps(s: State, t: Tid)
    requires Inv(s) && t in s.pcs && s.pcs[t].In? && s.waitQ != []
    ensures Inv(SignalStep(s, t))
  {
    var n := SignalStep(s, t);
    QuietLock(s, n, t, n.pcs[t]);
    SameTickets(s, n);
    SignalWaiters(s, t);
  }

  lemma SignalWaiters(s: State, t: Tid)
    requires TicketInv(s) && WaitersInv(s) && s.owner == Some(t) && t in s.pcs && s.pcs[t].In? && s.waitQ != []
    ensures WaitersInv(SignalStep(s, t)) && SignalInv(SignalStep(s, t))
  {
    var n := SignalStep(s, t);
    assert s.waitQ == [s.waitQ[0]] + n.waitQ;
    SameWaiters(s, n);
  }

  lemma BroadcastKeeps(s: State, t: Tid)
    requires Inv(s) && t in s.pcs && s.pcs[t].In?
    ensures Inv(Goto(s, t, Bcast(s.waitQ, 0)))
  {
    var n := Goto(s, t, Bcast(s.waitQ, 0));
    QuietLock(s, n, t, n.pcs[t]);
    SameTickets(s, n);
    SameWaiters(s, n);
  }

  lemma RelVKeeps(s: State, t: Tid)
    requires Inv(s) && t in s.pcs && s.pcs[t].RelV?
    ensures Inv(RelVStep(s, t, s.pcs[t].next))
  {
    var n := RelVStep(s, t, s.pcs[t].next);
    RelVOwner(s, t);
    RelVQueue(s, t);
    RelVMoves(s, t);
    SameTickets(s, n);
    SameWaiters(s, n);
  }

  /** What Release's V does to the program counters. */
  lemma RelVMoves(s: State, t: Tid)
    requires QueueInv(s) && t in s.pcs && s.pcs[t].RelV?
    ensures var n := RelVStep(s, t, s.pcs[t].next);
            n.pcs.Keys == s.pcs.Keys
            && forall x :: x in s.pcs ==>
                 && Ticket(n.pcs[x]) == Ticket(s.pcs[x])
                 && n.pcs[x].WaitAsleep? == s.pcs[x].WaitAsleep?
                 && (Ticket(s.pcs[x]).Some? ==> BeforeP(n.pcs[x]) == BeforeP(s.pcs[x]))
  {
    var n, queue := RelVStep(s, t, s.pcs[t].next), s.lock.queue;
    if queue == [] {
      assert n.pcs == s.pcs[t := n.pcs[t]];
    } else {
      assert queue[0] in queue && s.pcs[queue[0]].AcqAsleep?;
      assert n.pcs == s.pcs[queue[0] := AcqTest(s.pcs[queue[0]].re)][t := n.pcs[t]];
    }
  }

  lemma WaitTestKeeps(s: State, t: Tid)
    requires Inv(s) && t in s.pcs && s.pcs[t].WaitTest?
    ensures Inv(WaitTestStep(s, t, s.pcs[t].w))
  {
    var n := WaitTestStep(s, t, s.pcs[t].w);
    QuietLock(s, n, t, n.pcs[t]);
    WaitTestRest(s, t);
  }

  lemma WaitTestRest(s: State, t: Tid)
    requires TicketInv(s) && WaitersInv(s) && SignalInv(s) && t in s.pcs && s.pcs[t].WaitTest? && s.owner != Some(t)
    ensures var n := WaitTestStep(s, t, s.pcs[t].w); TicketInv(n) && WaitersInv(n) && SignalInv(n)
  {
    var n := WaitTestStep(s, t, s.pcs[t].w);
    SameTickets(s, n);
    SameSignals(s, n);
  }

  lemma SigVKeeps(s: State, t: Tid)
    requires Inv(s) && t in s.pcs && s.pcs[t].SigV?
    ensures Inv(SigVStep(s, t, s.pcs[t].w, s.pcs[t].ret))
  {
    SigVLock(s, t);
    SigVMoves(s, t);
    SigVTickets(s, t);
    SigVWaiters(s, t);
    SigVSignal(s, t);
  }

  /** What Signal's V does: it wakes the thread of the waiter if that sleeps. */
  lemma SigVMoves(s: State, t: Tid)
    requires TicketInv(s) && WaitersInv(s) && SignalInv(s) && s.owner == Some(t) && t in s.pcs && s.pcs[t].SigV?
    ensures var w, ret := s.pcs[t].w, s.pcs[t].ret;
            && w in s.sems && w.caller in s.pcs && w.caller != t
            && SigVStep(s, t, w, ret).pcs ==
                 (if s.pcs[w.caller].WaitAsleep? then s.pcs[w.caller := WaitTest(w)] else s.pcs)[t := SigRet(w, ret)]
            && SigVStep(s, t, w, ret).sems[w] == Sem(1, [], SigVStep(s, t, w, ret).sems[w].woken)
  {
  }

  lemma SigVTickets(s: State, t: Tid)
    requires TicketInv(s) && WaitersInv(s) && SignalInv(s) && s.owner == Some(t) && t in s.pcs && s.pcs[t].SigV?
    ensures TicketInv(SigVStep(s, t, s.pcs[t].w, s.pcs[t].ret))
  {
    SigVMoves(s, t);
    SameTickets(s, SigVStep(s, t, s.pcs[t].w, s.pcs[t].ret));
  }

  lemma SigVWaiters(s: State, t: Tid)
    requires TicketInv(s) && WaitersInv(s) && SignalInv(s) && s.owner == Some(t) && t in s.pcs && s.pcs[t].SigV?
    ensures WaitersInv(SigVStep(s, t, s.pcs[t].w, s.pcs[t].ret))
  {
    var w := s.pcs[t].w;
    var n := SigVStep(s, t, w, s.pcs[t].ret);
    SigVMoves(s, t);
    forall x | x in n.sems ensures x.caller in n.pcs && WaiterOk(n, x) {
      assert WaiterOk(s, x);
      if x != w {
        assert x.caller != w.caller && n.sems[x] == s.sems[x];
      }
    }
  }

  lemma SigVSignal(s: State, t: Tid)
    requires SignalInv(s) && s.owner == Some(t) && t in s.pcs && s.pcs[t].SigV?
    requires SigVStep(s, t, s.pcs[t].w, s.pcs[t].ret).pcs[t] == SigRet(s.pcs[t].w, s.pcs[t].ret)
    ensures SignalInv(SigVStep(s, t, s.pcs[t].w, s.pcs[t].ret))
  {
  }

  lemma SigVLock(s: State, t: Tid)
    requires Inv(s) && t in s.pcs && s.pcs[t].SigV?
    ensures LockInv(SigVStep(s, t, s.pcs[t].w, s.pcs[t].ret))
  {
    var w, ret := s.pcs[t].w, s.pcs[t].ret;
    SigVMoves(s, t);
    var m := if s.pcs[w.caller].WaitAsleep? then Goto(s, w.caller, WaitTest(w)) else s;
    if m != s {
      QuietLock(s, m, w.caller, WaitTest(w));
    }
    QuietLock(m, SigVStep(s, t, w, ret), t, SigRet(w, ret));
  }

  lemma SigRetKeeps(s: State, t: Tid)
    requires Inv(s) && t in s.pcs && s.pcs[t].SigRet?
    ensures Inv(SigRetStep(s, t, s.pcs[t].ret))
  {
    var n := SigRetStep(s, t, s.pcs[t].ret);
    QuietLock(s, n, t, n.pcs[t]);
    SigRetSignal(s, t);
    SigRetRest(s, t);
  }

  lemma SigRetRest(s: State, t: Tid)
    requires TicketInv(s) && WaitersInv(s) && t in s.pcs && s.pcs[t].SigRet? && s.owner == Some(t)
    ensures TicketInv(SigRetStep(s, t, s.pcs[t].ret)) && WaitersInv(SigRetStep(s, t, s.pcs[t].ret))
  {
    var n := SigRetStep(s, t, s.pcs[t].ret);
    SameTickets(s, n);
    SameWaiters(s, n);
  }

  lemma SigRetSignal(s: State, t: Tid)
    requires SignalInv(s) && s.owner == Some(t) && t in s.pcs && s.pcs[t].SigRet?
    ensures SignalInv(SigRetStep(s, t, s.pcs[t].ret))
  {
  }

  lemma LoopKeeps(s: State, t: Tid)
    requires Inv(s) && t in s.pcs && s.pcs[t].Bcast?
    ensures Inv(LoopStep(s, t, s.pcs[t].all, s.pcs[t].done))
  {
    var n := LoopStep(s, t, s.pcs[t].all, s.pcs[t].done);
    QuietLock(s, n, t, n.pcs[t]);
    LoopSignal(s, t);
    LoopTickets(s, t);
    LoopWaiters(s, t);
  }

  lemma LoopSignal(s: State, t: Tid)
    requires TicketInv(s) && WaitersInv(s) && SignalInv(s) && t in s.pcs && s.pcs[t].Bcast? && s.owner == Some(t)
    ensures SignalInv(LoopStep(s, t, s.pcs[t].all, s.pcs[t].done))
  {
  }

  lemma LoopTickets(s: State, t: Tid)
    requires TicketInv(s) && t in s.pcs && s.pcs[t].Bcast?
    ensures TicketInv(LoopStep(s, t, s.pcs[t].all, s.pcs[t].done))
  {
    SameTickets(s, LoopStep(s, t, s.pcs[t].all, s.pcs[t].done));
  }

  lemma LoopWaiters(s: State, t: Tid)
    requires TicketInv(s) && WaitersInv(s) && t in s.pcs && s.pcs[t].Bcast? && s.owner == Some(t)
    ensures WaitersInv(LoopStep(s, t, s.pcs[t].all, s.pcs[t].done))
  {
    var n := LoopStep(s, t, s.pcs[t].all, s.pcs[t].done);
    if s.waitQ != [] {
      assert s.waitQ == [s.waitQ[0]] + n.waitQ;
    }
    SameWaiters(s, n);
  }

  lemma NextKeeps(s: State, t: Tid, k: Move)
    requires Inv(s) && Enabled(s, t, k)
    ensures Inv(Next(s, t, k))
  {
    match s.pcs[t]
    case Out => OutKeeps(s, t);
    case AcqTest(_) => AcqTestKeeps(s, t);
    case AcqGot(_) => AcqGotKeeps(s, t);
    case In =>
      match k {
        case Release => ReleaseKeeps(s, t);
        case Wait => WaitKeeps(s, t);
        case Signal => if s.waitQ != [] { SignalKeeps(s, t); }
        case _ => BroadcastKeeps(s, t);
      }
    case Dispose(_) => DisposeKeeps(s, t);
    case RelV(_) => RelVKeeps(s, t);
    case WaitTest(_) => WaitTestKeeps(s, t);
    case SigV(_, _) => SigVKeeps(s, t);
    case SigRet(_, _) => SigRetKeeps(s, t);
    case Bcast(_, _) => LoopKeeps(s, t);
  }

  /** Other threads see a step of t at most as being woken. */
  lemma OthersStay(s: State, t: Tid, k: Move, u: Tid)
    requires Enabled(s, t, k) && u in s.pcs && u != t
    ensures var n := Next(s, t, k);
            && n.pcs.Keys == s.pcs.Keys
            && (n.pcs[u] == s.pcs[u]
                || (s.pcs[u].AcqAsleep? && n.pcs[u] == AcqTest(s.pcs[u].re))
                || (s.pcs[u].WaitAsleep? && n.pcs[u] == WaitTest(s.pcs[u].w)))
  {
  }

  // ---------------------------------------------------------------- whole runs

  datatype Step = Step(t: Tid, k: Move)

  /** states[0] is the initial state, and steps[i] leads from states[i] to states[i + 1]. */
  ghost predicate IsRun(threads: set<Tid>, states: seq<State>, steps: seq<Step>) {
    && |states| == |steps| + 1
    && states[0] == Init(threads)
    && forall i :: 0 <= i < |steps| ==>
         Enabled(states[i], steps[i].t, steps[i].k) && states[i + 1] == Next(states[i], steps[i].t, steps[i].k)
  }

  lemma {:induction false} RunInv(threads: set<Tid>, states: seq<State>, steps: seq<Step>, i: nat)
    requires IsRun(threads, states, steps) && i < |states|
    ensures Inv(states[i])
  {
    if i == 0 {
      InitInv(threads);
    } else {
      RunInv(threads, states, steps, i - 1);
      NextKeeps(states[i - 1], steps[i - 1].t, steps[i - 1].k);
    }
  }

  function Owners(s: State): set<Tid> {
    set t | t in s.pcs && Owns(s.pcs[t])
  }

  lemma NoOwner(s: State)
    requires OwnerInv(s) && Owners(s) == {}
    ensures s.owner.None? && s.lock.value == 1
  {
    forall t | t in s.pcs ensures !Owns(s.pcs[t]) {
      assert t !in Owners(s);
    }
  }

  /**
   The lock, in every interleaving: the semaphore's value plus the number of threads between their P
   and their V is always 1, and lockHolder names nobody or the one such thread, also when that
   thread is preempted before it records itself.
  */
  lemma LockExcludes(threads: set<Tid>, states: seq<State>, steps: seq<Step>, i: nat)
    requires IsRun(threads, states, steps) && i < |states|
    ensures var s := states[i];
            && s.lock.value >= 0
            && s.lock.value + |Owners(s)| == 1
            && (s.holder.Some? ==> Owners(s) == {s.holder.value})
            && forall t :: t in s.pcs && Records(s.pcs[t]) ==> s.holder == Some(t)
  {
    RunInv(threads, states, steps, i);
    var s := states[i];
    assert Owners(s) == if s.owner.Some? then {s.owner.value} else {};
  }

  /** Whoever sleeps on the lock while it is free has a woken thread ahead of it, free to run. */
  lemma FreeLockIsTested(threads: set<Tid>, states: seq<State>, steps: seq<Step>, i: nat, t: Tid)
    requires IsRun(threads, states, steps) && i < |states|
    requires t in states[i].pcs && states[i].pcs[t].AcqAsleep? && Owners(states[i]) == {}
    ensures exists u :: u in states[i].pcs && states[i].pcs[u].AcqTest?
                        && Next(states[i], u, Go).pcs[u].AcqGot?
  {
    LockExcludes(threads, states, steps, i);
    RunInv(threads, states, steps, i);
    var s := states[i];
    assert s.lock.woken != {};
    var u :| u in s.lock.woken;
    assert Next(s, u, Go).pcs[u].AcqGot?;
  }

  /** The ASSERTs of Release, Wait, Signal and List::Append, and that no deleted semaphore is used. */
  ghost predicate Asserts(s: State, t: Tid, k: Move)
    requires Enabled(s, t, k)
  {
    match s.pcs[t]
    case AcqTest(_) => t !in s.lock.queue
    case In => s.holder == Some(t) && Waiter(t, s.serial) !in s.sems && Waiter(t, s.serial) !in s.waitQ
    case Bcast(_, _) => s.waitQ != [] ==> s.holder == Some(t) && s.waitQ[0] in s.sems
    case WaitTest(w) => w in s.sems && t !in s.sems[w].queue
    case SigV(w, _) => w in s.sems && (s.sems[w].queue != [] ==> s.pcs.Keys >= {s.sems[w].queue[0]})
    case Dispose(w) => w in s.sems
    case _ => true
  }

  lemma AssertsHold(threads: set<Tid>, states: seq<State>, steps: seq<Step>, i: nat)
    requires IsRun(threads, states, steps) && i < |steps|
    ensures Asserts(states[i], steps[i].t, steps[i].k)
  {
    RunInv(threads, states, steps, i);
  }

  /** The step is the V of Signal on w. */
  predicate Vs(s: State, step: Step, w: Waiter) {
    step.t in s.pcs && s.pcs[step.t].SigV? && s.pcs[step.t].w == w
  }

  lemma {:induction false} SignalledStays(
    threads: set<Tid>, states: seq<State>, steps: seq<Step>, i: nat, j: nat, w: Waiter)
    requires IsRun(threads, states, steps) && i <= j < |states| && w in states[i].signalled
    ensures w in states[j].signalled
  {
    if i < j {
      SignalledStays(threads, states, steps, i, j - 1, w);
      assert states[j] == Next(states[j - 1], steps[j - 1].t, steps[j - 1].k);
    }
  }

  /** Over a whole run the semaphore of a waiter gets at most one V. */
  lemma OneVPerWaiter(threads: set<Tid>, states: seq<State>, steps: seq<Step>, i: nat, j: nat, w: Waiter)
    requires IsRun(threads, states, steps) && i < |steps| && j < |steps|
    requires Vs(states[i], steps[i], w) && Vs(states[j], steps[j], w)
    ensures i == j
  {
    var a, b := if i <= j then i else j, if i <= j then j else i;
    if a < b {
      assert states[a + 1] == Next(states[a], steps[a].t, steps[a].k);
      SignalledStays(threads, states, steps, a + 1, b, w);
      RunInv(threads, states, steps, b);
    }
  }

  /**
   A signal is not lost between the moment Wait queues its semaphore and its P on it: until it is
   signalled the waiter stays queued or in the hands of the signaller; from then on the unit is
   there, its thread is awake, and its next turn of P succeeds.
  */
  lemma SignalNotLost(threads: set<Tid>, states: seq<State>, steps: seq<Step>, i: nat, t: Tid, w: Waiter)
    requires IsRun(threads, states, steps) && i < |states|
    requires t in states[i].pcs && Ticket(states[i].pcs[t]) == Some(w) && BeforeP(states[i].pcs[t])
    ensures var s := states[i];
            && (w !in s.signalled ==> w in s.waitQ || exists u :: u in s.pcs && s.pcs[u].SigV? && s.pcs[u].w == w)
            && (w in s.signalled ==>
                  && w in s.sems && s.sems[w].value == 1 && !s.pcs[t].WaitAsleep?
                  && (s.pcs[t].WaitTest? ==> Next(s, t, Go).pcs[t] == AcqTest(Some(w))))
  {
    RunInv(threads, states, steps, i);
  }

  /**
   Wait deletes its semaphore when it is queued nowhere, no thread sleeps on it or waits on it, and no
   thread is still inside Signal or V with it.
  */
  lemma DeleteIsSafe(threads: set<Tid>, states: seq<State>, steps: seq<Step>, i: nat, t: Tid, w: Waiter)
    requires IsRun(threads, states, steps) && i < |states|
    requires t in states[i].pcs && states[i].pcs[t] == Dispose(w)
    ensures var s := states[i];
            && w in s.sems && w !in s.waitQ && s.sems[w].queue == [] && s.sems[w].value == 0
            && forall u :: u in s.pcs && u != t ==>
                 && Ticket(s.pcs[u]) != Some(w)
                 && !(s.pcs[u].SigV? && s.pcs[u].w == w) && !(s.pcs[u].SigRet? && s.pcs[u].w == w)
  {
    RunInv(threads, states, steps, i);
  }

  /** The call of Broadcast that found `all` queued. */
  predicate InLoop(pc: Pc, all: seq<Waiter>) {
    match pc
    case Bcast(a, _) => a == all
    case SigV(_, ret) => ret.ToLoop? && ret.all == all
    case SigRet(_, ret) => ret.ToLoop? && ret.all == all
    case _ => false
  }

  lemma LoopGoesOn(s: State, step: Step, t: Tid, all: seq<Waiter>)
    requires Enabled(s, step.t, step.k) && t in s.pcs && InLoop(s.pcs[t], all)
    ensures t in Next(s, step.t, step.k).pcs
    ensures var pc := Next(s, step.t, step.k).pcs[t]; pc.In? || InLoop(pc, all)
  {
  }

  lemma {:induction false} LoopStays(
    threads: set<Tid>, states: seq<State>, steps: seq<Step>, i: nat, j: nat, t: Tid)
    requires IsRun(threads, states, steps) && i < j < |states| && steps[i] == Step(t, Broadcast)
    requires forall m :: i < m <= j ==> t in states[m].pcs && !states[m].pcs[t].In?
    ensures InLoop(states[j].pcs[t], states[i].waitQ)
  {
    if j == i + 1 {
      assert states[j] == Next(states[i], t, Broadcast);
    } else {
      LoopStays(threads, states, steps, i, j - 1, t);
      LoopGoesOn(states[j - 1], steps[j - 1], t, states[i].waitQ);
    }
  }

  function Firsts(all: seq<Waiter>, k: int): set<Waiter> {
    set i | 0 <= i < |all| && i < k :: all[i]
  }

  /** The waiters that the loop has given a V. */
  function Given(pc: Pc): set<Waiter> {
    match pc
    case Bcast(all, done) => Firsts(all, done)
    case SigV(_, ToLoop(all, done)) => Firsts(all, done - 1)
    case SigRet(_, ToLoop(all, done)) => Firsts(all, done)
    case _ => {}
  }

  lemma LoopBegins(s: State, t: Tid)
    requires Enabled(s, t, Broadcast) && s.pcs[t].In?
    ensures var n := Next(s, t, Broadcast); t in n.pcs && n.signalled == s.signalled + Given(n.pcs[t])
  {
  }

  /** While a thread is in the loop, others signal nobody. */
  lemma OthersGiveNothing(s: State, u: Tid, k: Move, t: Tid)
    requires OwnerInv(s) && Enabled(s, u, k) && u != t && t in s.pcs && Records(s.pcs[t])
    ensures var n := Next(s, u, k); n.signalled == s.signalled && t in n.pcs && n.pcs[t] == s.pcs[t]
  {
    assert s.owner == Some(t);
    assert !s.pcs[u].SigV?;
  }

  lemma OwnGives(s: State, t: Tid, k: Move, all: seq<Waiter>, before: set<Waiter>)
    requires SignalInv(s) && s.owner == Some(t) && Enabled(s, t, k) && InLoop(s.pcs[t], all)
    requires s.signalled == before + Given(s.pcs[t])
    ensures var n := Next(s, t, k); t in n.pcs && (n.pcs[t].In? || n.signalled == before + Given(n.pcs[t]))
  {
    var pc := s.pcs[t];
    if pc.SigV? {
      assert Firsts(all, pc.ret.done) == Firsts(all, pc.ret.done - 1) + {pc.w};
    }
  }

  /** A step while a thread is in the loop: only its own Vs signal anybody. */
  lemma LoopGives(s: State, step: Step, n: State, t: Tid, all: seq<Waiter>, before: set<Waiter>)
    requires Inv(s) && Enabled(s, step.t, step.k) && n == Next(s, step.t, step.k) && t in s.pcs
    requires InLoop(s.pcs[t], all) && s.signalled == before + Given(s.pcs[t])
    ensures t in n.pcs && (n.pcs[t].In? || n.signalled == before + Given(n.pcs[t]))
  {
    assert s.owner == Some(t);
    if step.t != t {
      OthersGiveNothing(s, step.t, step.k, t);
    } else {
      OwnGives(s, t, step.k, all, before);
    }
  }

  lemma RunGives(
    threads: set<Tid>, states: seq<State>, steps: seq<Step>, j: nat, t: Tid, all: seq<Waiter>, before: set<Waiter>)
    requires IsRun(threads, states, steps) && j < |steps| && t in states[j].pcs && InLoop(states[j].pcs[t], all)
    requires states[j].signalled == before + Given(states[j].pcs[t])
    ensures t in states[j + 1].pcs
    ensures states[j + 1].pcs[t].In? || states[j + 1].signalled == before + Given(states[j + 1].pcs[t])
  {
    RunInv(threads, states, steps, j);
    LoopGives(states[j], steps[j], states[j + 1], t, all, before);
  }

  lemma {:induction false} LoopHasGiven(
    threads: set<Tid>, states: seq<State>, steps: seq<Step>, i: nat, j: nat, t: Tid)
    requires IsRun(threads, states, steps) && i < j < |states| && steps[i] == Step(t, Broadcast)
    requires forall m :: i < m <= j ==> t in states[m].pcs && !states[m].pcs[t].In?
    ensures states[j].signalled == states[i].signalled + Given(states[j].pcs[t])
  {
    if j == i + 1 {
      LoopBegins(states[i], t);
    } else {
      LoopHasGiven(threads, states, steps, i, j - 1, t);
      LoopStays(threads, states, steps, i, j - 1, t);
      RunGives(threads, states, steps, j - 1, t, states[i].waitQ, states[i].signalled);
    }
  }

  /**
   When a call of Broadcast leaves its loop the queue is empty, and what has been signalled meanwhile
   are exactly the waiters that were queued when it began, each once; none of them was before.
  */
  lemma BroadcastSignalsAll(threads: set<Tid>, states: seq<State>, steps: seq<Step>, i: nat, j: nat, t: Tid)
    requires IsRun(threads, states, steps) && i < j < |steps| && steps[i] == Step(t, Broadcast)
    requires forall m :: i < m <= j ==> t in states[m].pcs && !states[m].pcs[t].In?
    requires steps[j].t == t && states[j + 1].pcs[t].In?
    ensures states[j].waitQ == [] && Distinct(states[i].waitQ)
    ensures forall w :: w in states[i].waitQ ==> w !in states[i].signalled
    ensures states[j].signalled == states[i].signalled + set w | w in states[i].waitQ
  {
    RunInv(threads, states, steps, i);
    RunInv(threads, states, steps, j);
    LoopStays(threads, states, steps, i, j, t);
    LoopHasGiven(threads, states, steps, i, j, t);
    assert states[j + 1] == Next(states[j], t, steps[j].k);
    var s, all := states[j], states[i].waitQ;
    assert s.pcs[t].Bcast? && s.waitQ == [] && s.owner == Some(t);
    assert |all[s.pcs[t].done..]| == 0;
    assert Given(s.pcs[t]) == set w | w in all;
    forall w | w in all ensures w !in states[i].signalled {
      assert WaiterOk(states[i], w);
    }
  }
}
