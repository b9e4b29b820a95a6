/**
 filesys/synchdisk.cc over machine/disk.cc: any number of threads read and write sectors through one
 lock, one semaphore and a disk that takes one request at a time and answers by an interrupt.
 The lock is the one of module Monitors.
*/
module SynchDisks {
  import opened Common
  import opened Semaphores
  import opened Monitors

  /** Where a thread is in ReadSector or WriteSector; r numbers its request. */
  datatype Loc =
    | Idle
    | Entering               // lock->Acquire(), then the request
    | Waiting(r: nat)        // semaphore->P(): about to test the value
    | Asleep(r: nat)         //   asleep in its queue
    | Leaving(r: nat)        // P completed: lock->Release(), then return

  /** `issued` and `completed` are history: the number of the last request, and of the last one that was answered. */
  datatype Handshake = Handshake(
    m: State, done: Sem, active: bool, loc: map<Tid, Loc>, issued: nat, completed: nat)

  datatype Act = CallSector(t: Tid) | Run(t: Tid) | Interrupt

  predicate CanAct(s: Handshake, a: Act) {
    match a
    case CallSector(t) => t in s.loc && s.loc[t].Idle? && Enabled(s.m, t, Acquire)
    case Run(t) =>
      && t in s.loc && t in s.m.pcs && !s.loc[t].Idle?
      && (if s.m.pcs[t].In? then !s.loc[t].Asleep? else Enabled(s.m, t, Go))
    case Interrupt => s.active
  }

  /** A thread outside its turn in the monitor: one step of lock->Acquire or lock->Release. */
  function LockStep(s: Handshake, t: Tid, k: Move): Handshake
    requires t in s.loc && Enabled(s.m, t, k)
  {
    var m := Next(s.m, t, k);
    s.(m := m, loc := s.loc[t := if t in m.pcs && m.pcs[t].Out? then Idle else s.loc[t]])
  }

  /** Disk::ReadRequest or WriteRequest. */
  function RequestStep(s: Handshake, t: Tid): Handshake {
    s.(active := true, issued := s.issued + 1, loc := s.loc[t := Waiting(s.issued + 1)])
  }

  function WaitStep(s: Handshake, t: Tid, r: nat): Handshake {
    s.(done := PassP(s.done, t), loc := s.loc[t := if s.done.value == 0 then Asleep(r) else Leaving(r)])
  }

  /** Disk::CallBack and SynchDisk::CallBack. */
  function InterruptStep(s: Handshake): Handshake {
    var q := s.done.queue;
    s.(active := false, completed := s.issued, done := StepV(s.done),
       loc := if q != [] && q[0] in s.loc && s.loc[q[0]].Asleep?
              then s.loc[q[0] := Waiting(s.loc[q[0]].r)] else s.loc)
  }

  function Perform(s: Handshake, a: Act): Handshake
    requires CanAct(s, a)
  {
    match a
    case CallSector(t) => s.(m := Next(s.m, t, Acquire), loc := s.loc[t := Entering])
    case Interrupt => InterruptStep(s)
    case Run(t) =>
      if !s.m.pcs[t].In? then LockStep(s, t, Go)
      else if s.loc[t].Entering? then RequestStep(s, t)
      else if s.loc[t].Waiting? then WaitStep(s, t, s.loc[t].r)
      else LockStep(s, t, Release)
  }

  function Fresh(threads: set<Tid>): Handshake {
    Handshake(Monitors.Init(threads), Sem(0, [], {}), false, map t | t in threads :: Idle, 0, 0)
  }

  // ---------------------------------------------------------------- invariant

  predicate LocOk(pc: Pc, loc: Loc) {
    match loc
    case Idle => pc.Out?
    case Entering => pc == AcqTest(None) || pc == AcqAsleep(None) || pc == AcqGot(None) || pc.In?
    case Waiting(_) => pc.In?
    case Asleep(_) => pc.In?
    case Leaving(_) => pc.In? || pc == RelV(None)
  }

  /** The thread has made its request and not yet completed P. */
  predicate InFlight(loc: Loc) {
    loc.Waiting? || loc.Asleep?
  }

  ghost predicate HandshakeOk(s: Handshake) {
    && SemOk(s.done)
    && 0 <= s.done.value <= 1
    && (s.active ==> s.done.value == 0)
    && (s.active || s.done.value == 1 ==>
          s.m.owner.Some? && s.m.owner.value in s.loc && InFlight(s.loc[s.m.owner.value]))
    && (forall t :: t in s.loc && InFlight(s.loc[t]) ==>
          s.loc[t].r == s.issued > 0 && (s.active || (s.done.value == 1 && s.completed == s.issued)))
    && (forall t :: t in s.loc && s.loc[t].Asleep? ==> s.active)
    && (forall t :: t in s.loc && s.loc[t].Leaving? ==> s.completed == s.issued == s.loc[t].r > 0)
    && (forall t :: t in s.done.queue ==> t in s.loc && s.loc[t].Asleep?)
    && (forall t :: t in s.loc && s.loc[t].Asleep? ==> t in s.done.queue)
  }

  ghost predicate Inv(s: Handshake) {
    && Monitors.Inv(s.m)
    && s.loc.Keys == s.m.pcs.Keys
    && (forall t :: t in s.loc ==> LocOk(s.m.pcs[t], s.loc[t]))
    && HandshakeOk(s)
  }

  /** At most one thread is in the monitor, so at most one is beyond Entering. */
  lemma OneInside(s: Handshake, t: Tid)
    requires OwnerInv(s.m) && s.loc.Keys == s.m.pcs.Keys && forall u :: u in s.loc ==> LocOk(s.m.pcs[u], s.loc[u])
    requires t in s.loc && !s.loc[t].Idle? && !s.loc[t].Entering?
    ensures s.m.owner == Some(t)
  {
  }

  lemma FreshInv(threads: set<Tid>)
    ensures Inv(Fresh(threads))
  {
  }

  lemma LockLocs(s: Handshake, t: Tid, k: Move)
    requires s.loc.Keys == s.m.pcs.Keys && forall u :: u in s.loc ==> LocOk(s.m.pcs[u], s.loc[u])
    requires CanAct(s, Run(t)) && Enabled(s.m, t, k) && (k == Go || (k == Release && s.loc[t].Leaving?))
    ensures var n := LockStep(s, t, k);
            n.loc.Keys == n.m.pcs.Keys && forall u :: u in n.loc ==> LocOk(n.m.pcs[u], n.loc[u])
  {
    var n := LockStep(s, t, k);
    assert LocOk(s.m.pcs[t], s.loc[t]);
    assert t in n.m.pcs;
    forall u | u in s.loc ensures u in n.m.pcs && LocOk(n.m.pcs[u], n.loc[u]) {
      if u != t {
        OthersStay(s.m, t, k, u);
      }
    }
    assert n.m.pcs.Keys == s.m.pcs.Keys by {
      if u :| u in s.m.pcs && u != t {
        OthersStay(s.m, t, k, u);
      }
    }
  }

  lemma LockKeeps(s: Handshake, t: Tid, k: Move)
    requires Inv(s) && CanAct(s, Run(t)) && Enabled(s.m, t, k) && (k == Go || (k == Release && s.loc[t].Leaving?))
    ensures Inv(LockStep(s, t, k))
  {
    NextKeeps(s.m, t, k);
    LockLocs(s, t, k);
    assert LocOk(s.m.pcs[t], s.loc[t]);
    if s.active || s.done.value == 1 {
      var o := s.m.owner.value;
      assert o != t && LocOk(s.m.pcs[o], s.loc[o]);
      LockKeepsOwner(s, t, k, o);
    }
    LockHandshake(s, t, k);
  }

  /** The thread that waits for the disk keeps the lock while others come and go at it. */
  lemma LockKeepsOwner(s: Handshake, t: Tid, k: Move, o: Tid)
    requires OwnerInv(s.m) && s.m.owner == Some(o) && o in s.m.pcs && s.m.pcs[o].In? && o != t
    requires Enabled(s.m, t, k) && OwnerInv(Next(s.m, t, k))
    ensures Next(s.m, t, k).owner == Some(o)
  {
  }

  lemma LockHandshake(s: Handshake, t: Tid, k: Move)
    requires HandshakeOk(s) && t in s.loc && !InFlight(s.loc[t]) && Enabled(s.m, t, k)
    requires (s.active || s.done.value == 1) ==> Next(s.m, t, k).owner == s.m.owner
    ensures HandshakeOk(LockStep(s, t, k))
  {
  }

  /** The threads other than the one in the monitor have made no request. */
  lemma OthersOutside(s: Handshake, o: Tid)
    requires OwnerInv(s.m) && s.loc.Keys == s.m.pcs.Keys && s.m.owner == Some(o)
    requires forall u :: u in s.loc ==> LocOk(s.m.pcs[u], s.loc[u])
    ensures forall u :: u in s.loc && u != o ==> s.loc[u].Idle? || s.loc[u].Entering?
  {
  }

  lemma RequestKeeps(s: Handshake, t: Tid)
    requires Inv(s) && CanAct(s, Run(t)) && s.m.pcs[t].In? && s.loc[t].Entering?
    ensures Inv(RequestStep(s, t)) && !s.active && s.done.value == 0
  {
  }

  lemma WaitHandshake(s: Handshake, t: Tid)
    requires HandshakeOk(s) && t in s.loc && s.loc[t].Waiting? && s.m.owner == Some(t)
    requires forall u :: u in s.loc && u != t ==> s.loc[u].Idle? || s.loc[u].Entering?
    ensures HandshakeOk(WaitStep(s, t, s.loc[t].r))
  {
  }

  lemma WaitKeeps(s: Handshake, t: Tid)
    requires Inv(s) && CanAct(s, Run(t)) && s.m.pcs[t].In? && s.loc[t].Waiting?
    ensures Inv(WaitStep(s, t, s.loc[t].r))
  {
    OthersOutside(s, t);
    WaitHandshake(s, t);
  }

  lemma InterruptHandshake(s: Handshake)
    requires HandshakeOk(s) && s.active
    requires forall u :: u in s.loc && u != s.m.owner.value ==> s.loc[u].Idle? || s.loc[u].Entering?
    ensures HandshakeOk(InterruptStep(s))
  {
  }

  lemma InterruptKeeps(s: Handshake)
    requires Inv(s) && s.active
    ensures Inv(InterruptStep(s))
  {
    OthersOutside(s, s.m.owner.value);
    InterruptHandshake(s);
  }

  lemma CallHandshake(s: Handshake, t: Tid)
    requires HandshakeOk(s) && CanAct(s, CallSector(t)) && s.m.owner != Some(t)
    ensures HandshakeOk(Perform(s, CallSector(t)))
  {
  }

  lemma CallKeeps(s: Handshake, t: Tid)
    requires Inv(s) && CanAct(s, CallSector(t))
    ensures Inv(Perform(s, CallSector(t)))
  {
    OutKeeps(s.m, t);
    CallHandshake(s, t);
    CallLocs(s, t);
  }

  lemma CallLocs(s: Handshake, t: Tid)
    requires Inv(s) && CanAct(s, CallSector(t))
    ensures var n := Perform(s, CallSector(t));
            n.loc.Keys == n.m.pcs.Keys && forall u :: u in n.loc ==> LocOk(n.m.pcs[u], n.loc[u])
  {
  }

  lemma PerformKeeps(s: Handshake, a: Act)
    requires Inv(s) && CanAct(s, a)
    ensures Inv(Perform(s, a))
  {
    match a
    case CallSector(t) => CallKeeps(s, t);
    case Interrupt => InterruptKeeps(s);
    case Run(t) =>
      assert LocOk(s.m.pcs[t], s.loc[t]);
      if !s.m.pcs[t].In? {
        LockKeeps(s, t, Go);
      } else if s.loc[t].Entering? {
        RequestKeeps(s, t);
      } else if s.loc[t].Waiting? {
        WaitKeeps(s, t);
      } else {
        LockKeeps(s, t, Release);
      }
  }

  // ---------------------------------------------------------------- whole runs

  ghost predicate IsRun(threads: set<Tid>, states: seq<Handshake>, acts: seq<Act>) {
    && |states| == |acts| + 1
    && states[0] == Fresh(threads)
    && forall i :: 0 <= i < |acts| ==> CanAct(states[i], acts[i]) && states[i + 1] == Perform(states[i], acts[i])
  }

  lemma {:induction false} RunInv(threads: set<Tid>, states: seq<Handshake>, acts: seq<Act>, i: nat)
    requires IsRun(threads, states, acts) && i < |states|
    ensures Inv(states[i])
  {
    if i == 0 {
      FreshInv(threads);
    } else {
      RunInv(threads, states, acts, i - 1);
      assert CanAct(states[i - 1], acts[i - 1]) && states[i] == Perform(states[i - 1], acts[i - 1]);
      PerformKeeps(states[i - 1], acts[i - 1]);
    }
  }

  function ThreadsInFlight(s: Handshake): set<Tid> {
    set t | t in s.loc && InFlight(s.loc[t])
  }

  /**
   In every interleaving of requesters and interrupts: the threads between their request and the end
   of their P number exactly 1 if the disk is active, plus the semaphore's value; and that is at most 1.
  */
  lemma RequestsAccounted(threads: set<Tid>, states: seq<Handshake>, acts: seq<Act>, i: nat)
    requires IsRun(threads, states, acts) && i < |states|
    ensures var s := states[i];
            && s.done.value >= 0
            && |ThreadsInFlight(s)| == (if s.active then 1 else 0) + s.done.value <= 1
  {
    RunInv(threads, states, acts, i);
    var s := states[i];
    if s.active || s.done.value == 1 {
      var o := s.m.owner.value;
      forall t | t in ThreadsInFlight(s) ensures t == o {
        OneInside(s, t);
      }
      assert ThreadsInFlight(s) == {o};
    } else {
      assert ThreadsInFlight(s) == {};
    }
  }

  /** So the ASSERT(!active) in ReadRequest and WriteRequest never fails. */
  lemma DiskIsNeverBusy(threads: set<Tid>, states: seq<Handshake>, acts: seq<Act>, i: nat, t: Tid)
    requires IsRun(threads, states, acts) && i < |acts| && acts[i] == Run(t)
    requires states[i].m.pcs[t].In? && states[i].loc[t].Entering?
    ensures !states[i].active
  {
    RunInv(threads, states, acts, i);
    RequestKeeps(states[i], t);
  }

  lemma {:induction false} WasCompleted(threads: set<Tid>, states: seq<Handshake>, acts: seq<Act>, i: nat)
    requires IsRun(threads, states, acts) && i < |states| && states[i].completed > 0
    ensures exists j :: 0 <= j < i && acts[j] == Interrupt && states[j].active
                        && states[j].issued == states[i].completed
  {
    assert states[i - 1 + 1] == Perform(states[i - 1], acts[i - 1]);
    if states[i - 1].completed != states[i].completed {
      assert acts[i - 1] == Interrupt;
    } else {
      WasCompleted(threads, states, acts, i - 1);
    }
  }

  /**
   ReadSector and WriteSector go on only after the interrupt for their own request: when the thread of
   request r gets past its P, an earlier interrupt found the disk active with r as the last request.
  */
  lemma ReturnsAfterOwnInterrupt(threads: set<Tid>, states: seq<Handshake>, acts: seq<Act>, i: nat, t: Tid)
    requires IsRun(threads, states, acts) && i < |states| && t in states[i].loc && states[i].loc[t].Leaving?
    ensures exists j :: 0 <= j < i && acts[j] == Interrupt && states[j].active && states[j].issued == states[i].loc[t].r
  {
    RunInv(threads, states, acts, i);
    WasCompleted(threads, states, acts, i);
  }

  /** An answer is not lost: a thread whose request has been answered is awake and passes its next test. */
  lemma AnswerNotLost(threads: set<Tid>, states: seq<Handshake>, acts: seq<Act>, i: nat, t: Tid)
    requires IsRun(threads, states, acts) && i < |states| && t in ThreadsInFlight(states[i]) && !states[i].active
    ensures CanAct(states[i], Run(t)) && Perform(states[i], Run(t)).loc[t].Leaving?
  {
    RunInv(threads, states, acts, i);
    assert LocOk(states[i].m.pcs[t], states[i].loc[t]);
  }

  // ---------------------------------------------------------------- one request for each call

  /** The calls of ReadSector and WriteSector by one thread. */
  function Calls(acts: seq<Act>, t: Tid, i: nat): nat
    requires i <= |acts|
  {
    if i == 0 then 0 else Calls(acts, t, i - 1) + if acts[i - 1] == CallSector(t) then 1 else 0
  }

  predicate By(who: Option<Tid>, t: Tid) {
    who == None || who == Some(t)
  }

  /** The requests that the disk has got from one thread, or from any. */
  function Requests(states: seq<Handshake>, acts: seq<Act>, who: Option<Tid>, i: nat): nat
    requires i <= |acts| < |states|
  {
    if i == 0 then 0
    else
      var s, a := states[i - 1], acts[i - 1];
      Requests(states, acts, who, i - 1)
      + if a.Run? && By(who, a.t) && a.t in s.loc && a.t in s.m.pcs && s.loc[a.t].Entering? && s.m.pcs[a.t].In?
        then 1 else 0
  }

  /** The times that the thread has got past its P. */
  function Answers(states: seq<Handshake>, acts: seq<Act>, t: Tid, i: nat): nat
    requires i <= |acts| < |states|
  {
    if i == 0 then 0
    else
      var s := states[i - 1];
      Answers(states, acts, t, i - 1)
      + if acts[i - 1] == Run(t) && t in s.loc && s.loc[t].Waiting? && s.done.value > 0 then 1 else 0
  }

  /** From l to n: the call, the request, the end of P; otherwise only asleep, awake, or returned. */
  predicate LocMoves(s: Handshake, a: Act, t: Tid, n: Loc)
    requires t in s.loc && t in s.m.pcs
  {
    var l := s.loc[t];
    if a == CallSector(t) then l.Idle? && n.Entering?
    else if a == Run(t) && l.Entering? && s.m.pcs[t].In? then n == Waiting(s.issued + 1)
    else if a == Run(t) && l.Waiting? && s.done.value > 0 then n == Leaving(l.r)
    else
      && (l.Entering? <==> n.Entering?) && (InFlight(l) <==> InFlight(n))
      && (InFlight(l) || n.Leaving? ==> !l.Idle? && !l.Entering? && n.r == l.r)
      && (n.Idle? ==> l.Idle? || l.Leaving?)
  }

  lemma LockMoves(s: Handshake, t: Tid, k: Move)
    requires t in s.loc && Enabled(s.m, t, k) && LocOk(s.m.pcs[t], s.loc[t])
    requires (s.m.pcs[t].In? && s.loc[t].Leaving? && k == Release) || (!s.m.pcs[t].In? && !s.loc[t].Idle? && k == Go)
    ensures LockStep(s, t, k).loc[t] == s.loc[t] || (s.loc[t].Leaving? && LockStep(s, t, k).loc[t] == Idle)
  {
  }

  lemma LocChanges(s: Handshake, a: Act, t: Tid)
    requires s.loc.Keys == s.m.pcs.Keys && (forall u :: u in s.loc ==> LocOk(s.m.pcs[u], s.loc[u]))
    requires s.done.value >= 0 && CanAct(s, a) && t in s.loc
    ensures t in Perform(s, a).loc && LocMoves(s, a, t, Perform(s, a).loc[t])
  {
    assert LocOk(s.m.pcs[t], s.loc[t]);
    if a == Run(t) && !s.m.pcs[t].In? {
      LockMoves(s, t, Go);
    } else if a == Run(t) && s.loc[t].Leaving? {
      LockMoves(s, t, Release);
    }
  }

  lemma NumberChanges(s: Handshake, a: Act)
    requires Inv(s) && CanAct(s, a)
    ensures Perform(s, a).issued ==
              s.issued
              + if a.Run? && a.t in s.m.pcs && s.loc[a.t].Entering? && s.m.pcs[a.t].In? then 1 else 0
  {
  }

  lemma ChangesAt(threads: set<Tid>, states: seq<Handshake>, acts: seq<Act>, i: nat, t: Tid)
    requires IsRun(threads, states, acts) && i < |acts| && t in states[i].loc
    ensures t in states[i].m.pcs && t in states[i + 1].loc
    ensures LocMoves(states[i], acts[i], t, states[i + 1].loc[t])
    ensures CanAct(states[i], acts[i])
    ensures var s, a := states[i], acts[i];
            states[i + 1].issued ==
              (s.issued + if a.Run? && a.t in s.m.pcs && s.loc[a.t].Entering? && s.m.pcs[a.t].In? then 1 else 0)
  {
    RunInv(threads, states, acts, i);
    LocChanges(states[i], acts[i], t);
    NumberChanges(states[i], acts[i]);
  }

  /**
   In every run, each call makes one request of the disk, and each request is waited for once: a call that
   has returned has made its request and has had its answer. The requests are numbered one after the other.
  */
  lemma {:induction false} OneRequestPerCall(threads: set<Tid>, states: seq<Handshake>, acts: seq<Act>, i: nat, t: Tid)
    requires IsRun(threads, states, acts) && i <= |acts| && t in threads
    ensures t in states[i].loc
    ensures Calls(acts, t, i) == Requests(states, acts, Some(t), i) + if states[i].loc[t].Entering? then 1 else 0
    ensures Requests(states, acts, Some(t), i) ==
              Answers(states, acts, t, i) + if InFlight(states[i].loc[t]) then 1 else 0
    ensures states[i].issued == Requests(states, acts, None, i)
  {
    if i > 0 {
      OneRequestPerCall(threads, states, acts, i - 1, t);
      ChangesAt(threads, states, acts, i - 1, t);
    }
  }
}
