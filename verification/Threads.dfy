/**
 threads/scheduler.cc and threads/thread.cc, with the thread switches of threads/synch.cc: where every
 thread is, what its status says, and when it is its turn.
*/
module Threads {
  import opened Common
  import S = Semaphores

  datatype ThreadStatus = JUST_CREATED | RUNNING | READY | BLOCKED

  /** A semaphore as P and V see it. */
  datatype Sema = Sema(value: nat, queue: seq<Tid>)

  /**
   Where the processor is: in a thread's own code, in P about to test the value, in the loop of Sleep,
   or just behind SWITCH (or at Begin), with interrupts off.
  */
  datatype Phase = Normal | Testing(q: nat) | Idling(finishing: bool) | Resumed

  /**
   `inP` says which threads are inside P, and on which semaphore. `readied` and `dispatched` are
   history: all threads ever given to ReadyToRun, and all returned by FindNextToRun.
  */
  datatype State = State(
    current: Tid, phase: Phase, status: map<Tid, ThreadStatus>, ready: seq<Tid>, toBeDestroyed: Option<Tid>,
    sems: map<nat, Sema>, inP: map<Tid, nat>, readied: seq<Tid>, dispatched: seq<Tid>)

  /** Scheduler::ReadyToRun */
  function ReadyToRun(s: State, t: Tid): State {
    s.(status := s.status[t := READY], ready := s.ready + [t], readied := s.readied + [t])
  }

  /** Scheduler::FindNextToRun when the ready list is not empty; it returns the front of the list. */
  function TakeNext(s: State): State
    requires s.ready != []
  {
    s.(ready := s.ready[1..], dispatched := s.dispatched + [s.ready[0]])
  }

  /** Scheduler::Run up to SWITCH. */
  function Run(s: State, next: Tid, finishing: bool): State {
    s.(toBeDestroyed := if finishing then Some(s.current) else s.toBeDestroyed,
       current := next, status := s.status[next := RUNNING], phase := Resumed)
  }

  /** Scheduler::CheckToBeDestroyed */
  function CheckToBeDestroyed(s: State): State {
    if s.toBeDestroyed.None? then s
    else s.(status := s.status - {s.toBeDestroyed.value}, toBeDestroyed := None)
  }

  /** Run behind SWITCH, or Begin: then a thread that slept in P tests the value again. */
  function Resume(s: State): State {
    CheckToBeDestroyed(s).(phase := if s.current in s.inP then Testing(s.inP[s.current]) else Normal)
  }

  /** Thread::Yield */
  function Yield(s: State): State {
    if s.ready == [] then s
    else Run(ReadyToRun(TakeNext(s), s.current), s.ready[0], false)
  }

  /** Thread::Sleep up to its loop. */
  function Sleep(s: State, finishing: bool): State {
    s.(status := s.status[s.current := BLOCKED], phase := Idling(finishing))
  }

  /** The end of the loop of Sleep, when a thread is ready. */
  function Dispatch(s: State): State
    requires s.ready != [] && s.phase.Idling?
  {
    Run(TakeNext(s), s.ready[0], s.phase.finishing)
  }

  /** One turn of the loop in P. */
  function TestP(s: State, q: nat): State
    requires q in s.sems
  {
    if s.sems[q].value == 0
    then Sleep(s.(sems := s.sems[q := Sema(0, s.sems[q].queue + [s.current])], inP := s.inP[s.current := q]), false)
    else
      var less := Sema(s.sems[q].value - 1, s.sems[q].queue);
      s.(sems := s.sems[q := less], inP := s.inP - {s.current}, phase := Normal)
  }

  /** V, by the current thread or by an interrupt handler. */
  function GiveV(s: State, q: nat): State
    requires q in s.sems
  {
    var m := s.sems[q];
    if m.queue == [] then s.(sems := s.sems[q := Sema(m.value + 1, [])])
    else ReadyToRun(s.(sems := s.sems[q := Sema(m.value + 1, m.queue[1..])]), m.queue[0])
  }

  /**
   What happens next. A handler may call V while a thread runs its own code or while the processor
   idles; everything else is done by the current thread.
  */
  datatype Act = Create(t: Tid) | Fork(t: Tid) | CallYield | CallP(q: nat) | CallV(q: nat) | Finish | Go

  predicate CanDo(s: State, a: Act) {
    match s.phase
    case Normal =>
      (match a
       case Create(t) => t !in s.status
       case Fork(t) => t in s.status && s.status[t] == JUST_CREATED
       case CallP(q) => q in s.sems
       case CallV(q) => q in s.sems
       case Go => false
       case _ => true)
    case Idling(_) => (a.CallV? && a.q in s.sems) || (a.Go? && s.ready != [])
    case Testing(q) => a.Go? && q in s.sems
    case Resumed => a.Go?
  }

  function Next(s: State, a: Act): State
    requires CanDo(s, a)
  {
    match a
    case Create(t) => s.(status := s.status[t := JUST_CREATED])
    case Fork(t) => ReadyToRun(s, t)
    case CallYield => Yield(s)
    case CallP(q) => s.(phase := Testing(q))
    case CallV(q) => GiveV(s, q)
    case Finish => Sleep(s, true)
    case Go =>
      if s.phase.Idling? then Dispatch(s)
      else if s.phase.Testing? then TestP(s, s.phase.q)
      else Resume(s)
  }

  /** The main thread runs; the semaphores have their initial values and empty queues. */
  ghost predicate IsStart(s: State) {
    && s.phase == Normal && s.status == map[s.current := RUNNING] && s.ready == [] && s.toBeDestroyed == None
    && s.inP == map[] && s.readied == [] && s.dispatched == []
    && forall q :: q in s.sems ==> s.sems[q].queue == []
  }

  // ---------------------------------------------------------------- places

  datatype Place = Created | AtWork | OnReadyList | InQueue(q: nat) | Ending

  ghost predicate At(s: State, t: Tid, p: Place) {
    match p
    case Created => t in s.status && s.status[t] == JUST_CREATED
    case AtWork => t == s.current && !s.phase.Idling?
    case OnReadyList => t in s.ready
    case InQueue(q) => q in s.sems && t in s.sems[q].queue
    case Ending => s.toBeDestroyed == Some(t) || (t == s.current && s.phase == Idling(true))
  }

  function StatusAt(p: Place): ThreadStatus {
    match p
    case Created => JUST_CREATED
    case AtWork => RUNNING
    case OnReadyList => READY
    case InQueue(_) => BLOCKED
    case Ending => BLOCKED
  }

  // ---------------------------------------------------------------- invariant

  ghost predicate ReadyOk(s: State) {
    && Distinct(s.ready)
    && forall t :: t in s.ready <==> t in s.status && s.status[t] == READY
  }

  ghost predicate QueuesOk(s: State) {
    forall q :: q in s.sems ==>
      && Distinct(s.sems[q].queue)
      && forall t :: t in s.sems[q].queue ==>
           t in s.status && s.status[t] == BLOCKED && t in s.inP && s.inP[t] == q
  }

  ghost predicate CurrentOk(s: State) {
    && s.current in s.status
    && (forall t :: t in s.status ==> (s.status[t] == RUNNING <==> t == s.current && !s.phase.Idling?))
    && (s.phase == Idling(false) ==> s.current in s.inP)
    && (s.phase == Idling(true) ==> s.status[s.current] == BLOCKED && s.current !in s.inP)
    && (s.phase.Testing? ==> s.phase.q in s.sems && (s.current in s.inP ==> s.inP[s.current] == s.phase.q))
    && (s.phase == Normal ==> s.current !in s.inP)
  }

  /** A thread inside P is asleep in that queue, ready, or just testing again. */
  ghost predicate InPOk(s: State) {
    forall t :: t in s.inP ==>
      && t in s.status && s.inP[t] in s.sems
      && match s.status[t]
         case JUST_CREATED => false
         case RUNNING => s.phase.Resumed? || s.phase.Testing?
         case READY => true
         case BLOCKED => t in s.sems[s.inP[t]].queue
  }

  ghost predicate BlockedOk(s: State) {
    forall t :: t in s.status && s.status[t] == BLOCKED ==> t in s.inP || At(s, t, Ending)
  }

  /** A thread to be destroyed is there only from a finishing Run to the check behind SWITCH, and is not current. */
  ghost predicate DyingOk(s: State) {
    s.toBeDestroyed.Some? ==>
      && s.phase.Resumed?
      && s.toBeDestroyed.value != s.current
      && s.toBeDestroyed.value in s.status && s.status[s.toBeDestroyed.value] == BLOCKED
      && s.toBeDestroyed.value !in s.inP
  }

  ghost predicate Inv(s: State) {
    && ReadyOk(s) && QueuesOk(s) && CurrentOk(s) && InPOk(s) && BlockedOk(s) && DyingOk(s)
    && s.readied == s.dispatched + s.ready
  }

  lemma StartInv(s: State)
    requires IsStart(s)
    ensures Inv(s)
  {
  }

  // ---------------------------------------------------------------- every step keeps it

  lemma FrontTaken(s: seq<Tid>)
    requires Distinct(s) && s != []
    ensures Distinct(s[1..]) && s[0] !in s[1..]
    ensures forall t :: t in s <==> t == s[0] || t in s[1..]
  {
  }

  lemma BackAdded(s: seq<Tid>, t: Tid)
    requires Distinct(s) && t !in s
    ensures Distinct(s + [t]) && forall x :: x in s + [t] <==> x in s || x == t
  {
  }

  lemma CreateKeeps(s: State, t: Tid)
    requires Inv(s) && CanDo(s, Create(t))
    ensures Inv(Next(s, Create(t)))
  {
  }

  lemma ForkKeeps(s: State, t: Tid)
    requires Inv(s) && CanDo(s, Fork(t))
    ensures Inv(Next(s, Fork(t)))
  {
    BackAdded(s.ready, t);
  }

  // Yield

  lemma YieldReady(s: State)
    requires ReadyOk(s) && s.ready != [] && s.current in s.status && s.status[s.current] == RUNNING
    ensures ReadyOk(Yield(s))
  {
  }

  lemma YieldQueues(s: State)
    requires ReadyOk(s) && QueuesOk(s) && s.ready != [] && s.current in s.status && s.status[s.current] == RUNNING
    ensures QueuesOk(Yield(s))
  {
  }

  lemma YieldRest(s: State)
    requires Inv(s) && s.phase == Normal && s.ready != []
    ensures CurrentOk(Yield(s)) && InPOk(Yield(s)) && BlockedOk(Yield(s)) && DyingOk(Yield(s))
    ensures Yield(s).readied == Yield(s).dispatched + Yield(s).ready
  {
    assert s.ready[0] in s.ready;
  }

  lemma YieldKeeps(s: State)
    requires Inv(s) && CanDo(s, CallYield)
    ensures Inv(Yield(s))
  {
    if s.ready != [] {
      YieldReady(s);
      YieldQueues(s);
      YieldRest(s);
    }
  }

  // P

  lemma TestQueues(s: State)
    requires QueuesOk(s) && CurrentOk(s) && s.phase.Testing?
    ensures QueuesOk(TestP(s, s.phase.q))
  {
  }

  lemma TestRest(s: State)
    requires Inv(s) && s.phase.Testing?
    ensures var n := TestP(s, s.phase.q); ReadyOk(n) && CurrentOk(n) && BlockedOk(n) && DyingOk(n)
  {
  }

  lemma TestInP(s: State)
    requires InPOk(s) && CurrentOk(s) && s.phase.Testing?
    ensures InPOk(TestP(s, s.phase.q))
  {
  }

  lemma TestKeeps(s: State)
    requires Inv(s) && s.phase.Testing?
    ensures Inv(TestP(s, s.phase.q))
  {
    TestQueues(s);
    TestRest(s);
    TestInP(s);
  }

  // V

  lemma GiveQueues(s: State, q: nat)
    requires QueuesOk(s) && q in s.sems
    ensures QueuesOk(GiveV(s, q))
  {
    var n := GiveV(s, q);
    forall r | r in n.sems
      ensures Distinct(n.sems[r].queue)
      ensures forall t :: t in n.sems[r].queue ==>
                t in n.status && n.status[t] == BLOCKED && t in n.inP && n.inP[t] == r
    {
      if s.sems[q].queue != [] {
        FrontTaken(s.sems[q].queue);
        assert s.sems[q].queue[0] in s.sems[q].queue;
      }
    }
  }

  lemma GiveReady(s: State, q: nat)
    requires ReadyOk(s) && QueuesOk(s) && q in s.sems
    ensures ReadyOk(GiveV(s, q))
  {
    if s.sems[q].queue != [] {
      var t := s.sems[q].queue[0];
      assert t in s.sems[q].queue;
      BackAdded(s.ready, t);
    }
  }

  lemma GiveInP(s: State, q: nat)
    requires InPOk(s) && QueuesOk(s) && q in s.sems
    ensures InPOk(GiveV(s, q))
  {
  }

  lemma GiveRest(s: State, q: nat)
    requires Inv(s) && CanDo(s, CallV(q))
    ensures CurrentOk(GiveV(s, q)) && BlockedOk(GiveV(s, q)) && DyingOk(GiveV(s, q))
    ensures GiveV(s, q).readied == GiveV(s, q).dispatched + GiveV(s, q).ready
  {
  }

  lemma GiveKeeps(s: State, q: nat)
    requires Inv(s) && CanDo(s, CallV(q))
    ensures Inv(GiveV(s, q))
  {
    GiveQueues(s, q);
    GiveReady(s, q);
    GiveInP(s, q);
    GiveRest(s, q);
  }

  // Sleep and Run

  lemma FinishKeeps(s: State)
    requires Inv(s) && CanDo(s, Finish)
    ensures Inv(Sleep(s, true))
  {
  }

  lemma DispatchReady(s: State)
    requires ReadyOk(s) && s.phase.Idling? && s.ready != []
    ensures ReadyOk(Dispatch(s))
  {
  }

  lemma DispatchQueues(s: State)
    requires ReadyOk(s) && QueuesOk(s) && s.phase.Idling? && s.ready != []
    ensures QueuesOk(Dispatch(s))
  {
  }

  lemma DispatchInP(s: State)
    requires ReadyOk(s) && InPOk(s) && s.phase.Idling? && s.ready != []
    ensures InPOk(Dispatch(s))
  {
  }

  lemma DispatchRest(s: State)
    requires Inv(s) && s.phase.Idling? && s.ready != []
    ensures CurrentOk(Dispatch(s)) && BlockedOk(Dispatch(s)) && DyingOk(Dispatch(s))
    ensures Dispatch(s).readied == Dispatch(s).dispatched + Dispatch(s).ready
  {
  }

  lemma DispatchKeeps(s: State)
    requires Inv(s) && s.phase.Idling? && s.ready != []
    ensures Inv(Dispatch(s))
  {
    DispatchReady(s);
    DispatchQueues(s);
    DispatchInP(s);
    DispatchRest(s);
  }

  lemma ResumeKeeps(s: State)
    requires Inv(s) && s.phase.Resumed?
    ensures Inv(Resume(s))
  {
  }

  lemma NextKeeps(s: State, a: Act)
    requires Inv(s) && CanDo(s, a)
    ensures Inv(Next(s, a))
  {
    match a
    case Create(t) => CreateKeeps(s, t);
    case Fork(t) => ForkKeeps(s, t);
    case CallYield => YieldKeeps(s);
    case CallP(_) =>
    case CallV(q) => GiveKeeps(s, q);
    case Finish => FinishKeeps(s);
    case Go =>
      if s.phase.Idling? {
        DispatchKeeps(s);
      } else if s.phase.Testing? {
        TestKeeps(s);
      } else {
        ResumeKeeps(s);
      }
  }

  // ---------------------------------------------------------------- whole runs

  /** The states of a run, and what happened between them. */
  ghost predicate IsRun(states: seq<State>, acts: seq<Act>) {
    && |states| == |acts| + 1
    && IsStart(states[0])
    && forall i :: 0 <= i < |acts| ==> CanDo(states[i], acts[i]) && states[i + 1] == Next(states[i], acts[i])
  }

  lemma {:induction false} RunInv(states: seq<State>, acts: seq<Act>, i: nat)
    requires IsRun(states, acts) && i <= |acts|
    ensures Inv(states[i])
  {
    if i == 0 {
      StartInv(states[0]);
    } else {
      RunInv(states, acts, i - 1);
      NextKeeps(states[i - 1], acts[i - 1]);
      assert states[i - 1 + 1] == Next(states[i - 1], acts[i - 1]);
    }
  }

  /** Every thread is in exactly one place, and its status says which. */
  lemma ExactlyOnePlace(states: seq<State>, acts: seq<Act>, i: nat, t: Tid)
    requires IsRun(states, acts) && i <= |acts| && t in states[i].status
    ensures exists p :: At(states[i], t, p)
    ensures forall p, r :: At(states[i], t, p) && At(states[i], t, r) ==> p == r
    ensures forall p :: At(states[i], t, p) ==> states[i].status[t] == StatusAt(p)
  {
    RunInv(states, acts, i);
    var s := states[i];
    match s.status[t]
    case JUST_CREATED => assert At(s, t, Created);
    case RUNNING => assert At(s, t, AtWork);
    case READY => assert At(s, t, OnReadyList);
    case BLOCKED =>
      if t in s.inP {
        assert At(s, t, InQueue(s.inP[t]));
      } else {
        assert At(s, t, Ending);
      }
  }

  /** The assertions of Run, of ~Thread, and of List::Append for the ready list and the queues. */
  lemma AssertsHold(states: seq<State>, acts: seq<Act>, i: nat)
    requires IsRun(states, acts) && i < |acts|
    ensures var s := states[i];
            && (s.phase == Idling(true) && acts[i] == Go ==> s.toBeDestroyed == None)
            && (s.phase.Resumed? && s.toBeDestroyed.Some? ==> s.toBeDestroyed.value != s.current)
            && (acts[i] == CallYield && s.ready != [] ==> s.current !in s.ready)
            && (s.phase.Testing? ==> s.current !in s.sems[s.phase.q].queue)
            && (acts[i].CallV? && s.sems[acts[i].q].queue != [] ==> s.sems[acts[i].q].queue[0] !in s.ready)
  {
    RunInv(states, acts, i);
    var s := states[i];
    if acts[i].CallV? && s.sems[acts[i].q].queue != [] {
      assert s.sems[acts[i].q].queue[0] in s.sems[acts[i].q].queue;
    }
  }

  /** A finished thread is destroyed by the thread that runs next, before that does anything else. */
  lemma DestroyedNext(states: seq<State>, acts: seq<Act>, i: nat)
    requires IsRun(states, acts) && i + 1 < |acts| && states[i].phase == Idling(true) && acts[i] == Go
    ensures states[i + 1].toBeDestroyed == Some(states[i].current)
    ensures states[i].current !in states[i + 2].status && states[i + 2].toBeDestroyed == None
    ensures states[i + 2].current == states[i].ready[0]
  {
  }

  lemma {:induction false} HistoryGrows(states: seq<State>, acts: seq<Act>, i: nat, j: nat)
    requires IsRun(states, acts) && i <= j <= |acts|
    ensures states[i].readied <= states[j].readied && states[i].dispatched <= states[j].dispatched
  {
    if i < j {
      HistoryGrows(states, acts, i, j - 1);
      StepGrows(states, acts, j - 1);
    }
  }

  lemma StepGrows(states: seq<State>, acts: seq<Act>, i: nat)
    requires IsRun(states, acts) && i < |acts|
    ensures states[i].readied <= states[i + 1].readied && states[i].dispatched <= states[i + 1].dispatched
  {
    NextGrows(states[i], acts[i]);
  }

  lemma NextGrows(s: State, a: Act)
    requires CanDo(s, a)
    ensures s.readied <= Next(s, a).readied && s.dispatched <= Next(s, a).dispatched
  {
  }

  /**
   A ready thread with k threads ahead of it is what the (k+1)-th dispatch from then on returns; until
   then it stays on the list, one place further up after each.
  */
  lemma PickedInTurn(states: seq<State>, acts: seq<Act>, i: nat, j: nat, k: nat)
    requires IsRun(states, acts) && i <= j <= |acts| && k < |states[i].ready|
    ensures var d := |states[j].dispatched| - |states[i].dispatched|;
            && d >= 0
            && (d > k ==> states[j].dispatched[|states[i].dispatched| + k] == states[i].ready[k])
            && (d <= k ==> k - d < |states[j].ready| && states[j].ready[k - d] == states[i].ready[k])
  {
    RunInv(states, acts, i);
    RunInv(states, acts, j);
    HistoryGrows(states, acts, i, j);
    var a, b := states[i], states[j];
    var at := |a.dispatched| + k;
    assert a.readied[at] == a.ready[k] && b.readied[at] == a.readied[at];
  }

  // ---------------------------------------------------------------- what the calls of a run do

  /** Yield: the front of the ready list runs, and the caller is last on it; alone, it goes on. */
  lemma YieldTakesTurns(states: seq<State>, acts: seq<Act>, i: nat)
    requires IsRun(states, acts) && i < |acts| && acts[i] == CallYield
    ensures var s, n := states[i], states[i + 1];
            if s.ready == [] then n == s
            else
              && n.current == s.ready[0] && n.phase == Resumed && n.status[n.current] == RUNNING
              && n.ready == s.ready[1..] + [s.current] && n.status[s.current] == READY
              && n.sems == s.sems && n.inP == s.inP && n.dispatched == s.dispatched + [n.current]
  {
    RunInv(states, acts, i);
    assert states[i + 1] == Next(states[i], acts[i]);
  }

  /** The end of Sleep: the front of the ready list runs, off the list; the thread that sleeps keeps its place. */
  lemma DispatchTakesFront(states: seq<State>, acts: seq<Act>, i: nat)
    requires IsRun(states, acts) && i < |acts| && acts[i] == Go && states[i].phase.Idling?
    ensures var s, n := states[i], states[i + 1];
            && s.ready != [] && n.current == s.ready[0] && n.ready == s.ready[1..] && n.phase == Resumed
            && n.status == s.status[n.current := RUNNING] && n.sems == s.sems && n.inP == s.inP
            && n.dispatched == s.dispatched + [n.current]
  {
    assert states[i + 1] == Next(states[i], acts[i]);
  }

  /** A thread that is created waits for its Fork, which makes it ready behind all others. */
  lemma CreatedThenForked(states: seq<State>, acts: seq<Act>, i: nat, t: Tid)
    requires IsRun(states, acts) && i < |acts| && (acts[i] == Create(t) || acts[i] == Fork(t))
    ensures var s, n := states[i], states[i + 1];
            && n.current == s.current && n.phase == s.phase && n.sems == s.sems && n.inP == s.inP
            && n.toBeDestroyed == s.toBeDestroyed
            && n.status == s.status[t := if acts[i].Create? then JUST_CREATED else READY]
            && n.ready == if acts[i].Create? then s.ready else s.ready + [t]
  {
    assert states[i + 1] == Next(states[i], acts[i]);
  }

  /** After Finish the thread is at work no more: it waits to be replaced. */
  lemma FinishEnds(states: seq<State>, acts: seq<Act>, i: nat)
    requires IsRun(states, acts) && i < |acts| && acts[i] == Finish
    ensures At(states[i + 1], states[i].current, Ending) && !At(states[i + 1], states[i].current, AtWork)
    ensures states[i + 1].ready == states[i].ready && states[i + 1].sems == states[i].sems
  {
    assert states[i + 1] == Next(states[i], acts[i]);
  }

  /** A thread is about to be destroyed only after its own Finish. */
  lemma {:induction false} OnlyFinishedEnd(states: seq<State>, acts: seq<Act>, i: nat, t: Tid)
    requires IsRun(states, acts) && i <= |acts| && At(states[i], t, Ending)
    ensures exists k :: 0 <= k < i && acts[k] == Finish && states[k].current == t
  {
    if i > 0 {
      assert states[i - 1 + 1] == Next(states[i - 1], acts[i - 1]);
      if At(states[i - 1], t, Ending) {
        OnlyFinishedEnd(states, acts, i - 1, t);
      } else {
        assert acts[i - 1] == Finish && states[i - 1].current == t;
      }
    }
  }

  // ---------------------------------------------------------------- the semaphores of the kernel

  /** The calls of V on semaphore q. */
  function CallsOfV(acts: seq<Act>, q: nat, i: nat): nat
    requires i <= |acts|
  {
    if i == 0 then 0 else CallsOfV(acts, q, i - 1) + if acts[i - 1] == CallV(q) then 1 else 0
  }

  /** The steps of a run that are steps on semaphore q: a V, or a turn of P by the current thread. */
  function OpsOf(states: seq<State>, acts: seq<Act>, q: nat, i: nat): seq<S.Op>
    requires i <= |acts| < |states|
  {
    if i == 0 then []
    else
      OpsOf(states, acts, q, i - 1)
      + if acts[i - 1] == CallV(q) then [S.V]
        else if acts[i - 1] == Go && states[i - 1].phase == Testing(q) then [S.P(states[i - 1].current)]
        else []
  }

  /** A semaphore with the threads that are inside its P and not asleep. */
  function SemOf(s: State, q: nat): S.Sem
    requires q in s.sems
  {
    S.Sem(s.sems[q].value, s.sems[q].queue, set t | t in s.inP && s.inP[t] == q && t !in s.sems[q].queue)
  }

  lemma GiveIsV(s: State, q: nat)
    requires QueuesOk(s) && q in s.sems
    ensures SemOf(GiveV(s, q), q) == S.StepV(SemOf(s, q))
    ensures forall r :: r in s.sems && r != q ==> SemOf(GiveV(s, q), r) == SemOf(s, r)
  {
    if s.sems[q].queue != [] {
      FrontTaken(s.sems[q].queue);
      assert s.sems[q].queue[0] in s.sems[q].queue;
    }
  }

  lemma TestIsP(s: State, q: nat)
    requires QueuesOk(s) && CurrentOk(s) && s.phase == Testing(q)
    ensures s.current !in SemOf(s, q).queue && SemOf(TestP(s, q), q) == S.PassP(SemOf(s, q), s.current)
    ensures forall r :: r in s.sems && r != q ==> SemOf(TestP(s, q), r) == SemOf(s, r)
  {
  }

  /** Every step of the kernel leaves a semaphore as it is, or is a step of that semaphore. */
  lemma StepOfSem(s: State, a: Act, q: nat)
    requires Inv(s) && CanDo(s, a) && q in s.sems
    ensures q in Next(s, a).sems
    ensures SemOf(Next(s, a), q) ==
              if a == CallV(q) then S.StepV(SemOf(s, q))
              else if a == Go && s.phase == Testing(q) then S.PassP(SemOf(s, q), s.current)
              else SemOf(s, q)
    ensures a == Go && s.phase == Testing(q) ==> s.current !in SemOf(s, q).queue
  {
    if a.CallV? {
      GiveIsV(s, a.q);
    } else if a.Go? && s.phase.Testing? {
      TestIsP(s, s.phase.q);
    }
  }

  lemma OneMoreOp(initial: nat, ops: seq<S.Op>, op: S.Op)
    requires S.IsRun(initial, ops) && S.CanDo(S.After(initial, ops), op)
    ensures S.IsRun(initial, ops + [op]) && S.After(initial, ops + [op]) == S.Do(S.After(initial, ops), op)
    ensures S.Given(ops + [op]) == S.Given(ops) + if op.V? then 1 else 0
  {
    assert S.Front(ops + [op]) == ops;
  }

  /** What is true of a semaphore up to step i of a run. */
  ghost predicate RunsAsSemaphore(states: seq<State>, acts: seq<Act>, q: nat, i: nat)
    requires i <= |acts| < |states| && q in states[0].sems
  {
    && q in states[i].sems
    && var initial, ops := states[0].sems[q].value, OpsOf(states, acts, q, i);
       && S.IsRun(initial, ops) && S.After(initial, ops) == SemOf(states[i], q)
       && S.Given(ops) == CallsOfV(acts, q, i)
  }

  lemma SemaphoreStep(states: seq<State>, acts: seq<Act>, q: nat, i: nat)
    requires IsRun(states, acts) && i < |acts| && q in states[0].sems
    requires RunsAsSemaphore(states, acts, q, i) && Inv(states[i])
    ensures RunsAsSemaphore(states, acts, q, i + 1)
  {
    var s, a, ops := states[i], acts[i], OpsOf(states, acts, q, i);
    assert states[i + 1] == Next(s, a);
    StepOfSem(s, a, q);
    if a == CallV(q) {
      OneMoreOp(states[0].sems[q].value, ops, S.V);
    } else if a == Go && s.phase == Testing(q) {
      OneMoreOp(states[0].sems[q].value, ops, S.P(s.current));
    } else {
      assert OpsOf(states, acts, q, i + 1) == ops;
    }
  }

  /** So every semaphore of the kernel does what module Semaphores says, over every run. */
  lemma {:induction false} IsSemaphoreRun(states: seq<State>, acts: seq<Act>, q: nat, i: nat)
    requires IsRun(states, acts) && i <= |acts| && q in states[0].sems
    ensures RunsAsSemaphore(states, acts, q, i)
  {
    if i == 0 {
      assert SemOf(states[0], q) == S.Fresh(states[0].sems[q].value);
    } else {
      IsSemaphoreRun(states, acts, q, i - 1);
      RunInv(states, acts, i - 1);
      SemaphoreStep(states, acts, q, i - 1);
    }
  }

  /**
   In every run: the value of a semaphore is its initial value plus the calls of V minus the Ps that took a
   unit; and if threads sleep beside units, one inside the same P is ready, or just about to test.
  */
  lemma UnitsConserved(states: seq<State>, acts: seq<Act>, q: nat, i: nat)
    requires IsRun(states, acts) && i <= |acts| && q in states[0].sems
    ensures q in states[i].sems
    ensures states[i].sems[q].value ==
              states[0].sems[q].value + CallsOfV(acts, q, i)
              - S.Taken(states[0].sems[q].value, OpsOf(states, acts, q, i))
    ensures states[i].sems[q].queue != [] && states[i].sems[q].value > 0 ==>
              exists t :: t in states[i].inP && states[i].inP[t] == q
                          && (At(states[i], t, OnReadyList) || At(states[i], t, AtWork))
  {
    IsSemaphoreRun(states, acts, q, i);
    var initial, ops := states[0].sems[q].value, OpsOf(states, acts, q, i);
    S.RunConservesUnits(initial, ops);
    RunInv(states, acts, i);
    if states[i].sems[q].queue != [] && states[i].sems[q].value > 0 {
      S.NoUnitSleptOn(initial, ops);
      var t :| t in SemOf(states[i], q).woken;
      assert At(states[i], t, OnReadyList) || At(states[i], t, AtWork);
    }
  }

  lemma {:induction false} OpsGrow(states: seq<State>, acts: seq<Act>, q: nat, i: nat, j: nat)
    requires IsRun(states, acts) && i <= j <= |acts|
    ensures OpsOf(states, acts, q, i) <= OpsOf(states, acts, q, j)
  {
    if i < j {
      OpsGrow(states, acts, q, i, j - 1);
    }
  }

  lemma LongestIsReady(states: seq<State>, acts: seq<Act>, q: nat, j: nat)
    requires IsRun(states, acts) && j < |acts| && acts[j] == CallV(q)
    ensures q in states[j].sems
    ensures var queue := states[j].sems[q].queue;
            states[j + 1].ready == states[j].ready + if queue == [] then [] else [queue[0]]
  {
    assert states[j + 1] == Next(states[j], acts[j]);
  }

  /** The sleeper with k threads ahead of it, after d calls of V. */
  ghost predicate StillAsleep(a: State, b: State, q: nat, k: nat, d: int) {
    && q in a.sems && q in b.sems && k < |a.sems[q].queue| && 0 <= d <= k
    && k - d < |b.sems[q].queue| && b.sems[q].queue[k - d] == a.sems[q].queue[k]
  }

  lemma SameSemaphore(states: seq<State>, acts: seq<Act>, q: nat, i: nat)
    requires IsRun(states, acts) && i <= |acts| && q in states[0].sems
    ensures q in states[i].sems
    ensures S.After(states[0].sems[q].value, OpsOf(states, acts, q, i)).queue == states[i].sems[q].queue
    ensures S.Given(OpsOf(states, acts, q, i)) == CallsOfV(acts, q, i)
  {
    IsSemaphoreRun(states, acts, q, i);
  }

  lemma OpsMoveUp(initial: nat, was: seq<S.Op>, now: seq<S.Op>, k: nat, d: int)
    requires was <= now && k < |S.After(initial, was).queue| && d == S.Given(now) - S.Given(was) <= k
    ensures d >= 0 && k - d < |S.After(initial, now).queue|
    ensures S.After(initial, now).queue[k - d] == S.After(initial, was).queue[k]
  {
    assert now[..|was|] == was && now[..|now|] == now;
    S.SleeperInTurn(initial, now, |was|, |now|, k);
  }

  lemma MovesUp(states: seq<State>, acts: seq<Act>, q: nat, i: nat, j: nat, k: nat)
    requires IsRun(states, acts) && i <= j <= |acts| && q in states[0].sems
    requires q in states[i].sems && k < |states[i].sems[q].queue|
    requires CallsOfV(acts, q, j) - CallsOfV(acts, q, i) <= k
    ensures StillAsleep(states[i], states[j], q, k, CallsOfV(acts, q, j) - CallsOfV(acts, q, i))
  {
    SameSemaphore(states, acts, q, i);
    SameSemaphore(states, acts, q, j);
    OpsGrow(states, acts, q, i, j);
    var d := CallsOfV(acts, q, j) - CallsOfV(acts, q, i);
    OpsMoveUp(states[0].sems[q].value, OpsOf(states, acts, q, i), OpsOf(states, acts, q, j), k, d);
  }

  /**
   A thread asleep on a semaphore with k threads ahead of it: each V moves it one place up, and the (k+1)-th
   from then on puts it last on the ready list.
  */
  lemma WokenInTurn(states: seq<State>, acts: seq<Act>, q: nat, i: nat, j: nat, k: nat)
    requires IsRun(states, acts) && i <= j <= |acts| && q in states[0].sems
    requires q in states[i].sems && k < |states[i].sems[q].queue|
    requires CallsOfV(acts, q, j) - CallsOfV(acts, q, i) <= k
    ensures StillAsleep(states[i], states[j], q, k, CallsOfV(acts, q, j) - CallsOfV(acts, q, i))
    ensures CallsOfV(acts, q, j) - CallsOfV(acts, q, i) == k && j < |acts| && acts[j] == CallV(q) ==>
              states[j + 1].ready == states[j].ready + [states[i].sems[q].queue[k]]
  {
    MovesUp(states, acts, q, i, j, k);
    if j < |acts| && acts[j] == CallV(q) {
      LongestIsReady(states, acts, q, j);
    }
  }

  // ---------------------------------------------------------------- every P is carried through

  ghost predicate InsideP(s: State, t: Tid, q: nat) {
    (s.current == t && s.phase == Testing(q)) || (t in s.inP && s.inP[t] == q)
  }

  /** The calls of P on q by thread t. */
  function CallsOfP(states: seq<State>, acts: seq<Act>, t: Tid, q: nat, i: nat): nat
    requires i <= |acts| < |states|
  {
    if i == 0 then 0
    else CallsOfP(states, acts, t, q, i - 1) + if acts[i - 1] == CallP(q) && states[i - 1].current == t then 1 else 0
  }

  /** The units that it took. */
  function UnitsTaken(states: seq<State>, acts: seq<Act>, t: Tid, q: nat, i: nat): nat
    requires i <= |acts| < |states|
  {
    if i == 0 then 0
    else
      var s := states[i - 1];
      UnitsTaken(states, acts, t, q, i - 1)
      + if acts[i - 1] == Go && s.current == t && s.phase == Testing(q) && q in s.sems && s.sems[q].value > 0
        then 1 else 0
  }

  lemma InsideStep(s: State, a: Act, t: Tid, q: nat)
    requires Inv(s) && CanDo(s, a)
    ensures (if InsideP(Next(s, a), t, q) then 1 else 0) ==
              (if InsideP(s, t, q) then 1 else 0)
              + (if a == CallP(q) && s.current == t then 1 else 0)
              - (if a == Go && s.current == t && s.phase == Testing(q) && s.sems[q].value > 0 then 1 else 0)
  {
  }

  /** A thread that has called P is inside it until it takes one unit, whatever happens in between. */
  lemma {:induction false} EveryPTakesOne(states: seq<State>, acts: seq<Act>, t: Tid, q: nat, i: nat)
    requires IsRun(states, acts) && i <= |acts|
    ensures CallsOfP(states, acts, t, q, i) ==
              UnitsTaken(states, acts, t, q, i) + if InsideP(states[i], t, q) then 1 else 0
  {
    if i > 0 {
      EveryPTakesOne(states, acts, t, q, i - 1);
      RunInv(states, acts, i - 1);
      assert states[i - 1 + 1] == Next(states[i - 1], acts[i - 1]);
      InsideStep(states[i - 1], acts[i - 1], t, q);
    }
  }
}
