/**
 The scheduler and the operations on threads as methods that change the kernel's state, each up to the
 point where another thread may run (threads/scheduler.cc, threads/thread.cc).
*/
module Kernels {
  import opened Common
  import opened Threads

  /** Handlers call V on these semaphores, one after the other. */
  function GiveAll(s: State, qs: seq<nat>): (r: State)
    requires forall q :: q in qs ==> q in s.sems
    ensures r.sems.Keys == s.sems.Keys && r.phase == s.phase && r.current == s.current
    decreases |qs|
  {
    if qs == [] then s else GiveV(GiveAll(s, qs[..|qs| - 1]), qs[|qs| - 1])
  }

  /** The semaphores of all these calls of V exist. */
  predicate Known(s: State, idle: seq<seq<nat>>) {
    forall n, q :: 0 <= n < |idle| && q in idle[n] ==> q in s.sems
  }

  /** The loop of Sleep; idle[n] is what handlers do in the n-th call of Idle, and at the end the machine halts. */
  function IdleLoop(s: State, idle: seq<seq<nat>>): (r: State)
    requires s.phase.Idling? && Known(s, idle)
    decreases |idle|
  {
    if s.ready != [] then Dispatch(s)
    else if idle == [] then s
    else IdleLoop(GiveAll(s, idle[0]), idle[1..])
  }

  /** One turn of the loop. */
  lemma IdleTurn(s: State, idle: seq<seq<nat>>, n: nat)
    requires s.phase.Idling? && Known(s, idle) && n < |idle| && s.ready == []
    ensures Known(s, idle[n..]) && Known(GiveAll(s, idle[n]), idle) && Known(GiveAll(s, idle[n]), idle[n + 1..])
    ensures IdleLoop(s, idle[n..]) == IdleLoop(GiveAll(s, idle[n]), idle[n + 1..])
  {
    assert idle[n..][0] == idle[n] && idle[n..][1..] == idle[n + 1..];
  }

  lemma {:induction false} GiveAllKeeps(s: State, qs: seq<nat>)
    requires Inv(s) && (s.phase.Idling? || s.phase.Normal?) && forall q :: q in qs ==> q in s.sems
    ensures Inv(GiveAll(s, qs))
    decreases |qs|
  {
    if qs != [] {
      GiveAllKeeps(s, qs[..|qs| - 1]);
      GiveKeeps(GiveAll(s, qs[..|qs| - 1]), qs[|qs| - 1]);
    }
  }

  lemma {:induction false} IdleLoopKeeps(s: State, idle: seq<seq<nat>>)
    requires Inv(s) && s.phase.Idling? && Known(s, idle)
    ensures Inv(IdleLoop(s, idle))
    decreases |idle|
  {
    if s.ready != [] {
      DispatchKeeps(s);
    } else if idle != [] {
      GiveAllKeeps(s, idle[0]);
      IdleLoopKeeps(GiveAll(s, idle[0]), idle[1..]);
    }
  }

  lemma WaiterNotReady(s: State, q: nat)
    requires ReadyOk(s) && QueuesOk(s) && q in s.sems && s.sems[q].queue != []
    ensures s.sems[q].queue[0] !in s.ready
  {
  }

  lemma CurrentNotWaiting(s: State, q: nat)
    requires QueuesOk(s) && CurrentOk(s) && s.phase == Testing(q)
    ensures s.current !in s.sems[q].queue
  {
  }

  /** The calls of V that handlers make in one call of Idle, as acts of module Threads. */
  function AfterVs(s: State, qs: seq<nat>, k: nat): (r: State)
    requires k <= |qs| && s.phase.Idling? && forall q :: q in qs ==> q in s.sems
    ensures r.phase == s.phase && r.sems.Keys == s.sems.Keys
  {
    if k == 0 then s else Next(AfterVs(s, qs, k - 1), CallV(qs[k - 1]))
  }

  lemma GiveNext(s: State, qs: seq<nat>, i: nat)
    requires i < |qs| && forall q :: q in qs ==> q in s.sems
    ensures GiveAll(s, qs[..i + 1]) == GiveV(GiveAll(s, qs[..i]), qs[i])
  {
    assert qs[..i + 1][..i] == qs[..i];
  }

  /** Idle is these acts, one after the other. */
  lemma {:induction false} IdleIsActs(s: State, qs: seq<nat>, k: nat)
    requires k <= |qs| && s.phase.Idling? && forall q :: q in qs ==> q in s.sems
    ensures GiveAll(s, qs[..k]) == AfterVs(s, qs, k)
  {
    if k > 0 {
      IdleIsActs(s, qs, k - 1);
      assert qs[..k][..k - 1] == qs[..k - 1];
    }
  }

  /** The state after n calls of Idle. */
  function AfterIdle(s: State, idle: seq<seq<nat>>, n: nat): (r: State)
    requires n <= |idle| && s.phase.Idling? && Known(s, idle)
    ensures r.phase == s.phase && r.sems.Keys == s.sems.Keys
  {
    if n == 0 then s else AfterVs(AfterIdle(s, idle, n - 1), idle[n - 1], |idle[n - 1]|)
  }

  lemma {:induction false} IdleShifts(s: State, idle: seq<seq<nat>>, n: nat)
    requires 0 < n <= |idle| && s.phase.Idling? && Known(s, idle)
    ensures Known(AfterVs(s, idle[0], |idle[0]|), idle[1..])
    ensures AfterIdle(s, idle, n) == AfterIdle(AfterVs(s, idle[0], |idle[0]|), idle[1..], n - 1)
  {
    if n > 1 {
      IdleShifts(s, idle, n - 1);
    } else {
      assert AfterIdle(s, idle, 0) == s;
    }
  }

  lemma OneIdle(s: State, idle: seq<seq<nat>>)
    requires s.phase.Idling? && Known(s, idle) && idle != [] && s.ready == []
    ensures Known(AfterVs(s, idle[0], |idle[0]|), idle[1..])
    ensures IdleLoop(s, idle) == IdleLoop(AfterVs(s, idle[0], |idle[0]|), idle[1..])
  {
    IdleIsActs(s, idle[0], |idle[0]|);
    assert idle[0][..|idle[0]|] == idle[0];
  }

  /** How the loop ends after n calls of Idle: with a thread dispatched, or halted. */
  predicate EndsWith(s: State, idle: seq<seq<nat>>, n: nat, end: State)
    requires n <= |idle| && s.phase.Idling? && Known(s, idle)
  {
    var e := AfterIdle(s, idle, n);
    if e.ready != [] then end == Next(e, Go) else n == |idle| && end == e
  }

  lemma EndsNow(s: State, idle: seq<seq<nat>>)
    requires s.phase.Idling? && Known(s, idle) && (s.ready != [] || idle == [])
    ensures EndsWith(s, idle, 0, IdleLoop(s, idle))
  {
    assert AfterIdle(s, idle, 0) == s;
  }

  lemma EndsLater(s: State, idle: seq<seq<nat>>, t: State, k: nat)
    requires s.phase.Idling? && Known(s, idle) && idle != [] && s.ready == []
    requires t == AfterVs(s, idle[0], |idle[0]|) && Known(t, idle[1..])
    requires k < |idle| && EndsWith(t, idle[1..], k, IdleLoop(t, idle[1..]))
    ensures EndsWith(s, idle, k + 1, IdleLoop(s, idle))
  {
    OneIdle(s, idle);
    IdleShifts(s, idle, k + 1);
  }

  /** The calls of Idle until a thread is ready. */
  function IdleCalls(s: State, idle: seq<seq<nat>>): (n: nat)
    requires s.phase.Idling? && Known(s, idle)
    ensures n <= |idle|
    decreases |idle|
  {
    if s.ready != [] || idle == [] then 0
    else
      OneIdle(s, idle);
      1 + IdleCalls(AfterVs(s, idle[0], |idle[0]|), idle[1..])
  }

  /** Sleep calls Idle only while no thread is ready. */
  lemma {:induction false} NoneReadyBefore(s: State, idle: seq<seq<nat>>, m: nat)
    requires s.phase.Idling? && Known(s, idle) && m < IdleCalls(s, idle)
    ensures AfterIdle(s, idle, m).ready == []
    decreases |idle|
  {
    OneIdle(s, idle);
    if m > 0 {
      NoneReadyBefore(AfterVs(s, idle[0], |idle[0]|), idle[1..], m - 1);
      IdleShifts(s, idle, m);
    }
  }

  /**
   The loop of Sleep is a run of module Threads: handlers call V for as long as no thread is ready; then the
   front of the ready list is dispatched, unless the machine halts.
  */
  lemma {:induction false} IdleLoopIsActs(s: State, idle: seq<seq<nat>>)
    requires s.phase.Idling? && Known(s, idle)
    ensures EndsWith(s, idle, IdleCalls(s, idle), IdleLoop(s, idle))
    decreases |idle|
  {
    if s.ready != [] || idle == [] {
      EndsNow(s, idle);
    } else {
      OneIdle(s, idle);
      var t := AfterVs(s, idle[0], |idle[0]|);
      IdleLoopIsActs(t, idle[1..]);
      EndsLater(s, idle, t, IdleCalls(t, idle[1..]));
    }
  }

  class Kernel {
    var currentThread: Tid
    var status: map<Tid, ThreadStatus>     // the status of every Thread object that exists
    var readyList: seq<Tid>
    var toBeDestroyed: Option<Tid>
    var sems: map<nat, Sema>
    ghost var phase: Phase
    ghost var inP: map<Tid, nat>
    ghost var readied: seq<Tid>
    ghost var dispatched: seq<Tid>

    ghost function View(): State
      reads this
    {
      State(currentThread, phase, status, readyList, toBeDestroyed, sems, inP, readied, dispatched)
    }

    constructor (main: Tid, initial: map<nat, nat>)
      ensures IsStart(View()) && Inv(View()) && currentThread == main
      ensures sems.Keys == initial.Keys && forall q :: q in initial ==> sems[q].value == initial[q]
    {
      currentThread, status, readyList, toBeDestroyed := main, map[main := RUNNING], [], None;
      sems, inP := map q | q in initial :: Sema(initial[q], []), map[];
      phase, readied, dispatched := Normal, [], [];
    }

    method ReadyToRun(thread: Tid)
      requires thread !in readyList
      modifies this`status, this`readyList, this`readied
      ensures View() == Threads.ReadyToRun(old(View()), thread)
    {
      status := status[thread := READY];
      readyList := readyList + [thread];
      readied := readied + [thread];
    }

    method FindNextToRun() returns (next: Option<Tid>)
      modifies this`readyList, this`dispatched
      ensures old(readyList) == [] ==> next == None && View() == old(View())
      ensures old(readyList) != [] ==> next == Some(old(readyList)[0]) && View() == TakeNext(old(View()))
    {
      if readyList == [] {
        return None;
      }
      next := Some(readyList[0]);
      readyList := readyList[1..];
      dispatched := dispatched + [next.value];
    }

    method Run(nextThread: Tid, finishing: bool)
      requires finishing ==> toBeDestroyed == None
      modifies this`toBeDestroyed, this`currentThread, this`status, this`phase
      ensures View() == Threads.Run(old(View()), nextThread, finishing)
    {
      var oldThread := currentThread;
      if finishing {
        toBeDestroyed := Some(oldThread);
      }
      currentThread := nextThread;
      status := status[nextThread := RUNNING];
      phase := Resumed;
    }

    /** ~Thread asserts that the thread is not the current one. */
    method CheckToBeDestroyed()
      requires toBeDestroyed != Some(currentThread)
      modifies this`toBeDestroyed, this`status
      ensures View() == Threads.CheckToBeDestroyed(old(View()))
    {
      if toBeDestroyed.Some? {
        assert toBeDestroyed.value != currentThread;
        status := status - {toBeDestroyed.value};
        toBeDestroyed := None;
      }
    }

    /** Run behind SWITCH, or Begin. */
    method AfterSwitch()
      requires Inv(View()) && phase == Resumed
      modifies this
      ensures View() == Resume(old(View())) && Inv(View())
    {
      ResumeKeeps(View());
      CheckToBeDestroyed();
      phase := if currentThread in inP then Testing(inP[currentThread]) else Normal;
    }

    method Fork(thread: Tid)
      requires Inv(View()) && phase == Normal && thread in status && status[thread] == JUST_CREATED
      modifies this
      ensures View() == Threads.ReadyToRun(old(View()), thread) && Inv(View())
    {
      ForkKeeps(View(), thread);
      ReadyToRun(thread);
    }

    method Yield()
      requires Inv(View()) && phase == Normal
      modifies this
      ensures View() == Threads.Yield(old(View())) && Inv(View())
    {
      YieldKeeps(View());
      var nextThread := FindNextToRun();
      if nextThread.Some? {
        assert currentThread !in old(readyList);
        ReadyToRun(currentThread);
        Run(nextThread.value, false);
      }
    }

    /** Interrupt::Idle, as far as the threads go: handlers call V. */
    method Idle(qs: seq<nat>)
      requires Inv(View()) && phase.Idling? && forall q :: q in qs ==> q in sems
      modifies this
      ensures View() == GiveAll(old(View()), qs) && Inv(View())
    {
      ghost var start := View();
      var i := 0;
      while i < |qs|
        invariant 0 <= i <= |qs| && Inv(View()) && phase.Idling? && sems.Keys == start.sems.Keys
        invariant View() == GiveAll(start, qs[..i])
      {
        GiveNext(start, qs, i);
        V(qs[i]);
        i := i + 1;
      }
      assert qs[..i] == qs;
    }

    /** The loop of Sleep. */
    method IdleUntilReady(finishing: bool, idle: seq<seq<nat>>) returns (ghost rest: seq<seq<nat>>)
      requires Inv(View()) && phase == Idling(finishing)
      requires Known(View(), idle)
      modifies this
      ensures Inv(View()) && phase == Idling(finishing) && (readyList == [] ==> rest == [])
      ensures Known(View(), rest) && IdleLoop(View(), rest) == IdleLoop(old(View()), idle)
    {
      ghost var end := IdleLoop(View(), idle);
      var n := 0;
      assert idle[n..] == idle;
      while readyList == [] && n < |idle|
        invariant 0 <= n <= |idle| && Inv(View()) && phase == Idling(finishing)
        invariant Known(View(), idle) && Known(View(), idle[n..]) && IdleLoop(View(), idle[n..]) == end
        decreases |idle| - n
      {
        IdleTurn(View(), idle, n);
        Idle(idle[n]);
        n := n + 1;
      }
      rest := idle[n..];
    }

    /** Sleep once the status is set: wait for a thread to run, and run it. */
    method SleepLoop(finishing: bool, idle: seq<seq<nat>>)
      requires Inv(View()) && phase == Idling(finishing)
      requires Known(View(), idle)
      modifies this
      ensures View() == IdleLoop(old(View()), idle) && Inv(View())
    {
      IdleLoopKeeps(View(), idle);
      ghost var rest := IdleUntilReady(finishing, idle);
      var next := FindNextToRun();
      if next.Some? {
        Run(next.value, finishing);
      }
    }

    /** Finish: the thread goes to sleep for good. */
    method Finish(idle: seq<seq<nat>>)
      requires Inv(View()) && phase == Normal
      requires Known(View(), idle)
      modifies this
      ensures View() == IdleLoop(Threads.Sleep(old(View()), true), idle) && Inv(View())
    {
      FinishKeeps(View());
      status := status[currentThread := BLOCKED];
      phase := Idling(true);
      SleepLoop(true, idle);
    }

    /** Semaphore::P from the test of the value on, up to where it sleeps or has its unit. */
    method P(q: nat, idle: seq<seq<nat>>)
      requires Inv(View()) && phase == Testing(q)
      requires Known(View(), idle)
      modifies this
      ensures Inv(View())
      ensures View() == if old(sems[q].value) == 0 then IdleLoop(TestP(old(View()), q), idle) else TestP(old(View()), q)
    {
      TestKeeps(View());
      CurrentNotWaiting(View(), q);
      if sems[q].value == 0 {
        Enqueue(q);
        SleepLoop(false, idle);
      } else {
        TakeUnit(q);
      }
    }

    /** P without a unit: queue->Append(currentThread), and Sleep sets the status. */
    method Enqueue(q: nat)
      requires q in sems && sems[q].value == 0 && currentThread !in sems[q].queue
      modifies this
      ensures View() == TestP(old(View()), q)
    {
      sems := sems[q := Sema(0, sems[q].queue + [currentThread])];
      inP := inP[currentThread := q];
      status := status[currentThread := BLOCKED];
      phase := Idling(false);
    }

    method TakeUnit(q: nat)
      requires q in sems && sems[q].value > 0
      modifies this
      ensures View() == TestP(old(View()), q)
    {
      sems := sems[q := Sema(sems[q].value - 1, sems[q].queue)];
      inP := inP - {currentThread};
      phase := Normal;
    }

    /** Semaphore::V, by the current thread or by an interrupt handler. */
    method V(q: nat)
      requires Inv(View()) && (phase == Normal || phase.Idling?) && q in sems
      modifies this`sems, this`status, this`readyList, this`readied
      ensures View() == GiveV(old(View()), q) && Inv(View())
    {
      GiveKeeps(View(), q);
      if sems[q].queue != [] {
        WaiterNotReady(View(), q);
      }
      Give(q);
    }

    method Give(q: nat)
      requires q in sems && (sems[q].queue != [] ==> sems[q].queue[0] !in readyList)
      modifies this`sems, this`status, this`readyList, this`readied
      ensures View() == GiveV(old(View()), q)
    {
      var m := sems[q];
      if m.queue != [] {
        ReadyToRun(m.queue[0]);
        m := m.(queue := m.queue[1..]);
      }
      sems := sems[q := m.(value := m.value + 1)];
    }
  }
}
