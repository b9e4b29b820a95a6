/**
 threads/synchlist.cc: a list that any number of producers and consumers share. Append and RemoveFront
 are programs over the monitor of module Monitors; a step of one thread is a step of that monitor or
 a piece of Append or RemoveFront between two of its calls.
*/
module SynchLists {
  import opened Common
  import opened Semaphores
  import opened Monitors

  /** Where a thread is in Append or RemoveFront; `Monitors.Pc` says where it is inside a lock or condition call. */
  datatype Loc<T> =
    | Idle
    | Adding(x: T)     // Append: lock->Acquire(), then list->Append(x)
    | Added            //   about to Signal
    | Removing         // RemoveFront: lock->Acquire(), then the loop with Wait
    | Taking           //   the list was not empty, about to take its front
    | Leaving          // Signal or the removal done: lock->Release()

  datatype SynchList<T> = SynchList(m: State, list: seq<T>, loc: map<Tid, Loc<T>>)

  datatype Act<T> = CallAppend(x: T) | CallRemoveFront | Run

  /** The next call of the program when the thread is in the monitor. */
  function Call<T>(s: SynchList<T>, t: Tid): Move
    requires t in s.m.pcs && t in s.loc
  {
    if !s.m.pcs[t].In? then Go
    else if s.loc[t].Added? then Signal
    else if s.loc[t].Removing? then Wait
    else Release
  }

  /** The step works on the list only, between two calls to lock or condition. */
  predicate OnList<T>(s: SynchList<T>, t: Tid)
    requires t in s.m.pcs && t in s.loc
  {
    && s.m.pcs[t].In?
    && (s.loc[t].Adding? || s.loc[t].Taking? || (s.loc[t].Removing? && s.list != []))
  }

  predicate CanAct<T>(s: SynchList<T>, t: Tid, a: Act<T>) {
    && t in s.m.pcs && t in s.loc
    && (if a.Run? then !s.loc[t].Idle? && (OnList(s, t) || Enabled(s.m, t, Call(s, t)))
        else s.loc[t].Idle? && Enabled(s.m, t, Acquire))
  }

  function ListStep<T>(s: SynchList<T>, t: Tid): SynchList<T>
    requires t in s.m.pcs && t in s.loc && OnList(s, t)
  {
    match s.loc[t]
    case Adding(x) => s.(list := s.list + [x], loc := s.loc[t := Added])
    case Taking =>
      if s.list == [] then s else s.(list := s.list[1..], loc := s.loc[t := Leaving])
    case _ => s.(loc := s.loc[t := Taking])
  }

  function LocAfter<T>(s: SynchList<T>, t: Tid, m: State): Loc<T>
    requires t in s.m.pcs && t in s.loc && t in m.pcs
  {
    if m.pcs[t].Out? then Idle
    else if s.loc[t].Added? then Leaving
    else s.loc[t]
  }

  function CallStep<T>(s: SynchList<T>, t: Tid): SynchList<T>
    requires t in s.m.pcs && t in s.loc && Enabled(s.m, t, Call(s, t))
  {
    var m := Next(s.m, t, Call(s, t));
    if t !in m.pcs then s else s.(m := m, loc := s.loc[t := LocAfter(s, t, m)])
  }

  function Perform<T>(s: SynchList<T>, t: Tid, a: Act<T>): SynchList<T>
    requires CanAct(s, t, a)
  {
    match a
    case CallAppend(x) => s.(m := Next(s.m, t, Acquire), loc := s.loc[t := Adding(x)])
    case CallRemoveFront => s.(m := Next(s.m, t, Acquire), loc := s.loc[t := Removing])
    case Run => if OnList(s, t) then ListStep(s, t) else CallStep(s, t)
  }

  function Empty<T>(threads: set<Tid>): SynchList<T> {
    SynchList(Monitors.Init(threads), [], map t | t in threads :: Idle)
  }

  // ---------------------------------------------------------------- invariant

  predicate LocOk<T>(pc: Pc, loc: Loc<T>, list: seq<T>) {
    match loc
    case Idle => pc.Out?
    case Adding(_) => pc == AcqTest(None) || pc == AcqAsleep(None) || pc == AcqGot(None) || pc.In?
    case Added => pc.In?
    case Removing =>
      pc.AcqTest? || pc.AcqAsleep? || pc.AcqGot? || pc.In? || pc.Dispose?
      || (pc.RelV? && pc.next.Some?) || pc.WaitTest? || pc.WaitAsleep?
    case Taking => pc.In? && list != []
    case Leaving => pc.In? || pc == RelV(None) || (pc.SigV? && pc.ret.ToCaller?) || (pc.SigRet? && pc.ret.ToCaller?)
  }

  /** Consumers inside Wait whose semaphore has been taken off the condition's queue. */
  function Notified(m: State): set<Tid> {
    set t | t in m.pcs && Ticket(m.pcs[t]).Some? && Ticket(m.pcs[t]).value !in m.waitQ
  }

  /** The thread in the monitor has a signal still to send, or will look at the list before it leaves. */
  predicate Attends<T>(s: SynchList<T>) {
    && s.m.owner.Some? && s.m.owner.value in s.m.pcs && s.m.owner.value in s.loc
    && s.m.pcs[s.m.owner.value].In?
    && var l := s.loc[s.m.owner.value]; l.Added? || l.Removing? || l.Taking?
  }

  ghost predicate ListInv<T>(s: SynchList<T>) {
    && s.loc.Keys == s.m.pcs.Keys
    && (forall t :: t in s.loc ==> LocOk(s.m.pcs[t], s.loc[t], s.list))
    && WakeupOk(s)
  }

  ghost predicate Inv<T>(s: SynchList<T>) {
    Monitors.Inv(s.m) && ListInv(s)
  }

  lemma SameNotified(s: State, n: State)
    requires n.pcs.Keys == s.pcs.Keys && n.waitQ == s.waitQ
    requires forall x :: x in s.pcs ==> Ticket(n.pcs[x]) == Ticket(s.pcs[x])
    ensures Notified(n) == Notified(s)
  {
  }

  lemma NotifiedSignal(s: State, t: Tid)
    requires TicketInv(s) && t in s.pcs && s.pcs[t].In? && s.waitQ != []
    ensures |Notified(SignalStep(s, t))| == |Notified(s)| + 1
  {
    var n, w := SignalStep(s, t), s.waitQ[0];
    assert s.waitQ == [w] + n.waitQ;
    assert w in s.waitQ && w !in n.waitQ;
    assert w.caller !in Notified(s);
    assert Notified(n) == Notified(s) + {w.caller};
  }

  lemma NotifiedWait(s: State, t: Tid)
    requires TicketInv(s) && t in s.pcs && s.pcs[t].In?
    ensures Notified(WaitStep(s, t)) == Notified(s)
  {
  }

  lemma NotifiedDispose(s: State, t: Tid)
    requires WaitersInv(s) && TicketInv(s) && t in s.pcs && s.pcs[t].Dispose?
    ensures |Notified(DisposeStep(s, t, s.pcs[t].w))| == |Notified(s)| - 1
  {
    assert WaiterOk(s, s.pcs[t].w);
    assert Notified(DisposeStep(s, t, s.pcs[t].w)) == Notified(s) - {t};
    RemoveSize(Notified(s), t);
  }

  /** By how much a step changes the number of notified consumers. */
  function NotifiedChange(s: State, t: Tid, k: Move): int
    requires Enabled(s, t, k)
  {
    if s.pcs[t].In? && k == Signal && s.waitQ != [] then 1 else if s.pcs[t].Dispose? then -1 else 0
  }

  lemma TicketsStay(s: State, t: Tid, k: Move)
    requires Enabled(s, t, k) && !s.pcs[t].Bcast? && !s.pcs[t].Dispose? && !s.pcs[t].RelV? && !s.pcs[t].SigV?
    requires !(s.pcs[t].In? && (k == Wait || (k == Signal && s.waitQ != [])))
    ensures Notified(Next(s, t, k)) == Notified(s)
  {
  }

  /** Only Signal adds to the notified consumers, and only the end of Wait takes one away. */
  lemma NotifiedNext(s: State, t: Tid, k: Move)
    requires LockInv(s) && TicketInv(s) && WaitersInv(s) && SignalInv(s) && Enabled(s, t, k) && !s.pcs[t].Bcast?
    ensures |Notified(Next(s, t, k))| == |Notified(s)| + NotifiedChange(s, t, k)
  {
    if s.pcs[t].In? && k == Wait {
      NotifiedWait(s, t);
    } else if s.pcs[t].In? && k == Signal && s.waitQ != [] {
      NotifiedSignal(s, t);
    } else if s.pcs[t].Dispose? {
      NotifiedDispose(s, t);
    } else if s.pcs[t].RelV? {
      NotifiedRelV(s, t);
    } else if s.pcs[t].SigV? {
      NotifiedSigV(s, t);
    } else {
      TicketsStay(s, t, k);
    }
  }

  lemma NotifiedRelV(s: State, t: Tid)
    requires LockInv(s) && t in s.pcs && s.pcs[t].RelV?
    ensures Notified(RelVStep(s, t, s.pcs[t].next)) == Notified(s)
  {
  }

  lemma NotifiedSigV(s: State, t: Tid)
    requires TicketInv(s) && WaitersInv(s) && SignalInv(s) && s.owner == Some(t) && t in s.pcs && s.pcs[t].SigV?
    ensures Notified(SigVStep(s, t, s.pcs[t].w, s.pcs[t].ret)) == Notified(s)
  {
    SigVMoves(s, t);
    SameNotified(s, SigVStep(s, t, s.pcs[t].w, s.pcs[t].ret));
  }

  // ---------------------------------------------------------------- every step keeps it

  lemma EmptyInv<T>(threads: set<Tid>)
    ensures Inv(Empty<T>(threads))
  {
  }

  lemma OwnLoc<T>(s: SynchList<T>, t: Tid)
    requires t in s.m.pcs && t in s.loc && LocOk(s.m.pcs[t], s.loc[t], s.list)
    requires CanAct(s, t, Run) && !OnList(s, t)
    ensures t in Next(s.m, t, Call(s, t)).pcs
    ensures LocOk(CallStep(s, t).m.pcs[t], CallStep(s, t).loc[t], s.list)
  {
  }

  lemma CallKeepsLocs<T>(s: SynchList<T>, t: Tid)
    requires s.loc.Keys == s.m.pcs.Keys && forall u :: u in s.loc ==> LocOk(s.m.pcs[u], s.loc[u], s.list)
    requires CanAct(s, t, Run) && !OnList(s, t)
    ensures CallStep(s, t).loc.Keys == CallStep(s, t).m.pcs.Keys
    ensures forall u :: u in CallStep(s, t).loc ==> LocOk(CallStep(s, t).m.pcs[u], CallStep(s, t).loc[u], s.list)
  {
    var n := CallStep(s, t);
    OwnLoc(s, t);
    forall u | u in s.loc ensures u in n.m.pcs && u in n.loc && LocOk(n.m.pcs[u], n.loc[u], s.list) {
      if u != t {
        OthersStay(s.m, t, Call(s, t), u);
      }
    }
    assert n.m.pcs.Keys == s.m.pcs.Keys by {
      if u :| u in s.m.pcs && u != t {
        OthersStay(s.m, t, Call(s, t), u);
      }
    }
  }

  /**
   While consumers are queued, those notified are as many as the items, but for one item that the thread
   in the monitor attends to.
  */
  ghost predicate WakeupOk<T>(s: SynchList<T>) {
    s.m.waitQ != [] ==> |s.list| <= |Notified(s.m)| + if Attends(s) then 1 else 0
  }

  /** No wakeup is lost when a thread takes a step of the monitor. */
  lemma OwnerKeepsWakeup<T>(s: SynchList<T>, t: Tid, n: SynchList<T>)
    requires OwnerInv(s.m) && s.m.owner == Some(t) && CanAct(s, t, Run) && !OnList(s, t) && n == CallStep(s, t)
    requires LocOk(s.m.pcs[t], s.loc[t], s.list) && s.loc.Keys == s.m.pcs.Keys && WakeupOk(s)
    requires |Notified(n.m)| == |Notified(s.m)| + NotifiedChange(s.m, t, Call(s, t))
    ensures WakeupOk(n)
  {
    OwnLoc(s, t);
  }

  lemma OthersKeepWakeup<T>(s: SynchList<T>, t: Tid, n: SynchList<T>)
    requires OwnerInv(s.m) && s.m.owner != Some(t) && CanAct(s, t, Run) && !OnList(s, t) && n == CallStep(s, t)
    requires OwnerInv(n.m) && s.loc.Keys == s.m.pcs.Keys && WakeupOk(s)
    requires |Notified(n.m)| == |Notified(s.m)| + NotifiedChange(s.m, t, Call(s, t))
    ensures WakeupOk(n)
  {
    assert n.m.waitQ == s.m.waitQ && NotifiedChange(s.m, t, Call(s, t)) == 0;
    if s.m.owner.Some? {
      OthersStay(s.m, t, Call(s, t), s.m.owner.value);
      assert n.m.owner == s.m.owner;
    }
  }

  lemma CallKeeps<T>(s: SynchList<T>, t: Tid)
    requires Inv(s) && CanAct(s, t, Run) && !OnList(s, t)
    ensures Inv(CallStep(s, t))
  {
    NextKeeps(s.m, t, Call(s, t));
    CallKeepsLocs(s, t);
    NotifiedNext(s.m, t, Call(s, t));
    if s.m.owner == Some(t) {
      OwnerKeepsWakeup(s, t, CallStep(s, t));
    } else {
      OthersKeepWakeup(s, t, CallStep(s, t));
    }
  }

  lemma ListKeeps<T>(s: SynchList<T>, t: Tid)
    requires Inv(s) && CanAct(s, t, Run) && OnList(s, t)
    ensures Inv(ListStep(s, t))
  {
    var n := ListStep(s, t);
    assert s.m.owner == Some(t);
    assert n.m == s.m;
  }

  lemma StartKeeps<T>(s: SynchList<T>, t: Tid, a: Act<T>)
    requires Inv(s) && CanAct(s, t, a) && !a.Run?
    ensures Inv(Perform(s, t, a))
  {
    OutKeeps(s.m, t);
    StartKeepsList(s, t, a);
  }

  lemma StartKeepsList<T>(s: SynchList<T>, t: Tid, a: Act<T>)
    requires Inv(s) && CanAct(s, t, a) && !a.Run?
    ensures ListInv(Perform(s, t, a))
  {
    SameNotified(s.m, Next(s.m, t, Acquire));
  }

  lemma PerformKeeps<T>(s: SynchList<T>, t: Tid, a: Act<T>)
    requires Inv(s) && CanAct(s, t, a)
    ensures Inv(Perform(s, t, a))
  {
    if !a.Run? {
      StartKeeps(s, t, a);
    } else if OnList(s, t) {
      ListKeeps(s, t);
    } else {
      CallKeeps(s, t);
    }
  }

  // ---------------------------------------------------------------- whole runs

  datatype Event<T> = Event(t: Tid, a: Act<T>)

  ghost predicate IsRun<T>(threads: set<Tid>, states: seq<SynchList<T>>, events: seq<Event<T>>) {
    && |states| == |events| + 1
    && states[0] == Empty(threads)
    && forall i :: 0 <= i < |events| ==>
         CanAct(states[i], events[i].t, events[i].a) && states[i + 1] == Perform(states[i], events[i].t, events[i].a)
  }

  lemma {:induction false} RunInv<T>(threads: set<Tid>, states: seq<SynchList<T>>, events: seq<Event<T>>, i: nat)
    requires IsRun(threads, states, events) && i < |states|
    ensures Inv(states[i])
  {
    if i == 0 {
      EmptyInv<T>(threads);
    } else {
      RunInv(threads, states, events, i - 1);
      var s, e := states[i - 1], events[i - 1];
      assert CanAct(s, e.t, e.a) && states[i] == Perform(s, e.t, e.a);
      PerformKeeps(s, e.t, e.a);
    }
  }

  // ---------------------------------------------------------------- what goes in and comes out

  /** The step is list->Append in the program of Append, with item x. */
  predicate Adds<T(==)>(s: SynchList<T>, e: Event<T>, x: T) {
    e.t in s.loc && s.loc[e.t] == Adding(x) && e.a.Run? && e.t in s.m.pcs && s.m.pcs[e.t].In?
  }

  /** The step is list->RemoveFront in the program of RemoveFront. */
  predicate Takes<T>(s: SynchList<T>, e: Event<T>) {
    e.t in s.loc && s.loc[e.t].Taking? && e.a.Run? && s.list != []
  }

  predicate By(who: Option<Tid>, t: Tid) {
    who == None || who == Some(t)
  }

  /** The items put on the list in the first i steps, by one thread or by any. */
  function AddedBy<T(==)>(states: seq<SynchList<T>>, events: seq<Event<T>>, who: Option<Tid>, i: nat): seq<T>
    requires i <= |events| < |states|
  {
    if i == 0 then []
    else
      var s, e := states[i - 1], events[i - 1];
      AddedBy(states, events, who, i - 1)
      + if e.t in s.loc && s.loc[e.t].Adding? && Adds(s, e, s.loc[e.t].x) && By(who, e.t) then [s.loc[e.t].x] else []
  }

  /** The items taken off the list, which RemoveFront returns. */
  function TakenBy<T>(states: seq<SynchList<T>>, events: seq<Event<T>>, who: Option<Tid>, i: nat): seq<T>
    requires i <= |events| < |states|
  {
    if i == 0 then []
    else
      var s, e := states[i - 1], events[i - 1];
      TakenBy(states, events, who, i - 1) + if Takes(s, e) && By(who, e.t) then [s.list[0]] else []
  }

  /** The items with which a thread has called Append. */
  function Given<T>(events: seq<Event<T>>, t: Tid, i: nat): seq<T>
    requires i <= |events|
  {
    if i == 0 then []
    else
      var e := events[i - 1];
      Given(events, t, i - 1) + if e.t == t && e.a.CallAppend? then [e.a.x] else []
  }

  /** Its calls of RemoveFront. */
  function Asked<T>(events: seq<Event<T>>, t: Tid, i: nat): nat
    requires i <= |events|
  {
    if i == 0 then 0
    else
      var e := events[i - 1];
      Asked(events, t, i - 1) + if e.t == t && e.a.CallRemoveFront? then 1 else 0
  }

  /** What the step does to the list. */
  predicate ListMoves<T(==)>(s: SynchList<T>, e: Event<T>, n: seq<T>) {
    n == if e.t in s.loc && s.loc[e.t].Adding? && Adds(s, e, s.loc[e.t].x) then s.list + [s.loc[e.t].x]
         else if Takes(s, e) then s.list[1..] else s.list
  }

  lemma ListAt<T>(threads: set<Tid>, states: seq<SynchList<T>>, events: seq<Event<T>>, i: nat)
    requires IsRun(threads, states, events) && i < |events|
    ensures ListMoves(states[i], events[i], states[i + 1].list)
  {
    RunInv(threads, states, events, i);
    assert states[i + 1] == Perform(states[i], events[i].t, events[i].a);
  }

  ghost predicate TakenFirst<T>(states: seq<SynchList<T>>, events: seq<Event<T>>, i: nat)
    requires i <= |events| < |states|
  {
    AddedBy(states, events, None, i) == TakenBy(states, events, None, i) + states[i].list
  }

  lemma TakenKept<T>(states: seq<SynchList<T>>, events: seq<Event<T>>, i: nat)
    requires i < |events| < |states| && TakenFirst(states, events, i)
    requires ListMoves(states[i], events[i], states[i + 1].list)
    ensures TakenFirst(states, events, i + 1)
  {
    var l := states[i].list;
    assert l != [] ==> l == [l[0]] + l[1..];
  }

  /** In every run: what was taken, followed by the list, is what was added. */
  lemma {:induction false} TakenThenList<T>(
    threads: set<Tid>, states: seq<SynchList<T>>, events: seq<Event<T>>, i: nat)
    requires IsRun(threads, states, events) && i <= |events|
    ensures TakenFirst(states, events, i)
  {
    if i > 0 {
      TakenThenList(threads, states, events, i - 1);
      ListAt(threads, states, events, i - 1);
      TakenKept(states, events, i - 1);
    }
  }

  lemma {:induction false} AddedGrows<T>(states: seq<SynchList<T>>, events: seq<Event<T>>, i: nat, j: nat)
    requires i <= j <= |events| < |states|
    ensures AddedBy(states, events, None, i) <= AddedBy(states, events, None, j)
  {
    if i < j {
      AddedGrows(states, events, i, j - 1);
    }
  }

  /**
   In every interleaving of any number of producers and consumers the items taken so far, followed by
   the list, are the items added, in the order in which the lock was held; so an item taken as the k-th
   is for good the item added as the k-th.
  */
  lemma FirstInFirstOut<T>(
    threads: set<Tid>, states: seq<SynchList<T>>, events: seq<Event<T>>, i: nat, j: nat, k: nat)
    requires IsRun(threads, states, events) && i <= j <= |events|
    ensures AddedBy(states, events, None, i) == TakenBy(states, events, None, i) + states[i].list
    ensures var taken, added := TakenBy(states, events, None, i), AddedBy(states, events, None, j);
            k < |taken| ==> k < |added| && added[k] == taken[k]
  {
    TakenThenList(threads, states, events, i);
    AddedGrows(states, events, i, j);
  }

  /** Where a thread in these programs goes. */
  predicate LocMoves<T(==)>(s: SynchList<T>, e: Event<T>, t: Tid, n: Loc<T>)
    requires t in s.loc
  {
    var l := s.loc[t];
    if e.t != t then n == l
    else if e.a.CallAppend? then l.Idle? && n == Adding(e.a.x)
    else if e.a.CallRemoveFront? then l.Idle? && n == Removing
    else if l.Adding? && Adds(s, e, l.x) then n == Added
    else if Takes(s, e) then n == Leaving
    else
      && (l.Adding? || n.Adding? ==> n == l)
      && (l.Removing? || l.Taking? <==> n.Removing? || n.Taking?)
  }

  lemma CallMoves<T>(s: SynchList<T>, t: Tid)
    requires t in s.m.pcs && t in s.loc && LocOk(s.m.pcs[t], s.loc[t], s.list)
    requires CanAct(s, t, Run) && !OnList(s, t)
    ensures var l, n := s.loc[t], CallStep(s, t).loc;
            t in n && (n[t] == l || (l.Added? && n[t] == Leaving) || (l.Leaving? && n[t] == Idle))
  {
  }

  lemma LocAt<T>(threads: set<Tid>, states: seq<SynchList<T>>, events: seq<Event<T>>, i: nat, t: Tid)
    requires IsRun(threads, states, events) && i < |events| && t in states[i].loc
    ensures t in states[i + 1].loc && LocMoves(states[i], events[i], t, states[i + 1].loc[t])
  {
    RunInv(threads, states, events, i);
    var s, e := states[i], events[i];
    assert states[i + 1] == Perform(s, e.t, e.a);
    assert LocOk(s.m.pcs[e.t], s.loc[e.t], s.list);
    if e.a.Run? && !OnList(s, e.t) {
      CallMoves(s, e.t);
    }
  }

  /** The items a thread has called Append with are those it has put on the list, and the one it is about to. */
  ghost predicate AllAdded<T>(states: seq<SynchList<T>>, events: seq<Event<T>>, i: nat, t: Tid)
    requires i <= |events| < |states|
  {
    && t in states[i].loc
    && Given(events, t, i) ==
         AddedBy(states, events, Some(t), i) + if states[i].loc[t].Adding? then [states[i].loc[t].x] else []
  }

  lemma AddedKept<T>(states: seq<SynchList<T>>, events: seq<Event<T>>, i: nat, t: Tid)
    requires i < |events| < |states| && AllAdded(states, events, i, t)
    requires t in states[i + 1].loc && LocMoves(states[i], events[i], t, states[i + 1].loc[t])
    ensures AllAdded(states, events, i + 1, t)
  {
  }

  /** So Append puts its item on the list, once, before it returns. */
  lemma {:induction false} EveryItemIsAdded<T>(
    threads: set<Tid>, states: seq<SynchList<T>>, events: seq<Event<T>>, i: nat, t: Tid)
    requires IsRun(threads, states, events) && i <= |events| && t in threads
    ensures AllAdded(states, events, i, t)
    ensures states[i].loc[t].Idle? ==> Given(events, t, i) == AddedBy(states, events, Some(t), i)
  {
    if i > 0 {
      EveryItemIsAdded(threads, states, events, i - 1, t);
      LocAt(threads, states, events, i - 1, t);
      AddedKept(states, events, i - 1, t);
    }
  }

  /** A thread has taken an item for each of its calls of RemoveFront, except one that it is still in. */
  ghost predicate AllTaken<T>(states: seq<SynchList<T>>, events: seq<Event<T>>, i: nat, t: Tid)
    requires i <= |events| < |states|
  {
    && t in states[i].loc
    && Asked(events, t, i) ==
         |TakenBy(states, events, Some(t), i)| + if states[i].loc[t].Removing? || states[i].loc[t].Taking? then 1 else 0
  }

  lemma TakenCounted<T>(states: seq<SynchList<T>>, events: seq<Event<T>>, i: nat, t: Tid)
    requires i < |events| < |states| && AllTaken(states, events, i, t)
    requires t in states[i + 1].loc && LocMoves(states[i], events[i], t, states[i + 1].loc[t])
    ensures AllTaken(states, events, i + 1, t)
  {
  }

  /** So RemoveFront takes one item before it returns. */
  lemma {:induction false} EveryRemoveTakes<T>(
    threads: set<Tid>, states: seq<SynchList<T>>, events: seq<Event<T>>, i: nat, t: Tid)
    requires IsRun(threads, states, events) && i <= |events| && t in threads
    ensures AllTaken(states, events, i, t)
    ensures states[i].loc[t].Idle? ==> Asked(events, t, i) == |TakenBy(states, events, Some(t), i)|
  {
    if i > 0 {
      EveryRemoveTakes(threads, states, events, i - 1, t);
      LocAt(threads, states, events, i - 1, t);
      TakenCounted(states, events, i - 1, t);
    }
  }

  /** RemoveFront never takes from an empty list, whoever came between its wakeup and its check. */
  lemma NeverTakesFromEmpty<T>(
    threads: set<Tid>, states: seq<SynchList<T>>, events: seq<Event<T>>, i: nat, t: Tid)
    requires IsRun(threads, states, events) && i < |states|
    requires t in states[i].loc && states[i].loc[t].Taking?
    ensures states[i].list != [] && t in states[i].m.pcs && states[i].m.holder == Some(t)
  {
    RunInv(threads, states, events, i);
    assert LocOk(states[i].m.pcs[t], states[i].loc[t], states[i].list);
  }

  /** Consumers that have been signalled and are still inside Wait. */
  function Signalled(m: State): set<Tid> {
    set t | t in m.pcs && Ticket(m.pcs[t]).Some? && Ticket(m.pcs[t]).value in m.signalled
  }

  /**
   No wakeup is lost, although any thread may barge in between a signal and its waiter: whenever the
   lock is free and consumers are queued, those signalled and not back yet are at least as many as
   the items on the list.
  */
  lemma NoLostWakeup<T>(threads: set<Tid>, states: seq<SynchList<T>>, events: seq<Event<T>>, i: nat)
    requires IsRun(threads, states, events) && i < |states|
    requires Owners(states[i].m) == {} && states[i].m.waitQ != []
    ensures |states[i].list| <= |Signalled(states[i].m)|
  {
    RunInv(threads, states, events, i);
    var m := states[i].m;
    NoOwner(m);
    SignalledIsNotified(m);
  }

  lemma SignalledIsNotified(m: State)
    requires TicketInv(m) && WaitersInv(m) && m.owner.None?
    ensures Notified(m) == Signalled(m)
  {
  }

  /**
   So consumers never all sleep beside an item: with the lock free, an item on the list and a
   consumer queued, some thread on its way back into the monitor is able to run.
  */
  lemma SomeConsumerCanRun<T>(threads: set<Tid>, states: seq<SynchList<T>>, events: seq<Event<T>>, i: nat)
    requires IsRun(threads, states, events) && i < |states|
    requires Owners(states[i].m) == {} && states[i].m.waitQ != [] && states[i].list != []
    ensures exists u :: Enabled(states[i].m, u, Go) && CanAct(states[i], u, Run)
                        && (Next(states[i].m, u, Go).pcs[u].AcqGot? || Next(states[i].m, u, Go).pcs[u].AcqTest?)
  {
    NoLostWakeup(threads, states, events, i);
    RunInv(threads, states, events, i);
    var s := states[i];
    var m := s.m;
    assert Signalled(m) != {};
    var t :| t in Signalled(m);
    NoOwner(m);
    assert WaiterOk(m, Ticket(m.pcs[t]).value);
    var u := t;
    if m.pcs[t].AcqAsleep? {
      assert m.lock.woken != {};
      u :| u in m.lock.woken;
    }
    assert LocOk(m.pcs[u], s.loc[u], s.list);
    assert CanAct(s, u, Run);
    var n := Next(m, u, Go);
    assert n.pcs[u].AcqGot? || n.pcs[u].AcqTest?;
  }
}
