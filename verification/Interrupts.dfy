/**
 machine/interrupt.cc: simulated time, and the device interrupts that wait for it. A handler may schedule
 further interrupts and ask for a context switch; which it does is left open, so that everything here
 holds for all devices.
*/
module Interrupts {
  import opened Common
  import opened Lists

  datatype IntStatus = IntOff | IntOn
  datatype MachineStatus = IdleMode | SystemMode | UserMode
  datatype IntType = TimerInt | DiskInt | ConsoleWriteInt | ConsoleReadInt | NetworkSendInt | NetworkRecvInt

  /** stats.h: SystemTick, UserTick */
  const SYSTEM_TICK := 10
  const USER_TICK := 1

  /** A scheduled interrupt; `id` counts the calls of Schedule and stands for the object's identity. */
  datatype PendingInterrupt = PendingInterrupt(id: nat, when: nat, kind: IntType)

  function PendingCompare(x: PendingInterrupt, y: PendingInterrupt): int {
    if x.when < y.when then -1 else if x.when > y.when then 1 else 0
  }

  /** An interrupt whose handler was called, and when. */
  datatype Fired = Fired(event: PendingInterrupt, at: nat)

  function Events(log: seq<Fired>): (s: seq<PendingInterrupt>)
    ensures |s| == |log|
  {
    seq(|log|, i requires 0 <= i < |log| => log[i].event)
  }

  /** Due earlier, or due at the same time and scheduled earlier. */
  predicate Before(x: PendingInterrupt, y: PendingInterrupt) {
    x.when < y.when || (x.when == y.when && x.id < y.id)
  }

  ghost predicate InOrder(s: seq<PendingInterrupt>) {
    forall i, j :: 0 <= i < j < |s| ==> Before(s[i], s[j])
  }

  /** The interrupts that have fired, and then those that will, are all that were scheduled, in order. */
  ghost predicate IsHistory(done: seq<PendingInterrupt>, pending: seq<PendingInterrupt>,
      scheduled: seq<PendingInterrupt>) {
    && InOrder(done + pending)
    && |done| + |pending| == |scheduled|
    && (forall e :: e in done ==> e.id < |scheduled| && scheduled[e.id] == e)
    && (forall e :: e in pending ==> e.id < |scheduled| && scheduled[e.id] == e)
  }

  lemma ScheduleKeepsHistory(done: seq<PendingInterrupt>, pending: seq<PendingInterrupt>,
      scheduled: seq<PendingInterrupt>,
                             x: PendingInterrupt, now: nat)
    requires IsHistory(done, pending, scheduled) && x.id == |scheduled| && x.when > now
    requires forall e :: e in done ==> e.when <= now
    ensures IsHistory(done, Inserted(PendingCompare, pending, x), scheduled + [x])
  {
    ScheduleKeepsOrder(done, pending, x, now);
    InsertedMembers(pending, x);
  }

  lemma FireKeepsHistory(done: seq<PendingInterrupt>, pending: seq<PendingInterrupt>, scheduled: seq<PendingInterrupt>)
    requires IsHistory(done, pending, scheduled) && pending != []
    ensures IsHistory(done + [pending[0]], pending[1..], scheduled)
  {
    assert done + [pending[0]] + pending[1..] == done + pending;
  }

  /** The list is sorted: in front is what is due, behind it what is in the future. */
  lemma SortedByDue(done: seq<PendingInterrupt>, pending: seq<PendingInterrupt>, now: nat)
    requires InOrder(done + pending)
    ensures DueInFront(pending[..DueFrom(pending, now, 0)], pending, now)
  {
    var k, h := DueFrom(pending, now, 0), done + pending;
    forall i | k <= i < |pending| ensures pending[i].when > now {
      assert pending[k] == h[|done| + k] && pending[i] == h[|done| + i];
    }
  }

  /** Every scheduled interrupt is in the history once: it has fired or is pending. */
  lemma NoneIsLost(done: seq<PendingInterrupt>, pending: seq<PendingInterrupt>, scheduled: seq<PendingInterrupt>,
      id: nat)
    requires IsHistory(done, pending, scheduled) && id < |scheduled|
    ensures exists i :: 0 <= i < |scheduled| && (done + pending)[i] == scheduled[id]
    ensures forall i, j :: 0 <= i < j < |scheduled| ==> (done + pending)[i] != (done + pending)[j]
  {
    var h := done + pending;
    var ids := seq(|h|, i requires 0 <= i < |h| => h[i].id);
    forall i, j | 0 <= i < j < |h| ensures ids[i] != ids[j] {
      assert h[i] in h && h[j] in h && Before(h[i], h[j]);
    }
    DistinctSize(ids);
    AllNumbers(ids, |scheduled|, id);
    var i :| 0 <= i < |ids| && ids[i] == id;
    assert h[i] in h;
  }

  /** n different numbers below n are all of them. */
  lemma AllNumbers(s: seq<nat>, n: nat, x: nat)
    requires Distinct(s) && |s| == n && (forall y :: y in s ==> y < n) && x < n
    ensures x in s
  {
    DistinctSize(s);
    if x !in s {
      SubsetSize((set y | y in s), Below(n) - {x});
      RemoveSize(Below(n), x);
      assert false;
    }
  }

  /** A new interrupt is due after all that have fired, and takes its place among the pending ones. */
  lemma ScheduleKeepsOrder(
    done: seq<PendingInterrupt>, pending: seq<PendingInterrupt>, x: PendingInterrupt, now: nat)
    requires InOrder(done + pending) && x.when > now
    requires forall e :: e in done ==> e.when <= now
    requires forall e :: e in pending ==> e.id < x.id
    ensures InOrder(done + Inserted(PendingCompare, pending, x))
  {
    var k, h := PlaceFrom(PendingCompare, pending, x, 0), done + pending;
    var after := done + Inserted(PendingCompare, pending, x);
    assert forall i :: 0 <= i < |pending| ==> h[|done| + i] == pending[i];
    forall i, j | 0 <= i < j < |after| ensures Before(after[i], after[j]) {
      var at := |done| + k;
      assert i < at ==> after[i] == h[i];
      assert j < at ==> after[j] == h[j];
      assert i > at ==> after[i] == h[i - 1];
      assert j > at ==> after[j] == h[j - 1];
      if i == at {
        PlacedBefore(done, pending, x, k, j - at - 1);
      } else if j == at && i >= |done| {
        assert h[i] == pending[i - |done|] && h[i] in pending;
      }
    }
  }

  lemma PlacedBefore(done: seq<PendingInterrupt>, pending: seq<PendingInterrupt>, x: PendingInterrupt, k: nat, d: nat)
    requires InOrder(done + pending) && k == PlaceFrom(PendingCompare, pending, x, 0) && k + d < |pending|
    ensures x.when < pending[k + d].when
  {
    var h := done + pending;
    assert h[|done| + k] == pending[k] && h[|done| + k + d] == pending[k + d];
  }

  /** How many interrupts from place i on are due, in a list sorted by due time. */
  function DueFrom(pending: seq<PendingInterrupt>, now: nat, i: nat): (k: nat)
    requires i <= |pending|
    ensures i <= k <= |pending|
    ensures forall j :: i <= j < k ==> pending[j].when <= now
    ensures k < |pending| ==> pending[k].when > now
    decreases |pending| - i
  {
    if i == |pending| || pending[i].when > now then i else DueFrom(pending, now, i + 1)
  }

  function FiredAt(events: seq<PendingInterrupt>, now: nat): (log: seq<Fired>)
    ensures |log| == |events|
  {
    seq(|events|, i requires 0 <= i < |events| => Fired(events[i], now))
  }

  /** Exactly these interrupts are due, in front of the list; all others are in the future. */
  ghost predicate DueInFront(due: seq<PendingInterrupt>, pending: seq<PendingInterrupt>, now: nat) {
    && |due| <= |pending|
    && (forall i :: 0 <= i < |due| ==> pending[i] == due[i] && due[i].when <= now)
    && (forall i :: |due| <= i < |pending| ==> pending[i].when > now)
  }

  lemma InsertedMembers(pending: seq<PendingInterrupt>, x: PendingInterrupt)
    ensures forall e :: e in Inserted(PendingCompare, pending, x) <==> e == x || e in pending
  {
  }

  /** What a handler schedules comes behind everything that is due. */
  lemma InsertedBehindDue(due: seq<PendingInterrupt>, pending: seq<PendingInterrupt>, now: nat, x: PendingInterrupt,
                          after: seq<PendingInterrupt>)
    requires DueInFront(due, pending, now) && x.when > now && after == Inserted(PendingCompare, pending, x)
    ensures DueInFront(due, after, now)
  {
  }

  /** When the first is taken away, the rest of those that are due is in front. */
  lemma DueTail(due: seq<PendingInterrupt>, pending: seq<PendingInterrupt>, now: nat)
    requires DueInFront(due, pending, now) && due != []
    ensures pending[0] == due[0] && DueInFront(due[1..], pending[1..], now)
  {
  }

  lemma FiredOneMore(before: seq<Fired>, due: seq<PendingInterrupt>, j: nat, now: nat)
    requires j < |due|
    ensures due[j..][1..] == due[j + 1..] && due[j..][0] == due[j]
    ensures before + FiredAt(due[..j + 1], now) == before + FiredAt(due[..j], now) + [Fired(due[j], now)]
  {
  }

  /** Nothing has fired early, or later than the tick in which it was due; the log is in order of time. */
  ghost predicate IsLog(log: seq<Fired>, now: nat) {
    && (forall i :: 0 <= i < |log| ==> log[i].event.when <= log[i].at <= now)
    && (forall i :: 0 <= i < |log| ==> log[i].at < log[i].event.when + SYSTEM_TICK)
    && (forall i, j :: 0 <= i < j < |log| ==> log[i].at <= log[j].at)
  }

  class Interrupt {
    var level: IntStatus
    var pending: seq<PendingInterrupt>
    var inHandler: bool
    var yieldOnReturn: bool
    var status: MachineStatus

    // kernel->stats
    var totalTicks: nat
    var idleTicks: nat
    var systemTicks: nat
    var userTicks: nat

    // history: all interrupts ever scheduled, by id, and those that have fired, in order
    var scheduled: seq<PendingInterrupt>
    ghost var log: seq<Fired>

    ghost predicate Valid()
      reads this
    {
      && totalTicks == idleTicks + systemTicks + userTicks
      && IsHistory(Events(log), pending, scheduled)
      && IsLog(log, totalTicks)
    }

    /** Every pending interrupt is strictly in the future. */
    ghost predicate Settled()
      reads this
    {
      forall e :: e in pending ==> e.when > totalTicks
    }

    /** None has been due for a whole tick. */
    ghost predicate Recent()
      reads this
    {
      forall e :: e in pending ==> e.when + SYSTEM_TICK > totalTicks
    }

    constructor ()
      ensures Valid() && Settled() && pending == [] && scheduled == [] && log == [] && totalTicks == 0
      ensures level == IntOff && !inHandler && !yieldOnReturn && status == SystemMode
    {
      level, pending, inHandler, yieldOnReturn, status := IntOff, [], false, false, SystemMode;
      totalTicks, idleTicks, systemTicks, userTicks := 0, 0, 0, 0;
      scheduled, log := [], [];
    }

    method ChangeLevel(now: IntStatus)
      modifies this`level
      ensures level == now
    {
      level := now;
    }

    /** The assertion that fromNow is positive is the caller's to keep. */
    method Schedule(fromNow: nat, kind: IntType)
      requires Valid() && fromNow > 0
      modifies this`pending, this`scheduled
      ensures Valid()
      ensures var x := PendingInterrupt(|old(scheduled)|, totalTicks + fromNow, kind);
              scheduled == old(scheduled) + [x] && pending == Inserted(PendingCompare, old(pending), x)
      ensures old(Settled()) ==> Settled()
    {
      var when := totalTicks + fromNow;
      var toOccur := PendingInterrupt(|scheduled|, when, kind);
      ScheduleKeepsHistory(Events(log), pending, scheduled, toOccur, totalTicks);
      InsertedMembers(pending, toOccur);
      pending := Inserted(PendingCompare, pending, toOccur);
      scheduled := scheduled + [toOccur];
    }

    /** YieldOnReturn: only a handler may ask for it. */
    method YieldOnReturn()
      requires inHandler
      modifies this`yieldOnReturn
      ensures yieldOnReturn
    {
      yieldOnReturn := true;
    }

    /** A handler schedules its next interrupt, which comes behind all those that are due now. */
    method ScheduleNext(ghost due: seq<PendingInterrupt>, fromNow: nat, kind: IntType)
      requires Valid() && fromNow > 0 && DueInFront(due, pending, totalTicks)
      modifies this`pending, this`scheduled
      ensures Valid() && old(scheduled) <= scheduled && DueInFront(due, pending, totalTicks)
    {
      ghost var before, x := pending, PendingInterrupt(|scheduled|, totalTicks + fromNow, kind);
      Schedule(fromNow, kind);
      InsertedBehindDue(due, before, totalTicks, x, pending);
    }

    /** A handler does whatever its device does. */
    method CallBack(ghost due: seq<PendingInterrupt>)
      requires Valid() && inHandler && DueInFront(due, pending, totalTicks)
      modifies this`pending, this`scheduled, this`yieldOnReturn
      ensures Valid() && old(scheduled) <= scheduled && DueInFront(due, pending, totalTicks)
      ensures old(yieldOnReturn) ==> yieldOnReturn
    {
      var count: nat :| count >= 0;
      for i := 0 to count
        invariant Valid() && old(scheduled) <= scheduled && DueInFront(due, pending, totalTicks)
        invariant yieldOnReturn == old(yieldOnReturn)
      {
        var fromNow: nat, kind: IntType :| fromNow > 0;
        ScheduleNext(due, fromNow, kind);
      }
      if * {
        YieldOnReturn();
      }
    }

    /** Pull the first interrupt off the list and call its handler. */
    method FireFront(ghost due: seq<PendingInterrupt>)
      requires Valid() && inHandler && DueInFront(due, pending, totalTicks)
      requires due != [] && due[0].when + SYSTEM_TICK > totalTicks
      modifies this`pending, this`scheduled, this`yieldOnReturn, this`log
      ensures Valid() && old(scheduled) <= scheduled && DueInFront(due[1..], pending, totalTicks)
      ensures old(yieldOnReturn) ==> yieldOnReturn
      ensures log == old(log) + [Fired(due[0], totalTicks)]
    {
      DueTail(due, pending, totalTicks);
      FireKeepsHistory(Events(log), pending, scheduled);
      assert Events(log + [Fired(pending[0], totalTicks)]) == Events(log) + [pending[0]];
      log := log + [Fired(pending[0], totalTicks)];
      pending := pending[1..];
      CallBack(due[1..]);
    }

    /** One round of the loop of CheckIfDue. */
    method FireNext(ghost due: seq<PendingInterrupt>, ghost j: nat, ghost before: seq<Fired>)
      requires Valid() && inHandler && j < |due| && DueInFront(due[j..], pending, totalTicks)
      requires forall e :: e in due ==> e.when + SYSTEM_TICK > totalTicks
      requires log == before + FiredAt(due[..j], totalTicks)
      modifies this`pending, this`scheduled, this`yieldOnReturn, this`log
      ensures Valid() && old(scheduled) <= scheduled && (old(yieldOnReturn) ==> yieldOnReturn)
      ensures DueInFront(due[j + 1..], pending, totalTicks) && log == before + FiredAt(due[..j + 1], totalTicks)
    {
      FiredOneMore(before, due, j, totalTicks);
      FireFront(due[j..]);
    }

    /** The loop of CheckIfDue: fire all interrupts that are due, and none that a handler adds. */
    method FireDue()
      requires Valid() && Recent() && inHandler
      modifies this`pending, this`scheduled, this`yieldOnReturn, this`log
      ensures Valid() && Settled() && old(scheduled) <= scheduled && (old(yieldOnReturn) ==> yieldOnReturn)
      ensures log == old(log) + FiredAt(old(pending)[..DueFrom(old(pending), totalTicks, 0)], totalTicks)
    {
      ghost var due, before, j := pending[..DueFrom(pending, totalTicks, 0)], log, 0;
      SortedByDue(Events(log), pending, totalTicks);
      assert due[0..] == due && before + FiredAt(due[..0], totalTicks) == before;
      while pending != [] && pending[0].when <= totalTicks
        invariant Valid() && old(scheduled) <= scheduled && (old(yieldOnReturn) ==> yieldOnReturn)
        invariant 0 <= j <= |due| && DueInFront(due[j..], pending, totalTicks)
        invariant log == before + FiredAt(due[..j], totalTicks)
        decreases |due| - j
      {
        FireNext(due, j, before);
        j := j + 1;
      }
      assert j == |due| && due[..j] == due;
    }

    /**
     Fire what is due now; if nothing is and the clock may advance, what is due next. Everything due
     fires, in order, and whatever the handlers schedule waits.
    */
    method CheckIfDue(advanceClock: bool) returns (fired: bool)
      requires Valid() && Recent() && level == IntOff && !inHandler
      modifies this`pending, this`scheduled, this`yieldOnReturn, this`log, this`inHandler
      modifies this`totalTicks, this`idleTicks
      ensures Valid() && Settled() && !inHandler && old(scheduled) <= scheduled
      ensures old(yieldOnReturn) ==> yieldOnReturn
      ensures fired <==> old(pending) != [] && (advanceClock || old(pending)[0].when <= old(totalTicks))
      ensures totalTicks == if fired
        && old(pending)[0].when > old(totalTicks) then old(pending)[0].when else old(totalTicks)
      ensures idleTicks == old(idleTicks) + (totalTicks - old(totalTicks))
      ensures log == old(log) + FiredAt(old(pending)[..DueFrom(old(pending), totalTicks, 0)], totalTicks)
      ensures !fired ==>
                pending == old(pending) && yieldOnReturn == old(yieldOnReturn) && scheduled == old(scheduled)
    {
      if pending == [] {
        return false;
      }
      FrontIsFirst(Events(log), pending);
      var next := pending[0];
      if next.when > totalTicks {
        if !advanceClock {
          return false;
        }
        idleTicks := idleTicks + (next.when - totalTicks);
        totalTicks := next.when;
      }
      inHandler := true;
      FireDue();
      inHandler := false;
      return true;
    }

    /** OneTick, first part. */
    method AdvanceTime()
      requires Valid() && Settled()
      modifies this`totalTicks, this`systemTicks, this`userTicks
      ensures Valid() && Recent()
      ensures var tick := if status == SystemMode then SYSTEM_TICK else USER_TICK;
              && totalTicks == old(totalTicks) + tick
              && systemTicks == old(systemTicks) + (if status == SystemMode then tick else 0)
              && userTicks == old(userTicks) + (if status == SystemMode then 0 else tick)
    {
      if status == SystemMode {
        totalTicks := totalTicks + SYSTEM_TICK;
        systemTicks := systemTicks + SYSTEM_TICK;
      } else {
        totalTicks := totalTicks + USER_TICK;
        userTicks := userTicks + USER_TICK;
      }
    }

    /** OneTick, second part. */
    method CheckWithInterruptsOff()
      requires Valid() && Recent() && level == IntOn && !inHandler
      modifies this`pending, this`scheduled, this`yieldOnReturn, this`log, this`inHandler
      modifies this`totalTicks, this`idleTicks, this`level
      ensures Valid() && Settled() && level == IntOn && !inHandler && old(scheduled) <= scheduled
      ensures totalTicks == old(totalTicks) && idleTicks == old(idleTicks)
      ensures log == old(log) + FiredAt(old(pending)[..DueFrom(old(pending), totalTicks, 0)], totalTicks)
      ensures old(yieldOnReturn) ==> yieldOnReturn
    {
      ChangeLevel(IntOff);
      var _ := CheckIfDue(false);
      ChangeLevel(IntOn);
    }

    /**
     Time advances by one tick, and what has become due fires. With `switching`, a handler has asked for
     a context switch: the current thread yields before AfterYield.
    */
    method OneTick() returns (switching: bool)
      requires Valid() && Settled() && level == IntOn && !inHandler
      modifies this
      ensures Valid() && Settled() && level == IntOn && !inHandler && old(scheduled) <= scheduled
      ensures var tick := if old(status) == SystemMode then 10 else 1;
              && totalTicks == old(totalTicks) + tick && idleTicks == old(idleTicks)
              && systemTicks == old(systemTicks) + (if old(status) == SystemMode then tick else 0)
              && userTicks == old(userTicks) + (if old(status) == SystemMode then 0 else tick)
      ensures log == old(log) + FiredAt(old(pending)[..DueFrom(old(pending), totalTicks, 0)], totalTicks)
      ensures !yieldOnReturn && (old(yieldOnReturn) ==> switching)
      ensures status == if switching then SystemMode else old(status)
    {
      AdvanceTime();
      CheckWithInterruptsOff();
      switching := yieldOnReturn;
      if yieldOnReturn {
        yieldOnReturn := false;
        status := SystemMode;
      }
    }

    /** The thread that yielded in OneTick runs again. */
    method AfterYield(oldStatus: MachineStatus)
      requires Valid()
      modifies this`status
      ensures Valid() && status == oldStatus
    {
      status := oldStatus;
    }

    /** Enabling interrupts that were disabled takes a tick; no other change of level takes time. */
    method SetLevel(now: IntStatus) returns (was: IntStatus, switching: bool)
      requires Valid() && Settled() && (now == IntOff || !inHandler)
      modifies this
      ensures Valid() && Settled() && was == old(level) && level == now && old(scheduled) <= scheduled
      ensures inHandler == old(inHandler)
      ensures now == IntOn && was == IntOff ==>
                && totalTicks == old(totalTicks) + (if old(status) == SystemMode then SYSTEM_TICK else USER_TICK)
                && log == old(log) + FiredAt(old(pending)[..DueFrom(old(pending), totalTicks, 0)], totalTicks)
                && status == if switching then SystemMode else old(status)
      ensures !(now == IntOn && was == IntOff) ==>
                && totalTicks == old(totalTicks) && log == old(log) && pending == old(pending)
                && scheduled == old(scheduled) && !switching && status == old(status)
                && yieldOnReturn == old(yieldOnReturn)
    {
      was := level;
      switching := false;
      ChangeLevel(now);
      if now == IntOn && was == IntOff {
        switching := OneTick();
      }
    }

    /** Nothing is ready: time jumps to the next interrupt, which fires; without one, the machine halts. */
    method Idle() returns (halts: bool)
      requires Valid() && Settled() && level == IntOff && !inHandler
      modifies this
      ensures Valid() && Settled() && level == IntOff && !inHandler && old(scheduled) <= scheduled
      ensures halts <==> old(pending) == []
      ensures halts ==>
                && totalTicks == old(totalTicks) && log == old(log) && pending == [] && scheduled == old(scheduled)
                && status == IdleMode
      ensures !halts ==>
                && status == SystemMode
                && totalTicks == old(pending)[0].when > old(totalTicks)
                && |log| > |old(log)| && log[|old(log)|] == Fired(old(pending)[0], totalTicks)
                && log == old(log) + FiredAt(old(pending)[..DueFrom(old(pending), totalTicks, 0)], totalTicks)
      ensures systemTicks == old(systemTicks) && userTicks == old(userTicks)
    {
      status := IdleMode;
      var fired := CheckIfDue(true);
      if fired {
        status := SystemMode;
        return false;
      }
      return true;
    }
  }

  /** The front of the list is due first. */
  lemma FrontIsFirst(done: seq<PendingInterrupt>, pending: seq<PendingInterrupt>)
    requires InOrder(done + pending) && pending != []
    ensures forall e :: e in pending ==> e.when >= pending[0].when
  {
    var h := done + pending;
    assert h[|done|] == pending[0];
    forall i | 0 < i < |pending| ensures pending[i].when >= pending[0].when {
      assert h[|done| + i] == pending[i];
    }
  }

  // ---------------------------------------------------------------- whole runs

  /** Interrupts fire in nondecreasing due time, and in order of scheduling among ties. */
  lemma FiresInOrder(log: seq<Fired>, pending: seq<PendingInterrupt>, scheduled: seq<PendingInterrupt>, i: nat, j: nat)
    requires IsHistory(Events(log), pending, scheduled) && i < j < |log|
    ensures Before(log[i].event, log[j].event)
  {
    var h := Events(log) + pending;
    assert h[i] == log[i].event && h[j] == log[j].event;
  }

  ghost predicate HasFired(log: seq<Fired>, e: PendingInterrupt) {
    exists i :: 0 <= i < |log| && log[i].event == e
  }

  /** What has fired is exactly what is due by now; the rest is pending. */
  lemma FiredIffDue(
    log: seq<Fired>, pending: seq<PendingInterrupt>, scheduled: seq<PendingInterrupt>, now: nat, id: nat)
    requires IsHistory(Events(log), pending, scheduled) && IsLog(log, now) && id < |scheduled|
    requires forall e :: e in pending ==> e.when > now
    ensures HasFired(log, scheduled[id]) <==> scheduled[id].when <= now
    ensures scheduled[id] in pending <==> scheduled[id].when > now
  {
    NoneIsLost(Events(log), pending, scheduled, id);
    var i :| 0 <= i < |scheduled| && (Events(log) + pending)[i] == scheduled[id];
    if i < |log| {
      assert log[i].event == scheduled[id];
    } else {
      assert pending[i - |log|] == scheduled[id];
    }
  }

  /** What the kernel may call between two handlers. */
  datatype Call =
    | CallSchedule(fromNow: nat, kind: IntType)
    | CallSetLevel(now: IntStatus)
    | CallOneTick
    | CallIdle
    | CallStatus(mode: MachineStatus)

  /** Whether interrupts are on after these calls; they begin off. */
  function LevelAfter(calls: seq<Call>): IntStatus {
    if calls == [] then IntOff
    else
      var last := calls[|calls| - 1];
      if last.CallSetLevel? then last.now else LevelAfter(calls[..|calls| - 1])
  }

  /** The assertions of Schedule, OneTick and Idle, which are the callers' to keep. */
  ghost predicate Proper(calls: seq<Call>) {
    forall k :: 0 <= k < |calls| ==>
      && (calls[k].CallSchedule? ==> calls[k].fromNow > 0)
      && (calls[k].CallOneTick? ==> LevelAfter(calls[..k]) == IntOn)
      && (calls[k].CallIdle? ==> LevelAfter(calls[..k]) == IntOff)
  }

  /** What there is to see of the machine between two calls. */
  datatype Moment = Moment(
    time: nat, level: IntStatus, mode: MachineStatus,
    pending: seq<PendingInterrupt>, scheduled: seq<PendingInterrupt>, fired: seq<Fired>)

  ghost function MomentOf(m: Interrupt): Moment
    reads m
  {
    Moment(m.totalTicks, m.level, m.status, m.pending, m.scheduled, m.log)
  }

  /** The start of every run. */
  const POWER_ON := Moment(0, IntOff, SystemMode, [], [], [])

  /** What is due at a time has fired then, in order; handlers may have scheduled more. */
  predicate FiredDue(a: Moment, time: nat, b: Moment) {
    && b.time == time && a.scheduled <= b.scheduled
    && b.fired == a.fired + FiredAt(a.pending[..DueFrom(a.pending, time, 0)], time)
  }

  /** A tick of the mode has passed; a handler may have asked for a context switch. */
  predicate Ticked(a: Moment, b: Moment) {
    && FiredDue(a, a.time + (if a.mode == SystemMode then 10 else 1), b)
    && b.level == IntOn && (b.mode == a.mode || b.mode == SystemMode)
  }

  /** What a call does, whatever the handlers do that it starts. */
  predicate Follows(a: Moment, c: Call, b: Moment) {
    match c
    case CallSchedule(fromNow, kind) =>
      var x := PendingInterrupt(|a.scheduled|, a.time + fromNow, kind);
      b == a.(pending := Inserted(PendingCompare, a.pending, x), scheduled := a.scheduled + [x])
    case CallSetLevel(now) => if now == IntOn && a.level == IntOff then Ticked(a, b) else b == a.(level := now)
    case CallOneTick => Ticked(a, b)
    case CallIdle =>
      if a.pending == [] then b == a.(mode := IdleMode)
      else FiredDue(a, a.pending[0].when, b) && a.pending[0].when > a.time && b.level == IntOff && b.mode == SystemMode
    case CallStatus(mode) => b == a.(mode := mode)
  }

  /** The calls that take no time. */
  method PerformQuick(m: Interrupt, c: Call)
    requires m.Valid() && m.Settled() && !m.inHandler
    requires c.CallStatus? || (c.CallSchedule? && c.fromNow > 0)
    modifies m
    ensures m.Valid() && m.Settled() && !m.inHandler && Follows(old(MomentOf(m)), c, MomentOf(m))
  {
    match c {
      case CallSchedule(fromNow, kind) =>
        m.Schedule(fromNow, kind);
      case CallStatus(mode) =>
        m.AfterYield(mode);
    }
  }

  method PerformLevel(m: Interrupt, now: IntStatus)
    requires m.Valid() && m.Settled() && !m.inHandler
    modifies m
    ensures m.Valid() && m.Settled() && !m.inHandler && Follows(old(MomentOf(m)), CallSetLevel(now), MomentOf(m))
  {
    var _, _ := m.SetLevel(now);
  }

  method Perform(m: Interrupt, c: Call) returns (halts: bool)
    requires m.Valid() && m.Settled() && !m.inHandler
    requires c.CallSchedule? ==> c.fromNow > 0
    requires (c.CallOneTick? ==> m.level == IntOn) && (c.CallIdle? ==> m.level == IntOff)
    modifies m
    ensures m.Valid() && m.Settled() && !m.inHandler && Follows(old(MomentOf(m)), c, MomentOf(m))
    ensures halts <==> c.CallIdle? && old(m.pending) == []
  {
    halts := false;
    if c.CallOneTick? {
      var _ := m.OneTick();
    } else if c.CallIdle? {
      halts := m.Idle();
    } else if c.CallSetLevel? {
      PerformLevel(m, c.now);
    } else {
      PerformQuick(m, c);
    }
  }

  /** The moments of a run: before the first call, and after each. */
  ghost predicate IsRun(moments: seq<Moment>, calls: seq<Call>) {
    && |moments| == |calls| + 1 && moments[0] == POWER_ON
    && forall k {:trigger FollowsAt(moments, calls, k)} :: 0 <= k < |calls| ==> FollowsAt(moments, calls, k)
  }

  ghost predicate FollowsAt(moments: seq<Moment>, calls: seq<Call>, k: nat)
    requires k < |calls| < |moments|
  {
    Follows(moments[k], calls[k], moments[k + 1])
  }

  lemma RunGrows(moments: seq<Moment>, calls: seq<Call>, k: nat, b: Moment)
    requires k < |calls| && IsRun(moments, calls[..k]) && Follows(moments[k], calls[k], b)
    ensures IsRun(moments + [b], calls[..k + 1])
  {
    var more, upto := moments + [b], calls[..k + 1];
    forall i | 0 <= i < |upto| ensures FollowsAt(more, upto, i) {
      if i < k {
        assert FollowsAt(moments, calls[..k], i);
      }
    }
  }

  /** The level is the one that the calls have set. */
  lemma {:induction false} RunLevel(moments: seq<Moment>, calls: seq<Call>)
    requires IsRun(moments, calls) && Proper(calls)
    ensures moments[|calls|].level == LevelAfter(calls)
  {
    if calls != [] {
      var k := |calls| - 1;
      RunPrefix(moments, calls, k);
      RunLevel(moments[..k + 1], calls[..k]);
      assert FollowsAt(moments, calls, k);
    }
  }

  lemma RunPrefix(moments: seq<Moment>, calls: seq<Call>, k: nat)
    requires IsRun(moments, calls) && Proper(calls) && k <= |calls|
    ensures IsRun(moments[..k + 1], calls[..k]) && Proper(calls[..k])
  {
    var before, upto := moments[..k + 1], calls[..k];
    forall i | 0 <= i < |upto| ensures FollowsAt(before, upto, i) {
      assert FollowsAt(moments, calls, i);
    }
    forall i | 0 <= i < k ensures calls[..k][..i] == calls[..i] {
    }
  }

  /** So the next call finds the level that it needs. */
  lemma NextIsProper(moments: seq<Moment>, calls: seq<Call>, k: nat)
    requires Proper(calls) && k < |calls| && IsRun(moments, calls[..k])
    ensures calls[k].CallSchedule? ==> calls[k].fromNow > 0
    ensures calls[k].CallOneTick? ==> moments[k].level == IntOn
    ensures calls[k].CallIdle? ==> moments[k].level == IntOff
  {
    forall i | 0 <= i < k ensures calls[..k][..i] == calls[..i] {
    }
    RunLevel(moments, calls[..k]);
  }

  /** What has been scheduled stays scheduled. */
  lemma {:induction false} ScheduledStays(moments: seq<Moment>, calls: seq<Call>, k: nat, j: nat)
    requires IsRun(moments, calls) && k <= j <= |calls|
    ensures moments[k].scheduled <= moments[j].scheduled && moments[k].time <= moments[j].time
  {
    if k < j {
      ScheduledStays(moments, calls, k, j - 1);
      assert FollowsAt(moments, calls, j - 1);
    }
  }

  lemma AllInOrder(log: seq<Fired>, pending: seq<PendingInterrupt>, scheduled: seq<PendingInterrupt>)
    requires IsHistory(Events(log), pending, scheduled)
    ensures forall i, j :: 0 <= i < j < |log| ==> Before(log[i].event, log[j].event)
  {
    forall i, j | 0 <= i < j < |log| ensures Before(log[i].event, log[j].event) {
      FiresInOrder(log, pending, scheduled, i, j);
    }
  }

  lemma AllFiredIffDue(
    log: seq<Fired>, pending: seq<PendingInterrupt>, scheduled: seq<PendingInterrupt>, now: nat)
    requires IsHistory(Events(log), pending, scheduled) && IsLog(log, now)
    requires forall e :: e in pending ==> e.when > now
    ensures forall id :: 0 <= id < |scheduled| ==>
              && (HasFired(log, scheduled[id]) <==> scheduled[id].when <= now)
              && (scheduled[id] in pending <==> scheduled[id].when > now)
  {
    forall id: nat | id < |scheduled|
      ensures HasFired(log, scheduled[id]) <==> scheduled[id].when <= now
      ensures scheduled[id] in pending <==> scheduled[id].when > now
    {
      FiredIffDue(log, pending, scheduled, now, id);
    }
  }

  /** The interrupt that a call asked for is due that long after the call. */
  predicate AsAsked(a: Moment, c: Call, scheduled: seq<PendingInterrupt>) {
    c.CallSchedule? ==>
      var id := |a.scheduled|;
      id < |scheduled| && scheduled[id] == PendingInterrupt(id, a.time + c.fromNow, c.kind)
  }

  lemma AllAsAsked(moments: seq<Moment>, calls: seq<Call>, done: nat)
    requires done <= |calls| && IsRun(moments, calls[..done])
    ensures forall k :: 0 <= k < done ==> AsAsked(moments[k], calls[k], moments[done].scheduled)
  {
    forall k | 0 <= k < done ensures AsAsked(moments[k], calls[k], moments[done].scheduled) {
      assert FollowsAt(moments, calls[..done], k);
      ScheduledStays(moments, calls[..done], k + 1, done);
    }
  }

  /**
   Any run of calls from the start, whatever the handlers do, until the machine halts. Each call moves
   clock, list and log as it should. At the end: the log of the whole run is in order of due time, with
   ties in order of scheduling; nothing fired early, or a tick too late; what has fired is exactly what
   is due by now, and the rest is pending; every tick is idle, system or user time; each interrupt asked
   for has its due time that long after the moment of the call.
  */
  method AnyRun(calls: seq<Call>) returns (m: Interrupt, done: nat, ghost moments: seq<Moment>)
    requires Proper(calls)
    ensures done <= |calls| && IsRun(moments, calls[..done]) && moments[done] == MomentOf(m)
    ensures done < |calls| ==> done > 0 && calls[done - 1].CallIdle? && m.pending == []
    ensures forall i, j :: 0 <= i < j < |m.log| ==> Before(m.log[i].event, m.log[j].event)
    ensures IsLog(m.log, m.totalTicks)
    ensures forall id :: 0 <= id < |m.scheduled| ==>
              && (HasFired(m.log, m.scheduled[id]) <==> m.scheduled[id].when <= m.totalTicks)
              && (m.scheduled[id] in m.pending <==> m.scheduled[id].when > m.totalTicks)
    ensures m.totalTicks == m.idleTicks + m.systemTicks + m.userTicks
    ensures forall k :: 0 <= k < done ==> AsAsked(moments[k], calls[k], m.scheduled)
  {
    m, done, moments := RunCalls(calls);
    AllInOrder(m.log, m.pending, m.scheduled);
    AllFiredIffDue(m.log, m.pending, m.scheduled, m.totalTicks);
    AllAsAsked(moments, calls, done);
  }

  /** One more call of a run. */
  method RunNext(m: Interrupt, calls: seq<Call>, k: nat, ghost moments: seq<Moment>) returns (halts: bool)
    requires m.Valid() && m.Settled() && !m.inHandler
    requires Proper(calls) && k < |calls| && IsRun(moments, calls[..k]) && moments[k] == MomentOf(m)
    modifies m
    ensures m.Valid() && m.Settled() && !m.inHandler && IsRun(moments + [MomentOf(m)], calls[..k + 1])
    ensures halts ==> calls[k].CallIdle? && m.pending == []
  {
    NextIsProper(moments, calls, k);
    halts := Perform(m, calls[k]);
    RunGrows(moments, calls, k, MomentOf(m));
  }

  method RunCalls(calls: seq<Call>) returns (m: Interrupt, done: nat, ghost moments: seq<Moment>)
    requires Proper(calls)
    ensures m.Valid() && m.Settled()
    ensures done <= |calls| && IsRun(moments, calls[..done]) && moments[done] == MomentOf(m)
    ensures done < |calls| ==> done > 0 && calls[done - 1].CallIdle? && m.pending == []
  {
    m := new Interrupt();
    moments, done := [MomentOf(m)], 0;
    var halts := false;
    while done < |calls| && !halts
      invariant m.Valid() && m.Settled() && !m.inHandler
      invariant done <= |calls| && IsRun(moments, calls[..done]) && moments[done] == MomentOf(m)
      invariant halts ==> done > 0 && calls[done - 1].CallIdle? && m.pending == []
      decreases |calls| - done
    {
      halts := RunNext(m, calls, done, moments);
      moments, done := moments + [MomentOf(m)], done + 1;
    }
  }
}
