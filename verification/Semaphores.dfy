/**
 threads/synch.cc, class Semaphore.

 Interrupts are off from the test of `value` to the point where the thread sleeps or has taken
 a unit, so one turn of the loop in P is one atomic step (`PassP`), and so is the body of V
 (`StepV`). Everything between such steps interleaves freely.
*/
module Semaphores {
  import opened Common

  /**
   The state of a semaphore. `queue` holds the threads asleep in P, and `woken` those which V has
   put on the ready list and which have not yet tested `value` again.
  */
  datatype Sem = Sem(value: int, queue: seq<Tid>, woken: set<Tid>)

  /** One turn of the loop in P by thread t, whether t arrives or has just been woken. */
  function PassP(s: Sem, t: Tid): Sem {
    if s.value == 0
    then Sem(0, s.queue + [t], s.woken - {t})
    else Sem(s.value - 1, s.queue, s.woken - {t})
  }

  /** V: make the longest sleeper ready, then add a unit. */
  function StepV(s: Sem): Sem {
    if s.queue == []
    then s.(value := s.value + 1)
    else Sem(s.value + 1, s.queue[1..], s.woken + {s.queue[0]})
  }

  /** What holds between any two steps. The last line is the wakeup guarantee. */
  ghost predicate SemOk(s: Sem) {
    && s.value >= 0
    && Distinct(s.queue)
    && (forall t :: t in s.queue ==> t !in s.woken)
    && (s.queue != [] ==> s.value <= |s.woken|)
  }

  /** List::Append asserts that the thread is not queued yet; only a thread that is awake runs P. */
  lemma PassPKeepsOk(s: Sem, t: Tid)
    requires SemOk(s) && t !in s.queue
    ensures SemOk(PassP(s, t))
    ensures forall x :: x in PassP(s, t).queue <==> x in s.queue || (s.value == 0 && x == t)
  {
  }

  lemma StepVKeepsOk(s: Sem)
    requires SemOk(s)
    ensures SemOk(StepV(s))
    ensures s.queue != [] ==> forall t :: t in StepV(s).queue <==> t in s.queue && t != s.queue[0]
  {
  }

  // ---------------------------------------------------------------- whole runs

  datatype Op = P(t: Tid) | V

  function Do(s: Sem, op: Op): Sem {
    match op
    case P(t) => PassP(s, t)
    case V => StepV(s)
  }

  /** A thread that is asleep in the queue cannot run. */
  predicate CanDo(s: Sem, op: Op) {
    op.P? ==> op.t !in s.queue
  }

  /** Semaphore::Semaphore(name, initialValue) */
  function Fresh(initial: nat): Sem {
    Sem(initial, [], {})
  }

  function Front(ops: seq<Op>): seq<Op>
    requires ops != []
  {
    ops[..|ops| - 1]
  }

  function Last(ops: seq<Op>): Op
    requires ops != []
  {
    ops[|ops| - 1]
  }

  /** The semaphore after these steps. */
  function After(initial: nat, ops: seq<Op>): Sem {
    if ops == [] then Fresh(initial) else Do(After(initial, Front(ops)), Last(ops))
  }

  /** Every step of the run was possible when it was taken. */
  predicate IsRun(initial: nat, ops: seq<Op>) {
    ops != [] ==> IsRun(initial, Front(ops)) && CanDo(After(initial, Front(ops)), Last(ops))
  }

  /** The Vs of a run. */
  function Given(ops: seq<Op>): nat {
    if ops == [] then 0 else Given(Front(ops)) + if Last(ops).V? then 1 else 0
  }

  /** The turns of P that found a unit, which are the Ps that have completed. */
  function Taken(initial: nat, ops: seq<Op>): nat {
    if ops == [] then 0
    else Taken(initial, Front(ops)) + if Last(ops).P? && After(initial, Front(ops)).value > 0 then 1 else 0
  }

  /** The threads that found none and went to sleep, in this order. */
  function Slept(initial: nat, ops: seq<Op>): seq<Tid> {
    if ops == [] then []
    else
      Slept(initial, Front(ops))
      + if Last(ops).P? && After(initial, Front(ops)).value == 0 then [Last(ops).t] else []
  }

  /** The thread that a V hands to ReadyToRun. */
  function Longest(s: Sem): Option<Tid> {
    if s.queue == [] then None else Some(s.queue[0])
  }

  /** The threads that Vs have made ready, in this order. */
  function Readied(initial: nat, ops: seq<Op>): seq<Tid> {
    if ops == [] then []
    else
      var ready := if Last(ops).V? then Longest(After(initial, Front(ops))) else None;
      Readied(initial, Front(ops)) + if ready.Some? then [ready.value] else []
  }

  /** A V has made the thread ready, and it has not tested the value since. */
  predicate OnItsWay(initial: nat, ops: seq<Op>, t: Tid) {
    ops != [] &&
    match Last(ops)
    case P(u) => u != t && OnItsWay(initial, Front(ops), t)
    case V => OnItsWay(initial, Front(ops), t) || Longest(After(initial, Front(ops))) == Some(t)
  }

  /**
   In every interleaving of any number of threads: the value is the initial value plus the
   completed Vs minus the completed Ps, and it is never negative.
  */
  lemma {:induction false} RunConservesUnits(initial: nat, ops: seq<Op>)
    requires IsRun(initial, ops)
    ensures SemOk(After(initial, ops))
    ensures After(initial, ops).value == initial + Given(ops) - Taken(initial, ops) >= 0
  {
    if ops != [] {
      RunConservesUnits(initial, Front(ops));
      match Last(ops)
      case P(t) => PassPKeepsOk(After(initial, Front(ops)), t);
      case V => StepVKeepsOk(After(initial, Front(ops)));
    }
  }

  /** The queue is a queue: those made ready, followed by those asleep, are all that went to sleep. */
  lemma {:induction false} SleepersInOrder(initial: nat, ops: seq<Op>)
    ensures Slept(initial, ops) == Readied(initial, ops) + After(initial, ops).queue
  {
    if ops != [] {
      SleepersInOrder(initial, Front(ops));
      var s := After(initial, Front(ops));
      if Last(ops).V? && s.queue != [] {
        assert s.queue == [s.queue[0]] + s.queue[1..];
      }
    }
  }

  /** The thread asleep in place k after the steps `was` is in its place after the steps `now`. */
  ghost predicate InTurn(initial: nat, was: seq<Op>, now: seq<Op>, k: nat)
    requires k < |After(initial, was).queue|
  {
    var t, d, n := After(initial, was).queue[k], Given(now) - Given(was), |Readied(initial, was)|;
    && d >= 0
    && if d <= k
       then |Readied(initial, now)| == n + d && k - d < |After(initial, now).queue|
            && After(initial, now).queue[k - d] == t
       else |Readied(initial, now)| > n + k && Readied(initial, now)[n + k] == t
  }

  lemma TurnKept(initial: nat, was: seq<Op>, now: seq<Op>, k: nat)
    requires k < |After(initial, was).queue| && now != [] && InTurn(initial, was, Front(now), k)
    ensures InTurn(initial, was, now, k)
  {
    var s := After(initial, Front(now));
    assert After(initial, now) == Do(s, Last(now));
  }

  /**
   A thread asleep with k threads ahead of it is made ready by exactly the (k+1)-th V from then on, and
   until then is one place further up after each.
  */
  lemma {:induction false} SleeperInTurn(initial: nat, ops: seq<Op>, i: nat, j: nat, k: nat)
    requires i <= j <= |ops| && k < |After(initial, ops[..i]).queue|
    ensures InTurn(initial, ops[..i], ops[..j], k)
  {
    if i < j {
      SleeperInTurn(initial, ops, i, j - 1, k);
      assert Front(ops[..j]) == ops[..j - 1];
      TurnKept(initial, ops[..i], ops[..j], k);
    }
  }

  /** The woken threads are those on their way to the next test. */
  lemma {:induction false} WokenIff(initial: nat, ops: seq<Op>, t: Tid)
    ensures t in After(initial, ops).woken <==> OnItsWay(initial, ops, t)
  {
    if ops != [] {
      WokenIff(initial, Front(ops), t);
    }
  }

  /**
   No thread sleeps beside an available unit: if somebody sleeps while units are left, at least that many
   threads that were made ready are on their way, and whichever of them tests next gets a unit.
  */
  lemma NoUnitSleptOn(initial: nat, ops: seq<Op>)
    requires IsRun(initial, ops)
    ensures var s := After(initial, ops);
            s.queue != [] && s.value > 0 ==>
              && |s.woken| >= s.value
              && (forall t :: t in s.woken <==> OnItsWay(initial, ops, t))
              && exists t :: t in s.woken && t !in PassP(s, t).queue && PassP(s, t).value == s.value - 1
  {
    RunConservesUnits(initial, ops);
    var s := After(initial, ops);
    forall t ensures t in s.woken <==> OnItsWay(initial, ops, t) {
      WokenIff(initial, ops, t);
    }
    if s.queue != [] && s.value > 0 {
      assert s.woken != {};
      var t :| t in s.woken;
      assert t !in PassP(s, t).queue;
    }
  }

  // ---------------------------------------------------------------- the class

  class Semaphore {
    var value: int
    var queue: seq<Tid>
    ghost var woken: set<Tid>
    ghost const tag: nat       // tells the semaphores of different owners apart

    ghost function State(): Sem
      reads this
    {
      Sem(value, queue, woken)
    }

    constructor (initialValue: nat, ghost tag: nat := 0)
      ensures State() == Fresh(initialValue) && SemOk(State()) && this.tag == tag
    {
      value, queue, woken, this.tag := initialValue, [], {}, tag;
    }

    /**
     P from the point where `current` runs with interrupts off until it either has its unit or
     sleeps; a sleeping thread runs this again when it has been woken.
    */
    method P(current: Tid) returns (asleep: bool)
      requires SemOk(State())
      requires current !in queue
      modifies this
      ensures State() == PassP(old(State()), current) && SemOk(State())
      ensures asleep <==> old(value) == 0
      ensures asleep <==> current in queue
    {
      PassPKeepsOk(State(), current);
      woken := woken - {current};
      if value == 0 {
        queue := queue + [current];
        asleep := true;
      } else {
        value := value - 1;
        asleep := false;
      }
    }

    /** V; `ready` is the thread handed to Scheduler::ReadyToRun. */
    method V() returns (ready: Option<Tid>)
      requires SemOk(State())
      modifies this
      ensures State() == StepV(old(State())) && SemOk(State())
      ensures ready == Longest(old(State()))
    {
      StepVKeepsOk(State());
      ready := None;
      if queue != [] {
        ready := Some(queue[0]);
        woken := woken + {queue[0]};
        queue := queue[1..];
      }
      value := value + 1;
    }
  }
}
