/**
 threads/pcb.cc and threads/ptable.cc: the objects of classes PCB and PTable. JoinUpdate and ExitUpdate
 are split where they may sleep; each method is proved to do to the table what the steps of the same
 places do in module Processes, when nobody steps in between.
*/
module ProcessObjects {
  import opened Common
  import opened Semaphores
  import opened Bitmaps
  import opened Processes

  /** What PTable does with a PCB: set its exit code, or a P or V on one of its semaphores. */
  datatype Use =
    | BeginJoin(p: Proc)       // history
    | SetExitCode(code: int)
    | JoinWait(p: Proc)
    | JoinRelease
    | ExitWait(p: Proc)
    | ExitRelease

  function Used(b: Pcb, use: Use): Pcb {
    match use
    case BeginJoin(p) => if b.stage.Unjoined? then b.(stage := Waiting(p)) else b
    case SetExitCode(code) => b.(code := code)
    case JoinWait(p) => b.(join := PassP(b.join, p), stage := if b.join.value == 0 then b.stage else Passed(p))
    case JoinRelease => b.(join := StepV(b.join))
    case ExitWait(p) => b.(exit := PassP(b.exit, p))
    case ExitRelease => b.(exit := StepV(b.exit), stage := Released)
  }

  /** A process that runs is in no queue. */
  predicate CanUse(b: Pcb, use: Use) {
    && (use.JoinWait? ==> use.p !in b.join.queue)
    && (use.ExitWait? ==> use.p !in b.exit.queue)
  }

  class PCB {
    var parentID: int
    var exitcode: int
    var filename: string
    const joinsem: Semaphore
    const exitsem: Semaphore
    ghost const slot: nat
    ghost var view: Pcb        // what the object holds, with the history of Processes.Pcb

    ghost predicate Valid()
      reads this, joinsem, exitsem
    {
      && joinsem.tag == 2 * slot && exitsem.tag == 2 * slot + 1
      && SemOk(joinsem.State()) && SemOk(exitsem.State())
      && view.parent == parentID && view.code == exitcode
      && view.join == joinsem.State() && view.exit == exitsem.State()
    }

    constructor (id: nat, currentID: int, ghost kid: Proc)
      ensures slot == id && Valid() && fresh(joinsem) && fresh(exitsem) && filename == ""
      ensures view == NewPcb(kid, if id == 0 then -1 else currentID)
    {
      parentID := if id == 0 then -1 else currentID;
      exitcode, filename := 0, "";
      joinsem := new Semaphore(0, 2 * id);
      exitsem := new Semaphore(0, 2 * id + 1);
      slot := id;
      view := NewPcb(kid, if id == 0 then -1 else currentID);
    }

    method SetFileName(name: string)
      requires Valid()
      modifies this`filename
      ensures Valid() && filename == name
    {
      filename := name;
    }

    ghost method BeginJoin(p: Proc)
      requires Valid()
      modifies this`view
      ensures Valid() && view == Used(old(view), Use.BeginJoin(p))
    {
      view := Used(view, Use.BeginJoin(p));
    }

    method SetExitCode(code: int)
      requires Valid()
      modifies this`view, this`exitcode
      ensures Valid() && view == Used(old(view), Use.SetExitCode(code))
    {
      exitcode := code;
      view := Used(view, Use.SetExitCode(code));
    }

    /** Up to where the thread sleeps or has been released. */
    method JoinWait(current: Proc) returns (asleep: bool)
      requires Valid() && current !in view.join.queue
      modifies this`view, joinsem
      ensures Valid() && view == Used(old(view), Use.JoinWait(current))
      ensures asleep <==> old(view).join.value == 0
    {
      asleep := joinsem.P(current);
      view := Used(view, Use.JoinWait(current));
    }

    method JoinRelease() returns (ready: Option<Proc>)
      requires Valid()
      modifies this`view, joinsem
      ensures Valid() && view == Used(old(view), Use.JoinRelease)
      ensures ready == if old(view).join.queue == [] then None else Some(old(view).join.queue[0])
    {
      ready := joinsem.V();
      view := Used(view, Use.JoinRelease);
    }

    method ExitWait(current: Proc) returns (asleep: bool)
      requires Valid() && current !in view.exit.queue
      modifies this`view, exitsem
      ensures Valid() && view == Used(old(view), Use.ExitWait(current))
      ensures asleep <==> old(view).exit.value == 0
    {
      asleep := exitsem.P(current);
      view := Used(view, Use.ExitWait(current));
    }

    method ExitRelease() returns (ready: Option<Proc>)
      requires Valid()
      modifies this`view, exitsem
      ensures Valid() && view == Used(old(view), Use.ExitRelease)
      ensures ready == if old(view).exit.queue == [] then None else Some(old(view).exit.queue[0])
    {
      ready := exitsem.V();
      view := Used(view, Use.ExitRelease);
    }
  }

  /** ptable.h */
  const MAX_PROCESS := 10

  class PTable {
    const psize: nat
    const bm: Bitmap
    const pcb: array<PCB?>
    ghost var slots: map<nat, Pcb>       // what the PCBs in use hold
    ghost var Repr: set<object>          // the PCBs and their semaphores
    ghost var deleted: set<PCB>          // those that Remove has deleted

    ghost predicate Valid()
      reads this, bm, bm.words, pcb, Repr
    {
      && bm.words as object != pcb && this !in Repr && bm !in Repr && bm.words !in Repr && pcb !in Repr
      && Marks() && Pcbs()
    }

    /** The table is that of a state that module Processes reaches, in which process p is at this place. */
    ghost predicate Shows(s: Table, p: Proc, pc: Pc)
      reads this
    {
      Reached(s) && s.size == psize && s.pcbs == slots && p in s.pcs && s.pcs[p] == pc
    }

    /** The bitmap marks exactly the slots in use. */
    ghost predicate Marks()
      reads this, bm, bm.words
    {
      bm.Valid() && bm.numBits == psize && bm.Set() == slots.Keys
    }

    /** Each slot in use points to a PCB of its own, with its own semaphores; the others to none, or a deleted one. */
    ghost predicate Pcbs()
      reads this, pcb, Repr
    {
      SlotsOk() && OthersEmpty()
    }

    ghost predicate SlotsOk()
      reads this, pcb, Repr
    {
      psize <= pcb.Length == MAX_PROCESS && forall i {:trigger SlotOk(i)} :: i in slots ==> SlotOk(i)
    }

    ghost predicate OthersEmpty()
      reads this, pcb
    {
      forall i: nat {:trigger NoPcb(i)} :: i !in slots ==> NoPcb(i)
    }

    /** There is no PCB at this place: it is behind the array, null, or deleted. */
    ghost predicate NoPcb(i: nat)
      reads this, pcb
    {
      i >= pcb.Length || pcb[i] == null || pcb[i] in deleted
    }

    /** JoinUpdate would read the parent of a PCB that is not there. */
    ghost predicate Dangling(id: int)
      reads this, pcb
    {
      id >= 0 && NoPcb(id)
    }

    /** This it does not exactly if the id is negative or its slot is in use. */
    lemma DanglingIff(id: int)
      requires Valid()
      ensures !Dangling(id) <==> id < 0 || id in slots
    {
      if id in slots {
        assert SlotOk(id);
      }
    }

    ghost predicate SlotOk(i: nat)
      requires i in slots
      reads this, pcb, Repr
    {
      && i < psize <= pcb.Length && pcb[i] != null && pcb[i].slot == i
      && pcb[i] in Repr && pcb[i].joinsem in Repr && pcb[i].exitsem in Repr
      && pcb[i] !in deleted && pcb[i].Valid() && pcb[i].view == slots[i]
    }

    /** PTable::GetFileName */
    ghost function NameAt(i: nat): string
      requires Pcbs() && i in slots
      reads this, pcb, Repr
    {
      assert SlotOk(i);
      pcb[i].filename
    }

    constructor (size: nat)
      requires size > 0
      ensures Valid() && fresh(bm) && fresh(bm.words) && fresh(pcb)
      ensures psize == (if size > MAX_PROCESS then MAX_PROCESS else size) && slots == map[]
    {
      psize := if size > MAX_PROCESS then MAX_PROCESS else size;
      bm := new Bitmap(if size > MAX_PROCESS then MAX_PROCESS else size);
      pcb := new PCB?[MAX_PROCESS](_ => null);
      slots, Repr, deleted := map[], {}, {};
    }

    /** A new PCB in slot i. */
    method MakePcb(i: nat, name: string, currentID: int, ghost kid: Proc)
      requires Pcbs() && i < psize && i !in slots && pcb !in Repr && this !in Repr
      modifies this`slots, this`Repr, pcb
      ensures Pcbs() && fresh(Repr - old(Repr))
      ensures slots == old(slots)[i := NewPcb(kid, if i == 0 then -1 else currentID)]
      ensures NameAt(i) == name
    {
      var b := new PCB(i, currentID, kid);
      b.SetFileName(name);
      Put(i, b);
    }

    method Put(i: nat, b: PCB)
      requires Pcbs() && i < psize && i !in slots && pcb !in Repr && this !in Repr
      requires b.slot == i && b.Valid() && b !in deleted
      modifies this`slots, this`Repr, pcb
      ensures Pcbs() && slots == old(slots)[i := b.view]
      ensures Repr == old(Repr) + {b, b.joinsem, b.exitsem} && pcb[i] == b
    {
      pcb[i] := b;
      slots := slots[i := b.view];
      Repr := Repr + {b, b.joinsem, b.exitsem};
      forall j | j in slots ensures SlotOk(j) {
        assert j != i ==> old(SlotOk(j));
      }
      forall j: nat | j !in slots ensures NoPcb(j) {
        assert old(NoPcb(j));
      }
    }

    /** The first process is in slot 0 and has no parent. */
    method InitStartProcess(name: string)
      requires Valid() && slots == map[] && psize > 0
      modifies this`slots, this`Repr, bm.words, pcb
      ensures Valid() && Shows(Start(psize), 0, Running(0)) && NameAt(0) == name
      ensures Dangling(1)        // the first process calls Join(1) before any Exec
    {
      StartIsReached(psize);
      MakePcb(0, name, 0, 0);
      bm.Mark(0);
      DanglingIff(1);
    }

    /** A call to the PCB in a slot changes no other slot. */
    method Call(id: nat, use: Use) returns (asleep: bool)
      requires Pcbs() && this !in Repr && pcb !in Repr && id in slots && CanUse(slots[id], use)
      modifies this`slots, Repr
      ensures Pcbs() && slots == old(slots)[id := Used(old(slots)[id], use)]
      ensures asleep <==> MustSleep(old(slots)[id], use)
    {
      asleep := CallSlot(id, use);
      forall j: nat | j !in slots ensures NoPcb(j) {
        assert old(NoPcb(j));
      }
    }

    method CallSlot(id: nat, use: Use) returns (asleep: bool)
      requires SlotsOk() && this !in Repr && pcb !in Repr && id in slots && CanUse(slots[id], use)
      modifies this`slots, Repr
      ensures SlotsOk() && slots == old(slots)[id := Used(old(slots)[id], use)]
      ensures asleep <==> MustSleep(old(slots)[id], use)
    {
      assert SlotOk(id);
      ghost var b := pcb[id];
      asleep := CallOn(pcb[id], use);
      slots := slots[id := b.view];
      forall j | j in slots ensures SlotOk(j) {
        assert old(SlotOk(j));
        assert j != id ==> pcb[j].slot != b.slot && pcb[j].joinsem.tag / 2 != id && pcb[j].exitsem.tag / 2 != id;
      }
    }

    /** The lowest free slot gets a new PCB. */
    method NewSlot(name: string, currentID: int, ghost kid: Proc) returns (pid: int)
      requires Valid() && 0 in slots
      modifies this`slots, this`Repr, bm.words, pcb
      ensures Valid()
      ensures pid == -1 ==> slots == old(slots) && forall i: nat :: i < psize ==> i in slots
      ensures pid != -1 ==>
                && 0 <= pid < psize && pid !in old(slots) && (forall i: nat :: i < pid ==> i in old(slots))
                && slots == old(slots)[pid as nat := NewPcb(kid, currentID)] && NameAt(pid) == name
    {
      pid := GetFreeSlot();
      if pid >= 0 {
        MakePcb(pid, name, currentID, kid);
      }
    }

    method GetFreeSlot() returns (pid: int)
      requires Marks()
      modifies bm.words
      ensures bm.Valid() && -1 <= pid < psize
      ensures bm.Set() == if pid == -1 then slots.Keys else slots.Keys + {pid as nat}
      ensures pid == -1 ==> forall i: nat :: i < psize ==> i in slots
      ensures pid != -1 ==> pid !in slots && forall i: nat :: i < pid ==> i in slots
    {
      LowestClear(slots.Keys, psize);
      pid := bm.FindAndSet();
    }

    /**
     PTable::ExecUpdate. -1, and no change, when the name is null, is that of the caller or of the first
     process, cannot be opened, or when no slot is free; otherwise it is the step of module Processes.
    */
    method ExecUpdate(name: Option<string>, currentName: string, canOpen: bool, currentID: nat, current: Proc,
                      ghost kid: Proc, ghost s: Table)
      returns (pid: int)
      requires Valid() && 0 in slots && Shows(s, current, Running(currentID)) && kid !in s.pcs
      modifies this`slots, this`Repr, bm.words, pcb
      ensures Valid()
      ensures pid == -1 <==>
                || name == None || name == Some(currentName) || name == Some(old(NameAt(0))) || !canOpen
                || forall i: nat :: i < psize ==> i in old(slots)
      ensures pid == -1 ==> slots == old(slots)
      ensures pid != -1 ==>
                && 0 <= pid < psize && CanAct(s, current, Exec(pid, kid))
                && Shows(Perform(s, current, Exec(pid, kid)), kid, Running(pid))
                && name.Some? && pid in slots && NameAt(pid) == name.value
                && pid !in old(slots) && (forall i: nat :: i < pid ==> i in old(slots))
                && slots[pid] == Pcb(kid, currentID, 0, Sem(0, [], {}), Sem(0, [], {}), Unjoined)
    {
      if name == None {
        return -1;
      }
      if name.value == currentName {
        return -1;
      }
      assert SlotOk(0);
      if name.value == pcb[0].filename {
        return -1;
      }
      if !canOpen {
        return -1;
      }
      pid := NewSlot(name.value, currentID, kid);
      if pid >= 0 {
        ExecIs(s, current, pid, kid);
      }
    }

    /**
     PTable::JoinUpdate up to where the parent sleeps or returns. It is refused with -1 when the id is
     negative or the caller is not the parent. The first join of a child is what the parent does in module
     Processes, stepping alone; in a second one the parent sleeps on the semaphore of a child that is leaving.
    */
    method JoinUpdate(id: int, currentID: nat, current: Proc, ghost s: Table)
      returns (refused: bool, asleep: bool, exitcode: int)
      requires Valid() && Shows(s, current, Running(currentID)) && !Dangling(id)
      modifies this`slots, Repr
      ensures Valid()
      ensures refused <==> id < 0 || currentID != old(slots)[id].parent
      ensures refused ==> exitcode == -1 && slots == old(slots)
      ensures !refused && old(slots)[id].stage.Unjoined? ==>
                && CanAct(s, current, Join(id))
                && var n := Alone(Perform(s, current, Join(id)), current, 3);
                   Joined(n, current, old(slots)[id].child, asleep, exitcode)
      ensures !refused && !old(slots)[id].stage.Unjoined? ==>
                && old(slots)[id].stage.Released? && asleep
                && slots == old(slots)[id := Used(old(slots)[id], JoinWait(current))]
    {
      if id < 0 {
        return true, false, -1;
      }
      DanglingIff(id);
      assert SlotOk(id);
      if currentID != pcb[id].parentID {
        return true, false, -1;
      }
      refused := false;
      NotQueued(s, current, id);
      JoinOrLate(s, current, id);
      ghost var b := slots[id];
      var _ := Call(id, BeginJoin(current));
      asleep, exitcode := WaitForChild(id, current);
      if b.stage.Unjoined? {
        JoinedAlone(Perform(s, current, Join(id)), current, asleep, exitcode);
      }
    }

    /** JoinUpdate from its P on, whatever it finds. */
    method WaitForChild(id: nat, current: Proc) returns (asleep: bool, exitcode: int)
      requires Valid() && id in slots && current !in slots[id].join.queue
      modifies this`slots, Repr
      ensures Valid() && (asleep <==> old(slots)[id].join.value == 0)
      ensures !asleep ==> exitcode == old(slots)[id].code
      ensures slots == AfterWait(old(slots), id, current)
    {
      asleep := Call(id, JoinWait(current));
      exitcode := 0;
      if !asleep {
        assert SlotOk(id);
        exitcode := pcb[id].exitcode;
        var _ := Call(id, ExitRelease);
      }
    }

    /** The table is that of state n: the parent sleeps, or has returned with the code of the child's exit. */
    ghost predicate Joined(n: Table, p: Proc, kid: Proc, asleep: bool, exitcode: int)
      reads this
    {
      && p in n.pcs && Shows(n, p, n.pcs[p])
      && (if asleep then n.pcs[p].JoinAsleep?
          else
            && n.pcs[p].Running? && kid in n.joins && kid in n.exits
            && exitcode == n.joins[kid] == n.exits[kid])
    }

    /** JoinUpdate from its P on; a parent that has been woken is here again. */
    method JoinTested(id: nat, current: Proc, ghost s: Table) returns (asleep: bool, exitcode: int)
      requires Valid() && current in s.pcs && Shows(s, current, s.pcs[current])
      requires s.pcs[current].JoinTest? && s.pcs[current].c == id
      modifies this`slots, Repr
      ensures Valid() && Joined(Alone(s, current, 3), current, s.pcs[current].kid, asleep, exitcode)
    {
      HasPcb(s, current);
      NotQueued(s, current, id);
      asleep, exitcode := WaitForChild(id, current);
      JoinedAlone(s, current, asleep, exitcode);
    }

    lemma JoinedAlone(s: Table, p: Proc, asleep: bool, exitcode: int)
      requires Reached(s) && s.size == psize && p in s.pcs && s.pcs[p].JoinTest? && s.pcs[p].c in s.pcbs
      requires slots == AfterWait(s.pcbs, s.pcs[p].c, p)
      requires asleep <==> s.pcbs[s.pcs[p].c].join.value == 0
      requires !asleep ==> exitcode == s.pcbs[s.pcs[p].c].code
      ensures Joined(Alone(s, p, 3), p, s.pcs[p].kid, asleep, exitcode)
    {
      JoinAlone(s, p);
      AloneReaches(s, p, 3);
      if !asleep {
        CodeIsExits(Alone(s, p, 3), s.pcs[p].kid);
      }
    }

    /**
     PTable::ExitUpdate up to where the child sleeps or is gone; slot 0 would halt the machine instead.
     It is what the child does in module Processes, stepping alone.
    */
    method ExitUpdate(id: nat, exitcode: int, current: Proc, ghost s: Table) returns (asleep: bool)
      requires Valid() && id != 0 && Shows(s, current, Running(id))
      modifies this`slots, this`deleted, Repr, bm.words
      ensures Valid()
      ensures CanAct(s, current, Exit(exitcode))
      ensures Left(Alone(Perform(s, current, Exit(exitcode)), current, 3), current, asleep)
    {
      HasPcb(s, current);
      ExitBegins(s, current, exitcode);
      var exist := bm.Test(id);
      assert exist;
      var _ := Call(id, SetExitCode(exitcode));
      var _ := Call(id, JoinRelease);
      asleep := ExitTested(id, current, Perform(Perform(s, current, Exit(exitcode)), current, Go));
    }

    ghost predicate Left(n: Table, p: Proc, asleep: bool)
      reads this
    {
      p in n.pcs && Shows(n, p, n.pcs[p]) && if asleep then n.pcs[p].ExitAsleep? else n.pcs[p].Gone?
    }

    /** ExitUpdate from its P on; a child that has been woken is here again. */
    method ExitTested(id: nat, current: Proc, ghost s: Table) returns (asleep: bool)
      requires Valid() && Shows(s, current, ExitTest(id))
      modifies this`slots, this`deleted, Repr, bm.words
      ensures Valid() && Left(Alone(s, current, 2), current, asleep)
    {
      HasPcb(s, current);
      ExitAlone(s, current);
      AloneReaches(s, current, 2);
      NotQueued(s, current, id);
      asleep := Call(id, ExitWait(current));
      if !asleep {
        Remove(id);
      }
    }

    /** PTable::Remove: the slot is clear, and its PCB deleted. */
    method Remove(pid: nat)
      requires Valid() && pid in slots
      modifies this`slots, this`deleted, bm.words
      ensures Valid() && slots == old(slots) - {pid}
    {
      assert SlotOk(pid);
      bm.Clear(pid);
      deleted := deleted + {pcb[pid]};
      slots := slots - {pid};
      forall j | j in slots ensures SlotOk(j) {
        assert old(SlotOk(j)) && pcb[j].slot != pcb[pid].slot;
      }
      forall j: nat | j !in slots ensures NoPcb(j) {
        assert j != pid ==> old(NoPcb(j));
      }
    }
  }

  // ---------------------------------------------------------------- the steps

  /** The process takes its next steps, k or as many as it can, and nobody else steps in between. */
  ghost function Alone(s: Table, p: Proc, k: nat): Table
    decreases k
  {
    if k == 0 || !CanAct(s, p, Go) then s else Alone(Perform(s, p, Go), p, k - 1)
  }

  lemma {:induction false} AloneReaches(s: Table, p: Proc, k: nat)
    requires Reached(s)
    ensures Reached(Alone(s, p, k)) && Alone(s, p, k).size == s.size
    decreases k
  {
    if k > 0 && CanAct(s, p, Go) {
      ReachedStep(s, p, Go);
      AloneReaches(Perform(s, p, Go), p, k - 1);
    }
  }

  lemma ExecIs(s: Table, p: Proc, c: nat, kid: Proc)
    requires Reached(s) && p in s.pcs && s.pcs[p].Running? && LowestFree(s, c) && kid !in s.pcs
    ensures CanAct(s, p, Exec(c, kid)) && Reached(Perform(s, p, Exec(c, kid)))
    ensures var n := Perform(s, p, Exec(c, kid));
            && n.size == s.size && n.pcbs == s.pcbs[c := NewPcb(kid, s.pcs[p].slot)]
            && kid in n.pcs && n.pcs[kid] == Running(c)
  {
    ReachedStep(s, p, Exec(c, kid));
  }

  /** A process that is awake is in no queue, and one that joins has its child's PCB. */
  lemma NotQueued(s: Table, p: Proc, c: nat)
    requires Reached(s) && p in s.pcs && !s.pcs[p].JoinAsleep? && !s.pcs[p].ExitAsleep? && c in s.pcbs
    ensures p !in s.pcbs[c].join.queue && p !in s.pcbs[c].exit.queue
  {
    ReachedInv(s);
    assert PcbOk(s, c);
  }

  lemma HasPcb(s: Table, p: Proc)
    requires Reached(s) && p in s.pcs && !s.pcs[p].Gone?
    ensures s.pcs[p].slot in s.pcbs
    ensures s.pcs[p].JoinTest? ==> s.pcs[p].c in s.pcbs
  {
    ReachedInv(s);
    assert JoinerOk(s, p);
  }

  lemma CodeIsExits(s: Table, kid: Proc)
    requires Reached(s) && kid in s.joins
    ensures kid in s.exits && s.exits[kid] == s.joins[kid]
  {
    ReachedInv(s);
  }

  /** A parent that runs joins the child for the first time, or finds it leaving. */
  lemma JoinOrLate(s: Table, p: Proc, c: nat)
    requires Reached(s) && p in s.pcs && s.pcs[p].Running? && c in s.pcbs && s.pcbs[c].parent == s.pcs[p].slot
    ensures s.pcbs[c].stage.Unjoined? ==>
              && CanAct(s, p, Join(c))
              && var t := Perform(s, p, Join(c));
                 && Reached(t) && t.size == s.size && t.pcbs == s.pcbs[c := Used(s.pcbs[c], BeginJoin(p))]
                 && p in t.pcs && t.pcs[p] == JoinTest(s.pcs[p].slot, c, s.pcbs[c].child)
    ensures !s.pcbs[c].stage.Unjoined? ==> s.pcbs[c].stage.Released? && s.pcbs[c].join.value == 0
  {
    if s.pcbs[c].stage.Unjoined? {
      JoinBegins(s, p, c);
    } else {
      ReachedInv(s);
      JoinedBefore(s, p, c);
    }
  }

  lemma JoinBegins(s: Table, p: Proc, c: nat)
    requires Reached(s) && CanAct(s, p, Join(c))
    ensures var t := Perform(s, p, Join(c));
            && Reached(t) && t.size == s.size && t.pcbs == s.pcbs[c := Used(s.pcbs[c], BeginJoin(p))]
            && p in t.pcs && t.pcs[p] == JoinTest(s.pcs[p].slot, c, s.pcbs[c].child)
  {
    ReachedStep(s, p, Join(c));
  }

  /** The slots after a P on the child's joinsem, and the V on its exitsem unless the P sleeps. */
  function AfterWait(slots: map<nat, Pcb>, c: nat, p: Proc): map<nat, Pcb>
    requires c in slots
  {
    var b := Used(slots[c], JoinWait(p));
    if slots[c].join.value == 0 then slots[c := b] else slots[c := b][c := Used(b, ExitRelease)]
  }

  lemma JoinAlone(s: Table, p: Proc)
    requires p in s.pcs && s.pcs[p].JoinTest? && s.pcs[p].c in s.pcbs
    ensures var n, pc := Alone(s, p, 3), s.pcs[p];
            && p in n.pcs && n.pcbs == AfterWait(s.pcbs, pc.c, p)
            && if s.pcbs[pc.c].join.value == 0 then n.pcs[p].JoinAsleep?
               else n.pcs[p].Running? && pc.kid in n.joins && n.joins[pc.kid] == s.pcbs[pc.c].code
  {
    var t := Perform(s, p, Go);
    assert Alone(s, p, 3) == Alone(t, p, 2);
  }

  lemma ExitBegins(s: Table, p: Proc, code: int)
    requires Reached(s) && CanAct(s, p, Exit(code))
    ensures var c, t := s.pcs[p].slot, Perform(s, p, Exit(code));
            && c in s.pcbs && CanAct(t, p, Go)
            && var u, b := Perform(t, p, Go), Used(s.pcbs[c], SetExitCode(code));
               && Reached(u) && u.size == s.size && p in u.pcs && u.pcs[p] == ExitTest(c)
               && u.pcbs == s.pcbs[c := b][c := Used(b, JoinRelease)]
               && Alone(t, p, 3) == Alone(u, p, 2)
  {
    HasPcb(s, p);
    ReachedStep(s, p, Exit(code));
    ReachedStep(Perform(s, p, Exit(code)), p, Go);
  }

  lemma ExitAlone(s: Table, p: Proc)
    requires p in s.pcs && s.pcs[p].ExitTest? && s.pcs[p].slot in s.pcbs
    ensures var n, c := Alone(s, p, 2), s.pcs[p].slot;
            && p in n.pcs
            && var b := s.pcbs[c];
               if b.exit.value == 0
               then n.pcs[p].ExitAsleep? && n.pcbs == s.pcbs[c := Used(b, ExitWait(p))]
               else n.pcs[p].Gone? && n.pcbs == s.pcbs[c := Used(b, ExitWait(p))] - {c}
  {
    var t := Perform(s, p, Go);
    assert Alone(s, p, 2) == Alone(t, p, 1);
  }

  predicate MustSleep(b: Pcb, use: Use) {
    (use.JoinWait? && b.join.value == 0) || (use.ExitWait? && b.exit.value == 0)
  }

  method CallOn(b: PCB, use: Use) returns (asleep: bool)
    requires b.Valid() && CanUse(b.view, use)
    modifies b`view, b`exitcode, b.joinsem, b.exitsem
    ensures b.Valid() && b.view == Used(old(b.view), use)
    ensures asleep <==> MustSleep(old(b.view), use)
  {
    asleep := false;
    match use {
      case BeginJoin(p) => b.BeginJoin(p);
      case SetExitCode(code) => b.SetExitCode(code);
      case JoinWait(p) => asleep := b.JoinWait(p);
      case JoinRelease => var _ := b.JoinRelease();
      case ExitWait(p) => asleep := b.ExitWait(p);
      case ExitRelease => var _ := b.ExitRelease();
    }
  }

  lemma LowestClear(marked: set<nat>, n: nat)
    ensures var f := FirstClear(marked, 0, n);
            && (f == -1 <==> forall i: nat :: i < n ==> i in marked)
            && (f != -1 ==> 0 <= f < n && f !in marked && forall i: nat :: i < f ==> i in marked)
  {
    forall i: nat | i < n && (FirstClear(marked, 0, n) == -1 || i < FirstClear(marked, 0, n)) ensures i in marked {
      FirstClearIsFirst(marked, 0, n, i);
    }
  }
}
