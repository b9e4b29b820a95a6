/**
 threads/ptable.cc and threads/pcb.cc: a table of processes in which a parent joins its child and the
 child's exit waits to be joined. Every piece between two semaphore operations is one step, and the
 steps of all processes interleave freely.
*/
module Processes {
  import opened Common
  import opened Semaphores

  /** A process, for the whole run; table slots are reused, these numbers are not. */
  type Proc = nat

  /** History of the one join of a child: not called, before its P, after its P, exit released. */
  datatype Join = Unjoined | Waiting(joiner: Proc) | Passed(joiner: Proc) | Released

  /** A PCB: the process it was made for, its parent's slot, the exit code and the two semaphores. */
  datatype Pcb = Pcb(child: Proc, parent: int, code: int, join: Sem, exit: Sem, stage: Join)

  /** The program counter of a process in slot `slot`; a join names the child's slot and the child. */
  datatype Pc =
    | Running(slot: nat)
    | JoinTest(slot: nat, c: nat, kid: Proc)                 // JoinWait: P on joinsem
    | JoinAsleep(slot: nat, c: nat, kid: Proc)
    | JoinRead(slot: nat, c: nat, kid: Proc)                 // about to read the exit code
    | JoinV(slot: nat, c: nat, kid: Proc, code: int)         // ExitRelease: about to V exitsem
    | ExitV(slot: nat)                                       // code set; JoinRelease: about to V joinsem
    | ExitTest(slot: nat)                                    // ExitWait: P on exitsem
    | ExitAsleep(slot: nat)
    | Removing(slot: nat)                                    // about to clear the slot and delete the PCB
    | Gone

  /** `exits` and `joins` are history: the code each process gave to ExitUpdate, and what JoinUpdate returned for it. */
  datatype Table = Table(
    size: nat, pcbs: map<nat, Pcb>, pcs: map<Proc, Pc>, exits: map<Proc, int>, joins: map<Proc, int>)

  /** A new PCB for a process whose parent is in slot `parent`. */
  function NewPcb(kid: Proc, parent: int): Pcb {
    Pcb(kid, parent, 0, Sem(0, [], {}), Sem(0, [], {}), Unjoined)
  }

  datatype Act = Exec(c: nat, kid: Proc) | Join(c: nat) | Exit(code: int) | Go

  /** Bitmap::FindAndSet: c is the lowest slot that is not marked. */
  ghost predicate LowestFree(s: Table, c: nat) {
    c < s.size && c !in s.pcbs && forall i: nat :: i < c ==> i in s.pcbs
  }

  /** A child may be joined by a process in its parent's slot, once. The process in slot 0 halts the machine on exit. */
  ghost predicate CanAct(s: Table, p: Proc, a: Act) {
    && p in s.pcs
    && match s.pcs[p]
       case Running(slot) =>
         (match a
          case Exec(c, kid) => LowestFree(s, c) && kid !in s.pcs
          case Join(c) => c in s.pcbs && s.pcbs[c].parent == slot && s.pcbs[c].stage.Unjoined?
          case Exit(_) => slot != 0
          case Go => false)
       case JoinAsleep(_, _, _) => false
       case ExitAsleep(_) => false
       case Gone => false
       case _ => a.Go?
  }

  function PcbOf(s: Table, c: nat): Pcb {
    if c in s.pcbs then s.pcbs[c] else NewPcb(0, -1)
  }

  /** ReadyToRun for the process at the head of the queue. */
  function WakeFirst(pcs: map<Proc, Pc>, queue: seq<Proc>): map<Proc, Pc> {
    if queue == [] || queue[0] !in pcs then pcs else
    match pcs[queue[0]]
    case JoinAsleep(slot, c, kid) => pcs[queue[0] := JoinTest(slot, c, kid)]
    case ExitAsleep(slot) => pcs[queue[0] := ExitTest(slot)]
    case _ => pcs
  }

  function ExecStep(s: Table, p: Proc, c: nat, kid: Proc): Table
    requires p in s.pcs && s.pcs[p].Running?
  {
    s.(pcbs := s.pcbs[c := NewPcb(kid, s.pcs[p].slot)],
       pcs := s.pcs[kid := Running(c)])
  }

  function JoinStep(s: Table, p: Proc, c: nat): Table
    requires p in s.pcs && s.pcs[p].Running?
  {
    s.(pcbs := s.pcbs[c := PcbOf(s, c).(stage := Waiting(p))],
       pcs := s.pcs[p := JoinTest(s.pcs[p].slot, c, PcbOf(s, c).child)])
  }

  function ExitStep(s: Table, p: Proc, code: int): Table
    requires p in s.pcs && s.pcs[p].Running?
  {
    var c := s.pcs[p].slot;
    s.(pcbs := s.pcbs[c := PcbOf(s, c).(code := code)], pcs := s.pcs[p := ExitV(c)], exits := s.exits[p := code])
  }

  function JoinTestStep(s: Table, p: Proc, pc: Pc): Table
    requires pc.JoinTest?
  {
    var b := PcbOf(s, pc.c);
    if b.join.value == 0
    then s.(pcbs := s.pcbs[pc.c := b.(join := PassP(b.join, p))], pcs := s.pcs[p := JoinAsleep(pc.slot, pc.c, pc.kid)])
    else s.(pcbs := s.pcbs[pc.c := b.(join := PassP(b.join, p), stage := Passed(p))],
            pcs := s.pcs[p := JoinRead(pc.slot, pc.c, pc.kid)])
  }

  function JoinReadStep(s: Table, p: Proc, pc: Pc): Table
    requires pc.JoinRead?
  {
    s.(pcs := s.pcs[p := JoinV(pc.slot, pc.c, pc.kid, PcbOf(s, pc.c).code)])
  }

  function JoinVStep(s: Table, p: Proc, pc: Pc): Table
    requires pc.JoinV?
  {
    var b := PcbOf(s, pc.c);
    s.(pcbs := s.pcbs[pc.c := b.(exit := StepV(b.exit), stage := Released)],
       pcs := WakeFirst(s.pcs, b.exit.queue)[p := Running(pc.slot)],
       joins := s.joins[pc.kid := pc.code])
  }

  function ExitVStep(s: Table, p: Proc, c: nat): Table {
    var b := PcbOf(s, c);
    s.(pcbs := s.pcbs[c := b.(join := StepV(b.join))], pcs := WakeFirst(s.pcs, b.join.queue)[p := ExitTest(c)])
  }

  function ExitTestStep(s: Table, p: Proc, c: nat): Table {
    var b := PcbOf(s, c);
    s.(pcbs := s.pcbs[c := b.(exit := PassP(b.exit, p))],
       pcs := s.pcs[p := if b.exit.value == 0 then ExitAsleep(c) else Removing(c)])
  }

  function RemoveStep(s: Table, p: Proc, c: nat): Table {
    s.(pcbs := s.pcbs - {c}, pcs := s.pcs[p := Gone])
  }

  function Perform(s: Table, p: Proc, a: Act): Table
    requires CanAct(s, p, a)
  {
    var pc := s.pcs[p];
    match pc
    case Running(_) =>
      (match a
       case Exec(c, kid) => ExecStep(s, p, c, kid)
       case Join(c) => JoinStep(s, p, c)
       case Exit(code) => ExitStep(s, p, code)
       case Go => s)
    case JoinTest(_, _, _) => JoinTestStep(s, p, pc)
    case JoinRead(_, _, _) => JoinReadStep(s, p, pc)
    case JoinV(_, _, _, _) => JoinVStep(s, p, pc)
    case ExitV(c) => ExitVStep(s, p, c)
    case ExitTest(c) => ExitTestStep(s, p, c)
    case Removing(c) => RemoveStep(s, p, c)
    case _ => s
  }

  /** PTable::initStartProcess: the first process has slot 0 and no parent. */
  function Start(size: nat): Table {
    Table(size, map[0 := NewPcb(0, -1)], map[0 := Running(0)], map[], map[])
  }

  // ---------------------------------------------------------------- invariant

  predicate Joining(pc: Pc) {
    pc.JoinTest? || pc.JoinAsleep? || pc.JoinRead? || pc.JoinV?
  }

  predicate Exiting(pc: Pc) {
    pc.ExitV? || pc.ExitTest? || pc.ExitAsleep? || pc.Removing?
  }

  /** Every process that is not gone has its own PCB. */
  ghost predicate SlotsOk(s: Table) {
    && (forall p :: p in s.pcs && !s.pcs[p].Gone? ==> s.pcs[p].slot in s.pcbs && s.pcbs[s.pcs[p].slot].child == p)
    && (forall c :: c in s.pcbs ==>
          s.pcbs[c].child in s.pcs && !s.pcs[s.pcbs[c].child].Gone? && s.pcs[s.pcbs[c].child].slot == c)
    && (forall p :: p in s.pcs && (Exiting(s.pcs[p]) || s.pcs[p].Gone?) ==> p in s.exits)
    && (forall p :: p in s.exits ==> p in s.pcs && (Exiting(s.pcs[p]) || s.pcs[p].Gone?))
  }

  /** A process inside JoinUpdate finds the PCB of the child it joins, in the stage it has reached. */
  ghost predicate JoinerOk(s: Table, p: Proc)
    requires p in s.pcs
  {
    var pc := s.pcs[p];
    Joining(pc) ==>
      && pc.c in s.pcbs
      && s.pcbs[pc.c].child == pc.kid && s.pcbs[pc.c].parent == pc.slot
      && s.pcbs[pc.c].stage == (if pc.JoinTest? || pc.JoinAsleep? then Waiting(p) else Passed(p))
      && (pc.JoinV? ==> pc.code == s.pcbs[pc.c].code)
  }

  /** The PCB of child k in slot c: the two semaphores count exactly how far both sides have come. */
  ghost predicate PcbOk(s: Table, c: nat)
    requires c in s.pcbs && s.pcbs[c].child in s.pcs
  {
    var b, pc := s.pcbs[c], s.pcs[s.pcbs[c].child];
    var told := pc.ExitTest? || pc.ExitAsleep? || pc.Removing?;
    && (Exiting(pc) ==> b.child in s.exits && b.code == s.exits[b.child])
    && (b.stage.Passed? || b.stage.Released? ==> told)
    && b.join.value == (if told && (b.stage.Unjoined? || b.stage.Waiting?) then 1 else 0)
    && b.exit.value == (if b.stage.Released? && !pc.Removing? then 1 else 0)
    && (pc.Removing? ==> b.stage.Released?)
    && (b.stage.Waiting? || b.stage.Passed? ==>
          b.stage.joiner in s.pcs && Joining(s.pcs[b.stage.joiner]) && s.pcs[b.stage.joiner].c == c)
    && b.join.queue == (if b.stage.Waiting? && s.pcs[b.stage.joiner].JoinAsleep? then [b.stage.joiner] else [])
    && (b.join.queue != [] ==> !told)
    && b.exit.queue == (if pc.ExitAsleep? then [b.child] else [])
    && (pc.ExitAsleep? ==> !b.stage.Released?)
  }

  ghost predicate JoinersOk(s: Table) {
    forall p {:trigger JoinerOk(s, p)} :: p in s.pcs ==> JoinerOk(s, p)
  }

  ghost predicate PcbsOk(s: Table) {
    forall c {:trigger PcbOk(s, c)} :: c in s.pcbs ==> s.pcbs[c].child in s.pcs && PcbOk(s, c)
  }

  ghost predicate JoinsOk(s: Table) {
    && (forall k :: k in s.joins ==> k in s.exits && s.exits[k] == s.joins[k])
    && (forall c :: c in s.pcbs && s.pcbs[c].stage.Released? ==> s.pcbs[c].child in s.joins)
    && (forall p :: p in s.pcs && s.pcs[p].Gone? ==> p in s.joins)
  }

  ghost predicate Inv(s: Table) {
    SlotsOk(s) && JoinersOk(s) && PcbsOk(s) && JoinsOk(s)
  }

  // ---------------------------------------------------------------- every step keeps it

  /** How far the exit of a process has come. */
  function Phase(pc: Pc): nat {
    if pc.ExitV? then 1 else if pc.ExitTest? then 2 else if pc.ExitAsleep? then 3 else if pc.Removing? then 4 else 0
  }

  /** A PCB that the step does not touch: neither its child nor its joiner moves in a way it can see. */
  lemma PcbUntouched(s: Table, n: Table, c: nat)
    requires c in s.pcbs && c in n.pcbs && n.pcbs[c] == s.pcbs[c]
    requires s.pcbs[c].child in s.pcs && s.pcbs[c].child in n.pcs && PcbOk(s, c)
    requires Phase(n.pcs[s.pcbs[c].child]) == Phase(s.pcs[s.pcbs[c].child])
    requires s.pcbs[c].child in s.exits ==>
               s.pcbs[c].child in n.exits && n.exits[s.pcbs[c].child] == s.exits[s.pcbs[c].child]
    requires s.pcbs[c].stage.Waiting? || s.pcbs[c].stage.Passed? ==>
               s.pcbs[c].stage.joiner in n.pcs && n.pcs[s.pcbs[c].stage.joiner] == s.pcs[s.pcbs[c].stage.joiner]
    ensures PcbOk(n, c)
  {
  }

  /** To the table a process is where it was. */
  predicate SamePlace(a: Pc, b: Pc) {
    a.Gone? == b.Gone? && Exiting(a) == Exiting(b) && (!a.Gone? ==> a.slot == b.slot)
  }

  lemma MoveInPlace(pcs: map<Proc, Pc>, now: map<Proc, Pc>, p: Proc, pc: Pc)
    requires now.Keys == pcs.Keys && p in pcs && SamePlace(pcs[p], pc)
    requires forall q :: q in pcs ==> SamePlace(pcs[q], now[q])
    ensures now[p := pc].Keys == pcs.Keys && forall q :: q in pcs ==> SamePlace(pcs[q], now[p := pc][q])
  {
  }

  /** No process comes or goes. */
  lemma SlotsUntouched(s: Table, n: Table)
    requires SlotsOk(s) && n.pcbs.Keys == s.pcbs.Keys && n.pcs.Keys == s.pcs.Keys && n.exits == s.exits
    requires forall c :: c in s.pcbs ==> n.pcbs[c].child == s.pcbs[c].child
    requires forall p :: p in s.pcs ==> SamePlace(s.pcs[p], n.pcs[p])
    ensures SlotsOk(n)
  {
  }

  /** One PCB changes but keeps its child. */
  lemma SamePcbs(s: Table, n: Table, d: nat, b: Pcb)
    requires d in s.pcbs && n.pcbs == s.pcbs[d := b] && b.child == s.pcbs[d].child
    ensures n.pcbs.Keys == s.pcbs.Keys
    ensures forall c :: c in s.pcbs ==> n.pcbs[c].child == s.pcbs[c].child
  {
  }

  lemma WakeMoves(pcs: map<Proc, Pc>, queue: seq<Proc>)
    ensures WakeFirst(pcs, queue).Keys == pcs.Keys
    ensures forall p :: p in pcs ==> SamePlace(pcs[p], WakeFirst(pcs, queue)[p])
  {
  }

  /** Different slots have different children, and different joiners. */
  lemma SlotsApart(s: Table, c: nat, d: nat)
    requires SlotsOk(s) && PcbsOk(s) && c in s.pcbs && d in s.pcbs && c != d
    ensures s.pcbs[c].child != s.pcbs[d].child
    ensures (s.pcbs[c].stage.Waiting? || s.pcbs[c].stage.Passed?)
            && (s.pcbs[d].stage.Waiting? || s.pcbs[d].stage.Passed?) ==>
              s.pcbs[c].stage.joiner != s.pcbs[d].stage.joiner
  {
    assert PcbOk(s, c) && PcbOk(s, d);
  }

  lemma ExecSlots(s: Table, p: Proc, c0: nat, kid: Proc)
    requires SlotsOk(s) && PcbsOk(s) && CanAct(s, p, Exec(c0, kid))
    ensures SlotsOk(ExecStep(s, p, c0, kid))
  {
  }

  lemma ExecJoiners(s: Table, p: Proc, c0: nat, kid: Proc)
    requires SlotsOk(s) && JoinersOk(s) && PcbsOk(s) && CanAct(s, p, Exec(c0, kid))
    ensures JoinersOk(ExecStep(s, p, c0, kid))
  {
    var n := ExecStep(s, p, c0, kid);
    forall q | q in n.pcs ensures JoinerOk(n, q) {
      assert q in s.pcs ==> JoinerOk(s, q);
    }
  }

  lemma ExecPcbs(s: Table, p: Proc, c0: nat, kid: Proc)
    requires SlotsOk(s) && JoinersOk(s) && PcbsOk(s) && CanAct(s, p, Exec(c0, kid))
    ensures PcbsOk(ExecStep(s, p, c0, kid))
  {
    var n, d := ExecStep(s, p, c0, kid), c0;
    forall c | c in n.pcbs ensures n.pcbs[c].child in n.pcs && PcbOk(n, c) {
      if c != d {
        assert PcbOk(s, c);
        PcbUntouched(s, n, c);
      }
    }
  }

  lemma ExecJoins(s: Table, p: Proc, c0: nat, kid: Proc)
    requires SlotsOk(s) && JoinersOk(s) && PcbsOk(s) && JoinsOk(s) && CanAct(s, p, Exec(c0, kid))
    ensures JoinsOk(ExecStep(s, p, c0, kid))
  {
  }

  lemma ExecKeeps(s: Table, p: Proc, c0: nat, kid: Proc)
    requires Inv(s) && CanAct(s, p, Exec(c0, kid))
    ensures Inv(ExecStep(s, p, c0, kid))
  {
    ExecSlots(s, p, c0, kid);
    ExecJoiners(s, p, c0, kid);
    ExecJoins(s, p, c0, kid);
    ExecPcbs(s, p, c0, kid);
  }

  lemma JoinSlots(s: Table, p: Proc, c0: nat)
    requires SlotsOk(s) && CanAct(s, p, Join(c0))
    ensures SlotsOk(JoinStep(s, p, c0))
  {
    SlotsUntouched(s, JoinStep(s, p, c0));
  }

  lemma JoinJoiners(s: Table, p: Proc, c0: nat)
    requires SlotsOk(s) && JoinersOk(s) && PcbsOk(s) && CanAct(s, p, Join(c0))
    ensures JoinersOk(JoinStep(s, p, c0))
  {
    var n := JoinStep(s, p, c0);
    forall q | q in n.pcs ensures JoinerOk(n, q) {
      assert q in s.pcs ==> JoinerOk(s, q);
    }
  }

  lemma JoinPcbs(s: Table, p: Proc, c0: nat)
    requires SlotsOk(s) && JoinersOk(s) && PcbsOk(s) && CanAct(s, p, Join(c0))
    ensures PcbsOk(JoinStep(s, p, c0))
  {
    var n, d := JoinStep(s, p, c0), c0;
    forall c | c in n.pcbs ensures n.pcbs[c].child in n.pcs && PcbOk(n, c) {
      if c != d {
        SlotsApart(s, c, d);
        assert PcbOk(s, c);
        PcbUntouched(s, n, c);
      } else {
        assert PcbOk(s, d);
      }
    }
  }

  lemma JoinJoins(s: Table, p: Proc, c0: nat)
    requires SlotsOk(s) && JoinersOk(s) && PcbsOk(s) && JoinsOk(s) && CanAct(s, p, Join(c0))
    ensures JoinsOk(JoinStep(s, p, c0))
  {
  }

  lemma JoinKeeps(s: Table, p: Proc, c0: nat)
    requires Inv(s) && CanAct(s, p, Join(c0))
    ensures Inv(JoinStep(s, p, c0))
  {
    JoinSlots(s, p, c0);
    JoinJoiners(s, p, c0);
    JoinJoins(s, p, c0);
    JoinPcbs(s, p, c0);
  }

  lemma ExitSlots(s: Table, p: Proc, code: int)
    requires SlotsOk(s) && PcbsOk(s) && CanAct(s, p, Exit(code))
    ensures SlotsOk(ExitStep(s, p, code))
  {
  }

  lemma ExitJoiners(s: Table, p: Proc, code: int)
    requires SlotsOk(s) && JoinersOk(s) && PcbsOk(s) && CanAct(s, p, Exit(code))
    ensures JoinersOk(ExitStep(s, p, code))
  {
    var n := ExitStep(s, p, code);
    assert PcbOk(s, s.pcs[p].slot);
    forall q | q in n.pcs ensures JoinerOk(n, q) {
      assert q in s.pcs ==> JoinerOk(s, q);
    }
  }

  lemma ExitPcbs(s: Table, p: Proc, code: int)
    requires SlotsOk(s) && JoinersOk(s) && PcbsOk(s) && CanAct(s, p, Exit(code))
    ensures PcbsOk(ExitStep(s, p, code))
  {
    var n, d := ExitStep(s, p, code), s.pcs[p].slot;
    forall c | c in n.pcbs ensures n.pcbs[c].child in n.pcs && PcbOk(n, c) {
      if c != d {
        SlotsApart(s, c, d);
        assert PcbOk(s, c);
        PcbUntouched(s, n, c);
      } else {
        assert PcbOk(s, d);
      }
    }
  }

  lemma ExitJoins(s: Table, p: Proc, code: int)
    requires SlotsOk(s) && JoinersOk(s) && PcbsOk(s) && JoinsOk(s) && CanAct(s, p, Exit(code))
    ensures JoinsOk(ExitStep(s, p, code))
  {
    assert PcbOk(s, s.pcs[p].slot);
  }

  lemma ExitKeeps(s: Table, p: Proc, code: int)
    requires Inv(s) && CanAct(s, p, Exit(code))
    ensures Inv(ExitStep(s, p, code))
  {
    ExitSlots(s, p, code);
    ExitJoiners(s, p, code);
    ExitJoins(s, p, code);
    ExitPcbs(s, p, code);
  }

  lemma JoinTestSlots(s: Table, p: Proc)
    requires SlotsOk(s) && p in s.pcs && s.pcs[p].JoinTest? && s.pcs[p].c in s.pcbs
    ensures SlotsOk(JoinTestStep(s, p, s.pcs[p]))
  {
    var n := JoinTestStep(s, p, s.pcs[p]);
    SamePcbs(s, n, s.pcs[p].c, n.pcbs[s.pcs[p].c]);
    MoveInPlace(s.pcs, s.pcs, p, n.pcs[p]);
    SlotsUntouched(s, n);
  }

  lemma JoinTestJoiners(s: Table, p: Proc)
    requires SlotsOk(s) && JoinersOk(s) && PcbsOk(s) && p in s.pcs && s.pcs[p].JoinTest?
    ensures JoinersOk(JoinTestStep(s, p, s.pcs[p]))
  {
    var n := JoinTestStep(s, p, s.pcs[p]);
    assert JoinerOk(s, p);
    forall q | q in n.pcs ensures JoinerOk(n, q) {
      assert q in s.pcs ==> JoinerOk(s, q);
    }
  }

  lemma JoinTestPcbs(s: Table, p: Proc)
    requires SlotsOk(s) && JoinersOk(s) && PcbsOk(s) && p in s.pcs && s.pcs[p].JoinTest?
    ensures PcbsOk(JoinTestStep(s, p, s.pcs[p]))
  {
    var n, d := JoinTestStep(s, p, s.pcs[p]), s.pcs[p].c;
    assert JoinerOk(s, p);
    forall c | c in n.pcbs ensures n.pcbs[c].child in n.pcs && PcbOk(n, c) {
      if c != d {
        SlotsApart(s, c, d);
        assert PcbOk(s, c);
        PcbUntouched(s, n, c);
      } else {
        assert PcbOk(s, d);
      }
    }
  }

  lemma JoinTestJoins(s: Table, p: Proc)
    requires JoinsOk(s) && p in s.pcs && s.pcs[p].JoinTest? && s.pcs[p].c in s.pcbs
    ensures JoinsOk(JoinTestStep(s, p, s.pcs[p]))
  {
  }

  lemma JoinTestKeeps(s: Table, p: Proc)
    requires Inv(s) && p in s.pcs && s.pcs[p].JoinTest?
    ensures Inv(JoinTestStep(s, p, s.pcs[p]))
  {
    assert JoinerOk(s, p);
    JoinTestSlots(s, p);
    JoinTestJoiners(s, p);
    JoinTestJoins(s, p);
    JoinTestPcbs(s, p);
  }

  lemma JoinReadSlots(s: Table, p: Proc)
    requires SlotsOk(s) && p in s.pcs && s.pcs[p].JoinRead? && JoinerOk(s, p)
    ensures SlotsOk(JoinReadStep(s, p, s.pcs[p]))
  {
    SlotsUntouched(s, JoinReadStep(s, p, s.pcs[p]));
  }

  lemma JoinReadJoiners(s: Table, p: Proc)
    requires SlotsOk(s) && JoinersOk(s) && PcbsOk(s) && p in s.pcs && s.pcs[p].JoinRead?
    ensures JoinersOk(JoinReadStep(s, p, s.pcs[p]))
  {
    var n := JoinReadStep(s, p, s.pcs[p]);
    assert JoinerOk(s, p);
    forall q | q in n.pcs ensures JoinerOk(n, q) {
      assert q in s.pcs ==> JoinerOk(s, q);
    }
  }

  lemma JoinReadPcbs(s: Table, p: Proc)
    requires SlotsOk(s) && JoinersOk(s) && PcbsOk(s) && p in s.pcs && s.pcs[p].JoinRead?
    ensures PcbsOk(JoinReadStep(s, p, s.pcs[p]))
  {
    var n, d := JoinReadStep(s, p, s.pcs[p]), s.pcs[p].c;
    assert JoinerOk(s, p);
    forall c | c in n.pcbs ensures n.pcbs[c].child in n.pcs && PcbOk(n, c) {
      if c != d {
        SlotsApart(s, c, d);
        assert PcbOk(s, c);
        PcbUntouched(s, n, c);
      } else {
        assert PcbOk(s, d);
      }
    }
  }

  lemma JoinReadJoins(s: Table, p: Proc)
    requires SlotsOk(s) && JoinersOk(s) && PcbsOk(s) && JoinsOk(s) && p in s.pcs && s.pcs[p].JoinRead?
    ensures JoinsOk(JoinReadStep(s, p, s.pcs[p]))
  {
  }

  lemma JoinReadKeeps(s: Table, p: Proc)
    requires Inv(s) && p in s.pcs && s.pcs[p].JoinRead?
    ensures Inv(JoinReadStep(s, p, s.pcs[p]))
  {
    JoinReadSlots(s, p);
    JoinReadJoiners(s, p);
    JoinReadJoins(s, p);
    JoinReadPcbs(s, p);
  }

  lemma JoinVSlots(s: Table, p: Proc)
    requires SlotsOk(s) && p in s.pcs && s.pcs[p].JoinV? && s.pcs[p].c in s.pcbs
    ensures SlotsOk(JoinVStep(s, p, s.pcs[p]))
  {
    WakeMoves(s.pcs, PcbOf(s, s.pcs[p].c).exit.queue);
    MoveInPlace(s.pcs, WakeFirst(s.pcs, PcbOf(s, s.pcs[p].c).exit.queue), p, Running(s.pcs[p].slot));
    var n := JoinVStep(s, p, s.pcs[p]);
    SamePcbs(s, n, s.pcs[p].c, n.pcbs[s.pcs[p].c]);
    SlotsUntouched(s, n);
  }

  lemma JoinVJoiners(s: Table, p: Proc)
    requires SlotsOk(s) && JoinersOk(s) && PcbsOk(s) && p in s.pcs && s.pcs[p].JoinV?
    ensures JoinersOk(JoinVStep(s, p, s.pcs[p]))
  {
    var n := JoinVStep(s, p, s.pcs[p]);
    assert JoinerOk(s, p) && PcbOk(s, s.pcs[p].c);
    forall q | q in n.pcs ensures JoinerOk(n, q) {
      assert q in s.pcs ==> JoinerOk(s, q);
    }
  }

  lemma JoinVPcbs(s: Table, p: Proc)
    requires SlotsOk(s) && JoinersOk(s) && PcbsOk(s) && p in s.pcs && s.pcs[p].JoinV?
    ensures PcbsOk(JoinVStep(s, p, s.pcs[p]))
  {
    var n, d := JoinVStep(s, p, s.pcs[p]), s.pcs[p].c;
    assert JoinerOk(s, p) && PcbOk(s, d);
    forall c | c in n.pcbs ensures n.pcbs[c].child in n.pcs && PcbOk(n, c) {
      if c != d {
        SlotsApart(s, c, d);
        assert PcbOk(s, c);
        PcbUntouched(s, n, c);
      } else {
        assert PcbOk(s, d);
      }
    }
  }

  lemma JoinVJoins(s: Table, p: Proc)
    requires SlotsOk(s) && JoinersOk(s) && PcbsOk(s) && JoinsOk(s) && p in s.pcs && s.pcs[p].JoinV?
    ensures JoinsOk(JoinVStep(s, p, s.pcs[p]))
  {
    assert JoinerOk(s, p) && PcbOk(s, s.pcs[p].c);
  }

  lemma JoinVKeeps(s: Table, p: Proc)
    requires Inv(s) && p in s.pcs && s.pcs[p].JoinV?
    ensures Inv(JoinVStep(s, p, s.pcs[p]))
  {
    assert JoinerOk(s, p);
    JoinVSlots(s, p);
    JoinVJoiners(s, p);
    JoinVJoins(s, p);
    JoinVPcbs(s, p);
  }

  lemma ExitVSlots(s: Table, p: Proc)
    requires SlotsOk(s) && p in s.pcs && s.pcs[p].ExitV?
    ensures SlotsOk(ExitVStep(s, p, s.pcs[p].slot))
  {
    WakeMoves(s.pcs, PcbOf(s, s.pcs[p].slot).join.queue);
    MoveInPlace(s.pcs, WakeFirst(s.pcs, PcbOf(s, s.pcs[p].slot).join.queue), p, ExitTest(s.pcs[p].slot));
    var n := ExitVStep(s, p, s.pcs[p].slot);
    SamePcbs(s, n, s.pcs[p].slot, n.pcbs[s.pcs[p].slot]);
    SlotsUntouched(s, n);
  }

  lemma ExitVJoiners(s: Table, p: Proc)
    requires SlotsOk(s) && JoinersOk(s) && PcbsOk(s) && p in s.pcs && s.pcs[p].ExitV?
    ensures JoinersOk(ExitVStep(s, p, s.pcs[p].slot))
  {
    var n := ExitVStep(s, p, s.pcs[p].slot);
    assert PcbOk(s, s.pcs[p].slot);
    forall q | q in n.pcs ensures JoinerOk(n, q) {
      assert q in s.pcs ==> JoinerOk(s, q);
    }
  }

  lemma ExitVPcbs(s: Table, p: Proc)
    requires SlotsOk(s) && JoinersOk(s) && PcbsOk(s) && p in s.pcs && s.pcs[p].ExitV?
    ensures PcbsOk(ExitVStep(s, p, s.pcs[p].slot))
  {
    assert PcbOk(s, s.pcs[p].slot);
    var n, d := ExitVStep(s, p, s.pcs[p].slot), s.pcs[p].slot;
    forall c | c in n.pcbs ensures n.pcbs[c].child in n.pcs && PcbOk(n, c) {
      if c != d {
        SlotsApart(s, c, d);
        assert PcbOk(s, c);
        PcbUntouched(s, n, c);
      } else {
        assert PcbOk(s, d);
      }
    }
  }

  lemma ExitVJoins(s: Table, p: Proc)
    requires JoinsOk(s) && p in s.pcs && s.pcs[p].ExitV? && s.pcs[p].slot in s.pcbs
    ensures JoinsOk(ExitVStep(s, p, s.pcs[p].slot))
  {
  }

  lemma ExitVKeeps(s: Table, p: Proc)
    requires Inv(s) && p in s.pcs && s.pcs[p].ExitV?
    ensures Inv(ExitVStep(s, p, s.pcs[p].slot))
  {
    ExitVSlots(s, p);
    ExitVJoiners(s, p);
    ExitVJoins(s, p);
    ExitVPcbs(s, p);
  }

  lemma ExitTestSlots(s: Table, p: Proc)
    requires SlotsOk(s) && p in s.pcs && s.pcs[p].ExitTest?
    ensures SlotsOk(ExitTestStep(s, p, s.pcs[p].slot))
  {
  }

  lemma ExitTestJoiners(s: Table, p: Proc)
    requires SlotsOk(s) && JoinersOk(s) && PcbsOk(s) && p in s.pcs && s.pcs[p].ExitTest?
    ensures JoinersOk(ExitTestStep(s, p, s.pcs[p].slot))
  {
    var n := ExitTestStep(s, p, s.pcs[p].slot);
    assert PcbOk(s, s.pcs[p].slot);
    forall q | q in n.pcs ensures JoinerOk(n, q) {
      assert q in s.pcs ==> JoinerOk(s, q);
    }
  }

  lemma ExitTestPcbs(s: Table, p: Proc)
    requires SlotsOk(s) && JoinersOk(s) && PcbsOk(s) && p in s.pcs && s.pcs[p].ExitTest?
    ensures PcbsOk(ExitTestStep(s, p, s.pcs[p].slot))
  {
    var n, d := ExitTestStep(s, p, s.pcs[p].slot), s.pcs[p].slot;
    forall c | c in n.pcbs ensures n.pcbs[c].child in n.pcs && PcbOk(n, c) {
      if c != d {
        SlotsApart(s, c, d);
        assert PcbOk(s, c);
        PcbUntouched(s, n, c);
      } else {
        assert PcbOk(s, d);
      }
    }
  }

  lemma ExitTestJoins(s: Table, p: Proc)
    requires JoinsOk(s) && p in s.pcs && s.pcs[p].ExitTest? && s.pcs[p].slot in s.pcbs
    ensures JoinsOk(ExitTestStep(s, p, s.pcs[p].slot))
  {
  }

  lemma ExitTestKeeps(s: Table, p: Proc)
    requires Inv(s) && p in s.pcs && s.pcs[p].ExitTest?
    ensures Inv(ExitTestStep(s, p, s.pcs[p].slot))
  {
    ExitTestSlots(s, p);
    ExitTestJoiners(s, p);
    ExitTestJoins(s, p);
    ExitTestPcbs(s, p);
  }

  lemma RemoveSlots(s: Table, p: Proc)
    requires SlotsOk(s) && PcbsOk(s) && p in s.pcs && s.pcs[p].Removing?
    ensures SlotsOk(RemoveStep(s, p, s.pcs[p].slot))
  {
  }

  lemma RemoveJoiners(s: Table, p: Proc)
    requires SlotsOk(s) && JoinersOk(s) && PcbsOk(s) && p in s.pcs && s.pcs[p].Removing?
    ensures JoinersOk(RemoveStep(s, p, s.pcs[p].slot))
  {
    var n := RemoveStep(s, p, s.pcs[p].slot);
    assert PcbOk(s, s.pcs[p].slot);
    forall q | q in n.pcs ensures JoinerOk(n, q) {
      assert q in s.pcs ==> JoinerOk(s, q);
    }
  }

  lemma RemovePcbs(s: Table, p: Proc)
    requires SlotsOk(s) && JoinersOk(s) && PcbsOk(s) && p in s.pcs && s.pcs[p].Removing?
    ensures PcbsOk(RemoveStep(s, p, s.pcs[p].slot))
  {
    var n, d := RemoveStep(s, p, s.pcs[p].slot), s.pcs[p].slot;
    forall c | c in n.pcbs ensures n.pcbs[c].child in n.pcs && PcbOk(n, c) {
      if c != d {
        SlotsApart(s, c, d);
        assert PcbOk(s, c);
        PcbUntouched(s, n, c);
      }
    }
  }

  lemma RemoveJoins(s: Table, p: Proc)
    requires SlotsOk(s) && JoinersOk(s) && PcbsOk(s) && JoinsOk(s) && p in s.pcs && s.pcs[p].Removing?
    ensures JoinsOk(RemoveStep(s, p, s.pcs[p].slot))
  {
    assert PcbOk(s, s.pcs[p].slot);
  }

  lemma RemoveKeeps(s: Table, p: Proc)
    requires Inv(s) && p in s.pcs && s.pcs[p].Removing?
    ensures Inv(RemoveStep(s, p, s.pcs[p].slot))
  {
    RemoveSlots(s, p);
    RemoveJoiners(s, p);
    RemoveJoins(s, p);
    RemovePcbs(s, p);
  }

  lemma PerformKeeps(s: Table, p: Proc, a: Act)
    requires Inv(s) && CanAct(s, p, a)
    ensures Inv(Perform(s, p, a))
  {
    match s.pcs[p]
    case Running(_) =>
      match a {
        case Exec(c, kid) => ExecKeeps(s, p, c, kid);
        case Join(c) => JoinKeeps(s, p, c);
        case Exit(code) => ExitKeeps(s, p, code);
        case Go =>
      }
    case JoinTest(_, _, _) => JoinTestKeeps(s, p);
    case JoinRead(_, _, _) => JoinReadKeeps(s, p);
    case JoinV(_, _, _, _) => JoinVKeeps(s, p);
    case ExitV(_) => ExitVKeeps(s, p);
    case ExitTest(_) => ExitTestKeeps(s, p);
    case Removing(_) => RemoveKeeps(s, p);
    case _ =>
  }

  // ---------------------------------------------------------------- whole runs

  datatype Event = Event(p: Proc, a: Act)

  ghost predicate IsRun(size: nat, states: seq<Table>, events: seq<Event>) {
    && |states| == |events| + 1
    && states[0] == Start(size)
    && forall i :: 0 <= i < |events| ==>
         CanAct(states[i], events[i].p, events[i].a) && states[i + 1] == Perform(states[i], events[i].p, events[i].a)
  }

  lemma {:induction false} RunInv(size: nat, states: seq<Table>, events: seq<Event>, i: nat)
    requires IsRun(size, states, events) && i < |states|
    ensures Inv(states[i])
  {
    if i > 0 {
      RunInv(size, states, events, i - 1);
      var s, e := states[i - 1], events[i - 1];
      assert CanAct(s, e.p, e.a) && states[i] == Perform(s, e.p, e.a);
      PerformKeeps(s, e.p, e.a);
    }
  }

  /** Some run ends in this state. */
  ghost predicate Reached(s: Table) {
    exists states: seq<Table>, events: seq<Event> :: IsRun(s.size, states, events) && states[|events|] == s
  }

  lemma ReachedInv(s: Table)
    requires Reached(s)
    ensures Inv(s)
  {
    var states: seq<Table>, events: seq<Event> :| IsRun(s.size, states, events) && states[|events|] == s;
    RunInv(s.size, states, events, |events|);
  }

  lemma ReachedStep(s: Table, p: Proc, a: Act)
    requires Reached(s) && CanAct(s, p, a)
    ensures Reached(Perform(s, p, a)) && Perform(s, p, a).size == s.size
  {
    var states: seq<Table>, events: seq<Event> :| IsRun(s.size, states, events) && states[|events|] == s;
    var n := Perform(s, p, a);
    assert n.size == s.size;
    var more := states + [n];
    assert IsRun(n.size, more, events + [Event(p, a)]);
  }

  lemma StartIsReached(size: nat)
    ensures Reached(Start(size))
  {
    var states: seq<Table>, events: seq<Event> := [Start(size)], [];
    assert IsRun(size, states, events) && states[|events|] == Start(size);
  }

  lemma {:induction false} ExitWasCalled(size: nat, states: seq<Table>, events: seq<Event>, i: nat, kid: Proc)
    requires IsRun(size, states, events) && i < |states| && kid in states[i].exits
    ensures exists j :: 0 <= j < i && events[j] == Event(kid, Exit(states[i].exits[kid]))
  {
    assert states[i - 1 + 1] == Perform(states[i - 1], events[i - 1].p, events[i - 1].a);
    if events[i - 1] != Event(kid, Exit(states[i].exits[kid])) {
      ExitWasCalled(size, states, events, i - 1, kid);
    }
  }

  /**
   In every ordering of joins and exits, whatever JoinUpdate returned for a child is the code with
   which that child called ExitUpdate before.
  */
  lemma JoinReturnsExitCode(size: nat, states: seq<Table>, events: seq<Event>, i: nat, kid: Proc)
    requires IsRun(size, states, events) && i < |states| && kid in states[i].joins
    ensures exists j :: 0 <= j < i && events[j] == Event(kid, Exit(states[i].joins[kid]))
  {
    RunInv(size, states, events, i);
    ExitWasCalled(size, states, events, i, kid);
  }

  /**
   While a parent is inside JoinUpdate, from its call to its V on exitsem, the child's slot is not
   cleared and not given to another process, and no deleted PCB is touched.
  */
  lemma SlotIsKept(size: nat, states: seq<Table>, events: seq<Event>, i: nat, p: Proc)
    requires IsRun(size, states, events) && i < |states| && p in states[i].pcs && Joining(states[i].pcs[p])
    ensures var s, pc := states[i], states[i].pcs[p];
            && pc.c in s.pcbs && s.pcbs[pc.c].child == pc.kid
            && pc.kid in s.pcs && !s.pcs[pc.kid].Gone? && !s.pcs[pc.kid].Removing?
  {
    RunInv(size, states, events, i);
    assert JoinerOk(states[i], p) && PcbOk(states[i], states[i].pcs[p].c);
  }

  /**
   A process that joins a child once more, while its slot is still in use, comes too late: the code was
   returned, joinsem has no unit left, and the child has been released and is leaving.
  */
  lemma SecondJoin(size: nat, states: seq<Table>, events: seq<Event>, i: nat, p: Proc, c: nat)
    requires IsRun(size, states, events) && i < |states| && p in states[i].pcs && states[i].pcs[p].Running?
    requires c in states[i].pcbs && states[i].pcbs[c].parent == states[i].pcs[p].slot
    requires !states[i].pcbs[c].stage.Unjoined?
    ensures var s, b := states[i], states[i].pcbs[c];
            && b.stage.Released? && b.join.value == 0 && b.child in s.joins
            && b.child in s.pcs && (s.pcs[b.child].ExitTest? || s.pcs[b.child].Removing?)
  {
    RunInv(size, states, events, i);
    JoinedBefore(states[i], p, c);
  }

  lemma JoinedBefore(s: Table, p: Proc, c: nat)
    requires Inv(s) && p in s.pcs && s.pcs[p].Running? && c in s.pcbs
    requires s.pcbs[c].parent == s.pcs[p].slot && !s.pcbs[c].stage.Unjoined?
    ensures s.pcbs[c].stage.Released? && s.pcbs[c].join.value == 0
    ensures s.pcbs[c].child in s.joins && s.pcbs[c].child in s.pcs
    ensures var pc := s.pcs[s.pcbs[c].child]; pc.ExitTest? || pc.Removing?
  {
    assert PcbOk(s, c);
    var stage := s.pcbs[c].stage;
    assert stage.Waiting? || stage.Passed? ==> JoinerOk(s, stage.joiner);
  }

  /** The parent has left: process 2, in slot 2, runs, but slot 1, whose process made it, is clear. */
  ghost predicate Orphaned(s: Table) {
    2 in s.pcs && s.pcs[2] == Running(2) && 2 in s.pcbs && s.pcbs[2].parent == 1 && 1 !in s.pcbs
  }

  lemma FamilyIsMade(size: nat) returns (s: Table)
    requires size >= 3
    ensures Reached(s) && s.pcs == map[0 := Running(0), 1 := Running(1), 2 := Running(2)]
    ensures s.pcbs == map[0 := NewPcb(0, -1), 1 := NewPcb(1, 0), 2 := NewPcb(2, 1)]
  {
    StartIsReached(size);
    s := Start(size);
    ReachedStep(s, 0, Exec(1, 1));
    s := Perform(s, 0, Exec(1, 1));
    ReachedStep(s, 1, Exec(2, 2));
    s := Perform(s, 1, Exec(2, 2));
  }

  /** Process 1 calls Exit. */
  lemma FirstExits(s: Table) returns (n: Table)
    requires Reached(s) && s.pcs == map[0 := Running(0), 1 := Running(1), 2 := Running(2)]
    requires s.pcbs == map[0 := NewPcb(0, -1), 1 := NewPcb(1, 0), 2 := NewPcb(2, 1)]
    ensures Reached(n) && n.pcs == map[0 := Running(0), 1 := ExitTest(1), 2 := Running(2)]
    ensures n.pcbs == map[0 := NewPcb(0, -1), 1 := NewPcb(1, 0).(join := Sem(1, [], {})), 2 := NewPcb(2, 1)]
  {
    ReachedStep(s, 1, Exit(0));
    n := Perform(s, 1, Exit(0));
    ReachedStep(n, 1, Go);
    n := Perform(n, 1, Go);
  }

  /** Process 0 calls Join for it, and returns. */
  lemma FirstIsJoined(s: Table) returns (n: Table)
    requires Reached(s) && s.pcs == map[0 := Running(0), 1 := ExitTest(1), 2 := Running(2)]
    requires s.pcbs == map[0 := NewPcb(0, -1), 1 := NewPcb(1, 0).(join := Sem(1, [], {})), 2 := NewPcb(2, 1)]
    ensures Reached(n) && n.pcs == map[0 := Running(0), 1 := ExitTest(1), 2 := Running(2)]
    ensures n.pcbs.Keys == {0, 1, 2} && n.pcbs[1].exit.value == 1 && n.pcbs[2] == NewPcb(2, 1)
  {
    ReachedStep(s, 0, Join(1));
    n := Perform(s, 0, Join(1));
    ReachedStep(n, 0, Go);
    n := Perform(n, 0, Go);
    ReachedStep(n, 0, Go);
    n := Perform(n, 0, Go);
    ReachedStep(n, 0, Go);
    n := Perform(n, 0, Go);
  }

  /** A parent may leave before its child: then the child's ExitUpdate counts on a PCB that is deleted. */
  lemma ParentMayLeave(size: nat) returns (s: Table)
    requires size >= 3
    ensures Reached(s) && Orphaned(s) && CanAct(s, 2, Exit(0))
  {
    s := FamilyIsMade(size);
    s := FirstExits(s);
    s := FirstIsJoined(s);
    ReachedStep(s, 1, Go);
    s := Perform(s, 1, Go);
    ReachedStep(s, 1, Go);
    s := Perform(s, 1, Go);
  }

  /** A process leaves the table only after some JoinUpdate has returned its exit code. */
  lemma GoneWasJoined(size: nat, states: seq<Table>, events: seq<Event>, i: nat, kid: Proc)
    requires IsRun(size, states, events) && i < |states|
    requires kid in states[i].pcs && (states[i].pcs[kid].Removing? || states[i].pcs[kid].Gone?)
    ensures kid in states[i].joins && kid in states[i].exits && states[i].joins[kid] == states[i].exits[kid]
  {
    RunInv(size, states, events, i);
    if states[i].pcs[kid].Removing? {
      assert PcbOk(states[i], states[i].pcs[kid].slot);
    }
  }

  /** Neither side sleeps for good once the other has done its part. */
  lemma RendezvousProceeds(size: nat, states: seq<Table>, events: seq<Event>, i: nat, c: nat)
    requires IsRun(size, states, events) && i < |states| && c in states[i].pcbs
    ensures var s, b := states[i], states[i].pcbs[c];
            && b.child in s.pcs
            && (b.stage.Waiting? && Phase(s.pcs[b.child]) >= 2 ==>
                  b.stage.joiner in s.pcs && CanAct(s, b.stage.joiner, Go)
                  && Perform(s, b.stage.joiner, Go).pcs[b.stage.joiner].JoinRead?)
            && (b.stage.Released? && Phase(s.pcs[b.child]) == 2 ==> Perform(s, b.child, Go).pcs[b.child].Removing?)
            && (b.stage.Released? ==> !s.pcs[b.child].ExitAsleep?)
  {
    RunInv(size, states, events, i);
    assert PcbOk(states[i], c);
    if states[i].pcbs[c].stage.Waiting? {
      assert JoinerOk(states[i], states[i].pcbs[c].stage.joiner);
    }
  }
}
