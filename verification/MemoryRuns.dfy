/**
 machine/translate.cc over whole runs of module Isolation: a program loads what it stored last, and the use and
 dirty bits of its page table tell which pages it has used and changed.
*/
module MemoryRuns {
  import opened Common
  import opened Paging
  import opened Loading
  import opened Isolation

  // ---------------------------------------------------------------- loads give what was stored

  /** The act is none of this program that could change what it loads from these addresses. */
  predicate Spares(a: Act, id: nat, addr: Int32, size: int) {
    a.id == id ==>
      || a.ReadMem?
      || (a.WriteMem? && (Unsigned(a.addr) + a.size <= Unsigned(addr) || Unsigned(addr) + size <= Unsigned(a.addr)))
  }

  lemma OwnLoadStays(s: System, id: nat, addr: Int32, size: int, other: Int32, otherSize: int)
    requires id in s.spaces && IsSize(otherSize)
    ensures id in AfterTouch(s, id, addr, size, false).spaces
    ensures ReadOf(AfterTouch(s, id, addr, size, false), id, other, otherSize) == ReadOf(s, id, other, otherSize)
  {
    if Check(s.spaces[id], s.numPhysPages, addr, size, false) == NoException {
      TouchedChecks(s.spaces[id], s.numPhysPages, Vpn(addr), false, other, otherSize);
    }
  }

  lemma StepSpares(states: seq<System>, acts: seq<Act>, i: nat, id: nat, addr: Int32, size: int)
    requires IsRun(states, acts) && IsStart(states[0]) && i < |acts| && id in states[i].spaces && IsSize(size)
    requires Spares(acts[i], id, addr, size)
    ensures id in states[i + 1].spaces && ReadOf(states[i + 1], id, addr, size) == ReadOf(states[i], id, addr, size)
  {
    RunKeeps(states, acts, i);
    assert StepAt(states, acts, i);
    var s, a := states[i], acts[i];
    if a.id != id {
      StepIsolates(states, acts, i, id, addr, size);
    } else if a.ReadMem? {
      OwnLoadStays(s, id, a.addr, a.size, addr, size);
    } else {
      WriteApart(s, id, a.addr, a.size, a.value, addr, size);
    }
  }

  /**
   In every run: what a program stores without an exception it loads again, cut to the size, until it stores
   to one of these addresses again, whatever else it and all the others do.
  */
  lemma {:induction false} LoadsWhatWasStored(states: seq<System>, acts: seq<Act>, i: nat, j: nat)
    requires IsRun(states, acts) && IsStart(states[0]) && i < j <= |acts| && acts[i].WriteMem?
    requires var a := acts[i];
             && a.id in states[i].spaces
             && Check(states[i].spaces[a.id], states[i].numPhysPages, a.addr, a.size, true) == NoException
             && forall k :: i < k < j ==> Spares(acts[k], a.id, a.addr, a.size)
    ensures var a := acts[i];
            && IsSize(a.size) && a.id in states[j].spaces
            && ReadOf(states[j], a.id, a.addr, a.size) == (NoException, Truncated(a.value, a.size))
  {
    var a := acts[i];
    assert StepAt(states, acts, i);
    if j == i + 1 {
      RunKeeps(states, acts, i);
      WriteThenRead(states[i], a.id, a.addr, a.size, a.value);
    } else {
      LoadsWhatWasStored(states, acts, i, j - 1);
      StepSpares(states, acts, j - 1, a.id, a.addr, a.size);
    }
  }

  // ---------------------------------------------------------------- use and dirty bits

  /** The act gets at page p of the program: a load or a store, or with `storing` only a store. */
  predicate Accesses(s: System, a: Act, id: nat, p: nat, storing: bool) {
    && a.id == id && id in s.spaces && (a.WriteMem? || (a.ReadMem? && !storing))
    && Unsigned(a.addr) / 128 == p
    && Check(s.spaces[id], s.numPhysPages, a.addr, a.size, a.WriteMem?) == NoException
  }

  predicate IsNew(a: Act, id: nat) {
    a.Allocate? && a.id == id
  }

  /** The program has done so since it was allocated. */
  predicate HasAccessed(states: seq<System>, acts: seq<Act>, id: nat, p: nat, storing: bool, i: nat)
    requires i <= |acts| < |states|
  {
    i > 0
    && !IsNew(acts[i - 1], id)
    && (Accesses(states[i - 1], acts[i - 1], id, p, storing) || HasAccessed(states, acts, id, p, storing, i - 1))
  }

  /** The bits of an entry change by the program's own accesses only. */
  lemma BitsChange(s: System, a: Act, id: nat, p: nat)
    requires CanDo(s, a) && id in Next(s, a).spaces && p < |Next(s, a).spaces[id]|
    requires !IsNew(a, id)
    ensures id in s.spaces && p < |s.spaces[id]|
    ensures var was, now := s.spaces[id][p], Next(s, a).spaces[id][p];
            && (now.dirty <==> was.dirty || Accesses(s, a, id, p, true))
            && (now.use <==> was.use || Accesses(s, a, id, p, false))
  {
    if a.id == id && (a.ReadMem? || a.WriteMem?) && p < |s.spaces[id]|
       && Check(s.spaces[id], s.numPhysPages, a.addr, a.size, a.WriteMem?) == NoException {
      TouchedIs(s.spaces[id], Vpn(a.addr), a.WriteMem?, p);
    }
  }

  lemma NewBits(s: System, a: Act, p: nat)
    requires CanDo(s, a) && a.Allocate? && a.id in Next(s, a).spaces && p < |Next(s, a).spaces[a.id]|
    ensures !Next(s, a).spaces[a.id][p].dirty && !Next(s, a).spaces[a.id][p].use
  {
  }

  /** The bits of an entry over one step of a run. */
  lemma BitsAt(states: seq<System>, acts: seq<Act>, i: nat, id: nat, p: nat)
    requires IsRun(states, acts) && i < |acts| && id in states[i + 1].spaces && p < |states[i + 1].spaces[id]|
    ensures var now := states[i + 1].spaces[id][p];
            if IsNew(acts[i], id) then !now.dirty && !now.use
            else
              && id in states[i].spaces && p < |states[i].spaces[id]|
              && (now.dirty <==> states[i].spaces[id][p].dirty || Accesses(states[i], acts[i], id, p, true))
              && (now.use <==> states[i].spaces[id][p].use || Accesses(states[i], acts[i], id, p, false))
  {
    assert StepAt(states, acts, i);
    if IsNew(acts[i], id) {
      NewBits(states[i], acts[i], p);
    } else {
      BitsChange(states[i], acts[i], id, p);
    }
  }

  /** The dirty bit of a page says whether its program has stored to it, the use bit whether it has used it at all. */
  lemma {:induction false} BitsTell(states: seq<System>, acts: seq<Act>, id: nat, p: nat, i: nat)
    requires IsRun(states, acts) && IsStart(states[0]) && i <= |acts|
    requires id in states[i].spaces && p < |states[i].spaces[id]|
    ensures states[i].spaces[id][p].dirty <==> HasAccessed(states, acts, id, p, true, i)
    ensures states[i].spaces[id][p].use <==> HasAccessed(states, acts, id, p, false, i)
  {
    if i > 0 {
      BitsAt(states, acts, i - 1, id, p);
      if !IsNew(acts[i - 1], id) {
        BitsTell(states, acts, id, p, i - 1);
      }
    }
  }
}
