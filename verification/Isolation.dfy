/**
 Any sequence of loads, reads, writes and deletions of address spaces (userprog/addrspace.cc,
 machine/translate.cc): every program has its memory to itself. Each step does to memory, bitmap and page
 tables what the contract of the method does: AddrSpace.AllocatePages, ReadPart and Delete, and
 Machine.ReadMem and WriteMem. Load gives up addrLock before it copies the program, and each of its reads
 of the file may sleep: allocation and every read are steps, between which anything else may happen.
*/
module Isolation {
  import opened Common
  import opened Bitmaps
  import opened Paging
  import opened Loading
  import opened AddressSpaces

  /** How far the loading of a program has come. */
  datatype Progress = Progress(file: seq<Byte>, stage: Stage)

  /**
   Main memory, the bitmap of frames with its number of bits, the page tables of the live spaces, and
   which of these are still being loaded.
  */
  datatype System = System(
    numPhysPages: nat, bits: nat, memory: seq<Byte>, marked: set<nat>, spaces: map<nat, seq<TranslationEntry>>,
    loading: map<nat, Progress>)

  datatype Act =
    | Allocate(id: nat, file: seq<Byte>)      // Load up to the release of addrLock
    | CopyPart(id: nat)                       // the next read of Load
    | ReadMem(id: nat, addr: Int32, size: int)
    | WriteMem(id: nat, addr: Int32, size: int, value: Int32)
    | Delete(id: nat)

  /** A program that is being loaded does not run yet. */
  predicate Runs(s: System, id: nat) {
    id in s.spaces && id !in s.loading
  }

  ghost predicate CanDo(s: System, a: Act) {
    match a
    case Allocate(id, file) => id !in s.spaces && Loadable(file, s.marked, s.bits, s.numPhysPages)
    case CopyPart(id) => id in s.loading
    case ReadMem(id, _, size) => Runs(s, id) && IsSize(size)
    case WriteMem(id, _, size, _) => Runs(s, id) && IsSize(size)
    case Delete(id) => Runs(s, id)
  }

  predicate HasPage(s: System, id: nat, p: int) {
    id in s.spaces && 0 <= p < |s.spaces[id]|
  }

  function Frame(s: System, id: nat, p: int): int
    requires HasPage(s, id, p)
  {
    s.spaces[id][p].physicalPage
  }

  /** Every page has a marked frame that exists. */
  ghost predicate FramesOk(s: System) {
    && |s.memory| == s.numPhysPages * PAGE_SIZE
    && forall id, p :: HasPage(s, id, p) ==> 0 <= Frame(s, id, p) < s.numPhysPages && Frame(s, id, p) in s.marked
  }

  /** No two pages, of one space or of two, have the same frame. */
  ghost predicate Disjoint(s: System) {
    forall a, p, b, q :: HasPage(s, a, p) && HasPage(s, b, q) && Frame(s, a, p) == Frame(s, b, q) ==> a == b && p == q
  }

  ghost predicate Owned(s: System, f: nat) {
    exists id, p :: HasPage(s, id, p) && Frame(s, id, p) == f
  }

  predicate HasHeader(file: seq<Byte>) {
    |file| >= NOFF_HEADER_SIZE && NoffOk(HeaderOf(file))
  }

  /** A program being loaded has its page table, and a read is next. */
  predicate ProgressOk(s: System, id: nat) {
    && id in s.loading && id in s.spaces && HasHeader(s.loading[id].file)
    && |s.spaces[id]| == PagesOf(s.loading[id].file)
    && StageOk(HeaderOf(s.loading[id].file), s.loading[id].stage) && !s.loading[id].stage.Complete?
  }

  /** The bitmap is exactly the union of the page tables' frames. */
  ghost predicate Inv(s: System) {
    && FramesOk(s)
    && Disjoint(s)
    && (forall id :: id in s.loading ==> ProgressOk(s, id))
    && (forall f :: f in s.marked ==> Owned(s, f))
    && (forall id, p :: HasPage(s, id, p) ==> s.spaces[id][p].valid && !s.spaces[id][p].readOnly)
  }

  /** The exception that a load in a space raises, and the value that it gives when there is none. */
  function ReadOf(s: System, id: nat, addr: Int32, size: int): (ExceptionType, Int32)
    requires id in s.spaces && IsSize(size)
  {
    var e := Check(s.spaces[id], s.numPhysPages, addr, size, false);
    if e != NoException then (e, 0)
    else
      var a := Physical(s.spaces[id], Unsigned(addr));
      if 0 <= a && a + size <= |s.memory| then (e, Value(s.memory, a, size)) else (e, 0)
  }

  /** The next read of a program is at this stage; after the last one, the program runs. */
  function SetStage(s: System, id: nat, file: seq<Byte>, stage: Stage): System {
    s.(loading := if stage.Complete? then s.loading - {id} else s.loading[id := Progress(file, stage)])
  }

  function AfterAllocate(s: System, id: nat, file: seq<Byte>): System
    requires HasHeader(file)
  {
    var taken, h := TakeClear(s.marked, s.bits, PagesOf(file)), HeaderOf(file);
    if CountClear(s.marked, s.bits) < PagesOf(file) then s
    else SetStage(s.(marked := s.marked + Elements(taken),
                     memory := Loaded(s.memory, taken, Image(h, file, |taken|, 0)),
                     spaces := s.spaces[id := NewTable(taken)]), id, file, FirstStage(h))
  }

  /** The next read of a program. */
  function PartOf(s: System, id: nat): (part: Part)
    requires ProgressOk(s, id)
    ensures part.offset + part.numBytes <= PAGE_SIZE && HasPage(s, id, part.p)
  {
    var g := s.loading[id];
    PartInside(HeaderOf(g.file), g.stage);
    PartAt(HeaderOf(g.file), g.stage)
  }

  function CopiedMemory(s: System, id: nat): (memory: seq<Byte>)
    requires ProgressOk(s, id)
    ensures |memory| == |s.memory|
  {
    var part := PartOf(s, id);
    ReadInto(s.memory, Frame(s, id, part.p) * PAGE_SIZE + part.offset, s.loading[id].file, part.numBytes, part.position)
  }

  function AfterCopy(s: System, id: nat): System {
    if !ProgressOk(s, id) then s
    else
      var g := s.loading[id];
      SetStage(s.(memory := CopiedMemory(s, id)), id, g.file, NextStage(HeaderOf(g.file), g.stage))
  }

  function AfterTouch(s: System, id: nat, addr: Int32, size: int, writing: bool): System
    requires id in s.spaces
  {
    if Check(s.spaces[id], s.numPhysPages, addr, size, writing) != NoException then s
    else s.(spaces := s.spaces[id := Touched(s.spaces[id], Vpn(addr), writing)])
  }

  function AfterWrite(s: System, id: nat, addr: Int32, size: int, value: Int32): System
    requires id in s.spaces && IsSize(size)
  {
    if Check(s.spaces[id], s.numPhysPages, addr, size, true) != NoException then s
    else
      var a := Physical(s.spaces[id], Unsigned(addr));
      var t := AfterTouch(s, id, addr, size, true);
      if 0 <= a && a + size <= |s.memory| then t.(memory := WithValue(s.memory, a, size, value)) else t
  }

  function AfterDelete(s: System, id: nat): System
    requires id in s.spaces
  {
    s.(marked := s.marked - FramesOf(s.spaces[id]), spaces := s.spaces - {id})
  }

  function Next(s: System, a: Act): System
    requires CanDo(s, a)
  {
    match a
    case Allocate(id, file) => AfterAllocate(s, id, file)
    case CopyPart(id) => AfterCopy(s, id)
    case ReadMem(id, addr, size) => AfterTouch(s, id, addr, size, false)
    case WriteMem(id, addr, size, value) => AfterWrite(s, id, addr, size, value)
    case Delete(id) => AfterDelete(s, id)
  }

  // ---------------------------------------------------------------- every step keeps the invariant

  /** A step that changes no frame and no page but the use and dirty bits. */
  lemma SameFrames(s: System, n: System)
    requires Inv(s) && |n.memory| == |s.memory| && n.numPhysPages == s.numPhysPages && n.marked == s.marked
    requires forall id :: id in n.loading ==> ProgressOk(n, id)
    requires forall id, p :: HasPage(n, id, p) <==> HasPage(s, id, p)
    requires forall id, p :: HasPage(s, id, p) ==>
               Frame(n, id, p) == Frame(s, id, p) && n.spaces[id][p].valid && !n.spaces[id][p].readOnly
    ensures Inv(n)
  {
  }

  lemma TouchKeeps(s: System, id: nat, addr: Int32, size: int, writing: bool)
    requires Inv(s) && id in s.spaces && IsSize(size)
    ensures Inv(AfterTouch(s, id, addr, size, writing))
  {
    var n := AfterTouch(s, id, addr, size, writing);
    forall a, p ensures HasPage(n, a, p) <==> HasPage(s, a, p) {
    }
    forall a, p | HasPage(s, a, p)
      ensures Frame(n, a, p) == Frame(s, a, p) && n.spaces[a][p].valid && !n.spaces[a][p].readOnly
    {
    }
    TablesKeepProgress(s, n);
    SameFrames(s, n);
  }

  /** Nothing moves on in loading, and the page tables keep their lengths. */
  lemma TablesKeepProgress(s: System, n: System)
    requires Inv(s) && n.loading == s.loading && s.spaces.Keys <= n.spaces.Keys
    requires forall id :: id in s.spaces ==> |n.spaces[id]| == |s.spaces[id]|
    ensures forall id :: id in n.loading ==> ProgressOk(n, id)
  {
    forall id | id in n.loading ensures ProgressOk(n, id) {
      assert ProgressOk(s, id);
    }
  }

  lemma CopyKeeps(s: System, id: nat)
    requires Inv(s) && id in s.loading
    ensures Inv(AfterCopy(s, id))
  {
    var n := AfterCopy(s, id);
    CopyKeepsProgress(s, id, n);
    assert n.spaces == s.spaces && |n.memory| == |s.memory|;
    assert forall a, p :: HasPage(n, a, p) <==> HasPage(s, a, p);
    SameFrames(s, n);
  }

  lemma CopyKeepsProgress(s: System, id: nat, n: System)
    requires Inv(s) && id in s.loading && n == AfterCopy(s, id)
    ensures n.spaces == s.spaces && |n.memory| == |s.memory| && n.marked == s.marked
    ensures n.numPhysPages == s.numPhysPages && forall a :: a in n.loading ==> ProgressOk(n, a)
  {
    assert ProgressOk(s, id);
    forall a | a in n.loading ensures ProgressOk(n, a) {
      assert a != id ==> ProgressOk(s, a);
    }
  }

  lemma WriteKeeps(s: System, id: nat, addr: Int32, size: int, value: Int32)
    requires Inv(s) && id in s.spaces && IsSize(size)
    ensures Inv(AfterWrite(s, id, addr, size, value))
  {
    var t, n := AfterTouch(s, id, addr, size, true), AfterWrite(s, id, addr, size, value);
    TouchKeeps(s, id, addr, size, true);
    assert forall a, p :: HasPage(n, a, p) <==> HasPage(t, a, p);
    TablesKeepProgress(t, n);
    SameFrames(t, n);
  }

  /** What an allocation takes: enough frames, all new and all in memory. */
  lemma AllocateTakes(s: System, id: nat, file: seq<Byte>)
    requires CanDo(s, Allocate(id, file)) && CountClear(s.marked, s.bits) >= PagesOf(file)
    ensures var taken := TakeClear(s.marked, s.bits, PagesOf(file));
            && |taken| == PagesOf(file) && Distinct(taken)
            && (forall f :: f in taken ==> f < s.numPhysPages && f !in s.marked)
            && var n := AfterAllocate(s, id, file);
               && n.numPhysPages == s.numPhysPages && n.marked == s.marked + Elements(taken)
               && n.memory == Loaded(s.memory, taken, Image(HeaderOf(file), file, |taken|, 0))
               && n.spaces == s.spaces[id := NewTable(taken)]
  {
    TakeClearIsFresh(s.marked, s.bits, PagesOf(file));
  }

  lemma AllocateKeepsFrames(s: System, id: nat, file: seq<Byte>)
    requires Inv(s) && CanDo(s, Allocate(id, file)) && CountClear(s.marked, s.bits) >= PagesOf(file)
    ensures FramesOk(AfterAllocate(s, id, file)) && Disjoint(AfterAllocate(s, id, file))
  {
    AllocateTakes(s, id, file);
    var n, taken := AfterAllocate(s, id, file), TakeClear(s.marked, s.bits, PagesOf(file));
    forall a, p | HasPage(n, a, p)
      ensures 0 <= Frame(n, a, p) < n.numPhysPages && Frame(n, a, p) in n.marked
      ensures a == id ==> Frame(n, a, p) == taken[p] && Frame(n, a, p) !in s.marked
      ensures a != id ==> HasPage(s, a, p) && Frame(n, a, p) == Frame(s, a, p) && Frame(n, a, p) in s.marked
    {
      if a == id {
        assert taken[p] in taken;
      } else {
        assert HasPage(s, a, p);
      }
    }
  }

  lemma AllocateKeepsOwners(s: System, id: nat, file: seq<Byte>)
    requires Inv(s) && CanDo(s, Allocate(id, file)) && CountClear(s.marked, s.bits) >= PagesOf(file)
    ensures var n := AfterAllocate(s, id, file);
            && (forall f :: f in n.marked ==> Owned(n, f))
            && (forall a, p :: HasPage(n, a, p) ==> n.spaces[a][p].valid && !n.spaces[a][p].readOnly)
  {
    AllocateTakes(s, id, file);
    var n, taken := AfterAllocate(s, id, file), TakeClear(s.marked, s.bits, PagesOf(file));
    forall f | f in n.marked ensures Owned(n, f) {
      if f in taken {
        var p :| 0 <= p < |taken| && taken[p] == f;
        assert HasPage(n, id, p) && Frame(n, id, p) == f;
      } else {
        var a, p :| HasPage(s, a, p) && Frame(s, a, p) == f;
        assert HasPage(n, a, p) && Frame(n, a, p) == f;
      }
    }
    forall a, p | HasPage(n, a, p) ensures n.spaces[a][p].valid && !n.spaces[a][p].readOnly {
      if a != id {
        assert HasPage(s, a, p);
      }
    }
  }

  lemma AllocateKeepsProgress(s: System, id: nat, file: seq<Byte>)
    requires Inv(s) && CanDo(s, Allocate(id, file)) && CountClear(s.marked, s.bits) >= PagesOf(file)
    ensures var n := AfterAllocate(s, id, file); forall a :: a in n.loading ==> ProgressOk(n, a)
  {
    AllocateTakes(s, id, file);
    var n := AfterAllocate(s, id, file);
    forall a | a in n.loading ensures ProgressOk(n, a) {
      if a != id {
        assert ProgressOk(s, a);
      }
    }
  }

  /** A frame of one space is not one of another. */
  lemma OtherFrame(s: System, id: nat, a: nat, p: int)
    requires Inv(s) && id in s.spaces && HasPage(s, a, p) && a != id
    ensures Frame(s, a, p) !in FramesOf(s.spaces[id])
  {
    forall e | e in s.spaces[id] ensures e.physicalPage != Frame(s, a, p) {
      var q :| 0 <= q < |s.spaces[id]| && s.spaces[id][q] == e;
      assert HasPage(s, id, q) && Frame(s, id, q) == e.physicalPage;
    }
  }

  lemma DeleteKeeps(s: System, id: nat)
    requires Inv(s) && Runs(s, id)
    ensures Inv(AfterDelete(s, id))
  {
    var n := AfterDelete(s, id);
    forall a | a in n.loading ensures ProgressOk(n, a) {
      assert ProgressOk(s, a);
    }
    forall a, p | HasPage(n, a, p) ensures HasPage(s, a, p) && Frame(n, a, p) == Frame(s, a, p)
      && Frame(n, a, p) in n.marked {
      assert HasPage(s, a, p);
      OtherFrame(s, id, a, p);
    }
    forall f | f in n.marked ensures Owned(n, f) {
      var a, p :| HasPage(s, a, p) && Frame(s, a, p) == f;
      assert s.spaces[a][p] in s.spaces[a];
      assert HasPage(n, a, p) && Frame(n, a, p) == f;
    }
  }

  lemma NextKeeps(s: System, a: Act)
    requires Inv(s) && CanDo(s, a)
    ensures Inv(Next(s, a))
  {
    match a
    case Allocate(id, file) =>
      if CountClear(s.marked, s.bits) >= PagesOf(file) {
        AllocateKeepsFrames(s, id, file);
        AllocateKeepsOwners(s, id, file);
        AllocateKeepsProgress(s, id, file);
      }
    case CopyPart(id) => CopyKeeps(s, id);
    case ReadMem(id, addr, size) => TouchKeeps(s, id, addr, size, false);
    case WriteMem(id, addr, size, value) => WriteKeeps(s, id, addr, size, value);
    case Delete(id) => DeleteKeeps(s, id);
  }

  // ---------------------------------------------------------------- isolation

  /** The space has the same pages in both systems, and they hold the same bytes. */
  ghost predicate SameSpace(s: System, n: System, b: nat) {
    && b in s.spaces && b in n.spaces && n.numPhysPages == s.numPhysPages && |n.memory| == |s.memory|
    && |n.spaces[b]| == |s.spaces[b]|
    && forall p :: HasPage(s, b, p) ==>
         && Frame(n, b, p) == Frame(s, b, p)
         && n.spaces[b][p].valid == s.spaces[b][p].valid && n.spaces[b][p].readOnly == s.spaces[b][p].readOnly
         && forall a :: 0 <= a < |s.memory| && a / PAGE_SIZE == Frame(s, b, p) ==> n.memory[a] == s.memory[a]
  }

  lemma InFrame(f: nat, offset: nat, a: nat)
    requires f * PAGE_SIZE + offset <= a < (f + 1) * PAGE_SIZE
    ensures a / PAGE_SIZE == f
  {
  }

  lemma OutsideFrame(f: nat, offset: nat, size: nat, a: nat)
    requires offset + size <= PAGE_SIZE && a / PAGE_SIZE != f
    ensures !(f * PAGE_SIZE + offset <= a < f * PAGE_SIZE + offset + size)
  {
  }

  lemma SameValue(memory: seq<Byte>, other: seq<Byte>, a: nat, size: int)
    requires IsSize(size) && a + size <= |memory| == |other|
    requires forall i :: a <= i < a + size ==> other[i] == memory[i]
    ensures Value(other, a, size) == Value(memory, a, size)
  {
  }

  lemma SameSpaceReads(s: System, n: System, b: nat, addr: Int32, size: int)
    requires Inv(s) && SameSpace(s, n, b) && IsSize(size)
    ensures ReadOf(n, b, addr, size) == ReadOf(s, b, addr, size)
  {
    if Check(s.spaces[b], s.numPhysPages, addr, size, false) == NoException {
      StaysInFrame(s.spaces[b], s.numPhysPages, addr, size, false);
      var v := Unsigned(addr);
      assert HasPage(s, b, v / PAGE_SIZE);
      var a, f := Physical(s.spaces[b], v), Frame(s, b, v / PAGE_SIZE);
      forall i | a <= i < a + size ensures n.memory[i] == s.memory[i] {
        InFrame(f, v % PAGE_SIZE, i);
      }
      SameValue(s.memory, n.memory, a, size);
    }
  }

  /** A store in one space leaves every other space as it is. */
  lemma WriteElsewhere(s: System, id: nat, addr: Int32, size: int, value: Int32, b: nat)
    requires Inv(s) && id in s.spaces && b in s.spaces && b != id && IsSize(size)
    ensures SameSpace(s, AfterWrite(s, id, addr, size, value), b)
  {
    var n := AfterWrite(s, id, addr, size, value);
    if Check(s.spaces[id], s.numPhysPages, addr, size, true) == NoException {
      StaysInFrame(s.spaces[id], s.numPhysPages, addr, size, true);
      var v := Unsigned(addr);
      assert HasPage(s, id, v / PAGE_SIZE);
      forall p, a | HasPage(s, b, p) && 0 <= a < |s.memory| && a / PAGE_SIZE == Frame(s, b, p)
        ensures n.memory[a] == s.memory[a]
      {
        OutsideFrame(Frame(s, id, v / PAGE_SIZE), v % PAGE_SIZE, size, a);
      }
    }
  }

  lemma AllocateElsewhere(s: System, id: nat, file: seq<Byte>, b: nat)
    requires Inv(s) && CanDo(s, Allocate(id, file)) && b in s.spaces
    ensures SameSpace(s, AfterAllocate(s, id, file), b)
  {
    var n := AfterAllocate(s, id, file);
    if CountClear(s.marked, s.bits) >= PagesOf(file) {
      AllocateTakes(s, id, file);
      forall p, a | HasPage(s, b, p) && 0 <= a < |s.memory| && a / PAGE_SIZE == Frame(s, b, p)
        ensures n.memory[a] == s.memory[a]
      {
        assert Frame(s, b, p) in s.marked;
      }
    }
  }

  /** A read into a page of one program leaves every other as it is. */
  lemma CopyElsewhere(s: System, id: nat, b: nat)
    requires Inv(s) && id in s.loading && b in s.spaces && b != id
    ensures SameSpace(s, AfterCopy(s, id), b)
  {
    assert ProgressOk(s, id);
    var n, part := AfterCopy(s, id), PartOf(s, id);
    forall p, a | HasPage(s, b, p) && 0 <= a < |s.memory| && a / PAGE_SIZE == Frame(s, b, p)
      ensures n.memory[a] == s.memory[a]
    {
      OutsideFrame(Frame(s, id, part.p), part.offset, part.numBytes, a);
    }
  }

  lemma DeleteElsewhere(s: System, id: nat, b: nat)
    requires Inv(s) && id in s.spaces && b in s.spaces && b != id
    ensures SameSpace(s, AfterDelete(s, id), b)
  {
  }

  /** The space that a step works on. */
  function Target(a: Act): nat {
    a.id
  }

  lemma Elsewhere(s: System, a: Act, b: nat)
    requires Inv(s) && CanDo(s, a) && b in s.spaces && Target(a) != b
    ensures SameSpace(s, Next(s, a), b)
  {
    match a
    case Allocate(id, file) => AllocateElsewhere(s, id, file, b);
    case CopyPart(id) => CopyElsewhere(s, id, b);
    case ReadMem(_, _, _) =>
    case WriteMem(id, addr, size, value) => WriteElsewhere(s, id, addr, size, value, b);
    case Delete(id) => DeleteElsewhere(s, id, b);
  }

  /** Deletion frees exactly the frames of the space, and they were marked. */
  lemma DeleteFreesOwnFrames(s: System, id: nat, f: nat)
    requires Inv(s) && Runs(s, id)
    ensures var n := Next(s, Delete(id));
            && id !in n.spaces
            && (f in s.marked && f !in n.marked <==> exists p :: HasPage(s, id, p) && Frame(s, id, p) == f)
            && (f in n.marked ==> f in s.marked)
  {
    if p :| HasPage(s, id, p) && Frame(s, id, p) == f {
      assert s.spaces[id][p] in s.spaces[id];
    }
    if f in FramesOf(s.spaces[id]) {
      var e :| e in s.spaces[id] && e.physicalPage == f;
      var p :| 0 <= p < |s.spaces[id]| && s.spaces[id][p] == e;
      assert HasPage(s, id, p) && Frame(s, id, p) == f;
    }
  }

  // ---------------------------------------------------------------- loading

  /** The byte at an offset in a page. */
  function ByteAt(s: System, id: nat, p: int, o: nat): Byte
    requires HasPage(s, id, p)
  {
    var a := Frame(s, id, p) * PAGE_SIZE + o;
    if 0 <= a < |s.memory| then s.memory[a] else 0
  }

  /** The pages hold these bytes, by their virtual addresses. */
  ghost predicate PagesHold(s: System, id: nat, bytes: nat -> Byte) {
    forall p, o :: HasPage(s, id, p) && 0 <= o < PAGE_SIZE ==> ByteAt(s, id, p, o) == bytes(p * PAGE_SIZE + o)
  }

  ghost function StageBytes(h: NoffHeader, file: seq<Byte>, stage: Stage): nat -> Byte
    requires NoffOk(h) && StageOk(h, stage)
  {
    v => StageByte(h, file, stage, v)
  }

  /** The pages hold what the reads before this stage leave there. */
  ghost predicate LoadedTo(s: System, id: nat, file: seq<Byte>, stage: Stage) {
    && id in s.spaces && HasHeader(file) && StageOk(HeaderOf(file), stage) && |s.spaces[id]| == PagesOf(file)
    && PagesHold(s, id, StageBytes(HeaderOf(file), file, stage))
  }

  lemma SameSpaceHolds(s: System, n: System, b: nat, bytes: nat -> Byte)
    requires Inv(s) && SameSpace(s, n, b) && PagesHold(s, b, bytes)
    ensures PagesHold(n, b, bytes)
  {
    forall p, o | HasPage(n, b, p) && 0 <= o < PAGE_SIZE ensures ByteAt(n, b, p, o) == ByteAt(s, b, p, o) {
      assert HasPage(s, b, p);
      InFrame(Frame(s, b, p), o, Frame(s, b, p) * PAGE_SIZE + o);
    }
  }

  lemma SameSpaceBytes(s: System, n: System, b: nat, file: seq<Byte>, stage: Stage)
    requires Inv(s) && SameSpace(s, n, b) && LoadedTo(s, b, file, stage)
    ensures LoadedTo(n, b, file, stage)
  {
    SameSpaceHolds(s, n, b, StageBytes(HeaderOf(file), file, stage));
  }

  lemma AllocatedByte(memory: seq<Byte>, taken: seq<nat>, image: seq<Byte>, p: nat, o: nat)
    requires |image| == |taken| * PAGE_SIZE && Distinct(taken) && p < |taken| && o < PAGE_SIZE
    requires (taken[p] + 1) * PAGE_SIZE <= |memory|
    ensures Loaded(memory, taken, image)[taken[p] * PAGE_SIZE + o] == image[p * PAGE_SIZE + o]
  {
    IndexOfFrame(taken, p);
    var a := taken[p] * PAGE_SIZE + o;
    assert a / PAGE_SIZE == taken[p] && a % PAGE_SIZE == o;
  }

  /** A page just allocated is zero. */
  lemma AllocateByte(s: System, id: nat, file: seq<Byte>, taken: seq<nat>, n: System, p: nat, o: nat)
    requires |s.memory| == s.numPhysPages * PAGE_SIZE && HasHeader(file) && Distinct(taken)
    requires p < |taken| && o < PAGE_SIZE && taken[p] < s.numPhysPages
    requires n.memory == Loaded(s.memory, taken, Image(HeaderOf(file), file, |taken|, 0))
    requires id in n.spaces && n.spaces[id] == NewTable(taken)
    ensures HasPage(n, id, p) && ByteAt(n, id, p, o) == 0
  {
    assert (taken[p] + 1) * PAGE_SIZE <= s.numPhysPages * PAGE_SIZE;
    AllocatedByte(s.memory, taken, Image(HeaderOf(file), file, |taken|, 0), p, o);
  }

  lemma AllocateLoads(s: System, id: nat, file: seq<Byte>, n: System)
    requires Inv(s) && CanDo(s, Allocate(id, file)) && CountClear(s.marked, s.bits) >= PagesOf(file)
    requires n == AfterAllocate(s, id, file)
    ensures LoadedTo(n, id, file, FirstStage(HeaderOf(file)))
  {
    var taken := TakeClear(s.marked, s.bits, PagesOf(file));
    AllocateTakes(s, id, file);
    AllZero(s, id, file, taken, n);
    forall v: nat ensures StageBytes(HeaderOf(file), file, FirstStage(HeaderOf(file)))(v) == 0 {
      FirstStageByte(HeaderOf(file), file, v);
    }
  }

  lemma AllZero(s: System, id: nat, file: seq<Byte>, taken: seq<nat>, n: System)
    requires |s.memory| == s.numPhysPages * PAGE_SIZE && HasHeader(file) && Distinct(taken)
    requires forall f :: f in taken ==> f < s.numPhysPages
    requires n.memory == Loaded(s.memory, taken, Image(HeaderOf(file), file, |taken|, 0))
    requires id in n.spaces && n.spaces[id] == NewTable(taken)
    ensures forall p, o :: HasPage(n, id, p) && 0 <= o < PAGE_SIZE ==> ByteAt(n, id, p, o) == 0
  {
    forall p, o | HasPage(n, id, p) && 0 <= o < PAGE_SIZE ensures ByteAt(n, id, p, o) == 0 {
      assert taken[p] in taken;
      AllocateByte(s, id, file, taken, n, p, o);
    }
  }

  /** A read puts its bytes into its own page, and no byte of another page changes. */
  lemma CopiedByte(memory: seq<Byte>, f: nat, part: Part, file: seq<Byte>, p: nat, g: nat, o: nat)
    requires part.offset + part.numBytes <= PAGE_SIZE && o < PAGE_SIZE && (g + 1) * PAGE_SIZE <= |memory|
    requires p == part.p <==> f == g
    ensures ReadInto(memory, f * PAGE_SIZE + part.offset, file, part.numBytes, part.position)[g * PAGE_SIZE + o] ==
              ByteRead(part, file, p * PAGE_SIZE + o, memory[g * PAGE_SIZE + o])
  {
  }

  /** Where the bytes of a page are, and which other pages are elsewhere. */
  lemma PageBytes(s: System, id: nat, p: int, q: int)
    requires Inv(s) && HasPage(s, id, p) && HasPage(s, id, q)
    ensures Frame(s, id, p) >= 0 && (Frame(s, id, p) + 1) * PAGE_SIZE <= |s.memory|
    ensures p == q <==> Frame(s, id, p) == Frame(s, id, q)
  {
    assert (Frame(s, id, p) + 1) * PAGE_SIZE <= s.numPhysPages * PAGE_SIZE;
  }

  lemma CopyReads(s: System, id: nat, p: nat, o: nat)
    requires Inv(s) && ProgressOk(s, id) && HasPage(s, id, p) && o < PAGE_SIZE
    ensures var a := Frame(s, id, p) * PAGE_SIZE + o;
            && 0 <= a < |s.memory|
            && CopiedMemory(s, id)[a] == ByteRead(PartOf(s, id), s.loading[id].file, p * PAGE_SIZE + o, s.memory[a])
  {
    var part := PartOf(s, id);
    PageBytes(s, id, p, part.p);
    PageBytes(s, id, part.p, p);
    CopiedByte(s.memory, Frame(s, id, part.p), part, s.loading[id].file, p, Frame(s, id, p), o);
  }

  /** A read takes the pages from the bytes before it to the bytes after it. */
  lemma CopyHolds(s: System, id: nat, n: System, bytes: nat -> Byte, after: nat -> Byte)
    requires Inv(s) && ProgressOk(s, id) && n.spaces == s.spaces && n.memory == CopiedMemory(s, id)
    requires PagesHold(s, id, bytes)
    requires forall v: nat :: after(v) == ByteRead(PartOf(s, id), s.loading[id].file, v, bytes(v))
    ensures PagesHold(n, id, after)
  {
    forall p, o | HasPage(n, id, p) && 0 <= o < PAGE_SIZE ensures ByteAt(n, id, p, o) == after(p * PAGE_SIZE + o) {
      assert HasPage(s, id, p) && ByteAt(s, id, p, o) == bytes(p * PAGE_SIZE + o);
      CopyReads(s, id, p, o);
      SameFrameByte(s, n, id, p, o);
    }
  }

  /** A byte lies where it did. */
  lemma SameFrameByte(s: System, n: System, id: nat, p: nat, o: nat)
    requires n.spaces == s.spaces && |n.memory| == |s.memory| && HasPage(s, id, p)
    requires 0 <= Frame(s, id, p) * PAGE_SIZE + o < |s.memory|
    ensures HasPage(n, id, p) && ByteAt(n, id, p, o) == n.memory[Frame(s, id, p) * PAGE_SIZE + o]
    ensures ByteAt(s, id, p, o) == s.memory[Frame(s, id, p) * PAGE_SIZE + o]
  {
  }

  lemma CopyLoads(s: System, id: nat, file: seq<Byte>, stage: Stage, n: System)
    requires Inv(s) && ProgressOk(s, id) && s.loading[id] == Progress(file, stage) && LoadedTo(s, id, file, stage)
    requires n.spaces == s.spaces && n.memory == CopiedMemory(s, id)
    ensures LoadedTo(n, id, file, NextStage(HeaderOf(file), stage))
  {
    var h := HeaderOf(file);
    forall v: nat
      ensures StageBytes(h, file, NextStage(h, stage))(v) ==
                ByteRead(PartOf(s, id), file, v, StageBytes(h, file, stage)(v))
    {
      StageReads(h, file, stage, v);
    }
    CopyHolds(s, id, n, StageBytes(h, file, stage), StageBytes(h, file, NextStage(h, stage)));
  }

  /** A program loads a byte of a page as it lies there. */
  lemma ReadsByte(s: System, id: nat, addr: Int32)
    requires Inv(s) && 0 <= addr && HasPage(s, id, addr / PAGE_SIZE)
    ensures var b := ByteAt(s, id, addr / PAGE_SIZE, addr % PAGE_SIZE);
            ReadOf(s, id, addr, 1) == (NoException, if b >= 128 then b - 256 else b)
  {
    PageBytes(s, id, addr / PAGE_SIZE, addr / PAGE_SIZE);
  }

  lemma CompleteByte(s: System, id: nat, file: seq<Byte>, p: nat, o: nat)
    requires LoadedTo(s, id, file, Complete) && p < PagesOf(file) && o < PAGE_SIZE
    ensures HasPage(s, id, p) && ByteAt(s, id, p, o) == LoadedByte(HeaderOf(file), file, p * PAGE_SIZE + o)
  {
    assert HasPage(s, id, p);
    assert ByteAt(s, id, p, o) == StageBytes(HeaderOf(file), file, Complete)(p * PAGE_SIZE + o);
  }

  /** A program that is completely loaded reads as its flat image. */
  lemma CompleteReads(s: System, id: nat, file: seq<Byte>, addr: Int32)
    requires Inv(s) && LoadedTo(s, id, file, Complete) && 0 <= addr < PagesOf(file) * PAGE_SIZE
    requires DataLandRight(HeaderOf(file))
    ensures var b := FlatByte(HeaderOf(file), file, addr);
            ReadOf(s, id, addr, 1) == (NoException, if b >= 128 then b - 256 else b)
  {
    ReadsByte(s, id, addr);
    CompleteByte(s, id, file, addr / PAGE_SIZE, addr % PAGE_SIZE);
    LoadsFlatImage(HeaderOf(file), file, addr);
  }

  // ---------------------------------------------------------------- stores and loads of one program

  /** What a program stores, it loads again, cut to its size. */
  lemma WriteThenRead(s: System, id: nat, addr: Int32, size: int, value: Int32)
    requires Inv(s) && id in s.spaces && IsSize(size)
    requires Check(s.spaces[id], s.numPhysPages, addr, size, true) == NoException
    ensures ReadOf(AfterWrite(s, id, addr, size, value), id, addr, size) == (NoException, Truncated(value, size))
  {
    StaysInFrame(s.spaces[id], s.numPhysPages, addr, size, true);
    LoadAfterStore(s.memory, Physical(s.spaces[id], Unsigned(addr)), size, value);
  }

  /** A store changes no load of the same space from other addresses. */
  lemma WriteApart(s: System, id: nat, addr: Int32, size: int, value: Int32, other: Int32, otherSize: int)
    requires Inv(s) && id in s.spaces && IsSize(size) && IsSize(otherSize)
    requires Unsigned(addr) + size <= Unsigned(other) || Unsigned(other) + otherSize <= Unsigned(addr)
    ensures ReadOf(AfterWrite(s, id, addr, size, value), id, other, otherSize) == ReadOf(s, id, other, otherSize)
  {
    var n := AfterWrite(s, id, addr, size, value);
    if Check(s.spaces[id], s.numPhysPages, addr, size, true) == NoException
       && Check(s.spaces[id], s.numPhysPages, other, otherSize, false) == NoException {
      StaysInFrame(s.spaces[id], s.numPhysPages, addr, size, true);
      StaysInFrame(s.spaces[id], s.numPhysPages, other, otherSize, false);
      var v, u := Unsigned(addr), Unsigned(other);
      PhysicalApart(s, id, v, size, u, otherSize);
      StoredApart(s.memory, Physical(s.spaces[id], v), size, value, Physical(s.spaces[id], u), otherSize);
    }
    if Check(s.spaces[id], s.numPhysPages, addr, size, true) == NoException {
      TouchedChecks(s.spaces[id], s.numPhysPages, Vpn(addr), true, other, otherSize);
    }
  }

  lemma StoredApart(memory: seq<Byte>, a: nat, size: int, value: Int32, b: nat, otherSize: int)
    requires IsSize(size) && a + size <= |memory| && IsSize(otherSize) && b + otherSize <= |memory|
    requires a + size <= b || b + otherSize <= a
    ensures Value(WithValue(memory, a, size, value), b, otherSize) == Value(memory, b, otherSize)
  {
  }

  /** The use and dirty bits do not matter to a load. */
  lemma TouchedChecks(
    table: seq<TranslationEntry>, numPhysPages: nat, vpn: nat, writing: bool, addr: Int32, size: int)
    requires vpn < |table|
    ensures Check(Touched(table, vpn, writing), numPhysPages, addr, size, false) ==
              Check(table, numPhysPages, addr, size, false)
    ensures Vpn(addr) < |table| ==>
      Physical(Touched(table, vpn, writing), Unsigned(addr)) == Physical(table, Unsigned(addr))
  {
  }

  /** Different places in a space are different places in memory. */
  lemma PhysicalApart(s: System, id: nat, v: nat, n: nat, u: nat, m: nat)
    requires Inv(s) && id in s.spaces && v / PAGE_SIZE < |s.spaces[id]| && u / PAGE_SIZE < |s.spaces[id]|
    requires v % PAGE_SIZE + n <= PAGE_SIZE && u % PAGE_SIZE + m <= PAGE_SIZE
    requires v + n <= u || u + m <= v
    ensures Physical(s.spaces[id], v) + n <= Physical(s.spaces[id], u)
            || Physical(s.spaces[id], u) + m <= Physical(s.spaces[id], v)
  {
    assert HasPage(s, id, v / PAGE_SIZE) && HasPage(s, id, u / PAGE_SIZE);
    FramesApart(Frame(s, id, v / PAGE_SIZE), v % PAGE_SIZE, n, Frame(s, id, u / PAGE_SIZE), u % PAGE_SIZE, m);
  }

  /** Ranges in different frames do not meet. */
  lemma FramesApart(f: nat, o: nat, n: nat, g: nat, q: nat, m: nat)
    requires o + n <= PAGE_SIZE && q + m <= PAGE_SIZE
    ensures f < g ==> f * PAGE_SIZE + o + n <= g * PAGE_SIZE + q
    ensures g < f ==> g * PAGE_SIZE + q + m <= f * PAGE_SIZE + o
  {
  }

  // ---------------------------------------------------------------- whole runs

  ghost predicate IsRun(states: seq<System>, acts: seq<Act>) {
    |states| == |acts| + 1 && forall i {:trigger StepAt(states, acts, i)} :: 0 <= i < |acts| ==> StepAt(states, acts, i)
  }

  ghost predicate StepAt(states: seq<System>, acts: seq<Act>, i: nat)
    requires i < |acts| < |states|
  {
    CanDo(states[i], acts[i]) && states[i + 1] == Next(states[i], acts[i])
  }

  /** At the start no space exists and no frame is marked. */
  ghost predicate IsStart(s: System) {
    |s.memory| == s.numPhysPages * PAGE_SIZE && s.marked == {} && s.spaces == map[] && s.loading == map[]
  }

  lemma {:induction false} RunKeeps(states: seq<System>, acts: seq<Act>, i: nat)
    requires IsRun(states, acts) && IsStart(states[0]) && i <= |acts|
    ensures Inv(states[i])
  {
    if i > 0 {
      RunKeeps(states, acts, i - 1);
      assert StepAt(states, acts, i - 1);
      NextKeeps(states[i - 1], acts[i - 1]);
    }
  }

  /** However many steps of other programs happen, a program loads what it loaded before. */
  lemma {:induction false} RunIsolates(states: seq<System>, acts: seq<Act>, i: nat, j: nat, b: nat, addr: Int32,
      size: int)
    requires IsRun(states, acts) && IsStart(states[0]) && i <= j <= |acts|
    requires b in states[i].spaces && IsSize(size) && forall k :: i <= k < j ==> Target(acts[k]) != b
    ensures b in states[j].spaces && ReadOf(states[j], b, addr, size) == ReadOf(states[i], b, addr, size)
  {
    if i < j {
      RunIsolates(states, acts, i, j - 1, b, addr, size);
      RunKeeps(states, acts, j - 1);
      StepIsolates(states, acts, j - 1, b, addr, size);
    }
  }

  lemma StepIsolates(states: seq<System>, acts: seq<Act>, i: nat, b: nat, addr: Int32, size: int)
    requires IsRun(states, acts) && i < |acts| && Inv(states[i])
    requires b in states[i].spaces && IsSize(size) && Target(acts[i]) != b
    ensures b in states[i + 1].spaces && ReadOf(states[i + 1], b, addr, size) == ReadOf(states[i], b, addr, size)
  {
    assert StepAt(states, acts, i);
    Elsewhere(states[i], acts[i], b);
    SameSpaceReads(states[i], states[i + 1], b, addr, size);
  }

  /** The stage of a program that has its pages. */
  function StageOf(s: System, id: nat): Stage {
    if id in s.loading then s.loading[id].stage else Complete
  }

  ghost predicate IsLoading(s: System, id: nat, file: seq<Byte>) {
    LoadedTo(s, id, file, StageOf(s, id)) && (id in s.loading ==> s.loading[id].file == file)
  }

  lemma OwnStepLoads(s: System, id: nat, file: seq<Byte>, n: System)
    requires Inv(s) && id in s.loading && IsLoading(s, id, file) && n == AfterCopy(s, id)
    ensures IsLoading(n, id, file)
  {
    assert ProgressOk(s, id);
    CopyLoads(s, id, file, s.loading[id].stage, n);
    assert StageOf(n, id) == NextStage(HeaderOf(file), s.loading[id].stage);
  }

  lemma OtherStepLoads(s: System, a: Act, id: nat, file: seq<Byte>, n: System)
    requires Inv(s) && CanDo(s, a) && IsLoading(s, id, file) && Target(a) != id && n == Next(s, a)
    ensures IsLoading(n, id, file)
  {
    Elsewhere(s, a, id);
    OtherLoading(s, a, id);
    SameSpaceBytes(s, n, id, file, StageOf(s, id));
  }

  lemma OtherLoading(s: System, a: Act, id: nat)
    requires CanDo(s, a) && Target(a) != id
    ensures var n := Next(s, a);
            (id in n.loading <==> id in s.loading) && (id in s.loading ==> n.loading[id] == s.loading[id])
  {
  }

  lemma {:induction false} RunLoads(states: seq<System>, acts: seq<Act>, i: nat, j: nat, id: nat, file: seq<Byte>)
    requires IsRun(states, acts) && IsStart(states[0]) && i < j <= |acts| && acts[i] == Allocate(id, file)
    requires HasHeader(file) && CountClear(states[i].marked, states[i].bits) >= PagesOf(file)
    requires forall k :: i < k < j && Target(acts[k]) == id ==> acts[k].CopyPart?
    ensures IsLoading(states[j], id, file)
  {
    if i == j - 1 {
      RunAllocates(states, acts, i, j, id, file);
    } else {
      RunLoads(states, acts, i, j - 1, id, file);
      StepLoads(states, acts, j - 1, j, id, file);
    }
  }

  lemma RunAllocates(states: seq<System>, acts: seq<Act>, i: nat, next: nat, id: nat, file: seq<Byte>)
    requires IsRun(states, acts) && IsStart(states[0]) && next == i + 1 <= |acts| && acts[i] == Allocate(id, file)
    requires HasHeader(file) && CountClear(states[i].marked, states[i].bits) >= PagesOf(file)
    ensures IsLoading(states[next], id, file)
  {
    RunKeeps(states, acts, i);
    assert StepAt(states, acts, i);
    NotLoading(states[i], id);
    AllocateLoads(states[i], id, file, states[i + 1]);
  }

  lemma NotLoading(s: System, id: nat)
    requires Inv(s) && id !in s.spaces
    ensures id !in s.loading
  {
    assert id in s.loading ==> ProgressOk(s, id);
  }

  /** A step of another program, or the program's own next read. */
  lemma StepLoads(states: seq<System>, acts: seq<Act>, k: nat, next: nat, id: nat, file: seq<Byte>)
    requires IsRun(states, acts) && IsStart(states[0]) && next == k + 1 <= |acts| && IsLoading(states[k], id, file)
    requires Target(acts[k]) == id ==> acts[k].CopyPart?
    ensures IsLoading(states[next], id, file)
  {
    RunKeeps(states, acts, k);
    assert StepAt(states, acts, k);
    if Target(acts[k]) == id {
      OwnStepLoads(states[k], id, file, states[k + 1]);
    } else {
      OtherStepLoads(states[k], acts[k], id, file, states[k + 1]);
    }
  }

  /**
   A program that has been loaded reads as its flat image, whatever other programs did between its
   allocation and its reads of the file: code, data, zeros.
  */
  lemma LoadedProgramReads(
    states: seq<System>, acts: seq<Act>, i: nat, j: nat, id: nat, file: seq<Byte>, addr: Int32)
    requires IsRun(states, acts) && IsStart(states[0]) && i < j <= |acts| && acts[i] == Allocate(id, file)
    requires HasHeader(file) && CountClear(states[i].marked, states[i].bits) >= PagesOf(file)
    requires forall k :: i < k < j && Target(acts[k]) == id ==> acts[k].CopyPart?
    requires id !in states[j].loading && 0 <= addr < PagesOf(file) * PAGE_SIZE
    requires DataLandRight(HeaderOf(file))
    ensures var b := FlatByte(HeaderOf(file), file, addr);
            id in states[j].spaces && ReadOf(states[j], id, addr, 1) == (NoException, if b >= 128 then b - 256 else b)
  {
    RunLoads(states, acts, i, j, id, file);
    RunKeeps(states, acts, j);
    CompleteReads(states[j], id, file, addr);
  }
}
