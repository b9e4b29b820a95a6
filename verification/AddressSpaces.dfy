/**
 userprog/addrspace.cc: address spaces that are loaded into free frames of main memory, and deleted.
*/
module AddressSpaces {
  import opened Common
  import opened Bitmaps
  import opened SectorFiles
  import opened Paging
  import opened Loading

  /** What Load asks of a file that can be opened, and of the frames. */
  ghost predicate Loadable(file: seq<Byte>, marked: set<nat>, bits: nat, numPhysPages: nat) {
    && |file| >= NOFF_HEADER_SIZE
    && NoffOk(HeaderOf(file))
    && var k := PagesFor(HeaderOf(file));
       && k <= numPhysPages
       && (k <= CountClear(marked, bits) ==> forall f :: f in TakeClear(marked, bits, k) ==> f < numPhysPages)
  }

  class AddrSpace {
    var pageTable: array<TranslationEntry>
    var numPages: nat

    ghost predicate Valid()
      reads this
    {
      numPages <= pageTable.Length
    }

    ghost function Table(): seq<TranslationEntry>
      requires Valid()
      reads this, pageTable
    {
      pageTable[..numPages]
    }

    constructor ()
      ensures Valid() && numPages == 0 && fresh(pageTable)
    {
      numPages := 0;
      pageTable := new TranslationEntry[0];
    }

    /** The middle of Load: a frame for every page, zeroed. */
    method AllocatePages(machine: Machine, frames: Bitmap, ghost h: NoffHeader, ghost file: seq<Byte>)
      requires NoffOk(h) && machine.Valid() && frames.Valid()
      requires frames.words as object != machine.mainMemory
      requires numPages <= CountClear(frames.Set(), frames.numBits)
      requires forall f :: f in TakeClear(frames.Set(), frames.numBits, numPages) ==> f < machine.numPhysPages
      modifies this`pageTable, machine.mainMemory, frames.words
      ensures fresh(pageTable) && frames.Valid() && pageTable.Length == numPages
      ensures var taken := TakeClear(old(frames.Set()), frames.numBits, numPages);
              && |taken| == numPages && pageTable[..] == NewTable(taken)
              && machine.mainMemory[..] == Loaded(old(machine.mainMemory[..]), taken, Image(h, file, numPages, 0))
      ensures frames.Set() == AfterTaking(old(frames.Set()), frames.numBits, numPages)
    {
      ghost var marked, bits, orig := frames.Set(), frames.numBits, machine.mainMemory[..];
      pageTable := new TranslationEntry[numPages];
      NothingTaken(marked, bits);
      NothingLoaded(h, file, orig);
      var i := 0;
      while i < numPages
        invariant 0 <= i <= numPages && frames.Valid() && frames.Set() == AfterTaking(marked, bits, i)
        invariant pageTable.Length == numPages && fresh(pageTable)
        invariant Allocated(h, file, orig, machine.mainMemory[..], TakeClear(marked, bits, i), pageTable[..], i)
      {
        AllocateOne(machine, frames, h, file, marked, orig, i);
        i := i + 1;
      }
    }

    /** One turn of the loop: the next free frame becomes page i. */
    method AllocateOne(machine: Machine, frames: Bitmap, ghost h: NoffHeader, ghost file: seq<Byte>,
                       ghost marked: set<nat>, ghost orig: seq<Byte>, i: nat)
      requires NoffOk(h) && machine.Valid() && frames.Valid()
      requires frames.words as object != machine.mainMemory
      requires pageTable as object != machine.mainMemory && pageTable as object != frames.words
      requires i < numPages <= CountClear(marked, frames.numBits) && pageTable.Length == numPages
      requires forall f :: f in TakeClear(marked, frames.numBits, numPages) ==> f < machine.numPhysPages
      requires frames.Set() == AfterTaking(marked, frames.numBits, i)
      requires Allocated(h, file, orig, machine.mainMemory[..], TakeClear(marked, frames.numBits, i), pageTable[..], i)
      modifies pageTable, machine.mainMemory, frames.words
      ensures frames.Valid() && frames.Set() == AfterTaking(marked, frames.numBits, i + 1)
      ensures Allocated(h, file, orig, machine.mainMemory[..],
                        TakeClear(marked, frames.numBits, i + 1), pageTable[..], i + 1)
    {
      ghost var taken := TakeClear(marked, frames.numBits, i);
      TakeStep(marked, frames.numBits, i);
      NextFrame(marked, frames.numBits, i, numPages, machine.numPhysPages);
      ghost var before, table := machine.mainMemory[..], pageTable[..];
      var frame := frames.FindAndSet();
      pageTable[i] := TranslationEntry(i, frame, true, false, false, false);
      ZeroPage(machine, frame);
      OneMoreAllocated(h, file, orig, before, machine.mainMemory[..], taken, frame, table, i);
      assert pageTable[..] == table[i := TranslationEntry(i, frame, true, false, false, false)];
    }

    /** One call of ReadAt in Load. */
    method ReadPart(executable: OpenFile, machine: Machine, ghost frame: nat, p: nat, offset: nat, numBytes: nat,
                    position: nat)
      requires executable.Valid() && machine.Valid() && pageTable as object != machine.mainMemory
      requires p < pageTable.Length && frame == pageTable[p].physicalPage
      requires frame * PAGE_SIZE + offset + numBytes <= machine.mainMemory.Length
      modifies machine.mainMemory
      ensures machine.mainMemory[..] == ReadInto(old(machine.mainMemory[..]), frame * PAGE_SIZE + offset,
                                                 executable.Bytes(), numBytes, position)
    {
      var at := pageTable[p].physicalPage * PAGE_SIZE + offset;
      var _ := executable.ReadAt(machine.mainMemory, at, numBytes, position);
    }

    /** The read of this stage: it extends what is loaded to the end of the part. */
    method CopyPart(executable: OpenFile, machine: Machine, h: NoffHeader, ghost orig: seq<Byte>, ghost taken: seq<nat>,
                    ghost stage: Stage, ghost upto: nat, p: nat, offset: nat, numBytes: nat, position: nat)
      requires executable.Valid() && machine.Valid() && NoffOk(h) && Distinct(taken)
      requires pageTable as object != machine.mainMemory
      requires IsPart(h, stage, Part(p, offset, numBytes, position))
      requires pageTable[..] == NewTable(taken) && p < |taken| && offset + numBytes <= PAGE_SIZE
      requires forall f :: f in taken ==> f < machine.numPhysPages
      requires machine.mainMemory[..] == Loaded(orig, taken, Image(h, executable.Bytes(), |taken|, upto))
      requires upto <= p * PAGE_SIZE + offset
      requires forall v: nat :: upto <= v < p * PAGE_SIZE + offset ==> LoadedByte(h, executable.Bytes(), v) == 0
      requires forall v: nat :: p * PAGE_SIZE + offset <= v < p * PAGE_SIZE + offset + numBytes ==>
                 LoadedByte(h, executable.Bytes(), v) ==
                   FileByte(executable.Bytes(), position + (v - (p * PAGE_SIZE + offset)))
      modifies machine.mainMemory
      ensures machine.mainMemory[..] ==
                Loaded(orig, taken, Image(h, executable.Bytes(), |taken|, p * PAGE_SIZE + offset + numBytes))
    {
      ghost var file, before := executable.Bytes(), machine.mainMemory[..];
      PartFits(taken, machine.numPhysPages, p, offset, numBytes);
      ReadPart(executable, machine, taken[p], p, offset, numBytes, position);
      PartCopied(h, file, orig, taken, before, machine.mainMemory[..], upto, p, offset, numBytes, position);
    }

    /** Load, the code pages. */
    method CopyCode(executable: OpenFile, machine: Machine, h: NoffHeader, ghost orig: seq<Byte>, ghost taken: seq<nat>)
      requires executable.Valid() && machine.Valid() && NoffOk(h) && Distinct(taken)
      requires pageTable as object != machine.mainMemory
      requires pageTable[..] == NewTable(taken) && NumCodePage(h) <= |taken|
      requires forall f :: f in taken ==> f < machine.numPhysPages
      requires machine.mainMemory[..] == Loaded(orig, taken, Image(h, executable.Bytes(), |taken|, 0))
      modifies machine.mainMemory
      ensures machine.mainMemory[..] ==
                Loaded(orig, taken, Image(h, executable.Bytes(), |taken|, CodeUpto(h, NumCodePage(h))))
    {
      var numCodePage, lastCodePageSize := NumCodePage(h), LastCodePageSize(h);
      var i := 0;
      while i < numCodePage
        invariant 0 <= i <= numCodePage && pageTable[..] == NewTable(taken)
        invariant machine.mainMemory[..] == Loaded(orig, taken, Image(h, executable.Bytes(), |taken|, CodeUpto(h, i)))
      {
        var next := i + 1;
        var numBytes := if i < numCodePage - 1 then PAGE_SIZE else lastCodePageSize;
        CopyCodePage(executable, machine, h, orig, taken, i, next, numBytes, h.code.inFileAddr + i * PAGE_SIZE);
        i := next;
      }
    }

    /** One turn of the loop. */
    method CopyCodePage(executable: OpenFile, machine: Machine, h: NoffHeader, ghost orig: seq<Byte>,
                        ghost taken: seq<nat>, i: nat, ghost next: nat, numBytes: nat, position: nat)
      requires executable.Valid() && machine.Valid() && NoffOk(h) && Distinct(taken)
      requires pageTable as object != machine.mainMemory && pageTable[..] == NewTable(taken)
      requires i < NumCodePage(h) <= |taken| && next == i + 1
      requires numBytes == if i < NumCodePage(h) - 1 then PAGE_SIZE else LastCodePageSize(h)
      requires position == h.code.inFileAddr + i * PAGE_SIZE
      requires forall f :: f in taken ==> f < machine.numPhysPages
      requires machine.mainMemory[..] == Loaded(orig, taken, Image(h, executable.Bytes(), |taken|, CodeUpto(h, i)))
      modifies machine.mainMemory
      ensures machine.mainMemory[..] == Loaded(orig, taken, Image(h, executable.Bytes(), |taken|, CodeUpto(h, next)))
    {
      CodePage(h, executable.Bytes(), i);
      CopyPart(executable, machine, h, orig, taken, CodeAt(i), i * PAGE_SIZE, i, 0, numBytes, position);
    }

    /** Load, the data that fit in the rest of the last code page. */
    method CopyShared(executable: OpenFile, machine: Machine, h: NoffHeader, ghost orig: seq<Byte>,
        ghost taken: seq<nat>)
      requires executable.Valid() && machine.Valid() && NoffOk(h) && Distinct(taken)
      requires pageTable as object != machine.mainMemory
      requires pageTable[..] == NewTable(taken) && NumCodePage(h) <= |taken|
      requires forall f :: f in taken ==> f < machine.numPhysPages
      requires machine.mainMemory[..] ==
                 Loaded(orig, taken, Image(h, executable.Bytes(), |taken|, CodeUpto(h, NumCodePage(h))))
      requires h.initData.size > 0
      modifies machine.mainMemory
      ensures machine.mainMemory[..] == Loaded(orig, taken, Image(h, executable.Bytes(), |taken|, DataUpto(h, 0)))
    {
      var numCodePage, lastCodePageSize := NumCodePage(h), LastCodePageSize(h);
      if lastCodePageSize != PAGE_SIZE && numCodePage > 0 {
        SharedPage(h, executable.Bytes());
        CopyPart(executable, machine, h, orig, taken, SharedAt, h.code.size, numCodePage - 1, lastCodePageSize,
                 FirstDataPageSize(h), h.initData.inFileAddr);
      } else {
        NoSharedPage(h);
      }
    }

    /** Load, the data pages. */
    method CopyDataPages(executable: OpenFile, machine: Machine, h: NoffHeader, ghost orig: seq<Byte>,
        ghost taken: seq<nat>)
      requires executable.Valid() && machine.Valid() && NoffOk(h) && Distinct(taken)
      requires pageTable as object != machine.mainMemory
      requires pageTable[..] == NewTable(taken) && NumCodePage(h) + NumDataPage(h) <= |taken|
      requires forall f :: f in taken ==> f < machine.numPhysPages
      requires machine.mainMemory[..] == Loaded(orig, taken, Image(h, executable.Bytes(), |taken|, DataUpto(h, 0)))
      requires h.initData.size > 0
      modifies machine.mainMemory
      ensures machine.mainMemory[..] ==
                Loaded(orig, taken, Image(h, executable.Bytes(), |taken|, DataUpto(h, NumDataPage(h))))
    {
      var firstDataPageSize, numDataPage, lastDataPageSize := FirstDataPageSize(h), NumDataPage(h), LastDataPageSize(h);
      var i, j := NumCodePage(h), 0;
      while j < numDataPage
        invariant 0 <= j <= numDataPage && i == NumCodePage(h) + j && pageTable[..] == NewTable(taken)
        invariant machine.mainMemory[..] == Loaded(orig, taken, Image(h, executable.Bytes(), |taken|, DataUpto(h, j)))
      {
        var next := j + 1;
        var numBytes := if j < numDataPage - 1 then PAGE_SIZE else lastDataPageSize;
        CopyDataPage(executable, machine, h, orig, taken, i, j, next, numBytes,
                     h.initData.inFileAddr + firstDataPageSize + j * PAGE_SIZE);
        i := i + 1;
        j := next;
      }
    }

    /** One turn of the loop. */
    method CopyDataPage(executable: OpenFile, machine: Machine, h: NoffHeader, ghost orig: seq<Byte>,
                        ghost taken: seq<nat>, i: nat, ghost j: nat, ghost next: nat, numBytes: nat, position: nat)
      requires executable.Valid() && machine.Valid() && NoffOk(h) && Distinct(taken)
      requires pageTable as object != machine.mainMemory && pageTable[..] == NewTable(taken)
      requires h.initData.size > 0 && j < NumDataPage(h) && next == j + 1 && i == NumCodePage(h) + j < |taken|
      requires numBytes == if j < NumDataPage(h) - 1 then PAGE_SIZE else LastDataPageSize(h)
      requires position == h.initData.inFileAddr + FirstDataPageSize(h) + j * PAGE_SIZE
      requires forall f :: f in taken ==> f < machine.numPhysPages
      requires machine.mainMemory[..] == Loaded(orig, taken, Image(h, executable.Bytes(), |taken|, DataUpto(h, j)))
      modifies machine.mainMemory
      ensures machine.mainMemory[..] == Loaded(orig, taken, Image(h, executable.Bytes(), |taken|, DataUpto(h, next)))
    {
      DataPage(h, executable.Bytes(), j);
      CopyPart(executable, machine, h, orig, taken, DataAt(j), DataUpto(h, j), i, 0, numBytes, position);
    }

    /** Load, once the pages are allocated: copy the code and the initialised data. */
    method CopySegments(executable: OpenFile, machine: Machine, h: NoffHeader, ghost orig: seq<Byte>,
        ghost taken: seq<nat>)
      requires executable.Valid() && machine.Valid() && NoffOk(h) && Distinct(taken)
      requires pageTable as object != machine.mainMemory
      requires pageTable[..] == NewTable(taken) && PagesFor(h) == |taken|
      requires forall f :: f in taken ==> f < machine.numPhysPages
      requires machine.mainMemory[..] == Loaded(orig, taken, Image(h, executable.Bytes(), |taken|, 0))
      modifies machine.mainMemory
      ensures machine.mainMemory[..] ==
                Loaded(orig, taken, Image(h, executable.Bytes(), |taken|, |taken| * PAGE_SIZE))
    {
      CopiedPagesExist(h);
      if h.code.size > 0 {
        CopyCode(executable, machine, h, orig, taken);
      }
      if h.initData.size > 0 {
        CopyShared(executable, machine, h, orig, taken);
        CopyDataPages(executable, machine, h, orig, taken);
      }
      ImageComplete(h, executable.Bytes(), |taken|);
    }

    /** Load once there are enough frames. */
    method LoadPages(executable: OpenFile, machine: Machine, frames: Bitmap, noffH: NoffHeader)
      requires machine.Valid() && frames.Valid() && frames.words as object != machine.mainMemory
      requires executable.Valid() && NoffOk(noffH)
        && numPages == PagesFor(noffH) <= CountClear(frames.Set(), frames.numBits)
      requires forall f :: f in TakeClear(frames.Set(), frames.numBits, numPages) ==> f < machine.numPhysPages
      modifies this`pageTable, machine.mainMemory, frames.words
      ensures Valid() && frames.Valid() && fresh(pageTable)
      ensures var taken := TakeClear(old(frames.Set()), frames.numBits, numPages);
              && |taken| == numPages && Table() == NewTable(taken)
              && frames.Set() == old(frames.Set()) + Elements(taken)
              && var image := Image(noffH, executable.Bytes(), numPages, numPages * PAGE_SIZE);
                 machine.mainMemory[..] == Loaded(old(machine.mainMemory[..]), taken, image)
    {
      ghost var marked, orig, file := frames.Set(), machine.mainMemory[..], executable.Bytes();
      ghost var taken := TakeClear(marked, frames.numBits, numPages);
      AllocatePages(machine, frames, noffH, file);
      TakeClearIsFresh(marked, frames.numBits, numPages);
      CopySegments(executable, machine, noffH, orig, taken);
    }

    /**
     FALSE when the file cannot be opened or there are fewer clear bits than pages, and then no frame and
     no byte has changed. Otherwise the pages get the first clear frames, and in them the program lies
     page by page with zeros around it.
    */
    method Load(executable: OpenFile?, machine: Machine, frames: Bitmap) returns (ok: bool)
      requires numPages == 0 && machine.Valid() && frames.Valid()
      requires frames.words as object != machine.mainMemory
      requires executable != null ==>
                 executable.Valid() && Loadable(executable.Bytes(), frames.Set(), frames.numBits, machine.numPhysPages)
      modifies this, machine.mainMemory, frames.words
      ensures Valid() && frames.Valid()
      ensures ok <==> executable != null && CountClear(old(frames.Set()), frames.numBits) >= PagesOf(executable.Bytes())
      ensures !ok ==>
                numPages == 0 && frames.Set() == old(frames.Set())
                  && machine.mainMemory[..] == old(machine.mainMemory[..])
      ensures ok ==>
                var file, taken := executable.Bytes(), TakeClear(old(frames.Set()), frames.numBits, numPages);
                && numPages == PagesOf(file) == |taken| && fresh(pageTable) && Table() == NewTable(taken)
                && frames.Set() == old(frames.Set()) + Elements(taken)
                && machine.mainMemory[..] == Loaded(old(machine.mainMemory[..]), taken, WholeImage(file))
    {
      if executable == null {
        return false;
      }
      var noffH := ReadHeader(executable);
      numPages := PagesFor(noffH);
      var clear := frames.NumClear();
      if numPages > clear {
        numPages := 0;
        return false;
      }
      LoadPages(executable, machine, frames, noffH);
      return true;
    }

    /** The kernel's own translation of one address; it does not look at the valid bit. */
    method Translate(machine: Machine, vaddr: Word, isReadWrite: bool) returns (exception: ExceptionType, paddr: int)
      requires Valid() && machine.Valid()
      requires forall e :: e in Table() ==> e.physicalPage >= 0
      modifies pageTable
      ensures exception == KernelCheck(old(Table()), machine.numPhysPages, vaddr, isReadWrite)
      ensures exception == NoException ==>
                && vaddr / PAGE_SIZE < numPages
                && paddr == Physical(old(Table()), vaddr) && 0 <= paddr < machine.mainMemory.Length
                && Table() == Touched(old(Table()), vaddr / PAGE_SIZE, isReadWrite)
      ensures exception != NoException ==> Table() == old(Table())
    {
      paddr := 0;
      var vpn, offset := vaddr / PAGE_SIZE, vaddr % PAGE_SIZE;
      if vpn >= numPages {
        return AddressErrorException, paddr;
      }
      var pte := pageTable[vpn];
      assert Table()[vpn] in Table();
      if isReadWrite && pte.readOnly {
        return ReadOnlyException, paddr;
      }
      var pfn := pte.physicalPage;
      if pfn >= machine.numPhysPages {
        return BusErrorException, paddr;
      }
      ghost var before := Table();
      pte := pte.(use := true);
      if isReadWrite {
        pte := pte.(dirty := true);
      }
      pageTable[vpn] := pte;
      assert Table() == before[vpn := pte];
      paddr := pfn * PAGE_SIZE + offset;
      assert paddr < machine.mainMemory.Length by {
        assert (pfn + 1) * PAGE_SIZE <= machine.numPhysPages * PAGE_SIZE;
      }
      return NoException, paddr;
    }

    /** AddrSpace::~AddrSpace: the frames of the space, and no others, are free again. */
    method Delete(frames: Bitmap)
      requires Valid() && frames.Valid() && pageTable as object != frames.words
      requires forall e :: e in Table() ==> 0 <= e.physicalPage < frames.numBits
      modifies frames.words
      ensures frames.Valid() && frames.Set() == old(frames.Set()) - FramesOf(Table())
    {
      ghost var marked := frames.Set();
      var i := 0;
      while i < numPages
        invariant 0 <= i <= numPages && frames.Valid() && frames.Set() == marked - FramesOf(Table()[..i])
      {
        assert Table()[i] in Table();
        MoreFrames(Table(), i);
        frames.Clear(pageTable[i].physicalPage);
        i := i + 1;
      }
      assert Table()[..i] == Table();
    }
  }

  method ReadHeader(executable: OpenFile) returns (noffH: NoffHeader)
    requires executable.Valid() && |executable.Bytes()| >= NOFF_HEADER_SIZE
    ensures noffH == HeaderOf(executable.Bytes())
  {
    var buf := new Byte[NOFF_HEADER_SIZE];
    var _ := executable.ReadAt(buf, 0, NOFF_HEADER_SIZE, 0);
    assert buf[..] == executable.Bytes()[..NOFF_HEADER_SIZE];
    noffH := DecodeNoff(buf[..]);
  }

  /** What AddrSpace::Translate answers. */
  function KernelCheck(table: seq<TranslationEntry>, numPhysPages: nat, vaddr: Word, writing: bool): ExceptionType {
    if vaddr / PAGE_SIZE >= |table| then AddressErrorException
    else if writing && table[vaddr / PAGE_SIZE].readOnly then ReadOnlyException
    else if table[vaddr / PAGE_SIZE].physicalPage >= numPhysPages then BusErrorException
    else NoException
  }

  /** Which exception it is, and when there is none. */
  lemma KernelCheckIff(table: seq<TranslationEntry>, numPhysPages: nat, vaddr: Word, writing: bool)
    ensures var e, inTable := KernelCheck(table, numPhysPages, vaddr, writing), vaddr < 128 * |table|;
            && e != PageFaultException
            && (e == AddressErrorException <==> !inTable)
            && (e == ReadOnlyException <==> inTable && table[vaddr / 128].readOnly && writing)
            && (e == BusErrorException <==>
                  && inTable && !(table[vaddr / 128].readOnly && writing)
                  && table[vaddr / 128].physicalPage >= numPhysPages)
  {
    assert vaddr / 128 < |table| <==> vaddr < 128 * |table|;
  }

  /** The kernel and the machine agree about every byte whose page is valid, and only the machine looks at that. */
  lemma KernelAgrees(table: seq<TranslationEntry>, numPhysPages: nat, vaddr: Word, writing: bool)
    requires forall e :: e in table ==> e.physicalPage >= 0
    ensures KernelCheck(table, numPhysPages, vaddr, writing) ==
              Check(table, numPhysPages, Signed(vaddr), 1, writing) <==>
              (vaddr / PAGE_SIZE < |table| ==> table[vaddr / PAGE_SIZE].valid)
  {
    if vaddr / PAGE_SIZE < |table| {
      assert table[vaddr / PAGE_SIZE] in table;
    }
  }

  function PagesOf(file: seq<Byte>): nat
    requires |file| >= NOFF_HEADER_SIZE && NoffOk(HeaderOf(file))
  {
    PagesFor(HeaderOf(file))
  }

  /** All that Load leaves in the pages of a program. */
  function WholeImage(file: seq<Byte>): (r: seq<Byte>)
    requires |file| >= NOFF_HEADER_SIZE && NoffOk(HeaderOf(file))
    ensures |r| == PagesOf(file) * PAGE_SIZE
  {
    Image(HeaderOf(file), file, PagesOf(file), PagesOf(file) * PAGE_SIZE)
  }

  /** After the last read the image is complete. */
  lemma ImageComplete(h: NoffHeader, file: seq<Byte>, n: nat)
    requires NoffOk(h)
    ensures h.initData.size > 0 ==> Image(h, file, n, DataUpto(h, NumDataPage(h))) == Image(h, file, n, n * PAGE_SIZE)
    ensures h.initData.size == 0 ==> Image(h, file, n, CodeUpto(h, NumCodePage(h))) == Image(h, file, n, n * PAGE_SIZE)
    ensures h.initData.size == 0 && h.code.size == 0 ==> Image(h, file, n, 0) == Image(h, file, n, n * PAGE_SIZE)
  {
  }

  /** The frames that a page table names. */
  function FramesOf(table: seq<TranslationEntry>): set<nat> {
    set e | e in table && e.physicalPage >= 0 :: e.physicalPage
  }

  lemma MoreFrames(table: seq<TranslationEntry>, i: nat)
    requires i < |table| && table[i].physicalPage >= 0
    ensures FramesOf(table[..i + 1]) == FramesOf(table[..i]) + {table[i].physicalPage}
  {
  }

  lemma NothingLoaded(h: NoffHeader, file: seq<Byte>, orig: seq<Byte>)
    requires NoffOk(h)
    ensures Loaded(orig, [], Image(h, file, 0, 0)) == orig
  {
  }

  /** The first i pages have their frames, and these are zero. */
  ghost predicate Allocated(h: NoffHeader, file: seq<Byte>, orig: seq<Byte>, memory: seq<Byte>, taken: seq<nat>,
                            table: seq<TranslationEntry>, i: nat)
    requires NoffOk(h)
  {
    && |taken| == i <= |table| && table[..i] == NewTable(taken)
    && memory == Loaded(orig, taken, Image(h, file, i, 0))
  }

  lemma OneMoreAllocated(h: NoffHeader, file: seq<Byte>, orig: seq<Byte>, before: seq<Byte>, after: seq<Byte>,
                         taken: seq<nat>, frame: nat, table: seq<TranslationEntry>, i: nat)
    requires NoffOk(h) && Allocated(h, file, orig, before, taken, table, i)
    requires i < |table| && frame !in taken && |after| == |before|
    requires forall a :: 0 <= a < |before| ==>
               after[a] == if frame * PAGE_SIZE <= a < frame * PAGE_SIZE + PAGE_SIZE then 0 else before[a]
    ensures Allocated(h, file, orig, after, taken + [frame],
                      table[i := TranslationEntry(i, frame, true, false, false, false)], i + 1)
  {
  }

  lemma FrameExists(taken: seq<nat>, frame: nat, all: seq<nat>, numPhysPages: nat)
    requires taken + [frame] <= all && forall f :: f in all ==> f < numPhysPages
    ensures frame < numPhysPages && (frame + 1) * PAGE_SIZE <= numPhysPages * PAGE_SIZE
  {
    assert (taken + [frame])[|taken|] == frame && all[|taken|] == frame;
    assert all[|taken|] in all;
  }

  /** The next number that FindAndSet gives is a new one, and one of all those that are to be taken. */
  lemma NextFrame(marked: set<nat>, bits: nat, i: nat, k: nat, numPhysPages: nat)
    requires i < k <= CountClear(marked, bits)
    requires forall f :: f in TakeClear(marked, bits, k) ==> f < numPhysPages
    ensures var f := FirstClear(AfterTaking(marked, bits, i), 0, bits);
            && 0 <= f < numPhysPages && (f + 1) * PAGE_SIZE <= numPhysPages * PAGE_SIZE
            && (f as nat) !in TakeClear(marked, bits, i)
  {
    TakeStep(marked, bits, i);
    TakePrefix(marked, bits, i + 1, k);
    FrameExists(TakeClear(marked, bits, i), FirstClear(AfterTaking(marked, bits, i), 0, bits),
                TakeClear(marked, bits, k), numPhysPages);
  }

  lemma PartFits(taken: seq<nat>, numPhysPages: nat, p: nat, offset: nat, numBytes: nat)
    requires p < |taken| && offset + numBytes <= PAGE_SIZE && forall f :: f in taken ==> f < numPhysPages
    ensures taken[p] * PAGE_SIZE + offset + numBytes <= numPhysPages * PAGE_SIZE
  {
    assert taken[p] in taken;
  }

  /** memset of a frame. */
  method ZeroPage(machine: Machine, frame: nat)
    requires machine.Valid() && frame < machine.numPhysPages
    modifies machine.mainMemory
    ensures forall a :: 0 <= a < machine.mainMemory.Length ==>
              machine.mainMemory[a] ==
                if frame * PAGE_SIZE <= a < frame * PAGE_SIZE + PAGE_SIZE then 0 else old(machine.mainMemory[a])
  {
    forall o | 0 <= o < PAGE_SIZE {
      machine.mainMemory[frame * PAGE_SIZE + o] := 0;
    }
  }
}
