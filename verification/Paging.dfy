/**
 machine/translate.cc: user memory as the simulated machine sees it. A virtual address is translated
 through a page table, and words lie in main memory with their low byte first.
*/
module Paging {
  import opened Common
  import opened Codec

  /** machine.h: PageSize */
  const PAGE_SIZE := 128

  datatype TranslationEntry = TranslationEntry(
    virtualPage: int, physicalPage: int, valid: bool, readOnly: bool, use: bool, dirty: bool)

  datatype ExceptionType =
    NoException | PageFaultException | ReadOnlyException | BusErrorException | AddressErrorException

  /** The sizes of loads and stores. */
  predicate IsSize(size: int) {
    size == 1 || size == 2 || size == 4
  }

  function Vpn(addr: Int32): nat {
    Unsigned(addr) / PAGE_SIZE
  }

  /** What Machine::Translate answers, in the order of its checks. */
  function Check(table: seq<TranslationEntry>, numPhysPages: nat, addr: Int32, size: int,
      writing: bool): ExceptionType {
    if (size == 4 && Unsigned(addr) % 4 != 0) || (size == 2 && Unsigned(addr) % 2 != 0) then AddressErrorException
    else if Vpn(addr) >= |table| then AddressErrorException
    else if !table[Vpn(addr)].valid then PageFaultException
    else if table[Vpn(addr)].readOnly && writing then ReadOnlyException
    else if table[Vpn(addr)].physicalPage < 0 || table[Vpn(addr)].physicalPage >= numPhysPages then BusErrorException
    else NoException
  }

  /** The physical address of a virtual one whose page is in the table. */
  function Physical(table: seq<TranslationEntry>, v: nat): (a: int)
    requires v / PAGE_SIZE < |table|
    ensures table[v / PAGE_SIZE].physicalPage >= 0 ==> a >= 0
  {
    table[v / PAGE_SIZE].physicalPage * PAGE_SIZE + v % PAGE_SIZE
  }

  /** The use bit, and the dirty bit on writing. */
  function Touched(table: seq<TranslationEntry>, vpn: nat, writing: bool): (r: seq<TranslationEntry>)
    requires vpn < |table|
    ensures |r| == |table|
    ensures forall p :: 0 <= p < |table| ==>
              r[p].physicalPage == table[p].physicalPage && r[p].valid == table[p].valid
                && r[p].readOnly == table[p].readOnly
  {
    table[vpn := table[vpn].(use := true, dirty := writing || table[vpn].dirty)]
  }

  /** The bytes from a physical address on, as the value that a load gives: a byte is signed, a half word is not. */
  function Value(memory: seq<Byte>, a: nat, size: int): Int32
    requires IsSize(size) && a + size <= |memory|
  {
    if size == 1 then (if memory[a] >= 128 then memory[a] - 256 else memory[a])
    else if size == 2 then memory[a] + 256 * memory[a + 1]
    else Signed(BytesWord(memory[a..a + 4]))
  }

  /** What a store leaves in memory. */
  function WithValue(memory: seq<Byte>, a: nat, size: int, value: Int32): (r: seq<Byte>)
    requires IsSize(size) && a + size <= |memory|
    ensures |r| == |memory|
    ensures forall i :: 0 <= i < |memory| && !(a <= i < a + size) ==> r[i] == memory[i]
    ensures forall i :: 0 <= i < size ==> r[a + i] == WordBytes(Unsigned(value))[i]
  {
    memory[..a] + WordBytes(Unsigned(value))[..size] + memory[a + size..]
  }

  /** The part of a value that fits in a size, as a load gives it back. */
  function Truncated(value: Int32, size: int): Int32 {
    if size == 1 then (if Unsigned(value) % 256 >= 128 then Unsigned(value) % 256 - 256 else Unsigned(value) % 256)
    else if size == 2 then Unsigned(value) % 65536
    else value
  }

  /**
   Which exception there is, and when there is none, for an address as an unsigned number: alignment first,
   then the size of the table, the valid bit, the protection, and the frame.
  */
  lemma CheckIff(table: seq<TranslationEntry>, numPhysPages: nat, addr: Int32, size: int, writing: bool)
    requires IsSize(size)
    ensures var v := if addr >= 0 then addr as int else addr + 4294967296;
            var inTable := v % size == 0 && v < 128 * |table|;
            var e := Check(table, numPhysPages, addr, size, writing);
            && (e == AddressErrorException <==> !inTable)
            && (e == PageFaultException <==> inTable && !table[v / 128].valid)
            && (e == ReadOnlyException <==> inTable && table[v / 128].valid && table[v / 128].readOnly && writing)
            && (e == BusErrorException <==>
                  && inTable && table[v / 128].valid && !(table[v / 128].readOnly && writing)
                  && !(0 <= table[v / 128].physicalPage < numPhysPages))
  {
    var v := if addr >= 0 then addr as int else addr + 4294967296;
    assert v == Unsigned(addr) && (v / 128 < |table| <==> v < 128 * |table|);
  }

  /** A translated access sets the use bit of its entry, and the dirty bit if it writes; nothing else changes. */
  lemma TouchedIs(table: seq<TranslationEntry>, vpn: nat, writing: bool, p: nat)
    requires vpn < |table| && p < |table|
    ensures var was, now := table[p], Touched(table, vpn, writing)[p];
            if p != vpn then now == was
            else
              && now.use && (now.dirty <==> was.dirty || writing)
              && now.virtualPage == was.virtualPage && now.physicalPage == was.physicalPage
              && now.valid == was.valid && now.readOnly == was.readOnly
  {
  }

  /** What a load gives: a byte with its sign, a half word without, a word in two's complement; low byte first. */
  lemma ValueMeans(memory: seq<Byte>, a: nat, size: int)
    requires IsSize(size) && a + size <= |memory|
    ensures size == 4 ==> Value(memory, a, size) == IntAt(memory, a)
    ensures size == 2 ==> Value(memory, a, size) == (memory[a] as int) + 256 * (memory[a + 1] as int)
    ensures size == 1 ==> Value(memory, a, size) == (memory[a] as int) - if memory[a] < 128 then 0 else 256
  {
    if size == 4 {
      var w := memory[a..a + 4];
      assert w[0] == memory[a] && w[1] == memory[a + 1] && w[2] == memory[a + 2] && w[3] == memory[a + 3];
    }
  }

  /** What a store leaves: the low bytes of the value, the lowest first, and all other bytes as they were. */
  lemma StoreMeans(memory: seq<Byte>, a: nat, size: int, value: Int32)
    requires IsSize(size) && a + size <= |memory|
    ensures var r := WithValue(memory, a, size, value);
            && |r| == |memory| && (forall i :: 0 <= i < |r| && !(a <= i < a + size) ==> r[i] == memory[i])
            && (size == 1 ==> r[a] == value % 256)
            && (size == 2 ==> (r[a] as int) + 256 * (r[a + 1] as int) == value % 65536)
            && (size == 4 ==> IntAt(r, a) == value)
  {
    var r := WithValue(memory, a, size, value);
    LoadAfterStore(memory, a, size, value);
    ValueMeans(r, a, size);
    assert r[a] == WordBytes(Unsigned(value))[0];
    LowParts(value);
  }

  lemma LowParts(value: Int32)
    ensures Unsigned(value) % 256 == value % 256 && Unsigned(value) % 65536 == value % 65536
  {
  }

  /** A load after a store to the same place gives the value back, cut to its size. */
  lemma LoadAfterStore(memory: seq<Byte>, a: nat, size: int, value: Int32)
    requires IsSize(size) && a + size <= |memory|
    ensures Value(WithValue(memory, a, size, value), a, size) == Truncated(value, size)
  {
    var r, w := WithValue(memory, a, size, value), Unsigned(value);
    WordRoundTrip(w);
    if size == 2 {
      assert r[a] == WordBytes(w)[0] && r[a + 1] == WordBytes(w)[1];
      assert w == 256 * (w / 256) + w % 256;
      assert w % 65536 == 256 * (w / 256 % 256) + w % 256;
    } else if size == 4 {
      assert r[a..a + 4] == WordBytes(w);
    } else {
      assert r[a] == WordBytes(w)[0];
    }
  }

  /** A translated access of a size stays inside its frame. */
  lemma StaysInFrame(table: seq<TranslationEntry>, numPhysPages: nat, addr: Int32, size: int, writing: bool)
    requires IsSize(size) && Check(table, numPhysPages, addr, size, writing) == NoException
    ensures Unsigned(addr) % PAGE_SIZE + size <= PAGE_SIZE
    ensures 0 <= Physical(table, Unsigned(addr)) && Physical(table, Unsigned(addr)) + size <= numPhysPages * PAGE_SIZE
  {
    AlignedInPage(Unsigned(addr), size);
  }

  lemma AlignedInPage(v: nat, size: nat)
    requires size == 1 || (size == 2 && v % 2 == 0) || (size == 4 && v % 4 == 0)
    ensures v % PAGE_SIZE + size <= PAGE_SIZE
  {
    var q, o := v / PAGE_SIZE, v % PAGE_SIZE;
    if size == 2 {
      var k := v / 2;
      assert v == 2 * k && o == 2 * (k - 64 * q);
    } else if size == 4 {
      var k := v / 4;
      assert v == 4 * k && o == 4 * (k - 32 * q);
    }
  }

  class Machine {
    const numPhysPages: nat
    const mainMemory: array<Byte>
    var pageTable: array<TranslationEntry>     // of the running program
    var pageTableSize: nat

    ghost predicate Valid()
      reads this
    {
      mainMemory.Length == numPhysPages * PAGE_SIZE && pageTableSize <= pageTable.Length
    }

    ghost function Table(): seq<TranslationEntry>
      requires pageTableSize <= pageTable.Length
      reads this, pageTable
    {
      pageTable[..pageTableSize]
    }

    constructor (numPhysPages: nat)
      ensures Valid() && fresh(mainMemory) && fresh(pageTable) && this.numPhysPages == numPhysPages
      ensures pageTableSize == 0 && forall a :: 0 <= a < mainMemory.Length ==> mainMemory[a] == 0
    {
      this.numPhysPages := numPhysPages;
      mainMemory := new Byte[numPhysPages * PAGE_SIZE](_ => 0);
      pageTable, pageTableSize := new TranslationEntry[0], 0;
    }

    /** On success the use and dirty bits are set; the assertion on the physical address holds. */
    method Translate(virtAddr: Int32, size: int, writing: bool) returns (exception: ExceptionType, physAddr: int)
      requires Valid() && IsSize(size)
      modifies pageTable
      ensures exception == Check(old(Table()), numPhysPages, virtAddr, size, writing)
      ensures exception == NoException ==>
                && physAddr == Physical(old(Table()), Unsigned(virtAddr))
                && 0 <= physAddr && physAddr + size <= mainMemory.Length
                && Table() == Touched(old(Table()), Vpn(virtAddr), writing)
      ensures exception != NoException ==> Table() == old(Table())
      ensures forall i :: pageTableSize <= i < pageTable.Length ==> pageTable[i] == old(pageTable[i])
    {
      physAddr := 0;
      if (size == 4 && Unsigned(virtAddr) % 4 != 0) || (size == 2 && Unsigned(virtAddr) % 2 != 0) {
        return AddressErrorException, physAddr;
      }
      var vpn := Unsigned(virtAddr) / PAGE_SIZE;
      var offset := Unsigned(virtAddr) % PAGE_SIZE;
      if vpn >= pageTableSize {
        return AddressErrorException, physAddr;
      } else if !pageTable[vpn].valid {
        return PageFaultException, physAddr;
      }
      var entry := pageTable[vpn];
      if entry.readOnly && writing {
        return ReadOnlyException, physAddr;
      }
      var pageFrame := entry.physicalPage;
      if pageFrame < 0 || pageFrame >= numPhysPages {
        return BusErrorException, physAddr;
      }
      StaysInFrame(Table(), numPhysPages, virtAddr, size, writing);
      ghost var before := Table();
      entry := entry.(use := true);
      if writing {
        entry := entry.(dirty := true);
      }
      pageTable[vpn] := entry;
      assert Table() == before[vpn := entry];
      physAddr := pageFrame * PAGE_SIZE + offset;
      assert physAddr >= 0 && physAddr + size <= mainMemory.Length;
      return NoException, physAddr;
    }

    /** RaiseException, when there is one, is the caller's. */
    method ReadMem(addr: Int32, size: int) returns (exception: ExceptionType, value: Int32)
      requires Valid() && IsSize(size)
      modifies pageTable
      ensures exception == Check(old(Table()), numPhysPages, addr, size, false)
      ensures exception == NoException ==>
                && (var a := Physical(old(Table()), Unsigned(addr));
                    0 <= a && a + size <= mainMemory.Length && value == Value(mainMemory[..], a, size))
                && Table() == Touched(old(Table()), Vpn(addr), false)
      ensures exception != NoException ==> Table() == old(Table())
    {
      value := 0;
      var physicalAddress;
      exception, physicalAddress := Translate(addr, size, false);
      if exception != NoException {
        return;
      }
      var a := physicalAddress;
      if size == 1 {
        value := if mainMemory[a] >= 128 then (mainMemory[a] as int) - 256 else mainMemory[a];
      } else if size == 2 {
        value := (mainMemory[a] as int) + 256 * (mainMemory[a + 1] as int);
      } else {
        assert mainMemory[a..a + 4] == mainMemory[..][a..a + 4];
        value := Signed(BytesWord(mainMemory[a..a + 4]));
      }
    }

    method WriteMem(addr: Int32, size: int, value: Int32) returns (exception: ExceptionType)
      requires Valid() && IsSize(size)
      modifies pageTable, mainMemory
      ensures exception == Check(old(Table()), numPhysPages, addr, size, true)
      ensures exception == NoException ==>
                && (var a := Physical(old(Table()), Unsigned(addr));
                    0 <= a && a + size <= mainMemory.Length
                    && mainMemory[..] == WithValue(old(mainMemory[..]), a, size, value))
                && Table() == Touched(old(Table()), Vpn(addr), true)
      ensures exception != NoException ==> Table() == old(Table()) && mainMemory[..] == old(mainMemory[..])
    {
      var a;
      exception, a := Translate(addr, size, true);
      if exception != NoException {
        return;
      }
      var w := Unsigned(value);
      mainMemory[a] := w % 256;
      if size >= 2 {
        mainMemory[a + 1] := w / 256 % 256;
      }
      if size == 4 {
        mainMemory[a + 2], mainMemory[a + 3] := w / 65536 % 256, w / 16777216;
      }
    }
  }
}
