/**
 filesys/filehdr.cc, filesys/directory.cc, filesys/pbitmap.cc and filesys/filesys.cc: the objects through
 which the file system changes the disk, proved against the functions of module Volumes.
*/
module FileSystems {
  import opened Common
  import opened Bitmaps
  import opened SectorFiles
  import opened Codec
  import opened Volumes
  import opened VolumeStore

  // ---------------------------------------------------------------- file headers

  ghost predicate SamePrefix(sectors: seq<Int32>, taken: seq<nat>, k: nat) {
    |taken| == k <= |sectors| && forall q :: 0 <= q < k ==> sectors[q] == taken[q] as int
  }

  /** The header's sectors are the first clear ones. */
  ghost predicate Taken(h: FileHeader, marked: set<nat>, n: nat)
    requires |h.dataSectors| == NUM_DIRECT
  {
    var k := if h.numSectors > 0 then h.numSectors as nat else 0;
    SamePrefix(h.dataSectors, TakeClear(marked, n, k), k)
  }

  lemma PrefixStep(sectors: seq<Int32>, marked: set<nat>, n: nat, i: nat)
    requires i < CountClear(marked, n) && i < |sectors| && n <= 0x8000_0000
    requires SamePrefix(sectors, TakeClear(marked, n, i), i)
    ensures SamePrefix(sectors[i := FirstClear(AfterTaking(marked, n, i), 0, n)], TakeClear(marked, n, i + 1), i + 1)
  {
    TakeStep(marked, n, i);
  }

  lemma PrefixIsList(h: FileHeader, taken: seq<nat>)
    requires |h.dataSectors| == NUM_DIRECT && h.numSectors <= NUM_DIRECT
    requires SamePrefix(h.dataSectors, taken, if h.numSectors > 0 then h.numSectors else 0)
    ensures SectorList(h) == taken
  {
  }

  lemma AllocatedHeader(h: FileHeader, marked: set<nat>, n: nat)
    requires |h.dataSectors| == NUM_DIRECT && h.numSectors == DivRoundUp(h.numBytes, SECTOR_SIZE) <= NUM_DIRECT
    requires h.numSectors <= CountClear(marked, n) && Taken(h, marked, n)
    ensures HeaderOk(h, n)
    ensures Volumes.Allocate(marked, n, h.numBytes) == Some(InfoOf(h))
  {
    var k := if h.numSectors > 0 then h.numSectors as nat else 0;
    var data := TakeClear(marked, n, k);
    TakeClearIsFresh(marked, n, k);
    assert SectorList(h) == data;
    forall i | 0 <= i < |Used(h)| ensures 0 <= Used(h)[i] < n {
      assert data[i] in data;
    }
  }

  /** FileHeader as the object that Allocate fills in; the array holds garbage until then. */
  class HeaderRecord {
    var numBytes: Int32
    var numSectors: Int32
    const dataSectors: array<Int32>

    ghost predicate Valid()
      reads this
    {
      dataSectors.Length == NUM_DIRECT
    }

    function Value(): (h: FileHeader)
      requires Valid()
      reads this, dataSectors
      ensures |h.dataSectors| == NUM_DIRECT
    {
      FileHeader(numBytes, numSectors, dataSectors[..])
    }

    constructor ()
      ensures Valid() && fresh(dataSectors)
    {
      dataSectors := new Int32[NUM_DIRECT];
    }

    /**
     FileHeader::Allocate: with enough clear bits the header gets the first clear sectors and marks
     exactly them, and the assertion in the loop holds; otherwise no bit changes.
    */
    method Allocate(freeMap: Bitmap, fileSize: Int32) returns (ok: bool)
      requires Valid() && freeMap.Valid() && freeMap.numBits <= 0x8000_0000
      requires freeMap.words as object != dataSectors && freeMap as object != this
      requires StaysInHeader(StoredAt(freeMap.Set(), freeMap.numBits, fileSize))
      modifies this, dataSectors, freeMap.words
      ensures Valid() && freeMap.Valid()
      ensures ok <==> Volumes.Allocate(old(freeMap.Set()), freeMap.numBits, fileSize).Some?
      ensures ok ==> InfoOf(Value()) == Volumes.Allocate(old(freeMap.Set()), freeMap.numBits, fileSize).value
      ensures ok ==> freeMap.Set() == old(freeMap.Set()) + Elements(SectorList(Value()))
      ensures ok ==> HeaderOk(Value(), freeMap.numBits)
      ensures !ok ==> freeMap.Set() == old(freeMap.Set())
    {
      ghost var marked, n := freeMap.Set(), freeMap.numBits;
      numBytes := fileSize;
      numSectors := DivRoundUp(fileSize, SECTOR_SIZE);
      var clear := freeMap.NumClear();
      if clear < numSectors {
        return false;
      }
      AllocateStaysIff(marked, n, fileSize);
      TakeSectors(freeMap);
      AllocatedHeader(Value(), marked, n);
      return true;
    }

    /** The loop of Allocate. */
    method TakeSectors(freeMap: Bitmap)
      requires Valid() && freeMap.Valid() && freeMap.numBits <= 0x8000_0000
      requires freeMap.words as object != dataSectors && freeMap as object != this
      requires numSectors <= NUM_DIRECT && numSectors <= CountClear(freeMap.Set(), freeMap.numBits)
      modifies dataSectors, freeMap.words
      ensures freeMap.Valid() && Taken(Value(), old(freeMap.Set()), freeMap.numBits)
      ensures freeMap.Set() == old(freeMap.Set()) + Elements(SectorList(Value()))
    {
      ghost var marked, n := freeMap.Set(), freeMap.numBits;
      NothingTaken(marked, n);
      var i: nat := 0;
      while i < numSectors
        invariant i == 0 || i <= numSectors
        invariant freeMap.Valid() && freeMap.Set() == AfterTaking(marked, n, i)
        invariant SamePrefix(dataSectors[..], TakeClear(marked, n, i), i)
      {
        var next := i + 1;
        TakeOne(freeMap, i, next, marked);
        i := next;
      }
      PrefixIsList(Value(), TakeClear(marked, n, i));
    }

    /** One turn of the loop; its assertion holds. */
    method TakeOne(freeMap: Bitmap, i: nat, ghost next: nat, ghost marked: set<nat>)
      requires Valid() && freeMap.Valid() && freeMap.numBits <= 0x8000_0000
      requires freeMap.words as object != dataSectors && freeMap as object != this
      requires i < NUM_DIRECT && i < CountClear(marked, freeMap.numBits) && next == i + 1
      requires freeMap.Set() == AfterTaking(marked, freeMap.numBits, i)
      requires SamePrefix(dataSectors[..], TakeClear(marked, freeMap.numBits, i), i)
      modifies dataSectors, freeMap.words
      ensures freeMap.Valid() && freeMap.Set() == AfterTaking(marked, freeMap.numBits, next)
      ensures SamePrefix(dataSectors[..], TakeClear(marked, freeMap.numBits, next), next)
    {
      TakeStep(marked, freeMap.numBits, i);
      PrefixStep(dataSectors[..], marked, freeMap.numBits, i);
      var found := freeMap.FindAndSet();
      assert found >= 0;
      ghost var before := dataSectors[..];
      dataSectors[i] := found;
      assert dataSectors[..] == before[i := dataSectors[i]];
    }

    /** FileHeader::Deallocate: its assertion holds, and exactly the file's sectors are cleared. */
    method Deallocate(freeMap: Bitmap)
      requires Valid() && freeMap.Valid() && HeaderOk(Value(), freeMap.numBits)
      requires freeMap.words as object != dataSectors
      requires forall x :: x in SectorList(Value()) ==> x in freeMap.Set()
      modifies freeMap.words
      ensures freeMap.Valid() && freeMap.Set() == old(freeMap.Set()) - Elements(SectorList(Value()))
    {
      ghost var marked, list := freeMap.Set(), SectorList(Value());
      SectorListIsUsed(Value(), freeMap.numBits);
      var i := 0;
      while i < numSectors
        invariant 0 <= i <= |list| && freeMap.Valid() && freeMap.Set() == marked - Elements(list[..i])
      {
        SectorExists(Value(), freeMap.numBits, i);
        assert list[i] == dataSectors[i] as nat && list[i] !in list[..i];
        var isMarked := freeMap.Test(dataSectors[i]);
        assert isMarked;
        freeMap.Clear(dataSectors[i]);
        assert Elements(list[..i + 1]) == Elements(list[..i]) + {list[i]} by {
          assert list[..i + 1] == list[..i] + [list[i]];
        }
        i := i + 1;
      }
      assert list[..i] == list;
    }

    method FetchFrom(disk: SynchDisk, sector: nat)
      requires Valid() && DiskOk(disk.sectors) && sector < |disk.sectors|
      modifies this, dataSectors
      ensures Valid() && Value() == DecodeHeader(disk.sectors[sector])
    {
      var buf := new Byte[SECTOR_SIZE];
      disk.ReadSector(sector, buf, 0);
      assert buf[..] == disk.sectors[sector];
      var h := DecodeHeader(buf[..]);
      numBytes, numSectors := h.numBytes, h.numSectors;
      forall i | 0 <= i < NUM_DIRECT {
        dataSectors[i] := h.dataSectors[i];
      }
      assert dataSectors[..] == h.dataSectors;
    }

    method WriteBack(disk: SynchDisk, sector: nat)
      requires Valid() && DiskOk(disk.sectors) && sector < |disk.sectors|
      modifies disk
      ensures DiskOk(disk.sectors) && disk.sectors == old(disk.sectors)[sector := EncodeHeader(Value())]
    {
      disk.WriteSector(sector, EncodeHeader(Value()));
    }
  }

  /** OpenFile::OpenFile(int sector) */
  method OpenAt(disk: SynchDisk, sector: nat) returns (file: OpenFile)
    requires DiskOk(disk.sectors) && sector < |disk.sectors|
    requires HeaderOk(DecodeHeader(disk.sectors[sector]), |disk.sectors|)
    ensures fresh(file) && file.Valid() && file.disk == disk && file.hdr == DecodeHeader(disk.sectors[sector])
    ensures file.seekPosition == 0
  {
    var hdr := new HeaderRecord();
    hdr.FetchFrom(disk, sector);
    file := new OpenFile(disk, hdr.Value());
  }

  // ---------------------------------------------------------------- the bitmap's file

  /** A write over the whole file makes its contents those bytes. */
  lemma SpliceAll(s: seq<Byte>, data: seq<Byte>)
    requires |s| == |data|
    ensures Splice(s, 0, data) == data
  {
  }

  /** Replace the whole contents of a file. */
  method WriteWhole(file: OpenFile, bytes: seq<Byte>)
    requires file.Valid() && |bytes| == |file.Bytes()|
    modifies file.disk
    ensures file.Valid() && |file.disk.sectors| == old(|file.disk.sectors|) && file.Bytes() == bytes
    ensures forall s :: 0 <= s < |file.disk.sectors| && s !in Used(file.hdr) ==>
              file.disk.sectors[s] == old(file.disk.sectors[s])
  {
    var buf := new Byte[|bytes|](i requires 0 <= i < |bytes| => bytes[i]);
    assert buf[..] == bytes;
    var count := file.WriteAt(buf, buf.Length, 0);
    if count > 0 {
      assert buf[..count] == bytes;
      SpliceAll(old(file.Bytes()), bytes);
    } else {
      assert bytes == file.Bytes();
    }
  }

  method ReadWhole(file: OpenFile, size: nat) returns (bytes: seq<Byte>)
    requires file.Valid() && size == |file.Bytes()|
    ensures bytes == file.Bytes()
  {
    var buf := new Byte[size];
    var count := file.ReadAt(buf, 0, size, 0);
    bytes := buf[..];
  }

  /** PersistentBitmap::FetchFrom */
  method FetchBitmap(freeMap: Bitmap, file: OpenFile)
    requires freeMap.Valid() && file.Valid() && |file.Bytes()| == 4 * freeMap.words.Length
    modifies freeMap.words
    ensures freeMap.Valid() && freeMap.words[..] == BitWords(file.Bytes())
  {
    var bytes := ReadWhole(file, 4 * freeMap.words.Length);
    var words := BitWords(bytes);
    forall i | 0 <= i < freeMap.words.Length {
      freeMap.words[i] := words[i];
    }
  }

  /** PersistentBitmap::WriteBack */
  method WriteBitmap(freeMap: Bitmap, file: OpenFile)
    requires freeMap.Valid() && file.Valid() && |file.Bytes()| == 4 * freeMap.words.Length
    modifies file.disk
    ensures file.Valid() && |file.disk.sectors| == old(|file.disk.sectors|)
    ensures file.Bytes() == BitBytes(freeMap.words[..])
    ensures forall s :: 0 <= s < |file.disk.sectors| && s !in Used(file.hdr) ==>
              file.disk.sectors[s] == old(file.disk.sectors[s])
  {
    WriteWhole(file, BitBytes(freeMap.words[..]));
  }

  // ---------------------------------------------------------------- the directory's file

  const BLANK_NAME: seq<Byte> := seq(NAME_MAX + 1, _ => 0)

  class Directory {
    const table: array<Entry>

    ghost predicate Valid()
      reads this, table
    {
      DirOk(table[..])
    }

    constructor (size: nat)
      ensures Valid() && fresh(table) && table.Length == size
      ensures forall i :: 0 <= i < size ==> !table[i].inUse
    {
      table := new Entry[size](_ => Entry(true, 0, BLANK_NAME));
      new;
      for i := 0 to size
        invariant Valid()
        invariant forall k :: 0 <= k < i ==> !table[k].inUse
      {
        table[i] := table[i].(inUse := false);
      }
    }

    method FetchFrom(file: OpenFile)
      requires Valid() && file.Valid() && |file.Bytes()| == ENTRY_SIZE * table.Length
      modifies table
      ensures Valid() && table[..] == DecodeDir(file.Bytes(), table.Length)
    {
      var bytes := ReadWhole(file, ENTRY_SIZE * table.Length);
      var entries := DecodeDir(bytes, table.Length);
      forall i | 0 <= i < table.Length {
        table[i] := entries[i];
      }
      assert table[..] == entries;
    }

    method WriteBack(file: OpenFile)
      requires Valid() && file.Valid() && |file.Bytes()| == ENTRY_SIZE * table.Length
      modifies file.disk
      ensures file.Valid() && |file.disk.sectors| == old(|file.disk.sectors|)
      ensures file.Bytes() == EncodeDir(table[..])
      ensures forall s :: 0 <= s < |file.disk.sectors| && s !in Used(file.hdr) ==>
                file.disk.sectors[s] == old(file.disk.sectors[s])
    {
      WriteWhole(file, EncodeDir(table[..]));
    }

    method FindIndex(name: seq<Byte>) returns (r: int)
      ensures r == Volumes.FindIndex(table[..], name)
    {
      for i := 0 to table.Length
        invariant Volumes.FindIndex(table[..], name) == FindFrom(table[..], name, i)
      {
        if table[i].inUse && StrnEq(table[i].name, name, 0) {
          return i;
        }
      }
      return -1;
    }

    method Find(name: seq<Byte>) returns (sector: int)
      ensures sector == Volumes.Find(table[..], name)
    {
      var i := FindIndex(name);
      if i != -1 {
        return table[i].sector;
      }
      return -1;
    }

    /** The first free entry gets the name and the sector, unless the name is there or no entry is free. */
    method Add(name: seq<Byte>, newSector: Int32) returns (ok: bool)
      requires Valid()
      modifies table
      ensures Valid()
      ensures var was, j := old(table[..]), FreeFrom(old(table[..]), 0);
              && (ok <==> Volumes.FindIndex(was, name) == -1 && j != -1)
              && table[..] == if ok then was[j := Entry(true, newSector, StrnCpy(was[j].name, name))] else was
    {
      var i := FindIndex(name);
      if i != -1 {
        return false;
      }
      for k := 0 to table.Length
        invariant table[..] == old(table[..]) && FreeFrom(table[..], 0) == FreeFrom(table[..], k)
      {
        if !table[k].inUse {
          table[k] := Entry(true, newSector, StrnCpy(table[k].name, name));
          return true;
        }
      }
      return false;
    }

    method Remove(name: seq<Byte>) returns (ok: bool)
      requires Valid()
      modifies table
      ensures Valid()
      ensures var was, i := old(table[..]), Volumes.FindIndex(old(table[..]), name);
              (ok <==> i != -1) && table[..] == if ok then was[i := was[i].(inUse := false)] else was
    {
      var i := FindIndex(name);
      if i == -1 {
        return false;
      }
      table[i] := table[i].(inUse := false);
      return true;
    }
  }

  // ---------------------------------------------------------------- the file system

  /** The sectors of the two files of the system stay apart from all others. */
  lemma SystemApart(sectors: seq<seq<Byte>>, entries: nat, x: nat)
    requires SystemOk(sectors, entries) && x !in SystemSet(sectors)
    ensures x !in Used(MapHdr(sectors)) && x !in Used(DirHdr(sectors)) && x > 1
  {
    SectorListIsUsed(MapHdr(sectors), |sectors|);
    SectorListIsUsed(DirHdr(sectors), |sectors|);
  }

  /** Store a new file's header in a sector outside the system. */
  method StoreHeader(disk: SynchDisk, entries: nat, hdr: HeaderRecord, sector: nat)
    requires SystemOk(disk.sectors, entries) && hdr.Valid()
    requires sector < |disk.sectors| && sector !in SystemSet(disk.sectors)
    modifies disk
    ensures SystemOk(disk.sectors, entries) && |disk.sectors| == old(|disk.sectors|)
    ensures MapHdr(disk.sectors) == old(MapHdr(disk.sectors)) && DirHdr(disk.sectors) == old(DirHdr(disk.sectors))
    ensures SystemSet(disk.sectors) == old(SystemSet(disk.sectors))
    ensures DecodeHeader(disk.sectors[sector]) == hdr.Value()
    ensures forall x :: 0 <= x < |disk.sectors| && x != sector ==> disk.sectors[x] == old(disk.sectors[x])
  {
    ghost var before := disk.sectors;
    hdr.WriteBack(disk, sector);
    HeaderRoundTrip(hdr.Value());
    SystemKept(before, disk.sectors, entries, sector);
  }

  /** Store the directory and then the bitmap, as Create does. */
  method StoreDirectoryFirst(disk: SynchDisk, entries: nat, freeMapFile: OpenFile, directoryFile: OpenFile,
                             freeMap: Bitmap, directory: Directory)
    requires SystemOk(disk.sectors, entries)
    requires freeMapFile.disk == disk == directoryFile.disk
    requires freeMapFile.hdr == MapHdr(disk.sectors) && directoryFile.hdr == DirHdr(disk.sectors)
    requires freeMap.Valid() && freeMap.numBits == |disk.sectors|
    requires directory.Valid() && directory.table.Length == entries
    modifies disk
    ensures Rewritten(old(disk.sectors), disk.sectors, entries, freeMap.words[..], directory.table[..])
    ensures forall x :: 0 <= x < |disk.sectors| && x !in SystemSet(old(disk.sectors)) ==>
              disk.sectors[x] == old(disk.sectors[x])
  {
    ghost var before := disk.sectors;
    directory.WriteBack(directoryFile);
    ghost var between := disk.sectors;
    WriteBitmap(freeMap, freeMapFile);
    OtherFile(between, disk.sectors, freeMapFile.hdr, directoryFile.hdr);
    forall x | 0 <= x < |before| && x !in SystemSet(before) ensures disk.sectors[x] == before[x] {
      SystemApart(before, entries, x);
    }
  }

  /** Store the bitmap and then the directory, as Remove and format do. */
  method StoreBitmapFirst(disk: SynchDisk, entries: nat, freeMapFile: OpenFile, directoryFile: OpenFile,
                          freeMap: Bitmap, directory: Directory)
    requires SystemOk(disk.sectors, entries)
    requires freeMapFile.disk == disk == directoryFile.disk
    requires freeMapFile.hdr == MapHdr(disk.sectors) && directoryFile.hdr == DirHdr(disk.sectors)
    requires freeMap.Valid() && freeMap.numBits == |disk.sectors|
    requires directory.Valid() && directory.table.Length == entries
    modifies disk
    ensures Rewritten(old(disk.sectors), disk.sectors, entries, freeMap.words[..], directory.table[..])
    ensures forall x :: 0 <= x < |disk.sectors| && x !in SystemSet(old(disk.sectors)) ==>
              disk.sectors[x] == old(disk.sectors[x])
  {
    ghost var before := disk.sectors;
    WriteBitmap(freeMap, freeMapFile);
    ghost var between := disk.sectors;
    directory.WriteBack(directoryFile);
    OtherFile(between, disk.sectors, directoryFile.hdr, freeMapFile.hdr);
    forall x | 0 <= x < |before| && x !in SystemSet(before) ensures disk.sectors[x] == before[x] {
      SystemApart(before, entries, x);
    }
  }

  /** The headers that format allocates: they make a sound system of the sectors set aside. */
  lemma SystemAllocated(sectors: seq<seq<Byte>>, entries: nat)
    requires Whole(sectors) && RoomForSystem(|sectors|, entries)
    requires var n, first := |sectors|, {FREE_MAP_SECTOR, DIRECTORY_SECTOR};
             && HeaderOk(MapHdr(sectors), n) && HeaderOk(DirHdr(sectors), n)
             && Allocate(first, n, MapBytes(n)) == Some(InfoOf(MapHdr(sectors)))
             && Allocate(first + Elements(SectorList(MapHdr(sectors))), n, ENTRY_SIZE * entries) ==
                  Some(InfoOf(DirHdr(sectors)))
    ensures SystemOk(sectors, entries) && SystemSet(sectors) == SystemSectors(|sectors|, entries)
  {
    var n, m, d := |sectors|, MapHdr(sectors), DirHdr(sectors);
    DataSectorsRoundUp(MapBytes(n));
    DataSectorsRoundUp(ENTRY_SIZE * entries);
    assert SectorList(m) == MapData(n);
    assert SectorList(d) == DirData(n, entries);
    MapFits(n, DataSectors(MapBytes(n)));
    DirFits(n, entries, DataSectors(ENTRY_SIZE * entries));
    SectorListIsUsed(m, n);
    SectorListIsUsed(d, n);
  }

  lemma FormattedStore(sectors: seq<seq<Byte>>, entries: nat)
    requires SystemOk(sectors, entries) && RoomForSystem(|sectors|, entries)
    requires SystemSet(sectors) == SystemSectors(|sectors|, entries)
    requires forall i :: 0 <= i < entries ==> !Table(sectors, entries)[i].inUse
    requires Marked(Bits(sectors, entries), |sectors|) == SystemSet(sectors)
    ensures StoreOk(sectors, entries) && Formatted(View(sectors, entries), entries)
  {
    assert Headers(Table(sectors, entries), sectors) == map[];
    FormattedOk(View(sectors, entries), entries);
  }

  /** Allocate for format, where there is room, must succeed. */
  lemma RoomIsEnough(n: nat, entries: nat)
    requires RoomForSystem(n, entries)
    ensures Allocate({FREE_MAP_SECTOR, DIRECTORY_SECTOR}, n, MapBytes(n)).Some?
    ensures Allocate({FREE_MAP_SECTOR, DIRECTORY_SECTOR}, n, MapBytes(n)).value.sectors == MapData(n)
    ensures Allocate({FREE_MAP_SECTOR, DIRECTORY_SECTOR} + Elements(MapData(n)), n, ENTRY_SIZE * entries).Some?
  {
    DataSectorsRoundUp(MapBytes(n));
    DataSectorsRoundUp(ENTRY_SIZE * entries);
    FirstTwo(n);
    MapFits(n, DataSectors(MapBytes(n)));
  }

  /** The beginning of format, in memory only: the two headers for the files of the system. */
  method SetAside(n: nat, entries: nat, freeMap: Bitmap) returns (mapHdr: HeaderRecord, dirHdr: HeaderRecord)
    requires RoomForSystem(n, entries) && freeMap.Valid() && freeMap.Set() == {} && freeMap.numBits == n
    modifies freeMap.words
    ensures freeMap.Valid() && mapHdr.Valid() && dirHdr.Valid()
    ensures fresh(mapHdr) && fresh(dirHdr)
    ensures HeaderOk(mapHdr.Value(), n) && HeaderOk(dirHdr.Value(), n)
    ensures var first := {FREE_MAP_SECTOR, DIRECTORY_SECTOR};
            && Allocate(first, n, MapBytes(n)) == Some(InfoOf(mapHdr.Value()))
            && Allocate(first + Elements(SectorList(mapHdr.Value())), n, ENTRY_SIZE * entries) ==
                 Some(InfoOf(dirHdr.Value()))
            && freeMap.Set() ==
                 first + Elements(SectorList(mapHdr.Value())) + Elements(SectorList(dirHdr.Value()))
  {
    mapHdr := new HeaderRecord();
    dirHdr := new HeaderRecord();
    freeMap.Mark(FREE_MAP_SECTOR);
    freeMap.Mark(DIRECTORY_SECTOR);
    assert freeMap.Set() == {FREE_MAP_SECTOR, DIRECTORY_SECTOR};
    RoomIsEnough(n, entries);
    AllocateStaysIff(freeMap.Set(), n, MapBytes(n));
    var mapFits := mapHdr.Allocate(freeMap, MapBytes(n));
    assert mapFits;
    AllocateStaysIff(freeMap.Set(), n, ENTRY_SIZE * entries);
    var dirFits := dirHdr.Allocate(freeMap, ENTRY_SIZE * entries);
    assert dirFits;
  }

  /** format, first part: set the sectors of the system aside and write the two headers. */
  method FormatHeaders(disk: SynchDisk, entries: nat, freeMap: Bitmap)
    requires Whole(disk.sectors) && RoomForSystem(|disk.sectors|, entries)
    requires freeMap.Valid() && freeMap.Set() == {} && freeMap.numBits == |disk.sectors|
    modifies disk, freeMap.words
    ensures freeMap.Valid() && |disk.sectors| == old(|disk.sectors|)
    ensures SystemOk(disk.sectors, entries) && SystemSet(disk.sectors) == SystemSectors(|disk.sectors|, entries)
    ensures freeMap.Set() == SystemSet(disk.sectors)
  {
    var mapHdr, dirHdr := SetAside(|disk.sectors|, entries, freeMap);
    mapHdr.WriteBack(disk, FREE_MAP_SECTOR);
    dirHdr.WriteBack(disk, DIRECTORY_SECTOR);
    HeaderRoundTrip(mapHdr.Value());
    HeaderRoundTrip(dirHdr.Value());
    SystemAllocated(disk.sectors, entries);
  }

  /** The branch of the constructor for format: an empty directory, and only the system's sectors marked. */
  method Format(disk: SynchDisk, entries: nat) returns (freeMapFile: OpenFile, directoryFile: OpenFile)
    requires Whole(disk.sectors) && RoomForSystem(|disk.sectors|, entries)
    modifies disk
    ensures StoreOk(disk.sectors, entries) && |disk.sectors| == old(|disk.sectors|)
    ensures Formatted(View(disk.sectors, entries), entries)
    ensures freeMapFile.disk == disk && freeMapFile.hdr == MapHdr(disk.sectors)
    ensures directoryFile.disk == disk && directoryFile.hdr == DirHdr(disk.sectors)
  {
    var freeMap := new Bitmap(|disk.sectors|);
    var directory := new Directory(entries);
    FormatHeaders(disk, entries, freeMap);
    freeMapFile := OpenAt(disk, FREE_MAP_SECTOR);
    directoryFile := OpenAt(disk, DIRECTORY_SECTOR);
    ghost var before := disk.sectors;
    StoreBitmapFirst(disk, entries, freeMapFile, directoryFile, freeMap, directory);
    RewrittenView(before, disk.sectors, entries, freeMap.words[..], directory.table[..]);
    FormattedStore(disk.sectors, entries);
  }

  /** The middle of Create, in memory only: a sector for the header, an entry, and the data sectors. */
  method Reserve(ghost v: Volume, name: seq<Byte>, initialSize: Int32, directory: Directory, freeMap: Bitmap)
    returns (success: bool, sector: int, hdr: HeaderRecord)
    requires DirOk(v.dir) && v.n <= 0x8000_0000
    requires FindIndex(v.dir, name) == -1 && StaysInHeader(CreateStoresAt(v, name, initialSize))
    requires directory.Valid() && directory.table[..] == v.dir
    requires freeMap.Valid() && freeMap.Set() == v.marked && freeMap.numBits == v.n
    requires freeMap.words as object != directory.table
    modifies directory.table, freeMap.words
    ensures success <==> Create(v, name, initialSize).Some?
    ensures fresh(hdr) && fresh(hdr.dataSectors) && directory.Valid() && freeMap.Valid() && hdr.Valid()
    ensures success ==>
              && sector == FirstClear(v.marked, 0, v.n)
              && directory.table[..] == Create(v, name, initialSize).value.dir
              && freeMap.Set() == Create(v, name, initialSize).value.marked
              && HeaderOk(hdr.Value(), v.n)
              && InfoOf(hdr.Value()) == Allocate(v.marked + {sector as nat}, v.n, initialSize).value
  {
    hdr := new HeaderRecord();
    sector := freeMap.FindAndSet();
    if sector == -1 {
      return false, sector, hdr;
    }
    var added := directory.Add(name, sector);
    if !added {
      return false, sector, hdr;
    }
    success := hdr.Allocate(freeMap, initialSize);
  }

  /** The middle of Remove, in memory only: give up the file's data sectors, its header's, and its entry. */
  method Release(ghost v: Volume, name: seq<Byte>, disk: SynchDisk, sector: nat, directory: Directory, freeMap: Bitmap)
    requires VolumeOk(v) && FindIndex(v.dir, name) != -1 && sector == Volumes.Find(v.dir, name)
    requires DiskOk(disk.sectors) && v.n == |disk.sectors| && sector < v.n && sector in v.headers
    requires HeaderOk(DecodeHeader(disk.sectors[sector]), v.n)
    requires v.headers[sector] == InfoOf(DecodeHeader(disk.sectors[sector]))
    requires directory.Valid() && directory.table[..] == v.dir
    requires freeMap.Valid() && freeMap.Set() == v.marked && freeMap.numBits == v.n
    requires freeMap.words as object != directory.table
    modifies directory.table, freeMap.words
    ensures freeMap.Valid() && freeMap.Set() == Remove(v, name).value.marked
    ensures directory.Valid() && directory.table[..] == Remove(v, name).value.dir
  {
    FoundIsHeader(v, name);
    var fileHdr := new HeaderRecord();
    fileHdr.FetchFrom(disk, sector);
    fileHdr.Deallocate(freeMap);
    freeMap.Clear(sector);
    var removed := directory.Remove(name);
  }

  class FileSystem {
    const disk: SynchDisk
    const numDirEntries: nat
    const freeMapFile: OpenFile
    const directoryFile: OpenFile

    ghost predicate Valid()
      reads this, disk
    {
      && StoreOk(disk.sectors, numDirEntries)
      && freeMapFile.disk == disk && freeMapFile.hdr == MapHdr(disk.sectors)
      && directoryFile.disk == disk && directoryFile.hdr == DirHdr(disk.sectors)
    }

    /** With format the disk gets a fresh file system; otherwise the one it stores is opened as it is. */
    constructor (disk: SynchDisk, numDirEntries: nat, format: bool)
      requires if format
               then Whole(disk.sectors) && RoomForSystem(|disk.sectors|, numDirEntries)
               else StoreOk(disk.sectors, numDirEntries)
      modifies disk
      ensures Valid() && this.disk == disk && this.numDirEntries == numDirEntries
      ensures |disk.sectors| == old(|disk.sectors|)
      ensures format ==> Formatted(Volume(), numDirEntries)
      ensures !format ==> disk.sectors == old(disk.sectors)
    {
      this.disk, this.numDirEntries := disk, numDirEntries;
      if format {
        var bitmapFile, entryFile := Format(disk, numDirEntries);
        freeMapFile, directoryFile := bitmapFile, entryFile;
      } else {
        var bitmapFile := OpenAt(disk, FREE_MAP_SECTOR);
        var entryFile := OpenAt(disk, DIRECTORY_SECTOR);
        freeMapFile, directoryFile := bitmapFile, entryFile;
      }
    }

    /** What the disk stores. */
    ghost function Volume(): Volume
      requires Valid()
      reads this, disk
    {
      View(disk.sectors, numDirEntries)
    }

    method FetchDirectory() returns (directory: Directory)
      requires Valid()
      ensures fresh(directory) && fresh(directory.table) && directory.Valid()
      ensures directory.table[..] == Volume().dir && directory.table.Length == numDirEntries
    {
      directory := new Directory(numDirEntries);
      directory.FetchFrom(directoryFile);
    }

    /** PersistentBitmap::PersistentBitmap(file, NumSectors) */
    method FetchFreeMap() returns (freeMap: Bitmap)
      requires Valid()
      ensures fresh(freeMap) && fresh(freeMap.words) && freeMap.Valid()
      ensures freeMap.numBits == |disk.sectors| && freeMap.Set() == Volume().marked
    {
      freeMap := new Bitmap(|disk.sectors|);
      FetchBitmap(freeMap, freeMapFile);
    }

    /**
     TRUE exactly when Volumes.Create succeeds, and then the disk stores its result; otherwise the disk
     is as it was. No sector that another file uses changes.
    */
    method Create(name: seq<Byte>, initialSize: Int32) returns (success: bool)
      requires Valid() && IsName(name) && StaysInHeader(CreateStoresAt(Volume(), name, initialSize))
      modifies disk
      ensures Valid()
      ensures success <==> Volumes.Create(old(Volume()), name, initialSize).Some?
      ensures success ==> Volume() == Volumes.Create(old(Volume()), name, initialSize).value
      ensures !success ==> disk.sectors == old(disk.sectors)
      ensures |disk.sectors| == old(|disk.sectors|)
      ensures forall x :: x in old(Volume()).marked && x !in old(Volume()).system ==>
                disk.sectors[x] == old(disk.sectors[x])
    {
      ghost var v := Volume();
      var directory := FetchDirectory();
      var found := directory.Find(name);
      FindsOrNot(v, name);
      if found != -1 {
        return false;
      }
      var freeMap := FetchFreeMap();
      var ok, sector, hdr := Reserve(v, name, initialSize, directory, freeMap);
      if ok {
        CreateStaysIff(v, name, initialSize);
        Flush(name, initialSize, hdr, sector, directory, freeMap);
        FilesUnchanged(old(disk.sectors), disk.sectors, numDirEntries, sector);
      }
      return ok;
    }

    /** Create once everything has worked: flush all changes to disk. */
    method Flush(name: seq<Byte>, initialSize: Int32, hdr: HeaderRecord, sector: nat, directory: Directory,
                 freeMap: Bitmap)
      requires Valid() && IsName(name) && initialSize <= MAX_FILE_SIZE
      requires var v := Volume();
               && Volumes.Create(v, name, initialSize).Some? && sector == FirstClear(v.marked, 0, v.n)
               && directory.Valid() && directory.table[..] == Volumes.Create(v, name, initialSize).value.dir
               && freeMap.Valid() && freeMap.numBits == v.n
               && freeMap.Set() == Volumes.Create(v, name, initialSize).value.marked
               && hdr.Valid() && HeaderOk(hdr.Value(), v.n)
               && InfoOf(hdr.Value()) == Allocate(v.marked + {sector}, v.n, initialSize).value
      modifies disk
      ensures Valid() && |disk.sectors| == old(|disk.sectors|)
      ensures Volume() == Volumes.Create(old(Volume()), name, initialSize).value
      ensures forall x :: 0 <= x < |disk.sectors| && x != sector && x !in SystemSet(old(disk.sectors)) ==>
                disk.sectors[x] == old(disk.sectors[x])
    {
      ghost var before := disk.sectors;
      SystemIsMarked(Volume());
      StoreHeader(disk, numDirEntries, hdr, sector);
      StoreDirectoryFirst(disk, numDirEntries, freeMapFile, directoryFile, freeMap, directory);
      CreateStored(before, disk.sectors, numDirEntries, name, initialSize, freeMap.words[..]);
    }

    /** The file's header when the name is found, null otherwise; nothing changes. */
    method Open(name: seq<Byte>) returns (openFile: OpenFile?)
      requires Valid() && IsName(name)
      ensures openFile == null <==> !HasFile(Volume().dir, name)
      ensures openFile != null ==>
                && fresh(openFile) && openFile.Valid() && openFile.disk == disk && openFile.seekPosition == 0
                && var s := Volumes.Find(Volume().dir, name);
                   && 0 <= s < |disk.sectors| && openFile.hdr == DecodeHeader(disk.sectors[s])
                   && s in Volume().headers && InfoOf(openFile.hdr) == Volume().headers[s]
    {
      openFile := null;
      StoredOrNot(Volume(), name);
      var directory := FetchDirectory();
      var sector := directory.Find(name);
      if sector >= 0 {
        FoundIsReadable(disk.sectors, numDirEntries, name);
        openFile := OpenAt(disk, sector);
      }
    }

    /**
     TRUE exactly when the name is stored, and then the disk stores the result of Volumes.Remove;
     otherwise the disk is as it was. No sector outside the system's two files changes.
    */
    method Remove(name: seq<Byte>) returns (success: bool)
      requires Valid() && IsName(name)
      modifies disk
      ensures Valid()
      ensures success <==> HasFile(old(Volume()).dir, name)
      ensures success ==> Volumes.Remove(old(Volume()), name) == Some(Volume())
      ensures !success ==> disk.sectors == old(disk.sectors)
      ensures |disk.sectors| == old(|disk.sectors|)
      ensures forall x :: 0 <= x < |disk.sectors| && x !in old(Volume()).system ==>
                disk.sectors[x] == old(disk.sectors[x])
    {
      ghost var v := Volume();
      StoredOrNot(v, name);
      var directory := FetchDirectory();
      var sector := directory.Find(name);
      if sector == -1 {
        return false;
      }
      RemoveFound(name, sector, directory);
      return true;
    }

    /** Remove once the name is found. */
    method RemoveFound(name: seq<Byte>, sector: nat, directory: Directory)
      requires Valid() && FindIndex(Volume().dir, name) != -1 && sector == Volumes.Find(Volume().dir, name)
      requires directory.Valid() && directory.table[..] == Volume().dir
      modifies disk, directory.table
      ensures Valid() && |disk.sectors| == old(|disk.sectors|)
      ensures Volumes.Remove(old(Volume()), name) == Some(Volume())
      ensures forall x :: 0 <= x < |disk.sectors| && x !in old(Volume()).system ==>
                disk.sectors[x] == old(disk.sectors[x])
    {
      FoundIsReadable(disk.sectors, numDirEntries, name);
      var freeMap := FetchFreeMap();
      Release(Volume(), name, disk, sector, directory, freeMap);
      FlushRemoval(name, directory, freeMap);
    }

    /** The end of Remove: flush the changes to disk. */
    method FlushRemoval(name: seq<Byte>, directory: Directory, freeMap: Bitmap)
      requires Valid() && Volumes.Remove(Volume(), name).Some?
      requires var w := Volumes.Remove(Volume(), name).value;
               && directory.Valid() && directory.table[..] == w.dir
               && freeMap.Valid() && freeMap.numBits == w.n && freeMap.Set() == w.marked
      modifies disk
      ensures Valid() && |disk.sectors| == old(|disk.sectors|)
      ensures Volumes.Remove(old(Volume()), name) == Some(Volume())
      ensures forall x :: 0 <= x < |disk.sectors| && x !in old(Volume()).system ==>
                disk.sectors[x] == old(disk.sectors[x])
    {
      ghost var before := disk.sectors;
      StoreBitmapFirst(disk, numDirEntries, freeMapFile, directoryFile, freeMap, directory);
      RemoveStored(before, disk.sectors, numDirEntries, name, freeMap.words[..]);
    }
  }

  /** What changes only in a clear sector and in the system changes in no file. */
  lemma FilesUnchanged(before: seq<seq<Byte>>, after: seq<seq<Byte>>, entries: nat, sector: nat)
    requires StoreOk(before, entries) && |after| == |before| && sector !in View(before, entries).marked
    requires forall x :: 0 <= x < |before| && x != sector && x !in SystemSet(before) ==> after[x] == before[x]
    ensures var v := View(before, entries);
            forall x :: x in v.marked && x !in v.system ==> x < |before| && after[x] == before[x]
  {
  }

  lemma FindsOrNot(v: Volume, name: seq<Byte>)
    requires VolumeOk(v)
    ensures Volumes.Find(v.dir, name) == -1 <==> FindIndex(v.dir, name) == -1
    ensures Volumes.Find(v.dir, name) >= -1
  {
  }

  lemma StoredOrNot(v: Volume, name: seq<Byte>)
    requires VolumeOk(v) && IsName(name)
    ensures FindIndex(v.dir, name) != -1 <==> HasFile(v.dir, name)
    ensures Volumes.Find(v.dir, name) == -1 <==> !HasFile(v.dir, name)
    ensures Volumes.Find(v.dir, name) >= -1
  {
    FoundIffStored(v.dir, name);
  }

  /** What is found is the sector of a header, and that file's sectors are marked. */
  lemma FoundIsHeader(v: Volume, name: seq<Byte>)
    requires VolumeOk(v) && FindIndex(v.dir, name) != -1
    ensures var s := Volumes.Find(v.dir, name);
            && s >= 0 && s in v.headers && s < v.n && IsHeaderSector(v.dir, s)
            && s in v.marked && forall x :: x in v.headers[s].sectors ==> x in v.marked
  {
    var f := FindIndex(v.dir, name);
    assert InUse(v, f);
    HeaderSectorIsOwn(v, v.dir[f].sector);
    assert Layout(v)[f] <= v.marked;
  }

  /** What is found is the sector of a header that can be read from the disk. */
  lemma FoundIsReadable(sectors: seq<seq<Byte>>, entries: nat, name: seq<Byte>)
    requires StoreOk(sectors, entries) && FindIndex(View(sectors, entries).dir, name) != -1
    ensures var v, s := View(sectors, entries), Volumes.Find(View(sectors, entries).dir, name);
            && 0 <= s < v.n && s in v.headers && HeaderOk(DecodeHeader(sectors[s]), v.n)
            && v.headers[s] == InfoOf(DecodeHeader(sectors[s]))
  {
    FoundIsHeader(View(sectors, entries), name);
  }

  /** Writing a sector outside the system leaves the system as it is. */
  lemma SystemKept(before: seq<seq<Byte>>, after: seq<seq<Byte>>, entries: nat, sector: nat)
    requires SystemOk(before, entries) && sector < |before| && sector !in SystemSet(before)
    requires DiskOk(after) && |after| == |before|
    requires forall x :: 0 <= x < |before| && x != sector ==> after[x] == before[x]
    ensures SystemOk(after, entries) && MapHdr(after) == MapHdr(before) && DirHdr(after) == DirHdr(before)
    ensures SystemSet(after) == SystemSet(before)
  {
  }
}
