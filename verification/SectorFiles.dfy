/**
 filesys/filehdr.cc and filesys/openfile.cc: a file is a byte array scattered over disk sectors, and
 every transfer is of whole sectors.
*/
module SectorFiles {
  import opened Common

  const SECTOR_SIZE := 128

  /** filehdr.h: NumDirect, the data sectors that a header has room for. */
  const NUM_DIRECT := 30

  /** FileHeader; only the first numSectors entries of dataSectors mean anything. */
  datatype FileHeader = FileHeader(numBytes: Int32, numSectors: Int32, dataSectors: seq<Int32>)

  /** The sectors of the file's data. */
  function Used(h: FileHeader): seq<Int32>
    requires h.numSectors <= |h.dataSectors|
  {
    if h.numSectors <= 0 then [] else h.dataSectors[..h.numSectors]
  }

  /** A header of a file on a disk of n sectors: its sectors exist, differ, and are enough for its bytes. */
  ghost predicate HeaderOk(h: FileHeader, n: nat) {
    && |h.dataSectors| == NUM_DIRECT
    && h.numSectors <= NUM_DIRECT
    && h.numBytes <= SECTOR_SIZE * |Used(h)|
    && Distinct(Used(h))
    && forall s :: s in Used(h) ==> 0 <= s < n
  }

  predicate DiskOk(sectors: seq<seq<Byte>>) {
    forall i :: 0 <= i < |sectors| ==> |sectors[i]| == SECTOR_SIZE
  }

  /** FileHeader::ByteToSector */
  function ByteToSector(h: FileHeader, offset: nat): int
    requires offset / SECTOR_SIZE < |h.dataSectors|
  {
    h.dataSectors[offset / SECTOR_SIZE]
  }

  function Length(h: FileHeader): nat {
    if h.numBytes > 0 then h.numBytes else 0
  }

  /** Byte k of the file lies in a sector of its own. */
  lemma ByteHasSector(h: FileHeader, n: nat, k: nat)
    requires HeaderOk(h, n) && k < Length(h)
    ensures k / SECTOR_SIZE < |Used(h)| <= |h.dataSectors|
    ensures ByteToSector(h, k) == Used(h)[k / SECTOR_SIZE] && ByteToSector(h, k) in Used(h)
    ensures 0 <= ByteToSector(h, k) < n
  {
  }

  lemma SectorExists(h: FileHeader, n: nat, i: nat)
    requires HeaderOk(h, n) && i < |Used(h)|
    ensures i < |h.dataSectors| && ByteToSector(h, i * SECTOR_SIZE) == Used(h)[i]
    ensures 0 <= Used(h)[i] < n
  {
    assert Used(h)[i] in Used(h);
  }

  /** Byte k of the file's sectors, also behind the end of the file. */
  ghost function SectorByte(sectors: seq<seq<Byte>>, h: FileHeader, k: nat): Byte
    requires DiskOk(sectors) && HeaderOk(h, |sectors|)
  {
    if k / SECTOR_SIZE < |Used(h)| then
      SectorExists(h, |sectors|, k / SECTOR_SIZE);
      sectors[Used(h)[k / SECTOR_SIZE]][k % SECTOR_SIZE]
    else 0
  }

  /** The file as one flat array of bytes. */
  ghost function Contents(sectors: seq<seq<Byte>>, h: FileHeader): (r: seq<Byte>)
    requires DiskOk(sectors) && HeaderOk(h, |sectors|)
    ensures |r| == Length(h)
    ensures forall k :: 0 <= k < |r| ==> r[k] == SectorByte(sectors, h, k)
  {
    seq(Length(h), k requires 0 <= k < Length(h) => SectorByte(sectors, h, k))
  }

  /** Byte k of a file is byte k % 128 of the sector that the header names in place k / 128. */
  lemma ByteLies(sectors: seq<seq<Byte>>, h: FileHeader, k: nat)
    requires DiskOk(sectors) && HeaderOk(h, |sectors|) && k < h.numBytes
    ensures |Contents(sectors, h)| == h.numBytes && k / 128 < h.numSectors <= 30
    ensures 0 <= h.dataSectors[k / 128] < |sectors|
    ensures Contents(sectors, h)[k] == sectors[h.dataSectors[k / 128]][k % 128]
  {
    ByteHasSector(h, |sectors|, k);
  }

  /** The bytes that a request for numBytes from position transfers. */
  function Clip(length: int, numBytes: int, position: nat): nat {
    if numBytes <= 0 || position >= length then 0 else Min(numBytes, length - position)
  }

  /** They are as many as there are, up to the end of the file. */
  lemma ClipIsMost(length: int, numBytes: int, position: nat, n: nat)
    ensures Clip(length, numBytes, position) > 0 ==>
              Clip(length, numBytes, position) <= numBytes && position + Clip(length, numBytes, position) <= length
    ensures n <= numBytes && position + n <= length ==> n <= Clip(length, numBytes, position)
  {
  }

  function Splice(s: seq<Byte>, position: nat, data: seq<Byte>): seq<Byte>
    requires position + |data| <= |s|
  {
    s[..position] + data + s[position + |data|..]
  }

  /** Storing one sector of a file changes the bytes in it and, the sectors being distinct, no others. */
  lemma WriteOneSector(before: seq<seq<Byte>>, h: FileHeader, i: nat, data: seq<Byte>)
    requires DiskOk(before) && HeaderOk(h, |before|) && i < |Used(h)| && |data| == SECTOR_SIZE
    requires 0 <= Used(h)[i] < |before|
    ensures DiskOk(before[Used(h)[i] := data])
    ensures forall k: nat :: SectorByte(before[Used(h)[i] := data], h, k) ==
              if k / SECTOR_SIZE == i then data[k % SECTOR_SIZE] else SectorByte(before, h, k)
  {
    forall k: nat | k / SECTOR_SIZE < |Used(h)| && k / SECTOR_SIZE != i
      ensures SectorByte(before[Used(h)[i] := data], h, k) == SectorByte(before, h, k)
    {
      SectorExists(h, |before|, k / SECTOR_SIZE);
      assert Used(h)[k / SECTOR_SIZE] != Used(h)[i];
    }
  }

  /** Sectors first..i of the file have come from buf, and the others are as they were. */
  ghost predicate Stored(orig: seq<seq<Byte>>, now: seq<seq<Byte>>, h: FileHeader, first: nat, i: nat, buf: seq<Byte>)
    requires DiskOk(orig) && DiskOk(now) && |now| == |orig| && HeaderOk(h, |orig|)
    requires first <= i && |buf| >= (i - first) * SECTOR_SIZE
  {
    forall k: nat :: SectorByte(now, h, k) ==
      if first * SECTOR_SIZE <= k < i * SECTOR_SIZE then buf[k - first * SECTOR_SIZE] else SectorByte(orig, h, k)
  }

  lemma StoreStep(orig: seq<seq<Byte>>, now: seq<seq<Byte>>, h: FileHeader, first: nat, i: nat, buf: seq<Byte>)
    requires DiskOk(orig) && DiskOk(now) && |now| == |orig| && HeaderOk(h, |orig|)
    requires first <= i < |Used(h)| && |buf| >= (i + 1 - first) * SECTOR_SIZE && 0 <= Used(h)[i] < |now|
    requires Stored(orig, now, h, first, i, buf)
    ensures var data := buf[(i - first) * SECTOR_SIZE..(i - first) * SECTOR_SIZE + SECTOR_SIZE];
            DiskOk(now[Used(h)[i] := data]) && Stored(orig, now[Used(h)[i] := data], h, first, i + 1, buf)
  {
    var at := (i - first) * SECTOR_SIZE;
    var data := buf[at..at + SECTOR_SIZE];
    WriteOneSector(now, h, i, data);
    var stored := now[Used(h)[i] := data];
    forall k: nat
      ensures SectorByte(stored, h, k) ==
                if first * SECTOR_SIZE <= k < (i + 1) * SECTOR_SIZE
                then buf[k - first * SECTOR_SIZE]
                else SectorByte(orig, h, k)
    {
      assert SectorByte(stored, h, k) == if k / SECTOR_SIZE == i then data[k % SECTOR_SIZE] else SectorByte(now, h, k);
      if k / SECTOR_SIZE == i {
        assert at + k % SECTOR_SIZE == k - first * SECTOR_SIZE;
      }
    }
  }

  /** buf stands for the file from byte `start` on, with data put in at position, and for anything behind the end. */
  ghost predicate Filled(buf: seq<Byte>, start: nat, bytes: seq<Byte>, position: nat, data: seq<Byte>) {
    forall k :: 0 <= k < |buf| && start + k < |bytes| ==>
      buf[k] == if position <= start + k < position + |data| then data[start + k - position] else bytes[start + k]
  }

  lemma SpliceStored(
    orig: seq<seq<Byte>>, now: seq<seq<Byte>>, h: FileHeader, position: nat, data: seq<Byte>, buf: seq<Byte>)
    requires DiskOk(orig) && DiskOk(now) && |now| == |orig| && HeaderOk(h, |orig|)
    requires data != [] && position + |data| <= Length(h)
    requires var first, last := position / SECTOR_SIZE, (position + |data| - 1) / SECTOR_SIZE;
             && |buf| == (last + 1 - first) * SECTOR_SIZE
             && Stored(orig, now, h, first, last + 1, buf)
             && Filled(buf, first * SECTOR_SIZE, Contents(orig, h), position, data)
    ensures Contents(now, h) == Splice(Contents(orig, h), position, data)
  {
  }

  /** What a later read of the spliced file gives: the new bytes where they were put, the old ones elsewhere. */
  lemma SpliceIsWrite(s: seq<Byte>, position: nat, data: seq<Byte>, k: nat)
    requires position + |data| <= |s| && k < |s|
    ensures |Splice(s, position, data)| == |s|
    ensures Splice(s, position, data)[position..position + |data|] == data
    ensures Splice(s, position, data)[k] == if position <= k < position + |data| then data[k - position] else s[k]
  {
  }

  /** A change of sectors that another file does not use leaves its bytes alone. */
  lemma OtherFile(before: seq<seq<Byte>>, after: seq<seq<Byte>>, h: FileHeader, other: FileHeader)
    requires DiskOk(before) && DiskOk(after) && |after| == |before|
    requires HeaderOk(h, |before|) && HeaderOk(other, |before|)
    requires forall i :: 0 <= i < |before| && i !in Used(h) ==> after[i] == before[i]
    requires forall s :: s in Used(other) ==> s !in Used(h)
    ensures Contents(after, other) == Contents(before, other)
  {
    forall k | 0 <= k < Length(other) ensures SectorByte(after, other, k) == SectorByte(before, other, k) {
      ByteHasSector(other, |before|, k);
    }
  }

  /** The disk as SynchDisk offers it: ReadSector and WriteSector return when the transfer is done. */
  class SynchDisk {
    var sectors: seq<seq<Byte>>

    constructor (content: seq<seq<Byte>>)
      requires DiskOk(content)
      ensures sectors == content
    {
      sectors := content;
    }

    method ReadSector(sectorNumber: int, data: array<Byte>, at: nat)
      requires DiskOk(sectors) && 0 <= sectorNumber < |sectors| && at + SECTOR_SIZE <= data.Length
      modifies data
      ensures forall k :: 0 <= k < data.Length ==>
                data[k] == if at <= k < at + SECTOR_SIZE then sectors[sectorNumber][k - at] else old(data[k])
    {
      forall k | 0 <= k < SECTOR_SIZE {
        data[at + k] := sectors[sectorNumber][k];
      }
    }

    method WriteSector(sectorNumber: int, data: seq<Byte>)
      requires DiskOk(sectors) && 0 <= sectorNumber < |sectors| && |data| == SECTOR_SIZE
      modifies this
      ensures DiskOk(sectors) && sectors == old(sectors)[sectorNumber := data]
    {
      sectors := sectors[sectorNumber := data];
    }
  }

  /** bcopy of count bytes between different buffers. */
  method BCopy(from: array<Byte>, start: nat, into: array<Byte>, at: nat, count: nat)
    requires from != into && start + count <= from.Length && at + count <= into.Length
    modifies into
    ensures forall k :: 0 <= k < into.Length ==>
              into[k] == if at <= k < at + count then from[start + k - at] else old(into[k])
  {
    forall k | 0 <= k < count {
      into[at + k] := from[start + k];
    }
  }

  class OpenFile {
    const disk: SynchDisk
    const hdr: FileHeader
    var seekPosition: nat

    ghost predicate Valid()
      reads this, disk
    {
      DiskOk(disk.sectors) && HeaderOk(hdr, |disk.sectors|)
    }

    ghost function Bytes(): seq<Byte>
      requires Valid()
      reads this, disk
    {
      Contents(disk.sectors, hdr)
    }

    constructor (disk: SynchDisk, hdr: FileHeader)
      requires DiskOk(disk.sectors) && HeaderOk(hdr, |disk.sectors|)
      ensures Valid() && this.disk == disk && this.hdr == hdr && seekPosition == 0
    {
      this.disk, this.hdr, seekPosition := disk, hdr, 0;
    }

    /** The loop of ReadAt: fetch whole sectors into buf. */
    method ReadSectors(firstSector: nat, lastSector: nat, buf: array<Byte>)
      requires Valid() && firstSector <= lastSector < |Used(hdr)|
      requires buf.Length == (1 + lastSector - firstSector) * SECTOR_SIZE
      modifies buf
      ensures forall k :: 0 <= k < buf.Length ==> buf[k] == SectorByte(disk.sectors, hdr, firstSector * SECTOR_SIZE + k)
    {
      for i := firstSector to lastSector + 1
        invariant forall k :: 0 <= k < (i - firstSector) * SECTOR_SIZE ==>
                    buf[k] == SectorByte(disk.sectors, hdr, firstSector * SECTOR_SIZE + k)
      {
        SectorExists(hdr, |disk.sectors|, i);
        disk.ReadSector(ByteToSector(hdr, i * SECTOR_SIZE), buf, (i - firstSector) * SECTOR_SIZE);
      }
    }

    /** The loop of WriteAt: store whole sectors from buf. */
    method WriteSectors(firstSector: nat, lastSector: nat, buf: array<Byte>)
      requires Valid() && firstSector <= lastSector < |Used(hdr)|
      requires buf.Length == (1 + lastSector - firstSector) * SECTOR_SIZE
      modifies disk
      ensures Valid() && |disk.sectors| == old(|disk.sectors|)
      ensures forall s :: 0 <= s < |disk.sectors| && s !in Used(hdr) ==> disk.sectors[s] == old(disk.sectors[s])
      ensures Stored(old(disk.sectors), disk.sectors, hdr, firstSector, lastSector + 1, buf[..])
    {
      for i := firstSector to lastSector + 1
        invariant Valid() && |disk.sectors| == old(|disk.sectors|)
        invariant forall s :: 0 <= s < |disk.sectors| && s !in Used(hdr) ==> disk.sectors[s] == old(disk.sectors[s])
        invariant Stored(old(disk.sectors), disk.sectors, hdr, firstSector, i, buf[..])
      {
        var at := (i - firstSector) * SECTOR_SIZE;
        SectorExists(hdr, |disk.sectors|, i);
        StoreStep(old(disk.sectors), disk.sectors, hdr, firstSector, i, buf[..]);
        assert buf[at..at + SECTOR_SIZE] == buf[..][at..at + SECTOR_SIZE];
        disk.WriteSector(ByteToSector(hdr, i * SECTOR_SIZE), buf[at..at + SECTOR_SIZE]);
      }
    }

    /** into[at..] gets the flat slice of the file, clipped at its end; nothing else changes. */
    method ReadAt(into: array<Byte>, at: nat, numBytes: int, position: nat) returns (count: nat)
      requires Valid() && at + Clip(hdr.numBytes, numBytes, position) <= into.Length
      modifies into
      ensures count == Clip(hdr.numBytes, numBytes, position)
      ensures count > 0 ==> position + count <= |Bytes()|
      ensures forall k :: 0 <= k < into.Length ==>
                into[k] == if at <= k < at + count then Bytes()[position + k - at] else old(into[k])
    {
      var fileLength := hdr.numBytes;
      if numBytes <= 0 || position >= fileLength {
        return 0;
      }
      count := numBytes;
      if position + count > fileLength {
        count := fileLength - position;
      }
      var firstSector := position / SECTOR_SIZE;
      var lastSector := (position + count - 1) / SECTOR_SIZE;
      var numSectors := 1 + lastSector - firstSector;

      var buf := new Byte[numSectors * SECTOR_SIZE];
      ByteHasSector(hdr, |disk.sectors|, position + count - 1);
      ReadSectors(firstSector, lastSector, buf);
      BCopy(buf, position - firstSector * SECTOR_SIZE, into, at, count);
    }

    /** WriteAt, first part: where the new bytes begin or end inside a sector, buf gets what that sector holds. */
    method ReadEdges(count: nat, position: nat, firstSector: nat, lastSector: nat, buf: array<Byte>)
      requires Valid() && 0 < count && position + count <= Length(hdr)
      requires firstSector == position / SECTOR_SIZE && lastSector == (position + count - 1) / SECTOR_SIZE
      requires buf.Length == (1 + lastSector - firstSector) * SECTOR_SIZE
      modifies buf
      ensures forall k :: 0 <= k < buf.Length && firstSector * SECTOR_SIZE + k < Length(hdr)
                          && !(position <= firstSector * SECTOR_SIZE + k < position + count) ==>
                buf[k] == Bytes()[firstSector * SECTOR_SIZE + k]
    {
      var firstAligned := position == firstSector * SECTOR_SIZE;
      var lastAligned := position + count == (lastSector + 1) * SECTOR_SIZE;
      if !firstAligned {
        var _ := ReadAt(buf, 0, SECTOR_SIZE, firstSector * SECTOR_SIZE);
      }
      if !lastAligned && (firstSector != lastSector || firstAligned) {
        var _ := ReadAt(buf, (lastSector - firstSector) * SECTOR_SIZE, SECTOR_SIZE, lastSector * SECTOR_SIZE);
      }
    }

    /** WriteAt before it stores: buf holds the new bytes, and around them what the file held. */
    method FillBuffer(from: array<Byte>, count: nat, position: nat, firstSector: nat, lastSector: nat, buf: array<Byte>)
      requires Valid() && from != buf && 0 < count <= from.Length && position + count <= Length(hdr)
      requires firstSector == position / SECTOR_SIZE && lastSector == (position + count - 1) / SECTOR_SIZE
      requires buf.Length == (1 + lastSector - firstSector) * SECTOR_SIZE
      modifies buf
      ensures Filled(buf[..], firstSector * SECTOR_SIZE, Bytes(), position, from[..count])
    {
      ReadEdges(count, position, firstSector, lastSector, buf);
      BCopy(from, 0, buf, position - firstSector * SECTOR_SIZE, count);
    }

    /**
     The bytes from position on become those of `from`, clipped at the end of the file; no other byte
     of this file and no sector of any other changes.
    */
    method WriteAt(from: array<Byte>, numBytes: int, position: nat) returns (count: nat)
      requires Valid() && Clip(hdr.numBytes, numBytes, position) <= from.Length
      modifies disk
      ensures Valid() && |disk.sectors| == old(|disk.sectors|)
      ensures count == Clip(hdr.numBytes, numBytes, position)
      ensures count > 0 ==> position + count <= |old(Bytes())|
      ensures Bytes() == if count == 0 then old(Bytes()) else Splice(old(Bytes()), position, from[..count])
      ensures forall s :: 0 <= s < |disk.sectors| && s !in Used(hdr) ==> disk.sectors[s] == old(disk.sectors[s])
    {
      var fileLength := hdr.numBytes;
      if numBytes <= 0 || position >= fileLength {
        return 0;
      }
      count := numBytes;
      if position + count > fileLength {
        count := fileLength - position;
      }
      var firstSector := position / SECTOR_SIZE;
      var lastSector := (position + count - 1) / SECTOR_SIZE;
      var numSectors := 1 + lastSector - firstSector;

      var buf := new Byte[numSectors * SECTOR_SIZE];
      ByteHasSector(hdr, |disk.sectors|, position + count - 1);
      FillBuffer(from, count, position, firstSector, lastSector, buf);

      WriteSectors(firstSector, lastSector, buf);
      SpliceStored(old(disk.sectors), disk.sectors, hdr, position, from[..count], buf[..]);
    }

    method Read(into: array<Byte>, numBytes: int) returns (result: nat)
      requires Valid() && Clip(hdr.numBytes, numBytes, seekPosition) <= into.Length
      modifies this`seekPosition, into
      ensures result == Clip(hdr.numBytes, numBytes, old(seekPosition)) && seekPosition == old(seekPosition) + result
      ensures result > 0 ==> into[..result] == Bytes()[old(seekPosition)..seekPosition]
    {
      result := ReadAt(into, 0, numBytes, seekPosition);
      seekPosition := seekPosition + result;
    }

    method Write(from: array<Byte>, numBytes: int) returns (result: nat)
      requires Valid() && Clip(hdr.numBytes, numBytes, seekPosition) <= from.Length
      modifies this`seekPosition, disk
      ensures Valid() && |disk.sectors| == old(|disk.sectors|)
      ensures result == Clip(hdr.numBytes, numBytes, old(seekPosition)) && seekPosition == old(seekPosition) + result
      ensures result > 0 ==> seekPosition <= |old(Bytes())|
      ensures Bytes() == if result == 0 then old(Bytes()) else Splice(old(Bytes()), old(seekPosition), from[..result])
      ensures forall s :: 0 <= s < |disk.sectors| && s !in Used(hdr) ==> disk.sectors[s] == old(disk.sectors[s])
    {
      result := WriteAt(from, numBytes, seekPosition);
      seekPosition := seekPosition + result;
    }
  }
}
