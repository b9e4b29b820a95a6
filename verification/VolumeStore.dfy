/**
 How a volume lies on the sectors of a disk: the header of the bitmap file in sector 0, that of the
 directory file in sector 1, the contents of these two files, and the headers of all others.
*/
module VolumeStore {
  import opened Common
  import opened Bitmaps
  import opened SectorFiles
  import opened Codec
  import opened Volumes

  /** The numbers of a header's data sectors. */
  function SectorList(h: FileHeader): seq<nat>
    requires |h.dataSectors| == NUM_DIRECT
  {
    if 0 <= h.numSectors <= NUM_DIRECT
    then seq(h.numSectors, i requires 0 <= i < h.numSectors => if h.dataSectors[i] >= 0 then h.dataSectors[i] else 0)
    else []
  }

  lemma SectorListIsUsed(h: FileHeader, n: nat)
    requires HeaderOk(h, n)
    ensures |SectorList(h)| == |Used(h)|
    ensures forall i :: 0 <= i < |Used(h)| ==> SectorList(h)[i] == Used(h)[i] as int
    ensures forall x: nat :: x in SectorList(h) ==> x < n
    ensures forall x: nat :: x in SectorList(h) ==> x in Used(h)
    ensures forall x :: x in Used(h) ==> x >= 0 && (x as nat) in SectorList(h)
  {
    forall i | 0 <= i < |Used(h)| ensures SectorList(h)[i] == Used(h)[i] as int {
      SectorExists(h, n, i);
    }
    forall x: nat | x in SectorList(h) ensures x in Used(h) && x < n {
      var i :| 0 <= i < |Used(h)| && SectorList(h)[i] == x;
      SectorExists(h, n, i);
    }
    forall x | x in Used(h) ensures x >= 0 && (x as nat) in SectorList(h) {
      var i :| 0 <= i < |Used(h)| && Used(h)[i] == x;
      assert SectorList(h)[i] == x as nat;
    }
  }

  function InfoOf(h: FileHeader): Info
    requires |h.dataSectors| == NUM_DIRECT
  {
    Info(h.numBytes, SectorList(h))
  }

  function MapHdr(sectors: seq<seq<Byte>>): FileHeader
    requires DiskOk(sectors) && |sectors| >= 2
  {
    DecodeHeader(sectors[FREE_MAP_SECTOR])
  }

  function DirHdr(sectors: seq<seq<Byte>>): FileHeader
    requires DiskOk(sectors) && |sectors| >= 2
  {
    DecodeHeader(sectors[DIRECTORY_SECTOR])
  }

  predicate Whole(sectors: seq<seq<Byte>>) {
    DiskOk(sectors) && 2 <= |sectors| <= 0x8000_0000 && |sectors| % BITS_IN_WORD == 0
  }

  /** The two files of the system exist, in sectors of their own. */
  ghost predicate SystemOk(sectors: seq<seq<Byte>>, entries: nat) {
    && Whole(sectors)
    && var n, m, d := |sectors|, MapHdr(sectors), DirHdr(sectors);
       && HeaderOk(m, n) && m.numBytes == MapBytes(n)
       && HeaderOk(d, n) && d.numBytes == ENTRY_SIZE * entries
       && (forall s :: s in Used(m) ==> s > 1)
       && (forall s :: s in Used(d) ==> s > 1 && s !in Used(m))
  }

  ghost function Bits(sectors: seq<seq<Byte>>, entries: nat): (r: seq<bv32>)
    requires SystemOk(sectors, entries)
    ensures WordsFor(r, |sectors|)
  {
    BitWords(Contents(sectors, MapHdr(sectors)))
  }

  ghost function Table(sectors: seq<seq<Byte>>, entries: nat): (r: seq<Entry>)
    requires SystemOk(sectors, entries)
    ensures |r| == entries && DirOk(r)
  {
    DecodeDir(Contents(sectors, DirHdr(sectors)), entries)
  }

  predicate IsHeaderSector(dir: seq<Entry>, s: nat) {
    exists i :: 0 <= i < |dir| && dir[i].inUse && dir[i].sector == s
  }

  function Headers(dir: seq<Entry>, sectors: seq<seq<Byte>>): map<nat, Info>
    requires DiskOk(sectors)
  {
    map s: nat | s < |sectors| && IsHeaderSector(dir, s) :: InfoOf(DecodeHeader(sectors[s]))
  }

  function SystemSet(sectors: seq<seq<Byte>>): set<nat>
    requires Whole(sectors)
  {
    {FREE_MAP_SECTOR, DIRECTORY_SECTOR} + Elements(SectorList(MapHdr(sectors))) + Elements(SectorList(DirHdr(sectors)))
  }

  /** What the sectors of a disk say. */
  ghost function View(sectors: seq<seq<Byte>>, entries: nat): Volume
    requires SystemOk(sectors, entries)
  {
    var dir := Table(sectors, entries);
    Volume(|sectors|, dir, Marked(Bits(sectors, entries), |sectors|), Headers(dir, sectors), SystemSet(sectors))
  }

  ghost predicate HeadersReadable(dir: seq<Entry>, sectors: seq<seq<Byte>>)
    requires DiskOk(sectors)
  {
    forall s: nat :: s < |sectors| && IsHeaderSector(dir, s) ==> HeaderOk(DecodeHeader(sectors[s]), |sectors|)
  }

  ghost predicate StoreOk(sectors: seq<seq<Byte>>, entries: nat) {
    && SystemOk(sectors, entries)
    && VolumeOk(View(sectors, entries))
    && HeadersReadable(Table(sectors, entries), sectors)
  }

  /** No sector of the system changes, except that the contents of its two files are replaced. */
  ghost predicate Rewritten(
    before: seq<seq<Byte>>, after: seq<seq<Byte>>, entries: nat, words: seq<bv32>, dir: seq<Entry>)
    requires SystemOk(before, entries)
  {
    && DiskOk(after) && |after| == |before|
    && after[FREE_MAP_SECTOR] == before[FREE_MAP_SECTOR] && after[DIRECTORY_SECTOR] == before[DIRECTORY_SECTOR]
    && Contents(after, MapHdr(before)) == BitBytes(words)
    && DirOk(dir) && |dir| == entries && Contents(after, DirHdr(before)) == EncodeDir(dir)
  }

  lemma RewrittenView(
    before: seq<seq<Byte>>, after: seq<seq<Byte>>, entries: nat, words: seq<bv32>, dir: seq<Entry>)
    requires SystemOk(before, entries) && Rewritten(before, after, entries, words, dir)
    ensures SystemOk(after, entries) && SystemSet(after) == SystemSet(before)
    ensures Bits(after, entries) == words && Table(after, entries) == dir
  {
    BitsRoundTrip(words);
    DirRoundTrip(dir);
  }

  // ---------------------------------------------------------------- headers

  lemma AddedHeader(before: seq<seq<Byte>>, after: seq<seq<Byte>>, dir: seq<Entry>, j: nat, e: Entry)
    requires DiskOk(before) && DiskOk(after) && |after| == |before|
    requires j < |dir| && !dir[j].inUse && e.inUse && 0 <= e.sector < |before|
    requires forall s: nat :: s < |before| && s != e.sector && IsHeaderSector(dir, s) ==> after[s] == before[s]
    ensures Headers(dir[j := e], after) ==
              Headers(dir, before)[e.sector as nat := InfoOf(DecodeHeader(after[e.sector]))]
    ensures HeadersReadable(dir, before) && HeaderOk(DecodeHeader(after[e.sector]), |after|) ==>
              HeadersReadable(dir[j := e], after)
  {
    forall s: nat ensures IsHeaderSector(dir[j := e], s) <==> s == e.sector || IsHeaderSector(dir, s) {
      if s == e.sector {
        assert dir[j := e][j].sector == s;
      } else if IsHeaderSector(dir, s) {
        var i :| 0 <= i < |dir| && dir[i].inUse && dir[i].sector == s;
        assert dir[j := e][i] == dir[i];
      }
    }
  }

  lemma DroppedHeader(before: seq<seq<Byte>>, after: seq<seq<Byte>>, dir: seq<Entry>, f: nat)
    requires DiskOk(before) && DiskOk(after) && |after| == |before|
    requires f < |dir| && dir[f].inUse && 0 <= dir[f].sector < |before|
    requires forall i :: 0 <= i < |dir| && i != f && dir[i].inUse ==> dir[i].sector != dir[f].sector
    requires forall s: nat :: s < |before| && s != dir[f].sector && IsHeaderSector(dir, s) ==> after[s] == before[s]
    ensures Headers(dir[f := dir[f].(inUse := false)], after) == Headers(dir, before) - {dir[f].sector as nat}
    ensures HeadersReadable(dir, before) ==> HeadersReadable(dir[f := dir[f].(inUse := false)], after)
  {
    var now := dir[f := dir[f].(inUse := false)];
    forall s: nat ensures IsHeaderSector(now, s) <==> s != dir[f].sector && IsHeaderSector(dir, s) {
      if s != dir[f].sector && IsHeaderSector(dir, s) {
        var i :| 0 <= i < |dir| && dir[i].inUse && dir[i].sector == s;
        assert now[i] == dir[i];
      }
    }
  }

  /** The header sector of a file is a marked one outside the system. */
  lemma HeaderSectorIsOwn(v: Volume, s: nat)
    requires VolumeOk(v) && IsHeaderSector(v.dir, s)
    ensures s in v.marked && s !in v.system && s < v.n
  {
    var i :| 0 <= i < |v.dir| && v.dir[i].inUse && v.dir[i].sector == s;
    assert InUse(v, i) && s in Layout(v)[i];
  }

  /** The sectors of the system are marked. */
  lemma SystemIsMarked(v: Volume)
    requires VolumeOk(v)
    ensures v.system <= v.marked
  {
  }

  // ---------------------------------------------------------------- Create and Remove on sectors

  /** Writing a new header, directory and bitmap turns the view into that after Create. */
  lemma CreateStored(
    before: seq<seq<Byte>>, after: seq<seq<Byte>>, entries: nat, name: seq<Byte>, size: Int32, words: seq<bv32>)
    requires StoreOk(before, entries) && IsName(name) && size <= MAX_FILE_SIZE
    requires Create(View(before, entries), name, size).Some?
    requires var w := Create(View(before, entries), name, size).value;
             && Rewritten(before, after, entries, words, w.dir)
             && Marked(words, |before|) == w.marked
    requires var s := FirstClear(View(before, entries).marked, 0, |before|);
             && (forall x :: 0 <= x < |before| && x != s && x !in SystemSet(before) ==> after[x] == before[x])
             && 0 <= s < |before| && HeaderOk(DecodeHeader(after[s]), |after|)
             && InfoOf(DecodeHeader(after[s])) == Allocate(View(before, entries).marked + {s}, |before|, size).value
    ensures StoreOk(after, entries) && View(after, entries) == Create(View(before, entries), name, size).value
  {
    var v := View(before, entries);
    var w, s, j := Create(v, name, size).value, FirstClear(v.marked, 0, |before|), FreeFrom(v.dir, 0);
    RewrittenView(before, after, entries, words, w.dir);
    forall x: nat | x < |before| && x != s && IsHeaderSector(v.dir, x) ensures after[x] == before[x] {
      HeaderSectorIsOwn(v, x);
    }
    AddedHeader(before, after, v.dir, j, w.dir[j]);
    CreateKeeps(v, name, size);
  }

  lemma RemoveStored(before: seq<seq<Byte>>, after: seq<seq<Byte>>, entries: nat, name: seq<Byte>, words: seq<bv32>)
    requires StoreOk(before, entries) && Remove(View(before, entries), name).Some?
    requires var w := Remove(View(before, entries), name).value;
             Rewritten(before, after, entries, words, w.dir) && Marked(words, |before|) == w.marked
    requires forall x :: 0 <= x < |before| && x !in SystemSet(before) ==> after[x] == before[x]
    ensures StoreOk(after, entries) && View(after, entries) == Remove(View(before, entries), name).value
  {
    var v := View(before, entries);
    var w, f := Remove(v, name).value, FindIndex(v.dir, name);
    RewrittenView(before, after, entries, words, w.dir);
    forall x: nat | x < |before| && IsHeaderSector(v.dir, x) ensures after[x] == before[x] {
      HeaderSectorIsOwn(v, x);
    }
    OthersDiffer(v, name);
    assert InUse(v, f);
    assert forall i :: 0 <= i < |v.dir| && v.dir[i].inUse ==> InUse(v, i);
    DroppedHeader(before, after, v.dir, f);
    RemoveKeeps(v, name);
  }

  /** The data sectors of a file are marked ones outside the system, too. */
  lemma DataSectorsAreOwn(v: Volume, s: nat)
    requires VolumeOk(v) && IsHeaderSector(v.dir, s)
    ensures s in v.headers && forall x :: x in v.headers[s].sectors ==> x in v.marked && x !in v.system
  {
    var i :| 0 <= i < |v.dir| && v.dir[i].inUse && v.dir[i].sector == s;
    assert Layout(v)[i] <= v.marked && Layout(v)[i] !! v.system;
    assert forall x :: x in v.headers[s].sectors ==> x in Layout(v)[i];
  }

  /** Bytes of a file whose sectors are the same on both disks. */
  lemma SameContents(before: seq<seq<Byte>>, after: seq<seq<Byte>>, h: FileHeader)
    requires DiskOk(before) && DiskOk(after) && |after| == |before| && HeaderOk(h, |before|)
    requires forall x :: x in Used(h) ==> after[x] == before[x]
    ensures Contents(after, h) == Contents(before, h)
  {
  }

  /** A file whose sectors a change leaves alone keeps its header and its bytes. */
  lemma FileUntouched(before: seq<seq<Byte>>, after: seq<seq<Byte>>, entries: nat, s: nat)
    requires StoreOk(before, entries) && DiskOk(after) && |after| == |before|
    requires IsHeaderSector(Table(before, entries), s)
    requires var v := View(before, entries); forall x :: x in v.marked && x !in v.system ==> after[x] == before[x]
    ensures s < |before| && HeaderOk(DecodeHeader(before[s]), |before|)
    ensures DecodeHeader(after[s]) == DecodeHeader(before[s])
    ensures Contents(after, DecodeHeader(before[s])) == Contents(before, DecodeHeader(before[s]))
  {
    HeaderSectorIsOwn(View(before, entries), s);
    DataSectorsAreOwn(View(before, entries), s);
    var h := DecodeHeader(before[s]);
    SectorListIsUsed(h, |before|);
    SameContents(before, after, h);
  }
}
