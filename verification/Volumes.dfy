/**
 filesys/filesys.cc, filesys/directory.cc and FileHeader::Allocate as functions on what the disk says:
 the directory table, the set of marked sectors and the header of every file.
*/
module Volumes {
  import opened Common
  import opened Bitmaps
  import opened SectorFiles
  import opened Codec

  // ---------------------------------------------------------------- names

  /** Character i of a C string without its terminator. */
  function CharAt(s: seq<Byte>, i: nat): Byte {
    if i < |s| then s[i] else 0
  }

  /** strncmp(a, b, FileNameMaxLen) == 0 from character i on. */
  predicate StrnEq(a: seq<Byte>, b: seq<Byte>, i: nat)
    decreases NAME_MAX - i
  {
    i >= NAME_MAX || (CharAt(a, i) == CharAt(b, i) && (CharAt(a, i) == 0 || StrnEq(a, b, i + 1)))
  }

  /** strncpy(field, name, FileNameMaxLen); the last byte of the field stays as it is. */
  function StrnCpy(field: seq<Byte>, name: seq<Byte>): (r: seq<Byte>)
    requires |field| == NAME_MAX + 1
    ensures |r| == NAME_MAX + 1
  {
    seq(NAME_MAX, i requires 0 <= i < NAME_MAX => CharAt(name, i)) + [field[NAME_MAX]]
  }

  /** A file name as its caller passes it. */
  predicate IsName(s: seq<Byte>) {
    forall i :: 0 <= i < |s| ==> s[i] != 0
  }

  /** What of a name counts: its first FileNameMaxLen characters. */
  function Key(name: seq<Byte>): seq<Byte> {
    if |name| <= NAME_MAX then name else name[..NAME_MAX]
  }

  /** The name that a field stores: its bytes up to the ninth or a zero. */
  function CString(field: seq<Byte>, i: nat): seq<Byte>
    decreases NAME_MAX - i
  {
    if i >= NAME_MAX || CharAt(field, i) == 0 then [] else [CharAt(field, i)] + CString(field, i + 1)
  }

  lemma {:induction false} StrnEqIff(field: seq<Byte>, name: seq<Byte>, i: nat)
    requires IsName(name) && i <= |Key(name)|
    ensures StrnEq(field, name, i) <==> CString(field, i) == Key(name)[i..]
    decreases NAME_MAX - i
  {
    if i < |Key(name)| {
      assert Key(name)[i..] == [name[i]] + Key(name)[i + 1..];
      StrnEqIff(field, name, i + 1);
      if CharAt(field, i) != 0 {
        assert CString(field, i)[0] == CharAt(field, i) && CString(field, i)[1..] == CString(field, i + 1);
      }
    }
  }

  lemma {:induction false} CStringOfCopy(field: seq<Byte>, name: seq<Byte>, i: nat)
    requires |field| == NAME_MAX + 1 && IsName(name) && i <= |Key(name)|
    ensures CString(StrnCpy(field, name), i) == Key(name)[i..]
    decreases NAME_MAX - i
  {
    if i < |Key(name)| {
      assert Key(name)[i..] == [name[i]] + Key(name)[i + 1..];
      CStringOfCopy(field, name, i + 1);
    }
  }

  /** A stored name matches exactly the names that agree with it in their first nine characters. */
  lemma StoredNameMatches(field: seq<Byte>, stored: seq<Byte>, asked: seq<Byte>)
    requires |field| == NAME_MAX + 1 && IsName(stored) && IsName(asked)
    ensures StrnEq(StrnCpy(field, stored), asked, 0) <==> Key(stored) == Key(asked)
  {
  }

  /** "longname_a" and "longname_b": either one, once stored, is found when the other is asked for. */
  lemma TenthIsIgnored(field: seq<Byte>)
    requires |field| == NAME_MAX + 1
    ensures var a: seq<Byte>, b: seq<Byte> :=
              [108, 111, 110, 103, 110, 97, 109, 101, 95, 97], [108, 111, 110, 103, 110, 97, 109, 101, 95, 98];
            && IsName(a) && IsName(b) && a != b && Key(a) == Key(b)
            && StrnEq(StrnCpy(field, a), b, 0) && StrnEq(StrnCpy(field, b), a, 0)
  {
    var a: seq<Byte>, b: seq<Byte> :=
      [108, 111, 110, 103, 110, 97, 109, 101, 95, 97], [108, 111, 110, 103, 110, 97, 109, 101, 95, 98];
    assert a[9] != b[9];
    StoredNameMatches(field, a, b);
    StoredNameMatches(field, b, a);
  }

  /** But the ninth character counts. */
  lemma NinthCounts(field: seq<Byte>)
    requires |field| == NAME_MAX + 1
    ensures var a: seq<Byte>, b: seq<Byte> :=
              [108, 111, 110, 103, 110, 97, 109, 101, 97], [108, 111, 110, 103, 110, 97, 109, 101, 98];
            IsName(a) && IsName(b) && !StrnEq(StrnCpy(field, a), b, 0)
  {
    var a: seq<Byte>, b: seq<Byte> :=
      [108, 111, 110, 103, 110, 97, 109, 101, 97], [108, 111, 110, 103, 110, 97, 109, 101, 98];
    assert a[8] != b[8];
    StoredNameMatches(field, a, b);
  }

  // ---------------------------------------------------------------- the directory

  /** The name that a directory entry stores. */
  function StoredKey(e: Entry): seq<Byte> {
    CString(e.name, 0)
  }

  predicate Matches(e: Entry, name: seq<Byte>) {
    e.inUse && StrnEq(e.name, name, 0)
  }

  /** Directory::FindIndex from entry i on. */
  function FindFrom(dir: seq<Entry>, name: seq<Byte>, i: nat): (r: int)
    ensures r == -1 || (i <= r < |dir| && Matches(dir[r], name))
    ensures r == -1 ==> forall k :: i <= k < |dir| ==> !Matches(dir[k], name)
    ensures r != -1 ==> forall k :: i <= k < r ==> !Matches(dir[k], name)
    decreases |dir| - i
  {
    if i >= |dir| then -1 else if Matches(dir[i], name) then i else FindFrom(dir, name, i + 1)
  }

  function FindIndex(dir: seq<Entry>, name: seq<Byte>): int {
    FindFrom(dir, name, 0)
  }

  /** Directory::Find */
  function Find(dir: seq<Entry>, name: seq<Byte>): int {
    if FindIndex(dir, name) == -1 then -1 else dir[FindIndex(dir, name)].sector
  }

  /** The loop of Directory::Add. */
  function FreeFrom(dir: seq<Entry>, i: nat): (r: int)
    ensures r == -1 || (i <= r < |dir| && !dir[r].inUse)
    ensures forall k :: i <= k < (if r == -1 then |dir| else r) ==> dir[k].inUse
    decreases |dir| - i
  {
    if i >= |dir| then -1 else if !dir[i].inUse then i else FreeFrom(dir, i + 1)
  }

  // ---------------------------------------------------------------- volumes

  /** A file's header: its length and its data sectors. */
  datatype Info = Info(numBytes: Int32, sectors: seq<nat>)

  /**
   What a disk of n sectors stores: the directory table, the marked sectors, and the headers by their
   sector. `system` are the sectors of the bitmap file and of the directory file with their headers.
  */
  datatype Volume = Volume(n: nat, dir: seq<Entry>, marked: set<nat>, headers: map<nat, Info>, system: set<nat>)

  /** FileHeader::Allocate on the marked set; None when it returns FALSE. */
  function Allocate(marked: set<nat>, n: nat, size: Int32): Option<Info> {
    var k := DivRoundUp(size, SECTOR_SIZE);
    if CountClear(marked, n) < k then None
    else Some(Info(size, TakeClear(marked, n, if k > 0 then k else 0)))
  }

  const MAX_FILE_SIZE := NUM_DIRECT * SECTOR_SIZE

  /** The places of dataSectors that the loop of Allocate stores into. */
  function StoredAt(marked: set<nat>, n: nat, size: Int32): set<nat> {
    var k := DivRoundUp(size, SECTOR_SIZE);
    if Allocate(marked, n, size).None? || k <= 0 then {} else Below(k)
  }

  /** Every store is to one of the header's NUM_DIRECT places. */
  ghost predicate StaysInHeader(stores: set<nat>) {
    forall i :: i in stores ==> i < NUM_DIRECT
  }

  /** The loop stays in the header exactly if it is not entered for lack of room, or the file is not too large. */
  lemma AllocateStaysIff(marked: set<nat>, n: nat, size: Int32)
    ensures StaysInHeader(StoredAt(marked, n, size)) <==>
              CountClear(marked, n) < DivRoundUp(size, SECTOR_SIZE) || size <= MAX_FILE_SIZE
  {
    if Allocate(marked, n, size).Some? && size > MAX_FILE_SIZE {
      assert NUM_DIRECT in StoredAt(marked, n, size);
    }
  }

  /** One byte too many, with room on the disk: a store behind the last place. */
  lemma AllocateLeavesHeader(marked: set<nat>, n: nat)
    requires CountClear(marked, n) >= 31
    ensures 30 in StoredAt(marked, n, 3841) && !StaysInHeader(StoredAt(marked, n, 3841))
  {
    assert DivRoundUp(3841, SECTOR_SIZE) == 31;
  }

  /** FileSystem::Create; None when it returns FALSE. */
  function Create(v: Volume, name: seq<Byte>, size: Int32): Option<Volume>
    requires DirOk(v.dir) && v.n <= 0x8000_0000
  {
    var s, j := FirstClear(v.marked, 0, v.n), FreeFrom(v.dir, 0);
    if FindIndex(v.dir, name) != -1 || s == -1 || j == -1 || Allocate(v.marked + {s}, v.n, size).None? then None
    else
      var info := Allocate(v.marked + {s}, v.n, size).value;
      Some(v.(dir := v.dir[j := Entry(true, s, StrnCpy(v.dir[j].name, name))],
              marked := v.marked + {s} + Elements(info.sectors),
              headers := v.headers[s := info]))
  }

  /** Every file's header sector holds a header. */
  predicate HasHeaders(v: Volume) {
    forall i :: 0 <= i < |v.dir| && v.dir[i].inUse ==> v.dir[i].sector >= 0 && v.dir[i].sector in v.headers
  }

  /** FileSystem::Remove; None when it returns FALSE. */
  function Remove(v: Volume, name: seq<Byte>): Option<Volume>
    requires HasHeaders(v)
  {
    var i := FindIndex(v.dir, name);
    if i == -1 then None
    else
      var s: nat := v.dir[i].sector;
      Some(v.(dir := v.dir[i := v.dir[i].(inUse := false)],
              marked := v.marked - Elements(v.headers[s].sectors) - {s},
              headers := v.headers - {s}))
  }

  // ---------------------------------------------------------------- partitions of sectors

  /** `marked` consists of `system` and the sets in `layout`, all of them disjoint. */
  ghost predicate Partition(layout: seq<set<nat>>, system: set<nat>, marked: set<nat>) {
    && (forall i, j :: 0 <= i < j < |layout| ==> layout[i] !! layout[j])
    && (forall i :: 0 <= i < |layout| ==> layout[i] !! system)
    && (forall i :: 0 <= i < |layout| ==> layout[i] <= marked)
    && system <= marked
    && (forall x :: x in marked ==> x in system || exists i :: 0 <= i < |layout| && x in layout[i])
  }

  lemma PartitionAdd(layout: seq<set<nat>>, system: set<nat>, marked: set<nat>, j: nat, claim: set<nat>)
    requires Partition(layout, system, marked) && j < |layout| && layout[j] == {} && claim !! marked
    ensures Partition(layout[j := claim], system, marked + claim)
  {
    var after := layout[j := claim];
    forall x | x in marked + claim ensures x in system || exists i :: 0 <= i < |after| && x in after[i] {
      if x in claim {
        assert x in after[j];
      } else if x !in system {
        var i :| 0 <= i < |layout| && x in layout[i];
        assert x in after[i];
      }
    }
  }

  lemma PartitionDrop(layout: seq<set<nat>>, system: set<nat>, marked: set<nat>, f: nat)
    requires Partition(layout, system, marked) && f < |layout|
    ensures Partition(layout[f := {}], system, marked - layout[f])
  {
    var after := layout[f := {}];
    forall x | x in marked - layout[f] ensures x in system || exists i :: 0 <= i < |after| && x in after[i] {
      if x !in system {
        var i :| 0 <= i < |layout| && x in layout[i];
        assert x in after[i];
      }
    }
  }

  function SumOfSizes(layout: seq<set<nat>>): nat {
    if layout == [] then 0 else |layout[0]| + SumOfSizes(layout[1..])
  }

  lemma PartitionTail(layout: seq<set<nat>>, system: set<nat>, marked: set<nat>)
    requires layout != [] && Partition(layout, system, marked)
    ensures Partition(layout[1..], system, marked - layout[0])
  {
  }

  lemma {:induction false} PartitionSizes(layout: seq<set<nat>>, system: set<nat>, marked: set<nat>)
    requires Partition(layout, system, marked)
    ensures |marked| == |system| + SumOfSizes(layout)
  {
    if layout == [] {
      assert marked == system;
    } else {
      PartitionTail(layout, system, marked);
      PartitionSizes(layout[1..], system, marked - layout[0]);
      assert |marked| == |marked - layout[0]| + |layout[0]| by {
        assert marked == (marked - layout[0]) + layout[0];
      }
    }
  }

  // ---------------------------------------------------------------- invariant

  /** The sectors that the file of entry i occupies. */
  function Claim(v: Volume, i: nat): set<nat>
    requires i < |v.dir| && HasHeaders(v)
  {
    if v.dir[i].inUse
    then {v.dir[i].sector as nat} + Elements(v.headers[v.dir[i].sector].sectors)
    else {}
  }

  function Layout(v: Volume): seq<set<nat>>
    requires HasHeaders(v)
  {
    seq(|v.dir|, i requires 0 <= i < |v.dir| => Claim(v, i))
  }

  predicate InUse(v: Volume, i: int) {
    0 <= i < |v.dir| && v.dir[i].inUse
  }

  ghost predicate InfoOk(info: Info) {
    && Distinct(info.sectors)
    && |info.sectors| <= NUM_DIRECT
    && info.numBytes <= SECTOR_SIZE * |info.sectors|
  }

  ghost predicate NamesOk(v: Volume) {
    forall i, j :: InUse(v, i) && InUse(v, j) && i != j ==> StoredKey(v.dir[i]) != StoredKey(v.dir[j])
  }

  /** The headers are those of the files, and sound. */
  ghost predicate HeadersOk(v: Volume) {
    && HasHeaders(v)
    && (forall s :: s in v.headers ==> InfoOk(v.headers[s]) && s !in v.headers[s].sectors)
    && (forall s :: s in v.headers ==> exists i :: InUse(v, i) && v.dir[i].sector == s)
  }

  /**
   The marked sectors are exactly the header and data sectors of the files and the sectors of the
   system, no two of which coincide.
  */
  ghost predicate VolumeOk(v: Volume) {
    && DirOk(v.dir) && v.n <= 0x8000_0000
    && NamesOk(v)
    && HeadersOk(v)
    && Partition(Layout(v), v.system, v.marked)
    && (forall s :: s in v.marked ==> s < v.n)
  }

  /** Two files have different header sectors. */
  lemma SectorsDiffer(v: Volume, i: nat, j: nat)
    requires HasHeaders(v) && Partition(Layout(v), v.system, v.marked)
    requires InUse(v, i) && InUse(v, j) && i != j
    ensures v.dir[i].sector != v.dir[j].sector && v.dir[i].sector as nat in v.marked
  {
    SectorIsMarked(v, i);
    assert v.dir[i].sector as nat in Layout(v)[i] && v.dir[j].sector as nat in Layout(v)[j];
    ClaimsApart(Layout(v), v.system, v.marked, i, j);
  }

  lemma ClaimsApart(layout: seq<set<nat>>, system: set<nat>, marked: set<nat>, i: nat, j: nat)
    requires Partition(layout, system, marked) && i < |layout| && j < |layout| && i != j
    ensures layout[i] !! layout[j]
  {
    if j < i {
      assert layout[j] !! layout[i];
    }
  }

  lemma SectorIsMarked(v: Volume, i: nat)
    requires HasHeaders(v) && Partition(Layout(v), v.system, v.marked) && InUse(v, i)
    ensures v.dir[i].sector as nat in v.marked
  {
    assert v.dir[i].sector as nat in Layout(v)[i];
  }

  lemma MatchesKey(e: Entry, name: seq<Byte>)
    requires IsName(name)
    ensures Matches(e, name) <==> e.inUse && StoredKey(e) == Key(name)
  {
    StrnEqIff(e.name, name, 0);
    assert Key(name)[0..] == Key(name);
  }

  // ---------------------------------------------------------------- Create

  /** What Create does to the volume when it succeeds. */
  lemma CreateFacts(v: Volume, name: seq<Byte>, size: Int32)
    requires VolumeOk(v) && Create(v, name, size).Some?
    ensures var s, j, k := FirstClear(v.marked, 0, v.n), FreeFrom(v.dir, 0), DivRoundUp(size, SECTOR_SIZE);
            var data := TakeClear(v.marked + {s}, v.n, if k > 0 then k else 0);
            && 0 <= s < v.n && s !in v.marked && 0 <= j < |v.dir| && !v.dir[j].inUse
            && |data| == (if k > 0 then k else 0) && Distinct(data)
            && (forall x :: x in data ==> x < v.n && x !in v.marked && x != s)
            && Create(v, name, size).value ==
                 v.(dir := v.dir[j := Entry(true, s, StrnCpy(v.dir[j].name, name))],
                    marked := v.marked + {s} + Elements(data),
                    headers := v.headers[s := Info(size, data)])
  {
    var s, k := FirstClear(v.marked, 0, v.n), DivRoundUp(size, SECTOR_SIZE);
    TakeClearIsFresh(v.marked + {s}, v.n, if k > 0 then k else 0);
  }

  /** The new file has the header and data sectors it was given, the others keep theirs. */
  lemma CreateLayout(v: Volume, name: seq<Byte>, size: Int32)
    requires VolumeOk(v) && Create(v, name, size).Some?
    ensures var w, s, j := Create(v, name, size).value, FirstClear(v.marked, 0, v.n), FreeFrom(v.dir, 0);
            && HasHeaders(w)
            && s in w.headers
            && var claim := {s as nat} + Elements(w.headers[s].sectors);
               Layout(w) == Layout(v)[j := claim] && claim !! v.marked && w.marked == v.marked + claim
  {
    CreateFacts(v, name, size);
    var w, s, j := Create(v, name, size).value, FirstClear(v.marked, 0, v.n), FreeFrom(v.dir, 0);
    var claim := {s as nat} + Elements(w.headers[s].sectors);
    forall i | InUse(v, i) ensures v.dir[i].sector != s {
      SectorIsMarked(v, i);
    }
    forall i | 0 <= i < |v.dir| ensures Layout(w)[i] == Layout(v)[j := claim][i] {
    }
    assert w.marked == v.marked + claim;
  }

  lemma CreateNames(v: Volume, name: seq<Byte>, size: Int32)
    requires DirOk(v.dir) && v.n <= 0x8000_0000 && NamesOk(v) && IsName(name) && Create(v, name, size).Some?
    ensures var w, j := Create(v, name, size).value, FreeFrom(v.dir, 0);
            DirOk(w.dir) && NamesOk(w) && StoredKey(w.dir[j]) == Key(name)
  {
    var w, j := Create(v, name, size).value, FreeFrom(v.dir, 0);
    assert StoredKey(w.dir[j]) == Key(name) by {
      CStringOfCopy(v.dir[j].name, name, 0);
      assert Key(name)[0..] == Key(name);
    }
    NewNameDiffers(v, name);
    assert forall i :: InUse(w, i) && i != j ==> InUse(v, i) && w.dir[i] == v.dir[i];
  }

  lemma NewNameDiffers(v: Volume, name: seq<Byte>)
    requires IsName(name) && FindIndex(v.dir, name) == -1
    ensures forall i :: InUse(v, i) ==> StoredKey(v.dir[i]) != Key(name)
  {
    forall i | InUse(v, i) ensures StoredKey(v.dir[i]) != Key(name) {
      MatchesKey(v.dir[i], name);
    }
  }

  lemma CreateHeaders(v: Volume, name: seq<Byte>, size: Int32)
    requires VolumeOk(v) && size <= MAX_FILE_SIZE && Create(v, name, size).Some?
    ensures HeadersOk(Create(v, name, size).value)
  {
    CreateFacts(v, name, size);
    CreateLayout(v, name, size);
    var w, s, j := Create(v, name, size).value, FirstClear(v.marked, 0, v.n), FreeFrom(v.dir, 0);
    assert InfoOk(w.headers[s]);
    forall x | x in w.headers ensures exists i :: InUse(w, i) && w.dir[i].sector == x {
      if x == s {
        assert InUse(w, j);
      } else {
        var i :| InUse(v, i) && v.dir[i].sector == x;
        assert InUse(w, i);
      }
    }
  }

  lemma CreateKeeps(v: Volume, name: seq<Byte>, size: Int32)
    requires VolumeOk(v) && IsName(name) && size <= MAX_FILE_SIZE && Create(v, name, size).Some?
    ensures VolumeOk(Create(v, name, size).value)
  {
    var w, s, j := Create(v, name, size).value, FirstClear(v.marked, 0, v.n), FreeFrom(v.dir, 0);
    CreateFacts(v, name, size);
    CreateLayout(v, name, size);
    CreateNames(v, name, size);
    CreateHeaders(v, name, size);
    PartitionAdd(Layout(v), v.system, v.marked, j, {s as nat} + Elements(w.headers[s].sectors));
  }

  // ---------------------------------------------------------------- Remove

  /** Remove gives up exactly what the file occupied. */
  lemma RemoveMarked(v: Volume, name: seq<Byte>)
    requires HasHeaders(v) && Remove(v, name).Some?
    ensures Remove(v, name).value.marked == v.marked - Layout(v)[FindIndex(v.dir, name)]
  {
  }

  lemma OthersDiffer(v: Volume, name: seq<Byte>)
    requires HasHeaders(v) && Partition(Layout(v), v.system, v.marked) && Remove(v, name).Some?
    ensures var f := FindIndex(v.dir, name); forall i :: InUse(v, i) && i != f ==> v.dir[i].sector != v.dir[f].sector
  {
    var f := FindIndex(v.dir, name);
    forall i | InUse(v, i) && i != f ensures v.dir[i].sector != v.dir[f].sector {
      SectorsDiffer(v, i, f);
    }
  }

  /** The other files keep what they occupy. */
  lemma RemoveLayout(v: Volume, name: seq<Byte>)
    requires HasHeaders(v) && Remove(v, name).Some?
    requires var f := FindIndex(v.dir, name); forall i :: InUse(v, i) && i != f ==> v.dir[i].sector != v.dir[f].sector
    ensures HasHeaders(Remove(v, name).value)
    ensures Layout(Remove(v, name).value) == Layout(v)[FindIndex(v.dir, name) := {}]
  {
  }

  lemma RemoveHeaders(v: Volume, name: seq<Byte>)
    requires VolumeOk(v) && Remove(v, name).Some?
    ensures HeadersOk(Remove(v, name).value)
  {
    OthersDiffer(v, name);
    RemoveLayout(v, name);
    var w, f := Remove(v, name).value, FindIndex(v.dir, name);
    forall x | x in w.headers ensures exists i :: InUse(w, i) && w.dir[i].sector == x {
      var i :| InUse(v, i) && v.dir[i].sector == x;
      assert i != f && InUse(w, i);
    }
  }

  lemma RemoveKeeps(v: Volume, name: seq<Byte>)
    requires VolumeOk(v) && Remove(v, name).Some?
    ensures VolumeOk(Remove(v, name).value)
  {
    OthersDiffer(v, name);
    RemoveLayout(v, name);
    RemoveMarked(v, name);
    RemoveHeaders(v, name);
    PartitionDrop(Layout(v), v.system, v.marked, FindIndex(v.dir, name));
    RemoveNames(v, name);
  }

  lemma RemoveNames(v: Volume, name: seq<Byte>)
    requires NamesOk(v) && DirOk(v.dir) && HasHeaders(v) && Remove(v, name).Some?
    ensures NamesOk(Remove(v, name).value) && DirOk(Remove(v, name).value.dir)
  {
  }

  // ---------------------------------------------------------------- what a user sees

  ghost predicate HasFile(dir: seq<Entry>, name: seq<Byte>) {
    exists i :: 0 <= i < |dir| && dir[i].inUse && StoredKey(dir[i]) == Key(name)
  }

  lemma FoundIffStored(dir: seq<Entry>, name: seq<Byte>)
    requires IsName(name)
    ensures FindIndex(dir, name) != -1 <==> HasFile(dir, name)
  {
    forall i | 0 <= i < |dir| ensures Matches(dir[i], name) <==> dir[i].inUse && StoredKey(dir[i]) == Key(name) {
      MatchesKey(dir[i], name);
    }
  }

  /** Sectors that a file of this size needs for its data; a negative size needs none. */
  function DataSectors(size: int): nat {
    if size <= 0 then 0 else (size + SECTOR_SIZE - 1) / SECTOR_SIZE
  }

  lemma DataSectorsRoundUp(size: int)
    ensures DataSectors(size) == if DivRoundUp(size, SECTOR_SIZE) > 0 then DivRoundUp(size, SECTOR_SIZE) else 0
  {
  }

  /**
   Create succeeds if and only if the name is new (in its first nine characters), an entry is free, and
   there is room for the header and the data.
  */
  lemma CreateSucceeds(v: Volume, name: seq<Byte>, size: Int32)
    requires DirOk(v.dir) && v.n <= 0x8000_0000 && IsName(name)
    ensures Create(v, name, size).Some? <==>
              && !HasFile(v.dir, name)
              && (exists j :: 0 <= j < |v.dir| && !v.dir[j].inUse)
              && CountClear(v.marked, v.n) >= 1 + DataSectors(size)
  {
    FoundIffStored(v.dir, name);
    FirstClearExists(v.marked, v.n);
    DataSectorsRoundUp(size);
    var s := FirstClear(v.marked, 0, v.n);
    if s != -1 {
      MarkLowersClear(v.marked, v.n, s);
    }
  }

  /** The places of dataSectors that a call of Create stores into: none unless it gets as far as Allocate. */
  function CreateStoresAt(v: Volume, name: seq<Byte>, size: Int32): set<nat> {
    var s := FirstClear(v.marked, 0, v.n);
    if FindIndex(v.dir, name) != -1 || s == -1 || FreeFrom(v.dir, 0) == -1 then {}
    else StoredAt(v.marked + {s}, v.n, size)
  }

  /** Create stays in the header it fills in exactly if it fails, or the file is not too large. */
  lemma CreateStaysIff(v: Volume, name: seq<Byte>, size: Int32)
    requires DirOk(v.dir) && v.n <= 0x8000_0000
    ensures StaysInHeader(CreateStoresAt(v, name, size)) <==> Create(v, name, size).None? || size <= MAX_FILE_SIZE
  {
    var s := FirstClear(v.marked, 0, v.n);
    if s != -1 {
      AllocateStaysIff(v.marked + {s}, v.n, size);
    }
  }

  lemma FindFromSame(a: seq<Entry>, b: seq<Entry>, name: seq<Byte>, i: nat)
    requires |a| == |b|
    requires forall k :: 0 <= k < |a| ==> (Matches(a[k], name) <==> Matches(b[k], name))
    ensures FindFrom(a, name, i) == FindFrom(b, name, i)
    decreases |a| - i
  {
  }

  /** When the names differ, a lookup finds the one entry that stores the name. */
  lemma FindsTheOnly(v: Volume, name: seq<Byte>, i: nat)
    requires NamesOk(v) && IsName(name) && InUse(v, i) && StoredKey(v.dir[i]) == Key(name)
    ensures FindIndex(v.dir, name) == i && Find(v.dir, name) == v.dir[i].sector
  {
    MatchesKey(v.dir[i], name);
    var f := FindIndex(v.dir, name);
    assert InUse(v, f);
    MatchesKey(v.dir[f], name);
  }

  /** As a map from names to sectors, Create adds one association and changes no other. */
  lemma CreateFinds(v: Volume, name: seq<Byte>, size: Int32, asked: seq<Byte>)
    requires VolumeOk(v) && IsName(name) && IsName(asked) && Create(v, name, size).Some?
    ensures Find(Create(v, name, size).value.dir, asked) ==
              if Key(asked) == Key(name) then FirstClear(v.marked, 0, v.n) else Find(v.dir, asked)
  {
    var w, s, j := Create(v, name, size).value, FirstClear(v.marked, 0, v.n), FreeFrom(v.dir, 0);
    StoredNameMatches(v.dir[j].name, name, asked);
    if Key(asked) == Key(name) {
      CreateNames(v, name, size);
      FindsTheOnly(w, asked, j);
    } else {
      assert !Matches(w.dir[j], asked);
      FindFromSame(w.dir, v.dir, asked, 0);
    }
  }

  /** Remove takes one association away and changes no other. */
  lemma RemoveFinds(v: Volume, name: seq<Byte>, asked: seq<Byte>)
    requires VolumeOk(v) && IsName(name) && IsName(asked) && Remove(v, name).Some?
    ensures Find(Remove(v, name).value.dir, asked) == if Key(asked) == Key(name) then -1 else Find(v.dir, asked)
  {
    var w, f := Remove(v, name).value, FindIndex(v.dir, name);
    MatchesKey(v.dir[f], name);
    if Key(asked) == Key(name) {
      forall i | 0 <= i < |w.dir| ensures !Matches(w.dir[i], asked) {
        MatchesKey(w.dir[i], asked);
        assert InUse(v, f);
        assert i != f && w.dir[i].inUse ==> InUse(v, i);
      }
    } else {
      MatchesKey(v.dir[f], asked);
      FindFromSame(w.dir, v.dir, asked, 0);
    }
  }

  /** Every file other than the one named keeps its entry and its header. */
  lemma OthersKeepHeaders(v: Volume, name: seq<Byte>, size: Int32, i: nat)
    requires VolumeOk(v) && InUse(v, i)
    ensures Create(v, name, size).Some? ==>
              var w := Create(v, name, size).value;
              InUse(w, i) && w.dir[i] == v.dir[i] && HasHeaders(w)
              && w.headers[w.dir[i].sector] == v.headers[v.dir[i].sector]
    ensures Remove(v, name).Some? && i != FindIndex(v.dir, name) ==>
              var w := Remove(v, name).value;
              InUse(w, i) && w.dir[i] == v.dir[i] && HasHeaders(w)
              && w.headers[w.dir[i].sector] == v.headers[v.dir[i].sector]
  {
    if Create(v, name, size).Some? {
      CreateLayout(v, name, size);
      CreateFacts(v, name, size);
      SectorIsMarked(v, i);
    }
    if Remove(v, name).Some? {
      OthersDiffer(v, name);
      RemoveLayout(v, name);
    }
  }

  /** A file that was just created is found in the entry it was given. */
  lemma CreatedIsFound(v: Volume, name: seq<Byte>, size: Int32)
    requires VolumeOk(v) && IsName(name) && Create(v, name, size).Some?
    ensures FindIndex(Create(v, name, size).value.dir, name) == FreeFrom(v.dir, 0) >= 0
  {
    var w, j := Create(v, name, size).value, FreeFrom(v.dir, 0);
    CreateNames(v, name, size);
    FindsTheOnly(w, name, j);
  }

  lemma CreateThenRemoveSectors(v: Volume, name: seq<Byte>, size: Int32)
    requires VolumeOk(v) && IsName(name) && Create(v, name, size).Some?
    ensures var w := Create(v, name, size).value;
            HasHeaders(w) && Remove(w, name).Some? && Remove(w, name).value.marked == v.marked
  {
    var w := Create(v, name, size).value;
    CreateLayout(v, name, size);
    CreatedIsFound(v, name, size);
    RemoveMarked(w, name);
    assert Layout(w)[FindIndex(w.dir, name)] !! v.marked;
  }

  lemma CreateThenRemoveHeaders(v: Volume, name: seq<Byte>, size: Int32)
    requires VolumeOk(v) && IsName(name) && Create(v, name, size).Some?
    ensures var w := Create(v, name, size).value;
            HasHeaders(w) && Remove(w, name).Some? && Remove(w, name).value.headers == v.headers
  {
    CreateLayout(v, name, size);
    CreatedIsFound(v, name, size);
    NewSectorHasNoHeader(v, FirstClear(v.marked, 0, v.n));
  }

  lemma CreateThenRemoveFinds(v: Volume, name: seq<Byte>, size: Int32, asked: seq<Byte>)
    requires VolumeOk(v) && IsName(name) && Create(v, name, size).Some?
    ensures var w := Create(v, name, size).value;
            HasHeaders(w) && Remove(w, name).Some? && Find(Remove(w, name).value.dir, asked) == Find(v.dir, asked)
  {
    var w := Create(v, name, size).value;
    CreateLayout(v, name, size);
    CreatedIsFound(v, name, size);
    var x := Remove(w, name).value;
    forall k | 0 <= k < |x.dir| ensures Matches(x.dir[k], asked) <==> Matches(v.dir[k], asked) {
    }
    FindFromSame(x.dir, v.dir, asked, 0);
  }

  /** Create and then Remove: the bitmap and the headers are back as they were, and so is every lookup. */
  lemma CreateThenRemove(v: Volume, name: seq<Byte>, size: Int32)
    requires VolumeOk(v) && IsName(name) && Create(v, name, size).Some?
    ensures var w := Create(v, name, size).value;
            && HasHeaders(w) && Remove(w, name).Some?
            && var x := Remove(w, name).value;
               x.marked == v.marked && x.headers == v.headers
               && (forall asked :: Find(x.dir, asked) == Find(v.dir, asked))
  {
    CreateThenRemoveSectors(v, name, size);
    CreateThenRemoveHeaders(v, name, size);
    forall asked ensures Find(Remove(Create(v, name, size).value, name).value.dir, asked) == Find(v.dir, asked) {
      CreateThenRemoveFinds(v, name, size, asked);
    }
  }

  lemma NewSectorHasNoHeader(v: Volume, s: nat)
    requires HeadersOk(v) && Partition(Layout(v), v.system, v.marked) && s !in v.marked
    ensures s !in v.headers
  {
    if s in v.headers {
      var i :| InUse(v, i) && v.dir[i].sector == s;
      SectorIsMarked(v, i);
    }
  }

  /** No sector is lost: the clear ones, the files' and the system's make up the disk. */
  lemma SectorsConserved(v: Volume)
    requires VolumeOk(v)
    ensures CountClear(v.marked, v.n) + |v.system| + SumOfSizes(Layout(v)) == v.n
  {
    ClearAndMarked(v.marked, v.n);
    PartitionSizes(Layout(v), v.system, v.marked);
  }

  // ---------------------------------------------------------------- entries and sectors left

  function UsedEntries(dir: seq<Entry>): set<nat> {
    set i: nat | i < |dir| && dir[i].inUse
  }

  lemma FreeEntryIff(dir: seq<Entry>)
    ensures (exists j :: 0 <= j < |dir| && !dir[j].inUse) <==> |UsedEntries(dir)| < |dir|
  {
    var used := UsedEntries(dir);
    ClearAndMarked(used, |dir|);
    if j :| 0 <= j < |dir| && !dir[j].inUse {
      SomeClear(used, |dir|, j);
    } else {
      AllMarked(used, |dir|);
    }
  }

  /** Every file has as many data sectors as its size needs, and no more. */
  ghost predicate Tight(v: Volume) {
    forall s :: s in v.headers ==> |v.headers[s].sectors| == DataSectors(v.headers[s].numBytes)
  }

  lemma CreateTakesSectors(v: Volume, name: seq<Byte>, size: Int32)
    requires VolumeOk(v) && Create(v, name, size).Some?
    ensures CountClear(Create(v, name, size).value.marked, v.n) == CountClear(v.marked, v.n) - 1 - DataSectors(size)
  {
    CreateFacts(v, name, size);
    DataSectorsRoundUp(size);
    var s := FirstClear(v.marked, 0, v.n);
    MarkLowersClear(v.marked, v.n, s);
    TakeClearIsFresh(v.marked + {s}, v.n, DataSectors(size));
  }

  lemma CreateStaysTight(v: Volume, name: seq<Byte>, size: Int32)
    requires VolumeOk(v) && Tight(v) && Create(v, name, size).Some?
    ensures Tight(Create(v, name, size).value)
  {
    CreateFacts(v, name, size);
    DataSectorsRoundUp(size);
  }

  lemma OneMoreUsed(dir: seq<Entry>, j: nat, e: Entry)
    requires j < |dir| && !dir[j].inUse && e.inUse
    ensures |UsedEntries(dir[j := e])| == |UsedEntries(dir)| + 1
  {
    assert UsedEntries(dir[j := e]) == UsedEntries(dir) + {j};
  }

  /** Create takes one entry, and the sectors for the header and the data. */
  lemma CreateCounts(v: Volume, name: seq<Byte>, size: Int32)
    requires VolumeOk(v) && Tight(v) && Create(v, name, size).Some?
    ensures var w := Create(v, name, size).value;
            && |w.dir| == |v.dir| && |UsedEntries(w.dir)| == |UsedEntries(v.dir)| + 1
            && w.n == v.n && CountClear(w.marked, w.n) == CountClear(v.marked, v.n) - 1 - DataSectors(size)
            && Tight(w)
  {
    var w, j := Create(v, name, size).value, FreeFrom(v.dir, 0);
    OneMoreUsed(v.dir, j, w.dir[j]);
    CreateTakesSectors(v, name, size);
    CreateStaysTight(v, name, size);
  }

  lemma GivesUp(v: Volume, name: seq<Byte>)
    requires VolumeOk(v) && Remove(v, name).Some?
    ensures var claim := Layout(v)[FindIndex(v.dir, name)];
            && claim <= v.marked && |claim| == 1 + |v.headers[Find(v.dir, name)].sectors|
  {
    var f := FindIndex(v.dir, name);
    assert Layout(v)[f] <= v.marked;
    DistinctSize(v.headers[v.dir[f].sector].sectors);
  }

  /** Remove gives them back. */
  lemma RemoveCounts(v: Volume, name: seq<Byte>)
    requires VolumeOk(v) && Tight(v) && Remove(v, name).Some?
    ensures Find(v.dir, name) in v.headers
    ensures var w := Remove(v, name).value;
            && |w.dir| == |v.dir| && |UsedEntries(w.dir)| == |UsedEntries(v.dir)| - 1
            && CountClear(w.marked, w.n) ==
                 CountClear(v.marked, v.n) + 1 + DataSectors(v.headers[Find(v.dir, name)].numBytes)
            && Tight(w)
  {
    var w, f := Remove(v, name).value, FindIndex(v.dir, name);
    assert UsedEntries(w.dir) == UsedEntries(v.dir) - {f as nat};
    RemoveMarked(v, name);
    GivesUp(v, name);
    ClearAndMarked(v.marked, v.n);
    ClearAndMarked(w.marked, w.n);
  }

  // ---------------------------------------------------------------- format and whole runs

  const FREE_MAP_SECTOR := 0
  const DIRECTORY_SECTOR := 1

  /** FreeMapFileSize */
  function MapBytes(n: nat): nat {
    n / 8
  }

  function MapData(n: nat): seq<nat> {
    TakeClear({FREE_MAP_SECTOR, DIRECTORY_SECTOR}, n, DataSectors(MapBytes(n)))
  }

  function DirData(n: nat, entries: nat): seq<nat> {
    TakeClear({FREE_MAP_SECTOR, DIRECTORY_SECTOR} + Elements(MapData(n)), n, DataSectors(ENTRY_SIZE * entries))
  }

  /** The sectors that format sets aside. */
  function SystemSectors(n: nat, entries: nat): set<nat> {
    {FREE_MAP_SECTOR, DIRECTORY_SECTOR} + Elements(MapData(n)) + Elements(DirData(n, entries))
  }

  /** The disk has room for the two files of the system, and their headers for their sectors. */
  predicate RoomForSystem(n: nat, entries: nat) {
    && n <= 0x8000_0000
    && 2 + DataSectors(MapBytes(n)) + DataSectors(ENTRY_SIZE * entries) <= n
    && MapBytes(n) <= MAX_FILE_SIZE
    && ENTRY_SIZE * entries <= MAX_FILE_SIZE
  }

  /** A formatted disk: an empty directory, and only the system's sectors marked. */
  ghost predicate Formatted(v: Volume, entries: nat) {
    && DirOk(v.dir) && |v.dir| == entries
    && (forall i :: 0 <= i < entries ==> !v.dir[i].inUse)
    && RoomForSystem(v.n, entries)
    && v.headers == map[]
    && v.system == SystemSectors(v.n, entries)
    && v.marked == v.system
  }

  lemma FirstTwo(n: nat)
    requires n >= 2
    ensures CountClear({FREE_MAP_SECTOR, DIRECTORY_SECTOR}, n) == n - 2
  {
    var first: set<nat> := {FREE_MAP_SECTOR, DIRECTORY_SECTOR};
    ClearAndMarked(first, n);
    assert |first| == 2;
  }

  /** The allocation of format for the bitmap succeeds. */
  lemma MapFits(n: nat, k: nat)
    requires 2 + k <= n && k == DataSectors(MapBytes(n))
    ensures |MapData(n)| == k && Distinct(MapData(n)) && forall x :: x in MapData(n) ==> 1 < x < n
    ensures CountClear({FREE_MAP_SECTOR, DIRECTORY_SECTOR} + Elements(MapData(n)), n) == n - 2 - k
  {
    FirstTwo(n);
    TakeClearIsFresh({FREE_MAP_SECTOR, DIRECTORY_SECTOR}, n, k);
  }

  /** The allocation of format for the directory succeeds, and its sectors are other ones. */
  lemma DirFits(n: nat, entries: nat, k: nat)
    requires 2 + DataSectors(MapBytes(n)) + k <= n && k == DataSectors(ENTRY_SIZE * entries)
    ensures |DirData(n, entries)| == k && Distinct(DirData(n, entries))
    ensures forall x :: x in DirData(n, entries) ==> 1 < x < n && x !in MapData(n)
    ensures CountClear(SystemSectors(n, entries), n) == n - 2 - DataSectors(MapBytes(n)) - k
  {
    MapFits(n, DataSectors(MapBytes(n)));
    TakeClearIsFresh({FREE_MAP_SECTOR, DIRECTORY_SECTOR} + Elements(MapData(n)), n, k);
  }

  lemma FormattedOk(v: Volume, entries: nat)
    requires Formatted(v, entries)
    ensures VolumeOk(v)
  {
    MapFits(v.n, DataSectors(MapBytes(v.n)));
    DirFits(v.n, entries, DataSectors(ENTRY_SIZE * entries));
  }

  datatype Call = CallCreate(name: seq<Byte>, size: Int32) | CallRemove(name: seq<Byte>)

  /** The fields that the calls read are there. */
  predicate Readable(v: Volume) {
    DirOk(v.dir) && v.n <= 0x8000_0000 && HasHeaders(v)
  }

  /** A call with a proper name, that does not leave the header it fills in. */
  ghost predicate CallOk(v: Volume, c: Call) {
    IsName(c.name) && (c.CallCreate? ==> StaysInHeader(CreateStoresAt(v, c.name, c.size)))
  }

  /** A call changes the disk only if it succeeds. */
  function After(v: Volume, c: Call): Volume {
    if !Readable(v) then v
    else
      var r := match c case CallCreate(name, size) => Create(v, name, size) case CallRemove(name) => Remove(v, name);
      if r.Some? then r.value else v
  }

  /** The states of a run of calls, whichever of them succeed. */
  ghost predicate IsRun(states: seq<Volume>, calls: seq<Call>) {
    && |states| == |calls| + 1
    && forall i :: 0 <= i < |calls| ==> CallOk(states[i], calls[i]) && states[i + 1] == After(states[i], calls[i])
  }

  lemma CallKeepsVolume(v: Volume, c: Call)
    requires VolumeOk(v) && CallOk(v, c)
    ensures VolumeOk(After(v, c)) && After(v, c).n == v.n && After(v, c).system == v.system
  {
    match c
    case CallCreate(name, size) =>
      if Create(v, name, size).Some? {
        CreateStaysIff(v, name, size);
        CreateKeeps(v, name, size);
      }
    case CallRemove(name) =>
      if Remove(v, name).Some? {
        RemoveKeeps(v, name);
      }
  }

  lemma {:induction false} RunKeepsVolume(states: seq<Volume>, calls: seq<Call>, k: nat)
    requires IsRun(states, calls) && VolumeOk(states[0]) && k <= |calls|
    ensures VolumeOk(states[k]) && states[k].n == states[0].n && states[k].system == states[0].system
  {
    if k > 0 {
      RunKeepsVolume(states, calls, k - 1);
      NextKeepsVolume(states, calls, k - 1);
    }
  }

  lemma NextKeepsVolume(states: seq<Volume>, calls: seq<Call>, k: nat)
    requires IsRun(states, calls) && k < |calls| && VolumeOk(states[k])
    ensures VolumeOk(states[k + 1]) && states[k + 1].n == states[k].n && states[k + 1].system == states[k].system
  {
    CallKeepsVolume(states[k], calls[k]);
  }

  /** What a call does to the names: Create adds its own, if it is new and there is room, Remove takes its own away. */
  lemma CallDoes(states: seq<Volume>, calls: seq<Call>, entries: nat, i: nat, asked: seq<Byte>)
    requires IsRun(states, calls) && Formatted(states[0], entries) && i < |calls| && IsName(asked)
    ensures var v, w, c := states[i], states[i + 1], calls[i];
            HasFile(w.dir, asked) <==>
              match c
              case CallCreate(name, size) =>
                || HasFile(v.dir, asked)
                || (Key(asked) == Key(name) && (exists j :: 0 <= j < |v.dir| && !v.dir[j].inUse)
                    && CountClear(v.marked, v.n) >= 1 + DataSectors(size))
              case CallRemove(name) => HasFile(v.dir, asked) && Key(asked) != Key(name)
  {
    FormattedOk(states[0], entries);
    RunKeepsVolume(states, calls, i);
    assert CallOk(states[i], calls[i]) && states[i + 1] == After(states[i], calls[i]);
    match calls[i]
    case CallCreate(name, size) => CreateNamesIt(states[i], name, size, asked);
    case CallRemove(name) => RemoveUnnamesIt(states[i], name, asked);
  }

  lemma SameKeySame(dir: seq<Entry>, name: seq<Byte>, asked: seq<Byte>)
    requires Key(asked) == Key(name)
    ensures HasFile(dir, asked) <==> HasFile(dir, name)
  {
  }

  lemma FindsOrNone(v: Volume, asked: seq<Byte>)
    requires VolumeOk(v) && IsName(asked)
    ensures HasFile(v.dir, asked) <==> Find(v.dir, asked) != -1
  {
    FoundIffStored(v.dir, asked);
    if FindIndex(v.dir, asked) != -1 {
      assert InUse(v, FindIndex(v.dir, asked));
    }
  }

  lemma CreateNamesIt(v: Volume, name: seq<Byte>, size: Int32, asked: seq<Byte>)
    requires VolumeOk(v) && IsName(name) && IsName(asked) && CallOk(v, CallCreate(name, size))
    ensures HasFile(After(v, CallCreate(name, size)).dir, asked) <==>
              || HasFile(v.dir, asked)
              || (Key(asked) == Key(name) && (exists j :: 0 <= j < |v.dir| && !v.dir[j].inUse)
                  && CountClear(v.marked, v.n) >= 1 + DataSectors(size))
  {
    CreateSucceeds(v, name, size);
    if Key(asked) == Key(name) {
      SameKeySame(v.dir, name, asked);
    }
    if Create(v, name, size).Some? {
      CallKeepsVolume(v, CallCreate(name, size));
      CreateFinds(v, name, size, asked);
      CreateFacts(v, name, size);
      FindsOrNone(v, asked);
      FindsOrNone(Create(v, name, size).value, asked);
    }
  }

  lemma RemoveUnnamesIt(v: Volume, name: seq<Byte>, asked: seq<Byte>)
    requires VolumeOk(v) && IsName(name) && IsName(asked)
    ensures HasFile(After(v, CallRemove(name)).dir, asked) <==> HasFile(v.dir, asked) && Key(asked) != Key(name)
  {
    FoundIffStored(v.dir, name);
    if Key(asked) == Key(name) {
      SameKeySame(v.dir, name, asked);
    }
    if Remove(v, name).Some? {
      CallKeepsVolume(v, CallRemove(name));
      RemoveFinds(v, name, asked);
      FindsOrNone(v, asked);
      FindsOrNone(Remove(v, name).value, asked);
    }
  }

  /**
   After any calls on a formatted disk: the bitmap marks exactly the sectors of the directory's files and
   of the system, all different, and no sector is lost.
  */
  lemma RunFromFormat(states: seq<Volume>, calls: seq<Call>, entries: nat, k: nat)
    requires IsRun(states, calls) && Formatted(states[0], entries) && k <= |calls|
    ensures HasHeaders(states[k])
    ensures Partition(Layout(states[k]), SystemSectors(states[0].n, entries), states[k].marked)
    ensures CountClear(states[k].marked, states[0].n) + SumOfSizes(Layout(states[k])) ==
              states[0].n - |SystemSectors(states[0].n, entries)|
  {
    FormattedOk(states[0], entries);
    RunKeepsVolume(states, calls, k);
    SectorsConserved(states[k]);
  }
}
