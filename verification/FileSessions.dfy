/**
 filesys/filesys.cc and filesys/openfile.cc together: what a user of the file system sees over any
 number of calls. The disk holds a map from names to bytes, and a read gives back what was written last.
*/
module FileSessions {
  import opened Common
  import opened Bitmaps
  import opened SectorFiles
  import opened Codec
  import opened Volumes
  import opened VolumeStore
  import opened FileSystems

  /** The bytes of the file that a name finds on the disk. */
  ghost function FileBytes(sectors: seq<seq<Byte>>, entries: nat, name: seq<Byte>): Option<seq<Byte>>
    requires SystemOk(sectors, entries)
  {
    var s := Find(Table(sectors, entries), name);
    if 0 <= s < |sectors| && HeaderOk(DecodeHeader(sectors[s]), |sectors|)
    then Some(Contents(sectors, DecodeHeader(sectors[s])))
    else None
  }

  lemma FoundHasBytes(sectors: seq<seq<Byte>>, entries: nat, name: seq<Byte>)
    requires StoreOk(sectors, entries) && FindIndex(Table(sectors, entries), name) != -1
    ensures var s := Find(Table(sectors, entries), name);
            && 0 <= s < |sectors| && HeaderOk(DecodeHeader(sectors[s]), |sectors|)
            && IsHeaderSector(Table(sectors, entries), s)
            && View(sectors, entries).headers[s] == InfoOf(DecodeHeader(sectors[s]))
            && FileBytes(sectors, entries, name) == Some(Contents(sectors, DecodeHeader(sectors[s])))
  {
    FoundIsReadable(sectors, entries, name);
    FoundIsHeader(View(sectors, entries), name);
  }

  lemma BytesIffStored(sectors: seq<seq<Byte>>, entries: nat, name: seq<Byte>)
    requires StoreOk(sectors, entries) && IsName(name)
    ensures FileBytes(sectors, entries, name).Some? <==> HasFile(Table(sectors, entries), name)
    ensures FileBytes(sectors, entries, name).Some? <==> FindIndex(Table(sectors, entries), name) != -1
  {
    FoundIffStored(Table(sectors, entries), name);
    if FindIndex(Table(sectors, entries), name) != -1 {
      FoundHasBytes(sectors, entries, name);
    }
  }

  // ---------------------------------------------------------------- what a call changes

  /** A name that finds the same place, with all sectors of files as they were, finds the same bytes. */
  lemma SameBytes(before: seq<seq<Byte>>, after: seq<seq<Byte>>, entries: nat, name: seq<Byte>)
    requires StoreOk(before, entries) && SystemOk(after, entries) && |after| == |before|
    requires Find(Table(after, entries), name) == Find(Table(before, entries), name)
    requires var v := View(before, entries); forall x :: x in v.marked && x !in v.system ==> after[x] == before[x]
    ensures FileBytes(after, entries, name) == FileBytes(before, entries, name)
  {
    if FindIndex(Table(before, entries), name) != -1 {
      FoundHasBytes(before, entries, name);
      FileUntouched(before, after, entries, Find(Table(before, entries), name));
    }
  }

  /** Create gives the new name bytes of the size asked for, and changes no other file's. */
  lemma CreateBytes(
    before: seq<seq<Byte>>, after: seq<seq<Byte>>, entries: nat, name: seq<Byte>, size: Int32, asked: seq<Byte>)
    requires StoreOk(before, entries) && StoreOk(after, entries) && |after| == |before|
    requires IsName(name) && IsName(asked)
    requires Create(View(before, entries), name, size) == Some(View(after, entries))
    requires var v := View(before, entries); forall x :: x in v.marked && x !in v.system ==> after[x] == before[x]
    ensures Key(asked) != Key(name) ==> FileBytes(after, entries, asked) == FileBytes(before, entries, asked)
    ensures Key(asked) == Key(name) ==>
              && FileBytes(before, entries, asked) == None
              && FileBytes(after, entries, asked).Some?
              && FileBytes(after, entries, asked) == FileBytes(after, entries, name)
              && |FileBytes(after, entries, asked).value| == if size > 0 then size else 0
  {
    CreateFinds(View(before, entries), name, size, asked);
    CreateFinds(View(before, entries), name, size, name);
    if Key(asked) != Key(name) {
      SameBytes(before, after, entries, asked);
    } else {
      NewFileBytes(before, after, entries, name, size, asked);
    }
  }

  lemma NewFileBytes(
    before: seq<seq<Byte>>, after: seq<seq<Byte>>, entries: nat, name: seq<Byte>, size: Int32, asked: seq<Byte>)
    requires StoreOk(before, entries) && StoreOk(after, entries) && |after| == |before|
    requires IsName(name) && IsName(asked) && Key(asked) == Key(name)
    requires Create(View(before, entries), name, size) == Some(View(after, entries))
    requires Find(Table(after, entries), asked) == FirstClear(View(before, entries).marked, 0, |before|)
    ensures FileBytes(before, entries, asked) == None && FileBytes(after, entries, asked).Some?
    ensures |FileBytes(after, entries, asked).value| == if size > 0 then size else 0
  {
    FoundIffStored(Table(before, entries), name);
    BytesIffStored(before, entries, asked);
    CreateFacts(View(before, entries), name, size);
    FoundHasBytes(after, entries, asked);
  }

  /** Remove takes the name's bytes away, and changes no other file's. */
  lemma RemoveBytes(before: seq<seq<Byte>>, after: seq<seq<Byte>>, entries: nat, name: seq<Byte>, asked: seq<Byte>)
    requires StoreOk(before, entries) && SystemOk(after, entries) && |after| == |before|
    requires forall x :: 0 <= x < |before| && x !in View(before, entries).system ==> after[x] == before[x]
    requires Find(Table(after, entries), asked) ==
               if Key(asked) == Key(name) then -1 else Find(Table(before, entries), asked)
    ensures FileBytes(after, entries, asked) ==
              if Key(asked) == Key(name) then None else FileBytes(before, entries, asked)
  {
    if Key(asked) != Key(name) {
      SameBytes(before, after, entries, asked);
    }
  }

  lemma RemoveFindsLess(before: seq<seq<Byte>>, after: seq<seq<Byte>>, entries: nat, name: seq<Byte>, asked: seq<Byte>)
    requires StoreOk(before, entries) && SystemOk(after, entries) && IsName(name) && IsName(asked)
    requires Remove(View(before, entries), name) == Some(View(after, entries))
    ensures Find(Table(after, entries), asked) ==
              if Key(asked) == Key(name) then -1 else Find(Table(before, entries), asked)
  {
    RemoveFinds(View(before, entries), name, asked);
  }

  /** The data sectors of a file belong to nothing else. */
  lemma DataApart(v: Volume, i: nat, j: nat, x: nat)
    requires VolumeOk(v) && InUse(v, i) && InUse(v, j) && x in v.headers[v.dir[i].sector].sectors
    ensures x !in v.system && x != v.dir[j].sector
    ensures i != j ==> x !in v.headers[v.dir[j].sector].sectors
  {
    assert x in Layout(v)[i] && v.dir[j].sector as nat in Layout(v)[j];
    assert forall y :: y in v.headers[v.dir[j].sector].sectors ==> y in Layout(v)[j];
    if i < j {
      assert Layout(v)[i] !! Layout(v)[j];
    } else if j < i {
      assert Layout(v)[j] !! Layout(v)[i];
    }
  }

  /** No sector of the system and no header is among the data sectors of a file. */
  lemma DataElsewhere(sectors: seq<seq<Byte>>, entries: nat, i: nat, x: nat)
    requires StoreOk(sectors, entries) && InUse(View(sectors, entries), i)
    requires var s := Table(sectors, entries)[i].sector;
             && 0 <= s < |sectors| && HeaderOk(DecodeHeader(sectors[s]), |sectors|)
             && (x in SystemSet(sectors) || IsHeaderSector(Table(sectors, entries), x))
    ensures x !in Used(DecodeHeader(sectors[Table(sectors, entries)[i].sector]))
  {
    var v := View(sectors, entries);
    var s := v.dir[i].sector;
    SectorListIsUsed(DecodeHeader(sectors[s]), |sectors|);
    assert IsHeaderSector(v.dir, s);
    if x in Used(DecodeHeader(sectors[s])) {
      if x in v.system {
        DataApart(v, i, i, x);
      } else {
        var j :| 0 <= j < |v.dir| && v.dir[j].inUse && v.dir[j].sector == x;
        DataApart(v, i, j, x);
      }
    }
  }

  /** A write into the data sectors of a file leaves the volume as it is. */
  lemma WriteKeepsStore(before: seq<seq<Byte>>, after: seq<seq<Byte>>, entries: nat, i: nat)
    requires StoreOk(before, entries) && InUse(View(before, entries), i) && DiskOk(after) && |after| == |before|
    requires var s := Table(before, entries)[i].sector;
             && 0 <= s < |before| && HeaderOk(DecodeHeader(before[s]), |before|)
             && forall x :: 0 <= x < |before| && x !in Used(DecodeHeader(before[s])) ==> after[x] == before[x]
    ensures StoreOk(after, entries) && View(after, entries) == View(before, entries)
    ensures MapHdr(after) == MapHdr(before) && DirHdr(after) == DirHdr(before)
    ensures forall x: nat :: x < |before| && IsHeaderSector(Table(before, entries), x) ==> after[x] == before[x]
  {
    forall x: nat | x < |before| && (x in SystemSet(before) || IsHeaderSector(Table(before, entries), x))
      ensures after[x] == before[x]
    {
      DataElsewhere(before, entries, i, x);
    }
    SystemUntouched(before, after, entries);
    HeadersUntouched(Table(before, entries), before, after);
  }

  lemma HeadersUntouched(dir: seq<Entry>, before: seq<seq<Byte>>, after: seq<seq<Byte>>)
    requires DiskOk(before) && DiskOk(after) && |after| == |before| && HeadersReadable(dir, before)
    requires forall x: nat :: x < |before| && IsHeaderSector(dir, x) ==> after[x] == before[x]
    ensures HeadersReadable(dir, after) && Headers(dir, after) == Headers(dir, before)
  {
  }

  lemma SystemUntouched(before: seq<seq<Byte>>, after: seq<seq<Byte>>, entries: nat)
    requires SystemOk(before, entries) && DiskOk(after) && |after| == |before|
    requires forall x :: x in SystemSet(before) && x < |before| ==> after[x] == before[x]
    ensures SystemOk(after, entries) && MapHdr(after) == MapHdr(before) && DirHdr(after) == DirHdr(before)
    ensures Bits(after, entries) == Bits(before, entries) && Table(after, entries) == Table(before, entries)
    ensures SystemSet(after) == SystemSet(before)
  {
    SectorListIsUsed(MapHdr(before), |before|);
    SectorListIsUsed(DirHdr(before), |before|);
    SameContents(before, after, MapHdr(before));
    SameContents(before, after, DirHdr(before));
  }

  /** And the bytes of every other file. */
  lemma WriteKeepsOthers(before: seq<seq<Byte>>, after: seq<seq<Byte>>, entries: nat, name: seq<Byte>, asked: seq<Byte>)
    requires StoreOk(before, entries) && IsName(name) && IsName(asked) && Key(asked) != Key(name)
    requires FindIndex(Table(before, entries), name) != -1 && StoreOk(after, entries) && |after| == |before|
    requires View(after, entries) == View(before, entries)
    requires forall x: nat :: x < |before| && IsHeaderSector(Table(before, entries), x) ==> after[x] == before[x]
    requires var s := Find(Table(before, entries), name);
             && 0 <= s < |before| && HeaderOk(DecodeHeader(before[s]), |before|)
             && forall x :: 0 <= x < |before| && x !in Used(DecodeHeader(before[s])) ==> after[x] == before[x]
    ensures FileBytes(after, entries, asked) == FileBytes(before, entries, asked)
  {
    var dir := Table(before, entries);
    var i, j := FindIndex(dir, name), FindIndex(dir, asked);
    if j != -1 {
      MatchesKey(dir[i], name);
      MatchesKey(dir[j], asked);
      FoundHasBytes(before, entries, name);
      FoundHasBytes(before, entries, asked);
      var h, o := DecodeHeader(before[dir[i].sector]), DecodeHeader(before[dir[j].sector]);
      SectorListIsUsed(h, |before|);
      SectorListIsUsed(o, |before|);
      forall x | x in Used(o) ensures x !in Used(h) {
        if x in Used(h) {
          assert InUse(View(before, entries), i) && InUse(View(before, entries), j);
          DataApart(View(before, entries), i, j, x);
        }
      }
      OtherFile(before, after, h, o);
    }
  }

  // ---------------------------------------------------------------- calls on a map of files

  /** A user's call; to write or to read, the file is opened and used at a position. */
  datatype Request =
    | ToCreate(name: seq<Byte>, size: Int32)
    | ToRemove(name: seq<Byte>)
    | ToWrite(name: seq<Byte>, data: seq<Byte>, position: nat)
    | ToRead(name: seq<Byte>, numBytes: nat, position: nat)

  /** Whether the call worked, and the bytes that were read. */
  datatype Reply = Reply(ok: bool, bytes: seq<Byte>)

  /** The files by their names, of which nine characters count. */
  type Files = map<seq<Byte>, seq<Byte>>

  /** The part of the data that lies within the file. */
  function Clipped(data: seq<Byte>, length: nat, position: nat): (d: seq<Byte>)
    ensures d == [] || position + |d| <= length
  {
    data[..Clip(length, |data|, position)]
  }

  function Written(file: seq<Byte>, data: seq<Byte>, position: nat): seq<Byte> {
    var d := Clipped(data, |file|, position);
    if d == [] then file else Splice(file, position, d)
  }

  function Slice(file: seq<Byte>, numBytes: nat, position: nat): seq<Byte> {
    var n := Clip(|file|, numBytes, position);
    if n == 0 then [] else file[position..position + n]
  }

  /** The files, how many entries the directory has for them, and how many sectors are clear. */
  datatype Catalog = Catalog(files: Files, entries: nat, room: nat)

  /** Sectors that a file with so many bytes takes: its header's, and those of its data. */
  function Cost(size: int): nat {
    1 + DataSectors(size)
  }

  /** The catalog without a file. */
  function Without(c: Catalog, key: seq<Byte>): Catalog
    requires key in c.files
  {
    Catalog(c.files - {key}, c.entries, c.room + Cost(|c.files[key]|))
  }

  /** The name is new, an entry is free, and the sectors are enough. */
  predicate CanCreate(c: Catalog, name: seq<Byte>, size: Int32) {
    Key(name) !in c.files && |c.files| < c.entries && Cost(size) <= c.room
  }

  /** What a call does to a catalog. A new file holds garbage. */
  ghost predicate Effect(c: Catalog, q: Request, reply: Reply, after: Catalog) {
    var files, k := c.files, Key(q.name);
    match q
    case ToCreate(name, size) =>
      && (reply.ok <==> CanCreate(c, name, size))
      && if !reply.ok then after == c else Created(c, k, size, after)
    case ToRemove(_) =>
      && (reply.ok <==> k in files)
      && after == if k in files then Without(c, k) else c
    case ToWrite(_, data, position) =>
      && (reply.ok <==> k in files)
      && after == if k in files then c.(files := files[k := Written(files[k], data, position)]) else c
    case ToRead(_, numBytes, position) =>
      && (reply.ok <==> k in files) && after == c
      && (k in files ==> reply.bytes == Slice(files[k], numBytes, position))
  }

  ghost predicate Created(c: Catalog, k: seq<Byte>, size: Int32, after: Catalog) {
    && k in after.files && |after.files[k]| == (if size > 0 then size else 0)
    && after.files == c.files[k := after.files[k]]
    && after.entries == c.entries && after.room + Cost(size) == c.room
  }

  ghost predicate IsSession(states: seq<Catalog>, requests: seq<Request>, replies: seq<Reply>) {
    && |states| == |requests| + 1 == |replies| + 1
    && forall i {:trigger EffectAt(states, requests, replies, i)} :: 0 <= i < |requests| ==>
         EffectAt(states, requests, replies, i)
  }

  ghost predicate EffectAt(states: seq<Catalog>, requests: seq<Request>, replies: seq<Reply>, i: nat)
    requires i < |requests| == |replies| < |states|
  {
    Effect(states[i], requests[i], replies[i], states[i + 1])
  }

  /** A call that leaves byte b of the file with this key alone. */
  predicate Spares(q: Request, key: seq<Byte>, b: nat) {
    Key(q.name) == key ==>
      !q.ToRemove? && (q.ToWrite? ==> !(q.position <= b < q.position + |q.data|))
  }

  lemma SparedByteStays(c: Catalog, q: Request, reply: Reply, after: Catalog, key: seq<Byte>, b: nat)
    requires Effect(c, q, reply, after) && key in c.files && b < |c.files[key]| && Spares(q, key, b)
    ensures key in after.files && b < |after.files[key]| && after.files[key][b] == c.files[key][b]
  {
    if q.ToWrite? && Key(q.name) == key && Clipped(q.data, |c.files[key]|, q.position) != [] {
      SpliceIsWrite(c.files[key], q.position, Clipped(q.data, |c.files[key]|, q.position), b);
    }
  }

  lemma WrittenByte(c: Catalog, q: Request, reply: Reply, after: Catalog, b: nat)
    requires Effect(c, q, reply, after) && q.ToWrite? && reply.ok
    requires q.position <= b < q.position + |q.data| && b < |c.files[Key(q.name)]|
    ensures var now := after.files; Key(q.name) in now && b < |now[Key(q.name)]|
    ensures after.files[Key(q.name)][b] == q.data[b - q.position]
  {
    var file := c.files[Key(q.name)];
    SpliceIsWrite(file, q.position, Clipped(q.data, |file|, q.position), b);
  }

  lemma {:induction false} ByteStays(
    states: seq<Catalog>, requests: seq<Request>, replies: seq<Reply>, i: nat, j: nat, key: seq<Byte>, b: nat)
    requires IsSession(states, requests, replies) && i <= j <= |requests|
    requires key in states[i].files && b < |states[i].files[key]|
    requires forall k :: i <= k < j ==> Spares(requests[k], key, b)
    ensures key in states[j].files && b < |states[j].files[key]|
    ensures states[j].files[key][b] == states[i].files[key][b]
  {
    if i < j {
      ByteStays(states, requests, replies, i, j - 1, key, b);
      assert EffectAt(states, requests, replies, j - 1);
      SparedByteStays(states[j - 1], requests[j - 1], replies[j - 1], states[j], key, b);
    }
  }

  /**
   A read gives back what was written last: a byte b of a file that call i has written, and that no call
   up to j writes again and whose file none removes, is in the answer of the read j if it is in its range.
  */
  lemma ReadsLastWrite(
    states: seq<Catalog>, requests: seq<Request>, replies: seq<Reply>, i: nat, j: nat, b: nat)
    requires IsSession(states, requests, replies) && i < j < |requests|
    requires requests[i].ToWrite? && replies[i].ok
    requires requests[i].position <= b < requests[i].position + |requests[i].data|
    requires var files := states[i].files; Key(requests[i].name) in files && b < |files[Key(requests[i].name)]|
    requires forall k :: i < k < j ==> Spares(requests[k], Key(requests[i].name), b)
    requires requests[j].ToRead? && Key(requests[j].name) == Key(requests[i].name)
    requires requests[j].position <= b < requests[j].position + requests[j].numBytes
    ensures replies[j].ok && b - requests[j].position < |replies[j].bytes|
    ensures replies[j].bytes[b - requests[j].position] == requests[i].data[b - requests[i].position]
  {
    var key := Key(requests[i].name);
    assert EffectAt(states, requests, replies, i) && EffectAt(states, requests, replies, j);
    WrittenByte(states[i], requests[i], replies[i], states[i + 1], b);
    ByteStays(states, requests, replies, i + 1, j, key, b);
  }

  // ---------------------------------------------------------------- the disk holds the map

  function Lookup(files: Files, name: seq<Byte>): Option<seq<Byte>> {
    if Key(name) in files then Some(files[Key(name)]) else None
  }

  lemma LookupWithout(files: Files, name: seq<Byte>, asked: seq<Byte>)
    ensures Lookup(files - {Key(name)}, asked) == if Key(asked) == Key(name) then None else Lookup(files, asked)
  {
  }

  lemma LookupWith(files: Files, name: seq<Byte>, bytes: seq<Byte>, asked: seq<Byte>)
    ensures Lookup(files[Key(name) := bytes], asked) ==
              if Key(asked) == Key(name) then Some(bytes) else Lookup(files, asked)
  {
  }

  /** Every name finds on the disk what the map has for it. */
  ghost predicate Holds(sectors: seq<seq<Byte>>, entries: nat, files: Files)
    requires SystemOk(sectors, entries)
  {
    forall name {:trigger FindsIn(sectors, entries, files, name)} :: IsName(name) ==>
      FindsIn(sectors, entries, files, name)
  }

  ghost predicate FindsIn(sectors: seq<seq<Byte>>, entries: nat, files: Files, name: seq<Byte>)
    requires SystemOk(sectors, entries)
  {
    FileBytes(sectors, entries, name) == Lookup(files, name)
  }

  lemma FormattedHolds(sectors: seq<seq<Byte>>, entries: nat)
    requires StoreOk(sectors, entries) && Formatted(View(sectors, entries), entries)
    ensures Holds(sectors, entries, map[])
  {
    forall name | IsName(name) ensures FindsIn(sectors, entries, map[], name) {
      BytesIffStored(sectors, entries, name);
    }
  }

  /** After Create the map has one file more. */
  lemma CreateHolds(
    before: seq<seq<Byte>>, after: seq<seq<Byte>>, entries: nat, name: seq<Byte>, size: Int32, files: Files)
    returns (now: Files)
    requires StoreOk(before, entries) && StoreOk(after, entries) && |after| == |before| && Holds(before, entries, files)
    requires IsName(name) && Create(View(before, entries), name, size) == Some(View(after, entries))
    requires var v := View(before, entries); forall x :: x in v.marked && x !in v.system ==> after[x] == before[x]
    ensures Holds(after, entries, now)
    ensures Key(name) !in files && Key(name) in now && now == files[Key(name) := now[Key(name)]]
    ensures |now[Key(name)]| == if size > 0 then size else 0
  {
    CreateBytes(before, after, entries, name, size, name);
    assert FindsIn(before, entries, files, name);
    var bytes := FileBytes(after, entries, name).value;
    now := files[Key(name) := bytes];
    forall asked | IsName(asked) ensures FindsIn(after, entries, now, asked) {
      CreateBytes(before, after, entries, name, size, asked);
      assert FindsIn(before, entries, files, asked);
      LookupWith(files, name, bytes, asked);
    }
  }

  /** After Remove it has one file less. */
  lemma RemoveHolds(before: seq<seq<Byte>>, after: seq<seq<Byte>>, entries: nat, name: seq<Byte>, files: Files)
    requires StoreOk(before, entries) && StoreOk(after, entries) && |after| == |before| && Holds(before, entries, files)
    requires IsName(name) && Remove(View(before, entries), name) == Some(View(after, entries))
    requires forall x :: 0 <= x < |before| && x !in View(before, entries).system ==> after[x] == before[x]
    ensures Holds(after, entries, files - {Key(name)})
  {
    forall asked | IsName(asked) ensures FindsIn(after, entries, files - {Key(name)}, asked) {
      RemoveFindsLess(before, after, entries, name, asked);
      RemoveBytes(before, after, entries, name, asked);
      LookupWithout(files, name, asked);
      assert FindsIn(before, entries, files, asked);
    }
  }

  /** Only the data sectors of the file with this name may have changed. */
  ghost predicate OnlyData(before: seq<seq<Byte>>, after: seq<seq<Byte>>, entries: nat, name: seq<Byte>)
    requires SystemOk(before, entries)
  {
    && DiskOk(after) && |after| == |before|
    && var s := Find(Table(before, entries), name);
       && 0 <= s < |before| && HeaderOk(DecodeHeader(before[s]), |before|)
       && forall x :: 0 <= x < |before| && x !in Used(DecodeHeader(before[s])) ==> after[x] == before[x]
  }

  /** A write through an open file changes this file's bytes in the map. */
  lemma WriteHolds(
    before: seq<seq<Byte>>, after: seq<seq<Byte>>, entries: nat, name: seq<Byte>, files: Files, bytes: seq<Byte>)
    requires StoreOk(before, entries) && Holds(before, entries, files)
    requires IsName(name) && HasFile(Table(before, entries), name) && OnlyData(before, after, entries, name)
    requires bytes == Contents(after, DecodeHeader(before[Find(Table(before, entries), name)]))
    ensures StoreOk(after, entries) && Holds(after, entries, files[Key(name) := bytes])
    ensures View(after, entries) == View(before, entries)
    ensures MapHdr(after) == MapHdr(before) && DirHdr(after) == DirHdr(before)
  {
    BytesIffStored(before, entries, name);
    WriteKeepsStore(before, after, entries, FindIndex(Table(before, entries), name));
    forall asked | IsName(asked) ensures FindsIn(after, entries, files[Key(name) := bytes], asked) {
      assert FindsIn(before, entries, files, asked);
      LookupWith(files, name, bytes, asked);
      WriteBytes(before, after, entries, name, asked);
    }
  }

  lemma WriteBytes(before: seq<seq<Byte>>, after: seq<seq<Byte>>, entries: nat, name: seq<Byte>, asked: seq<Byte>)
    requires StoreOk(before, entries) && StoreOk(after, entries) && View(after, entries) == View(before, entries)
    requires forall x: nat :: x < |before| && IsHeaderSector(Table(before, entries), x) ==>
               x < |after| && after[x] == before[x]
    requires IsName(name) && IsName(asked) && FindIndex(Table(before, entries), name) != -1
    requires OnlyData(before, after, entries, name)
    ensures FileBytes(after, entries, asked) ==
              if Key(asked) == Key(name)
              then Some(Contents(after, DecodeHeader(before[Find(Table(before, entries), name)])))
              else FileBytes(before, entries, asked)
  {
    if Key(asked) == Key(name) {
      SameKeyFindsSame(View(before, entries), name, asked);
      FoundHasBytes(before, entries, name);
    } else {
      WriteKeepsOthers(before, after, entries, name, asked);
    }
  }

  /** A stored name has the bytes that the map has for it. */
  lemma HoldsBytes(sectors: seq<seq<Byte>>, entries: nat, files: Files, name: seq<Byte>)
    requires StoreOk(sectors, entries) && Holds(sectors, entries, files) && IsName(name)
    ensures HasFile(Table(sectors, entries), name) <==> Key(name) in files
    ensures HasFile(Table(sectors, entries), name) ==>
              var s := Find(Table(sectors, entries), name);
              && 0 <= s < |sectors| && HeaderOk(DecodeHeader(sectors[s]), |sectors|)
              && files[Key(name)] == Contents(sectors, DecodeHeader(sectors[s]))
  {
    BytesIffStored(sectors, entries, name);
    assert FindsIn(sectors, entries, files, name);
    if HasFile(Table(sectors, entries), name) {
      FoundHasBytes(sectors, entries, name);
    }
  }

  lemma SameKeyFindsSame(v: Volume, name: seq<Byte>, asked: seq<Byte>)
    requires VolumeOk(v) && IsName(name) && IsName(asked) && Key(asked) == Key(name)
    ensures FindIndex(v.dir, asked) == FindIndex(v.dir, name)
  {
    FoundIffStored(v.dir, name);
    FoundIffStored(v.dir, asked);
    if FindIndex(v.dir, name) != -1 {
      MatchesKey(v.dir[FindIndex(v.dir, name)], name);
      FindsTheOnly(v, asked, FindIndex(v.dir, name));
    }
  }

  // ---------------------------------------------------------------- the disk has room as counted

  /** The disk holds the files, and has the entries and the clear sectors of the catalog. */
  ghost predicate Stores(sectors: seq<seq<Byte>>, entries: nat, c: Catalog)
    requires SystemOk(sectors, entries)
  {
    Holds(sectors, entries, c.files) && Counted(View(sectors, entries), c)
  }

  ghost predicate Counted(v: Volume, c: Catalog) {
    && c.entries == |v.dir| && |c.files| == |UsedEntries(v.dir)|
    && c.room == CountClear(v.marked, v.n)
    && Tight(v)
  }

  /** The empty catalog of a formatted disk. */
  function EmptyCatalog(n: nat, entries: nat): Catalog
    requires RoomForSystem(n, entries)
  {
    Catalog(map[], entries, n - Cost(MapBytes(n)) - Cost(ENTRY_SIZE * entries))
  }

  lemma FormattedStores(sectors: seq<seq<Byte>>, entries: nat)
    requires StoreOk(sectors, entries) && Formatted(View(sectors, entries), entries)
    ensures Stores(sectors, entries, EmptyCatalog(|sectors|, entries))
  {
    FormattedHolds(sectors, entries);
    DirFits(|sectors|, entries, DataSectors(ENTRY_SIZE * entries));
    assert UsedEntries(Table(sectors, entries)) == {};
  }

  /** Create succeeds exactly when the catalog says so. */
  lemma CreateIff(v: Volume, name: seq<Byte>, size: Int32, c: Catalog)
    requires VolumeOk(v) && IsName(name) && Counted(v, c)
    requires HasFile(v.dir, name) <==> Key(name) in c.files
    ensures Create(v, name, size).Some? <==> CanCreate(c, name, size)
  {
    CreateSucceeds(v, name, size);
    FreeEntryIff(v.dir);
  }

  lemma CreateCounted(v: Volume, name: seq<Byte>, size: Int32, c: Catalog, now: Catalog)
    requires VolumeOk(v) && Create(v, name, size).Some? && Counted(v, c)
    requires Key(name) !in c.files && Created(c, Key(name), size, now)
    ensures Counted(Create(v, name, size).value, now)
  {
    CreateCounts(v, name, size);
  }

  lemma CreateStores(
    before: seq<seq<Byte>>, after: seq<seq<Byte>>, entries: nat, name: seq<Byte>, size: Int32, c: Catalog)
    returns (now: Catalog)
    requires StoreOk(before, entries) && StoreOk(after, entries) && |after| == |before| && Stores(before, entries, c)
    requires IsName(name) && Create(View(before, entries), name, size) == Some(View(after, entries))
    requires CanCreate(c, name, size)
    requires var v := View(before, entries); forall x :: x in v.marked && x !in v.system ==> after[x] == before[x]
    ensures Stores(after, entries, now) && Created(c, Key(name), size, now)
  {
    var files := CreateHolds(before, after, entries, name, size, c.files);
    now := Catalog(files, c.entries, c.room - Cost(size));
    CreateCounted(View(before, entries), name, size, c, now);
  }

  lemma RemoveCounted(v: Volume, name: seq<Byte>, c: Catalog)
    requires VolumeOk(v) && Remove(v, name).Some? && Counted(v, c)
    requires Key(name) in c.files && Find(v.dir, name) in v.headers
    requires Cost(|c.files[Key(name)]|) == Cost(v.headers[Find(v.dir, name)].numBytes)
    ensures Counted(Remove(v, name).value, Without(c, Key(name)))
  {
    RemoveCounts(v, name);
    RemovedKey(c.files, Key(name));
  }

  lemma FileCost(sectors: seq<seq<Byte>>, entries: nat, name: seq<Byte>, c: Catalog)
    requires StoreOk(sectors, entries) && Holds(sectors, entries, c.files) && IsName(name) && Key(name) in c.files
    ensures var v := View(sectors, entries);
            && Find(v.dir, name) in v.headers
            && Cost(|c.files[Key(name)]|) == Cost(v.headers[Find(v.dir, name)].numBytes)
  {
    BytesIffStored(sectors, entries, name);
    HoldsBytes(sectors, entries, c.files, name);
    FoundHasBytes(sectors, entries, name);
  }

  lemma RemoveStores(before: seq<seq<Byte>>, after: seq<seq<Byte>>, entries: nat, name: seq<Byte>, c: Catalog)
    requires StoreOk(before, entries) && StoreOk(after, entries) && |after| == |before| && Stores(before, entries, c)
    requires IsName(name) && Remove(View(before, entries), name) == Some(View(after, entries))
    requires forall x :: 0 <= x < |before| && x !in View(before, entries).system ==> after[x] == before[x]
    requires Key(name) in c.files
    ensures Stores(after, entries, Without(c, Key(name)))
  {
    RemoveHolds(before, after, entries, name, c.files);
    FileCost(before, entries, name, c);
    RemoveCounted(View(before, entries), name, c);
  }

  lemma RemovedKey(files: Files, key: seq<Byte>)
    requires key in files
    ensures |files - {key}| == |files| - 1
  {
    assert (files - {key}).Keys == files.Keys - {key};
    assert |files - {key}| == |(files - {key}).Keys|;
  }

  // ---------------------------------------------------------------- the calls

  method CreateFile(fs: FileSystem, name: seq<Byte>, size: Int32, ghost c: Catalog)
    returns (ok: bool, ghost after: Catalog)
    requires fs.Valid() && Stores(fs.disk.sectors, fs.numDirEntries, c) && IsName(name)
    requires StaysInHeader(CreateStoresAt(fs.Volume(), name, size))
    modifies fs.disk
    ensures fs.Valid() && Stores(fs.disk.sectors, fs.numDirEntries, after)
    ensures Effect(c, ToCreate(name, size), Reply(ok, []), after)
  {
    ghost var before := fs.disk.sectors;
    HoldsBytes(before, fs.numDirEntries, c.files, name);
    CreateIff(fs.Volume(), name, size, c);
    ok := fs.Create(name, size);
    after := c;
    if ok {
      after := CreateStores(before, fs.disk.sectors, fs.numDirEntries, name, size, c);
    }
  }

  method RemoveFile(fs: FileSystem, name: seq<Byte>, ghost c: Catalog) returns (ok: bool, ghost after: Catalog)
    requires fs.Valid() && Stores(fs.disk.sectors, fs.numDirEntries, c) && IsName(name)
    modifies fs.disk
    ensures fs.Valid() && Stores(fs.disk.sectors, fs.numDirEntries, after)
    ensures Effect(c, ToRemove(name), Reply(ok, []), after)
  {
    ghost var before := fs.disk.sectors;
    HoldsBytes(before, fs.numDirEntries, c.files, name);
    ok := fs.Remove(name);
    after := c;
    if ok {
      RemoveStores(before, fs.disk.sectors, fs.numDirEntries, name, c);
      after := Without(c, Key(name));
    }
  }

  method ReadFile(fs: FileSystem, name: seq<Byte>, numBytes: nat, position: nat, ghost files: Files)
    returns (ok: bool, bytes: seq<Byte>)
    requires fs.Valid() && Holds(fs.disk.sectors, fs.numDirEntries, files) && IsName(name)
    ensures ok <==> Key(name) in files
    ensures ok ==> bytes == Slice(files[Key(name)], numBytes, position)
  {
    HoldsBytes(fs.disk.sectors, fs.numDirEntries, files, name);
    var file := fs.Open(name);
    if file == null {
      return false, [];
    }
    bytes := ReadData(file, numBytes, position);
    return true, bytes;
  }

  method ReadData(file: OpenFile, numBytes: nat, position: nat) returns (bytes: seq<Byte>)
    requires file.Valid()
    ensures bytes == Slice(file.Bytes(), numBytes, position)
  {
    var buf := new Byte[numBytes];
    var count := file.ReadAt(buf, 0, numBytes, position);
    bytes := buf[..count];
    SliceIs(file.Bytes(), numBytes, position, bytes);
  }

  lemma SliceIs(file: seq<Byte>, numBytes: nat, position: nat, bytes: seq<Byte>)
    requires |bytes| == Clip(|file|, numBytes, position)
    requires bytes != [] ==> position + |bytes| <= |file|
    requires forall k :: 0 <= k < |bytes| ==> bytes[k] == file[position + k]
    ensures bytes == Slice(file, numBytes, position)
  {
  }

  method WriteFile(fs: FileSystem, name: seq<Byte>, data: seq<Byte>, position: nat, ghost c: Catalog)
    returns (ok: bool, ghost after: Catalog)
    requires fs.Valid() && Stores(fs.disk.sectors, fs.numDirEntries, c) && IsName(name)
    modifies fs.disk
    ensures fs.Valid() && Stores(fs.disk.sectors, fs.numDirEntries, after)
    ensures Effect(c, ToWrite(name, data, position), Reply(ok, []), after)
  {
    ghost var before := fs.disk.sectors;
    HoldsBytes(before, fs.numDirEntries, c.files, name);
    after := c;
    var file := fs.Open(name);
    if file == null {
      return false, c;
    }
    WriteData(file, data, position);
    WriteHolds(before, fs.disk.sectors, fs.numDirEntries, name, c.files, file.Bytes());
    return true, c.(files := c.files[Key(name) := file.Bytes()]);
  }

  method WriteData(file: OpenFile, data: seq<Byte>, position: nat)
    requires file.Valid()
    modifies file.disk
    ensures file.Valid() && |file.disk.sectors| == old(|file.disk.sectors|)
    ensures file.Bytes() == Written(old(file.Bytes()), data, position)
    ensures forall x :: 0 <= x < |file.disk.sectors| && x !in Used(file.hdr) ==>
              file.disk.sectors[x] == old(file.disk.sectors[x])
  {
    var buf := new Byte[|data|](i requires 0 <= i < |data| => data[i]);
    assert buf[..] == data;
    var count := file.WriteAt(buf, buf.Length, position);
    assert buf[..count] == Clipped(data, |old(file.Bytes())|, position);
  }

  method Serve(fs: FileSystem, q: Request, ghost c: Catalog) returns (reply: Reply, ghost after: Catalog)
    requires fs.Valid() && Stores(fs.disk.sectors, fs.numDirEntries, c) && IsName(q.name)
    requires q.ToCreate? ==> StaysInHeader(CreateStoresAt(fs.Volume(), q.name, q.size))
    modifies fs.disk
    ensures fs.Valid() && Stores(fs.disk.sectors, fs.numDirEntries, after) && Effect(c, q, reply, after)
  {
    after := c;
    var ok, bytes := false, [];
    match q {
      case ToCreate(name, size) => ok, after := CreateFile(fs, name, size, c);
      case ToRemove(name) => ok, after := RemoveFile(fs, name, c);
      case ToWrite(name, data, position) => ok, after := WriteFile(fs, name, data, position, c);
      case ToRead(name, numBytes, position) => ok, bytes := ReadFile(fs, name, numBytes, position, c.files);
    }
    reply := Reply(ok, bytes);
  }

  /** One more call of a session. */
  method ServeNext(fs: FileSystem, requests: seq<Request>, i: nat, replies: seq<Reply>, ghost states: seq<Catalog>)
    returns (more: seq<Reply>, ghost now: seq<Catalog>)
    requires fs.Valid() && i < |requests| && Proper(requests[i]) && IsSession(states, requests[..i], replies)
    requires Stores(fs.disk.sectors, fs.numDirEntries, states[i])
    modifies fs.disk
    ensures fs.Valid() && IsSession(now, requests[..i + 1], more) && now[0] == states[0]
    ensures Stores(fs.disk.sectors, fs.numDirEntries, now[i + 1])
  {
    SizeFits(fs.Volume(), requests[i]);
    ghost var after: Catalog;
    var reply: Reply;
    reply, after := Serve(fs, requests[i], states[i]);
    SessionGoesOn(states, requests, i, replies, reply, after);
    more, now := replies + [reply], states + [after];
  }

  /** Any calls with proper names and sizes are a session on the catalog that the disk stores. */
  method ServeAll(fs: FileSystem, requests: seq<Request>, ghost c: Catalog)
    returns (replies: seq<Reply>, ghost states: seq<Catalog>)
    requires fs.Valid() && Stores(fs.disk.sectors, fs.numDirEntries, c)
    requires forall i :: 0 <= i < |requests| ==> Proper(requests[i])
    modifies fs.disk
    ensures IsSession(states, requests, replies) && states[0] == c
    ensures fs.Valid() && Stores(fs.disk.sectors, fs.numDirEntries, states[|requests|])
  {
    replies, states := [], [c];
    var i := 0;
    while i < |requests|
      invariant 0 <= i <= |requests| && fs.Valid() && IsSession(states, requests[..i], replies) && states[0] == c
      invariant Stores(fs.disk.sectors, fs.numDirEntries, states[i])
    {
      replies, states := ServeNext(fs, requests, i, replies, states);
      i := i + 1;
    }
    assert requests[..i] == requests;
  }

  /** And on a formatted disk the catalog begins empty. */
  method Session(disk: SynchDisk, numDirEntries: nat, requests: seq<Request>)
    returns (replies: seq<Reply>, ghost states: seq<Catalog>)
    requires Whole(disk.sectors) && RoomForSystem(|disk.sectors|, numDirEntries)
    requires forall i :: 0 <= i < |requests| ==> Proper(requests[i])
    modifies disk
    ensures IsSession(states, requests, replies) && states[0] == EmptyCatalog(old(|disk.sectors|), numDirEntries)
    ensures StoreOk(disk.sectors, numDirEntries) && Stores(disk.sectors, numDirEntries, states[|requests|])
  {
    var fs := new FileSystem(disk, numDirEntries, true);
    FormattedStores(disk.sectors, numDirEntries);
    replies, states := ServeAll(fs, requests, EmptyCatalog(|disk.sectors|, numDirEntries));
  }

  /** The name ends where a C string ends, and a new file is not larger than a header has room for. */
  predicate Proper(q: Request) {
    IsName(q.name) && (q.ToCreate? ==> q.size <= MAX_FILE_SIZE)
  }

  lemma SizeFits(v: Volume, q: Request)
    requires VolumeOk(v) && Proper(q)
    ensures q.ToCreate? ==> StaysInHeader(CreateStoresAt(v, q.name, q.size))
  {
    if q.ToCreate? {
      CreateStaysIff(v, q.name, q.size);
    }
  }

  lemma SessionGoesOn(
    states: seq<Catalog>, requests: seq<Request>, i: nat, replies: seq<Reply>, reply: Reply, after: Catalog)
    requires i < |requests| && IsSession(states, requests[..i], replies)
    requires Effect(states[i], requests[i], reply, after)
    ensures IsSession(states + [after], requests[..i + 1], replies + [reply])
  {
    var now, done, more := states + [after], requests[..i + 1], replies + [reply];
    forall k | 0 <= k < |done| ensures EffectAt(now, done, more, k) {
      if k < i {
        assert EffectAt(states, requests[..i], replies, k);
      }
    }
  }
}
