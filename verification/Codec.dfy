/**
 How the file system's in-memory structures lie in bytes: little-endian 32-bit words, file headers
 (filesys/filehdr.h), directory entries (filesys/directory.h) and bitmap words (filesys/pbitmap.cc).
*/
module Codec {
  import opened Common
  import opened SectorFiles

  function WordBytes(w: Word): (b: seq<Byte>)
    ensures |b| == 4
  {
    [w % 256, w / 256 % 256, w / 65536 % 256, w / 16777216]
  }

  function BytesWord(b: seq<Byte>): Word
    requires |b| == 4
  {
    (b[0] as int) + 256 * (b[1] as int) + 65536 * (b[2] as int) + 16777216 * (b[3] as int)
  }

  lemma WordRoundTrip(w: Word)
    ensures BytesWord(WordBytes(w)) == w
  {
    var q, r := w / 256, w / 65536;
    assert w == 256 * q + w % 256 && q == 256 * r + q % 256;
    assert r == 256 * (w / 16777216) + r % 256;
  }

  /** An array of words as bytes. */
  function EncodeWords(ws: seq<Word>): (b: seq<Byte>)
    ensures |b| == 4 * |ws|
  {
    seq(4 * |ws|, k requires 0 <= k < 4 * |ws| => WordBytes(ws[k / 4])[k % 4])
  }

  function DecodeWords(b: seq<Byte>): (ws: seq<Word>)
    ensures |ws| == |b| / 4
  {
    seq(|b| / 4, i requires 0 <= i < |b| / 4 => BytesWord(b[4 * i..4 * i + 4]))
  }

  lemma WordAt(ws: seq<Word>, i: nat)
    requires i < |ws|
    ensures EncodeWords(ws)[4 * i..4 * i + 4] == WordBytes(ws[i])
  {
  }

  lemma WordsRoundTrip(ws: seq<Word>)
    ensures DecodeWords(EncodeWords(ws)) == ws
  {
    forall i | 0 <= i < |ws| ensures DecodeWords(EncodeWords(ws))[i] == ws[i] {
      WordAt(ws, i);
      WordRoundTrip(ws[i]);
    }
  }

  lemma LowByte(w: int, low: Byte, rest: int)
    requires w == low + 256 * rest
    ensures w % 256 == low && w / 256 == rest
  {
  }

  lemma BytesRoundTrip(b: seq<Byte>)
    requires |b| == 4
    ensures WordBytes(BytesWord(b)) == b
  {
    var w: int := BytesWord(b);
    var x: int, y: int, z: int := b[1], b[2], b[3];
    LowByte(w, b[0], x + 256 * (y + 256 * z));
    LowByte(w / 256, x, y + 256 * z);
    LowByte(w / 256 / 256, y, z);
    assert w / 65536 == w / 256 / 256 && w / 16777216 == w / 65536 / 256;
  }

  /** Bytes that make whole words are determined by the words. */
  lemma WordsOfBytes(b: seq<Byte>)
    requires |b| % 4 == 0
    ensures EncodeWords(DecodeWords(b)) == b
  {
    forall k | 0 <= k < |b| ensures EncodeWords(DecodeWords(b))[k] == b[k] {
      var i := k / 4;
      BytesRoundTrip(b[4 * i..4 * i + 4]);
      assert b[4 * i..4 * i + 4][k % 4] == b[k];
    }
  }

  // ---------------------------------------------------------------- bitmap words

  function BitWords(b: seq<Byte>): (r: seq<bv32>)
    ensures |r| == |b| / 4
  {
    var ws := DecodeWords(b);
    seq(|ws|, i requires 0 <= i < |ws| => ws[i] as bv32)
  }

  function BitBytes(m: seq<bv32>): (b: seq<Byte>)
    ensures |b| == 4 * |m|
  {
    EncodeWords(seq(|m|, i requires 0 <= i < |m| => m[i] as int))
  }

  lemma BitsRoundTrip(m: seq<bv32>)
    ensures BitWords(BitBytes(m)) == m
  {
    WordsRoundTrip(seq(|m|, i requires 0 <= i < |m| => m[i] as int));
  }

  /** Word i of an array lies low byte first. */
  lemma WordLies(ws: seq<Word>, i: nat)
    requires i < |ws|
    ensures var b, at := EncodeWords(ws), 4 * i;
            ws[i] as int ==
              (b[at] as int) + 256 * (b[at + 1] as int) + 65536 * (b[at + 2] as int) + 16777216 * (b[at + 3] as int)
  {
    WordAt(ws, i);
    WordRoundTrip(ws[i]);
    var b, w := EncodeWords(ws), EncodeWords(ws)[4 * i..4 * i + 4];
    assert w[0] == b[4 * i] && w[1] == b[4 * i + 1] && w[2] == b[4 * i + 2] && w[3] == b[4 * i + 3];
  }

  /** pbitmap.cc: so does a word of a bitmap. */
  lemma BitWordLies(m: seq<bv32>, i: nat)
    requires i < |m|
    ensures var b, at := BitBytes(m), 4 * i;
            m[i] as int ==
              (b[at] as int) + 256 * (b[at + 1] as int) + 65536 * (b[at + 2] as int) + 16777216 * (b[at + 3] as int)
  {
    WordLies(seq(|m|, k requires 0 <= k < |m| => m[k] as int), i);
  }

  // ---------------------------------------------------------------- file headers

  function HeaderWords(h: FileHeader): (ws: seq<Word>)
    requires |h.dataSectors| == NUM_DIRECT
    ensures |ws| == NUM_DIRECT + 2
  {
    [Unsigned(h.numBytes), Unsigned(h.numSectors)]
    + seq(NUM_DIRECT, i requires 0 <= i < NUM_DIRECT => Unsigned(h.dataSectors[i]))
  }

  function EncodeHeader(h: FileHeader): (b: seq<Byte>)
    requires |h.dataSectors| == NUM_DIRECT
    ensures |b| == SECTOR_SIZE
  {
    EncodeWords(HeaderWords(h))
  }

  function HeaderOfWords(ws: seq<Word>): (h: FileHeader)
    requires |ws| == NUM_DIRECT + 2
    ensures |h.dataSectors| == NUM_DIRECT
  {
    FileHeader(Signed(ws[0]), Signed(ws[1]), seq(NUM_DIRECT, i requires 0 <= i < NUM_DIRECT => Signed(ws[i + 2])))
  }

  function DecodeHeader(b: seq<Byte>): (h: FileHeader)
    requires |b| == SECTOR_SIZE
    ensures |h.dataSectors| == NUM_DIRECT
  {
    HeaderOfWords(DecodeWords(b))
  }

  lemma HeaderRoundTrip(h: FileHeader)
    requires |h.dataSectors| == NUM_DIRECT
    ensures DecodeHeader(EncodeHeader(h)) == h
  {
    WordsRoundTrip(HeaderWords(h));
    assert HeaderOfWords(HeaderWords(h)).dataSectors == h.dataSectors;
  }

  // ---------------------------------------------------------------- directory entries

  /** directory.h: FileNameMaxLen */
  const NAME_MAX := 9

  /** sizeof(DirectoryEntry): the flag and padding, the sector, ten bytes of name and padding. */
  const ENTRY_SIZE := 20

  datatype Entry = Entry(inUse: bool, sector: Int32, name: seq<Byte>)

  predicate EntryOk(e: Entry) {
    |e.name| == NAME_MAX + 1
  }

  function EncodeEntry(e: Entry): (b: seq<Byte>)
    requires EntryOk(e)
    ensures |b| == ENTRY_SIZE
  {
    [if e.inUse then 1 else 0, 0, 0, 0] + WordBytes(Unsigned(e.sector)) + e.name + [0, 0]
  }

  function DecodeEntry(b: seq<Byte>): (e: Entry)
    requires |b| == ENTRY_SIZE
    ensures EntryOk(e)
  {
    Entry(b[0] != 0, Signed(BytesWord(b[4..8])), b[8..18])
  }

  lemma EntryRoundTrip(e: Entry)
    requires EntryOk(e)
    ensures DecodeEntry(EncodeEntry(e)) == e
  {
    var b := EncodeEntry(e);
    assert b[4..8] == WordBytes(Unsigned(e.sector));
    WordRoundTrip(Unsigned(e.sector));
    assert b[8..18] == e.name;
  }

  predicate DirOk(dir: seq<Entry>) {
    forall i :: 0 <= i < |dir| ==> EntryOk(dir[i])
  }

  function EncodeDir(dir: seq<Entry>): (b: seq<Byte>)
    requires DirOk(dir)
    ensures |b| == ENTRY_SIZE * |dir|
  {
    seq(ENTRY_SIZE * |dir|, k requires 0 <= k < ENTRY_SIZE * |dir| => EncodeEntry(dir[k / ENTRY_SIZE])[k % ENTRY_SIZE])
  }

  function DecodeDir(b: seq<Byte>, size: nat): (dir: seq<Entry>)
    requires |b| == ENTRY_SIZE * size
    ensures |dir| == size && DirOk(dir)
  {
    seq(size, i requires 0 <= i < size => DecodeEntry(b[ENTRY_SIZE * i..ENTRY_SIZE * i + ENTRY_SIZE]))
  }

  lemma EntryAt(dir: seq<Entry>, i: nat)
    requires DirOk(dir) && i < |dir|
    ensures EncodeDir(dir)[ENTRY_SIZE * i..ENTRY_SIZE * i + ENTRY_SIZE] == EncodeEntry(dir[i])
  {
    var b, at := EncodeDir(dir), ENTRY_SIZE * i;
    forall j | 0 <= j < ENTRY_SIZE ensures b[at + j] == EncodeEntry(dir[i])[j] {
      assert (at + j) / ENTRY_SIZE == i && (at + j) % ENTRY_SIZE == j;
    }
  }

  lemma DirRoundTrip(dir: seq<Entry>)
    requires DirOk(dir)
    ensures DecodeDir(EncodeDir(dir), |dir|) == dir
  {
    forall i | 0 <= i < |dir| ensures DecodeDir(EncodeDir(dir), |dir|)[i] == dir[i] {
      EntryAt(dir, i);
      EntryRoundTrip(dir[i]);
    }
  }

  // ---------------------------------------------------------------- what the bytes mean

  /** The int that lies at a place in memory or in a file: low byte first, in two's complement. */
  function IntAt(b: seq<Byte>, at: nat): (v: int)
    requires at + 4 <= |b|
  {
    var u := (b[at] as int) + 256 * (b[at + 1] as int) + 65536 * (b[at + 2] as int) + 16777216 * (b[at + 3] as int);
    if b[at + 3] >= 128 then u - 4294967296 else u
  }

  lemma WordMeans(b: seq<Byte>, i: nat)
    requires 4 * i + 4 <= |b|
    ensures i < |DecodeWords(b)| && Signed(DecodeWords(b)[i]) == IntAt(b, 4 * i)
  {
    var w := b[4 * i..4 * i + 4];
    assert w[0] == b[4 * i] && w[1] == b[4 * i + 1] && w[2] == b[4 * i + 2] && w[3] == b[4 * i + 3];
  }

  /** filehdr.h: numBytes, numSectors, and the numbers of the data sectors. */
  lemma HeaderMeans(b: seq<Byte>)
    requires |b| == SECTOR_SIZE
    ensures var h := DecodeHeader(b);
            && h.numBytes == IntAt(b, 0) && h.numSectors == IntAt(b, 4)
            && forall i :: 0 <= i < NUM_DIRECT ==> h.dataSectors[i] == IntAt(b, 8 + 4 * i)
  {
    WordMeans(b, 0);
    WordMeans(b, 1);
    forall i | 0 <= i < NUM_DIRECT ensures DecodeHeader(b).dataSectors[i] == IntAt(b, 8 + 4 * i) {
      WordMeans(b, i + 2);
    }
  }

  /** And so a header is written. */
  lemma HeaderLies(h: FileHeader)
    requires |h.dataSectors| == NUM_DIRECT
    ensures var b := EncodeHeader(h);
            && IntAt(b, 0) == h.numBytes && IntAt(b, 4) == h.numSectors
            && forall i :: 0 <= i < NUM_DIRECT ==> IntAt(b, 8 + 4 * i) == h.dataSectors[i]
  {
    HeaderRoundTrip(h);
    HeaderMeans(EncodeHeader(h));
  }

  /** directory.h: the flag, the sector behind three bytes of padding, and the ten bytes of the name. */
  lemma EntryMeans(b: seq<Byte>)
    requires |b| == ENTRY_SIZE
    ensures var e := DecodeEntry(b);
            && (e.inUse <==> b[0] != 0) && e.sector == IntAt(b, 4)
            && forall i :: 0 <= i < 10 ==> e.name[i] == b[8 + i]
  {
    WordMeans(b, 1);
    assert b[4..8] == b[4 * 1..4 * 1 + 4];
  }

  lemma EntryLies(e: Entry)
    requires EntryOk(e)
    ensures var b := EncodeEntry(e);
            && b[0] == (if e.inUse then 1 else 0) && IntAt(b, 4) == e.sector
            && forall i :: 0 <= i < 10 ==> b[8 + i] == e.name[i]
  {
    EntryRoundTrip(e);
    EntryMeans(EncodeEntry(e));
  }

  /** Entry i of a directory begins at byte 20 * i of its file. */
  lemma DirMeans(b: seq<Byte>, size: nat, i: nat)
    requires |b| == ENTRY_SIZE * size && i < size
    ensures var e, at := DecodeDir(b, size)[i], 20 * i;
            && (e.inUse <==> b[at] != 0) && e.sector == IntAt(b, at + 4)
            && forall k :: 0 <= k < 10 ==> e.name[k] == b[at + 8 + k]
  {
    EntryMeans(b[20 * i..20 * i + 20]);
  }
}
