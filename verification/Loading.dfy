/**
 userprog/addrspace.cc, the data side of AddrSpace::Load: what the page-by-page copy puts where, against
 one flat copy of the program.
*/
module Loading {
  import opened Common
  import opened Bitmaps
  import opened Codec
  import opened Paging

  /** noff.h */
  const NOFF_MAGIC := 0xbadfad

  /** addrspace.h: UserStackSize */
  const USER_STACK_SIZE := 1024

  datatype Segment = Segment(virtualAddr: Int32, inFileAddr: Int32, size: Int32)

  datatype NoffHeader = NoffHeader(noffMagic: Int32, code: Segment, initData: Segment, uninitData: Segment)

  const NOFF_HEADER_SIZE := 40

  /** The ten words of a header. */
  function NoffWords(h: NoffHeader): (ws: seq<Word>)
    ensures |ws| == 10
  {
    [ Unsigned(h.noffMagic),
      Unsigned(h.code.virtualAddr), Unsigned(h.code.inFileAddr), Unsigned(h.code.size),
      Unsigned(h.initData.virtualAddr), Unsigned(h.initData.inFileAddr), Unsigned(h.initData.size),
      Unsigned(h.uninitData.virtualAddr), Unsigned(h.uninitData.inFileAddr), Unsigned(h.uninitData.size)]
  }

  function NoffOfWords(ws: seq<Word>): NoffHeader
    requires |ws| == 10
  {
    NoffHeader(
      Signed(ws[0]),
      Segment(Signed(ws[1]), Signed(ws[2]), Signed(ws[3])),
      Segment(Signed(ws[4]), Signed(ws[5]), Signed(ws[6])),
      Segment(Signed(ws[7]), Signed(ws[8]), Signed(ws[9])))
  }

  lemma NoffOfWordsIff(h: NoffHeader, ws: seq<Word>)
    requires |ws| == 10
    ensures NoffOfWords(ws) == h <==> ws == NoffWords(h)
  {
    assert ws == [ws[0], ws[1], ws[2], ws[3], ws[4], ws[5], ws[6], ws[7], ws[8], ws[9]];
  }

  /** The header as it lies at the start of the file. */
  function DecodeNoff(b: seq<Byte>): NoffHeader
    requires |b| == NOFF_HEADER_SIZE
  {
    NoffOfWords(DecodeWords(b))
  }

  function EncodeNoff(h: NoffHeader): (b: seq<Byte>)
    ensures |b| == NOFF_HEADER_SIZE
  {
    EncodeWords(NoffWords(h))
  }

  /** The header that a file carries. */
  function HeaderOf(file: seq<Byte>): NoffHeader
    requires |file| >= NOFF_HEADER_SIZE
  {
    DecodeNoff(file[..NOFF_HEADER_SIZE])
  }

  /** noff.h: the magic number, then virtualAddr, inFileAddr and size of the three segments, in this order. */
  lemma NoffMeans(file: seq<Byte>)
    requires |file| >= NOFF_HEADER_SIZE
    ensures var h := HeaderOf(file);
            && h.noffMagic == IntAt(file, 0)
            && h.code.virtualAddr == IntAt(file, 4) && h.code.inFileAddr == IntAt(file, 8)
            && h.code.size == IntAt(file, 12)
            && h.initData.virtualAddr == IntAt(file, 16) && h.initData.inFileAddr == IntAt(file, 20)
            && h.initData.size == IntAt(file, 24)
            && h.uninitData.virtualAddr == IntAt(file, 28) && h.uninitData.inFileAddr == IntAt(file, 32)
            && h.uninitData.size == IntAt(file, 36)
  {
    var b := file[..NOFF_HEADER_SIZE];
    forall i | 0 <= i < 10 ensures Signed(DecodeWords(b)[i]) == IntAt(file, 4 * i) {
      WordMeans(b, i);
    }
  }

  /** The files that carry a header are those that begin with its bytes. */
  lemma CarriesIff(h: NoffHeader, file: seq<Byte>)
    requires |file| >= NOFF_HEADER_SIZE
    ensures HeaderOf(file) == h <==> file[..NOFF_HEADER_SIZE] == EncodeNoff(h)
  {
    WordsOfBytes(file[..NOFF_HEADER_SIZE]);
    WordsRoundTrip(NoffWords(h));
    NoffOfWordsIff(h, DecodeWords(file[..NOFF_HEADER_SIZE]));
  }

  lemma CarriedByte(h: NoffHeader, file: seq<Byte>, p: nat)
    requires |file| >= NOFF_HEADER_SIZE && HeaderOf(file) == h && p < NOFF_HEADER_SIZE
    ensures file[p] == EncodeNoff(h)[p]
  {
    CarriesIff(h, file);
    assert file[p] == file[..NOFF_HEADER_SIZE][p];
  }

  /** What Load relies on: sizes and places are not negative, and the code begins at virtual address 0. */
  predicate NoffOk(h: NoffHeader) {
    && h.noffMagic == NOFF_MAGIC
    && h.code.size >= 0 && h.initData.size >= 0 && h.uninitData.size >= 0
    && h.code.inFileAddr >= 0 && h.initData.inFileAddr >= 0
    && h.code.virtualAddr == 0
  }

  function PagesFor(h: NoffHeader): (n: nat)
    requires NoffOk(h)
    ensures 128 * (n - 1) < h.code.size + h.initData.size + h.uninitData.size + 1024 <= 128 * n
  {
    var size := (h.code.size as int) + (h.initData.size as int) + (h.uninitData.size as int) + USER_STACK_SIZE;
    DivRoundUp(size, PAGE_SIZE)
  }

  /** A byte of the file; a read that begins or goes on behind its end leaves zeros in memory. */
  function FileByte(file: seq<Byte>, position: nat): Byte {
    if position < |file| then file[position] else 0
  }

  // ---------------------------------------------------------------- the flat image

  /** One flat load into zeroed memory: code, then initialised data, at the addresses that the header names. */
  function FlatByte(h: NoffHeader, file: seq<Byte>, v: nat): Byte
    requires NoffOk(h)
  {
    if h.initData.virtualAddr <= v < h.initData.virtualAddr + h.initData.size
    then FileByte(file, h.initData.inFileAddr + (v - h.initData.virtualAddr))
    else if h.code.virtualAddr <= v < h.code.virtualAddr + h.code.size
    then FileByte(file, h.code.inFileAddr + (v - h.code.virtualAddr))
    else 0
  }

  /** The initialised data follow the code. */
  predicate Contiguous(h: NoffHeader) {
    h.initData.virtualAddr == h.code.virtualAddr + h.code.size
  }

  // ---------------------------------------------------------------- the arithmetic of Load

  /** Whole pages, and what is left for the last of them. */
  lemma PagesAndRest(size: nat)
    requires size > 0
    ensures DivRoundUp(size, PAGE_SIZE) > 0 && 0 < TruncMod(size - 1, PAGE_SIZE) + 1 <= PAGE_SIZE
    ensures (DivRoundUp(size, PAGE_SIZE) - 1) * PAGE_SIZE + TruncMod(size - 1, PAGE_SIZE) + 1 == size
  {
  }

  function NumCodePage(h: NoffHeader): (n: nat)
    requires NoffOk(h)
  {
    DivRoundUp(h.code.size, PAGE_SIZE)
  }

  function LastCodePageSize(h: NoffHeader): (n: nat)
    requires NoffOk(h)
    ensures n <= PAGE_SIZE && (n == 0 <==> h.code.size == 0)
    ensures h.code.size > 0 ==> NumCodePage(h) > 0 && (NumCodePage(h) - 1) * PAGE_SIZE + n == h.code.size
  {
    if h.code.size > 0 then PagesAndRest(h.code.size); TruncMod(h.code.size - 1, PAGE_SIZE) + 1
    else TruncMod(h.code.size - 1, PAGE_SIZE) + 1
  }

  function FirstDataPageSize(h: NoffHeader): (n: nat)
    requires NoffOk(h)
    ensures n <= PAGE_SIZE && n <= h.initData.size
  {
    Min(PAGE_SIZE - LastCodePageSize(h), h.initData.size)
  }

  /** The data behind the last code page. */
  function RestOfData(h: NoffHeader): nat
    requires NoffOk(h)
  {
    h.initData.size - FirstDataPageSize(h)
  }

  function NumDataPage(h: NoffHeader): (n: nat)
    requires NoffOk(h)
    ensures n == 0 <==> RestOfData(h) == 0
  {
    DivRoundUp(RestOfData(h), PAGE_SIZE)
  }

  function LastDataPageSize(h: NoffHeader): (n: nat)
    requires NoffOk(h)
    ensures NumDataPage(h) > 0 ==> 0 < n <= PAGE_SIZE && (NumDataPage(h) - 1) * PAGE_SIZE + n == RestOfData(h)
  {
    if RestOfData(h) > 0 then PagesAndRest(RestOfData(h)); TruncMod(RestOfData(h) - 1, PAGE_SIZE) + 1
    else TruncMod(RestOfData(h) - 1, PAGE_SIZE) + 1
  }

  /** The pages that are copied are among those that are allocated. */
  lemma CopiedPagesExist(h: NoffHeader)
    requires NoffOk(h)
    ensures NumCodePage(h) + NumDataPage(h) <= PagesFor(h)
  {
  }

  // ---------------------------------------------------------------- what Load leaves at an address

  /** Where the data pages begin. */
  function DataStart(h: NoffHeader): nat
    requires NoffOk(h)
  {
    NumCodePage(h) * PAGE_SIZE
  }

  /** The byte that the page-by-page copy leaves at a virtual address. */
  function LoadedByte(h: NoffHeader, file: seq<Byte>, v: nat): Byte
    requires NoffOk(h)
  {
    var first := FirstDataPageSize(h);
    if v < h.code.size then FileByte(file, h.code.inFileAddr + v)
    else if v < DataStart(h) then
      (if v - h.code.size < first then FileByte(file, h.initData.inFileAddr + (v - h.code.size)) else 0)
    else if v - DataStart(h) < h.initData.size - first
    then FileByte(file, h.initData.inFileAddr + first + (v - DataStart(h)))
    else 0
  }

  /** Where the data are loaded. Without code the page that they share with the code is not copied: before address 0. */
  function LoadedAt(h: NoffHeader): int
    requires NoffOk(h)
  {
    if h.code.size > 0 then h.code.size else -(FirstDataPageSize(h) as int)
  }

  /** Byte i of the data; 0 where there are none. */
  function DataByte(h: NoffHeader, file: seq<Byte>, i: int): Byte
    requires NoffOk(h)
  {
    if 0 <= i < h.initData.size then FileByte(file, h.initData.inFileAddr + i) else 0
  }

  /** Behind the code, the loader puts the data at one address where the header may name another. */
  lemma DataByteAt(h: NoffHeader, file: seq<Byte>, v: nat)
    requires NoffOk(h) && v >= h.code.size
    ensures LoadedByte(h, file, v) == DataByte(h, file, v - LoadedAt(h))
    ensures FlatByte(h, file, v) == DataByte(h, file, v - h.initData.virtualAddr)
  {
  }

  /** Some data lie behind the header in the file. */
  predicate DataBehindHeader(h: NoffHeader) {
    h.initData.size > 0 && h.initData.inFileAddr + h.initData.size > NOFF_HEADER_SIZE
  }

  /** The same byte of the header b is loaded at address v behind the code as in the flat image, or none in both. */
  predicate SameBehind(h: NoffHeader, b: seq<Byte>, v: int)
    requires NoffOk(h)
  {
    DataByte(h, b, v - LoadedAt(h)) == DataByte(h, b, v - h.initData.virtualAddr)
  }

  /** The code at address v, which the data cover in the flat image, is a byte of the header, too, and the same one. */
  predicate SameUnder(h: NoffHeader, b: seq<Byte>, v: nat)
    requires NoffOk(h) && |b| == NOFF_HEADER_SIZE
  {
    && h.code.inFileAddr + v < NOFF_HEADER_SIZE
    && b[h.code.inFileAddr + v] == DataByte(h, b, v - h.initData.virtualAddr)
  }

  predicate Covered(h: NoffHeader, v: nat) {
    h.initData.virtualAddr <= v < h.initData.virtualAddr + h.initData.size && v < h.code.size
  }

  /** The data are bytes of the header b itself, and these happen to be the same where they are loaded. */
  predicate HeaderDataMatch(h: NoffHeader, b: seq<Byte>)
    requires NoffOk(h) && |b| == NOFF_HEADER_SIZE
  {
    var last := if LoadedAt(h) > h.initData.virtualAddr then LoadedAt(h) else h.initData.virtualAddr;
    && (forall v {:trigger SameBehind(h, b, v)} :: h.code.size <= v < last + h.initData.size ==> SameBehind(h, b, v))
    && (forall v: nat {:trigger SameUnder(h, b, v)} :: v < h.code.size && Covered(h, v) ==> SameUnder(h, b, v))
  }

  /**
   There are no data, or they are to lie where they are loaded. Otherwise, if some of them lie behind the
   header, both images must leave them out; and if all are in the header, its bytes decide.
  */
  predicate DataLandRight(h: NoffHeader)
    requires NoffOk(h)
  {
    || h.initData.size == 0
    || h.initData.virtualAddr == LoadedAt(h)
    || if DataBehindHeader(h)
       then h.code.size == 0 && h.initData.size <= PAGE_SIZE && h.initData.virtualAddr + h.initData.size <= 0
       else HeaderDataMatch(h, EncodeNoff(h))
  }

  predicate Carries(file: seq<Byte>, h: NoffHeader) {
    |file| >= NOFF_HEADER_SIZE && HeaderOf(file) == h
  }

  /** Data in the header are the same in every file that carries it. */
  lemma CarriedData(h: NoffHeader, file: seq<Byte>, i: int)
    requires NoffOk(h) && Carries(file, h) && !DataBehindHeader(h)
    ensures DataByte(h, file, i) == DataByte(h, EncodeNoff(h), i)
  {
    if 0 <= i < h.initData.size {
      CarriedByte(h, file, h.initData.inFileAddr + i);
    }
  }

  ghost predicate SameData(h: NoffHeader, b: seq<Byte>, file: seq<Byte>)
    requires NoffOk(h)
  {
    forall i {:trigger DataByte(h, file, i)} :: DataByte(h, file, i) == DataByte(h, b, i)
  }

  /** Further behind there are no data in either image. */
  lemma MatchesBehind(h: NoffHeader, b: seq<Byte>, v: nat)
    requires NoffOk(h) && |b| == NOFF_HEADER_SIZE && HeaderDataMatch(h, b) && v >= h.code.size
    ensures SameBehind(h, b, v)
  {
  }

  lemma CoveredByte(h: NoffHeader, file: seq<Byte>, v: nat)
    requires NoffOk(h) && Covered(h, v)
    ensures LoadedByte(h, file, v) == FileByte(file, h.code.inFileAddr + v)
    ensures FlatByte(h, file, v) == DataByte(h, file, v - h.initData.virtualAddr)
  {
  }

  lemma LandsBehind(h: NoffHeader, b: seq<Byte>, file: seq<Byte>, v: nat)
    requires NoffOk(h) && |b| == NOFF_HEADER_SIZE && HeaderDataMatch(h, b) && SameData(h, b, file) && v >= h.code.size
    ensures LoadedByte(h, file, v) == FlatByte(h, file, v)
  {
    MatchesBehind(h, b, v);
    DataByteAt(h, file, v);
  }

  lemma HeaderDataLand(h: NoffHeader, b: seq<Byte>, file: seq<Byte>, v: nat)
    requires NoffOk(h) && |b| == NOFF_HEADER_SIZE && HeaderDataMatch(h, b) && SameData(h, b, file)
    requires |file| >= NOFF_HEADER_SIZE && b == file[..NOFF_HEADER_SIZE]
    ensures LoadedByte(h, file, v) == FlatByte(h, file, v)
  {
    if v >= h.code.size {
      LandsBehind(h, b, file, v);
    } else if Covered(h, v) {
      assert SameUnder(h, b, v);
      CoveredByte(h, file, v);
    }
  }

  /** Then the loader's pages are the flat image, also when the last page of code is shared with data. */
  lemma LoadsFlatImage(h: NoffHeader, file: seq<Byte>, v: nat)
    requires NoffOk(h) && DataLandRight(h) && Carries(file, h)
    ensures LoadedByte(h, file, v) == FlatByte(h, file, v)
  {
    if h.initData.size > 0 && h.initData.virtualAddr != LoadedAt(h) && !DataBehindHeader(h) {
      CarriesIff(h, file);
      forall i ensures DataByte(h, file, i) == DataByte(h, EncodeNoff(h), i) {
        CarriedData(h, file, i);
      }
      HeaderDataLand(h, EncodeNoff(h), file, v);
    } else if v >= h.code.size {
      DataByteAt(h, file, v);
    }
  }

  /** A file with the header, and behind it zeros up to a last byte x at position p. */
  function FileWith(h: NoffHeader, p: nat, x: Byte): (file: seq<Byte>)
    requires p >= NOFF_HEADER_SIZE
    ensures |file| == p + 1
  {
    EncodeNoff(h) + seq(p - NOFF_HEADER_SIZE, _ => 0) + [x]
  }

  lemma FileWithBytes(h: NoffHeader, p: nat, x: Byte, q: nat)
    requires p >= NOFF_HEADER_SIZE
    ensures FileByte(FileWith(h, p, x), q) == if q == p then x else if q < NOFF_HEADER_SIZE then EncodeNoff(h)[q] else 0
  {
  }

  lemma FileWithCarries(h: NoffHeader, p: nat, x: Byte)
    requires p >= NOFF_HEADER_SIZE
    ensures Carries(FileWith(h, p, x), h)
  {
    CarriesIff(h, FileWith(h, p, x));
    assert FileWith(h, p, x)[..NOFF_HEADER_SIZE] == EncodeNoff(h);
  }

  /** Where the last byte of data is in the file. */
  function LastData(h: NoffHeader): nat
    requires NoffOk(h) && DataBehindHeader(h)
  {
    h.initData.inFileAddr + h.initData.size - 1
  }

  /**
   Without code but with data behind the header, the last byte of the data is lost, with the page before
   it. It is a byte of the program's pages, unless the header puts it somewhere else than behind the code.
  */
  lemma FirstDataPageLost(h: NoffHeader)
    requires NoffOk(h) && h.code.size == 0 && DataBehindHeader(h) && h.initData.virtualAddr >= 0
    ensures var v, file := h.initData.virtualAddr + h.initData.size - 1, FileWith(h, LastData(h), 1);
            && Carries(file, h) && LoadedByte(h, file, v) == 0 && FlatByte(h, file, v) == 1
            && (Contiguous(h) ==> v < PagesFor(h) * PAGE_SIZE)
  {
    FileWithCarries(h, LastData(h), 1);
  }

  /** Where the last byte of data is loaded. */
  function LastLoaded(h: NoffHeader): int
    requires NoffOk(h)
  {
    LoadedAt(h) + h.initData.size - 1
  }

  lemma LastIsLoaded(h: NoffHeader)
    requires NoffOk(h) && h.initData.size > 0 && (h.code.size > 0 || h.initData.size > PAGE_SIZE)
    ensures h.code.size <= LastLoaded(h) < PagesFor(h) * PAGE_SIZE
  {
  }

  lemma LastLoadedByte(h: NoffHeader, file: seq<Byte>)
    requires NoffOk(h) && LastLoaded(h) >= h.code.size
    ensures LoadedByte(h, file, LastLoaded(h)) == DataByte(h, file, h.initData.size - 1)
    ensures FlatByte(h, file, LastLoaded(h)) == DataByte(h, file, LastLoaded(h) - h.initData.virtualAddr)
  {
    DataByteAt(h, file, LastLoaded(h));
  }

  /** A byte, not 0, that the header does not have in the place of byte i of the data. */
  function Unlike(h: NoffHeader, i: int): (x: Byte)
    requires NoffOk(h)
    ensures x != 0
  {
    var p := h.initData.inFileAddr + i;
    if 0 <= p < NOFF_HEADER_SIZE && EncodeNoff(h)[p] == 1 then 2 else 1
  }

  lemma OtherDataDiffer(h: NoffHeader, i: int)
    requires NoffOk(h) && DataBehindHeader(h) && i != h.initData.size - 1
    ensures var x := Unlike(h, i);
            && DataByte(h, FileWith(h, LastData(h), x), i) != x
            && DataByte(h, FileWith(h, LastData(h), x), h.initData.size - 1) == x
  {
    var x := Unlike(h, i);
    FileWithBytes(h, LastData(h), x, LastData(h));
    if 0 <= i < h.initData.size {
      FileWithBytes(h, LastData(h), x, h.initData.inFileAddr + i);
    }
  }

  lemma LastByteWrong(h: NoffHeader) returns (x: Byte)
    requires NoffOk(h) && DataBehindHeader(h) && h.initData.virtualAddr != LoadedAt(h)
    requires LastLoaded(h) >= h.code.size
    ensures var v, file := LastLoaded(h), FileWith(h, LastData(h), x);
            Carries(file, h) && LoadedByte(h, file, v) == x && FlatByte(h, file, v) != x
  {
    var i := LastLoaded(h) - h.initData.virtualAddr;
    x := Unlike(h, i);
    FileWithCarries(h, LastData(h), x);
    LastLoadedByte(h, FileWith(h, LastData(h), x));
    OtherDataDiffer(h, i);
  }

  /** Data that are loaded, but not where the header puts them: the last byte lands in the wrong place. */
  lemma DataMisplaced(h: NoffHeader) returns (x: Byte)
    requires NoffOk(h) && DataBehindHeader(h) && h.initData.virtualAddr != LoadedAt(h)
    requires h.code.size > 0 || h.initData.size > PAGE_SIZE
    ensures h.code.size <= LastLoaded(h) < PagesFor(h) * PAGE_SIZE
    ensures var v, file := LastLoaded(h), FileWith(h, LastData(h), x);
            Carries(file, h) && LoadedByte(h, file, v) == x && FlatByte(h, file, v) != x
  {
    LastIsLoaded(h);
    x := LastByteWrong(h);
  }

  /** The loader is right about every file that carries this header; an address behind its pages counts as 0. */
  ghost predicate RightAboutAll(h: NoffHeader)
    requires NoffOk(h)
  {
    forall file: seq<Byte>, v: nat :: Carries(file, h) ==> LoadedByte(h, file, v) == FlatByte(h, file, v)
  }

  lemma HeaderCarries(h: NoffHeader)
    ensures Carries(EncodeNoff(h), h)
  {
    CarriesIff(h, EncodeNoff(h));
    assert EncodeNoff(h)[..NOFF_HEADER_SIZE] == EncodeNoff(h);
  }

  lemma DifferBehind(h: NoffHeader, v: nat)
    requires NoffOk(h) && v >= h.code.size && !SameBehind(h, EncodeNoff(h), v)
    ensures !RightAboutAll(h)
  {
    HeaderCarries(h);
    DataByteAt(h, EncodeNoff(h), v);
  }

  lemma DifferUnder(h: NoffHeader, v: nat)
    requires NoffOk(h) && !DataBehindHeader(h) && Covered(h, v) && !SameUnder(h, EncodeNoff(h), v)
    ensures !RightAboutAll(h)
  {
    var p, b := h.code.inFileAddr + v, DataByte(h, EncodeNoff(h), v - h.initData.virtualAddr);
    var file := EncodeNoff(h);
    if p < NOFF_HEADER_SIZE {
      HeaderCarries(h);
    } else {
      var x := if b == 1 then 2 else 1;
      file := FileWith(h, p, x);
      FileWithCarries(h, p, x);
      FileWithBytes(h, p, x, p);
      CarriedData(h, file, v - h.initData.virtualAddr);
    }
    CoveredByte(h, file, v);
  }

  lemma HeaderDataDiffer(h: NoffHeader)
    requires NoffOk(h) && !DataBehindHeader(h) && !HeaderDataMatch(h, EncodeNoff(h))
    ensures !RightAboutAll(h)
  {
    if v: nat :| v >= h.code.size && !SameBehind(h, EncodeNoff(h), v) {
      DifferBehind(h, v);
    } else {
      var v: nat :| Covered(h, v) && !SameUnder(h, EncodeNoff(h), v);
      DifferUnder(h, v);
    }
  }

  /** The loader is right about all files with a header exactly if the data land right: this the header decides. */
  lemma LoaderRightIff(h: NoffHeader)
    requires NoffOk(h)
    ensures RightAboutAll(h) <==> DataLandRight(h)
  {
    if DataLandRight(h) {
      forall file: seq<Byte>, v: nat | Carries(file, h) ensures LoadedByte(h, file, v) == FlatByte(h, file, v) {
        LoadsFlatImage(h, file, v);
      }
    } else if !DataBehindHeader(h) {
      HeaderDataDiffer(h);
    } else if h.code.size > 0 || h.initData.size > PAGE_SIZE {
      var x := DataMisplaced(h);
    } else {
      var file, v := FileWith(h, LastData(h), 1), h.initData.virtualAddr + h.initData.size - 1;
      FileWithCarries(h, LastData(h), 1);
      assert LoadedByte(h, file, v) == 0 && FlatByte(h, file, v) == 1;
    }
  }

  /** At an address, and not all in the header: there must be code, and the data follow it. */
  lemma LoaderRightAnywhereIff(h: NoffHeader)
    requires NoffOk(h) && h.initData.virtualAddr >= 0
    requires h.initData.size == 0 || DataBehindHeader(h)
    ensures RightAboutAll(h) <==> h.initData.size == 0 || (h.code.size > 0 && Contiguous(h))
  {
    LoaderRightIff(h);
  }

  /** What is loaded once i code pages have been read. */
  function CodeUpto(h: NoffHeader, i: nat): int
    requires NoffOk(h)
  {
    Min(i * PAGE_SIZE, h.code.size)
  }

  /** What is loaded once the data in the last code page, and then j data pages, have been read. */
  function DataUpto(h: NoffHeader, j: nat): (u: nat)
    requires NoffOk(h)
  {
    if j > 0 then DataStart(h) + Min(j * PAGE_SIZE, RestOfData(h))
    else if NumCodePage(h) > 0 then h.code.size + FirstDataPageSize(h)
    else 0
  }

  lemma CodePage(h: NoffHeader, file: seq<Byte>, i: nat)
    requires NoffOk(h) && i < NumCodePage(h)
    ensures var n := if i < NumCodePage(h) - 1 then PAGE_SIZE else LastCodePageSize(h);
            && n <= PAGE_SIZE && CodeUpto(h, i) == i * PAGE_SIZE && CodeUpto(h, i + 1) == i * PAGE_SIZE + n
            && forall v: nat :: i * PAGE_SIZE <= v < i * PAGE_SIZE + n ==>
                 LoadedByte(h, file, v) == FileByte(file, h.code.inFileAddr + i * PAGE_SIZE + (v - i * PAGE_SIZE))
  {
  }

  lemma SharedPage(h: NoffHeader, file: seq<Byte>)
    requires NoffOk(h) && NumCodePage(h) > 0
    ensures (NumCodePage(h) - 1) * PAGE_SIZE + LastCodePageSize(h) == h.code.size == CodeUpto(h, NumCodePage(h))
    ensures LastCodePageSize(h) + FirstDataPageSize(h) <= PAGE_SIZE
    ensures DataUpto(h, 0) == (NumCodePage(h) - 1) * PAGE_SIZE + LastCodePageSize(h) + FirstDataPageSize(h)
    ensures forall v: nat :: (NumCodePage(h) - 1) * PAGE_SIZE + LastCodePageSize(h) <= v
                             < (NumCodePage(h) - 1) * PAGE_SIZE + LastCodePageSize(h) + FirstDataPageSize(h) ==>
              LoadedByte(h, file, v) ==
                FileByte(file, h.initData.inFileAddr + (v - ((NumCodePage(h) - 1) * PAGE_SIZE + LastCodePageSize(h))))
  {
  }

  /** The last code page is full, or there is none. */
  lemma NoSharedPage(h: NoffHeader)
    requires NoffOk(h) && (LastCodePageSize(h) == PAGE_SIZE || NumCodePage(h) == 0)
    ensures DataUpto(h, 0) == CodeUpto(h, NumCodePage(h))
  {
  }

  lemma DataPage(h: NoffHeader, file: seq<Byte>, j: nat)
    requires NoffOk(h) && j < NumDataPage(h)
    ensures var n, p := if j < NumDataPage(h) - 1 then PAGE_SIZE else LastDataPageSize(h), NumCodePage(h) + j;
            && n <= PAGE_SIZE && DataUpto(h, j) <= p * PAGE_SIZE && DataUpto(h, j + 1) == p * PAGE_SIZE + n
            && (forall v: nat :: DataUpto(h, j) <= v < p * PAGE_SIZE ==> LoadedByte(h, file, v) == 0)
            && forall v: nat :: p * PAGE_SIZE <= v < p * PAGE_SIZE + n ==>
                 LoadedByte(h, file, v) ==
                   FileByte(file, h.initData.inFileAddr + FirstDataPageSize(h) + j * PAGE_SIZE + (v - p * PAGE_SIZE))
  {
  }

  // ---------------------------------------------------------------- one read after the other

  /** The read of Load that comes next: code page i, the data that share the last code page, data page j. */
  datatype Stage = CodeAt(i: nat) | SharedAt | DataAt(j: nat) | Complete

  /** A read of numBytes bytes from a place of the file into page p, from the offset on. */
  datatype Part = Part(p: nat, offset: nat, numBytes: nat, position: nat)

  predicate StageOk(h: NoffHeader, stage: Stage)
    requires NoffOk(h)
  {
    match stage
    case CodeAt(i) => i < NumCodePage(h)
    case SharedAt => h.initData.size > 0 && LastCodePageSize(h) != PAGE_SIZE && NumCodePage(h) > 0
    case DataAt(j) => h.initData.size > 0 && j < NumDataPage(h)
    case Complete => true
  }

  function FirstData(h: NoffHeader): (stage: Stage)
    requires NoffOk(h) && h.initData.size > 0
    ensures StageOk(h, stage)
  {
    if NumDataPage(h) > 0 then DataAt(0) else Complete
  }

  function AfterCode(h: NoffHeader): (stage: Stage)
    requires NoffOk(h)
    ensures StageOk(h, stage)
  {
    if h.initData.size == 0 then Complete
    else if LastCodePageSize(h) != PAGE_SIZE && NumCodePage(h) > 0 then SharedAt
    else FirstData(h)
  }

  function FirstStage(h: NoffHeader): (stage: Stage)
    requires NoffOk(h)
    ensures StageOk(h, stage)
  {
    if NumCodePage(h) > 0 then CodeAt(0) else AfterCode(h)
  }

  function NextStage(h: NoffHeader, stage: Stage): (next: Stage)
    requires NoffOk(h) && StageOk(h, stage)
    ensures StageOk(h, next)
  {
    match stage
    case CodeAt(i) => if i + 1 < NumCodePage(h) then CodeAt(i + 1) else AfterCode(h)
    case SharedAt => FirstData(h)
    case DataAt(j) => if j + 1 < NumDataPage(h) then DataAt(j + 1) else Complete
    case Complete => Complete
  }

  function PartAt(h: NoffHeader, stage: Stage): Part
    requires NoffOk(h) && StageOk(h, stage) && !stage.Complete?
  {
    match stage
    case CodeAt(i) =>
      Part(i, 0, if i < NumCodePage(h) - 1 then PAGE_SIZE else LastCodePageSize(h), h.code.inFileAddr + i * PAGE_SIZE)
    case SharedAt => Part(NumCodePage(h) - 1, LastCodePageSize(h), FirstDataPageSize(h), h.initData.inFileAddr)
    case DataAt(j) =>
      Part(NumCodePage(h) + j, 0, if j < NumDataPage(h) - 1 then PAGE_SIZE else LastDataPageSize(h),
           h.initData.inFileAddr + FirstDataPageSize(h) + j * PAGE_SIZE)
  }

  predicate IsPart(h: NoffHeader, stage: Stage, part: Part)
    requires NoffOk(h)
  {
    StageOk(h, stage) && !stage.Complete? && PartAt(h, stage) == part
  }

  /** The byte at a virtual address before this read. */
  function StageByte(h: NoffHeader, file: seq<Byte>, stage: Stage, v: nat): Byte
    requires NoffOk(h) && StageOk(h, stage)
  {
    match stage
    case CodeAt(i) => if v < CodeUpto(h, i) then LoadedByte(h, file, v) else 0
    case SharedAt => if v < CodeUpto(h, NumCodePage(h)) then LoadedByte(h, file, v) else 0
    case DataAt(j) => if v < DataUpto(h, j) then LoadedByte(h, file, v) else 0
    case Complete => LoadedByte(h, file, v)
  }

  /** The byte that a read leaves, where the end of the file leaves what was there. */
  function ByteRead(part: Part, file: seq<Byte>, v: nat, was: Byte): Byte {
    var o := v - part.p * PAGE_SIZE - part.offset;
    if 0 <= o < part.numBytes && part.position + o < |file| then file[part.position + o] else was
  }

  lemma FirstStageByte(h: NoffHeader, file: seq<Byte>, v: nat)
    requires NoffOk(h)
    ensures StageByte(h, file, FirstStage(h), v) == 0
  {
    if NumCodePage(h) == 0 {
      NoSharedPage(h);
    }
  }

  /** After the code: all that is loaded is the code. */
  lemma AfterCodeByte(h: NoffHeader, file: seq<Byte>, v: nat)
    requires NoffOk(h)
    ensures StageByte(h, file, AfterCode(h), v) == if v < h.code.size then LoadedByte(h, file, v) else 0
  {
  }

  lemma PartInside(h: NoffHeader, stage: Stage)
    requires NoffOk(h) && StageOk(h, stage) && !stage.Complete?
    ensures var part := PartAt(h, stage); part.offset + part.numBytes <= PAGE_SIZE && part.p < PagesFor(h)
  {
    CopiedPagesExist(h);
  }

  /** Each read takes what is loaded to the next stage, whatever part of it the file has. */
  lemma StageReads(h: NoffHeader, file: seq<Byte>, stage: Stage, v: nat)
    requires NoffOk(h) && StageOk(h, stage) && !stage.Complete?
    ensures StageByte(h, file, NextStage(h, stage), v) ==
              ByteRead(PartAt(h, stage), file, v, StageByte(h, file, stage, v))
  {
    match stage
    case CodeAt(i) =>
      CodePage(h, file, i);
      AfterCodeByte(h, file, v);
    case SharedAt =>
      SharedPage(h, file);
    case DataAt(j) =>
      DataPage(h, file, j);
  }

  // ---------------------------------------------------------------- frames

  function IndexOf(frames: seq<nat>, f: nat): (i: nat)
    requires f in frames
    ensures i < |frames| && frames[i] == f
  {
    if frames[0] == f then 0 else 1 + IndexOf(frames[1..], f)
  }

  lemma IndexOfFrame(frames: seq<nat>, p: nat)
    requires Distinct(frames) && p < |frames|
    ensures frames[p] in frames && IndexOf(frames, frames[p]) == p
  {
  }

  /** Main memory with an image in the given frames, page by page. */
  function Loaded(orig: seq<Byte>, frames: seq<nat>, image: seq<Byte>): (r: seq<Byte>)
    requires |image| == |frames| * PAGE_SIZE
    ensures |r| == |orig|
  {
    seq(|orig|, a requires 0 <= a < |orig| =>
      if a / PAGE_SIZE in frames then image[IndexOf(frames, a / PAGE_SIZE) * PAGE_SIZE + a % PAGE_SIZE] else orig[a])
  }

  /** What Load has put below `upto` in n pages; the rest is zero. */
  function Image(h: NoffHeader, file: seq<Byte>, n: nat, upto: int): (r: seq<Byte>)
    requires NoffOk(h)
    ensures |r| == n * PAGE_SIZE
  {
    seq(n * PAGE_SIZE, v requires 0 <= v < n * PAGE_SIZE => if v < upto then LoadedByte(h, file, v) else 0)
  }

  /** Memory after a read of a file: fewer than numBytes bytes arrive at its end. */
  function ReadInto(memory: seq<Byte>, at: int, file: seq<Byte>, numBytes: nat, position: nat): (r: seq<Byte>)
    ensures |r| == |memory|
  {
    seq(|memory|, a requires 0 <= a < |memory| =>
      if at <= a < at + numBytes && position + (a - at) < |file| then file[position + (a - at)] else memory[a])
  }

  /** One read of Load extends what is loaded. */
  lemma PartCopied(
    h: NoffHeader, file: seq<Byte>, orig: seq<Byte>, frames: seq<nat>, before: seq<Byte>, after: seq<Byte>,
    upto: nat, p: nat, offset: nat, numBytes: nat, position: nat)
    requires NoffOk(h) && Distinct(frames) && p < |frames| && offset + numBytes <= PAGE_SIZE
    requires before == Loaded(orig, frames, Image(h, file, |frames|, upto)) && upto <= p * PAGE_SIZE + offset
    requires after == ReadInto(before, frames[p] * PAGE_SIZE + offset, file, numBytes, position)
    requires forall v: nat :: upto <= v < p * PAGE_SIZE + offset ==> LoadedByte(h, file, v) == 0
    requires forall v: nat :: p * PAGE_SIZE + offset <= v < p * PAGE_SIZE + offset + numBytes ==>
               LoadedByte(h, file, v) == FileByte(file, position + (v - (p * PAGE_SIZE + offset)))
    ensures after == Loaded(orig, frames, Image(h, file, |frames|, p * PAGE_SIZE + offset + numBytes))
  {
  }

  /** The page table that Load makes. */
  function NewTable(frames: seq<nat>): (r: seq<TranslationEntry>)
    ensures |r| == |frames|
  {
    seq(|frames|, i requires 0 <= i < |frames| => TranslationEntry(i, frames[i], true, false, false, false))
  }

  /** Through the page table, the scattered frames look like the one image. */
  lemma ReadsImage(orig: seq<Byte>, frames: seq<nat>, image: seq<Byte>, v: nat)
    requires |image| == |frames| * PAGE_SIZE && Distinct(frames) && v < |image|
    requires forall f :: f in frames ==> (f + 1) * PAGE_SIZE <= |orig|
    ensures v / PAGE_SIZE < |frames|
    ensures var a := Physical(NewTable(frames), v); 0 <= a < |orig| && Loaded(orig, frames, image)[a] == image[v]
  {
    var p, o := v / PAGE_SIZE, v % PAGE_SIZE;
    IndexOfFrame(frames, p);
    var a := frames[p] * PAGE_SIZE + o;
    assert a / PAGE_SIZE == frames[p] && a % PAGE_SIZE == o;
  }

  // ---------------------------------------------------------------- how many frames there are

  /**
   FindAndSet gives the lowest clear bits. When the bitmap has more bits than the machine has frames,
   Load stays inside main memory exactly if enough of the bits below the number of frames are clear.
  */
  lemma FramesExistIff(marked: set<nat>, bits: nat, numPhysPages: nat, k: nat)
    requires numPhysPages <= bits && k <= CountClear(marked, bits)
    ensures (forall f :: f in TakeClear(marked, bits, k) ==>
      f < numPhysPages) <==> k <= CountClear(marked, numPhysPages)
    decreases k
  {
    if k > 0 {
      TakeClearUnfolds(marked, bits, k);
      var f := FirstClear(marked, 0, bits);
      var rest := TakeClear(marked + {f}, bits, k - 1);
      assert forall x :: x in TakeClear(marked, bits, k) <==> x == f || x in rest;
      FramesExistIff(marked + {f}, bits, numPhysPages, k - 1);
      if f < numPhysPages {
        MarkLowersClear(marked, numPhysPages, f);
      } else {
        forall x: nat | x < numPhysPages ensures x in marked {
          FirstClearIsFirst(marked, 0, bits, x);
        }
        AllMarked(marked, numPhysPages);
        assert f in TakeClear(marked, bits, k);
      }
    }
  }

  /** kernel.cc makes a bitmap of 256 bits for 128 frames: with 120 pages taken, 9 more leave main memory. */
  lemma FramesMayNotExist()
    ensures 9 <= CountClear(Below(120), 256)
    ensures exists f :: f in TakeClear(Below(120), 256, 9) && f >= 128
  {
    CountBehind(120, 256);
    CountBehind(120, 128);
    FramesExistIff(Below(120), 256, 128, 9);
  }

  lemma {:induction false} CountBehind(m: nat, n: nat)
    requires m <= n
    ensures CountClear(Below(m), n) == n - m
    decreases n
  {
    if m < n {
      CountBehind(m, n - 1);
    } else {
      AllMarked(Below(m), n);
    }
  }
}
