/**
 The Android sparse format written out as an encoder, and what both expanders make of
 every encoded image.
 */
module SparseFormat {
  import opened Bytes
  import opened Wrappers
  import opened Sparse

  /** A chunk as the format has it: counted in blocks. */
  datatype FormatChunk =
    | RawBlocks(data: Bytes, count: nat)
    | FillBlocks(pat: Bytes, count: nat)
    | DontCareBlocks(count: nat)
    | CrcBlocks(crc: Bytes, count: nat)

  /** What a file header says besides the counts; both header sizes may leave room for more fields. */
  datatype Format = Format(minor: nat, headerSize: nat, chunkHeaderSize: nat, blockSize: nat, checksum: Bytes)

  predicate IsFormat(f: Format) {
    && f.minor < 0x1_0000 && 28 <= f.headerSize < 0x1_0000
    && (f.chunkHeaderSize == 12 || f.chunkHeaderSize == 16)
    && f.blockSize < 0x1_0000_0000 && f.blockSize % 4 == 0 && |f.checksum| == 4
  }

  predicate IsChunk(f: Format, c: FormatChunk) {
    && c.count < 0x1_0000_0000
    && (c.RawBlocks? ==> |c.data| == c.count * f.blockSize)
    && (c.FillBlocks? ==> |c.pat| == 4)
    && (c.CrcBlocks? ==> |c.crc| == 4)
  }

  predicate AreChunks(f: Format, cs: seq<FormatChunk>) {
    forall i | 0 <= i < |cs| :: IsChunk(f, cs[i])
  }

  function Kind(c: FormatChunk): nat {
    match c
    case RawBlocks(_, _) => 0xCAC1
    case FillBlocks(_, _) => 0xCAC2
    case DontCareBlocks(_) => 0xCAC3
    case CrcBlocks(_, _) => 0xCAC4
  }

  function Payload(c: FormatChunk): Bytes {
    match c
    case RawBlocks(data, _) => data
    case FillBlocks(pat, _) => pat
    case DontCareBlocks(_) => []
    case CrcBlocks(crc, _) => crc
  }

  /** chunk_type, reserved, chunk_sz, total_sz, and whatever a longer header has. */
  function ChunkHeader(f: Format, c: FormatChunk): Bytes
    requires IsFormat(f)
  {
    Le(Kind(c), 2) + Le(0, 2) + Le(c.count, 4) + Le(f.chunkHeaderSize + |Payload(c)|, 4)
    + Zeros(f.chunkHeaderSize - 12)
  }

  function EncodeChunk(f: Format, c: FormatChunk): Bytes
    requires IsFormat(f)
  {
    ChunkHeader(f, c) + Payload(c)
  }

  function EncodeChunks(f: Format, cs: seq<FormatChunk>): Bytes
    requires IsFormat(f)
  {
    if cs == [] then [] else EncodeChunk(f, cs[0]) + EncodeChunks(f, cs[1..])
  }

  function TotalBlocks(cs: seq<FormatChunk>): nat {
    if cs == [] then 0 else cs[0].count + TotalBlocks(cs[1..])
  }

  /** magic, version, header sizes, blk_sz, total_blks, total_chunks, image_checksum. */
  function FileHeader(f: Format, blocks: nat, chunks: nat): Bytes
    requires IsFormat(f)
  {
    Le(0xED26FF3A, 4) + Le(1, 2) + Le(f.minor, 2) + Le(f.headerSize, 2) + Le(f.chunkHeaderSize, 2)
    + Le(f.blockSize, 4) + Le(blocks, 4) + Le(chunks, 4) + f.checksum + Zeros(f.headerSize - 28)
  }

  function EncodeImage(f: Format, cs: seq<FormatChunk>): Bytes
    requires IsFormat(f)
  {
    FileHeader(f, TotalBlocks(cs), |cs|) + EncodeChunks(f, cs)
  }

  predicate Encodable(f: Format, cs: seq<FormatChunk>) {
    IsFormat(f) && AreChunks(f, cs) && TotalBlocks(cs) < 0x1_0000_0000 && |cs| < 0x1_0000_0000
  }

  /** The bytes a chunk stands for. */
  function Blocks(f: Format, c: FormatChunk): Bytes
    requires IsChunk(f, c)
  {
    match c
    case RawBlocks(data, _) => data
    case FillBlocks(pat, count) => seq(count * f.blockSize, i requires i >= 0 => pat[i % 4])
    case DontCareBlocks(count) => Zeros(count * f.blockSize)
    case CrcBlocks(_, count) => Zeros(count * f.blockSize)
  }

  function AllBlocks(f: Format, cs: seq<FormatChunk>): Bytes
    requires AreChunks(f, cs)
  {
    if cs == [] then [] else Blocks(f, cs[0]) + AllBlocks(f, cs[1..])
  }

  // ---------------------------------------------------------------------
  // Encoded images are images
  // ---------------------------------------------------------------------

  /** The chunk as the expanders see it. */
  function Seen(f: Format, c: FormatChunk): Chunk {
    match c
    case RawBlocks(data, _) => RawChunk(data)
    case FillBlocks(pat, count) => FillChunk(pat, count * f.blockSize)
    case DontCareBlocks(count) => DontCareChunk(count * f.blockSize)
    case CrcBlocks(_, count) => CrcChunk(count * f.blockSize)
  }

  function SeenAll(f: Format, cs: seq<FormatChunk>): (r: seq<Chunk>)
    ensures |r| == |cs|
  {
    if cs == [] then [] else [Seen(f, cs[0])] + SeenAll(f, cs[1..])
  }

  lemma ReadsNumber(v: nat, k: nat)
    requires (k == 2 && v < 0x1_0000) || (k == 4 && v < 0x1_0000_0000)
    ensures UnLe(Le(v, k)) == v
  {
    Powers();
    UnLeOfLe(v, k);
  }

  /** The pieces of a header, wherever it stands. */
  lemma HeaderPieces(data: Bytes, f: Format, blocks: nat, chunks: nat)
    requires IsFormat(f) && At(data, 0, FileHeader(f, blocks, chunks))
    ensures |FileHeader(f, blocks, chunks)| == f.headerSize <= |data| && 28 <= f.headerSize
    ensures At(data, 0, Le(0xED26FF3A, 4)) && At(data, 4, Le(1, 2))
    ensures At(data, 8, Le(f.headerSize, 2)) && At(data, 10, Le(f.chunkHeaderSize, 2))
    ensures At(data, 12, Le(f.blockSize, 4)) && At(data, 16, Le(blocks, 4)) && At(data, 20, Le(chunks, 4))
  {
    var six := Le(0xED26FF3A, 4) + Le(1, 2);
    var eight := six + Le(f.minor, 2);
    var ten := eight + Le(f.headerSize, 2);
    var twelve := ten + Le(f.chunkHeaderSize, 2);
    var sixteen := twelve + Le(f.blockSize, 4);
    var twenty := sixteen + Le(blocks, 4);
    var most := twenty + Le(chunks, 4);
    assert FileHeader(f, blocks, chunks) == most + f.checksum + Zeros(f.headerSize - 28);
    AtFits(data, 0, FileHeader(f, blocks, chunks));
    hide Le, At, Zeros, FileHeader;
    AtSplit(data, 0, most + f.checksum, Zeros(f.headerSize - 28));
    AtSplit(data, 0, most, f.checksum);
    AtSplit(data, 0, twenty, Le(chunks, 4));
    AtSplit(data, 0, sixteen, Le(blocks, 4));
    AtSplit(data, 0, twelve, Le(f.blockSize, 4));
    AtSplit(data, 0, ten, Le(f.chunkHeaderSize, 2));
    AtSplit(data, 0, eight, Le(f.headerSize, 2));
    AtSplit(data, 0, six, Le(f.minor, 2));
    AtSplit(data, 0, Le(0xED26FF3A, 4), Le(1, 2));
  }

  lemma AtFits(data: Bytes, i: nat, piece: Bytes)
    requires At(data, i, piece)
    ensures i + |piece| <= |data|
  {
  }

  lemma FieldReads(data: Bytes, at: nat, v: nat, k: nat)
    requires (k == 2 && v < 0x1_0000) || (k == 4 && v < 0x1_0000_0000)
    requires At(data, at, Le(v, k))
    ensures at + k <= |data| && UnLe(data[at..at + k]) == v
  {
    ReadsNumber(v, k);
    hide Le, UnLe;
  }

  lemma HeaderReads(f: Format, blocks: nat, chunks: nat, rest: Bytes)
    requires IsFormat(f) && blocks < 0x1_0000_0000 && chunks < 0x1_0000_0000
    ensures var data := FileHeader(f, blocks, chunks) + rest;
            && |FileHeader(f, blocks, chunks)| == f.headerSize && HasMagic(data)
            && ReadHeader(data) == Header(1, f.headerSize, f.chunkHeaderSize, f.blockSize, blocks, chunks)
  {
    var header := FileHeader(f, blocks, chunks);
    var data := header + rest;
    AtFront(header, rest);
    HeaderPieces(data, f, blocks, chunks);
    hide Le, UnLe, FileHeader, At;
    FieldReads(data, 0, 0xED26FF3A, 4);
    FieldReads(data, 4, 1, 2);
    FieldReads(data, 8, f.headerSize, 2);
    FieldReads(data, 10, f.chunkHeaderSize, 2);
    FieldReads(data, 12, f.blockSize, 4);
    FieldReads(data, 16, blocks, 4);
    FieldReads(data, 20, chunks, 4);
  }

  lemma AtFront(piece: Bytes, rest: Bytes)
    ensures At(piece + rest, 0, piece)
  {
  }

  lemma ChunkHeaderFields(f: Format, c: FormatChunk)
    requires IsFormat(f)
    ensures var header := ChunkHeader(f, c);
            && |header| == f.chunkHeaderSize && header[0..2] == Le(Kind(c), 2) && header[4..8] == Le(c.count, 4)
  {
    hide Le, Kind, Payload;
    var front := Le(Kind(c), 2) + Le(0, 2) + Le(c.count, 4);
    assert front[0..2] == Le(Kind(c), 2) && front[4..8] == Le(c.count, 4);
    assert ChunkHeader(f, c)[..8] == front;
  }

  lemma ChunkHeaderReads(data: Bytes, pos: nat, f: Format, c: FormatChunk)
    requires IsFormat(f) && IsChunk(f, c) && At(data, pos, ChunkHeader(f, c))
    ensures |ChunkHeader(f, c)| == f.chunkHeaderSize && pos + f.chunkHeaderSize <= |data|
    ensures UnLe(data[pos..pos + 2]) == Kind(c) && UnLe(data[pos + 4..pos + 8]) == c.count
  {
    var header := ChunkHeader(f, c);
    ChunkHeaderFields(f, c);
    ReadsNumber(Kind(c), 2);
    ReadsNumber(c.count, 4);
    hide Le, UnLe, ChunkHeader, Kind;
    AtSub(data, pos, header, 0, 2);
    AtSub(data, pos, header, 4, 8);
  }

  lemma ChunkReads(data: Bytes, pos: nat, f: Format, c: FormatChunk, h: Header)
    requires IsFormat(f) && IsChunk(f, c) && At(data, pos, EncodeChunk(f, c))
    requires h.chunkHeaderSize == f.chunkHeaderSize && h.blockSize == f.blockSize
    ensures ParseChunk(data, h, pos) == Some((Seen(f, c), pos + |EncodeChunk(f, c)|))
  {
    var p := pos + f.chunkHeaderSize;
    AtSplit(data, pos, ChunkHeader(f, c), Payload(c));
    ChunkHeaderReads(data, pos, f, c);
    hide UnLe, ChunkHeader;
    assert data[p..p + |Payload(c)|] == Payload(c);
    assert Times(c.count, f.blockSize) == c.count * f.blockSize;
    hide Times;
  }

  lemma {:induction false} ChunksRead(data: Bytes, pos: nat, f: Format, cs: seq<FormatChunk>, h: Header)
    requires IsFormat(f) && AreChunks(f, cs) && At(data, pos, EncodeChunks(f, cs))
    requires h.chunkHeaderSize == f.chunkHeaderSize && h.blockSize == f.blockSize
    ensures ParseChunks(data, h, pos, |cs|) == Some(SeenAll(f, cs))
    decreases |cs|
  {
    hide *;
    if cs == [] {
      NothingParsed(data, h, pos, f);
    } else {
      var first := EncodeChunk(f, cs[0]);
      FirstEncoded(f, cs);
      AtSplit(data, pos, first, EncodeChunks(f, cs[1..]));
      ChunkReads(data, pos, f, cs[0], h);
      ChunksRead(data, pos + |first|, f, cs[1..], h);
      FirstParsed(data, h, pos, |cs|);
    }
  }

  lemma NothingParsed(data: Bytes, h: Header, pos: nat, f: Format)
    ensures ParseChunks(data, h, pos, 0) == Some(SeenAll(f, []))
  {
  }

  lemma FirstEncoded(f: Format, cs: seq<FormatChunk>)
    requires IsFormat(f) && cs != [] && AreChunks(f, cs)
    ensures IsChunk(f, cs[0]) && AreChunks(f, cs[1..])
    ensures EncodeChunks(f, cs) == EncodeChunk(f, cs[0]) + EncodeChunks(f, cs[1..])
    ensures SeenAll(f, cs) == [Seen(f, cs[0])] + SeenAll(f, cs[1..])
  {
    hide IsFormat, IsChunk, EncodeChunk, Seen;
  }

  lemma FirstParsed(data: Bytes, h: Header, pos: nat, left: nat)
    requires left > 0 && ParseChunk(data, h, pos).Some?
    requires ParseChunks(data, h, ParseChunk(data, h, pos).value.1, left - 1).Some?
    ensures (var (c, next) := ParseChunk(data, h, pos).value;
             ParseChunks(data, h, pos, left) == Some([c] + ParseChunks(data, h, next, left - 1).value))
  {
    hide ParseChunk;
  }

  lemma WholeFours(count: nat, size: nat)
    requires size % 4 == 0
    ensures count * size % 4 == 0
  {
    assert count * size == 4 * (count * (size / 4));
  }

  lemma {:induction false} RepeatAt(pat: Bytes, m: nat, i: nat)
    requires |pat| == 4 && i < 4 * m
    ensures |Repeat(pat, m)| == 4 * m && Repeat(pat, m)[i] == pat[i % 4]
    decreases m
  {
    RepeatLength(pat, m);
    if i >= 4 {
      RepeatAt(pat, m - 1, i - 4);
      FourBack(i);
      assert Repeat(pat, m) == pat + Repeat(pat, m - 1);
      hide Repeat;
    }
  }

  lemma FourBack(i: nat)
    requires i >= 4
    ensures (i - 4) % 4 == i % 4
  {
  }

  /** A pattern repeated is the pattern at every fourth byte. */
  lemma FillIsPeriodic(pat: Bytes, n: nat)
    requires |pat| == 4 && n % 4 == 0
    ensures Repeat(pat, n / 4) == seq(n, i requires i >= 0 => pat[i % 4])
  {
    RepeatLength(pat, n / 4);
    hide Repeat;
    forall i | 0 <= i < n
      ensures Repeat(pat, n / 4)[i] == pat[i % 4]
    {
      RepeatAt(pat, n / 4, i);
    }
  }

  lemma SeenMeans(f: Format, c: FormatChunk)
    requires IsFormat(f) && IsChunk(f, c)
    ensures InMemory(Seen(f, c)) == Blocks(f, c) && WellFormed(Seen(f, c))
    ensures |Blocks(f, c)| == c.count * f.blockSize
  {
    WholeFours(c.count, f.blockSize);
    if c.FillBlocks? {
      hide Repeat;
      FillIsPeriodic(c.pat, c.count * f.blockSize);
    }
  }

  lemma SumTimes(a: nat, b: nat, size: nat)
    ensures (a + b) * size == a * size + b * size
  {
  }

  lemma {:induction false} SeenAllMean(f: Format, cs: seq<FormatChunk>)
    requires IsFormat(f) && AreChunks(f, cs)
    ensures InMemoryAll(SeenAll(f, cs)) == AllBlocks(f, cs) && AllWellFormed(SeenAll(f, cs))
    ensures |AllBlocks(f, cs)| == TotalBlocks(cs) * f.blockSize
  {
    if cs != [] {
      hide IsChunk, Seen, Blocks, InMemory, WellFormed, IsFormat;
      SeenMeans(f, cs[0]);
      SeenAllMean(f, cs[1..]);
      SumTimes(cs[0].count, TotalBlocks(cs[1..]), f.blockSize);
      assert ([Seen(f, cs[0])] + SeenAll(f, cs[1..]))[1..] == SeenAll(f, cs[1..]);
    }
  }

  lemma EncodedIsImage(f: Format, cs: seq<FormatChunk>)
    requires Encodable(f, cs)
    ensures IsImage(EncodeImage(f, cs), SeenAll(f, cs))
  {
    var header, data := FileHeader(f, TotalBlocks(cs), |cs|), EncodeImage(f, cs);
    hide FileHeader, EncodeChunks, ParseChunks, AllWellFormed, InMemoryAll, HasMagic, ReadHeader, AreChunks, Times;
    HeaderReads(f, TotalBlocks(cs), |cs|, EncodeChunks(f, cs));
    AtMiddle(header, EncodeChunks(f, cs), []);
    assert header + EncodeChunks(f, cs) + [] == data;
    ChunksRead(data, |header|, f, cs, ReadHeader(data));
    SeenAllMean(f, cs);
    TimesIs(TotalBlocks(cs), f.blockSize);
  }

  lemma TimesIs(a: nat, b: nat)
    ensures Times(a, b) == a * b
  {
  }

  /** Nothing but zeros follows a CRC chunk that claims blocks. */
  predicate Undisturbed(f: Format, cs: seq<FormatChunk>)
    requires AreChunks(f, cs)
  {
    forall i, j | 0 <= i < j < |cs| && cs[i].CrcBlocks? && cs[i].count * f.blockSize > 0 ::
      AllZero(Blocks(f, cs[j]))
  }

  lemma {:induction false} SeenAt(f: Format, cs: seq<FormatChunk>, i: nat)
    requires i < |cs|
    ensures SeenAll(f, cs)[i] == Seen(f, cs[i])
  {
    hide Seen;
    if i > 0 {
      SeenAt(f, cs[1..], i - 1);
    }
  }

  lemma UndisturbedIsQuiet(f: Format, cs: seq<FormatChunk>)
    requires IsFormat(f) && AreChunks(f, cs)
    ensures Undisturbed(f, cs) <==> QuietAfterCrc(SeenAll(f, cs))
  {
    hide InMemory, Blocks, AllZero, SeenAll, IsFormat;
    forall i | 0 <= i < |cs|
      ensures SeenAll(f, cs)[i] == Seen(f, cs[i]) && InMemory(Seen(f, cs[i])) == Blocks(f, cs[i])
    {
      SeenAt(f, cs, i);
      SeenMeans(f, cs[i]);
    }
  }

  lemma EncodableIs(f: Format, cs: seq<FormatChunk>)
    requires Encodable(f, cs)
    ensures IsFormat(f) && AreChunks(f, cs)
  {
  }

  /**
   Both expanders on every encoded image: in memory it becomes the blocks of its
   chunks, byte for byte; and so it does when streamed into a new file, if and only if
   nothing but zeros follows a CRC chunk that claims blocks.
   */
  lemma ImageRoundTrip(f: Format, cs: seq<FormatChunk>)
    requires Encodable(f, cs)
    ensures UnsparseSpec(EncodeImage(f, cs)) == Some(AllBlocks(f, cs))
    ensures |AllBlocks(f, cs)| == TotalBlocks(cs) * f.blockSize
    ensures ToFileSpec(EncodeImage(f, cs), []) == Some(AllBlocks(f, cs)) <==> Undisturbed(f, cs)
  {
    hide *;
    EncodableIs(f, cs);
    EncodedIsImage(f, cs);
    SeenAllMean(f, cs);
    UndisturbedIsQuiet(f, cs);
    ExpandersAgree(EncodeImage(f, cs), SeenAll(f, cs));
  }

  // ---------------------------------------------------------------------
  // Streaming into a file that exists
  // ---------------------------------------------------------------------

  /** Chunks the streaming expander seeks over. */
  predicate IsHole(c: FormatChunk) {
    c.DontCareBlocks? || (c.FillBlocks? && c.pat == [0, 0, 0, 0])
  }

  predicate NoCrc(cs: seq<FormatChunk>) {
    forall i | 0 <= i < |cs| :: !cs[i].CrcBlocks?
  }

  /** Which bytes of the image are not written. */
  function Holes(f: Format, cs: seq<FormatChunk>): seq<bool>
    requires AreChunks(f, cs)
  {
    if cs == [] then []
    else seq(|Blocks(f, cs[0])|, i requires i >= 0 => IsHole(cs[0])) + Holes(f, cs[1..])
  }

  lemma SeenIsMasked(f: Format, c: FormatChunk)
    requires IsFormat(f) && IsChunk(f, c) && !c.CrcBlocks?
    ensures |Mask(Streamed(Seen(f, c)))| == |Blocks(f, c)|
    ensures forall i | 0 <= i < |Blocks(f, c)| :: Mask(Streamed(Seen(f, c)))[i] == !IsHole(c)
  {
    SeenMeans(f, c);
    ChunkAgrees(Seen(f, c));
    hide Blocks, InMemory, Repeat;
  }

  lemma MaskHead(f: Format, cs: seq<FormatChunk>)
    requires AreChunks(f, cs) && cs != []
    ensures MaskAll(SeenAll(f, cs)) == Mask(Streamed(Seen(f, cs[0]))) + MaskAll(SeenAll(f, cs[1..]))
  {
    hide Seen, Streamed, Mask;
    assert ([Seen(f, cs[0])] + SeenAll(f, cs[1..]))[1..] == SeenAll(f, cs[1..]);
  }

  lemma {:induction false} HolesAreMasked(f: Format, cs: seq<FormatChunk>)
    requires IsFormat(f) && AreChunks(f, cs) && NoCrc(cs)
    ensures |Holes(f, cs)| == |MaskAll(SeenAll(f, cs))| == |AllBlocks(f, cs)|
    ensures forall i | 0 <= i < |Holes(f, cs)| :: MaskAll(SeenAll(f, cs))[i] == !Holes(f, cs)[i]
  {
    if cs != [] {
      hide IsChunk, IsFormat, Seen, Blocks, IsHole, Streamed, Mask, SeenAll, MaskAll;
      MaskHead(f, cs);
      SeenIsMasked(f, cs[0]);
      HolesAreMasked(f, cs[1..]);
    } else {
      assert SeenAll(f, cs) == [];
    }
  }

  /** Into a file that exists, an image without CRC chunks comes out if and only if the holes fall on zeros. */
  lemma ImageOntoFile(f: Format, cs: seq<FormatChunk>, before: Bytes)
    requires Encodable(f, cs) && NoCrc(cs)
    ensures (ToFileSpec(EncodeImage(f, cs), before) == Some(AllBlocks(f, cs))
        <==> forall i | 0 <= i < |Holes(f, cs)| && i < |before| :: Holes(f, cs)[i] ==> before[i] == 0)
  {
    var seen := SeenAll(f, cs);
    hide Encodable, AreChunks, NoCrc, SeenAll, EncodeImage, AllBlocks, Holes, MaskAll, ImageAll, ToFileSpec,
         UnsparseSpec, IsImage, CrcFree, StandsRight, HoldsTheRest, InMemoryAll, AllWellFormed;
    EncodableIs(f, cs);
    EncodedIsImage(f, cs);
    SeenAllMean(f, cs);
    HolesAreMasked(f, cs);
    NoCrcIsFree(f, cs);
    ImageRoundTrip(f, cs);
    ExpandersAgreeOnExistingFile(EncodeImage(f, cs), seen, before);
  }

  lemma NoCrcIsFree(f: Format, cs: seq<FormatChunk>)
    requires NoCrc(cs)
    ensures CrcFree(SeenAll(f, cs))
  {
    hide SeenAll;
    forall i | 0 <= i < |cs|
      ensures !SeenAll(f, cs)[i].CrcChunk?
    {
      SeenAt(f, cs, i);
    }
  }
}
