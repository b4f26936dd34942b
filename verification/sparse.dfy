/**
 The two expanders of Android sparse images in tools/imgtools.py: `unsparse`
 builds the raw image in memory, `sparse_to_file` writes it into a file and skips
 the holes.
 */
module Sparse {
  import opened Bytes
  import opened Wrappers
  import opened DiskFile

  const SPARSE_MAGIC: nat := 0xED26FF3A
  const CHUNK_RAW: nat := 0xCAC1
  const CHUNK_FILL: nat := 0xCAC2
  const CHUNK_DONT_CARE: nat := 0xCAC3
  const CHUNK_CRC32: nat := 0xCAC4

  function Repeat(pat: Bytes, m: nat): Bytes {
    if m == 0 then [] else pat + Repeat(pat, m - 1)
  }

  lemma {:induction false} RepeatLength(pat: Bytes, m: nat)
    requires |pat| == 4
    ensures |Repeat(pat, m)| == 4 * m
  {
    if m > 0 {
      RepeatLength(pat, m - 1);
    }
  }

  lemma {:induction false} RepeatZero(pat: Bytes, m: nat)
    requires AllZero(pat)
    ensures AllZero(Repeat(pat, m))
  {
    if m > 0 {
      RepeatZero(pat, m - 1);
    }
  }

  // ---------------------------------------------------------------------
  // What the chunks of an image mean to each expander
  // ---------------------------------------------------------------------

  /** A chunk with its whole payload; `len` is its size in bytes of output. */
  datatype Chunk =
    | RawChunk(data: Bytes)
    | FillChunk(pat: Bytes, len: nat)
    | DontCareChunk(len: nat)
    | CrcChunk(len: nat)

  /** The sparse format: fill patterns are four bytes and fill whole multiples of four. */
  predicate WellFormed(c: Chunk) {
    c.FillChunk? ==> |c.pat| == 4 && c.len % 4 == 0
  }

  predicate AllWellFormed(cs: seq<Chunk>) {
    forall i | 0 <= i < |cs| :: WellFormed(cs[i])
  }

  /** What the in-memory expander appends. */
  function InMemory(c: Chunk): Bytes {
    match c
    case RawChunk(data) => data
    case FillChunk(pat, len) => Repeat(pat, len / 4)
    case DontCareChunk(len) => Zeros(len)
    case CrcChunk(len) => Zeros(len)
  }

  function InMemoryAll(cs: seq<Chunk>): Bytes {
    if cs == [] then [] else InMemory(cs[0]) + InMemoryAll(cs[1..])
  }

  datatype Piece = Data(bytes: Bytes) | Hole(len: nat)

  /** What the streaming expander does: write, or seek. A CRC32 chunk does neither. */
  function Streamed(c: Chunk): Piece {
    match c
    case RawChunk(data) => Data(data)
    case FillChunk(pat, len) => if pat == [0, 0, 0, 0] then Hole(len) else Data(Repeat(pat, len / 4))
    case DontCareChunk(len) => Hole(len)
    case CrcChunk(_) => Hole(0)
  }

  function ApplyPiece(p: Piece, c: Bytes, pos: nat): (Bytes, nat) {
    match p
    case Data(b) => (WriteAt(c, pos, b), pos + |b|)
    case Hole(len) => (c, pos + len)
  }

  function StreamAll(cs: seq<Chunk>, c: Bytes, pos: nat): (Bytes, nat) {
    if cs == [] then (c, pos)
    else
      var (c', pos') := ApplyPiece(Streamed(cs[0]), c, pos);
      StreamAll(cs[1..], c', pos')
  }

  /** The streamed image with zeros in its holes, and where it was written. */
  function Image(p: Piece): Bytes {
    match p case Data(b) => b case Hole(len) => Zeros(len)
  }

  function Mask(p: Piece): (m: seq<bool>)
    ensures |m| == |Image(p)|
  {
    seq(|Image(p)|, i => p.Data?)
  }

  function ImageAll(cs: seq<Chunk>): Bytes {
    if cs == [] then [] else Image(Streamed(cs[0])) + ImageAll(cs[1..])
  }

  function MaskAll(cs: seq<Chunk>): (m: seq<bool>)
    ensures |m| == |ImageAll(cs)|
  {
    if cs == [] then [] else Mask(Streamed(cs[0])) + MaskAll(cs[1..])
  }

  /** The image over what was there: written bytes come from the image, all others are the old ones. */
  function Overlaid(cs: seq<Chunk>, c: Bytes, pos: nat, i: nat): byte {
    if pos <= i < pos + |ImageAll(cs)| && MaskAll(cs)[i - pos] then ImageAll(cs)[i - pos] else ByteAt(c, i)
  }

  lemma OverlaidHead(cs: seq<Chunk>, c: Bytes, pos: nat, i: nat)
    requires cs != []
    ensures var p := Streamed(cs[0]);
            Overlaid(cs, c, pos, i) == Overlaid(cs[1..], Pieced(p, c, pos), pos + |Image(p)|, i)
  {
    hide WriteAt, ByteAt, Streamed;
    var p := Streamed(cs[0]);
    var n := |Image(p)|;
    assert ImageAll(cs) == Image(p) + ImageAll(cs[1..]) && MaskAll(cs) == Mask(p) + MaskAll(cs[1..]);
    hide ImageAll, MaskAll;
    if pos <= i < pos + n {
      assert ImageAll(cs)[i - pos] == Image(p)[i - pos] && MaskAll(cs)[i - pos] == p.Data?;
    } else if pos + n <= i < pos + |ImageAll(cs)| {
      assert ImageAll(cs)[i - pos] == ImageAll(cs[1..])[i - pos - n];
      assert MaskAll(cs)[i - pos] == MaskAll(cs[1..])[i - pos - n];
    }
  }

  /** What one piece leaves in the file. */
  function Pieced(p: Piece, c: Bytes, pos: nat): Bytes {
    if p.Data? then WriteAt(c, pos, p.bytes) else c
  }

  lemma StreamHead(cs: seq<Chunk>, c: Bytes, pos: nat)
    requires cs != []
    ensures var p := Streamed(cs[0]);
            StreamAll(cs, c, pos) == StreamAll(cs[1..], Pieced(p, c, pos), pos + |Image(p)|)
  {
    hide WriteAt, Streamed;
  }

  lemma StreamOfNothing(c: Bytes, pos: nat, i: nat)
    ensures StreamAll([], c, pos) == (c, pos) && Overlaid([], c, pos, i) == ByteAt(c, i)
  {
  }

  /** Streaming is an overlay. */
  lemma {:induction false} StreamIsOverlay(cs: seq<Chunk>, c: Bytes, pos: nat, i: nat)
    ensures ByteAt(StreamAll(cs, c, pos).0, i) == Overlaid(cs, c, pos, i)
    decreases |cs|
  {
    hide *;
    if cs == [] {
      StreamOfNothing(c, pos, i);
    } else {
      var p := Streamed(cs[0]);
      StreamHead(cs, c, pos);
      OverlaidHead(cs, c, pos, i);
      StreamIsOverlay(cs[1..], Pieced(p, c, pos), pos + |Image(p)|, i);
    }
  }

  lemma {:induction false} UnwrittenIsZero(cs: seq<Chunk>, i: nat)
    requires i < |ImageAll(cs)| && !MaskAll(cs)[i]
    ensures ImageAll(cs)[i] == 0
  {
    var n := |Image(Streamed(cs[0]))|;
    if i >= n {
      UnwrittenIsZero(cs[1..], i - n);
    }
  }

  // ---------------------------------------------------------------------
  // Without CRC32 chunks of positive size the two agree
  // ---------------------------------------------------------------------

  predicate CrcFree(cs: seq<Chunk>) {
    forall i | 0 <= i < |cs| :: cs[i].CrcChunk? ==> cs[i].len == 0
  }

  lemma ChunkAgrees(c: Chunk)
    requires WellFormed(c) && (c.CrcChunk? ==> c.len == 0)
    ensures Image(Streamed(c)) == InMemory(c)
  {
    if c.FillChunk? {
      RepeatLength(c.pat, c.len / 4);
      if c.pat == [0, 0, 0, 0] {
        RepeatZero(c.pat, c.len / 4);
        assert Zeros(c.len) == Repeat(c.pat, c.len / 4);
      }
    }
  }

  lemma {:induction false} ImageAgrees(cs: seq<Chunk>)
    requires AllWellFormed(cs) && CrcFree(cs)
    ensures ImageAll(cs) == InMemoryAll(cs)
  {
    if cs != [] {
      ChunkAgrees(cs[0]);
      ImageAgrees(cs[1..]);
    }
  }

  /** What `sparse_to_file` leaves in a destination that held `before`. */
  function FinalFile(cs: seq<Chunk>, before: Bytes, total: nat): Bytes {
    Resize(StreamAll(cs, before, 0).0, total)
  }

  /** The old content is zero wherever the image has a hole. */
  predicate CleanUnderHoles(cs: seq<Chunk>, before: Bytes) {
    forall i | 0 <= i < |ImageAll(cs)| :: MaskAll(cs)[i] || ByteAt(before, i) == 0
  }

  /**
   The destination theorem: with the chunk sizes summing to the total, the file
   ends equal to the in-memory expansion if and only if the destination held
   nothing under the holes.
   */
  lemma StreamingAgrees(cs: seq<Chunk>, before: Bytes, total: nat)
    requires AllWellFormed(cs) && CrcFree(cs) && |InMemoryAll(cs)| == total
    ensures FinalFile(cs, before, total) == InMemoryAll(cs) <==> CleanUnderHoles(cs, before)
  {
    ImageAgrees(cs);
    forall i: nat {
      StreamIsOverlay(cs, before, 0, i);
    }
    hide StreamAll, ImageAll, MaskAll, InMemoryAll, ByteAt;
    var final, image := FinalFile(cs, before, total), ImageAll(cs);
    assert |final| == |image|;
    if CleanUnderHoles(cs, before) {
      forall i | 0 <= i < total
        ensures final[i] == image[i]
      {
        if !MaskAll(cs)[i] {
          UnwrittenIsZero(cs, i);
        }
      }
    }
    if final == image {
      forall i | 0 <= i < total
        ensures MaskAll(cs)[i] || ByteAt(before, i) == 0
      {
        if !MaskAll(cs)[i] {
          UnwrittenIsZero(cs, i);
          assert final[i] == ByteAt(before, i);
        }
      }
    }
  }

  /** Every byte that streaming writes is the expansion's byte at that place. */
  predicate StandsRight(cs: seq<Chunk>) {
    && |ImageAll(cs)| <= |InMemoryAll(cs)|
    && forall i | 0 <= i < |ImageAll(cs)| :: MaskAll(cs)[i] ==> ImageAll(cs)[i] == InMemoryAll(cs)[i]
  }

  /** Everywhere else the old content already is the expansion. */
  predicate HoldsTheRest(cs: seq<Chunk>, before: Bytes) {
    forall i | 0 <= i < |InMemoryAll(cs)| ::
      (i < |ImageAll(cs)| && MaskAll(cs)[i]) || ByteAt(before, i) == InMemoryAll(cs)[i]
  }

  /** Any chunks, into any destination: the exact condition. */
  lemma StreamingAgreesExactly(cs: seq<Chunk>, before: Bytes, total: nat)
    requires AllWellFormed(cs) && |InMemoryAll(cs)| == total
    ensures FinalFile(cs, before, total) == InMemoryAll(cs) <==> StandsRight(cs) && HoldsTheRest(cs, before)
  {
    ImageIsNoLonger(cs);
    forall i: nat {
      StreamIsOverlay(cs, before, 0, i);
    }
    var final, all := FinalFile(cs, before, total), InMemoryAll(cs);
    assert forall i | 0 <= i < total :: final[i] == Overlaid(cs, before, 0, i);
    hide StreamAll, ImageAll, MaskAll, InMemoryAll, ByteAt, FinalFile;
    assert |final| == total by {
      FinalLength(cs, before, total);
    }
  }

  lemma FinalLength(cs: seq<Chunk>, before: Bytes, total: nat)
    ensures |FinalFile(cs, before, total)| == total
  {
  }

  lemma {:induction false} ImageIsNoLonger(cs: seq<Chunk>)
    requires AllWellFormed(cs)
    ensures |ImageAll(cs)| <= |InMemoryAll(cs)|
  {
    if cs != [] {
      ChunkKeptOrDropped(cs[0]);
      ImageIsNoLonger(cs[1..]);
    }
  }

  // ---------------------------------------------------------------------
  // CRC32 chunks of positive size
  // ---------------------------------------------------------------------

  /** Everything after a CRC32 chunk of positive size expands to zeros. */
  predicate QuietAfterCrc(cs: seq<Chunk>) {
    forall i, j | 0 <= i < j < |cs| && cs[i].CrcChunk? && cs[i].len > 0 :: AllZero(InMemory(cs[j]))
  }

  lemma ChunkKeptOrDropped(c: Chunk)
    requires WellFormed(c)
    ensures Image(Streamed(c)) == InMemory(c) || (Image(Streamed(c)) == [] && AllZero(InMemory(c)))
  {
    if !c.CrcChunk? || c.len == 0 {
      ChunkAgrees(c);
    }
  }

  /** A non-zero byte of the streamed image stands no later than one of the expansion. */
  lemma {:induction false} NonZeroMovesEarlier(cs: seq<Chunk>, q: nat) returns (r: nat)
    requires AllWellFormed(cs) && q < |ImageAll(cs)| && ImageAll(cs)[q] != 0
    ensures q <= r < |InMemoryAll(cs)| && InMemoryAll(cs)[r] != 0
  {
    ChunkKeptOrDropped(cs[0]);
    hide Image, Streamed, InMemory, WellFormed;
    var n, m := |Image(Streamed(cs[0]))|, |InMemory(cs[0])|;
    if q < n {
      r := q;
    } else {
      var r' := NonZeroMovesEarlier(cs[1..], q - n);
      r := r' + m;
    }
  }

  /** The last non-zero byte, if there is one. */
  lemma {:induction false} LastNonZero(s: Bytes) returns (r: nat)
    requires !AllZero(s)
    ensures r < |s| && s[r] != 0 && forall i | r < i < |s| :: s[i] == 0
  {
    var n := |s| - 1;
    if s[n] != 0 {
      r := n;
    } else {
      var i :| 0 <= i < |s| && s[i] != 0;
      assert s[..n][i] == s[i];
      r := LastNonZero(s[..n]);
    }
  }

  lemma AllZeroOfSum(a: Bytes, b: Bytes)
    ensures AllZero(a + b) <==> AllZero(a) && AllZero(b)
  {
    assert (a + b)[..|a|] == a && (a + b)[|a|..] == b;
  }

  lemma {:induction false} QuietTail(cs: seq<Chunk>)
    requires AllWellFormed(cs)
    ensures AllZero(InMemoryAll(cs)) <==> forall j | 0 <= j < |cs| :: AllZero(InMemory(cs[j]))
    ensures AllZero(InMemoryAll(cs)) ==> AllZero(ImageAll(cs))
    ensures |ImageAll(cs)| <= |InMemoryAll(cs)|
  {
    if cs != [] {
      var head, tail := InMemory(cs[0]), InMemoryAll(cs[1..]);
      QuietTail(cs[1..]);
      ChunkKeptOrDropped(cs[0]);
      AllZeroOfSum(head, tail);
      AllZeroOfSum(Image(Streamed(cs[0])), ImageAll(cs[1..]));
      hide Image, Streamed, InMemory, AllZero;
    }
  }

  function Padded(cs: seq<Chunk>): (r: Bytes)
    ensures |r| == |InMemoryAll(cs)|
  {
    Resize(ImageAll(cs), |InMemoryAll(cs)|)
  }

  lemma PaddedAt(cs: seq<Chunk>, i: nat)
    requires i < |InMemoryAll(cs)|
    ensures Padded(cs)[i] == ByteAt(ImageAll(cs), i)
  {
  }

  lemma QuietHead(c: Chunk, rest: seq<Chunk>)
    ensures QuietAfterCrc([c] + rest)
            <==> (QuietAfterCrc(rest)
                  && (c.CrcChunk? && c.len > 0 ==> forall j | 0 <= j < |rest| :: AllZero(InMemory(rest[j]))))
  {
    hide InMemory, AllZero;
    var cs := [c] + rest;
    assert forall j | 0 <= j < |rest| :: cs[j + 1] == rest[j];
    if QuietAfterCrc(cs) {
      forall i, j | 0 <= i < j < |rest| && rest[i].CrcChunk? && rest[i].len > 0
        ensures AllZero(InMemory(rest[j]))
      {
        assert cs[i + 1] == rest[i] && cs[j + 1] == rest[j];
      }
      forall j | 0 <= j < |rest| && c.CrcChunk? && c.len > 0
        ensures AllZero(InMemory(rest[j]))
      {
        assert cs[0] == c && cs[j + 1] == rest[j];
      }
    }
    if QuietAfterCrc(rest) && (c.CrcChunk? && c.len > 0 ==> forall j | 0 <= j < |rest| :: AllZero(InMemory(rest[j]))) {
      forall i, j | 0 <= i < j < |cs| && cs[i].CrcChunk? && cs[i].len > 0
        ensures AllZero(InMemory(cs[j]))
      {
        assert cs[j] == rest[j - 1];
        if i > 0 {
          assert cs[i] == rest[i - 1];
        }
      }
    }
  }

  lemma CrcHead(c: Chunk, rest: seq<Chunk>)
    requires c.CrcChunk?
    ensures InMemoryAll([c] + rest) == Zeros(c.len) + InMemoryAll(rest)
    ensures ImageAll([c] + rest) == ImageAll(rest)
  {
    var cs := [c] + rest;
    assert cs[1..] == rest;
    assert ImageAll(cs) == Zeros(0) + ImageAll(rest);
  }

  lemma NoDataAfter(cs: seq<Chunk>, m: nat, q: nat)
    requires AllWellFormed(cs) && q > m
    requires forall i | m < i < |InMemoryAll(cs)| :: InMemoryAll(cs)[i] == 0
    ensures ByteAt(ImageAll(cs), q) == 0
  {
    hide ImageAll, InMemoryAll, AllWellFormed;
    if ByteAt(ImageAll(cs), q) != 0 {
      var r := NonZeroMovesEarlier(cs, q);
    }
  }

  lemma ShiftedData(c: Chunk, rest: seq<Chunk>, m: nat)
    requires c.CrcChunk? && c.len > 0 && AllWellFormed(rest)
    requires m < |InMemoryAll(rest)| && InMemoryAll(rest)[m] != 0
    requires forall i | m < i < |InMemoryAll(rest)| :: InMemoryAll(rest)[i] == 0
    ensures Padded([c] + rest) != InMemoryAll([c] + rest)
  {
    hide ImageAll, InMemoryAll, AllWellFormed, ByteAt, Padded;
    CrcHead(c, rest);
    var cs, k := [c] + rest, c.len;
    assert InMemoryAll(cs)[k + m] == InMemoryAll(rest)[m];
    NoDataAfter(rest, m, k + m);
    PaddedAt(cs, k + m);
  }

  lemma AfterPositiveCrc(c: Chunk, rest: seq<Chunk>)
    requires c.CrcChunk? && c.len > 0 && AllWellFormed(rest)
    ensures Padded([c] + rest) == InMemoryAll([c] + rest) <==> AllZero(InMemoryAll(rest))
  {
    if AllZero(InMemoryAll(rest)) {
      CrcHead(c, rest);
      QuietTail(rest);
      hide ImageAll, InMemoryAll, AllWellFormed;
    } else {
      var m := LastNonZero(InMemoryAll(rest));
      ShiftedData(c, rest, m);
    }
  }

  lemma PaddedHead(c: Chunk, rest: seq<Chunk>)
    requires WellFormed(c) && (c.CrcChunk? ==> c.len == 0)
    ensures Padded([c] + rest) == InMemoryAll([c] + rest) <==> Padded(rest) == InMemoryAll(rest)
  {
    ChunkAgrees(c);
    var cs, head := [c] + rest, InMemory(c);
    assert cs[1..] == rest;
    assert ImageAll(cs) == head + ImageAll(rest) && InMemoryAll(cs) == head + InMemoryAll(rest);
    hide ImageAll, InMemoryAll, Streamed, InMemory;
    assert Padded(cs) == head + Padded(rest);
    assert Padded(cs)[|head|..] == Padded(rest) && InMemoryAll(cs)[|head|..] == InMemoryAll(rest);
  }

  lemma {:induction false} PaddedAgrees(cs: seq<Chunk>)
    requires AllWellFormed(cs)
    ensures Padded(cs) == InMemoryAll(cs) <==> QuietAfterCrc(cs)
  {
    if cs != [] {
      var c, rest := cs[0], cs[1..];
      assert cs == [c] + rest;
      hide Padded, InMemoryAll, QuietAfterCrc;
      PaddedAgrees(rest);
      QuietHead(c, rest);
      if c.CrcChunk? && c.len > 0 {
        AfterPositiveCrc(c, rest);
        QuietTail(rest);
        ZerosAreQuiet(rest);
      } else {
        PaddedHead(c, rest);
      }
    }
  }

  lemma ZerosAreQuiet(cs: seq<Chunk>)
    ensures (forall j | 0 <= j < |cs| :: AllZero(InMemory(cs[j]))) ==> QuietAfterCrc(cs)
  {
  }

  /**
   The CRC32 theorem. `unsparse` emits zeros for a CRC32 chunk and
   `sparse_to_file` emits nothing: on a fresh destination the two agree if and
   only if all that follows a CRC32 chunk of positive size expands to zeros.
   */
  lemma CrcAgreement(cs: seq<Chunk>, total: nat)
    requires AllWellFormed(cs) && |InMemoryAll(cs)| == total
    ensures FinalFile(cs, [], total) == InMemoryAll(cs) <==> QuietAfterCrc(cs)
  {
    PaddedAgrees(cs);
    hide StreamAll, ImageAll, MaskAll, InMemoryAll, QuietAfterCrc;
    var final := FinalFile(cs, [], total);
    forall i | 0 <= i < total
      ensures final[i] == Padded(cs)[i]
    {
      StreamIsOverlay(cs, [], 0, i);
      if i < |ImageAll(cs)| && !MaskAll(cs)[i] {
        UnwrittenIsZero(cs, i);
      }
    }
    assert final == Padded(cs);
  }

  /** The failing family has members. */
  lemma CrcCanShiftData()
    ensures var cs := [CrcChunk(4), RawChunk([1, 1, 1, 1])];
            FinalFile(cs, [], 8) != InMemoryAll(cs)
  {
    var cs := [CrcChunk(4), RawChunk([1, 1, 1, 1])];
    assert InMemory(cs[1])[0] == 1;
    assert !AllZero(InMemory(cs[1]));
    assert cs[1..] == [cs[1]] && cs[1..][1..] == [];
    assert |InMemoryAll(cs)| == 8;
    CrcAgreement(cs, 8);
  }

  // ---------------------------------------------------------------------
  // Reading the bytes
  // ---------------------------------------------------------------------

  datatype Header = Header(major: nat, headerSize: nat, chunkHeaderSize: nat, blockSize: nat,
                           totalBlocks: nat, chunks: nat)

  function ReadHeader(data: Bytes): Header
    requires |data| >= 28
  {
    Header(UnLe(data[4..6]), UnLe(data[8..10]), UnLe(data[10..12]), UnLe(data[12..16]),
           UnLe(data[16..20]), UnLe(data[20..24]))
  }

  predicate HasMagic(data: Bytes) {
    |data| >= 28 && UnLe(data[0..4]) == SPARSE_MAGIC
  }

  function Times(a: nat, b: nat): nat {
    a * b
  }

  /** One iteration of `unsparse`: the cursor after the chunk and what it appends. */
  function UnsparseChunk(data: Bytes, h: Header, pos: nat): Option<(nat, Bytes)> {
    if pos + 12 > |data| then None
    else
      var kind, len := UnLe(data[pos..pos + 2]), Times(UnLe(data[pos + 4..pos + 8]), h.blockSize);
      var p := pos + h.chunkHeaderSize;
      if kind == CHUNK_RAW then Some((p + len, Slice(data, p, p + len)))
      else if kind == CHUNK_FILL then Some((p + 4, Repeat(Slice(data, p, p + 4), len / 4)))
      else if kind == CHUNK_DONT_CARE then Some((p, Zeros(len)))
      else if kind == CHUNK_CRC32 then Some((p + 4, Zeros(len)))
      else None
  }

  function UnsparseFrom(data: Bytes, h: Header, pos: nat, left: nat, out: Bytes): Option<Bytes>
    decreases left
  {
    if left == 0 then Some(out)
    else
      match UnsparseChunk(data, h, pos)
      case None => None
      case Some((pos', more)) => UnsparseFrom(data, h, pos', left - 1, out + more)
  }

  /** `unsparse`; None is an exception. */
  function UnsparseSpec(data: Bytes): Option<Bytes> {
    if |data| < 28 then None
    else if !HasMagic(data) then Some(data)
    else
      var h := ReadHeader(data);
      if h.major != 1 then None else UnsparseFrom(data, h, h.headerSize, h.chunks, [])
  }

  /** One iteration of `sparse_to_file`: the source cursor after the chunk and what is done to the file. */
  function StreamChunk(src: Bytes, h: Header, pos: nat): Option<(nat, Piece)> {
    var ch := Slice(src, pos, pos + h.chunkHeaderSize);
    if |ch| < 8 then None
    else
      var kind, len := UnLe(ch[..2]), Times(UnLe(ch[4..8]), h.blockSize);
      var p := pos + |ch|;
      var raw, four := Slice(src, p, p + len), Slice(src, p, p + 4);
      if kind == CHUNK_RAW then Some((p + |raw|, Data(raw)))
      else if kind == CHUNK_FILL then
        Some((p + |four|, if four == [0, 0, 0, 0] then Hole(len) else Data(Repeat(four, len / 4))))
      else if kind == CHUNK_DONT_CARE then Some((p, Hole(len)))
      else if kind == CHUNK_CRC32 then Some((p + |four|, Hole(0)))
      else None
  }

  function StreamFrom(src: Bytes, h: Header, pos: nat, left: nat, c: Bytes, at: nat): Option<Bytes>
    decreases left
  {
    if left == 0 then Some(c)
    else
      match StreamChunk(src, h, pos)
      case None => None
      case Some((pos', piece)) =>
        var (c', at') := ApplyPiece(piece, c, at);
        StreamFrom(src, h, pos', left - 1, c', at')
  }

  /** `sparse_to_file` into a destination that holds `before`; None is an exception. */
  function ToFileSpec(src: Bytes, before: Bytes): Option<Bytes> {
    if !HasMagic(src) then Some(src)
    else
      var h := ReadHeader(src);
      if h.major != 1 || (h.chunkHeaderSize != 12 && h.chunkHeaderSize != 16) then None
      else
        match StreamFrom(src, h, h.headerSize, h.chunks, before, 0)
        case None => None
        case Some(c) => Some(Resize(c, Times(h.totalBlocks, h.blockSize)))
  }

  // ---------------------------------------------------------------------
  // Images whose chunks are all there
  // ---------------------------------------------------------------------

  /** The chunk at `pos`, if its header and payload are complete, and where the next one starts. */
  function ParseChunk(data: Bytes, h: Header, pos: nat): Option<(Chunk, nat)> {
    var p := pos + h.chunkHeaderSize;
    if h.chunkHeaderSize < 12 || p > |data| then None
    else
      var kind, len := UnLe(data[pos..pos + 2]), Times(UnLe(data[pos + 4..pos + 8]), h.blockSize);
      if kind == CHUNK_RAW && p + len <= |data| then Some((RawChunk(data[p..p + len]), p + len))
      else if kind == CHUNK_FILL && p + 4 <= |data| then Some((FillChunk(data[p..p + 4], len), p + 4))
      else if kind == CHUNK_DONT_CARE then Some((DontCareChunk(len), p))
      else if kind == CHUNK_CRC32 && p + 4 <= |data| then Some((CrcChunk(len), p + 4))
      else None
  }

  function ParseChunks(data: Bytes, h: Header, pos: nat, left: nat): Option<seq<Chunk>>
    decreases left
  {
    if left == 0 then Some([])
    else
      match ParseChunk(data, h, pos)
      case None => None
      case Some((c, pos')) =>
        match ParseChunks(data, h, pos', left - 1)
        case None => None
        case Some(cs) => Some([c] + cs)
  }

  /** A complete version 1 image with the given chunks, which cover exactly its blocks. */
  predicate IsImage(data: Bytes, cs: seq<Chunk>) {
    HasMagic(data)
    && var h := ReadHeader(data);
       && h.major == 1 && (h.chunkHeaderSize == 12 || h.chunkHeaderSize == 16)
       && ParseChunks(data, h, h.headerSize, h.chunks) == Some(cs)
       && AllWellFormed(cs)
       && |InMemoryAll(cs)| == Times(h.totalBlocks, h.blockSize)
  }

  lemma ChunkUnsparsed(data: Bytes, h: Header, pos: nat)
    requires ParseChunk(data, h, pos).Some?
    ensures var (c, pos') := ParseChunk(data, h, pos).value;
            UnsparseChunk(data, h, pos) == Some((pos', InMemory(c)))
  {
    hide UnLe, Times, Repeat, Zeros;
  }

  lemma ChunkStreamed(data: Bytes, h: Header, pos: nat)
    requires ParseChunk(data, h, pos).Some?
    ensures var (c, pos') := ParseChunk(data, h, pos).value;
            StreamChunk(data, h, pos) == Some((pos', Streamed(c)))
  {
    hide UnLe, Times, Repeat, Zeros;
    var ch := Slice(data, pos, pos + h.chunkHeaderSize);
    assert ch[..2] == data[pos..pos + 2] && ch[4..8] == data[pos + 4..pos + 8];
  }

  lemma {:induction false} UnsparseReads(data: Bytes, h: Header, pos: nat, left: nat, out: Bytes)
    requires ParseChunks(data, h, pos, left).Some?
    requires h.chunkHeaderSize == 12 || h.chunkHeaderSize == 16
    ensures UnsparseFrom(data, h, pos, left, out)
         == Some(out + InMemoryAll(ParseChunks(data, h, pos, left).value))
    decreases left
  {
    hide UnsparseChunk, ParseChunk, InMemory;
    if left > 0 {
      ChunkUnsparsed(data, h, pos);
      var (chunk, pos') := ParseChunk(data, h, pos).value;
      var cs := ParseChunks(data, h, pos', left - 1).value;
      assert ([chunk] + cs)[1..] == cs;
      UnsparseReads(data, h, pos', left - 1, out + InMemory(chunk));
      Assoc(out, InMemory(chunk), InMemoryAll(cs));
    } else {
      assert out + [] == out;
    }
  }

  lemma {:induction false} StreamReads(data: Bytes, h: Header, pos: nat, left: nat, c: Bytes, at: nat)
    requires ParseChunks(data, h, pos, left).Some?
    requires h.chunkHeaderSize == 12 || h.chunkHeaderSize == 16
    ensures StreamFrom(data, h, pos, left, c, at)
         == Some(StreamAll(ParseChunks(data, h, pos, left).value, c, at).0)
    decreases left
  {
    hide StreamChunk, ParseChunk, Streamed, ApplyPiece;
    if left > 0 {
      ChunkStreamed(data, h, pos);
      var (chunk, pos') := ParseChunk(data, h, pos).value;
      var cs := ParseChunks(data, h, pos', left - 1).value;
      assert ([chunk] + cs)[1..] == cs;
      var (c', at') := ApplyPiece(Streamed(chunk), c, at);
      StreamReads(data, h, pos', left - 1, c', at');
    }
  }

  /**
   The expander theorem, on every complete image: `unsparse` yields the blocks
   the chunks stand for; and `sparse_to_file` into a fresh file leaves the same
   bytes if and only if nothing but zeros follows a CRC32 chunk of positive size.
   */
  lemma ExpandersAgree(data: Bytes, cs: seq<Chunk>)
    requires IsImage(data, cs)
    ensures UnsparseSpec(data) == Some(InMemoryAll(cs))
    ensures var h := ReadHeader(data); |InMemoryAll(cs)| == Times(h.totalBlocks, h.blockSize)
    ensures ToFileSpec(data, []) == UnsparseSpec(data) <==> QuietAfterCrc(cs)
  {
    var h := ReadHeader(data);
    UnsparseReads(data, h, h.headerSize, h.chunks, []);
    StreamReads(data, h, h.headerSize, h.chunks, [], 0);
    hide ParseChunks, UnsparseFrom, StreamFrom, StreamAll, InMemoryAll, ReadHeader, UnLe, QuietAfterCrc;
    CrcAgreement(cs, Times(h.totalBlocks, h.blockSize));
    assert [] + InMemoryAll(cs) == InMemoryAll(cs);
  }

  /**
   Into a file that already exists, which the code reopens without clearing it: the
   written bytes must stand right and the file must already hold the rest. Without
   CRC32 chunks of positive size that means zeros under the holes.
   */
  lemma ExpandersAgreeOnExistingFile(data: Bytes, cs: seq<Chunk>, before: Bytes)
    requires IsImage(data, cs)
    ensures (ToFileSpec(data, before) == UnsparseSpec(data)
        <==> StandsRight(cs) && HoldsTheRest(cs, before))
    ensures CrcFree(cs) ==> (ToFileSpec(data, before) == UnsparseSpec(data) <==> CleanUnderHoles(cs, before))
  {
    var h := ReadHeader(data);
    UnsparseReads(data, h, h.headerSize, h.chunks, []);
    StreamReads(data, h, h.headerSize, h.chunks, before, 0);
    hide ParseChunks, UnsparseFrom, StreamFrom, StreamAll, InMemoryAll, ReadHeader, UnLe, CleanUnderHoles,
         StandsRight, HoldsTheRest;
    StreamingAgreesExactly(cs, before, Times(h.totalBlocks, h.blockSize));
    if CrcFree(cs) {
      StreamingAgrees(cs, before, Times(h.totalBlocks, h.blockSize));
    }
    assert [] + InMemoryAll(cs) == InMemoryAll(cs);
  }

  // ---------------------------------------------------------------------
  // The expanders as they run
  // ---------------------------------------------------------------------

  /** unsparse */
  method Unsparse(data: Bytes) returns (r: Option<Bytes>)
    ensures r == UnsparseSpec(data)
  {
    hide UnLe, UnsparseChunk, ReadHeader;
    if |data| < 28 {
      return None;
    }
    if !HasMagic(data) {
      return Some(data);
    }
    var h := ReadHeader(data);
    if h.major != 1 {
      return None;
    }
    var pos, out := h.headerSize, [];
    var done := 0;
    while done < h.chunks
      invariant 0 <= done <= h.chunks
      invariant UnsparseFrom(data, h, pos, h.chunks - done, out)
             == UnsparseFrom(data, h, h.headerSize, h.chunks, [])
    {
      var step := UnsparseChunk(data, h, pos);
      if step.None? {
        return None;
      }
      pos := step.value.0;
      out := out + step.value.1;
      done := done + 1;
    }
    return Some(out);
  }

  /** sparse_to_file, into an existing or new file; false is an exception. */
  method SparseToFile(src: Bytes, dst: File) returns (ok: bool)
    requires dst.pos == 0
    modifies dst
    ensures ok == ToFileSpec(src, old(dst.content)).Some?
    ensures ok ==> Some(dst.content) == ToFileSpec(src, old(dst.content))
  {
    hide UnLe, StreamChunk, ReadHeader, WriteAt, Resize, Times;
    if !HasMagic(src) {
      CopyAll(src, dst);
      return true;
    }
    var h := ReadHeader(src);
    if h.major != 1 || (h.chunkHeaderSize != 12 && h.chunkHeaderSize != 16) {
      return false;
    }
    var pos, done := h.headerSize, 0;
    while done < h.chunks
      invariant 0 <= done <= h.chunks
      invariant StreamFrom(src, h, pos, h.chunks - done, dst.content, dst.pos)
             == StreamFrom(src, h, h.headerSize, h.chunks, old(dst.content), 0)
    {
      var step := StreamChunk(src, h, pos);
      if step.None? {
        return false;
      }
      pos := step.value.0;
      match step.value.1 {
        case Data(b) => dst.Write(b);
        case Hole(len) => dst.Seek(dst.pos + len);
      }
      done := done + 1;
    }
    dst.Truncate(Times(h.totalBlocks, h.blockSize));
    return true;
  }

  /** The copy of a raw source, 8 MiB at a time, into a file opened "wb". */
  method CopyAll(src: Bytes, dst: File)
    modifies dst
    ensures dst.content == src
  {
    dst.content := [];
    dst.pos := 0;
    var at := 0;
    while at < |src|
      invariant 0 <= at <= |src|
      invariant dst.content == src[..at] && dst.pos == at
    {
      var b := Slice(src, at, at + 0x80_0000);
      AppendAtEnd(dst.content, b);
      dst.Write(b);
      at := at + |b|;
    }
  }

  lemma AppendAtEnd(c: Bytes, b: Bytes)
    ensures WriteAt(c, |c|, b) == c + b
  {
    var r := WriteAt(c, |c|, b);
    assert |r| == |c| + |b|;
    forall i | 0 <= i < |r|
      ensures r[i] == (c + b)[i]
    {
      assert ByteAt(r, i) == r[i];
    }
  }
}
