/**
 Frames of any blocks, as the frame decoder of tools/imgtools.py reads them: both kinds of
 header, packed and raw blocks, the end mark, and what follows it.
 */
module Lz4Frames {
  import opened Bytes
  import opened Wrappers
  import opened Lz4

  datatype Block = RawBlock(data: Bytes) | PackedBlock(seqs: seq<Sequence>, last: Bytes)

  /** The block is one the format allows behind `produced` bytes of output. */
  predicate IsBlock(b: Block, produced: nat) {
    match b
    case RawBlock(data) => |data| < 0x8000_0000
    case PackedBlock(seqs, last) => WellFormed(seqs, produced) && |Serialize(seqs, last, produced)| < 0x8000_0000
  }

  function BlockMeaning(b: Block, out: Bytes): Bytes
    requires IsBlock(b, |out|)
  {
    match b
    case RawBlock(data) => out + data
    case PackedBlock(seqs, last) => Meaning(seqs, last, out)
  }

  /** The size word, with its top bit set for a raw block, and the block. */
  function BlockBytes(b: Block, produced: nat): Bytes
    requires IsBlock(b, produced)
  {
    match b
    case RawBlock(data) => Le(0x8000_0000 + |data|, 4) + data
    case PackedBlock(seqs, last) =>
      Le(|Serialize(seqs, last, produced)|, 4) + Serialize(seqs, last, produced)
  }

  predicate AreBlocks(bs: seq<Block>, out: Bytes) {
    bs == [] || (IsBlock(bs[0], |out|) && AreBlocks(bs[1..], BlockMeaning(bs[0], out)))
  }

  function BlocksMeaning(bs: seq<Block>, out: Bytes): Bytes
    requires AreBlocks(bs, out)
  {
    if bs == [] then out else BlocksMeaning(bs[1..], BlockMeaning(bs[0], out))
  }

  function BlocksBytes(bs: seq<Block>, out: Bytes): Bytes
    requires AreBlocks(bs, out)
  {
    if bs == [] then [] else BlockBytes(bs[0], |out|) + BlocksBytes(bs[1..], BlockMeaning(bs[0], out))
  }

  lemma LastIsSome(last: Bytes)
    ensures LastBytes(last) != []
  {
  }

  lemma {:induction false} SerializedIsSome(seqs: seq<Sequence>, last: Bytes, produced: nat)
    requires WellFormed(seqs, produced)
    ensures Serialize(seqs, last, produced) != []
  {
    if seqs == [] {
      LastIsSome(last);
    } else {
      hide LastBytes, SequenceBytes;
      SerializedIsSome(seqs[1..], last, produced + |seqs[0].lits| + seqs[0].mlen);
    }
  }

  lemma RawStepOf(data: Bytes, pos: nat, raw: Bytes, out: Bytes)
    requires pos + 4 <= |data| && UnLe(data[pos..pos + 4]) == 0x8000_0000 + |raw|
    requires Slice(data, pos + 4, pos + 4 + |raw|) == raw
    ensures BlockStep(data, pos, out) == More(pos + 4 + |raw|, out + raw)
  {
    hide DecodeFrom, UnLe, Slice;
  }

  lemma RawStep(data: Bytes, pos: nat, raw: Bytes, out: Bytes)
    requires |raw| < 0x8000_0000 && At(data, pos, Le(0x8000_0000 + |raw|, 4) + raw)
    ensures BlockStep(data, pos, out) == More(pos + 4 + |raw|, out + raw)
  {
    hide *;
    LeLength(0x8000_0000 + |raw|);
    AtSplit(data, pos, Le(0x8000_0000 + |raw|, 4), raw);
    SizeReadsBack(data, pos, 0x8000_0000 + |raw|);
    AtSlice(data, pos + 4, raw);
    RawStepOf(data, pos, raw, out);
  }

  lemma LeLength(n: nat)
    ensures |Le(n, 4)| == 4
  {
  }

  lemma PackedStep(data: Bytes, pos: nat, block: Bytes, out: Bytes, out': Bytes)
    requires 0 < |block| < 0x8000_0000 && At(data, pos, Le(|block|, 4) + block)
    requires DecodeFrom(block, 0, out) == Some(out')
    ensures BlockStep(data, pos, out) == More(pos + 4 + |block|, out')
  {
    AtSplit(data, pos, Le(|block|, 4), block);
    hide *;
    SizeReadsBack(data, pos, |block|);
    AtSlice(data, pos + 4, block);
    OrdinaryStep(data, pos, block, out);
  }

  lemma OneBlockReads(data: Bytes, pos: nat, b: Block, out: Bytes)
    requires IsBlock(b, |out|) && At(data, pos, BlockBytes(b, |out|))
    ensures BlockStep(data, pos, out) == More(pos + |BlockBytes(b, |out|)|, BlockMeaning(b, out))
  {
    match b
    case RawBlock(raw) =>
      hide BlockStep, At, Le;
      RawStep(data, pos, raw, out);
    case PackedBlock(seqs, last) =>
      hide BlockStep, At, Le, Serialize, Meaning, DecodeFrom;
      SerializedIsSome(seqs, last, |out|);
      BlockRoundTrip(seqs, last, out);
      PackedStep(data, pos, Serialize(seqs, last, |out|), out, Meaning(seqs, last, out));
  }

  lemma MoreBlocks(data: Bytes, pos: nat, out: Bytes)
    requires BlockStep(data, pos, out).More?
    ensures BlocksFrom(data, pos, out) == BlocksFrom(data, BlockStep(data, pos, out).pos, BlockStep(data, pos, out).out)
  {
    hide BlockStep;
  }

  lemma FirstBlock(bs: seq<Block>, out: Bytes)
    requires bs != [] && AreBlocks(bs, out)
    ensures IsBlock(bs[0], |out|) && AreBlocks(bs[1..], BlockMeaning(bs[0], out))
    ensures BlocksMeaning(bs, out) == BlocksMeaning(bs[1..], BlockMeaning(bs[0], out))
    ensures (BlocksBytes(bs, out)
          == BlockBytes(bs[0], |out|) + BlocksBytes(bs[1..], BlockMeaning(bs[0], out)))
  {
    hide BlockBytes, BlockMeaning, IsBlock;
  }

  lemma NoBlocks(out: Bytes)
    ensures AreBlocks([], out) && BlocksBytes([], out) == [] && BlocksMeaning([], out) == out
  {
  }

  /** The loop reads blocks and then whatever stands behind them. */
  lemma {:induction false} BlocksRead(data: Bytes, pos: nat, bs: seq<Block>, out: Bytes)
    requires AreBlocks(bs, out) && At(data, pos, BlocksBytes(bs, out))
    ensures BlocksFrom(data, pos, out) == BlocksFrom(data, pos + |BlocksBytes(bs, out)|, BlocksMeaning(bs, out))
    decreases |bs|
  {
    hide *;
    if bs == [] {
      NoBlocks(out);
    } else {
      FirstBlock(bs, out);
      var out' := BlockMeaning(bs[0], out);
      var first := BlockBytes(bs[0], |out|);
      var rest := BlocksBytes(bs[1..], out');
      AtSplit(data, pos, first, rest);
      OneBlockReads(data, pos, bs[0], out);
      MoreBlocks(data, pos, out);
      BlocksRead(data, pos + |first|, bs[1..], out');
      assert |first + rest| == |first| + |rest|;
    }
  }

  /** An end mark, or too little for a size word, stops the loop. */
  predicate Stops(rest: Bytes) {
    |rest| < 4 || rest[..4] == [0, 0, 0, 0]
  }

  lemma StopsHere(data: Bytes, pos: nat, out: Bytes)
    requires pos <= |data| && Stops(data[pos..])
    ensures BlocksFrom(data, pos, out) == Some(out)
  {
    if pos + 4 <= |data| {
      assert data[pos..pos + 4] == data[pos..][..4] == [0, 0, 0, 0];
      ZeroSize();
      hide UnLe, DecodeFrom;
      assert BlockStep(data, pos, out) == Stop;
    }
  }

  lemma ZeroSize()
    ensures UnLe([0, 0, 0, 0]) == 0
  {
    assert [0, 0, 0, 0][1..] == [0, 0, 0] && [0, 0, 0][1..] == [0, 0] && [0, 0][1..] == [0] && [0][1..] == [];
    assert UnLe([0]) == 0;
    assert UnLe([0, 0]) == 0;
    assert UnLe([0, 0, 0]) == 0;
  }

  /** The two headers: the legacy magic alone, or the standard one with FLG, BD and an optional content size. */
  datatype FrameHeader = Legacy | Standard(flg: byte, bd: byte, contentSize: Bytes)

  predicate IsHeader(h: FrameHeader) {
    h.Standard? ==> |h.contentSize| == if h.flg / 8 % 2 == 1 then 8 else 0
  }

  function HeaderBytes(h: FrameHeader): Bytes {
    match h
    case Legacy => Le(0x184C2102, 4)
    case Standard(flg, bd, size) => Le(0x184D2204, 4) + [flg, bd] + size
  }

  lemma HeaderRead(h: FrameHeader, rest: Bytes)
    requires IsHeader(h)
    ensures (DecompressSpec(HeaderBytes(h) + rest)
          == OfBlocks(BlocksFrom(HeaderBytes(h) + rest, |HeaderBytes(h)|, [])))
  {
    var data := HeaderBytes(h) + rest;
    Powers();
    UnLeOfLe(0x184C2102, 4);
    UnLeOfLe(0x184D2204, 4);
    hide UnLe, Le, BlocksFrom, OfBlocks;
    match h
    case Legacy => assert data[..4] == Le(0x184C2102, 4);
    case Standard(flg, bd, size) =>
      assert data[..4] == Le(0x184D2204, 4);
      assert data[4] == flg;
  }

  /**
   The frame theorem: any header as the code reads it, any blocks the format allows, raw
   or packed, with matches that reach into earlier blocks, decode to their meaning; the
   end mark ends the frame, whatever follows it.
   */
  lemma FrameDecodes(h: FrameHeader, bs: seq<Block>, rest: Bytes)
    requires IsHeader(h) && AreBlocks(bs, []) && Stops(rest)
    ensures DecompressSpec(HeaderBytes(h) + (BlocksBytes(bs, []) + rest)) == Raw(BlocksMeaning(bs, []))
  {
    hide *;
    var header, blocks := HeaderBytes(h), BlocksBytes(bs, []);
    var data := header + (blocks + rest);
    HeaderRead(h, blocks + rest);
    AtMiddle(header, blocks, rest);
    assert header + blocks + rest == data;
    BlocksRead(data, |header|, bs, []);
    assert data[|header| + |blocks|..] == rest;
    StopsHere(data, |header| + |blocks|, BlocksMeaning(bs, []));
    OfSome(BlocksMeaning(bs, []));
  }

  lemma OfSome(b: Bytes)
    ensures OfBlocks(Some(b)) == Raw(b)
  {
  }

  lemma UnLeFour(a: byte, b: byte, c: byte, d: byte)
    ensures UnLe([a, b, c, d]) == a + 256 * (b + 256 * (c + 256 * d))
  {
    assert [a, b, c, d][1..] == [b, c, d] && [b, c, d][1..] == [c, d] && [c, d][1..] == [d] && [d][1..] == [];
    assert UnLe([d]) == d;
    assert UnLe([c, d]) == c + 256 * d;
    assert UnLe([b, c, d]) == b + 256 * (c + 256 * d);
  }

  /** A block of a token that announces eight literals and fewer bytes than that is copied whole. */
  lemma ShortLiterals(data: Bytes)
    requires |data| <= 8
    ensures DecodeFrom([0x80] + data, 0, []) == Some(data)
  {
    var block := [0x80] + data;
    EightLiterals(block);
    FrontOf(data);
    hide ReadLen, CopyFrom, Slice, HighNibble;
    assert block[0] == 0x80;
    assert MatchStep(block, 0x80, 9, data) == Done(data);
    assert DecodeStep(block, 0, []) == Done(data);
  }

  lemma FrontOf(data: Bytes)
    requires |data| <= 8
    ensures Slice([0x80] + data, 1, 9) == data && [] + data == data
  {
    assert ([0x80] + data)[1..] == data;
  }

  lemma EightLiterals(block: Bytes)
    ensures ReadLen(block, 1, HighNibble(0x80)) == Some((8, 1))
  {
  }

  /**
   The loop starts where the header ends for the code, which is one byte early on a frame
   with the header checksum byte of the LZ4 Frame Format: a frame of one raw block of at
   most four bytes then decodes with the four bytes of its end mark added.
   */
  lemma HeaderChecksumIsNotSkipped(flg: byte, bd: byte, checksum: byte, data: Bytes)
    requires flg / 8 % 2 == 0 && 0 < |data| <= 4
    ensures (DecompressSpec(HeaderBytes(Standard(flg, bd, []))
                            + ([checksum] + BlocksBytes([RawBlock(data)], []) + [0, 0, 0, 0]))
          == Raw(data + [0, 0, 0, 0]))
  {
    hide *;
    var h := Standard(flg, bd, []);
    var header, tail := HeaderBytes(h), data + [0, 0, 0, 0];
    var shifted := [checksum, |data|, 0, 0] + ([0x80] + tail);
    NoContentSize(flg, bd);
    ShiftedBytes(checksum, data);
    HeaderRead(h, shifted);
    ShiftedStep(header, checksum, |data|, tail);
    MoreBlocks(header + shifted, |header|, []);
    EndStops(header + shifted, |header| + 4 + (checksum + 256 * |data|), tail);
    OfSome(tail);
  }

  lemma NoContentSize(flg: byte, bd: byte)
    requires flg / 8 % 2 == 0
    ensures IsHeader(Standard(flg, bd, []))
  {
  }

  lemma ShiftedBytes(checksum: byte, data: Bytes)
    requires 0 < |data| <= 4
    ensures AreBlocks([RawBlock(data)], [])
    ensures ([checksum] + BlocksBytes([RawBlock(data)], []) + [0, 0, 0, 0]
          == [checksum, |data|, 0, 0] + ([0x80] + (data + [0, 0, 0, 0])))
  {
    RawWord(|data|);
    OneRawBlock(data);
    hide Le, BlocksBytes;
  }

  lemma EndStops(data: Bytes, pos: nat, out: Bytes)
    requires pos >= |data|
    ensures BlocksFrom(data, pos, out) == Some(out)
  {
  }

  lemma OneRawBlock(data: Bytes)
    requires |data| < 0x8000_0000
    ensures AreBlocks([RawBlock(data)], [])
    ensures BlocksBytes([RawBlock(data)], []) == Le(0x8000_0000 + |data|, 4) + data
  {
    hide Le;
    assert [RawBlock(data)][1..] == [];
  }

  lemma RawWord(n: nat)
    requires n <= 4
    ensures Le(0x8000_0000 + n, 4) == [n, 0, 0, 0x80]
  {
    var v := 0x8000_0000 + n;
    assert v % 256 == n && v / 256 == 0x80_0000;
    assert Le(0x80, 1) == [0x80] + Le(0, 0) == [0x80];
    assert Le(0x8000, 2) == [0] + Le(0x80, 1);
    assert Le(0x80_0000, 3) == [0] + Le(0x8000, 2);
  }

  lemma ShiftedStep(header: Bytes, checksum: byte, n: nat, tail: Bytes)
    requires 0 < n <= 4 && |tail| <= 8
    ensures (BlockStep(header + ([checksum, n, 0, 0] + ([0x80] + tail)), |header|, [])
          == More(|header| + 4 + (checksum + 256 * n), tail))
  {
    var word := [checksum, n, 0, 0];
    var data := header + (word + ([0x80] + tail));
    var size := checksum + 256 * n;
    UnLeFour(checksum, n, 0, 0);
    assert data[|header|..|header| + 4] == word;
    assert Slice(data, |header| + 4, |header| + 4 + size) == data[|header| + 4..] == [0x80] + tail;
    ShortLiterals(tail);
    hide DecodeFrom, UnLe, Slice;
  }

  // ---------------------------------------------------------------------
  // The writer
  // ---------------------------------------------------------------------

  /** Literals only, 4 MiB in each block but the last. */
  predicate LiteralsOf4M(bs: seq<Block>) {
    && (forall i | 0 <= i < |bs| :: bs[i].PackedBlock? && bs[i].seqs == [] && 0 < |bs[i].last| <= 0x40_0000)
    && (forall i | 0 <= i < |bs| - 1 :: |bs[i].last| == 0x40_0000)
  }

  lemma LiteralsCons(chunk: Bytes, bs: seq<Block>)
    requires LiteralsOf4M(bs) && 0 < |chunk| <= 0x40_0000 && (|chunk| < 0x40_0000 ==> bs == [])
    ensures LiteralsOf4M([PackedBlock([], chunk)] + bs)
  {
  }

  lemma LiteralBlock(chunk: Bytes, out: Bytes)
    requires |chunk| <= 0x40_0000
    ensures (var b := PackedBlock([], chunk);
             IsBlock(b, |out|) && BlockMeaning(b, out) == out + chunk && BlockBytes(b, |out|) == Framed(chunk))
  {
    BlockLengthIsOrdinary(chunk);
    hide LastBytes, Le;
  }

  lemma FirstChunk(d: Bytes)
    requires d != []
    ensures (var n := if |d| < 0x40_0000 then |d| else 0x40_0000;
             FrameBlocks(d) == Framed(d[..n]) + FrameBlocks(d[n..]))
  {
    hide Framed;
  }

  lemma BlocksCons(b: Block, bs: seq<Block>, out: Bytes)
    requires IsBlock(b, |out|) && AreBlocks(bs, BlockMeaning(b, out))
    ensures AreBlocks([b] + bs, out)
    ensures BlocksMeaning([b] + bs, out) == BlocksMeaning(bs, BlockMeaning(b, out))
    ensures BlocksBytes([b] + bs, out) == BlockBytes(b, |out|) + BlocksBytes(bs, BlockMeaning(b, out))
  {
    hide IsBlock, BlockMeaning, BlockBytes;
    assert ([b] + bs)[1..] == bs && ([b] + bs)[0] == b;
  }

  /**
   The writer emits blocks of the format: literals only, 4 MiB in each but the last, and
   together they mean the data.
   */
  lemma {:induction false} WriterEmitsBlocks(d: Bytes, out: Bytes) returns (bs: seq<Block>)
    ensures AreBlocks(bs, out) && FrameBlocks(d) == BlocksBytes(bs, out) && BlocksMeaning(bs, out) == out + d
    ensures LiteralsOf4M(bs) && (d == [] ==> bs == [])
    decreases |d|
  {
    hide *;
    if d == [] {
      bs := [];
      NothingEmitted(out);
    } else {
      var n := if |d| < 0x40_0000 then |d| else 0x40_0000;
      var chunk, behind := d[..n], d[n..];
      var rest := WriterEmitsBlocks(behind, out + chunk);
      WriterCons(d, chunk, behind, rest, out);
      bs := [PackedBlock([], chunk)] + rest;
    }
  }

  lemma NothingEmitted(out: Bytes)
    ensures FrameBlocks([]) == [] && LiteralsOf4M([]) && out + [] == out
    ensures AreBlocks([], out) && BlocksBytes([], out) == [] && BlocksMeaning([], out) == out
  {
  }

  lemma WriterCons(d: Bytes, chunk: Bytes, behind: Bytes, rest: seq<Block>, out: Bytes)
    requires 0 < |chunk| <= 0x40_0000 && d == chunk + behind && (|chunk| < 0x40_0000 ==> behind == [])
    requires LiteralsOf4M(rest) && (behind == [] ==> rest == [])
    requires AreBlocks(rest, out + chunk) && FrameBlocks(behind) == BlocksBytes(rest, out + chunk)
    requires BlocksMeaning(rest, out + chunk) == (out + chunk) + behind
    ensures (var bs := [PackedBlock([], chunk)] + rest;
             && AreBlocks(bs, out) && FrameBlocks(d) == BlocksBytes(bs, out)
             && BlocksMeaning(bs, out) == out + d && LiteralsOf4M(bs))
  {
    hide *;
    var n := if |d| < 0x40_0000 then |d| else 0x40_0000;
    assert |d| == |chunk| + |behind|;
    assert n == |chunk| && d[..n] == chunk && d[n..] == behind;
    FirstChunk(d);
    LiteralBlock(chunk, out);
    BlocksCons(PackedBlock([], chunk), rest, out);
    LiteralsCons(chunk, rest);
    assert (out + chunk) + behind == out + (chunk + behind);
  }

  // ---------------------------------------------------------------------
  // Matches the format does not allow
  // ---------------------------------------------------------------------

  /** Byte k of a match whose offset reaches before the output: Python counts from the end. */
  predicate CopiedByte(r: Bytes, start: nat, offset: nat, k: nat)
    requires start + k < |r|
  {
    var i := start - offset + k;
    if 0 <= i < start + k then r[start + k] == r[i]
    else -(start + k) <= i < 0 && r[start + k] == r[start + k + i]
  }

  /**
   A match copy of any offset raises exactly when there is something to copy and the offset
   is zero or more than twice the output; otherwise each byte comes from `offset` back, or,
   before the start, from as far before the end as Python's negative index says.
   */
  lemma {:induction false} CopyOutcome(out: Bytes, start: nat, offset: nat, k: nat, mlen: nat)
    requires |out| == start + k && k <= mlen
    requires k > 0 ==> 0 < offset <= 2 * start
    ensures CopyFrom(out, start, offset, k, mlen).None? <==> k < mlen && (offset == 0 || offset > 2 * start)
    ensures (CopyFrom(out, start, offset, k, mlen).Some? ==>
             var r := CopyFrom(out, start, offset, k, mlen).value;
             |r| == start + mlen && out <= r && forall j | k <= j < mlen :: CopiedByte(r, start, offset, j))
    decreases mlen - k
  {
    if k < mlen && 0 < offset <= 2 * start {
      var b := PyAt(out, start - offset + k).value;
      CopyOutcome(out + [b], start, offset, k + 1, mlen);
      var r := CopyFrom(out + [b], start, offset, k + 1, mlen).value;
      assert r[start + k] == (out + [b])[start + k] == b;
      assert forall i | 0 <= i < |out| :: r[i] == (out + [b])[i] == out[i];
    }
  }
}
