/**
 The LZ4 codec of tools/imgtools.py.

 `DecodeFrom` and `DecompressSpec` follow the decoder's cursor over arbitrary
 bytes, Python's index errors included. `Serialize` and `Meaning` are an
 independent account of the LZ4 block format: a list of sequences, each a
 literal run followed by a match, closed by a literals-only sequence.
 */
module Lz4 {
  import opened Bytes
  import opened Wrappers

  const LEGACY_MAGIC: nat := 0x184C2102
  const STD_MAGIC: nat := 0x184D2204
  const MAX_BLOCK: nat := 0x40_0000

  // ---------------------------------------------------------------------
  // The block decoder
  // ---------------------------------------------------------------------

  /** Python's `s[i]`: a negative index counts from the end. */
  function PyAt(s: Bytes, i: int): Option<byte> {
    if 0 <= i < |s| then Some(s[i])
    else if -|s| <= i < 0 then Some(s[|s| + i])
    else None
  }

  /** Extension bytes after a nibble of 15: the total and the next cursor. */
  function ReadExt(block: Bytes, i: nat, acc: nat): (r: Option<(nat, nat)>)
    ensures r.Some? ==> i < r.value.1 <= |block|
    decreases |block| - i
  {
    if i >= |block| then None
    else if block[i] != 255 then Some((acc + block[i], i + 1))
    else ReadExt(block, i + 1, acc + 255)
  }

  function ReadLen(block: Bytes, i: nat, nibble: nat): (r: Option<(nat, nat)>)
    ensures r.Some? ==> i <= r.value.1
  {
    if nibble == 15 then ReadExt(block, i, 15) else Some((nibble, i))
  }

  /** The match copy from iteration k on: one byte at a time, from the output itself. */
  function CopyFrom(out: Bytes, start: nat, offset: nat, k: nat, mlen: nat): Option<Bytes>
    decreases mlen - k
  {
    if k >= mlen then Some(out)
    else
      match PyAt(out, start - offset + k)
      case None => None
      case Some(b) => CopyFrom(out + [b], start, offset, k + 1, mlen)
  }

  function HighNibble(token: byte): (n: nat)
    ensures n <= 15
  {
    token / 16
  }

  function LowNibble(token: byte): (n: nat)
    ensures n <= 15
  {
    token % 16
  }

  function U16(lo: byte, hi: byte): nat {
    (lo as int) + 256 * (hi as int)
  }

  datatype Step = Fail | Done(out: Bytes) | Next(i: nat, out: Bytes)

  /** The match half of a step, once the literals are copied and the cursor is at i1. */
  function MatchStep(block: Bytes, token: byte, i1: nat, out1: Bytes): (r: Step)
    ensures r.Next? ==> r.i > i1
  {
    if i1 + 1 >= |block| then Done(out1)
    else
      match ReadLen(block, i1 + 2, LowNibble(token))
      case None => Fail
      case Some((m, i2)) =>
        match CopyFrom(out1, |out1|, U16(block[i1], block[i1 + 1]), 0, m + 4)
        case None => Fail
        case Some(out2) => Next(i2, out2)
  }

  /** One iteration of the decoder's loop. */
  function DecodeStep(block: Bytes, i: nat, out: Bytes): (r: Step)
    requires i < |block|
    ensures r.Next? ==> r.i > i
  {
    match ReadLen(block, i + 1, HighNibble(block[i]))
    case None => Fail
    case Some((lit, j)) =>
      MatchStep(block, block[i], j + lit, out + Slice(block, j, j + lit))
  }

  /** The decoder from cursor i on; None is an IndexError. */
  function DecodeFrom(block: Bytes, i: nat, out: Bytes): Option<Bytes>
    decreases |block| - i
  {
    if i >= |block| then Some(out)
    else
      match DecodeStep(block, i, out)
      case Fail => None
      case Done(out') => Some(out')
      case Next(i', out') => DecodeFrom(block, i', out')
  }

  // ---------------------------------------------------------------------
  // The format, independently of the decoder
  // ---------------------------------------------------------------------

  /** A literal run and the match that follows it. */
  datatype Sequence = Sequence(lits: Bytes, offset: nat, mlen: nat)

  function Nibble(n: nat): (r: nat)
    ensures r <= 15
  {
    if n < 15 then n else 15
  }

  function Ext(r: nat): (s: Bytes)
    ensures |s| == r / 255 + 1
  {
    if r < 255 then [r] else [255] + Ext(r - 255)
  }

  function LenBytes(n: nat): Bytes {
    if n < 15 then [] else Ext(n - 15)
  }

  function LiteralBytes(token: byte, lits: Bytes): Bytes {
    [token] + LenBytes(|lits|) + lits
  }

  function MatchBytes(offset: nat, mlen: nat): Bytes
    requires offset < 0x1_0000 && mlen >= 4
  {
    [offset % 256, offset / 256] + LenBytes(mlen - 4)
  }

  function SequenceBytes(s: Sequence): Bytes
    requires s.offset < 0x1_0000 && s.mlen >= 4
  {
    LiteralBytes(16 * Nibble(|s.lits|) + Nibble(s.mlen - 4), s.lits)
    + MatchBytes(s.offset, s.mlen)
  }

  function LastBytes(last: Bytes): Bytes {
    LiteralBytes(16 * Nibble(|last|), last)
  }

  /** LZ4 block format: offsets fit 16 bits, reach back no further than the output so far. */
  predicate WellFormed(seqs: seq<Sequence>, produced: nat) {
    seqs == [] ||
    (1 <= seqs[0].offset < 0x1_0000
     && seqs[0].offset <= produced + |seqs[0].lits|
     && seqs[0].mlen >= 4
     && WellFormed(seqs[1..], produced + |seqs[0].lits| + seqs[0].mlen))
  }

  function Serialize(seqs: seq<Sequence>, last: Bytes, produced: nat): Bytes
    requires WellFormed(seqs, produced)
  {
    if seqs == [] then LastBytes(last)
    else SequenceBytes(seqs[0])
         + Serialize(seqs[1..], last, produced + |seqs[0].lits| + seqs[0].mlen)
  }

  /** The place in a period of length `offset` where step j falls. */
  function Wrap(j: nat, offset: nat): (w: nat)
    requires offset >= 1
    ensures w < offset && w <= j
  {
    if j < offset then j else Wrap(j - offset, offset)
  }

  /** A match: the last `offset` bytes repeated periodically for `mlen` bytes. */
  function Periodic(out: Bytes, offset: nat, mlen: nat): (r: Bytes)
    requires 1 <= offset <= |out|
    ensures |r| == mlen
  {
    seq(mlen, j requires 0 <= j < mlen => out[|out| - offset + Wrap(j, offset)])
  }

  function Meaning(seqs: seq<Sequence>, last: Bytes, out: Bytes): Bytes
    requires WellFormed(seqs, |out|)
  {
    if seqs == [] then out + last
    else
      var out1 := out + seqs[0].lits;
      Meaning(seqs[1..], last, out1 + Periodic(out1, seqs[0].offset, seqs[0].mlen))
  }

  // ---------------------------------------------------------------------
  // Decoding a serialised block yields its meaning
  // ---------------------------------------------------------------------

  lemma {:induction false} ReadExtOfExt(block: Bytes, i: nat, r: nat, acc: nat)
    requires At(block, i, Ext(r))
    ensures ReadExt(block, i, acc) == Some((acc + r, i + |Ext(r)|))
    decreases r
  {
    AtHead(block, i, Ext(r));
    if r >= 255 {
      assert Ext(r)[1..] == Ext(r - 255);
      ReadExtOfExt(block, i + 1, r - 255, acc + 255);
    }
  }

  lemma ReadLenOfLenBytes(block: Bytes, i: nat, n: nat)
    requires At(block, i, LenBytes(n))
    ensures ReadLen(block, i, Nibble(n)) == Some((n, i + |LenBytes(n)|))
  {
    if n >= 15 {
      ReadExtOfExt(block, i, n - 15, 15);
    }
  }

  /** Wrap is the remainder, so a match is periodic with period `offset`. */
  lemma {:induction false} WrapIsRemainder(j: nat, offset: nat)
    requires offset >= 1
    ensures Wrap(j, offset) == j % offset
  {
    if j >= offset {
      WrapIsRemainder(j - offset, offset);
      RemainderStep(j, offset, (j - offset) / offset, j / offset);
    }
  }

  lemma RemainderStep(j: nat, d: nat, q: int, q': int)
    requires j >= d >= 1
    requires q == (j - d) / d && q' == j / d
    ensures (j - d) % d == j % d
  {
    var r, r' := (j - d) % d, j % d;
    assert j - d == d * q + r && j == d * q' + r';
    SmallMultiple(q' - q - 1, d, r - r');
  }

  lemma SmallMultiple(k: int, d: int, m: int)
    requires d * k == m && -d < m < d
    ensures m == 0
  {
    assert k >= 1 ==> d * k >= d;
    assert k <= -1 ==> d * k <= -d;
  }

  /** The byte-by-byte copy of an overlapping match is the periodic extension. */
  lemma {:induction false} CopyIsPeriodic(out: Bytes, offset: nat, k: nat, mlen: nat)
    requires 1 <= offset <= |out| && k <= mlen
    ensures CopyFrom(out + Periodic(out, offset, mlen)[..k], |out|, offset, k, mlen)
         == Some(out + Periodic(out, offset, mlen))
    decreases mlen - k
  {
    var whole := Periodic(out, offset, mlen);
    var cur := out + whole[..k];
    if k < mlen {
      var src := |out| - offset + k;
      assert cur[src] == whole[k] by {
        if k >= offset {
          assert cur[src] == whole[k - offset];
        }
      }
      assert cur + [whole[k]] == out + whole[..k + 1];
      CopyIsPeriodic(out, offset, k + 1, mlen);
    } else {
      assert whole[..k] == whole;
    }
  }

  lemma LiteralsOf(block: Bytes, i: nat, token: byte, lits: Bytes)
    requires At(block, i, LiteralBytes(token, lits))
    requires HighNibble(token) == Nibble(|lits|)
    ensures var j := i + |LiteralBytes(token, lits)| - |lits|;
            i < |block| && block[i] == token && j + |lits| <= |block|
            && ReadLen(block, i + 1, HighNibble(token)) == Some((|lits|, j))
            && Slice(block, j, j + |lits|) == lits
  {
    hide At, Slice, ReadLen, LenBytes;
    AtSplit(block, i, [token] + LenBytes(|lits|), lits);
    AtSplit(block, i, [token], LenBytes(|lits|));
    AtHead(block, i, [token]);
    ReadLenOfLenBytes(block, i + 1, |lits|);
    AtSlice(block, i + 1 + |LenBytes(|lits|)|, lits);
  }

  lemma DecodeLast(block: Bytes, i: nat, last: Bytes, out: Bytes)
    requires At(block, i, LastBytes(last)) && |block| == i + |LastBytes(last)|
    ensures DecodeFrom(block, i, out) == Some(out + last)
  {
    hide At, LiteralBytes, ReadLen, Slice, HighNibble;
    TokenNibbles(Nibble(|last|), 0);
    LiteralsOf(block, i, 16 * Nibble(|last|), last);
    assert DecodeStep(block, i, out) == Done(out + last);
  }

  lemma DecodeMatch(block: Bytes, token: byte, i1: nat, offset: nat, mlen: nat, out1: Bytes)
    requires 1 <= offset < 0x1_0000 && offset <= |out1| && mlen >= 4
    requires LowNibble(token) == Nibble(mlen - 4)
    requires At(block, i1, MatchBytes(offset, mlen))
    ensures MatchStep(block, token, i1, out1)
         == Next(i1 + |MatchBytes(offset, mlen)|, out1 + Periodic(out1, offset, mlen))
  {
    hide At, ReadLen, LenBytes, CopyFrom, U16, LowNibble, Periodic;
    OffsetBytes(offset);
    var lo: byte, hi: byte := offset % 256, offset / 256;
    var off := [lo, hi];
    AtSplit(block, i1, off, LenBytes(mlen - 4));
    AtHead(block, i1, off);
    AtHead(block, i1 + 1, off[1..]);
    ReadLenOfLenBytes(block, i1 + 2, mlen - 4);
    CopyWhole(out1, offset, mlen);
  }

  lemma CopyWhole(out: Bytes, offset: nat, mlen: nat)
    requires 1 <= offset <= |out|
    ensures CopyFrom(out, |out|, offset, 0, mlen) == Some(out + Periodic(out, offset, mlen))
  {
    CopyIsPeriodic(out, offset, 0, mlen);
    assert out + Periodic(out, offset, mlen)[..0] == out;
  }

  lemma TokenNibbles(high: nat, low: nat)
    requires high <= 15 && low <= 15
    ensures HighNibble(16 * high + low) == high && LowNibble(16 * high + low) == low
  {
  }

  lemma OffsetBytes(offset: nat)
    requires offset < 0x1_0000
    ensures offset / 256 < 256 && U16(offset % 256, offset / 256) == offset
  {
  }

  lemma DecodeSequence(block: Bytes, i: nat, s: Sequence, out: Bytes)
    requires 1 <= s.offset < 0x1_0000 && s.offset <= |out| + |s.lits| && s.mlen >= 4
    requires At(block, i, SequenceBytes(s))
    ensures var out1 := out + s.lits;
            i < |block| && DecodeStep(block, i, out)
            == Next(i + |SequenceBytes(s)|, out1 + Periodic(out1, s.offset, s.mlen))
  {
    hide At, LiteralBytes, MatchBytes, LenBytes, ReadLen, MatchStep, Periodic, Slice;
    hide HighNibble, LowNibble, Nibble;
    var nl, nm := Nibble(|s.lits|), Nibble(s.mlen - 4);
    var token: byte := 16 * nl + nm;
    TokenNibbles(nl, nm);
    var front := LiteralBytes(token, s.lits);
    AtSplit(block, i, front, MatchBytes(s.offset, s.mlen));
    LiteralsOf(block, i, token, s.lits);
    DecodeMatch(block, token, i + |front|, s.offset, s.mlen, out + s.lits);
  }

  /** Decoding the tail of a block that holds a serialised list of sequences. */
  lemma {:induction false} DecodeSerialized(block: Bytes, i: nat, seqs: seq<Sequence>,
                                            last: Bytes, out: Bytes)
    requires WellFormed(seqs, |out|)
    requires At(block, i, Serialize(seqs, last, |out|))
    requires |block| == i + |Serialize(seqs, last, |out|)|
    ensures DecodeFrom(block, i, out) == Some(Meaning(seqs, last, out))
    decreases |seqs|
  {
    if seqs == [] {
      DecodeLast(block, i, last, out);
    } else {
      hide At, SequenceBytes, Periodic, DecodeStep;
      var s := seqs[0];
      var out1 := out + s.lits;
      var out2 := out1 + Periodic(out1, s.offset, s.mlen);
      var i' := i + |SequenceBytes(s)|;
      AtSplit(block, i, SequenceBytes(s), Serialize(seqs[1..], last, |out2|));
      assert DecodeFrom(block, i, out) == DecodeFrom(block, i', out2) by {
        DecodeSequence(block, i, s, out);
      }
      assert Meaning(seqs, last, out) == Meaning(seqs[1..], last, out2);
      hide *;
      DecodeSerialized(block, i', seqs[1..], last, out2);
    }
  }

  /** The block theorem: decoding a serialised block appends its meaning to the output. */
  lemma BlockRoundTrip(seqs: seq<Sequence>, last: Bytes, out: Bytes)
    requires WellFormed(seqs, |out|)
    ensures DecodeFrom(Serialize(seqs, last, |out|), 0, out) == Some(Meaning(seqs, last, out))
  {
    var block := Serialize(seqs, last, |out|);
    assert block[0..|block|] == block;
    DecodeSerialized(block, 0, seqs, last, out);
  }

  // ---------------------------------------------------------------------
  // Frames
  // ---------------------------------------------------------------------

  datatype FrameStep = Stop | Bad | More(pos: nat, out: Bytes)

  /** One iteration of the frame decoder's block loop. */
  function BlockStep(data: Bytes, pos: nat, out: Bytes): (r: FrameStep)
    ensures r.More? ==> pos + 4 <= |data| && pos + 4 <= r.pos
  {
    if pos + 4 > |data| then Stop
    else
      var size := UnLe(data[pos..pos + 4]);
      if size == 0 then Stop
      else if size >= 0x8000_0000 then
        var n := size - 0x8000_0000;
        More(pos + 4 + n, out + Slice(data, pos + 4, pos + 4 + n))
      else
        match DecodeFrom(Slice(data, pos + 4, pos + 4 + size), 0, out)
        case None => Bad
        case Some(out') => More(pos + 4 + size, out')
  }

  /** The block loop of the frame decoder, from `pos` on. */
  function BlocksFrom(data: Bytes, pos: nat, out: Bytes): Option<Bytes>
    decreases |data| - pos
  {
    match BlockStep(data, pos, out)
    case Stop => Some(out)
    case Bad => None
    case More(pos', out') => BlocksFrom(data, pos', out')
  }

  datatype Outcome = Raw(bytes: Bytes) | ValueError | IndexError

  function OfBlocks(r: Option<Bytes>): Outcome {
    match r case None => IndexError case Some(b) => Raw(b)
  }

  function DecompressSpec(data: Bytes): Outcome {
    if |data| < 4 then ValueError
    else
      var magic := UnLe(data[..4]);
      if magic == STD_MAGIC then
        if |data| < 6 then IndexError
        else OfBlocks(BlocksFrom(data, if data[4] / 8 % 2 == 1 then 14 else 6, []))
      else if magic == LEGACY_MAGIC then OfBlocks(BlocksFrom(data, 4, []))
      else ValueError
  }

  function Cut(d: Bytes): (n: nat)
    ensures n <= |d| && n <= MAX_BLOCK && (d != [] ==> n > 0)
  {
    if |d| < MAX_BLOCK then |d| else MAX_BLOCK
  }

  function Framed(chunk: Bytes): Bytes {
    Le(|LastBytes(chunk)|, 4) + LastBytes(chunk)
  }

  /** The blocks the encoder emits for `d`, each an all-literal block of at most MAX_BLOCK bytes. */
  function FrameBlocks(d: Bytes): Bytes
    decreases |d|
  {
    if d == [] then []
    else
      Framed(d[..Cut(d)]) + FrameBlocks(d[Cut(d)..])
  }

  function CompressSpec(d: Bytes): Bytes {
    Le(LEGACY_MAGIC, 4) + FrameBlocks(d)
  }

  /** No emitted length reads as the end mark or as the uncompressed bit. */
  lemma BlockLengthIsOrdinary(chunk: Bytes)
    requires |chunk| <= MAX_BLOCK
    ensures 0 < |LastBytes(chunk)| < 0x8000_0000
  {
  }

  lemma OneBlock(data: Bytes, pos: nat, chunk: Bytes, out: Bytes)
    requires |chunk| <= MAX_BLOCK
    requires At(data, pos, Framed(chunk))
    ensures BlockStep(data, pos, out) == More(pos + |Framed(chunk)|, out + chunk)
  {
    hide *;
    var block := LastBytes(chunk);
    BlockLengthIsOrdinary(chunk);
    FramedParts(chunk);
    AtSplit(data, pos, Le(|block|, 4), block);
    SizeReadsBack(data, pos, |block|);
    AtSlice(data, pos + 4, block);
    DecodeLiteralBlock(chunk, out);
    OrdinaryStep(data, pos, block, out);
  }

  lemma FramedParts(chunk: Bytes)
    ensures Framed(chunk) == Le(|LastBytes(chunk)|, 4) + LastBytes(chunk)
  {
  }

  lemma OrdinaryStep(data: Bytes, pos: nat, block: Bytes, out: Bytes)
    requires pos + 4 <= |data| && UnLe(data[pos..pos + 4]) == |block| && 0 < |block| < 0x8000_0000
    requires Slice(data, pos + 4, pos + 4 + |block|) == block && DecodeFrom(block, 0, out).Some?
    ensures BlockStep(data, pos, out) == More(pos + 4 + |block|, DecodeFrom(block, 0, out).value)
  {
    hide DecodeFrom, UnLe, Slice;
  }

  lemma SizeReadsBack(data: Bytes, pos: nat, size: nat)
    requires size < 0x1_0000_0000 && At(data, pos, Le(size, 4))
    ensures pos + 4 <= |data| && UnLe(data[pos..pos + 4]) == size
  {
    hide UnLe, Le, Pow256;
    Powers();
    UnLeOfLe(size, 4);
  }

  lemma DecodeLiteralBlock(chunk: Bytes, out: Bytes)
    ensures DecodeFrom(LastBytes(chunk), 0, out) == Some(out + chunk)
  {
    hide LastBytes, DecodeFrom;
    var block := LastBytes(chunk);
    assert block[0..|block|] == block;
    DecodeLast(block, 0, chunk, out);
  }

  lemma BlocksAtEnd(data: Bytes, pos: nat, out: Bytes)
    requires pos + 4 > |data|
    ensures BlocksFrom(data, pos, out) == Some(out)
  {
    assert BlockStep(data, pos, out) == Stop;
  }

  lemma {:induction false} BlocksOfFrame(data: Bytes, pos: nat, d: Bytes, out: Bytes)
    requires At(data, pos, FrameBlocks(d)) && |data| == pos + |FrameBlocks(d)|
    ensures BlocksFrom(data, pos, out) == Some(out + d)
    decreases |d|
  {
    hide LastBytes, At, Cut, Framed, BlockStep;
    if d == [] {
      BlocksAtEnd(data, pos, out);
      assert out + d == out;
    } else {
      var chunk, rest := d[..Cut(d)], d[Cut(d)..];
      AtSplit(data, pos, Framed(chunk), FrameBlocks(rest));
      OneBlock(data, pos, chunk, out);
      BlocksOfFrame(data, pos + |Framed(chunk)|, rest, out + chunk);
      assert out + chunk + rest == out + d;
    }
  }

  /** The codec theorem, for every byte string, the empty one included. */
  lemma FrameRoundTrip(d: Bytes)
    ensures DecompressSpec(CompressSpec(d)) == Raw(d)
  {
    var data := CompressSpec(d);
    Powers();
    UnLeOfLe(LEGACY_MAGIC, 4);
    assert data[..4] == Le(LEGACY_MAGIC, 4);
    assert data[4..] == FrameBlocks(d);
    BlocksOfFrame(data, 4, d, []);
    assert [] + d == d;
  }

  // ---------------------------------------------------------------------
  // The codec as it runs
  // ---------------------------------------------------------------------

  /** lz4_block_compress_literals */
  method CompressLiterals(chunk: Bytes) returns (out: Bytes)
    ensures out == LastBytes(chunk)
  {
    var n := |chunk|;
    var remaining := n - 15;
    if remaining < 0 {
      out := [n * 16] + chunk;
      return;
    }
    out := [0xF0];
    while remaining >= 255
      invariant remaining >= 0
      invariant out + Ext(remaining) == [0xF0] + Ext(n - 15)
    {
      assert Ext(remaining) == [255] + Ext(remaining - 255);
      out := out + [255];
      remaining := remaining - 255;
    }
    out := out + [remaining];
    out := out + chunk;
  }

  lemma FrameOfNothing()
    ensures FrameBlocks([]) == []
  {
  }

  lemma SliceBeyond(data: Bytes, off: nat)
    requires off >= |data|
    ensures Slice(data, off, |data|) == []
  {
  }

  lemma FrameAdvance(data: Bytes, off: nat)
    requires off < |data|
    ensures FrameBlocks(Slice(data, off, |data|))
         == Framed(Slice(data, off, off + MAX_BLOCK)) + FrameBlocks(Slice(data, off + MAX_BLOCK, |data|))
  {
    hide Framed;
    var left := Slice(data, off, |data|);
    assert left[..Cut(left)] == Slice(data, off, off + MAX_BLOCK);
    assert left[Cut(left)..] == Slice(data, off + MAX_BLOCK, |data|);
  }

  /** lz4_legacy_frame_compress */
  method Compress(data: Bytes) returns (out: Bytes)
    ensures out == CompressSpec(data)
    ensures DecompressSpec(out) == Raw(data)
  {
    out := Le(LEGACY_MAGIC, 4);
    var off := 0;
    assert data[0..|data|] == data;
    hide LastBytes, Slice, Le, UnLe, DecompressSpec, FrameBlocks;
    FrameOfNothing();
    while off < |data|
      invariant 0 <= off
      invariant out + FrameBlocks(Slice(data, off, |data|)) == CompressSpec(data)
    {
      var block := Slice(data, off, off + MAX_BLOCK);
      var comp := CompressLiterals(block);
      FrameAdvance(data, off);
      Assoc(out, Framed(block), FrameBlocks(Slice(data, off + MAX_BLOCK, |data|)));
      Assoc(out, Le(|comp|, 4), comp);
      out := out + Le(|comp|, 4);
      out := out + comp;
      off := off + MAX_BLOCK;
    }
    SliceBeyond(data, off);
    assert out + [] == out;
    FrameRoundTrip(data);
  }

  /** The decoder's growing output buffer. */
  class Decoder {
    var out: Bytes

    constructor ()
      ensures out == []
    {
      out := [];
    }

    /** The copy loop of a match; false is an IndexError. */
    method CopyMatch(offset: nat, mlen: nat) returns (ok: bool)
      modifies this
      ensures ok == CopyFrom(old(out), |old(out)|, offset, 0, mlen).Some?
      ensures ok ==> Some(out) == CopyFrom(old(out), |old(out)|, offset, 0, mlen)
    {
      var start := |out|;
      var k := 0;
      while k < mlen
        invariant 0 <= k
        invariant CopyFrom(out, start, offset, k, mlen) == CopyFrom(old(out), start, offset, 0, mlen)
        decreases mlen - k
      {
        var b := PyAt(out, start - offset + k);
        if b.None? {
          return false;
        }
        out := out + [b.value];
        k := k + 1;
      }
      return true;
    }

    /** The extension-byte loop of a length. */
    static method ReadLength(block: Bytes, from: nat, nibble: nat) returns (r: Option<(nat, nat)>)
      ensures r == ReadLen(block, from, nibble)
    {
      var len: nat, i: nat := nibble, from;
      if len == 15 {
        while true
          invariant ReadExt(block, i, len) == ReadExt(block, from, 15)
          decreases |block| - i
        {
          if i >= |block| {
            return None;
          }
          var b: int := block[i];
          i := i + 1;
          len := len + b;
          if b != 255 {
            break;
          }
        }
      }
      return Some((len, i));
    }

    /** One pass of the loop: what it decided, with the output updated to match. */
    method Iteration(block: Bytes, i: nat) returns (s: Step)
      requires i < |block|
      modifies this
      ensures s == DecodeStep(block, i, old(out))
      ensures !s.Fail? ==> out == s.out
    {
      hide CopyFrom, ReadLen;
      var token := block[i];
      var lit := ReadLength(block, i + 1, HighNibble(token));
      if lit.None? {
        return Fail;
      }
      var j := lit.value.1;
      out := out + Slice(block, j, j + lit.value.0);
      var i1 := j + lit.value.0;
      if i1 >= |block| || i1 + 1 >= |block| {
        return Done(out);
      }
      var m := ReadLength(block, i1 + 2, LowNibble(token));
      if m.None? {
        return Fail;
      }
      var copied := CopyMatch(U16(block[i1], block[i1 + 1]), m.value.0 + 4);
      if !copied {
        return Fail;
      }
      return Next(m.value.1, out);
    }

    /** _decompress_block: appends to the output; false is an IndexError. */
    method DecompressBlock(block: Bytes) returns (ok: bool)
      modifies this
      ensures ok == DecodeFrom(block, 0, old(out)).Some?
      ensures ok ==> Some(out) == DecodeFrom(block, 0, old(out))
    {
      var i := 0;
      hide DecodeStep, MatchStep;
      while i < |block|
        invariant DecodeFrom(block, i, out) == DecodeFrom(block, 0, old(out))
        decreases |block| - i
      {
        var s := Iteration(block, i);
        match s
        case Fail => return false;
        case Done(_) => return true;
        case Next(i', _) => i := i';
      }
      return true;
    }

    /** lz4_decompress */
    method Decompress(data: Bytes) returns (r: Outcome)
      requires out == []
      modifies this
      ensures r == DecompressSpec(data)
    {
      hide UnLe, DecodeFrom, Slice;
      if |data| < 4 {
        return ValueError;
      }
      var magic := UnLe(data[..4]);
      var pos := 4;
      if magic == STD_MAGIC {
        if |data| < 6 {
          return IndexError;
        }
        pos := if data[4] / 8 % 2 == 1 then 14 else 6;
      } else if magic != LEGACY_MAGIC {
        return ValueError;
      }
      ghost var first := pos;
      while pos + 4 <= |data|
        invariant BlocksFrom(data, pos, out) == BlocksFrom(data, first, [])
        decreases |data| - pos
      {
        var size := UnLe(data[pos..pos + 4]);
        assert size == 0 ==> BlockStep(data, pos, out) == Stop;
        pos := pos + 4;
        if size == 0 {
          return Raw(out);
        }
        if size >= 0x8000_0000 {
          var n := size - 0x8000_0000;
          out := out + Slice(data, pos, pos + n);
          pos := pos + n;
        } else {
          var ok := DecompressBlock(Slice(data, pos, pos + size));
          if !ok {
            return IndexError;
          }
          pos := pos + size;
        }
      }
      return Raw(out);
    }
  }
}
