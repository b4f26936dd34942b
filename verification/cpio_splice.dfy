/**
 The splice of records into an existing archive (tools/build_sdk_initrd.py): the old
 archive is cut 110 bytes before the first occurrence of the trailer's name.
 */
module CpioSplice {
  import opened Bytes
  import opened Wrappers
  import opened Sequences
  import opened Utf8
  import opened Cpio

  /** Where `raw[:trailer_idx - 110]` ends; a negative bound counts from the end. */
  function Cut(raw: Bytes): (c: nat)
    ensures c <= |raw|
  {
    match FindFrom(raw, TRAILER, 0)
    case None => |raw|
    case Some(i) => if i >= 110 then i - 110 else if |raw| + i >= 110 then |raw| + i - 110 else 0
  }

  function Splice(raw: Bytes, es: seq<Entry>): Bytes {
    raw[..Cut(raw)] + Whole(Zero, 0, es)
  }

  // ---------------------------------------------------------------------
  // Cutting at a record boundary
  // ---------------------------------------------------------------------

  lemma SamePiece(raw: Bytes, other: Bytes, lo: nat, hi: nat, end: nat)
    requires lo <= hi <= end <= |raw| && end <= |other| && raw[..end] == other[..end]
    ensures raw[lo..hi] == other[lo..hi]
  {
    forall i | lo <= i < hi
      ensures raw[i] == other[i]
    {
      assert raw[..end][i] == other[..end][i];
    }
  }

  lemma {:induction false} FieldsAreLocal(raw: Bytes, other: Bytes, pos: nat, n: nat, end: nat)
    requires pos + 8 * n <= end <= |raw| && end <= |other| && raw[..end] == other[..end]
    ensures ReadFields(raw, pos, n) == ReadFields(other, pos, n)
    decreases n
  {
    if n > 0 {
      SamePiece(raw, other, pos, pos + 8, end);
      hide ParseHex;
      FieldsAreLocal(raw, other, pos + 8, n - 1, end);
    }
  }

  lemma SlicesAreLocal(raw: Bytes, other: Bytes, lo: nat, hi: nat, end: nat)
    requires lo <= hi <= end <= |raw| && end <= |other| && raw[..end] == other[..end]
    ensures Slice(raw, lo, hi) == Slice(other, lo, hi)
  {
    SamePiece(raw, other, lo, hi, end);
  }

  lemma BodyIsLocal(raw: Bytes, other: Bytes, pos: nat, mode: nat, size: nat, nameSize: nat, end: nat)
    requires ReadBody(raw, pos, mode, size, nameSize).Found?
    requires ReadBody(raw, pos, mode, size, nameSize).next <= end <= |raw|
    requires end <= |other| && raw[..end] == other[..end]
    ensures ReadBody(other, pos, mode, size, nameSize) == ReadBody(raw, pos, mode, size, nameSize)
  {
    hide *;
    var from := Align4(pos + 110 + nameSize);
    BodyIs(raw, pos, mode, size, nameSize);
    BodyIs(other, pos, mode, size, nameSize);
    NameIsLocal(raw, other, pos + 110, nameSize, end);
    SlicesAreLocal(raw, other, from, from + size, end);
  }

  lemma BodyIs(data: Bytes, pos: nat, mode: nat, size: nat, nameSize: nat)
    ensures var name, from := Decode(NameBytes(data, pos + 110, nameSize)), Align4(pos + 110 + nameSize);
            ReadBody(data, pos, mode, size, nameSize)
            == if name == TRAILER then End
               else Found(Record(name, mode, Slice(data, from, from + size)), Align4(from + size))
  {
    hide NameBytes, Align4, Slice, Decode;
  }

  lemma NameIsLocal(raw: Bytes, other: Bytes, at: nat, nameSize: nat, end: nat)
    requires at + nameSize <= end <= |raw| && end <= |other| && raw[..end] == other[..end]
    ensures NameBytes(raw, at, nameSize) == NameBytes(other, at, nameSize)
  {
    hide Slice;
    if nameSize > 0 {
      SlicesAreLocal(raw, other, at, at + nameSize - 1, end);
    }
  }

  /** A record depends on no byte behind it. */
  lemma RecordIsLocal(raw: Bytes, other: Bytes, pos: nat, end: nat)
    requires ReadRecord(raw, pos).Found? && ReadRecord(raw, pos).next <= end <= |raw|
    requires end <= |other| && raw[..end] == other[..end]
    ensures ReadRecord(other, pos) == ReadRecord(raw, pos)
  {
    hide ReadFields, ReadBody;
    FieldsAreLocal(raw, other, pos + 6, 13, end);
    SamePiece(raw, other, pos, pos + 6, end);
    var f := ReadFields(raw, pos + 6, 13).value;
    BodyIsLocal(raw, other, pos, f[1], f[6], f[11], end);
  }

  lemma {:induction false} WalkIsLocal(raw: Bytes, other: Bytes, pos: nat, rs: seq<Record>, end: nat)
    requires Reaches(raw, pos, rs, end)
    requires end <= |raw| && end <= |other| && raw[..end] == other[..end]
    ensures Reaches(other, pos, rs, end)
    decreases |rs|
  {
    hide ReadRecord;
    if rs != [] {
      var next := ReadRecord(raw, pos).next;
      ReachedMonotone(raw, next, rs[1..], end);
      RecordIsLocal(raw, other, pos, end);
      WalkIsLocal(raw, other, next, rs[1..], end);
    }
  }

  /**
   When the cut falls on a record boundary, the spliced archive reads as the records
   before the cut and then the new ones.
   */
  lemma SpliceReadsBack(raw: Bytes, rs: seq<Record>, es: seq<Entry>)
    requires Reaches(raw, 0, rs, Cut(raw)) && Storable(0, es) && AllReadable(es)
    ensures ReadAll(Splice(raw, es), 0) == Archive(rs + Stored(es), true)
  {
    hide *;
    var c, data := Cut(raw), Splice(raw, es);
    SplicePieces(raw, es);
    ReachedMonotone(raw, 0, rs, c);
    WalkIsLocal(raw, data, 0, rs, c);
    ReadableArchive(data, c, Zero, 0, es);
    ReadAfterWalk(data, 0, rs, c);
  }

  lemma SplicePieces(raw: Bytes, es: seq<Entry>)
    ensures var c, data := Cut(raw), Splice(raw, es);
            c <= |data| && data[..c] == raw[..c] && At(data, c, Whole(Zero, 0, es)) && Aligned(0)
  {
    hide Cut, Whole;
    AtMiddle(raw[..Cut(raw)], Whole(Zero, 0, es), []);
    assert raw[..Cut(raw)] + Whole(Zero, 0, es) + [] == Splice(raw, es);
  }

  // ---------------------------------------------------------------------
  // Where the trailer's name stands in an archive
  // ---------------------------------------------------------------------

  /** The name or the data of a record contains the trailer's name. */
  ghost predicate HoldsText(rec: Record) {
    Holds(rec.name, TRAILER) || Holds(rec.data, TRAILER)
  }

  ghost predicate AllClean(es: seq<Entry>) {
    forall i | 0 <= i < |es| :: !HoldsText(StoredAs(es[i]))
  }

  lemma {:induction false} HexHasNoT(v: nat, k: nat, upper: bool)
    ensures TRAILER[0] !in Hex(v, k, upper)
    decreases v + k
  {
    if v != 0 || k != 0 {
      HexHasNoT(v / 16, if k == 0 then 0 else k - 1, upper);
      assert Digit(v % 16, upper) != 0x54;
    }
  }

  lemma {:induction false} FieldsHaveNoT(vs: seq<nat>, upper: bool)
    ensures TRAILER[0] !in Fields(vs, upper)
  {
    if vs != [] {
      HexHasNoT(vs[0], 8, upper);
      FieldsHaveNoT(vs[1..], upper);
    }
  }

  lemma HeaderHasNoT(h: Header, upper: bool)
    ensures TRAILER[0] !in HeaderBytes(h, upper)
  {
    hide Fields;
    FieldsHaveNoT(HeaderFields(h), upper);
  }

  lemma AsciiHolds(front: Bytes, path: Text)
    requires front <= path && Holds(front, TRAILER)
    ensures Holds(path, TRAILER)
  {
    var i: nat :| At(front, i, TRAILER);
    assert path[i..i + 10] == front[i..i + 10];
    assert At(path, i, TRAILER);
  }

  lemma PathIsClean(path: Text)
    requires (Ascii(path) || EndsReplaced(path)) && !Holds(path, TRAILER)
    ensures !Holds(Encode(path), TRAILER)
  {
    if Ascii(path) {
      AsciiEncode(path);
      hide *;
      if Holds(Encode(path), TRAILER) {
        AsciiHolds(Encode(path), path);
      }
    } else {
      var front: Bytes, tail := path[..|path| - 1], [0xEF, 0xBF, 0xBD];
      ReplacedBytes(path);
      hide *;
      NotBegun(tail, TRAILER);
      if Holds(front, TRAILER) {
        AsciiHolds(front, path);
      } else {
        TailIsForeign(front);
        HoldsJoin(front, tail, TRAILER);
      }
    }
  }

  lemma TailIsForeign(front: Bytes)
    ensures SafeSeam(front, [0xEF, 0xBF, 0xBD], TRAILER)
  {
  }

  lemma PaddedIsClean(b: Bytes, from: nat)
    requires !Holds(b, TRAILER)
    ensures !Holds(PaddedTo4(b, from), TRAILER)
  {
    hide Holds, Align4;
    var pad := Zeros(Align4(from + |b|) - (from + |b|));
    NotBegun(pad, TRAILER);
    HoldsJoin(b, pad, TRAILER);
  }

  lemma PaddedNameIsClean(name: Bytes, from: nat)
    requires !Holds(name, TRAILER)
    ensures !Holds(PaddedTo4(name + [0], from), TRAILER)
    ensures var np := PaddedTo4(name + [0], from); np[|np| - 1] == 0
  {
    hide Holds, Align4;
    NotBegun([0], TRAILER);
    HoldsJoin(name, [0], TRAILER);
    PaddedIsClean(name + [0], from);
  }

  lemma RecordIsClean(h: Header, name: Bytes, body: Bytes, upper: bool)
    requires !Holds(name, TRAILER) && !Holds(body, TRAILER)
    ensures !Holds(RecordBytes(h, name, body, upper), TRAILER)
  {
    var header := HeaderBytes(h, upper);
    var np, bp := PaddedTo4(name + [0], |header|), PaddedTo4(body, 0);
    assert RecordBytes(h, name, body, upper) == header + np + bp;
    hide *;
    HeaderHasNoT(h, upper);
    PaddedNameIsClean(name, |header|);
    PaddedIsClean(body, 0);
    HoldsBehind(header, np, TRAILER);
    assert (header + np)[|header + np| - 1] == np[|np| - 1];
    HoldsJoin(header + np, bp, TRAILER);
  }

  lemma EntryIsClean(ino: nat, e: Entry, upper: bool)
    requires Readable(e) && !HoldsText(StoredAs(e))
    ensures !Holds(EntryRecord(ino, e, upper), TRAILER) && MAGIC <= EntryRecord(ino, e, upper)
  {
    hide RecordBytes, Encode, Holds;
    PathIsClean(e.path);
    RecordIsClean(EntryHeader(ino, e), Encode(e.path), e.data, upper);
    RecordStartsWithMagic(EntryHeader(ino, e), Encode(e.path), e.data, upper);
  }

  lemma {:induction false} RecordsAreClean(style: Style, start: nat, es: seq<Entry>)
    requires AllReadable(es) && AllClean(es)
    ensures !Holds(Records(style, start, es), TRAILER)
    ensures es != [] ==> MAGIC <= Records(style, start, es)
    decreases |es|
  {
    if es == [] {
      NotBegun<byte>([], TRAILER);
    } else {
      var n := |es| - 1;
      var ino, before := InoAt(style, start, n), Records(style, start, es[..n]);
      hide *;
      LastRecord(style, start, es);
      CleanAt(es, n);
      RecordsAreClean(style, start, es[..n]);
      EntryIsClean(ino, es[n], style == Counting);
      JoinAtMagic(before, EntryRecord(ino, es[n], style == Counting));
    }
  }

  lemma CleanAt(es: seq<Entry>, i: nat)
    requires AllReadable(es) && AllClean(es) && i < |es|
    ensures Readable(es[i]) && !HoldsText(StoredAs(es[i])) && AllReadable(es[..i]) && AllClean(es[..i])
  {
    hide Readable, HoldsText;
  }

  lemma LastRecord(style: Style, start: nat, es: seq<Entry>)
    requires es != []
    ensures (var n := |es| - 1;
             && (n == 0 ==> Records(style, start, es[..n]) == [])
             && Records(style, start, es)
                == Records(style, start, es[..n]) + EntryRecord(InoAt(style, start, n), es[n], style == Counting))
  {
    hide EntryRecord, InoAt, Aligned;
  }

  lemma JoinAtMagic(front: Bytes, record: Bytes)
    requires !Holds(front, TRAILER) && !Holds(record, TRAILER) && MAGIC <= record
    requires front != [] ==> MAGIC <= front
    ensures !Holds(front + record, TRAILER) && MAGIC <= front + record
  {
    hide Holds;
    assert record[0] == MAGIC[0] && MAGIC[0] !in TRAILER;
    HoldsJoin(front, record, TRAILER);
  }

  /** The parts of a trailer: its header, the text, and zeros. */
  function TrailerHeader(style: Style): Bytes {
    HeaderBytes(Header(0, if style == Counting then 0 else 0x81A4, 0, 11), style == Counting)
  }

  lemma TrailerIs(style: Style)
    ensures Trailer(style) == TrailerHeader(style) + (TRAILER + [0, 0, 0, 0])
    ensures |TrailerHeader(style)| == 110 && TRAILER[0] !in TrailerHeader(style) && MAGIC <= TrailerHeader(style)
  {
    var h := Header(0, if style == Counting then 0 else 0x81A4, 0, 11);
    HeaderHasNoT(h, style == Counting);
    HeaderLength(h, style == Counting);
    assert MAGIC <= TrailerHeader(style);
    hide HeaderBytes;
    assert PaddedTo4(TRAILER + [0], 110) == TRAILER + [0, 0, 0, 0];
    assert PaddedTo4([], 0) == [];
  }

  lemma TextAndZeros(i: nat)
    ensures At(TRAILER + [0, 0, 0, 0], i, TRAILER) <==> i == 0
  {
    var s := TRAILER + [0, 0, 0, 0];
    if At(s, i, TRAILER) {
      AtHead(s, i, TRAILER);
    }
  }

  /** Behind bytes that do not hold the text, the trailer holds it at its name only. */
  lemma OnlyInTrailer(front: Bytes, style: Style, i: nat)
    requires !Holds(front, TRAILER)
    ensures At(front + Trailer(style), i, TRAILER) <==> i == |front| + 110
    ensures |Trailer(style)| == 124
  {
    var header, tail := TrailerHeader(style), TRAILER + [0, 0, 0, 0];
    TrailerIs(style);
    assert Trailer(style)[0] == header[0] == MAGIC[0] && MAGIC[0] !in TRAILER;
    hide Trailer, TrailerHeader, Holds, At;
    if At(front + Trailer(style), i, TRAILER) {
      PastFront(front, Trailer(style), TRAILER, i);
      PastForeign(header, tail, TRAILER, i - |front|);
      TextAndZeros(i - |front| - 110);
    }
    if i == |front| + 110 {
      TextAndZeros(0);
      Behind(header, tail, TRAILER, 110);
      Behind(front, Trailer(style), TRAILER, i);
    }
  }

  // ---------------------------------------------------------------------
  // Archives of the project's writers
  // ---------------------------------------------------------------------

  /** When no file of the archive holds the text, the cut is where the trailer begins. */
  lemma CutAtTrailer(style: Style, start: nat, olds: seq<Entry>)
    requires AllReadable(olds) && AllClean(olds)
    ensures Cut(Whole(style, start, olds)) == |Records(style, start, olds)|
  {
    var front, raw := Records(style, start, olds), Whole(style, start, olds);
    RecordsAreClean(style, start, olds);
    OnlyInTrailer(front, style, |front| + 110);
    hide Records, Trailer, At;
    FindIsFirst(raw, TRAILER, 0, |front| + 110);
    OnlyInTrailer(front, style, FindFrom(raw, TRAILER, 0).value);
  }

  lemma SpliceKeeps(style: Style, start: nat, olds: seq<Entry>, es: seq<Entry>)
    requires Storable(start, olds) && AllReadable(olds) && Storable(0, es) && AllReadable(es) && AllClean(olds)
    ensures ReadAll(Splice(Whole(style, start, olds), es), 0) == Archive(Stored(olds) + Stored(es), true)
  {
    hide *;
    var raw := Whole(style, start, olds);
    CutAtTrailer(style, start, olds);
    WholeWalk(style, start, olds);
    SpliceReadsBack(raw, Stored(olds), es);
  }

  lemma WholeWalk(style: Style, start: nat, olds: seq<Entry>)
    requires Storable(start, olds) && AllReadable(olds)
    ensures Reaches(Whole(style, start, olds), 0, Stored(olds), |Records(style, start, olds)|)
  {
    var records := Records(style, start, olds);
    hide Records, Trailer, Stored, AllReadable, Storable, Reaches;
    InFront(records, Trailer(style), records, 0);
    RecordsReach(Whole(style, start, olds), 0, style, start, olds);
  }

  // ---------------------------------------------------------------------
  // A file that holds the text
  // ---------------------------------------------------------------------

  lemma {:induction false} ParsedHasNoT(s: Bytes)
    requires ParseHex(s).Some?
    ensures TRAILER[0] !in s
  {
    if s != [] {
      var n := |s| - 1;
      ParsedHasNoT(s[..n]);
      assert s == s[..n] + [s[n]];
    }
  }

  lemma NoTInParts(data: Bytes, lo: nat, mid: nat, hi: nat)
    requires lo <= mid <= hi <= |data|
    requires TRAILER[0] !in data[lo..mid] && TRAILER[0] !in data[mid..hi]
    ensures TRAILER[0] !in data[lo..hi]
  {
    assert data[lo..hi] == data[lo..mid] + data[mid..hi];
  }

  lemma {:induction false} ReadFieldsHaveNoT(data: Bytes, pos: nat, n: nat)
    requires pos + 8 * n <= |data| && ReadFields(data, pos, n).Some?
    ensures TRAILER[0] !in data[pos..pos + 8 * n]
    decreases n
  {
    if n > 0 {
      hide ParseHex;
      ParsedHasNoT(data[pos..pos + 8]);
      ReadFieldsHaveNoT(data, pos + 8, n - 1);
      assert pos + 8 + 8 * (n - 1) == pos + 8 * n;
      NoTInParts(data, pos, pos + 8, pos + 8 * n);
    }
  }

  /** The text does not begin in the header of a record that can be read. */
  lemma ReadHeaderHasNoT(data: Bytes, pos: nat)
    requires ReadRecord(data, pos).Found?
    ensures pos + 110 <= |data| && TRAILER[0] !in data[pos..pos + 110]
  {
    hide ReadFields, ReadBody;
    ReadFieldsHaveNoT(data, pos + 6, 13);
    NoTInParts(data, pos, pos + 6, pos + 110);
  }

  lemma PastHeader(raw: Bytes, k: nat)
    requires ReadRecord(raw, 0).Found? && At(raw, k, TRAILER)
    ensures k >= 110
  {
    hide ReadRecord;
    AtHead(raw, k, TRAILER);
    ReadHeaderHasNoT(raw, 0);
  }

  /** What is kept of an archive that begins with a record does not hold the text. */
  lemma CutIsClean(raw: Bytes)
    requires ReadRecord(raw, 0).Found?
    ensures !Holds(raw[..Cut(raw)], TRAILER)
  {
    if Holds(raw[..Cut(raw)], TRAILER) {
      CutBehindText(raw);
    }
  }

  lemma CutBehindText(raw: Bytes)
    requires Holds(raw[..Cut(raw)], TRAILER)
    ensures !ReadRecord(raw, 0).Found?
  {
    var c := Cut(raw);
    var i: nat :| At(raw[..c], i, TRAILER);
    hide ReadRecord;
    InFront(raw[..c], raw[c..], TRAILER, i);
    assert raw[..c] + raw[c..] == raw;
    FindIsFirst(raw, TRAILER, 0, i);
    if ReadRecord(raw, 0).Found? {
      PastHeader(raw, FindFrom(raw, TRAILER, 0).value);
    }
  }

  /** In the spliced archive the text stands in the last 14 bytes only. */
  lemma OnlyAtTheEnd(raw: Bytes, es: seq<Entry>, i: nat)
    requires ReadRecord(raw, 0).Found? && es != [] && AllReadable(es) && AllClean(es)
    requires At(Splice(raw, es), i, TRAILER)
    ensures i + 14 == |Splice(raw, es)|
  {
    hide ReadRecord, AllReadable, AllClean, Records, Trailer, At;
    var kept, added := raw[..Cut(raw)], Records(Zero, 0, es);
    CutIsClean(raw);
    RecordsAreClean(Zero, 0, es);
    assert added[0] == MAGIC[0] && MAGIC[0] !in TRAILER;
    HoldsJoin(kept, added, TRAILER);
    OnlyInTrailer(kept + added, Zero, i);
    Assoc(kept, added, Trailer(Zero));
  }

  lemma SliceHolds(data: Bytes, lo: nat, hi: nat, i: nat)
    requires At(Slice(data, lo, hi), i, TRAILER)
    ensures At(data, lo + i, TRAILER) && lo + i + 10 <= hi
  {
    var top := if hi < |data| then hi else |data|;
    if lo < top {
      var front := data[..top];
      assert front[lo..] == data[lo..top];
      AtDrop(front, lo, i, TRAILER);
      InFront(front, data[top..], TRAILER, lo + i);
      assert front + data[top..] == data;
    }
  }

  /** A record that holds the text holds it before its end. */
  lemma HeldBefore(data: Bytes, pos: nat) returns (q: nat)
    requires ReadRecord(data, pos).Found? && HoldsText(ReadRecord(data, pos).rec)
    ensures At(data, q, TRAILER) && q + 10 <= ReadRecord(data, pos).next
  {
    var f := ReadFields(data, pos + 6, 13).value;
    RecordByHeader(data, pos);
    hide ReadRecord, ReadFields, HoldsText;
    q := HeldInBody(data, pos, f[1], f[6], f[11]);
  }

  lemma HeldInBody(data: Bytes, pos: nat, mode: nat, size: nat, nameSize: nat) returns (q: nat)
    requires var r := ReadBody(data, pos, mode, size, nameSize); r.Found? && HoldsText(r.rec)
    ensures At(data, q, TRAILER) && q + 10 <= ReadBody(data, pos, mode, size, nameSize).next
  {
    var from := Align4(pos + 110 + nameSize);
    hide Align4, Aligned, Slice, NameBytes, Decode, Holds, At;
    if Holds(Decode(NameBytes(data, pos + 110, nameSize)), TRAILER) {
      q := HeldInName(data, pos + 110, nameSize);
    } else {
      q := HeldInSlice(data, from, from + size);
    }
  }

  lemma HeldInName(data: Bytes, at: nat, nameSize: nat) returns (q: nat)
    requires Holds(Decode(NameBytes(data, at, nameSize)), TRAILER)
    ensures At(data, q, TRAILER) && q + 10 <= at + nameSize
  {
    HeldDecoded(NameBytes(data, at, nameSize));
    hide Slice, Decode;
    q := HeldInSlice(data, at, if nameSize == 0 then at else at + nameSize - 1);
  }

  lemma HeldDecoded(name: Bytes)
    requires Holds(Decode(name), TRAILER)
    ensures Holds(name, TRAILER)
  {
    var k: nat :| At(Decode(name), k, TRAILER);
    hide Decode;
    var i := DecodedHolds(name, k, TRAILER);
    assert At(name, i, TRAILER);
  }

  lemma HeldInSlice(data: Bytes, lo: nat, hi: nat) returns (q: nat)
    requires Holds(Slice(data, lo, hi), TRAILER)
    ensures At(data, q, TRAILER) && q + 10 <= hi
  {
    var i: nat :| At(Slice(data, lo, hi), i, TRAILER);
    hide Slice, At;
    SliceHolds(data, lo, hi, i);
    q := lo + i;
  }

  /** A record that is not the last one read has room for another header behind it. */
  lemma {:induction false} RecordAt(data: Bytes, pos: nat, j: nat) returns (at: nat)
    requires j + 1 < |ReadAll(data, pos).records|
    ensures ReadRecord(data, at).Found? && ReadRecord(data, at).rec == ReadAll(data, pos).records[j]
    ensures ReadRecord(data, at).next + 110 <= |data|
    decreases j
  {
    hide *;
    ReadAllStep(data, pos);
    var r := ReadRecord(data, pos);
    if j == 0 {
      ReadAllStep(data, r.next);
      ReadRecordFits(data, r.next);
      at := pos;
    } else {
      at := RecordAt(data, r.next, j - 1);
    }
  }

  lemma ReadRecordFits(data: Bytes, pos: nat)
    ensures ReadRecord(data, pos).Found? ==> pos + 110 <= |data|
  {
  }

  /**
   Whatever archive the records come from: when one of them holds the text, the
   splice does not read as those records and then the new ones.
   */
  lemma TextBreaksSplice(raw: Bytes, rs: seq<Record>, end: nat, es: seq<Entry>, j: nat)
    requires Reaches(raw, 0, rs, end) && j < |rs| && HoldsText(rs[j])
    requires es != [] && AllReadable(es) && AllClean(es)
    ensures ReadAll(Splice(raw, es), 0).records != rs + Stored(es)
  {
    var data := Splice(raw, es);
    assert ReadRecord(raw, 0).Found?;
    hide *;
    if ReadAll(data, 0).records == rs + Stored(es) {
      var at := RecordAt(data, 0, j);
      var q := HeldBefore(data, at);
      OnlyAtTheEnd(raw, es, q);
    }
  }

  lemma HoldingEntry(olds: seq<Entry>) returns (j: nat)
    requires !AllClean(olds)
    ensures j < |olds| && HoldsText(Stored(olds)[j])
  {
    hide HoldsText;
    j :| 0 <= j < |olds| && HoldsText(StoredAs(olds[j]));
  }

  /**
   The splice theorem: new files that do not hold the trailer's name are added to an
   archive, and all files of both are read, if and only if no path and no content of
   the old files holds the trailer's name.
   */
  lemma SpliceKeepsAll(style: Style, start: nat, olds: seq<Entry>, es: seq<Entry>)
    requires Storable(start, olds) && AllReadable(olds)
    requires es != [] && Storable(0, es) && AllReadable(es) && AllClean(es)
    ensures (ReadAll(Splice(Whole(style, start, olds), es), 0).records == Stored(olds) + Stored(es)
        <==> AllClean(olds))
  {
    hide *;
    if AllClean(olds) {
      SpliceKeeps(style, start, olds, es);
    } else {
      var j := HoldingEntry(olds);
      WholeWalk(style, start, olds);
      TextBreaksSplice(Whole(style, start, olds), Stored(olds), |Records(style, start, olds)|, es, j);
    }
  }

  // ---------------------------------------------------------------------
  // All can be lost
  // ---------------------------------------------------------------------

  // A file that contains the trailer's name as data: the cut falls into its header.
  const CLASHING: Entry := Entry([0x61], 0x81A4, TRAILER)

  lemma ClashingHeader()
    ensures HeaderFits(EntryHeader(0, CLASHING)) && Encode(CLASHING.path) == [0x61]
  {
    AsciiEncode(CLASHING.path);
  }

  lemma OneRecord(e: Entry)
    ensures Records(Zero, 0, [e]) == EntryRecord(0, e, false)
  {
    hide EntryRecord;
    assert [e][..0] == [] && Records(Zero, 0, []) == [];
    var record := EntryRecord(0, e, false);
    assert [] + record == record;
  }

  /** The bytes before the file's data hold no T. */
  lemma ClashingHead(h: Header)
    requires HeaderFits(h)
    ensures var head := HeaderBytes(h, false) + PaddedTo4([0x61] + [0], |HeaderBytes(h, false)|);
            |head| == 112 && TRAILER[0] !in head
  {
    HeaderLength(h, false);
    FieldsHaveNoT(HeaderFields(h), false);
    hide Fields;
    assert PaddedTo4([0x61] + [0], 110) == [0x61, 0];
  }

  lemma ClashingCut()
    ensures Cut(Whole(Zero, 0, [CLASHING])) == 2
  {
    var h, raw := EntryHeader(0, CLASHING), Whole(Zero, 0, [CLASHING]);
    var head, back := HeaderBytes(h, false) + PaddedTo4([0x61] + [0], |HeaderBytes(h, false)|), PaddedTo4(TRAILER, 0);
    ClashingHeader();
    OneRecord(CLASHING);
    ClashingHead(h);
    assert EntryRecord(0, CLASHING, false) == head + back;
    hide HeaderBytes, Records, Trailer, Encode, PaddedTo4;
    assert raw == (head + back) + Trailer(Zero);
    hide Whole;
    AtMiddle([], head + back, Trailer(Zero));
    assert [] + (head + back) + Trailer(Zero) == raw;
    ClashingFind(raw, head, back);
  }

  lemma ClashingFind(raw: Bytes, head: Bytes, back: Bytes)
    requires At(raw, 0, head + back) && |head| == 112 && TRAILER[0] !in head && TRAILER <= back
    ensures Cut(raw) == 2
  {
    AtSplit(raw, 0, head, back);
    assert At(raw, 112, TRAILER) by {
      assert back == TRAILER + back[10..];
      AtSplit(raw, 112, TRAILER, back[10..]);
    }
    assert raw[0..112] == head;
    FindSkips(raw, TRAILER, 0, 112);
  }

  /**
   Cutting at the first occurrence of the trailer's name is not safe: an archive that
   holds a file with that text in it reads fine, and after the splice nothing is
   read from it, not even the new files.
   */
  lemma SpliceCanLoseAll(es: seq<Entry>)
    ensures ReadAll(Whole(Zero, 0, [CLASHING]), 0) == Archive([StoredAs(CLASHING)], true)
    ensures ReadAll(Splice(Whole(Zero, 0, [CLASHING]), es), 0) == Archive([], true)
  {
    hide *;
    var raw := Whole(Zero, 0, [CLASHING]);
    WholeStandsAtZero(raw);
    ClashingIsReadable();
    ReadableArchive(raw, 0, Zero, 0, [CLASHING]);
    StoredOne(CLASHING);
    WholeStartsWithMagic([CLASHING]);
    WholeStartsWithMagic(es);
    ClashingCut();
    SplicedAtTwo(raw, es);
  }

  lemma ClashingIsReadable()
    ensures Storable(0, [CLASHING]) && AllReadable([CLASHING])
  {
    assert Readable(CLASHING);
  }

  lemma SplicedAtTwo(raw: Bytes, es: seq<Entry>)
    requires Cut(raw) == 2 && MAGIC <= raw && MAGIC <= Whole(Zero, 0, es)
    ensures ReadAll(Splice(raw, es), 0) == Archive([], true)
  {
    hide Cut, Whole, ReadAll;
    var data := Splice(raw, es);
    assert data[5] == Whole(Zero, 0, es)[3] == MAGIC[3];
    assert data[..6][5] != MAGIC[5];
    NotAnArchive(data);
  }

  lemma StoredOne(e: Entry)
    ensures Stored([e]) == [StoredAs(e)]
  {
  }

  lemma NotAnArchive(data: Bytes)
    requires |data| >= 6 && data[..6] != MAGIC
    ensures ReadAll(data, 0) == Archive([], true)
  {
    assert data[0..6] == data[..6];
  }

  lemma {:induction false} RecordsStartWithMagic(es: seq<Entry>)
    requires es != []
    ensures MAGIC <= Records(Zero, 0, es)
    decreases |es|
  {
    hide Fields, PaddedTo4, Encode;
    var n := |es| - 1;
    assert MAGIC <= EntryRecord(0, es[n], false);
    if n > 0 {
      RecordsStartWithMagic(es[..n]);
    } else {
      assert Records(Zero, 0, es[..0]) == [];
    }
  }

  lemma WholeStartsWithMagic(es: seq<Entry>)
    ensures MAGIC <= Whole(Zero, 0, es)
  {
    hide Fields, PaddedTo4;
    assert MAGIC <= Trailer(Zero);
    if es != [] {
      RecordsStartWithMagic(es);
    }
  }
}
