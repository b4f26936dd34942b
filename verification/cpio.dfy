/**
 The newc cpio archives of the project: two writers (tools/m0_build.py and
 tools/build_sdk_initrd.py) and the reader (tools/imgtools.py).
 */
module Cpio {
  import opened Bytes
  import opened Wrappers
  import opened Sequences
  import opened Utf8

  const MAGIC: Bytes := [0x30, 0x37, 0x30, 0x37, 0x30, 0x31]  // "070701"
  const TRAILER: Bytes := [0x54, 0x52, 0x41, 0x49, 0x4C, 0x45, 0x52, 0x21, 0x21, 0x21]  // "TRAILER!!!"
  const DEBUG_RAMDISK: Bytes :=
    [0x64, 0x65, 0x62, 0x75, 0x67, 0x5F, 0x72, 0x61, 0x6D, 0x64, 0x69, 0x73, 0x6B]  // "debug_ramdisk"

  // ---------------------------------------------------------------------
  // Hexadecimal fields
  // ---------------------------------------------------------------------

  function Digit(d: nat, upper: bool): byte
    requires d < 16
  {
    if d < 10 then 0x30 + d else if upper then 0x37 + d else 0x57 + d
  }

  function DigitValue(b: byte): Option<nat> {
    if 0x30 <= b <= 0x39 then Some(b - 0x30)
    else if 0x41 <= b <= 0x46 then Some(b - 0x37)
    else if 0x61 <= b <= 0x66 then Some(b - 0x57)
    else None
  }

  function Pow16(k: nat): (p: nat)
    ensures p > 0
  {
    if k == 0 then 1 else 16 * Pow16(k - 1)
  }

  /** `f"{v:0kX}"` or `f"{v:0kx}"`: at least k digits, more when the number needs them. */
  function Hex(v: nat, k: nat, upper: bool): (s: Bytes)
    ensures |s| >= k
    decreases v + k
  {
    if v == 0 && k == 0 then []
    else Hex(v / 16, if k == 0 then 0 else k - 1, upper) + [Digit(v % 16, upper)]
  }

  /** `int(s, 16)` on plain digits; None is a ValueError. */
  function ParseHex(s: Bytes): Option<nat> {
    if s == [] then Some(0)
    else
      var n := |s| - 1;
      match (ParseHex(s[..n]), DigitValue(s[n]))
      case (Some(high), Some(low)) => Some(16 * high + low)
      case _ => None
  }

  lemma DigitReadsBack(d: nat, upper: bool)
    requires d < 16
    ensures DigitValue(Digit(d, upper)) == Some(d)
  {
  }

  lemma {:induction false} HexReadsBack(v: nat, k: nat, upper: bool)
    requires v < Pow16(k)
    ensures |Hex(v, k, upper)| == k && ParseHex(Hex(v, k, upper)) == Some(v)
    decreases k
  {
    if k > 0 {
      hide Digit, DigitValue;
      assert v / 16 < Pow16(k - 1);
      HexReadsBack(v / 16, k - 1, upper);
      DigitReadsBack(v % 16, upper);
      assert Hex(v, k, upper)[..k - 1] == Hex(v / 16, k - 1, upper);
    }
  }

  lemma Pow16Of8()
    ensures Pow16(8) == 0x1_0000_0000
  {
    assert Pow16(2) == 0x100 && Pow16(4) == 0x1_0000 && Pow16(6) == 0x100_0000;
  }

  function Fields(vs: seq<nat>, upper: bool): Bytes {
    if vs == [] then [] else Hex(vs[0], 8, upper) + Fields(vs[1..], upper)
  }

  /** The next n fields, as the reader's inner loop takes them. */
  function ReadFields(data: Bytes, pos: nat, n: nat): (r: Option<seq<nat>>)
    requires pos + 8 * n <= |data|
    ensures r.Some? ==> |r.value| == n
    decreases n
  {
    if n == 0 then Some([])
    else
      match (ParseHex(data[pos..pos + 8]), ReadFields(data, pos + 8, n - 1))
      case (Some(v), Some(rest)) => Some([v] + rest)
      case _ => None
  }

  predicate AllFit(vs: seq<nat>) {
    forall i | 0 <= i < |vs| :: vs[i] < 0x1_0000_0000
  }

  lemma {:induction false} FieldsReadBack(data: Bytes, pos: nat, vs: seq<nat>, upper: bool)
    requires At(data, pos, Fields(vs, upper)) && AllFit(vs)
    ensures |Fields(vs, upper)| == 8 * |vs| && pos + 8 * |vs| <= |data|
    ensures ReadFields(data, pos, |vs|) == Some(vs)
    decreases |vs|
  {
    if vs != [] {
      AtSplit(data, pos, Hex(vs[0], 8, upper), Fields(vs[1..], upper));
      Pow16Of8();
      HexReadsBack(vs[0], 8, upper);
      assert data[pos..pos + 8] == Hex(vs[0], 8, upper);
      hide Hex, ParseHex, At, Pow16;
      FieldsReadBack(data, pos + 8, vs[1..], upper);
      assert [vs[0]] + vs[1..] == vs;
    }
  }

  lemma {:induction false} FieldsLength(vs: seq<nat>, upper: bool)
    requires AllFit(vs)
    ensures |Fields(vs, upper)| == 8 * |vs|
  {
    if vs != [] {
      Pow16Of8();
      HexReadsBack(vs[0], 8, upper);
      FieldsLength(vs[1..], upper);
    }
  }

  // ---------------------------------------------------------------------
  // Records
  // ---------------------------------------------------------------------

  predicate Aligned(x: nat) {
    x % 4 == 0
  }

  lemma AlignedSum(a: nat, b: nat)
    requires Aligned(a) && Aligned(b)
    ensures Aligned(a + b)
  {
  }

  function Align4(x: nat): (r: nat)
    ensures x <= r < x + 4 && Aligned(r)
  {
    (x + 3) / 4 * 4
  }

  lemma AlignShift(pos: nat, n: nat)
    requires Aligned(pos)
    ensures Align4(pos + n) == pos + Align4(n)
  {
  }

  /** What a record's header says, besides the constant fields. */
  datatype Header = Header(ino: nat, mode: nat, size: nat, nameSize: nat)

  function HeaderFields(h: Header): (vs: seq<nat>)
    ensures |vs| == 13
  {
    [h.ino, h.mode, 0, 0, 1, 0, h.size, 0, 0, 0, 0, h.nameSize, 0]
  }

  /** Eight hexadecimal digits hold every field. */
  predicate HeaderFits(h: Header) {
    h.ino < 0x1_0000_0000 && h.mode < 0x1_0000_0000 && h.size < 0x1_0000_0000 && h.nameSize < 0x1_0000_0000
  }

  function HeaderBytes(h: Header, upper: bool): Bytes {
    MAGIC + Fields(HeaderFields(h), upper)
  }

  /** `b` and the zeros that take a position after it to a multiple of four. */
  function PaddedTo4(b: Bytes, from: nat): (r: Bytes)
    ensures |r| == Align4(from + |b|) - from && b <= r
  {
    b + Zeros(Align4(from + |b|) - (from + |b|))
  }

  /** A record that starts at a multiple of four. `nameSize` is what the header claims. */
  function RecordBytes(h: Header, name: Bytes, data: Bytes, upper: bool): (r: Bytes)
    ensures Aligned(|r|)
  {
    var header := HeaderBytes(h, upper);
    var front, back := header + PaddedTo4(name + [0], |header|), PaddedTo4(data, 0);
    AlignedSum(|front|, |back|);
    front + back
  }

  /** A record as the reader sees it, its name decoded. */
  datatype Record = Record(name: Text, mode: nat, data: Bytes)

  /** What the reader makes of the bytes at a position. */
  datatype Read = End | BadField | Found(rec: Record, next: nat)

  function ReadRecord(data: Bytes, pos: nat): (r: Read)
    ensures r.Found? ==> pos + 110 <= r.next && pos + 110 <= |data| && Aligned(r.next)
  {
    if pos + 110 > |data| || data[pos..pos + 6] != MAGIC then End
    else
      match ReadFields(data, pos + 6, 13)
      case None => BadField
      case Some(f) => ReadBody(data, pos, f[1], f[6], f[11])
  }

  /** `data[at:at + nameSize - 1]` */
  function NameBytes(data: Bytes, at: nat, nameSize: nat): Bytes {
    if nameSize == 0 then [] else Slice(data, at, at + nameSize - 1)
  }

  function ReadBody(data: Bytes, pos: nat, mode: nat, size: nat, nameSize: nat): (r: Read)
    ensures r.Found? ==> pos + 110 <= r.next && Aligned(r.next)
  {
    var name := Decode(NameBytes(data, pos + 110, nameSize));
    var dataStart := Align4(pos + 110 + nameSize);
    if name == TRAILER then End
    else Found(Record(name, mode, Slice(data, dataStart, dataStart + size)), Align4(dataStart + size))
  }

  /** The records up to the trailer; `ok` is false when a field made the reader raise. */
  datatype Archive = Archive(records: seq<Record>, ok: bool)

  function ReadAll(data: Bytes, pos: nat): Archive
    decreases |data| - pos
  {
    match ReadRecord(data, pos)
    case End => Archive([], true)
    case BadField => Archive([], false)
    case Found(rec, next) =>
      var rest := if next < |data| then ReadAll(data, next) else Archive([], true);
      Archive([rec] + rest.records, rest.ok)
  }

  // ---------------------------------------------------------------------
  // A written record reads back
  // ---------------------------------------------------------------------

  lemma HeaderLength(h: Header, upper: bool)
    requires HeaderFits(h)
    ensures |HeaderBytes(h, upper)| == 110
  {
    FieldsLength(HeaderFields(h), upper);
  }

  lemma RecordPieces(data: Bytes, pos: nat, h: Header, name: Bytes, body: Bytes, upper: bool)
    requires Aligned(pos) && At(data, pos, RecordBytes(h, name, body, upper)) && HeaderFits(h)
    ensures At(data, pos, HeaderBytes(h, upper)) && At(data, pos + 110, name)
    ensures At(data, Align4(pos + 110 + |name| + 1), body)
    ensures (Align4(Align4(pos + 110 + |name| + 1) + |body|)
          == pos + |RecordBytes(h, name, body, upper)|)
    ensures pos + 110 + |name| + 1 <= |data|
  {
    var np, bp := PaddedTo4(name + [0], 110), PaddedTo4(body, 0);
    var pad := [0] + Zeros(|np| - |name| - 1);
    HeaderLength(h, upper);
    hide Align4, Aligned;
    AlignShift(pos, 110 + (|name| + 1));
    assert pos + 110 + |np| == Align4(pos + 110 + |name| + 1);
    AlignShift(pos + 110 + |np|, |body|);
    assert np == name + pad;
    hide HeaderBytes, At, Zeros;
    AtSplit(data, pos, HeaderBytes(h, upper) + np, bp);
    AtSplit(data, pos, HeaderBytes(h, upper), np);
    AtSplit(data, pos + 110, name, pad);
    AtFits(data, pos + 110 + |name|, pad);
    AtSplit(data, pos + 110 + |np|, body, Zeros(|bp| - |body|));
  }

  lemma AtFits<T>(s: seq<T>, i: nat, piece: seq<T>)
    requires At(s, i, piece)
    ensures i + |piece| <= |s|
  {
  }

  lemma HeaderReadsBack(data: Bytes, pos: nat, h: Header, upper: bool)
    requires At(data, pos, HeaderBytes(h, upper)) && HeaderFits(h)
    ensures pos + 110 <= |data| && data[pos..pos + 6] == MAGIC
    ensures ReadFields(data, pos + 6, 13) == Some(HeaderFields(h))
  {
    hide Fields, ReadFields;
    AtFits(data, pos, HeaderBytes(h, upper));
    AtSplit(data, pos, MAGIC, Fields(HeaderFields(h), upper));
    FieldsReadBack(data, pos + 6, HeaderFields(h), upper);
  }

  lemma RecordByHeader(data: Bytes, pos: nat)
    ensures (ReadRecord(data, pos)
          == if pos + 110 > |data| || data[pos..pos + 6] != MAGIC then End
             else match ReadFields(data, pos + 6, 13)
                  case None => BadField
                  case Some(f) => ReadBody(data, pos, f[1], f[6], f[11]))
    ensures forall mode, size, nameSize :: !ReadBody(data, pos, mode, size, nameSize).BadField?
  {
  }

  /**
   A record whose header tells the truth reads back as its name, mode and data, and
   the reader goes on right behind it; a record with the trailer's name ends the walk.
   */
  lemma RecordReadsBack(data: Bytes, pos: nat, h: Header, name: Bytes, body: Bytes, upper: bool)
    requires Aligned(pos) && At(data, pos, RecordBytes(h, name, body, upper))
    requires HeaderFits(h) && h.nameSize == |name| + 1 && h.size == |body|
    ensures ReadRecord(data, pos)
         == if Decode(name) == TRAILER then End
            else Found(Record(Decode(name), h.mode, body), pos + |RecordBytes(h, name, body, upper)|)
  {
    hide *;
    RecordPieces(data, pos, h, name, body, upper);
    HeaderReadsBack(data, pos, h, upper);
    RecordByHeader(data, pos);
    BodyReadsBack(data, pos, h, name, body);
  }

  lemma BodyReadsBack(data: Bytes, pos: nat, h: Header, name: Bytes, body: Bytes)
    requires At(data, pos + 110, name) && At(data, Align4(pos + 110 + |name| + 1), body)
    requires h.nameSize == |name| + 1 && h.size == |body|
    ensures (var f := HeaderFields(h); ReadBody(data, pos, f[1], f[6], f[11]))
         == if Decode(name) == TRAILER then End
            else Found(Record(Decode(name), h.mode, body), Align4(Align4(pos + 110 + |name| + 1) + |body|))
  {
    hide Align4, At, Slice, Aligned, Decode;
    AtSlice(data, pos + 110, name);
    AtSlice(data, Align4(pos + 110 + |name| + 1), body);
  }

  lemma RecordLength(h: Header, name: Bytes, body: Bytes, upper: bool)
    requires HeaderFits(h)
    ensures |RecordBytes(h, name, body, upper)| > 110
  {
    HeaderLength(h, upper);
  }

  // ---------------------------------------------------------------------
  // The writers
  // ---------------------------------------------------------------------

  datatype Entry = Entry(path: Text, mode: nat, data: Bytes)

  /**
   One record of `cpio_newc` (upper) or `cpio_entry`. The first claims the number
   of characters of the path in its header, not of bytes; the second takes ASCII
   paths only, for which the two are the same.
   */
  function EntryHeader(ino: nat, e: Entry): Header {
    Header(ino, e.mode, |e.data|, |e.path| + 1)
  }

  function EntryRecord(ino: nat, e: Entry, upper: bool): (r: Bytes)
    ensures Aligned(|r|)
  {
    RecordBytes(EntryHeader(ino, e), Encode(e.path), e.data, upper)
  }

  /** How the inode numbers run: `cpio_newc` counts up, `cpio_entry` always writes 0. */
  datatype Style = Counting | Zero

  function InoAt(style: Style, start: nat, i: nat): nat {
    if style == Counting then start + i else 0
  }

  function Records(style: Style, start: nat, es: seq<Entry>): (r: Bytes)
    ensures Aligned(|r|)
    decreases |es|
  {
    if es == [] then []
    else
      var n := |es| - 1;
      var before, last := Records(style, start, es[..n]), EntryRecord(InoAt(style, start, n), es[n], style == Counting);
      AlignedSum(|before|, |last|);
      before + last
  }

  predicate EntryFits(e: Entry) {
    e.mode < 0x1_0000_0000 && |e.data| < 0x1_0000_0000 && |e.path| < 0xFFFF_FFFF
  }

  /** Every number of the archive fits its field. */
  predicate Storable(start: nat, es: seq<Entry>) {
    start + |es| <= 0x1_0000_0000 && forall i | 0 <= i < |es| :: EntryFits(es[i])
  }

  function Stored(es: seq<Entry>): (rs: seq<Record>)
    ensures |rs| == |es|
  {
    seq(|es|, i requires 0 <= i < |es| => StoredAs(es[i]))
  }

  function StoredAs(e: Entry): Record {
    Record(e.path, e.mode, e.data)
  }

  /** Two bytes more or less in a name of n bytes end at the same multiple of four. */
  predicate SamePadding(n: nat) {
    n % 4 >= 2
  }

  /**
   Entries the reader gives back wherever they stand. The header counts characters
   where the reader counts bytes, so a path that is not ASCII loses its end; the one
   character that survives being cut is the replacement character, and then the data
   must begin at the same multiple of four.
   */
  predicate Readable(e: Entry) {
    e.path != TRAILER && (Ascii(e.path) || (EndsReplaced(e.path) && SamePadding(|e.path|)))
  }

  /** The four bytes before the data that are taken for data when the name is counted short. */
  function Early(path: Text): (b: Bytes)
    ensures |b| == 4
  {
    if |path| % 4 == 1 then [0xBD, 0, 0, 0] else [0, 0, 0, 0]
  }

  /**
   Entries given back only at the end of the archive: the reader takes the data from
   four bytes too early, finds the same bytes there, and then misses the next record.
   */
  predicate ReadableLast(e: Entry) {
    EndsReplaced(e.path) && !SamePadding(|e.path|) && e.data <= Early(e.path) + e.data
  }

  predicate AllReadable(es: seq<Entry>) {
    forall i | 0 <= i < |es| :: Readable(es[i])
  }

  lemma NoTrailerReplaced(path: Text)
    requires EndsReplaced(path)
    ensures path != TRAILER
  {
  }

  lemma {:induction false} ReplacedBytes(path: Text)
    requires EndsReplaced(path)
    ensures Encode(path) == path[..|path| - 1] + [0xEF, 0xBF, 0xBD]
  {
    var front, last := path[..|path| - 1], path[|path| - 1..];
    OneReplaced(last);
    AsciiEncode(front);
    assert path == front + last;
    hide *;
    EncodeJoin(front, last);
  }

  lemma OneReplaced(last: Text)
    requires last == [REPLACEMENT]
    ensures Encode(last) == [0xEF, 0xBF, 0xBD]
  {
    assert EncodeOne(REPLACEMENT) == [0xEF, 0xBF, 0xBD];
    hide EncodeOne;
    assert last[1..] == [] && Encode([]) == [];
  }

  /** What the reader makes of a written entry, by the bytes it takes for name and data. */
  lemma EntryByBody(data: Bytes, pos: nat, ino: nat, e: Entry, upper: bool)
    requires Aligned(pos) && At(data, pos, EntryRecord(ino, e, upper))
    requires ino < 0x1_0000_0000 && EntryFits(e)
    ensures ReadRecord(data, pos) == ReadBody(data, pos, e.mode, |e.data|, |e.path| + 1)
    ensures Slice(data, pos + 110, pos + 110 + |e.path|) == Counted(e.path)
  {
    var h := EntryHeader(ino, e);
    hide *;
    EntryPieces(ino, e, upper);
    RecordPieces(data, pos, h, Encode(e.path), e.data, upper);
    HeaderReadsBack(data, pos, h, upper);
    RecordByHeader(data, pos);
    HeaderBody(data, pos, h);
    TakesCounted(data, pos + 110, e.path);
  }

  lemma EntryPieces(ino: nat, e: Entry, upper: bool)
    requires ino < 0x1_0000_0000 && EntryFits(e)
    ensures var h := EntryHeader(ino, e);
            && HeaderFits(h) && h.mode == e.mode && h.size == |e.data| && h.nameSize == |e.path| + 1
            && EntryRecord(ino, e, upper) == RecordBytes(h, Encode(e.path), e.data, upper)
  {
    hide RecordBytes, Encode;
  }

  lemma HeaderBody(data: Bytes, pos: nat, h: Header)
    ensures (var f := HeaderFields(h); ReadBody(data, pos, f[1], f[6], f[11]))
         == ReadBody(data, pos, h.mode, h.size, h.nameSize)
  {
    hide ReadBody;
  }

  lemma TakesCounted(data: Bytes, at: nat, path: Text)
    requires At(data, at, Encode(path))
    ensures Slice(data, at, at + |path|) == Counted(path)
  {
    hide *;
    CountedIs(path);
    TakesFront(data, at, Encode(path), |path|);
  }

  lemma TakesFront(data: Bytes, at: nat, bytes: Bytes, n: nat)
    requires At(data, at, bytes) && n <= |bytes|
    ensures Slice(data, at, at + n) == bytes[..n]
  {
    hide Slice;
    AtPrefix(data, at, bytes, bytes[..n]);
    AtSlice(data, at, bytes[..n]);
  }

  lemma BodyByName(data: Bytes, pos: nat, mode: nat, size: nat, path: Text)
    requires Slice(data, pos + 110, pos + 110 + |path|) == Counted(path)
    ensures var r, from := ReadBody(data, pos, mode, size, |path| + 1), Align4(pos + 110 + (|path| + 1));
            var name := Decode(Counted(path));
            r == if name == TRAILER then End
                 else Found(Record(name, mode, Slice(data, from, from + size)), Align4(from + size))
  {
    hide Align4, Slice, Decode, Counted;
  }

  /** A path that is not ASCII up to a final replacement character comes back as another one. */
  lemma NameCutShort(data: Bytes, pos: nat, ino: nat, e: Entry, upper: bool)
    requires Aligned(pos) && At(data, pos, EntryRecord(ino, e, upper))
    requires ino < 0x1_0000_0000 && EntryFits(e) && !Ascii(e.path) && !EndsReplaced(e.path)
    ensures var r := ReadRecord(data, pos); r.End? || (r.Found? && r.rec != StoredAs(e))
  {
    hide *;
    EntryByBody(data, pos, ino, e, upper);
    BodyByName(data, pos, e.mode, |e.data|, e.path);
    CountedInCharacters(e.path);
    StoredName(e);
  }

  lemma StoredName(e: Entry)
    ensures StoredAs(e) == Record(e.path, e.mode, e.data)
  {
  }

  /** Where the data begins and where the reader takes it from, counted from the record's start. */
  lemma CountedShort(pos: nat, path: Text)
    requires Aligned(pos) && EndsReplaced(path)
    ensures |Encode(path)| == |path| + 2
    ensures var from := Align4(pos + 110 + (|path| + 1));
            Align4(pos + 110 + |Encode(path)| + 1) == if SamePadding(|path|) then from else from + 4
  {
    hide *;
    ReplacedLength(path);
    TwoLonger(pos, |path|);
  }

  lemma TwoLonger(pos: nat, n: nat)
    requires Aligned(pos)
    ensures var from := Align4(pos + 110 + (n + 1));
            Align4(pos + 110 + (n + 2) + 1) == if SamePadding(n) then from else from + 4
  {
    hide *;
    AlignShift(pos, 110 + (n + 1));
    AlignShift(pos, 110 + (n + 3));
    AlignTwo(n);
  }

  lemma ReplacedLength(path: Text)
    requires EndsReplaced(path)
    ensures |Encode(path)| == |path| + 2
  {
    ReplacedBytes(path);
    hide Encode;
  }

  lemma AlignTwo(n: nat)
    ensures Align4(110 + (n + 3)) == Align4(110 + (n + 1)) + if SamePadding(n) then 0 else 4
  {
  }

  lemma PaddedNameEnds(path: Text)
    requires EndsReplaced(path) && !SamePadding(|path|)
    ensures var np := PaddedTo4(Encode(path) + [0], 110);
            |np| >= 4 && np == np[..|np| - 4] + Early(path)
  {
    ReplacedBytes(path);
    var name, n := Encode(path), |path|;
    hide Encode, EndsReplaced;
    PaddedLength(n);
    hide Align4;
    assert name[n + 1] == 0xBD;
    var np := PaddedTo4(name + [0], 110);
    hide PaddedTo4;
    assert np[n + 1] == name[n + 1] && np[n + 2] == 0;
    var tail := np[|np| - 4..];
    assert forall i | n + 2 <= i < |np| :: np[i] == 0;
    if n % 4 == 1 {
      assert tail == [np[n + 1], np[n + 2], np[n + 3], np[n + 4]];
    } else {
      assert tail == [np[n + 2], np[n + 3], np[n + 4], np[n + 5]];
    }
  }

  lemma PaddedLength(n: nat)
    requires !SamePadding(n)
    ensures Align4(110 + (n + 3)) == 110 + if n % 4 == 1 then n + 5 else n + 6
    ensures n % 4 == 0 || n % 4 == 1
  {
  }

  lemma NameStands(data: Bytes, pos: nat, h: Header, name: Bytes, body: Bytes, upper: bool)
    requires Aligned(pos) && At(data, pos, RecordBytes(h, name, body, upper)) && HeaderFits(h)
    ensures At(data, pos + 110, PaddedTo4(name + [0], 110))
    ensures pos + 110 + |PaddedTo4(name + [0], 110)| == Align4(pos + 110 + |name| + 1)
  {
    var np, bp := PaddedTo4(name + [0], 110), PaddedTo4(body, 0);
    HeaderLength(h, upper);
    AlignShift(pos, 110 + (|name| + 1));
    hide HeaderBytes, At, Align4, Aligned;
    AtSplit(data, pos, HeaderBytes(h, upper) + np, bp);
    AtSplit(data, pos, HeaderBytes(h, upper), np);
  }

  /** The bytes before the data when the name is counted short. */
  lemma EarlyBytes(data: Bytes, pos: nat, h: Header, path: Text, body: Bytes, upper: bool)
    requires Aligned(pos) && At(data, pos, RecordBytes(h, Encode(path), body, upper)) && HeaderFits(h)
    requires EndsReplaced(path) && !SamePadding(|path|)
    ensures At(data, Align4(pos + 110 + (|path| + 1)), Early(path) + body)
  {
    hide *;
    var np, from := PaddedTo4(Encode(path) + [0], 110), Align4(pos + 110 + (|path| + 1));
    NameStands(data, pos, h, Encode(path), body, upper);
    RecordPieces(data, pos, h, Encode(path), body, upper);
    CountedShort(pos, path);
    PaddedNameEnds(path);
    TailAndBody(data, pos + 110, np, Early(path), body, from);
  }

  lemma TailAndBody(data: Bytes, at: nat, name: Bytes, tail: Bytes, body: Bytes, from: nat)
    requires At(data, at, name) && 4 == |tail| <= |name| && name == name[..|name| - 4] + tail
    requires at + |name| == from + 4 && At(data, from + 4, body)
    ensures At(data, from, tail + body)
  {
    hide At;
    AtSplit(data, at, name[..|name| - 4], tail);
    AtJoin(data, from, tail, body);
  }

  lemma EarlySlice(data: Bytes, from: nat, early: Bytes, body: Bytes)
    requires At(data, from, early + body)
    ensures Slice(data, from, from + |body|) == body <==> body <= early + body
  {
    AtSub(data, from, early + body, 0, |body|);
  }

  lemma AlignFour(from: nat, n: nat)
    ensures Align4(from + 4 + n) == Align4(from + n) + 4
  {
  }

  lemma ReplacedBody(data: Bytes, pos: nat, ino: nat, e: Entry, upper: bool)
    requires Aligned(pos) && At(data, pos, EntryRecord(ino, e, upper))
    requires ino < 0x1_0000_0000 && EntryFits(e) && EndsReplaced(e.path)
    ensures var from, size := Align4(pos + 110 + (|e.path| + 1)), |e.data|;
            ReadRecord(data, pos)
            == Found(Record(e.path, e.mode, Slice(data, from, from + size)), Align4(from + size))
  {
    hide *;
    EntryByBody(data, pos, ino, e, upper);
    BodyByName(data, pos, e.mode, |e.data|, e.path);
    CountedInCharacters(e.path);
    NoTrailerReplaced(e.path);
  }

  lemma EntryData(data: Bytes, pos: nat, ino: nat, e: Entry, upper: bool)
    requires Aligned(pos) && At(data, pos, EntryRecord(ino, e, upper))
    requires ino < 0x1_0000_0000 && EntryFits(e)
    ensures var from := Align4(pos + 110 + |Encode(e.path)| + 1);
            At(data, from, e.data) && Align4(from + |e.data|) == pos + |EntryRecord(ino, e, upper)|
  {
    hide *;
    EntryPieces(ino, e, upper);
    RecordPieces(data, pos, EntryHeader(ino, e), Encode(e.path), e.data, upper);
  }

  /** ASCII up to a final replacement character: what comes back depends on where the data begins. */
  lemma ReplacedReadsBack(data: Bytes, pos: nat, ino: nat, e: Entry, upper: bool)
    requires Aligned(pos) && At(data, pos, EntryRecord(ino, e, upper))
    requires ino < 0x1_0000_0000 && EntryFits(e) && EndsReplaced(e.path)
    ensures var r, next := ReadRecord(data, pos), pos + |EntryRecord(ino, e, upper)|;
            if SamePadding(|e.path|) then r == Found(StoredAs(e), next)
            else r.Found? && r.next == next - 4
                 && (r.rec == StoredAs(e) <==> e.data <= Early(e.path) + e.data)
  {
    hide *;
    var from := Align4(pos + 110 + (|e.path| + 1));
    ReplacedBody(data, pos, ino, e, upper);
    EntryData(data, pos, ino, e, upper);
    CountedShort(pos, e.path);
    StoredName(e);
    if SamePadding(|e.path|) {
      AtSlice(data, from, e.data);
    } else {
      EntryPieces(ino, e, upper);
      EarlyBytes(data, pos, EntryHeader(ino, e), e.path, e.data, upper);
      EarlySlice(data, from, Early(e.path), e.data);
      AlignFour(from, |e.data|);
    }
  }

  /**
   One entry, exactly: it comes back with the reader right behind it, or comes back
   with the reader four bytes short of that, or the reader stops or finds another
   record in its place.
   */
  lemma EntryReadsBack(data: Bytes, pos: nat, ino: nat, e: Entry, upper: bool)
    requires Aligned(pos) && At(data, pos, EntryRecord(ino, e, upper))
    requires ino < 0x1_0000_0000 && EntryFits(e)
    ensures var r, next := ReadRecord(data, pos), pos + |EntryRecord(ino, e, upper)|;
            if Readable(e) then r == Found(StoredAs(e), next)
            else if ReadableLast(e) then r == Found(StoredAs(e), next - 4)
            else r.End? || (r.Found? && r.rec != StoredAs(e))
  {
    var name := Encode(e.path);
    ReadableCases(e);
    hide *;
    if Ascii(e.path) {
      AsciiDecode(e.path);
      EntryPieces(ino, e, upper);
      StoredName(e);
      RecordReadsBack(data, pos, EntryHeader(ino, e), name, e.data, upper);
    } else if EndsReplaced(e.path) {
      ReplacedReadsBack(data, pos, ino, e, upper);
    } else {
      NameCutShort(data, pos, ino, e, upper);
    }
  }

  lemma ReadableCases(e: Entry)
    ensures Ascii(e.path) ==> !ReadableLast(e) && (Readable(e) <==> e.path != TRAILER)
    ensures EndsReplaced(e.path) ==> (Readable(e) <==> SamePadding(|e.path|))
    ensures (ReadableLast(e)
        <==> EndsReplaced(e.path) && !SamePadding(|e.path|) && e.data <= Early(e.path) + e.data)
    ensures !Ascii(e.path) && !EndsReplaced(e.path) ==> !Readable(e)
  {
  }

  // ---------------------------------------------------------------------
  // Whole archives
  // ---------------------------------------------------------------------

  /** The reader gets from position `pos` to position `end` by reading exactly `rs`. */
  predicate Reaches(data: Bytes, pos: nat, rs: seq<Record>, end: nat)
    decreases |rs|
  {
    if rs == [] then pos == end
    else
      var r := ReadRecord(data, pos);
      r.Found? && r.rec == rs[0] && Reaches(data, r.next, rs[1..], end)
  }

  lemma {:induction false} ReachesMore(data: Bytes, pos: nat, rs: seq<Record>, mid: nat, rec: Record, end: nat)
    requires Reaches(data, pos, rs, mid) && ReadRecord(data, mid) == Found(rec, end)
    ensures Reaches(data, pos, rs + [rec], end)
    decreases |rs|
  {
    hide ReadRecord;
    if rs == [] {
      assert ([rec] + [])[1..] == [];
    } else {
      ReachesMore(data, ReadRecord(data, pos).next, rs[1..], mid, rec, end);
      assert (rs + [rec])[1..] == rs[1..] + [rec];
    }
  }

  lemma {:induction false} ReachedMonotone(data: Bytes, pos: nat, rs: seq<Record>, end: nat)
    requires Reaches(data, pos, rs, end)
    ensures pos + 110 * |rs| <= end && (Aligned(pos) ==> Aligned(end))
    ensures end <= |data| ==> pos <= |data|
    decreases |rs|
  {
    if rs != [] {
      var r := ReadRecord(data, pos);
      hide ReadRecord;
      ReachedMonotone(data, r.next, rs[1..], end);
    }
  }

  lemma NothingAtTheEnd(data: Bytes, pos: nat)
    requires pos >= |data|
    ensures ReadRecord(data, pos) == End && ReadAll(data, pos) == Archive([], true)
  {
  }

  /** What is read from `pos` is what was walked over and then what is read from `end`. */
  lemma {:induction false} ReadAfterWalk(data: Bytes, pos: nat, rs: seq<Record>, end: nat)
    requires Reaches(data, pos, rs, end)
    ensures var rest := ReadAll(data, end); ReadAll(data, pos) == Archive(rs + rest.records, rest.ok)
    decreases |rs|
  {
    var rest := ReadAll(data, end);
    hide ReadRecord, Aligned;
    if rs == [] {
      assert [] + rest.records == rest.records;
    } else {
      var next := ReadRecord(data, pos).next;
      ReadAfterWalk(data, next, rs[1..], end);
      if next >= |data| {
        NothingAtTheEnd(data, next);
      }
      assert [rs[0]] + (rs[1..] + rest.records) == rs + rest.records;
    }
  }

  /** Readable entries are walked over one by one. */
  lemma {:induction false} RecordsReach(data: Bytes, pos: nat, style: Style, start: nat, es: seq<Entry>)
    requires Aligned(pos) && At(data, pos, Records(style, start, es))
    requires Storable(start, es) && AllReadable(es)
    ensures Reaches(data, pos, Stored(es), pos + |Records(style, start, es)|)
    decreases |es|
  {
    hide At, EntryRecord, ReadRecord, Readable, EntryFits, Aligned;
    if es != [] {
      var n := |es| - 1;
      var ino, before := InoAt(style, start, n), Records(style, start, es[..n]);
      AtSplit(data, pos, before, EntryRecord(ino, es[n], style == Counting));
      RecordsReach(data, pos, style, start, es[..n]);
      AlignedSum(pos, |before|);
      EntryReadsBack(data, pos + |before|, ino, es[n], style == Counting);
      ReachesMore(data, pos, Stored(es[..n]), pos + |before|, StoredAs(es[n]), pos + |Records(style, start, es)|);
      assert Stored(es) == Stored(es[..n]) + [StoredAs(es[n])];
    }
  }

  /** An archive: records, then the writer's trailer. */
  function Whole(style: Style, start: nat, es: seq<Entry>): Bytes {
    Records(style, start, es) + Trailer(style)
  }

  /** `cpio_newc` writes mode 0 in its trailer, `cpio_trailer` the default file mode. */
  function Trailer(style: Style): Bytes {
    RecordBytes(Header(0, if style == Counting then 0 else 0x81A4, 0, 11), TRAILER, [], style == Counting)
  }

  lemma TrailerEnds(data: Bytes, pos: nat, style: Style)
    requires Aligned(pos) && At(data, pos, Trailer(style))
    ensures ReadRecord(data, pos) == End && pos < |data|
  {
    var h := Header(0, if style == Counting then 0 else 0x81A4, 0, 11);
    AsciiDecode(TRAILER);
    hide At, RecordBytes, ReadRecord, Decode, Encode, Ascii;
    RecordReadsBack(data, pos, h, TRAILER, [], style == Counting);
    RecordLength(h, TRAILER, [], style == Counting);
    AtFits(data, pos, Trailer(style));
  }

  lemma ReadableArchive(data: Bytes, pos: nat, style: Style, start: nat, es: seq<Entry>)
    requires Aligned(pos) && At(data, pos, Whole(style, start, es))
    requires Storable(start, es) && AllReadable(es)
    ensures pos < |data| && ReadAll(data, pos) == Archive(Stored(es), true)
  {
    hide At, Records, ReadRecord, Storable, AllReadable, Stored, Reaches, Trailer, Aligned;
    var records := Records(style, start, es);
    AlignedSum(pos, |records|);
    AtSplit(data, pos, records, Trailer(style));
    RecordsReach(data, pos, style, start, es);
    TrailerEnds(data, pos + |records|, style);
    ReadAfterWalk(data, pos, Stored(es), pos + |records|);
    assert Stored(es) + [] == Stored(es);
  }

  /** The first entry the reader does not give back. */
  function FirstUnreadable(es: seq<Entry>): (k: nat)
    ensures k <= |es| && AllReadable(es[..k]) && (k < |es| ==> !Readable(es[k]))
  {
    if es == [] || !Readable(es[0]) then 0 else 1 + FirstUnreadable(es[1..])
  }

  lemma {:induction false} RecordsPrefix(data: Bytes, pos: nat, style: Style, start: nat, es: seq<Entry>, k: nat)
    requires At(data, pos, Records(style, start, es)) && k <= |es|
    ensures At(data, pos, Records(style, start, es[..k]))
    decreases |es|
  {
    hide At, EntryRecord;
    if k == |es| {
      assert es[..k] == es;
    } else {
      var n := |es| - 1;
      AtSplit(data, pos, Records(style, start, es[..n]), EntryRecord(InoAt(style, start, n), es[n], style == Counting));
      RecordsPrefix(data, pos, style, start, es[..n], k);
      assert es[..n][..k] == es[..k];
    }
  }

  lemma ZeroIsAligned()
    ensures Aligned(0)
  {
  }

  lemma StorableAt(start: nat, es: seq<Entry>, k: nat)
    requires Storable(start, es) && k < |es|
    ensures EntryFits(es[k]) && start + k < 0x1_0000_0000 && Storable(start, es[..k])
  {
  }

  lemma RecordsSnoc(start: nat, es: seq<Entry>, k: nat)
    requires k < |es|
    ensures (Records(Counting, start, es[..k + 1])
          == Records(Counting, start, es[..k]) + EntryRecord(start + k, es[k], true))
  {
    hide EntryRecord;
    assert es[..k + 1][..k] == es[..k];
  }

  lemma UnreadableIsReached(data: Bytes, start: nat, es: seq<Entry>, k: nat)
    requires At(data, 0, Records(Counting, start, es)) && Storable(start, es)
    requires k < |es| && AllReadable(es[..k])
    ensures var here := |Records(Counting, start, es[..k])|;
            && Reaches(data, 0, Stored(es[..k]), here) && here <= |data|
            && At(data, here, EntryRecord(start + k, es[k], true))
  {
    hide *;
    var before, last := Records(Counting, start, es[..k]), EntryRecord(start + k, es[k], true);
    RecordsPrefix(data, 0, Counting, start, es, k + 1);
    RecordsSnoc(start, es, k);
    AtSplit(data, 0, before, last);
    AtFits(data, |before|, last);
    ZeroIsAligned();
    StorableAt(start, es, k);
    RecordsReach(data, 0, Counting, start, es[..k]);
  }

  lemma ReadAllStarts(data: Bytes, pos: nat)
    ensures var r, all := ReadRecord(data, pos), ReadAll(data, pos).records;
            && (r.End? ==> all == []) && (r.Found? ==> all != [] && all[0] == r.rec)
  {
    hide ReadRecord;
  }

  /** What the first unreadable entry leaves: itself when it may stand last, something else otherwise. */
  lemma UnreadableSpoils(data: Bytes, start: nat, es: seq<Entry>, k: nat)
    requires At(data, 0, Whole(Counting, start, es)) && Storable(start, es)
    requires k < |es| && AllReadable(es[..k]) && !Readable(es[k])
    ensures ReadAll(data, 0) == Archive(Stored(es), true) <==> k == |es| - 1 && ReadableLast(es[k])
  {
    hide *;
    var here := |Records(Counting, start, es[..k])|;
    var rest := ReadAll(data, here);
    WholePieces(data, start, es);
    UnreadableIsReached(data, start, es, k);
    ReadAfterWalk(data, 0, Stored(es[..k]), here);
    StorableAt(start, es, k);
    EntryReadsBack(data, here, start + k, es[k], true);
    StoredAt(es, k);
    if ReadableLast(es[k]) {
      MagicBehind(data, start, es, k);
      LastIsAlone(data, here, start + k, es[k]);
      assert |Stored(es[..k]) + [StoredAs(es[k])]| == k + 1;
      if k == |es| - 1 {
        StoredSnoc(es, k);
      }
    } else {
      ReadAllStarts(data, here);
      DiffersAt(Stored(es[..k]), rest.records, Stored(es));
    }
  }

  lemma WholePieces(data: Bytes, start: nat, es: seq<Entry>)
    requires At(data, 0, Whole(Counting, start, es))
    ensures At(data, 0, Records(Counting, start, es))
    ensures At(data, |Records(Counting, start, es)|, Trailer(Counting))
  {
    hide Records, Trailer, At;
    AtSplit(data, 0, Records(Counting, start, es), Trailer(Counting));
  }

  lemma StoredSnoc(es: seq<Entry>, k: nat)
    requires k == |es| - 1
    ensures Stored(es) == Stored(es[..k]) + [StoredAs(es[k])]
  {
    hide StoredAs;
  }

  lemma RecordStartsWithMagic(h: Header, name: Bytes, body: Bytes, upper: bool)
    ensures MAGIC <= RecordBytes(h, name, body, upper)
  {
    hide Fields, PaddedTo4;
  }

  /** Behind every entry stands another record or the trailer. */
  lemma MagicBehind(data: Bytes, start: nat, es: seq<Entry>, k: nat)
    requires At(data, 0, Whole(Counting, start, es)) && k < |es|
    ensures At(data, |Records(Counting, start, es[..k])| + |EntryRecord(start + k, es[k], true)|, MAGIC)
  {
    hide *;
    WholePieces(data, start, es);
    RecordsSnoc(start, es, k);
    if k == |es| - 1 {
      assert es[..k + 1] == es;
      TrailerStartsWithMagic();
      AtPrefix(data, |Records(Counting, start, es)|, Trailer(Counting), MAGIC);
    } else {
      var next := EntryRecord(start + (k + 1), es[k + 1], true);
      RecordsPrefix(data, 0, Counting, start, es, k + 2);
      RecordsSnoc(start, es, k + 1);
      AtSplit(data, 0, Records(Counting, start, es[..k + 1]), next);
      var e := es[k + 1];
      RecordOfEntry(start + (k + 1), e);
      RecordStartsWithMagic(Header(start + (k + 1), e.mode, |e.data|, |e.path| + 1), Encode(e.path), e.data, true);
      AtPrefix(data, |Records(Counting, start, es[..k + 1])|, next, MAGIC);
    }
  }

  lemma TrailerStartsWithMagic()
    ensures MAGIC <= Trailer(Counting)
  {
    hide RecordBytes;
    RecordStartsWithMagic(Header(0, 0, 0, 11), TRAILER, [], true);
  }

  /** Four bytes before a record there is no record. */
  lemma ShortOfMagic(data: Bytes, pos: nat)
    requires At(data, pos + 4, MAGIC)
    ensures ReadRecord(data, pos) == End
  {
    assert data[pos + 5] == data[pos + 4..pos + 10][1] == MAGIC[1];
    if pos + 110 <= |data| {
      assert data[pos..pos + 6][5] == MAGIC[1] != MAGIC[5];
    }
  }

  lemma ReadAllStep(data: Bytes, pos: nat)
    ensures var r := ReadRecord(data, pos);
            ReadAll(data, pos)
            == match r
               case End => Archive([], true)
               case BadField => Archive([], false)
               case Found(rec, next) => var rest := ReadAll(data, next); Archive([rec] + rest.records, rest.ok)
  {
    var r := ReadRecord(data, pos);
    hide ReadRecord;
    if r.Found? && r.next >= |data| {
      NothingAtTheEnd(data, r.next);
    }
  }

  lemma LastIsAlone(data: Bytes, pos: nat, ino: nat, e: Entry)
    requires ReadRecord(data, pos) == Found(StoredAs(e), pos + |EntryRecord(ino, e, true)| - 4)
    requires At(data, pos + |EntryRecord(ino, e, true)|, MAGIC)
    ensures ReadAll(data, pos) == Archive([StoredAs(e)], true)
  {
    hide *;
    var next := ReadRecord(data, pos).next;
    ReadAllStep(data, pos);
    ShortOfMagic(data, next);
    ReadAllStep(data, next);
    assert [StoredAs(e)] + [] == [StoredAs(e)];
  }

  lemma StoredAt(es: seq<Entry>, k: nat)
    requires k < |es|
    ensures Stored(es)[k] == StoredAs(es[k])
  {
  }

  lemma DiffersAt(before: seq<Record>, rest: seq<Record>, all: seq<Record>)
    requires |before| < |all| && (rest == [] || rest[0] != all[|before|])
    ensures before + rest != all
  {
    assert rest != [] ==> (before + rest)[|before|] == rest[0];
  }

  const DEBUG_DIR: Entry := Entry(DEBUG_RAMDISK, 0x41ED, [])  // mode 0o40755

  /** `cpio_newc`: the first inode number written is 722. */
  function Newc(es: seq<Entry>): Bytes {
    Whole(Counting, 722, [DEBUG_DIR] + es)
  }

  /** The entries `cpio_newc` stores so that the reader gives all of them back. */
  predicate ComesBack(es: seq<Entry>) {
    forall i | 0 <= i < |es| :: Readable(es[i]) || (i == |es| - 1 && ReadableLast(es[i]))
  }

  /**
   The archive theorem: reading what `cpio_newc` wrote gives back the debug_ramdisk
   directory and exactly the given entries in order, if and only if no path is the
   trailer's name and every path is ASCII, or ASCII and one final replacement
   character where the padding, or at the very end the data, hides that.
   */
  lemma NewcRoundTrip(es: seq<Entry>)
    requires Storable(722, [DEBUG_DIR] + es)
    ensures (ReadAll(Newc(es), 0) == Archive([Record(DEBUG_RAMDISK, 0x41ED, [])] + Stored(es), true)
        <==> ComesBack(es))
  {
    hide *;
    DebugDirFirst(es);
    WholeExact([DEBUG_DIR] + es);
  }

  /** Both sides of it: an e with an acute accent is lost, a final replacement character may come back. */
  lemma OutsideAscii(mode: nat, data: Bytes)
    requires mode < 0x1_0000_0000 && |data| < 0x1_0000_0000
    ensures var es := [Entry([0xE9], mode, data)];
            ReadAll(Newc(es), 0) != Archive([Record(DEBUG_RAMDISK, 0x41ED, [])] + Stored(es), true)
    ensures var es := [Entry([0x61, REPLACEMENT], mode, data)];
            ReadAll(Newc(es), 0) == Archive([Record(DEBUG_RAMDISK, 0x41ED, [])] + Stored(es), true)
  {
    var lost, kept := Entry([0xE9], mode, data), Entry([0x61, REPLACEMENT], mode, data);
    LostOrKept(lost, kept);
    assert EntryFits(lost) && EntryFits(kept);
    hide *;
    OneStorable(lost);
    OneStorable(kept);
    NewcRoundTrip([lost]);
    NewcRoundTrip([kept]);
  }

  lemma LostOrKept(lost: Entry, kept: Entry)
    requires lost.path == [0xE9] && kept.path == [0x61, REPLACEMENT]
    ensures !ComesBack([lost]) && ComesBack([kept])
  {
    assert lost.path[0] == 0xE9 && !Ascii(lost.path) && !EndsReplaced(lost.path);
    assert kept.path[..1] == [0x61] && EndsReplaced(kept.path) && kept.path != TRAILER;
    assert !Readable(lost) && !ReadableLast(lost) && Readable(kept);
    hide Readable, ReadableLast;
    assert [lost][0] == lost;
  }

  lemma OneStorable(e: Entry)
    requires EntryFits(e)
    ensures Storable(722, [DEBUG_DIR] + [e])
  {
    assert EntryFits(DEBUG_DIR);
  }

  lemma WholeExact(es: seq<Entry>)
    requires Storable(722, es)
    ensures ReadAll(Whole(Counting, 722, es), 0) == Archive(Stored(es), true) <==> ComesBack(es)
  {
    hide *;
    var data, k := Whole(Counting, 722, es), FirstUnreadable(es);
    WholeStandsAtZero(data);
    ComesBackBy(es);
    if k == |es| {
      assert es[..k] == es;
      ReadableArchive(data, 0, Counting, 722, es);
    } else {
      UnreadableSpoils(data, 722, es, k);
    }
  }

  lemma ComesBackBy(es: seq<Entry>)
    ensures var k := FirstUnreadable(es);
            ComesBack(es) <==> k == |es| || (k == |es| - 1 && ReadableLast(es[k]))
  {
    var k := FirstUnreadable(es);
    hide Readable, ReadableLast, FirstUnreadable;
    assert forall i | 0 <= i < k :: es[..k][i] == es[i];
  }

  lemma DebugDirFirst(es: seq<Entry>)
    ensures Newc(es) == Whole(Counting, 722, [DEBUG_DIR] + es)
    ensures Stored([DEBUG_DIR] + es) == [Record(DEBUG_RAMDISK, 0x41ED, [])] + Stored(es)
    ensures ComesBack([DEBUG_DIR] + es) <==> ComesBack(es)
  {
    hide Whole, Readable, ReadableLast;
    DebugDirComesBack(es);
  }

  lemma DebugDirComesBack(es: seq<Entry>)
    ensures ComesBack([DEBUG_DIR] + es) <==> ComesBack(es)
  {
    var all := [DEBUG_DIR] + es;
    assert Readable(DEBUG_DIR) by {
      assert DEBUG_RAMDISK[0] != TRAILER[0];
    }
    hide Readable, ReadableLast;
    if ComesBack(all) {
      forall i | 0 <= i < |es|
        ensures Readable(es[i]) || (i == |es| - 1 && ReadableLast(es[i]))
      {
        assert all[i + 1] == es[i];
      }
    }
  }

  lemma WholeStandsAtZero(data: Bytes)
    ensures At(data, 0, data) && Aligned(0)
  {
  }

  // ---------------------------------------------------------------------
  // The loops of the writers and of the reader
  // ---------------------------------------------------------------------

  /** `while len(out) % 4: out.extend(zero)` */
  method Pad(out: Bytes) returns (r: Bytes)
    ensures r == PaddedTo4(out, 0)
  {
    r := out;
    while |r| % 4 != 0
      invariant |out| <= |r| <= Align4(|out|) && r == out + Zeros(|r| - |out|)
      decreases Align4(|out|) - |r|
    {
      assert Zeros(|r| - |out|) + [0] == Zeros(|r| + 1 - |out|);
      r := r + [0];
    }
  }

  lemma PadBehind(out: Bytes, b: Bytes)
    requires Aligned(|out|)
    ensures PaddedTo4(out + b, 0) == out + PaddedTo4(b, 0)
  {
    AlignShift(|out|, |b|);
  }

  lemma PadInside(out: Bytes, header: Bytes, b: Bytes)
    requires Aligned(|out|)
    ensures PaddedTo4(out + header + b, 0) == out + (header + PaddedTo4(b, |header|))
    ensures Aligned(|out + (header + PaddedTo4(b, |header|))|)
  {
    AlignShift(|out|, |header| + |b|);
    AlignedSum(|out|, |header + PaddedTo4(b, |header|)|);
  }

  /** `rec`: padding to the length of the whole output is padding inside the record. */
  method AppendRecord(out: Bytes, h: Header, name: Bytes, data: Bytes) returns (r: Bytes)
    requires Aligned(|out|)
    ensures r == out + RecordBytes(h, name, data, true)
    ensures Aligned(|r|)
  {
    var header := HeaderBytes(h, true);
    r := Pad(out + header + (name + [0]));
    PadInside(out, header, name + [0]);
    ghost var front := header + PaddedTo4(name + [0], |header|);
    assert r == out + front;
    PadBehind(r, data);
    r := Pad(r + data);
    Assoc(out, front, PaddedTo4(data, 0));
    AlignedSum(|out|, |RecordBytes(h, name, data, true)|);
  }

  /** `cpio_newc`, record by record with a running inode number. */
  method WriteNewc(es: seq<Entry>) returns (out: Bytes)
    ensures out == Newc(es)
  {
    hide *;
    var all := [DEBUG_DIR] + es;
    var ino := 721;
    out := [];
    NoRecords(all);
    for i := 0 to |all|
      invariant ino == 721 + i && Aligned(|out|)
      invariant out == Records(Counting, 722, all[..i])
    {
      ino := ino + 1;
      RecordsSnoc(722, all, i);
      RecordOfEntry(ino, all[i]);
      var e := all[i];
      out := AppendRecord(out, Header(ino, e.mode, |e.data|, |e.path| + 1), Encode(e.path), e.data);
    }
    assert all[..|all|] == all;
    out := AppendRecord(out, Header(0, 0, 0, 11), TRAILER, []);
    NewcIsRecordsAndTrailer(es);
  }

  lemma NoRecords(es: seq<Entry>)
    ensures Records(Counting, 722, es[..0]) == [] && Aligned(0)
  {
  }

  lemma RecordOfEntry(ino: nat, e: Entry)
    ensures (EntryRecord(ino, e, true)
          == RecordBytes(Header(ino, e.mode, |e.data|, |e.path| + 1), Encode(e.path), e.data, true))
  {
    hide RecordBytes, Encode;
  }

  lemma NewcIsRecordsAndTrailer(es: seq<Entry>)
    ensures (Newc(es)
          == Records(Counting, 722, [DEBUG_DIR] + es) + RecordBytes(Header(0, 0, 0, 11), TRAILER, [], true))
  {
    hide Records, RecordBytes;
  }

  /** `fields.append(v)`, unless a field raised. */
  function Append(before: Option<seq<nat>>, v: Option<nat>): Option<seq<nat>> {
    if before.Some? && v.Some? then Some(before.value + [v.value]) else None
  }

  lemma {:induction false} FieldsSnoc(data: Bytes, pos: nat, n: nat)
    requires pos + 8 * (n + 1) <= |data|
    ensures (ReadFields(data, pos, n + 1)
          == Append(ReadFields(data, pos, n), ParseHex(data[pos + 8 * n..pos + 8 * (n + 1)])))
    decreases n
  {
    hide ParseHex;
    var first, rest := ParseHex(data[pos..pos + 8]), Some([]);
    var last := ParseHex(data[pos + 8 * n..pos + 8 * (n + 1)]);
    if n > 0 {
      rest := ReadFields(data, pos + 8, n - 1);
      FieldsSnoc(data, pos + 8, n - 1);
      assert pos + 8 + 8 * (n - 1) == pos + 8 * n;
      if first.Some? && rest.Some? && last.Some? {
        assert [first.value] + (rest.value + [last.value]) == ([first.value] + rest.value) + [last.value];
      }
    } else {
      assert ReadFields(data, pos + 8, 0) == Some([]);
      assert first.Some? ==> [first.value] + [] == [] + [first.value];
    }
  }

  /** The thirteen fields, one after the other; the first bad one raises. */
  method ReadHeader(data: Bytes, pos: nat) returns (r: Option<seq<nat>>)
    requires pos + 110 <= |data|
    ensures r == ReadFields(data, pos + 6, 13)
  {
    r := Some([]);
    var f := 0;
    while f < 13
      invariant f <= 13 && r == ReadFields(data, pos + 6, f)
    {
      FieldsSnoc(data, pos + 6, f);
      hide ReadFields, ParseHex;
      var v := ParseHex(data[pos + 6 + 8 * f..pos + 6 + 8 * (f + 1)]);
      r := Append(r, v);
      f := f + 1;
    }
  }

  const SLASH: byte := 0x2F
  const DOT_DOT: Bytes := [0x2E, 0x2E]

  /** `name.lstrip("/")` */
  function Relative(name: Text): (r: Text)
    ensures r != [] ==> r[0] != SLASH
  {
    if name != [] && name[0] == SLASH then Relative(name[1..]) else name
  }

  datatype Action =
    | MakeDir(path: Text)
    | MakeLink(path: Text, target: Text)
    | WriteFile(path: Text, data: Bytes, chmod: Option<nat>)

  /** `mode & 0o170000` as a number from 0 to 15. */
  function FileType(mode: nat): nat {
    mode / 0x1000 % 16
  }

  function OneAction(rec: Record): seq<Action> {
    var path := Relative(rec.name);
    if DOT_DOT in Split(path, SLASH) then []
    else if FileType(rec.mode) == 4 then [MakeDir(path)]
    else if FileType(rec.mode) == 10 then [MakeLink(path, Decode(rec.data))]
    else [WriteFile(path, rec.data, if rec.mode / 0x40 % 2 == 1 then Some(rec.mode % 0x200) else None)]
  }

  function Actions(rs: seq<Record>): seq<Action> {
    if rs == [] then [] else Actions(rs[..|rs| - 1]) + OneAction(rs[|rs| - 1])
  }

  lemma ActionsSnoc(rs: seq<Record>, rec: Record)
    ensures Actions(rs + [rec]) == Actions(rs) + OneAction(rec)
  {
    hide OneAction;
    assert (rs + [rec])[..|rs|] == rs;
  }

  /** A component between slashes, or between a slash and an end, that is "..". */
  ghost predicate HasDotDot(path: Text) {
    exists i | 0 <= i <= |path| - 2 :: DotDotAt(path, i)
  }

  predicate DotDotAt(path: Text, i: nat)
    requires i + 2 <= |path|
  {
    && path[i..i + 2] == DOT_DOT
    && (i == 0 || path[i - 1] == SLASH)
    && (i + 2 == |path| || path[i + 2] == SLASH)
  }

  lemma DotDotFirst(path: Text, k: nat)
    requires k <= |path| && path[..k] == DOT_DOT && (k < |path| ==> path[k] == SLASH)
    ensures 2 <= |path| && DotDotAt(path, 0)
  {
    assert k == |path[..k]| == 2;
    assert path[0..2] == path[..2];
  }

  lemma DotDotShift(path: Text, k: nat, i: nat)
    requires k < |path| && path[k] == SLASH && i + 2 <= |path[k + 1..]| && DotDotAt(path[k + 1..], i)
    ensures DotDotAt(path, k + 1 + i)
  {
    assert path[k + 1 + i..k + 1 + i + 2] == path[k + 1..][i..i + 2];
  }

  lemma {:induction false} DotDotFound(path: Text) returns (i: nat)
    requires DOT_DOT in Split(path, SLASH)
    ensures i + 2 <= |path| && DotDotAt(path, i)
    decreases |path|
  {
    hide DotDotAt, Split, IndexOf;
    SplitStep(path, SLASH);
    var k := IndexOf(path, SLASH);
    if path[..k] == DOT_DOT {
      i := 0;
      DotDotFirst(path, k);
    } else {
      i := DotDotFound(path[k + 1..]);
      DotDotShift(path, k, i);
      i := k + 1 + i;
    }
  }

  lemma {:induction false} DotDotIsSplit(path: Text, i: nat)
    requires i + 2 <= |path| && DotDotAt(path, i)
    ensures DOT_DOT in Split(path, SLASH)
    decreases |path|
  {
    hide Split, IndexOf;
    SplitStep(path, SLASH);
    var k := IndexOf(path, SLASH);
    var front, two := path[..k], path[i..i + 2];
    assert two[0] == path[i] && two[1] == path[i + 1];
    if k < i {
      var rest := path[k + 1..];
      assert rest[i - k - 1..i - k - 1 + 2] == two;
      DotDotIsSplit(rest, i - k - 1);
    } else {
      assert forall j | 0 <= j < k :: front[j] == path[j] != SLASH;
      assert front == DOT_DOT;
    }
  }

  /** The reader's test finds exactly the paths with a ".." component. */
  lemma DotDotTest(path: Text)
    ensures DOT_DOT in Split(path, SLASH) <==> HasDotDot(path)
  {
    hide DotDotAt, Split;
    if DOT_DOT in Split(path, SLASH) {
      var i := DotDotFound(path);
      assert HasDotDot(path);
    }
    if HasDotDot(path) {
      var i :| 0 <= i <= |path| - 2 && DotDotAt(path, i);
      DotDotIsSplit(path, i);
    }
  }

  lemma OneActionIsRelative(rec: Record, a: Action)
    requires a in OneAction(rec)
    ensures !HasDotDot(a.path) && (a.path != [] ==> a.path[0] != SLASH)
  {
    hide HasDotDot, Split, Relative;
    DotDotTest(Relative(rec.name));
  }

  /** Whatever the archive says, no path is absolute and none has a ".." component. */
  lemma {:induction false} ActionsStayRelative(rs: seq<Record>, a: Action)
    requires a in Actions(rs)
    ensures !HasDotDot(a.path) && (a.path != [] ==> a.path[0] != SLASH)
    decreases |rs|
  {
    hide OneAction, HasDotDot;
    var n := |rs| - 1;
    if a in Actions(rs[..n]) {
      ActionsStayRelative(rs[..n], a);
    } else {
      OneActionIsRelative(rs[n], a);
    }
  }

  /** `cpio_newc_extract` as far as it touches the disk; `ok` is false when it raised. */
  method Extract(data: Bytes) returns (done: seq<Action>, ok: bool)
    ensures var all := ReadAll(data, 0); done == Actions(all.records) && ok == all.ok
  {
    hide *;
    var pos := 0;
    done := [];
    ghost var walked: seq<Record> := [];
    StartOfWalk(data);
    while pos + 110 <= |data| && data[pos..pos + 6] == MAGIC
      invariant Reaches(data, 0, walked, pos) && done == Actions(walked)
      decreases |data| - pos
    {
      var fields := ReadHeader(data, pos);
      RecordByHeader(data, pos);
      ReadAfterWalk(data, 0, walked, pos);
      ReadAllBy(data, pos);
      if fields.None? {
        assert walked + [] == walked;
        return done, false;
      }
      var f := fields.value;
      var body := ReadBody(data, pos, f[1], f[6], f[11]);
      if !body.Found? {
        assert walked + [] == walked;
        return done, true;
      }
      done := done + OneAction(body.rec);
      ReachesMore(data, 0, walked, pos, body.rec, body.next);
      ActionsSnoc(walked, body.rec);
      walked := walked + [body.rec];
      pos := body.next;
    }
    ReadAfterWalk(data, 0, walked, pos);
    ReadAllBy(data, pos);
    RecordByHeader(data, pos);
    assert walked + [] == walked;
    ok := true;
  }

  lemma StartOfWalk(data: Bytes)
    ensures Reaches(data, 0, [], 0) && Actions([]) == []
  {
  }

  lemma ReadAllBy(data: Bytes, pos: nat)
    ensures ReadRecord(data, pos).End? ==> ReadAll(data, pos) == Archive([], true)
    ensures ReadRecord(data, pos).BadField? ==> ReadAll(data, pos) == Archive([], false)
  {
  }
}
