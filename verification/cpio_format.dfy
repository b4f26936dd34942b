/**
 The newc format on its own terms: which header field stands where, what the reader of
 tools/imgtools.py makes of a header it finds, and what extracting an archive does.
 */
module CpioFormat {
  import opened Bytes
  import opened Cpio
  import opened Utf8
  import opened Wrappers

  // ---------------------------------------------------------------------
  // The header
  // ---------------------------------------------------------------------

  datatype Field =
    | Ino | Mode | Uid | Gid | Nlink | Mtime | FileSize
    | DevMajor | DevMinor | RdevMajor | RdevMinor | NameSize | Check

  /** Where a field stands, from the start of the record. */
  function Offset(f: Field): nat {
    match f
    case Ino => 6
    case Mode => 14
    case Uid => 22
    case Gid => 30
    case Nlink => 38
    case Mtime => 46
    case FileSize => 54
    case DevMajor => 62
    case DevMinor => 70
    case RdevMajor => 78
    case RdevMinor => 86
    case NameSize => 94
    case Check => 102
  }

  /** The eight digits of the field are v. */
  predicate Says(data: Bytes, pos: nat, f: Field, v: nat) {
    var at := pos + Offset(f);
    at + 8 <= |data| && ParseHex(data[at..at + 8]) == Some(v)
  }

  lemma DigitsAreAscii(d: nat)
    requires d < 16
    ensures Digit(d, true) == "0123456789ABCDEF"[d] as int
    ensures Digit(d, false) == "0123456789abcdef"[d] as int
  {
  }

  lemma {:induction false} FieldAt(data: Bytes, pos: nat, n: nat, k: nat)
    requires pos + 8 * n <= |data| && k < n && ReadFields(data, pos, n).Some?
    ensures ParseHex(data[pos + 8 * k..pos + 8 * k + 8]) == Some(ReadFields(data, pos, n).value[k])
    decreases n
  {
    hide ParseHex;
    if k > 0 {
      FieldAt(data, pos + 8, n - 1, k - 1);
    }
  }

  lemma FieldSays(data: Bytes, pos: nat, f: Field, k: nat)
    requires pos + 110 <= |data| && ReadFields(data, pos + 6, 13).Some?
    requires k < 13 && Offset(f) == 6 + 8 * k
    ensures Says(data, pos, f, ReadFields(data, pos + 6, 13).value[k])
  {
    FieldAt(data, pos + 6, 13, k);
    hide ReadFields, ParseHex;
    assert pos + Offset(f) == pos + 6 + 8 * k;
  }

  /** The thirteen fields by name, for any header that reads. */
  lemma FieldsByName(data: Bytes, pos: nat)
    requires pos + 110 <= |data| && ReadFields(data, pos + 6, 13).Some?
    ensures var f := ReadFields(data, pos + 6, 13).value;
            && Says(data, pos, Ino, f[0]) && Says(data, pos, Mode, f[1]) && Says(data, pos, Uid, f[2])
            && Says(data, pos, Gid, f[3]) && Says(data, pos, Nlink, f[4]) && Says(data, pos, Mtime, f[5])
            && Says(data, pos, FileSize, f[6]) && Says(data, pos, DevMajor, f[7])
            && Says(data, pos, DevMinor, f[8]) && Says(data, pos, RdevMajor, f[9])
            && Says(data, pos, RdevMinor, f[10]) && Says(data, pos, NameSize, f[11])
            && Says(data, pos, Check, f[12])
  {
    hide ReadFields, Says;
    FieldSays(data, pos, Ino, 0);
    FieldSays(data, pos, Mode, 1);
    FieldSays(data, pos, Uid, 2);
    FieldSays(data, pos, Gid, 3);
    FieldSays(data, pos, Nlink, 4);
    FieldSays(data, pos, Mtime, 5);
    FieldSays(data, pos, FileSize, 6);
    FieldSays(data, pos, DevMajor, 7);
    FieldSays(data, pos, DevMinor, 8);
    FieldSays(data, pos, RdevMajor, 9);
    FieldSays(data, pos, RdevMinor, 10);
    FieldSays(data, pos, NameSize, 11);
    FieldSays(data, pos, Check, 12);
  }

  /**
   A written record, field by field: the magic, the inode number, mode, sizes and link
   count at their offsets, every other field zero, then the name, its zero byte, and the
   data on the next multiple of four.
   */
  lemma RecordLayout(data: Bytes, pos: nat, h: Header, name: Bytes, body: Bytes, upper: bool)
    requires Aligned(pos) && At(data, pos, RecordBytes(h, name, body, upper)) && HeaderFits(h)
    ensures At(data, pos, [0x30, 0x37, 0x30, 0x37, 0x30, 0x31])
    ensures Says(data, pos, Ino, h.ino) && Says(data, pos, Mode, h.mode)
    ensures Says(data, pos, FileSize, h.size) && Says(data, pos, NameSize, h.nameSize)
    ensures Says(data, pos, Nlink, 1)
    ensures forall f | f in {Uid, Gid, Mtime, DevMajor, DevMinor, RdevMajor, RdevMinor, Check} :: Says(data, pos, f, 0)
    ensures At(data, pos + 110, name + [0])
    ensures At(data, Align4(pos + 110 + |name| + 1), body)
  {
    RecordPieces(data, pos, h, name, body, upper);
    NameEnds(data, pos, h, name, body, upper);
    hide RecordBytes, Align4, Aligned, At, ReadFields, Says, HeaderBytes;
    HeaderReadsBack(data, pos, h, upper);
    AtFits(data, pos, HeaderBytes(h, upper));
    HeaderLength(h, upper);
    FieldsByName(data, pos);
    MagicFirst(data, pos, h, upper);
  }

  lemma MagicFirst(data: Bytes, pos: nat, h: Header, upper: bool)
    requires At(data, pos, HeaderBytes(h, upper))
    ensures At(data, pos, [0x30, 0x37, 0x30, 0x37, 0x30, 0x31])
  {
    hide Fields, At;
    AtSplit(data, pos, MAGIC, Fields(HeaderFields(h), upper));
  }

  lemma NameEnds(data: Bytes, pos: nat, h: Header, name: Bytes, body: Bytes, upper: bool)
    requires At(data, pos, RecordBytes(h, name, body, upper)) && HeaderFits(h)
    ensures At(data, pos + 110, name + [0])
  {
    var header := HeaderBytes(h, upper);
    HeaderLength(h, upper);
    var np := PaddedTo4(name + [0], |header|);
    hide HeaderBytes, At, Align4;
    AtSplit(data, pos, header + np, PaddedTo4(body, 0));
    AtSplit(data, pos, header, np);
    hide PaddedTo4;
    AtPrefix(data, pos + 110, np, name + [0]);
  }

  // ---------------------------------------------------------------------
  // The reader
  // ---------------------------------------------------------------------

  predicate IsHex(data: Bytes, pos: nat, f: Field)
    requires pos + 110 <= |data|
  {
    ParseHex(data[pos + Offset(f)..pos + Offset(f) + 8]).Some?
  }

  lemma {:induction false} FieldsFail(data: Bytes, pos: nat, n: nat) returns (k: nat)
    requires pos + 8 * n <= |data| && ReadFields(data, pos, n).None?
    ensures k < n && ParseHex(data[pos + 8 * k..pos + 8 * k + 8]).None?
    decreases n
  {
    hide ParseHex;
    if ParseHex(data[pos..pos + 8]).None? {
      k := 0;
    } else {
      k := FieldsFail(data, pos + 8, n - 1);
      k := k + 1;
    }
  }

  function Nth(k: nat): (f: Field)
    requires k < 13
    ensures Offset(f) == 6 + 8 * k
  {
    [Ino, Mode, Uid, Gid, Nlink, Mtime, FileSize, DevMajor, DevMinor, RdevMajor, RdevMinor, NameSize, Check][k]
  }

  lemma FieldIsHex(data: Bytes, pos: nat, k: nat)
    requires pos + 110 <= |data| && k < 13
    ensures IsHex(data, pos, Nth(k)) == ParseHex(data[pos + 6 + 8 * k..pos + 6 + 8 * k + 8]).Some?
  {
    hide ParseHex;
    assert pos + Offset(Nth(k)) == pos + 6 + 8 * k;
  }

  lemma NthOf(f: Field) returns (k: nat)
    ensures k < 13 && Nth(k) == f
  {
    k := (Offset(f) - 6) / 8;
  }

  /** All fields are hexadecimal, or one of them is not. */
  lemma HeaderIsHex(data: Bytes, pos: nat)
    requires pos + 110 <= |data|
    ensures ReadFields(data, pos + 6, 13).Some? <==> forall f: Field :: IsHex(data, pos, f)
  {
    hide ReadFields, IsHex, Nth;
    if ReadFields(data, pos + 6, 13).Some? {
      forall f: Field
        ensures IsHex(data, pos, f)
      {
        var k := NthOf(f);
        FieldAt(data, pos + 6, 13, k);
        FieldIsHex(data, pos, k);
      }
    } else {
      var k := FieldsFail(data, pos + 6, 13);
      FieldIsHex(data, pos, k);
    }
  }

  /** There is room for a header, and it begins with the magic. */
  ghost predicate Starts(data: Bytes, pos: nat): (b: bool)
    ensures b ==> pos + 110 <= |data|
  {
    pos + 110 <= |data| && At(data, pos, [0x30, 0x37, 0x30, 0x37, 0x30, 0x31])
  }

  /** The least multiple of four from x on. */
  predicate NextFour(r: nat, x: nat) {
    x <= r < x + 4 && r % 4 == 0
  }

  /**
   The reader on any bytes. Without a magic it ends; a field that is not hexadecimal makes
   it raise; otherwise it takes the name the header counts, up to its zero byte, and the
   data the header counts, from the next multiple of four, and goes on at the next after
   that, unless the name is the trailer's.
   */
  lemma HeaderIsFollowed(data: Bytes, pos: nat, mode: nat, size: nat, nameSize: nat, from: nat, next: nat)
    requires Starts(data, pos) && forall f: Field :: IsHex(data, pos, f)
    requires Says(data, pos, Mode, mode) && Says(data, pos, FileSize, size) && Says(data, pos, NameSize, nameSize)
    requires NextFour(from, pos + 110 + nameSize) && NextFour(next, from + size)
    ensures (ReadRecord(data, pos)
          == Taken(NameCounted(data, pos + 110, nameSize), mode, Slice(data, from, from + size), next))
  {
    StartsWith(data, pos);
    HeaderIsHex(data, pos);
    FieldsByName(data, pos);
    hide *;
    RecordByHeader(data, pos);
    var f := ReadFields(data, pos + 6, 13).value;
    SaysOne(data, pos, Mode, mode, f[1]);
    SaysOne(data, pos, FileSize, size, f[6]);
    SaysOne(data, pos, NameSize, nameSize, f[11]);
    BodyIs(data, pos, mode, size, nameSize, from, next);
  }

  /** The decoded name, without the zero byte the header counts with it. */
  function NameCounted(data: Bytes, at: nat, nameSize: nat): Text {
    Decode(if nameSize == 0 then [] else Slice(data, at, at + nameSize - 1))
  }

  function Taken(name: Text, mode: nat, body: Bytes, next: nat): Read {
    if name == [0x54, 0x52, 0x41, 0x49, 0x4C, 0x45, 0x52, 0x21, 0x21, 0x21] then End
    else Found(Record(name, mode, body), next)
  }

  lemma BodyIs(data: Bytes, pos: nat, mode: nat, size: nat, nameSize: nat, from: nat, next: nat)
    requires NextFour(from, pos + 110 + nameSize) && NextFour(next, from + size)
    ensures (ReadBody(data, pos, mode, size, nameSize)
          == Taken(NameCounted(data, pos + 110, nameSize), mode, Slice(data, from, from + size), next))
  {
    AlignIs(from, pos + 110 + nameSize);
    AlignIs(next, from + size);
    hide Decode, Slice, Align4;
  }

  lemma SaysOne(data: Bytes, pos: nat, f: Field, v: nat, w: nat)
    requires Says(data, pos, f, v) && Says(data, pos, f, w)
    ensures v == w
  {
  }

  lemma StartsWith(data: Bytes, pos: nat)
    ensures Starts(data, pos) == (pos + 110 <= |data| && data[pos..pos + 6] == MAGIC)
  {
  }

  lemma AlignIs(r: nat, x: nat)
    requires NextFour(r, x)
    ensures Align4(x) == r
  {
  }

  lemma BadHeaderEnds(data: Bytes, pos: nat)
    ensures !Starts(data, pos) ==> ReadRecord(data, pos) == End
    ensures Starts(data, pos) && (exists f: Field :: !IsHex(data, pos, f)) ==> ReadRecord(data, pos) == BadField
  {
    StartsWith(data, pos);
    hide *;
    RecordByHeader(data, pos);
    if pos + 110 <= |data| {
      HeaderIsHex(data, pos);
    }
  }

  // ---------------------------------------------------------------------
  // Extraction
  // ---------------------------------------------------------------------

  /**
   A mode in its parts: the type in the octal digits above 0o7777, the set-id and sticky
   bits, and of the permission bits the owner's read and write, execute, and the rest.
   */
  datatype Bits = Bits(high: nat, kind: nat, special: nat, owner: nat, execute: bool, others: nat)

  predicate AreBits(b: Bits) {
    b.kind < 16 && b.special < 8 && b.owner < 4 && b.others < 64
  }

  function Permissions(b: Bits): nat {
    128 * b.owner + (if b.execute then 64 else 0) + b.others
  }

  function Number(b: Bits): nat {
    0x1_0000 * b.high + 0x1000 * b.kind + 0x200 * b.special + Permissions(b)
  }

  lemma EveryMode(mode: nat) returns (b: Bits)
    ensures AreBits(b) && Number(b) == mode
  {
    var a := mode / 64;
    var c := a / 2;
    var d := c / 4;
    var e := d / 8;
    b := Bits(e / 16, e % 16, d % 8, c % 4, a % 2 == 1, mode % 64);
    assert e == 16 * b.high + b.kind && d == 8 * e + b.special && c == 4 * d + b.owner;
  }

  const DIRECTORY: nat := 4  // 0o040000
  const SYMLINK: nat := 10   // 0o120000

  /** What extracting an entry with a mode of those bits does. */
  predicate Does(a: Action, path: Text, b: Bits, data: Bytes) {
    && a.path == path
    && (if b.kind == DIRECTORY then a.MakeDir?
        else if b.kind == SYMLINK then a.MakeLink? && a.target == Decode(data)
        else a.WriteFile? && a.data == data && a.chmod == if b.execute then Some(Permissions(b)) else None)
  }

  lemma KindOfNumber(b: Bits)
    requires AreBits(b)
    ensures FileType(Number(b)) == b.kind
  {
    var low := 0x200 * b.special + Permissions(b);
    assert low < 0x1000 && Number(b) == 0x1000 * (16 * b.high + b.kind) + low;
    hide Number, Permissions;
    assert Number(b) / 0x1000 == 16 * b.high + b.kind;
  }

  lemma PermissionsOfNumber(b: Bits)
    requires AreBits(b)
    ensures Number(b) % 0x200 == Permissions(b)
  {
    assert Permissions(b) < 0x200;
    assert Number(b) == 0x200 * (128 * b.high + 8 * b.kind + b.special) + Permissions(b);
    hide Number, Permissions;
  }

  lemma ExecuteOfNumber(b: Bits)
    requires AreBits(b)
    ensures (Number(b) / 0x40 % 2 == 1) == b.execute
  {
    var e := if b.execute then 1 else 0;
    var above := 512 * b.high + 32 * b.kind + 4 * b.special + b.owner;
    assert Number(b) == 64 * (2 * above + e) + b.others;
    hide Number, Permissions;
    SixthBit(above, e, b.others);
  }

  lemma SixthBit(above: nat, e: nat, low: nat)
    requires e < 2 && low < 64
    ensures (64 * (2 * above + e) + low) / 0x40 == 2 * above + e && (2 * above + e) % 2 == e
  {
  }

  lemma NumberParts(b: Bits)
    requires AreBits(b)
    ensures FileType(Number(b)) == b.kind && Number(b) % 0x200 == Permissions(b)
    ensures (Number(b) / 0x40 % 2 == 1) == b.execute
  {
    hide *;
    KindOfNumber(b);
    PermissionsOfNumber(b);
    ExecuteOfNumber(b);
  }

  /** One record: skipped when its path has a ".." component, else extracted by its bits. */
  lemma RecordExtracts(name: Text, b: Bits, data: Bytes)
    requires AreBits(b)
    ensures HasDotDot(Relative(name)) ==> OneAction(Record(name, Number(b), data)) == []
    ensures !HasDotDot(Relative(name)) ==>
              var acts := OneAction(Record(name, Number(b), data));
              |acts| == 1 && Does(acts[0], Relative(name), b, data)
  {
    NumberParts(b);
    DotDotTest(Relative(name));
    hide HasDotDot, Relative, Decode, Number, FileType, Permissions;
  }

  /** The path is the name without its leading slashes. */
  lemma {:induction false} RelativeStrips(name: Text, n: nat)
    requires n <= |name| && (forall i | 0 <= i < n :: name[i] == 0x2F)
    requires n < |name| ==> name[n] != 0x2F
    ensures Relative(name) == name[n..]
    decreases n
  {
    if n > 0 {
      RelativeStrips(name[1..], n - 1);
      assert name[1..][n - 1..] == name[n..];
    }
  }

  /** The actions of a list of entries, in their order; those with a ".." component have none. */
  ghost predicate Extracts(acts: seq<Action>, es: seq<Entry>, bs: seq<Bits>)
    requires |bs| == |es|
  {
    var n, k := |es| - 1, |acts| - 1;
    if es == [] then acts == []
    else if HasDotDot(Relative(es[n].path)) then Extracts(acts, es[..n], bs[..n])
    else acts != [] && Does(acts[k], Relative(es[n].path), bs[n], es[n].data) && Extracts(acts[..k], es[..n], bs[..n])
  }

  predicate HaveBits(es: seq<Entry>, bs: seq<Bits>) {
    |bs| == |es| && forall i | 0 <= i < |es| :: AreBits(bs[i]) && es[i].mode == Number(bs[i])
  }

  lemma LastStored(es: seq<Entry>)
    requires es != []
    ensures (var n := |es| - 1;
             && Actions(Stored(es)) == Actions(Stored(es[..n])) + OneAction(StoredAs(es[n]))
             && StoredAs(es[n]) == Record(es[n].path, es[n].mode, es[n].data))
  {
    var n := |es| - 1;
    assert Stored(es) == Stored(es[..n]) + [StoredAs(es[n])];
    hide Actions, OneAction, Stored;
    ActionsSnoc(Stored(es[..n]), StoredAs(es[n]));
  }

  lemma ExtractsSnoc(acts: seq<Action>, last: seq<Action>, es: seq<Entry>, bs: seq<Bits>)
    requires es != [] && |bs| == |es|
    requires Extracts(acts, es[..|es| - 1], bs[..|es| - 1])
    requires (var n := |es| - 1;
              if HasDotDot(Relative(es[n].path)) then last == []
              else |last| == 1 && Does(last[0], Relative(es[n].path), bs[n], es[n].data))
    ensures Extracts(acts + last, es, bs)
  {
    hide HasDotDot, Relative, Does;
    if last == [] {
      assert acts + last == acts;
    } else {
      assert (acts + last)[..|acts|] == acts;
    }
  }

  lemma BitsOfLast(es: seq<Entry>, bs: seq<Bits>)
    requires HaveBits(es, bs) && es != []
    ensures (var n := |es| - 1; HaveBits(es[..n], bs[..n]) && AreBits(bs[n]) && es[n].mode == Number(bs[n]))
  {
    hide AreBits, Number;
  }

  lemma {:induction false} ActionsExtract(es: seq<Entry>, bs: seq<Bits>)
    requires HaveBits(es, bs)
    ensures |bs| == |es| && Extracts(Actions(Stored(es)), es, bs)
    decreases |es|
  {
    if es != [] {
      var n := |es| - 1;
      assert |bs| == |es|;
      hide *;
      BitsOfLast(es, bs);
      ActionsExtract(es[..n], bs[..n]);
      LastStored(es);
      RecordExtracts(es[n].path, bs[n], es[n].data);
      ExtractsSnoc(Actions(Stored(es[..n])), OneAction(StoredAs(es[n])), es, bs);
    }
  }

  lemma {:induction false} ActionsConcat(rs: seq<Record>, more: seq<Record>)
    ensures Actions(rs + more) == Actions(rs) + Actions(more)
    decreases |more|
  {
    hide OneAction;
    if more == [] {
      assert rs + more == rs;
    } else {
      var k := |more| - 1;
      ActionsConcat(rs, more[..k]);
      assert (rs + more)[..|rs + more| - 1] == rs + more[..k];
    }
  }

  lemma NoDot(path: Text)
    requires 0x2E !in path
    ensures !HasDotDot(path)
  {
    forall i | 0 <= i <= |path| - 2
      ensures !DotDotAt(path, i)
    {
      assert path[i] in path;
      assert path[i..i + 2][0] == path[i];
    }
  }

  lemma DebugDirPath()
    ensures Relative(DEBUG_RAMDISK) == DEBUG_RAMDISK && 0x2E !in DEBUG_RAMDISK
  {
  }

  lemma DebugDirMode()
    ensures AreBits(Bits(0, DIRECTORY, 0, 3, true, 45)) && Number(Bits(0, DIRECTORY, 0, 3, true, 45)) == 0x41ED
  {
  }

  lemma OnlyDirectory(a: Action, path: Text, b: Bits)
    requires Does(a, path, b, []) && b.kind == DIRECTORY
    ensures a == MakeDir(path)
  {
  }

  lemma ActionsOne(rec: Record)
    ensures Actions([rec]) == OneAction(rec)
  {
    ActionsSnoc([], rec);
    assert [] + [rec] == [rec];
    hide OneAction;
  }

  lemma DebugDirExtracts()
    ensures Actions([Record(DEBUG_RAMDISK, 0x41ED, [])]) == [MakeDir(DEBUG_RAMDISK)]
  {
    hide *;
    var b := Bits(0, DIRECTORY, 0, 3, true, 45);
    var acts := OneAction(Record(DEBUG_RAMDISK, 0x41ED, []));
    ActionsOne(Record(DEBUG_RAMDISK, 0x41ED, []));
    DebugDirPath();
    NoDot(DEBUG_RAMDISK);
    DebugDirMode();
    RecordExtracts(DEBUG_RAMDISK, b, []);
    OnlyDirectory(acts[0], DEBUG_RAMDISK, b);
    assert acts == [acts[0]];
  }

  /**
   Extracting what `cpio_newc` wrote: the debug_ramdisk directory, and then every entry
   that came back does what its mode says, in order.
   */
  lemma NewcExtracts(es: seq<Entry>, bs: seq<Bits>)
    requires Storable(722, [DEBUG_DIR] + es) && ComesBack(es) && HaveBits(es, bs)
    ensures ReadAll(Newc(es), 0).ok
    ensures (var acts := Actions(ReadAll(Newc(es), 0).records);
             acts != [] && acts[0] == MakeDir(DEBUG_RAMDISK) && Extracts(acts[1..], es, bs))
  {
    hide *;
    NewcRoundTrip(es);
    DebugDirExtracts();
    ActionsConcat([Record(DEBUG_RAMDISK, 0x41ED, [])], Stored(es));
    ActionsExtract(es, bs);
    var front, rest := [MakeDir(DEBUG_RAMDISK)], Actions(Stored(es));
    assert (front + rest)[1..] == rest;
  }
}
