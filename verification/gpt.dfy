/**
 GUID partition tables as tools/m0_build.py builds them and tools/read_gpt.py
 reads them (section 5.3 of the UEFI Specification). CRC-32 is any function from
 byte strings to 32-bit numbers.
 */
module Gpt {
  import opened Bytes

  const FIRST_USABLE_LBA: nat := 2048
  const ENTRIES: nat := 128
  const ENTRY_SIZE: nat := 128

  type u32 = x: int | 0 <= x < 0x1_0000_0000
  type Crc = Bytes -> u32

  /** A UTF-16 code unit; a partition name is given by its code units. */
  type Unit = x: int | 0 <= x < 0x1_0000
  type Name = seq<Unit>

  /** `unique` is the 16 random bytes of the partition's own GUID. */
  datatype Part = Part(name: Name, first: nat, last: nat, unique: Bytes)

  const BASIC_DATA_GUID: Bytes :=
    [0xA2, 0xA0, 0xD0, 0xEB, 0xE5, 0xB9, 0x33, 0x44, 0x87, 0xC0, 0x68, 0xB6, 0xB7, 0x26, 0x99, 0xC7]

  function Utf16(name: Name): (s: Bytes)
    ensures |s| == 2 * |name|
  {
    if name == [] then [] else Le(name[0], 2) + Utf16(name[1..])
  }

  function UnUtf16(s: Bytes): (name: Name)
    requires |s| % 2 == 0
    ensures 2 * |name| == |s|
  {
    if s == [] then []
    else
      UnLeBound(s[..2]);
      Powers();
      [UnLe(s[..2])] + UnUtf16(s[2..])
  }

  /** The names and numbers an entry has room for; others raise an exception. */
  predicate Fits(p: Part) {
    |p.name| <= 36 && p.first < 0x1_0000_0000_0000_0000 && p.last < 0x1_0000_0000_0000_0000 && |p.unique| == 16
  }

  /** gpt_entry */
  function EntryBytes(p: Part): (e: Bytes)
    requires Fits(p)
    ensures |e| == ENTRY_SIZE
  {
    BASIC_DATA_GUID + p.unique + Le(p.first, 8) + Le(p.last, 8) + Le(0, 8)
    + (Utf16(p.name) + Zeros(72 - 2 * |p.name|))
  }

  predicate AllFit(parts: seq<Part>) {
    forall i | 0 <= i < |parts| :: Fits(parts[i])
  }

  function EntriesOf(parts: seq<Part>): (e: Bytes)
    requires AllFit(parts)
    ensures |e| == ENTRY_SIZE * |parts|
  {
    if parts == [] then []
    else EntriesOf(parts[..|parts| - 1]) + EntryBytes(parts[|parts| - 1])
  }

  /** The entry array: 128 entries, the unused ones zero. */
  function EntryArray(parts: seq<Part>): (e: Bytes)
    requires AllFit(parts) && |parts| <= ENTRIES
    ensures |e| == 0x4000
  {
    EntriesOf(parts) + Zeros(0x4000 - ENTRY_SIZE * |parts|)
  }

  // ---------------------------------------------------------------------
  // Reading entries back
  // ---------------------------------------------------------------------

  /** Python's `strip` of NULs, at both ends. */
  function StripLeft(name: Name): Name {
    if name != [] && name[0] == 0 then StripLeft(name[1..]) else name
  }

  function StripRight(name: Name): Name {
    if name != [] && name[|name| - 1] == 0 then StripRight(name[..|name| - 1]) else name
  }

  function Strip(name: Name): Name {
    StripRight(StripLeft(name))
  }

  datatype Row = Row(index: nat, name: Name, first: nat, last: nat)

  /** One iteration of the reader: entries with a zero type are skipped. */
  function ReadEntry(e: Bytes, i: nat): seq<Row>
    requires |e| == ENTRY_SIZE
  {
    if e[..16] == Zeros(16) then []
    else [Row(i, Strip(UnUtf16(e[56..128])), UnLe(e[32..40]), UnLe(e[40..48]))]
  }

  /** The first k entries of an array that begins at byte `from`, with entries of `size` bytes. */
  function ReadEntries(disk: Bytes, from: nat, size: nat, k: nat): seq<Row>
    requires size >= ENTRY_SIZE && from + size * k <= |disk|
  {
    if k == 0 then []
    else
      var at := from + size * (k - 1);
      ReadEntries(disk, from, size, k - 1) + ReadEntry(disk[at..at + ENTRY_SIZE], k - 1)
  }

  /** The reader's loop over the 128 entries. */
  method ReadTable(disk: Bytes) returns (rows: seq<Row>)
    requires |disk| >= 1024 + ENTRIES * ENTRY_SIZE
    ensures rows == ReadEntries(disk, 1024, ENTRY_SIZE, ENTRIES)
  {
    hide ReadEntry;
    rows := [];
    var i, pos := 0, 1024;
    while i < ENTRIES
      invariant 0 <= i <= ENTRIES && pos == 1024 + ENTRY_SIZE * i
      invariant rows == ReadEntries(disk, 1024, ENTRY_SIZE, i)
    {
      var entry := disk[pos..pos + ENTRY_SIZE];
      pos := pos + ENTRY_SIZE;
      rows := rows + ReadEntry(entry, i);
      i := i + 1;
    }
  }

  lemma {:induction false} UnUtf16OfUtf16(name: Name, n: nat)
    ensures UnUtf16(Utf16(name) + Zeros(2 * n)) == name + Nuls(n)
    decreases |name| + n
  {
    var s := Utf16(name) + Zeros(2 * n);
    Powers();
    if name != [] {
      assert s[..2] == Le(name[0], 2) && s[2..] == Utf16(name[1..]) + Zeros(2 * n);
      UnLeOfLe(name[0], 2);
      UnUtf16OfUtf16(name[1..], n);
    } else if n > 0 {
      assert s == Zeros(2 * n) && s[..2] == [0, 0] == Le(0, 2) && s[2..] == Utf16([]) + Zeros(2 * (n - 1));
      UnLeOfLe(0, 2);
      UnUtf16OfUtf16(name, n - 1);
    }
  }

  function Nuls(n: nat): Name {
    seq(n, i => 0)
  }

  /** Names that do not begin or end with a NUL. */
  predicate Bare(name: Name) {
    name != [] ==> name[0] != 0 && name[|name| - 1] != 0
  }

  lemma {:induction false} StripRightOfPadded(name: Name, n: nat)
    requires name != [] && name[|name| - 1] != 0
    ensures StripRight(name + Nuls(n)) == name
  {
    if n > 0 {
      assert (name + Nuls(n))[..|name| + n - 1] == name + Nuls(n - 1);
      StripRightOfPadded(name, n - 1);
    } else {
      assert name + Nuls(0) == name;
    }
  }

  lemma {:induction false} StripLeftOfNuls(n: nat)
    ensures StripLeft(Nuls(n)) == []
  {
    if n > 0 {
      assert Nuls(n)[1..] == Nuls(n - 1);
      StripLeftOfNuls(n - 1);
    }
  }

  lemma {:induction false} StripLeftIsBare(name: Name)
    ensures StripLeft(name) == [] || StripLeft(name)[0] != 0
  {
    if name != [] && name[0] == 0 {
      StripLeftIsBare(name[1..]);
    }
  }

  lemma {:induction false} StripRightIsBare(name: Name)
    ensures var r := StripRight(name); r == [] || (r[|r| - 1] != 0 && name != [] && r[0] == name[0])
  {
    if name != [] && name[|name| - 1] == 0 {
      StripRightIsBare(name[..|name| - 1]);
    }
  }

  /** A padded name reads back as itself exactly when it neither begins nor ends with a NUL. */
  lemma NameRoundTrip(name: Name, n: nat)
    ensures Strip(name + Nuls(n)) == name <==> Bare(name)
  {
    if name == [] {
      assert name + Nuls(n) == Nuls(n);
      StripLeftOfNuls(n);
    } else if Bare(name) {
      StripRightOfPadded(name, n);
    } else {
      StripLeftIsBare(name + Nuls(n));
      StripRightIsBare(StripLeft(name + Nuls(n)));
    }
  }

  lemma EntryReadsBack(p: Part, i: nat)
    requires Fits(p)
    ensures ReadEntry(EntryBytes(p), i) == [Row(i, Strip(p.name + Nuls(36 - |p.name|)), p.first, p.last)]
  {
    EntryNumbers(p);
    EntryFields(p);
    hide Le, UnLe, Utf16, UnUtf16, Strip, Pow256, EntryBytes;
    UsedEntry(EntryBytes(p), i);
  }

  lemma EntryNumbers(p: Part)
    requires Fits(p)
    ensures UnLe(Le(p.first, 8)) == p.first && UnLe(Le(p.last, 8)) == p.last && UnLe(Le(0, 8)) == 0
    ensures UnUtf16(Utf16(p.name) + Zeros(72 - 2 * |p.name|)) == p.name + Nuls(36 - |p.name|)
  {
    hide Le, UnLe, Utf16, UnUtf16, Pow256;
    Powers();
    UnLeOfLe(p.first, 8);
    UnLeOfLe(p.last, 8);
    UnLeOfLe(0, 8);
    UnUtf16OfUtf16(p.name, 36 - |p.name|);
  }

  lemma UsedEntry(e: Bytes, i: nat)
    requires |e| == ENTRY_SIZE && e[..16] == BASIC_DATA_GUID
    ensures ReadEntry(e, i) == [Row(i, Strip(UnUtf16(e[56..128])), UnLe(e[32..40]), UnLe(e[40..48]))]
  {
    hide UnLe, UnUtf16, Strip;
    assert BASIC_DATA_GUID[0] != Zeros(16)[0];
  }

  lemma EntryFields(p: Part)
    requires Fits(p)
    ensures var e := EntryBytes(p);
            e[..16] == BASIC_DATA_GUID && e[32..40] == Le(p.first, 8) && e[40..48] == Le(p.last, 8)
            && e[56..128] == Utf16(p.name) + Zeros(72 - 2 * |p.name|)
  {
    hide Le, Utf16;
  }

  /** All fields of an entry as the UEFI Specification places them: type, own GUID, LBAs, attributes, name. */
  lemma EntryLayout(p: Part)
    requires Fits(p)
    ensures var e := EntryBytes(p);
            && e[..16] == BASIC_DATA_GUID && e[16..32] == p.unique && Field(e, 32, 8) == p.first
            && Field(e, 40, 8) == p.last && Field(e, 48, 8) == 0
            && UnUtf16(e[56..128]) == p.name + Nuls(36 - |p.name|)
  {
    EntryNumbers(p);
    EntryFields(p);
    EntryRest(p);
    hide Le, UnLe, Utf16, UnUtf16, Pow256, EntryBytes;
  }

  lemma EntryRest(p: Part)
    requires Fits(p)
    ensures EntryBytes(p)[16..32] == p.unique && EntryBytes(p)[48..56] == Le(0, 8)
  {
    hide Le, Utf16;
  }

  lemma {:induction false} EntryAt(parts: seq<Part>, i: nat)
    requires AllFit(parts) && i < |parts|
    ensures At(EntriesOf(parts), ENTRY_SIZE * i, EntryBytes(parts[i]))
  {
    hide EntryBytes;
    var n := |parts| - 1;
    if i < n {
      EntryAt(parts[..n], i);
    }
  }

  function Rows(parts: seq<Part>): (r: seq<Row>)
    ensures |r| == |parts|
  {
    seq(|parts|, i requires 0 <= i < |parts| => Row(i, parts[i].name, parts[i].first, parts[i].last))
  }

  predicate AllBare(parts: seq<Part>) {
    forall i | 0 <= i < |parts| :: Bare(parts[i].name)
  }

  lemma SlotBytes(disk: Bytes, from: nat, parts: seq<Part>, i: nat)
    requires AllFit(parts) && |parts| <= ENTRIES && At(disk, from, EntryArray(parts)) && i < ENTRIES
    ensures |disk| >= from + 0x4000
    ensures var at := from + ENTRY_SIZE * i;
            disk[at..at + ENTRY_SIZE] == if i < |parts| then EntryBytes(parts[i]) else Zeros(ENTRY_SIZE)
  {
    hide EntryBytes, EntriesOf;
    var table, at := EntryArray(parts), from + ENTRY_SIZE * i;
    AtSub(disk, from, table, ENTRY_SIZE * i, ENTRY_SIZE * i + ENTRY_SIZE);
    if i < |parts| {
      EntryAt(parts, i);
      assert table[ENTRY_SIZE * i..ENTRY_SIZE * i + ENTRY_SIZE]
          == EntriesOf(parts)[ENTRY_SIZE * i..ENTRY_SIZE * i + ENTRY_SIZE];
    } else {
      var used, slot := ENTRY_SIZE * |parts|, table[ENTRY_SIZE * i..ENTRY_SIZE * i + ENTRY_SIZE];
      forall k | 0 <= k < ENTRY_SIZE
        ensures slot[k] == 0
      {
        assert table[ENTRY_SIZE * i + k] == Zeros(0x4000 - used)[ENTRY_SIZE * i + k - used];
      }
    }
  }

  /** Reading a written entry array: every name, first and last LBA, in order, and nothing else. */
  lemma {:induction false} TableReadsBack(disk: Bytes, from: nat, parts: seq<Part>, k: nat)
    requires AllFit(parts) && |parts| <= ENTRIES && AllBare(parts)
    requires At(disk, from, EntryArray(parts)) && k <= ENTRIES && |disk| >= from + 0x4000
    ensures ReadEntries(disk, from, ENTRY_SIZE, k) == Rows(parts)[..if k < |parts| then k else |parts|]
  {
    hide EntryArray, At, ReadEntry, AllFit, AllBare, Rows;
    if k > 0 {
      TableReadsBack(disk, from, parts, k - 1);
      SlotReads(disk, from, parts, k - 1);
    }
  }

  lemma SlotReads(disk: Bytes, from: nat, parts: seq<Part>, i: nat)
    requires AllFit(parts) && |parts| <= ENTRIES && AllBare(parts)
    requires At(disk, from, EntryArray(parts)) && i < ENTRIES && |disk| >= from + 0x4000
    ensures var at := from + ENTRY_SIZE * i;
            ReadEntry(disk[at..at + ENTRY_SIZE], i) == if i < |parts| then [Rows(parts)[i]] else []
  {
    hide EntryBytes, EntryArray, At, ReadEntry;
    SlotBytes(disk, from, parts, i);
    if i < |parts| {
      EntryReadsBack(parts[i], i);
      NameRoundTrip(parts[i].name, 36 - |parts[i].name|);
    } else {
      ZeroEntry(i);
    }
  }

  lemma ZeroEntry(i: nat)
    ensures ReadEntry(Zeros(ENTRY_SIZE), i) == []
  {
    assert Zeros(ENTRY_SIZE)[..16] == Zeros(16);
  }

  // ---------------------------------------------------------------------
  // Headers
  // ---------------------------------------------------------------------

  const SIGNATURE: Bytes := [0x45, 0x46, 0x49, 0x20, 0x50, 0x41, 0x52, 0x54]  // "EFI PART"

  /** The 92 header bytes as the builder first concatenates them, with a zero CRC field. */
  function RawHeader(total: nat, diskGuid: Bytes, entriesCrc: u32): (h: Bytes)
    requires FIRST_USABLE_LBA <= total && |diskGuid| == 16
    ensures |h| == 92
  {
    SIGNATURE + Le(0x10000, 4) + Le(92, 4) + Le(0, 4) + Le(0, 4)
    + Le(1, 8) + Le(total - 1, 8) + Le(FIRST_USABLE_LBA, 8) + Le(total - FIRST_USABLE_LBA, 8)
    + diskGuid + Le(2, 8) + Le(ENTRIES, 4) + Le(ENTRY_SIZE, 4) + Le(entriesCrc, 4)
  }

  /** `h[at:at+len(b)] = b` on a bytearray. */
  function Patch(h: Bytes, at: nat, b: Bytes): (r: Bytes)
    requires at + |b| <= |h|
    ensures |r| == |h| && r[at..at + |b|] == b
    ensures forall i | 0 <= i < |h| && !(at <= i < at + |b|) :: r[i] == h[i]
  {
    h[..at] + b + h[at + |b|..]
  }

  /** Zero the CRC field, then store the CRC of the result in it. */
  function Sealed(crc: Crc, h: Bytes): (r: Bytes)
    requires |h| == 92
    ensures |r| == 92
  {
    var zeroed := Patch(h, 16, [0, 0, 0, 0]);
    Patch(zeroed, 16, Le(crc(zeroed), 4))
  }

  function PrimaryHeader(crc: Crc, total: nat, diskGuid: Bytes, entriesCrc: u32): (h: Bytes)
    requires FIRST_USABLE_LBA <= total && |diskGuid| == 16
    ensures |h| == 92
  {
    Sealed(crc, RawHeader(total, diskGuid, entriesCrc))
  }

  /** The builder's patches of the primary header. */
  function BackupHeader(crc: Crc, primary: Bytes, total: nat): (h: Bytes)
    requires |primary| == 92 && 33 <= total
    ensures |h| == 92
  {
    Sealed(crc, Patch(Patch(Patch(primary, 24, Le(total - 1, 8)), 32, Le(1, 8)), 72, Le(total - 33, 8)))
  }

  function Field(h: Bytes, at: nat, n: nat): nat
    requires at + n <= |h|
  {
    UnLe(h[at..at + n])
  }

  /** A header is valid when its CRC field holds the CRC of the header with that field zeroed. */
  predicate CrcValid(crc: Crc, h: Bytes)
    requires |h| == 92
  {
    Field(h, 16, 4) == crc(Patch(h, 16, [0, 0, 0, 0]))
  }

  lemma PatchTwice(h: Bytes, at: nat, b: Bytes, b': Bytes)
    requires at + |b| <= |h| && |b| == |b'|
    ensures Patch(Patch(h, at, b), at, b') == Patch(h, at, b')
  {
  }

  lemma SealedIsValid(crc: Crc, h: Bytes)
    requires |h| == 92
    ensures CrcValid(crc, Sealed(crc, h))
  {
    var zeroed := Patch(h, 16, [0, 0, 0, 0]);
    PatchTwice(zeroed, 16, Le(crc(zeroed), 4), [0, 0, 0, 0]);
    PatchTwice(h, 16, [0, 0, 0, 0], [0, 0, 0, 0]);
    Powers();
    UnLeOfLe(crc(zeroed), 4);
  }

  lemma PatchElsewhere(h: Bytes, at: nat, b: Bytes, from: nat, to: nat)
    requires at + |b| <= |h| && from <= to <= |h|
    requires to <= at || at + |b| <= from
    ensures Patch(h, at, b)[from..to] == h[from..to]
  {
  }

  lemma SealedElsewhere(crc: Crc, h: Bytes, from: nat, to: nat)
    requires |h| == 92 && from <= to <= 92 && (to <= 16 || 20 <= from)
    ensures Sealed(crc, h)[from..to] == h[from..to]
  {
    var zeroed := Patch(h, 16, [0, 0, 0, 0]);
    PatchElsewhere(h, 16, [0, 0, 0, 0], from, to);
    PatchElsewhere(zeroed, 16, Le(crc(zeroed), 4), from, to);
  }

  /** Every field of a header as the UEFI Specification numbers and places it. */
  ghost predicate HeaderSays(h: Bytes, own: nat, other: nat, total: nat, diskGuid: Bytes, entries: nat, entriesCrc: u32)
    requires |h| == 92
  {
    && h[..8] == SIGNATURE && Field(h, 8, 4) == 0x10000 && Field(h, 12, 4) == 92 && Field(h, 20, 4) == 0
    && Field(h, 24, 8) == own && Field(h, 32, 8) == other
    && Field(h, 40, 8) == 2048 && Field(h, 48, 8) == total - 2048 && h[56..72] == diskGuid
    && Field(h, 72, 8) == entries && Field(h, 80, 4) == 128 && Field(h, 84, 4) == 128
    && Field(h, 88, 4) == entriesCrc
  }

  lemma PrimaryFields(crc: Crc, total: nat, diskGuid: Bytes, entriesCrc: u32)
    requires FIRST_USABLE_LBA <= total <= 0x1_0000_0000_0000_0000 && |diskGuid| == 16
    ensures var h := PrimaryHeader(crc, total, diskGuid, entriesCrc);
            HeaderSays(h, 1, total - 1, total, diskGuid, 2, entriesCrc) && CrcValid(crc, h)
  {
    var raw := RawHeader(total, diskGuid, entriesCrc);
    RawSays(total, diskGuid, entriesCrc);
    SealedIsValid(crc, raw);
    hide RawHeader, Sealed, HeaderSays, CrcValid;
    SealedSays(crc, raw, 1, total - 1, total, diskGuid, 2, entriesCrc);
  }

  /** Sealing leaves every other field as it was. */
  lemma SealedSays(crc: Crc, h: Bytes, own: nat, other: nat, total: nat, diskGuid: Bytes, entries: nat, entriesCrc: u32)
    requires |h| == 92 && HeaderSays(h, own, other, total, diskGuid, entries, entriesCrc)
    ensures HeaderSays(Sealed(crc, h), own, other, total, diskGuid, entries, entriesCrc)
  {
    hide Sealed, UnLe;
    SealedElsewhere(crc, h, 0, 8);
    SealedElsewhere(crc, h, 8, 12);
    SealedElsewhere(crc, h, 12, 16);
    SealedElsewhere(crc, h, 20, 24);
    SealedElsewhere(crc, h, 24, 32);
    SealedElsewhere(crc, h, 32, 40);
    SealedElsewhere(crc, h, 40, 48);
    SealedElsewhere(crc, h, 48, 56);
    SealedElsewhere(crc, h, 56, 72);
    SealedElsewhere(crc, h, 72, 80);
    SealedElsewhere(crc, h, 80, 84);
    SealedElsewhere(crc, h, 84, 88);
    SealedElsewhere(crc, h, 88, 92);
  }

  lemma RawSays(total: nat, diskGuid: Bytes, entriesCrc: u32)
    requires FIRST_USABLE_LBA <= total <= 0x1_0000_0000_0000_0000 && |diskGuid| == 16
    ensures HeaderSays(RawHeader(total, diskGuid, entriesCrc), 1, total - 1, total, diskGuid, 2, entriesCrc)
  {
    RawFront(total, diskGuid, entriesCrc);
    RawBack(total, diskGuid, entriesCrc);
    Powers();
    UnLeOfLe(0x10000, 4);
    UnLeOfLe(92, 4);
    UnLeOfLe(0, 4);
    UnLeOfLe(1, 8);
    UnLeOfLe(total - 1, 8);
    UnLeOfLe(2048, 8);
    UnLeOfLe(total - 2048, 8);
    UnLeOfLe(2, 8);
    UnLeOfLe(128, 4);
    UnLeOfLe(entriesCrc, 4);
    hide Le, UnLe, RawHeader, Pow256;
  }

  lemma RawFront(total: nat, diskGuid: Bytes, entriesCrc: u32)
    requires FIRST_USABLE_LBA <= total && |diskGuid| == 16
    ensures var h := RawHeader(total, diskGuid, entriesCrc);
            && h[..8] == SIGNATURE && h[8..12] == Le(0x10000, 4) && h[12..16] == Le(92, 4) && h[20..24] == Le(0, 4)
            && h[24..32] == Le(1, 8) && h[32..40] == Le(total - 1, 8)
  {
    hide Le;
  }

  lemma RawBack(total: nat, diskGuid: Bytes, entriesCrc: u32)
    requires FIRST_USABLE_LBA <= total && |diskGuid| == 16
    ensures var h := RawHeader(total, diskGuid, entriesCrc);
            && h[40..48] == Le(2048, 8) && h[48..56] == Le(total - 2048, 8) && h[56..72] == diskGuid
            && h[72..80] == Le(2, 8) && h[80..84] == Le(128, 4) && h[84..88] == Le(128, 4)
            && h[88..92] == Le(entriesCrc, 4)
  {
    hide Le;
  }

  /**
   The backup header mirrors the primary: own and alternate LBA are swapped, it
   points at its own entry array, it carries its own valid CRC, and every other
   byte is the same.
   */
  lemma BackupMirrors(crc: Crc, total: nat, diskGuid: Bytes, entriesCrc: u32)
    requires FIRST_USABLE_LBA <= total <= 0x1_0000_0000_0000_0000 && |diskGuid| == 16
    ensures var p := PrimaryHeader(crc, total, diskGuid, entriesCrc);
            var b := BackupHeader(crc, p, total);
            && HeaderSays(p, 1, total - 1, total, diskGuid, 2, entriesCrc) && CrcValid(crc, p)
            && HeaderSays(b, total - 1, 1, total, diskGuid, total - 33, entriesCrc) && CrcValid(crc, b)
            && b[..16] == p[..16] && b[20..24] == p[20..24] && b[40..72] == p[40..72] && b[80..] == p[80..]
  {
    var p := PrimaryHeader(crc, total, diskGuid, entriesCrc);
    PrimaryFields(crc, total, diskGuid, entriesCrc);
    PatchedFields(crc, p, total);
    SealedIsValid(crc, Patch(Patch(Patch(p, 24, Le(total - 1, 8)), 32, Le(1, 8)), 72, Le(total - 33, 8)));
    Powers();
    UnLeOfLe(total - 1, 8);
    UnLeOfLe(1, 8);
    UnLeOfLe(total - 33, 8);
    hide *;
    BackupSays(p, BackupHeader(crc, p, total), total, diskGuid, entriesCrc);
  }

  lemma BackupSays(p: Bytes, b: Bytes, total: nat, diskGuid: Bytes, entriesCrc: u32)
    requires |p| == |b| == 92 && total >= 33 && HeaderSays(p, 1, total - 1, total, diskGuid, 2, entriesCrc)
    requires b[..16] == p[..16] && b[20..24] == p[20..24] && b[40..72] == p[40..72] && b[80..] == p[80..]
    requires UnLe(b[24..32]) == total - 1 && UnLe(b[32..40]) == 1 && UnLe(b[72..80]) == total - 33
    ensures HeaderSays(b, total - 1, 1, total, diskGuid, total - 33, entriesCrc)
  {
    hide UnLe;
    SameSlices(p, b);
  }

  lemma SameSlices(p: Bytes, b: Bytes)
    requires |p| == |b| == 92
    requires b[..16] == p[..16] && b[20..24] == p[20..24] && b[40..72] == p[40..72] && b[80..] == p[80..]
    ensures b[..8] == p[..8] && b[8..12] == p[8..12] && b[12..16] == p[12..16]
    ensures b[40..48] == p[40..48] && b[48..56] == p[48..56] && b[56..72] == p[56..72]
    ensures b[80..84] == p[80..84] && b[84..88] == p[84..88] && b[88..92] == p[88..92]
  {
    SamePart(p, b, 0, 16, 0, 8);
    SamePart(p, b, 0, 16, 8, 12);
    SamePart(p, b, 0, 16, 12, 16);
    SamePart(p, b, 40, 72, 40, 48);
    SamePart(p, b, 40, 72, 48, 56);
    SamePart(p, b, 40, 72, 56, 72);
    SamePart(p, b, 80, 92, 80, 84);
    SamePart(p, b, 80, 92, 84, 88);
    SamePart(p, b, 80, 92, 88, 92);
  }

  /** What agrees on a stretch agrees on each part of it. */
  lemma SamePart(p: Bytes, b: Bytes, lo: nat, hi: nat, from: nat, to: nat)
    requires lo <= from <= to <= hi <= |p| == |b| && b[lo..hi] == p[lo..hi]
    ensures b[from..to] == p[from..to]
  {
    PartOf(p, lo, hi, from, to);
    PartOf(b, lo, hi, from, to);
  }

  lemma PartOf(s: Bytes, lo: nat, hi: nat, from: nat, to: nat)
    requires lo <= from <= to <= hi <= |s|
    ensures s[lo..hi][from - lo..to - lo] == s[from..to]
  {
    var a, b := s[lo..hi][from - lo..to - lo], s[from..to];
    forall k | 0 <= k < to - from
      ensures a[k] == b[k]
    {
      assert a[k] == s[lo..hi][from - lo + k] == s[lo + (from - lo + k)];
    }
  }

  lemma PatchedFields(crc: Crc, p: Bytes, total: nat)
    requires |p| == 92 && 33 <= total
    ensures var b := BackupHeader(crc, p, total);
            && b[24..32] == Le(total - 1, 8) && b[32..40] == Le(1, 8) && b[72..80] == Le(total - 33, 8)
            && b[..16] == p[..16] && b[20..24] == p[20..24] && b[40..72] == p[40..72] && b[80..] == p[80..]
  {
    hide Le, Sealed;
    var p1 := Patch(p, 24, Le(total - 1, 8));
    var p2 := Patch(p1, 32, Le(1, 8));
    var p3 := Patch(p2, 72, Le(total - 33, 8));
    SealedElsewhere(crc, p3, 0, 16);
    SealedElsewhere(crc, p3, 20, 24);
    SealedElsewhere(crc, p3, 24, 32);
    SealedElsewhere(crc, p3, 32, 40);
    SealedElsewhere(crc, p3, 40, 72);
    SealedElsewhere(crc, p3, 72, 80);
    SealedElsewhere(crc, p3, 80, 92);
  }
}
