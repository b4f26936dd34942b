/**
 A reader that follows the headers, as section 5.3.2 of the UEFI Specification has it,
 on the disks of the builder: both copies of the table are valid and list the same
 partitions.
 */
module GptReader {
  import opened Bytes
  import opened Wrappers
  import opened Gpt
  import opened DiskImage

  function HeaderAt(disk: Bytes, lba: nat): (h: Bytes)
    requires 512 * lba + 512 <= |disk|
    ensures |h| == 92
  {
    disk[512 * lba..512 * lba + 92]
  }

  /** Where the header says its entries are: first byte, number and size. */
  function ArrayStart(h: Bytes): nat
    requires |h| == 92
  {
    512 * Field(h, 72, 8)
  }

  function ArrayCount(h: Bytes): nat
    requires |h| == 92
  {
    Field(h, 80, 4)
  }

  function ArraySize(h: Bytes): nat
    requires |h| == 92
  {
    Field(h, 84, 4)
  }

  /** The checks before a header is used: signature, own LBA, own CRC, and the CRC of the entries. */
  predicate Valid(crc: Crc, disk: Bytes, lba: nat) {
    && 512 * lba + 512 <= |disk|
    && var h := HeaderAt(disk, lba);
       && h[..8] == SIGNATURE && Field(h, 12, 4) == 92 && Field(h, 24, 8) == lba && CrcValid(crc, h)
       && ArraySize(h) >= ENTRY_SIZE && ArrayStart(h) + ArraySize(h) * ArrayCount(h) <= |disk|
       && crc(disk[ArrayStart(h)..ArrayStart(h) + ArraySize(h) * ArrayCount(h)]) == Field(h, 88, 4)
  }

  /** The partitions a valid header leads to. */
  function Listed(crc: Crc, disk: Bytes, lba: nat): seq<Row>
    requires Valid(crc, disk, lba)
  {
    var h := HeaderAt(disk, lba);
    ReadEntries(disk, ArrayStart(h), ArraySize(h), ArrayCount(h))
  }

  /** The table at an LBA is valid, names the other one and lists these partitions. */
  ghost predicate HoldsTable(crc: Crc, disk: Bytes, lba: nat, other: nat, parts: seq<Part>) {
    && Valid(crc, disk, lba) && Field(HeaderAt(disk, lba), 32, 8) == other
    && Listed(crc, disk, lba) == Rows(parts)
  }

  lemma HeaderLeads(h: Bytes, lba: nat, other: nat, total: nat, diskGuid: Bytes, entries: nat, entriesCrc: u32)
    requires |h| == 92 && HeaderSays(h, lba, other, total, diskGuid, entries, entriesCrc)
    ensures h[..8] == SIGNATURE && Field(h, 12, 4) == 92 && Field(h, 24, 8) == lba && Field(h, 32, 8) == other
    ensures ArrayStart(h) == 512 * entries && ArrayCount(h) == ENTRIES && ArraySize(h) == ENTRY_SIZE
    ensures Field(h, 88, 4) == entriesCrc
  {
    hide UnLe;
  }

  lemma HeaderStands(disk: Bytes, lba: nat, h: Bytes)
    requires |h| == 92 && At(disk, 512 * lba, h + Zeros(420))
    ensures 512 * lba + 512 <= |disk| && HeaderAt(disk, lba) == h
  {
    AtSplit(disk, 512 * lba, h, Zeros(420));
  }

  lemma EntriesStand(disk: Bytes, from: nat, parts: seq<Part>)
    requires AllFit(parts) && |parts| <= ENTRIES && AllBare(parts) && At(disk, from, EntryArray(parts))
    ensures from + ENTRY_SIZE * ENTRIES <= |disk|
    ensures disk[from..from + ENTRY_SIZE * ENTRIES] == EntryArray(parts)
    ensures ReadEntries(disk, from, ENTRY_SIZE, ENTRIES) == Rows(parts)
  {
    assert from + 0x4000 <= |disk|;
    hide EntryArray, AllFit, AllBare, Rows, ReadEntries;
    TableReadsBack(disk, from, parts, ENTRIES);
    assert Rows(parts)[..|parts|] == Rows(parts);
  }

  lemma ValidBy(crc: Crc, disk: Bytes, lba: nat, h: Bytes, from: nat, entries: Bytes)
    requires 512 * lba + 512 <= |disk| && HeaderAt(disk, lba) == h
    requires h[..8] == SIGNATURE && Field(h, 12, 4) == 92 && Field(h, 24, 8) == lba && CrcValid(crc, h)
    requires ArrayStart(h) == from && ArrayCount(h) == ENTRIES && ArraySize(h) == ENTRY_SIZE
    requires from + ENTRY_SIZE * ENTRIES <= |disk| && disk[from..from + ENTRY_SIZE * ENTRIES] == entries
    requires Field(h, 88, 4) == crc(entries)
    ensures Valid(crc, disk, lba) && Listed(crc, disk, lba) == ReadEntries(disk, from, ENTRY_SIZE, ENTRIES)
  {
    hide HeaderAt, Field, CrcValid, ArrayStart, ArrayCount, ArraySize, ReadEntries;
  }

  lemma HoldsTableBy(crc: Crc, disk: Bytes, lba: nat, other: nat, parts: seq<Part>)
    requires Valid(crc, disk, lba) && 512 * lba + 512 <= |disk| && Field(HeaderAt(disk, lba), 32, 8) == other
    requires Listed(crc, disk, lba) == Rows(parts)
    ensures HoldsTable(crc, disk, lba, other, parts)
  {
    hide HeaderAt, Field, Listed, Rows;
  }

  /** A header and the entries it points at, standing on a disk, are a valid table of those partitions. */
  lemma TableIsValid(crc: Crc, disk: Bytes, lba: nat, h: Bytes, other: nat, total: nat, diskGuid: Bytes,
                     entries: nat, parts: seq<Part>)
    requires AllFit(parts) && |parts| <= ENTRIES && AllBare(parts) && |h| == 92
    requires HeaderSays(h, lba, other, total, diskGuid, entries, crc(EntryArray(parts))) && CrcValid(crc, h)
    requires At(disk, 512 * lba, h + Zeros(420)) && At(disk, 512 * entries, EntryArray(parts))
    ensures HoldsTable(crc, disk, lba, other, parts)
  {
    hide *;
    HeaderLeads(h, lba, other, total, diskGuid, entries, crc(EntryArray(parts)));
    HeaderStands(disk, lba, h);
    EntriesStand(disk, 512 * entries, parts);
    ValidBy(crc, disk, lba, h, 512 * entries, EntryArray(parts));
    HoldsTableBy(crc, disk, lba, other, parts);
  }

  /** Both tables of a disk are valid, name each other and list these partitions. */
  ghost predicate HoldsBothTables(crc: Crc, disk: Bytes, total: nat, parts: seq<Part>) {
    && total >= 2 && |disk| == 512 * total
    && HoldsTable(crc, disk, 1, total - 1, parts) && HoldsTable(crc, disk, total - 1, 1, parts)
  }

  lemma HeadersSay(crc: Crc, total: nat, diskGuid: Bytes, entriesCrc: u32)
    requires 2048 <= total <= 0x1_0000_0000_0000_0000 && |diskGuid| == 16
    ensures var p := PrimaryHeader(crc, total, diskGuid, entriesCrc);
            && HeaderSays(p, 1, total - 1, total, diskGuid, 2, entriesCrc) && CrcValid(crc, p)
            && HeaderSays(BackupHeader(crc, p, total), total - 1, 1, total, diskGuid, total - 33, entriesCrc)
            && CrcValid(crc, BackupHeader(crc, p, total))
  {
    assert FIRST_USABLE_LBA == 2048;
    hide *;
    BackupMirrors(crc, total, diskGuid, entriesCrc);
  }

  lemma PrimaryIsValid(crc: Crc, disk: Bytes, total: nat, diskGuid: Bytes, parts: seq<Part>)
    requires AllFit(parts) && |parts| <= ENTRIES && AllBare(parts) && |diskGuid| == 16
    requires 2048 <= total <= 0x1_0000_0000_0000_0000
    requires At(disk, 512, TablesOf(crc, parts, total, diskGuid).header) && At(disk, 1024, EntryArray(parts))
    ensures total >= 2 && HoldsTable(crc, disk, 1, total - 1, parts)
  {
    assert FIRST_USABLE_LBA == 2048;
    hide *;
    TablesAre(crc, parts, total, diskGuid);
    HeadersSay(crc, total, diskGuid, crc(EntryArray(parts)));
    var h := PrimaryHeader(crc, total, diskGuid, crc(EntryArray(parts)));
    TableIsValid(crc, disk, 1, h, total - 1, total, diskGuid, 2, parts);
  }

  lemma BackupIsValid(crc: Crc, disk: Bytes, total: nat, lba: nat, entries: nat, diskGuid: Bytes, parts: seq<Part>)
    requires AllFit(parts) && |parts| <= ENTRIES && AllBare(parts) && |diskGuid| == 16
    requires 2048 <= total <= 0x1_0000_0000_0000_0000 && lba == total - 1 && entries == total - 33
    requires At(disk, 512 * entries, EntryArray(parts))
    requires At(disk, 512 * lba, TablesOf(crc, parts, total, diskGuid).backup)
    ensures HoldsTable(crc, disk, lba, 1, parts)
  {
    assert FIRST_USABLE_LBA == 2048;
    hide *;
    TablesAre(crc, parts, total, diskGuid);
    HeadersSay(crc, total, diskGuid, crc(EntryArray(parts)));
    var h := BackupHeader(crc, PrimaryHeader(crc, total, diskGuid, crc(EntryArray(parts))), total);
    TableIsValid(crc, disk, lba, h, 1, total, diskGuid, entries, parts);
  }

  lemma TablesAreValid(crc: Crc, disk: Bytes, total: nat, lba: nat, entries: nat, diskGuid: Bytes, parts: seq<Part>,
                       t: Tables)
    requires AllFit(parts) && |parts| <= ENTRIES && AllBare(parts) && |diskGuid| == 16
    requires 2048 <= total <= 0x1_0000_0000_0000_0000 && |disk| == 512 * total
    requires t == TablesOf(crc, parts, total, diskGuid) && lba == total - 1 && entries == total - 33
    requires At(disk, 512, t.header) && At(disk, 1024, t.entries)
    requires At(disk, 512 * entries, t.entries) && At(disk, 512 * lba, t.backup)
    ensures HoldsBothTables(crc, disk, total, parts)
  {
    hide *;
    EntriesAre(crc, parts, total, diskGuid);
    PrimaryIsValid(crc, disk, total, diskGuid, parts);
    BackupIsValid(crc, disk, total, lba, entries, diskGuid, parts);
    BothBy(crc, disk, total, parts);
  }

  lemma EntriesAre(crc: Crc, parts: seq<Part>, total: nat, diskGuid: Bytes)
    requires AllFit(parts) && |parts| <= ENTRIES && total >= 2048 && |diskGuid| == 16
    ensures TablesOf(crc, parts, total, diskGuid).entries == EntryArray(parts)
  {
    hide EntryArray, PrimaryHeader, BackupHeader, Mbr;
  }

  lemma BothBy(crc: Crc, disk: Bytes, total: nat, parts: seq<Part>)
    requires total >= 2 && |disk| == 512 * total
    requires HoldsTable(crc, disk, 1, total - 1, parts) && HoldsTable(crc, disk, total - 1, 1, parts)
    ensures HoldsBothTables(crc, disk, total, parts)
  {
    hide HoldsTable;
  }

  /**
   On the finished disk both headers pass every check, each names the other, and a
   reader that follows either of them finds exactly the recorded partitions.
   */
  lemma BothTablesAreValid(ws: seq<Wanted>, images: seq<Option<Bytes>>,
                           crc: Crc, diskGuid: Bytes, uniques: seq<Bytes>)
    requires Plan(ws, images) && |uniques| == |ws| <= ENTRIES && |diskGuid| == 16
    requires AllFit(RecordedAll(Layout(ws), uniques)) && AllBare(RecordedAll(Layout(ws), uniques))
    requires TotalLba(Layout(ws)) <= 0x1_0000_0000_0000_0000
    ensures var parts, total := RecordedAll(Layout(ws), uniques), TotalLba(Layout(ws));
            HoldsBothTables(crc, Assembled(ws, images, TablesOf(crc, parts, total, diskGuid)), total, parts)
  {
    hide TotalLba, Layout, Assembled, RecordedAll, TablesOf, AllFit, AllBare, HoldsBothTables, At;
    var parts, total := RecordedAll(Layout(ws), uniques), TotalLba(Layout(ws));
    var t := TablesOf(crc, parts, total, diskGuid);
    TablesSurvive(ws, images, t);
    TablesStand(ws, images, t, 0);
    TablesAreValid(crc, Assembled(ws, images, t), total, total - 1, total - 33, diskGuid, parts, t);
  }

  lemma TablesAre(crc: Crc, parts: seq<Part>, total: nat, diskGuid: Bytes)
    requires AllFit(parts) && |parts| <= ENTRIES && total >= 2048 && |diskGuid| == 16
    ensures var primary := PrimaryHeader(crc, total, diskGuid, crc(EntryArray(parts)));
            var t := TablesOf(crc, parts, total, diskGuid);
            && t.header == primary + Zeros(420) && t.entries == EntryArray(parts)
            && t.backup == BackupHeader(crc, primary, total) + Zeros(420) && t.mbr == Mbr(total)
  {
    hide EntryArray, PrimaryHeader, BackupHeader, Mbr;
  }

  /** Every partition lies within the usable LBAs that both headers announce. */
  lemma PartitionsAreUsable(ws: seq<Wanted>, uniques: seq<Bytes>, k: nat)
    requires |uniques| == |ws| && k < |ws|
    ensures var p := RecordedAll(Layout(ws), uniques)[k];
            2048 <= p.first && p.last <= TotalLba(Layout(ws)) - 2048
  {
    hide Sectors, WholeSectors, RoundUp, Aligned, LbaAfter;
    WholeFit(ws[k].size);
    var n := |ws| - 1;
    if k < n {
      LbaGrows(ws, k, n);
    }
  }

  lemma WholeFit(size: nat)
    ensures WholeSectors(size) <= Sectors(size)
  {
  }

  /** The protective MBR: one partition of type EE from LBA 1 over the whole disk, and the boot signature. */
  lemma MbrFields(total: nat)
    requires total > 0
    ensures var m := Mbr(total);
            && m[0x1C2] == 0xEE && Field(m, 0x1C6, 4) == 1
            && Field(m, 0x1CA, 4) == (if total <= 0x1_0000_0000 then total - 1 else 0xFFFF_FFFF)
            && m[510] == 0x55 && m[511] == 0xAA && AllZero(m[..0x1BE]) && AllZero(m[0x1CE..510])
  {
    var size := if total - 1 < 0xFFFF_FFFF then total - 1 else 0xFFFF_FFFF;
    var entry := [0x00, 0x00, 0x02, 0x00, 0xEE, 0xFF, 0xFF, 0xFF] + Le(1, 4) + Le(size, 4);
    Powers();
    UnLeOfLe(1, 4);
    UnLeOfLe(size, 4);
    assert entry[4] == 0xEE && entry[8..12] == Le(1, 4) && entry[12..16] == Le(size, 4);
    assert Mbr(total) == Patch(Patch(Zeros(512), 0x1BE, entry), 510, [0x55, 0xAA]);
    hide Le, UnLe, Mbr, Patch, AllZero, Zeros;
    EntryOfMbr(entry);
  }

  /** One entry and the signature, patched into a sector of zeros. */
  lemma EntryOfMbr(entry: Bytes)
    requires |entry| == 16
    ensures var m := Patch(Patch(Zeros(512), 0x1BE, entry), 510, [0x55, 0xAA]);
            && m[0x1C2] == entry[4] && m[0x1C6..0x1CA] == entry[8..12] && m[0x1CA..0x1CE] == entry[12..16]
            && m[510] == 0x55 && m[511] == 0xAA && AllZero(m[..0x1BE]) && AllZero(m[0x1CE..510])
  {
    var m1 := Patch(Zeros(512), 0x1BE, entry);
    PartOf(m1, 0x1BE, 0x1CE, 0x1C6, 0x1CA);
    PartOf(m1, 0x1BE, 0x1CE, 0x1CA, 0x1CE);
    assert m1[0x1BE..0x1CE][4] == m1[0x1C2];
    PatchElsewhere(m1, 510, [0x55, 0xAA], 0x1C6, 0x1CA);
    PatchElsewhere(m1, 510, [0x55, 0xAA], 0x1CA, 0x1CE);
  }
}
