/**
 Assembling a disk image in tools/m0_build.py: partitions are allocated one after
 another, the partition tables written, and the partition images copied in,
 skipping blocks of zeros.
 */
module DiskImage {
  import opened Bytes
  import opened Wrappers
  import opened DiskFile
  import opened Gpt

  const SECTOR: nat := 512
  const COPY_CHUNK: nat := 0x40_0000

  datatype Wanted = Wanted(name: Name, size: nat)
  datatype Placed = Placed(name: Name, start: nat, size: nat)

  // ---------------------------------------------------------------------
  // Allocation
  // ---------------------------------------------------------------------

  function Sectors(size: nat): (n: nat)
    ensures size <= 512 * n < size + 512
  {
    (size + 511) / 512
  }

  function WholeSectors(size: nat): (n: nat)
    ensures 512 * n <= size < 512 * n + 512
  {
    size / 512
  }

  predicate Aligned(lba: nat) {
    lba % 2048 == 0
  }

  function RoundUp(lba: nat): (r: nat)
    ensures lba <= r < lba + 2048 && Aligned(r)
  {
    (lba + 2047) / 2048 * 2048
  }

  /** The next free LBA after allocating `ws`. */
  function LbaAfter(ws: seq<Wanted>): (lba: nat)
    ensures Aligned(lba) && lba >= FIRST_USABLE_LBA
  {
    if ws == [] then FIRST_USABLE_LBA
    else RoundUp(LbaAfter(ws[..|ws| - 1]) + Sectors(ws[|ws| - 1].size))
  }

  predicate Startable(ps: seq<Placed>) {
    forall i | 0 <= i < |ps| :: ps[i].start > 0
  }

  function Layout(ws: seq<Wanted>): (parts: seq<Placed>)
    ensures |parts| == |ws| && Startable(parts)
  {
    seq(|ws|, i requires 0 <= i < |ws| => Placed(ws[i].name, LbaAfter(ws[..i]), ws[i].size))
  }

  /** The allocator's calls of `add`, one per wanted partition. */
  method Allocate(ws: seq<Wanted>) returns (parts: seq<Placed>)
    ensures parts == Layout(ws)
  {
    hide Sectors, RoundUp, Aligned;
    parts := [];
    var lba := FIRST_USABLE_LBA;
    var i := 0;
    while i < |ws|
      invariant 0 <= i <= |ws|
      invariant lba == LbaAfter(ws[..i])
      invariant |parts| == i && forall k | 0 <= k < i :: parts[k] == Layout(ws)[k]
    {
      var start := lba;
      assert ws[..i + 1][..i] == ws[..i];
      lba := lba + Sectors(ws[i].size);
      lba := RoundUp(lba);
      parts := parts + [Placed(ws[i].name, start, ws[i].size)];
      i := i + 1;
    }
  }

  lemma {:induction false} LbaGrows(ws: seq<Wanted>, i: nat, j: nat)
    requires i < j <= |ws|
    ensures LbaAfter(ws[..i]) + Sectors(ws[i].size) <= LbaAfter(ws[..j])
    decreases j
  {
    hide Sectors, RoundUp, Aligned;
    assert ws[..j][..j - 1] == ws[..j - 1];
    if i < j - 1 {
      LbaGrows(ws, i, j - 1);
    }
  }

  /** Partitions are aligned to 2048 sectors, in order, and their extents do not meet. */
  lemma LayoutIsDisjoint(ws: seq<Wanted>, i: nat)
    requires i < |ws|
    ensures Aligned(Layout(ws)[i].start) && Layout(ws)[i].start >= FIRST_USABLE_LBA
    ensures forall j | i < j < |ws| :: Layout(ws)[i].start + Sectors(ws[i].size) <= Layout(ws)[j].start
  {
    hide Sectors, RoundUp, Aligned;
    forall j | i < j < |ws|
      ensures Layout(ws)[i].start + Sectors(ws[i].size) <= Layout(ws)[j].start
    {
      LbaGrows(ws, i, j);
    }
  }

  /** The disk's length in sectors, from its last partition. */
  function TotalLba(parts: seq<Placed>): (n: nat)
    requires parts != []
    ensures n >= FIRST_USABLE_LBA
  {
    var last := parts[|parts| - 1];
    last.start + WholeSectors(last.size) + 2048
  }

  lemma LayoutFits(ws: seq<Wanted>, i: nat)
    requires i < |ws|
    ensures TotalLba(Layout(ws)) >= 4096
    ensures Layout(ws)[i].start + Sectors(ws[i].size) < TotalLba(Layout(ws)) - 33
  {
    hide Sectors, WholeSectors, RoundUp, Aligned, LbaAfter;
    var n := |ws| - 1;
    if i < n {
      LbaGrows(ws, i, n);
    }
  }

  // ---------------------------------------------------------------------
  // Copying an image
  // ---------------------------------------------------------------------

  /** write_at from source position `at` on: blocks of zeros are skipped. */
  function CopyFrom(c: Bytes, off: nat, src: Bytes, at: nat): Bytes
    decreases |src| - at
  {
    if at >= |src| then c
    else
      var b := Slice(src, at, at + COPY_CHUNK);
      CopyFrom(if AllZero(b) then c else WriteAt(c, off + at, b), off, src, at + COPY_CHUNK)
  }

  /** Whether source byte j lies in a skipped block, counting blocks from `at`. */
  predicate Skipped(src: Bytes, at: nat, j: nat)
    decreases |src| - at
  {
    at < |src|
    && if j < at + COPY_CHUNK then AllZero(Slice(src, at, at + COPY_CHUNK)) else Skipped(src, at + COPY_CHUNK, j)
  }

  lemma SkippedIsZero(src: Bytes, at: nat, j: nat)
    requires at <= j < |src| && Skipped(src, at, j)
    ensures src[j] == 0
    decreases |src| - at
  {
    var b := Slice(src, at, at + COPY_CHUNK);
    if j < at + COPY_CHUNK {
      assert b[j - at] == src[j];
    } else {
      SkippedIsZero(src, at + COPY_CHUNK, j);
    }
  }

  lemma {:induction false} CopyByte(c: Bytes, off: nat, src: Bytes, at: nat, i: nat)
    ensures ByteAt(CopyFrom(c, off, src, at), i)
         == if off + at <= i < off + |src| && !Skipped(src, at, i - off) then src[i - off] else ByteAt(c, i)
    decreases |src| - at
  {
    if at < |src| {
      var b := Slice(src, at, at + COPY_CHUNK);
      var c' := if AllZero(b) then c else WriteAt(c, off + at, b);
      assert |b| == if |src| < at + COPY_CHUNK then |src| - at else COPY_CHUNK;
      assert forall k | 0 <= k < |b| :: b[k] == src[at + k];
      CopyByte(c', off, src, at + COPY_CHUNK, i);
      hide Slice, AllZero, ByteAt, WriteAt;
    }
  }

  lemma {:induction false} CopyLength(c: Bytes, off: nat, src: Bytes, at: nat)
    requires off + |src| <= |c|
    ensures |CopyFrom(c, off, src, at)| == |c|
    decreases |src| - at
  {
    if at < |src| {
      var b := Slice(src, at, at + COPY_CHUNK);
      CopyLength(if AllZero(b) then c else WriteAt(c, off + at, b), off, src, at + COPY_CHUNK);
    }
  }

  /** The disk is zero under every block the copy skips. */
  predicate ZeroUnderSkips(c: Bytes, off: nat, src: Bytes) {
    forall j | 0 <= j < |src| && Skipped(src, 0, j) :: ByteAt(c, off + j) == 0
  }

  /** Inside the disk, the hole-skipping copy is a plain write exactly when the skipped places were zero. */
  lemma CopyIsDense(c: Bytes, off: nat, src: Bytes)
    requires off + |src| <= |c|
    ensures CopyFrom(c, off, src, 0) == WriteAt(c, off, src) <==> ZeroUnderSkips(c, off, src)
  {
    CopyLength(c, off, src, 0);
    hide CopyFrom, Skipped, WriteAt, ByteAt;
    var sparse, dense := CopyFrom(c, off, src, 0), WriteAt(c, off, src);
    if ZeroUnderSkips(c, off, src) {
      forall i | 0 <= i < |c|
        ensures sparse[i] == dense[i]
      {
        CopyByte(c, off, src, 0, i);
        ByteInside(sparse, i);
        ByteInside(dense, i);
        if off <= i < off + |src| && Skipped(src, 0, i - off) {
          SkippedIsZero(src, 0, i - off);
        }
      }
    }
    if sparse == dense {
      forall j | 0 <= j < |src| && Skipped(src, 0, j)
        ensures ByteAt(c, off + j) == 0
      {
        CopyByte(c, off, src, 0, off + j);
        SkippedIsZero(src, 0, j);
      }
    }
  }

  lemma ByteInside(c: Bytes, i: nat)
    requires i < |c|
    ensures ByteAt(c, i) == c[i]
  {
  }

  /** write_at */
  method CopyImage(disk: File, lba: nat, src: Bytes)
    modifies disk
    ensures disk.content == CopyFrom(old(disk.content), 512 * lba, src, 0)
  {
    hide AllZero, WriteAt;
    var off := lba * SECTOR;
    disk.Seek(off);
    var at := 0;
    while at < |src|
      invariant 0 <= at
      invariant at < |src| ==> disk.pos == off + at
      invariant CopyFrom(disk.content, off, src, at) == CopyFrom(old(disk.content), off, src, 0)
    {
      var b := Slice(src, at, at + COPY_CHUNK);
      if AllZero(b) {
        disk.Seek(disk.pos + |b|);
      } else {
        disk.Write(b);
      }
      at := at + COPY_CHUNK;
    }
  }

  // ---------------------------------------------------------------------
  // The partition tables
  // ---------------------------------------------------------------------

  /** Protective MBR, primary header, entry array and backup header, each filling its sectors. */
  datatype Tables = Tables(mbr: Bytes, header: Bytes, entries: Bytes, backup: Bytes)

  predicate TablesFit(t: Tables) {
    |t.mbr| == 512 && |t.header| == 512 && |t.entries| == 0x4000 && |t.backup| == 512 && t.backup[511] == 0
  }

  /** The writes of make_gpt, in order, with the closing one-byte write and truncate. */
  function WriteTables(c: Bytes, t: Tables, total: nat): Bytes
    requires total >= 34
  {
    var c1 := WriteAt(WriteAt(c, 0, Zeros(512)), 0, t.mbr);
    var c2 := WriteAt(WriteAt(c1, 512, t.header), 1024, t.entries);
    var c3 := WriteAt(WriteAt(c2, 512 * (total - 33), t.entries), 512 * (total - 1), t.backup);
    Resize(WriteAt(c3, 512 * total - 1, [0]), 512 * total)
  }

  /** What a disk with these tables over `c` holds at byte i. */
  function TableByte(c: Bytes, t: Tables, total: nat, i: nat): byte
    requires TablesFit(t) && total >= 67
  {
    if i < 512 then t.mbr[i]
    else if i < 1024 then t.header[i - 512]
    else if i < 1024 + 0x4000 then t.entries[i - 1024]
    else if 512 * (total - 33) <= i < 512 * (total - 1) then t.entries[i - 512 * (total - 33)]
    else if 512 * (total - 1) <= i < 512 * total then t.backup[i - 512 * (total - 1)]
    else ByteAt(c, i)
  }

  /** All of both copies is on the disk; the closing write and truncate damage neither. */
  lemma TablesAreWritten(c: Bytes, t: Tables, total: nat, i: nat)
    requires TablesFit(t) && total >= 67 && i < 512 * total
    ensures |WriteTables(c, t, total)| == 512 * total
    ensures WriteTables(c, t, total)[i] == TableByte(c, t, total, i)
  {
    hide WriteAt, ByteAt, Zeros;
  }

  /** A partition as its GPT entry records it: whole sectors only. */
  function Recorded(p: Placed, unique: Bytes): Part
    requires p.start > 0
  {
    Part(p.name, p.start, p.start + WholeSectors(p.size) - 1, unique)
  }

  function RecordedAll(ps: seq<Placed>, uniques: seq<Bytes>): (r: seq<Part>)
    requires Startable(ps) && |uniques| == |ps|
    ensures |r| == |ps|
  {
    seq(|ps|, i requires 0 <= i < |ps| => Recorded(ps[i], uniques[i]))
  }

  function Mbr(total: nat): (m: Bytes)
    requires total > 0
    ensures |m| == 512
  {
    var size := if total - 1 < 0xFFFF_FFFF then total - 1 else 0xFFFF_FFFF;
    Patch(Patch(Zeros(512), 0x1BE, [0x00, 0x00, 0x02, 0x00, 0xEE, 0xFF, 0xFF, 0xFF] + Le(1, 4) + Le(size, 4)),
          510, [0x55, 0xAA])
  }

  function Padded(h: Bytes): (r: Bytes)
    requires |h| == 92
    ensures |r| == 512 && r[..92] == h && r[511] == 0
  {
    h + Zeros(420)
  }

  function TablesOf(crc: Crc, parts: seq<Part>, total: nat, diskGuid: Bytes): (t: Tables)
    requires AllFit(parts) && |parts| <= ENTRIES && total >= FIRST_USABLE_LBA && |diskGuid| == 16
    ensures TablesFit(t)
  {
    var entries := EntryArray(parts);
    var primary := PrimaryHeader(crc, total, diskGuid, crc(entries));
    Tables(Mbr(total), Padded(primary), entries, Padded(BackupHeader(crc, primary, total)))
  }

  /** The entry loop of make_gpt; None is an exception. */
  method BuildEntries(ps: seq<Placed>, uniques: seq<Bytes>) returns (r: Option<Bytes>)
    requires Startable(ps) && |uniques| == |ps| <= ENTRIES
    ensures r.Some? <==> AllFit(RecordedAll(ps, uniques))
    ensures r.Some? ==> r.value == EntryArray(RecordedAll(ps, uniques))
  {
    hide WholeSectors, EntryBytes;
    ghost var parts := RecordedAll(ps, uniques);
    var entries: Bytes, i := [], 0;
    while i < |ps|
      invariant 0 <= i <= |ps|
      invariant AllFit(parts[..i]) && entries == EntriesOf(parts[..i])
    {
      var p := Recorded(ps[i], uniques[i]);
      if !Fits(p) {
        assert !Fits(parts[i]);
        return None;
      }
      assert parts[..i + 1][..i] == parts[..i];
      entries := entries + EntryBytes(p);
      i := i + 1;
    }
    assert parts[..i] == parts;
    return Some(entries + Zeros(0x4000 - |entries|));
  }

  /** The writes of make_gpt. */
  method PutTables(disk: File, t: Tables, total: nat)
    requires total >= 34
    modifies disk
    ensures disk.content == WriteTables(old(disk.content), t, total)
  {
    hide WriteAt, Resize;
    disk.Seek(0);
    disk.Write(Zeros(512));
    disk.Seek(0);
    disk.Write(t.mbr);
    disk.Seek(512);
    disk.Write(t.header);
    disk.Seek(1024);
    disk.Write(t.entries);
    disk.Seek(512 * (total - 33));
    disk.Write(t.entries);
    disk.Seek(512 * (total - 1));
    disk.Write(t.backup);
    disk.Seek(512 * total - 1);
    disk.Write([0]);
    disk.Truncate(512 * total);
  }

  /** make_gpt; None is an exception. The GUIDs are its random bytes. */
  method MakeGpt(disk: File, ps: seq<Placed>, crc: Crc, diskGuid: Bytes, uniques: seq<Bytes>)
    returns (r: Option<nat>)
    requires Startable(ps) && |uniques| == |ps| <= ENTRIES && |diskGuid| == 16
    modifies disk
    ensures r.None? <==> ps == [] || !AllFit(RecordedAll(ps, uniques)) || TotalLba(ps) > 0x1_0000_0000_0000_0000
    ensures r.None? ==> disk.content == old(disk.content)
    ensures r.Some? ==>
              r.value == TotalLba(ps)
              && disk.content
                 == WriteTables(old(disk.content), TablesOf(crc, RecordedAll(ps, uniques), r.value, diskGuid), r.value)
  {
    hide TotalLba, RecordedAll, EntryArray, WriteTables, PrimaryHeader, BackupHeader, Mbr;
    if ps == [] {
      return None;
    }
    var total := TotalLba(ps);
    var entries := BuildEntries(ps, uniques);
    if entries.None? || total > 0x1_0000_0000_0000_0000 {
      return None;
    }
    var header := PrimaryHeader(crc, total, diskGuid, crc(entries.value));
    var t := Tables(Mbr(total), Padded(header), entries.value, Padded(BackupHeader(crc, header, total)));
    PutTables(disk, t, total);
    return Some(total);
  }

  // ---------------------------------------------------------------------
  // The assembled disk
  // ---------------------------------------------------------------------

  /** Copies into the first n partitions, with holes skipped. */
  function CopyAll(c: Bytes, ps: seq<Placed>, images: seq<Option<Bytes>>, n: nat): Bytes
    requires n <= |ps| == |images|
  {
    if n == 0 then c
    else
      var c' := CopyAll(c, ps, images, n - 1);
      if images[n - 1].None? then c' else CopyFrom(c', 512 * ps[n - 1].start, images[n - 1].value, 0)
  }

  /** The same with every byte written. */
  function DenseAll(c: Bytes, ps: seq<Placed>, images: seq<Option<Bytes>>, n: nat): Bytes
    requires n <= |ps| == |images|
  {
    if n == 0 then c
    else
      var c' := DenseAll(c, ps, images, n - 1);
      if images[n - 1].None? then c' else WriteAt(c', 512 * ps[n - 1].start, images[n - 1].value)
  }

  /** Byte i of the disk belongs to the image of partition k. */
  predicate InImage(ps: seq<Placed>, images: seq<Option<Bytes>>, k: nat, i: nat)
    requires k < |ps| == |images|
  {
    images[k].Some? && 512 * ps[k].start <= i < 512 * ps[k].start + |images[k].value|
  }

  /** At least one partition, none smaller than a sector, and images no larger than their partitions. */
  predicate Plan(ws: seq<Wanted>, images: seq<Option<Bytes>>) {
    ws != [] && |images| == |ws|
    && forall k | 0 <= k < |ws| ::
         ws[k].size >= 512 && (images[k].Some? ==> |images[k].value| <= ws[k].size)
  }

  lemma ImagesAreApart(ws: seq<Wanted>, images: seq<Option<Bytes>>, k: nat, i: nat)
    requires Plan(ws, images) && k < |ws| && InImage(Layout(ws), images, k, i)
    ensures 1024 + 0x4000 <= i < 512 * (TotalLba(Layout(ws)) - 33)
    ensures TotalLba(Layout(ws)) >= 4096
    ensures forall m | 0 <= m < |ws| && m != k :: !InImage(Layout(ws), images, m, i)
  {
    hide Sectors, WholeSectors, RoundUp, Aligned, LbaAfter, TotalLba, Layout;
    LayoutIsDisjoint(ws, k);
    LayoutFits(ws, k);
    LayoutSizes(ws, k);
    forall m | 0 <= m < |ws| && m != k
      ensures !InImage(Layout(ws), images, m, i)
    {
      LayoutIsDisjoint(ws, m);
      LayoutSizes(ws, m);
    }
  }

  lemma LayoutSizes(ws: seq<Wanted>, k: nat)
    requires k < |ws|
    ensures Layout(ws)[k].size == ws[k].size && Layout(ws)[k].name == ws[k].name
  {
  }

  lemma {:induction false} DenseLength(ws: seq<Wanted>, images: seq<Option<Bytes>>, c: Bytes, n: nat)
    requires Plan(ws, images) && n <= |ws| && |c| == 512 * TotalLba(Layout(ws))
    ensures |DenseAll(c, Layout(ws), images, n)| == |c|
  {
    hide TotalLba, Layout, Plan, WriteAt, ByteAt;
    if n > 0 {
      DenseLength(ws, images, c, n - 1);
      ImageFits(ws, images, n - 1);
    }
  }

  lemma ImageFits(ws: seq<Wanted>, images: seq<Option<Bytes>>, k: nat)
    requires Plan(ws, images) && k < |ws|
    ensures |images| == |ws|
    ensures images[k].Some? ==> 512 * Layout(ws)[k].start + |images[k].value| <= 512 * TotalLba(Layout(ws))
  {
    hide Sectors, WholeSectors, RoundUp, Aligned, LbaAfter, TotalLba, Layout;
    LayoutFits(ws, k);
    LayoutSizes(ws, k);
  }

  lemma {:induction false} DenseUntouched(ps: seq<Placed>, images: seq<Option<Bytes>>, c: Bytes, n: nat, i: nat)
    requires n <= |ps| == |images| && forall k | 0 <= k < n :: !InImage(ps, images, k, i)
    ensures ByteAt(DenseAll(c, ps, images, n), i) == ByteAt(c, i)
  {
    hide ByteAt, WriteAt;
    if n > 0 {
      DenseUntouched(ps, images, c, n - 1, i);
      assert !InImage(ps, images, n - 1, i);
    }
  }

  lemma {:induction false} DenseHolds(ps: seq<Placed>, images: seq<Option<Bytes>>, c: Bytes, n: nat, k: nat, i: nat)
    requires k < n <= |ps| == |images| && InImage(ps, images, k, i)
    requires forall m | 0 <= m < |ps| && m != k :: !InImage(ps, images, m, i)
    ensures ByteAt(DenseAll(c, ps, images, n), i) == images[k].value[i - 512 * ps[k].start]
  {
    hide ByteAt, WriteAt;
    if k < n - 1 {
      DenseHolds(ps, images, c, n - 1, k, i);
      assert !InImage(ps, images, n - 1, i);
    }
  }

  /** On a fresh disk the tables leave zeros wherever an image goes. */
  lemma FreshUnderImages(ws: seq<Wanted>, images: seq<Option<Bytes>>, t: Tables, k: nat, i: nat)
    requires Plan(ws, images) && TablesFit(t) && k < |ws| && InImage(Layout(ws), images, k, i)
    ensures ByteAt(WriteTables([], t, TotalLba(Layout(ws))), i) == 0
  {
    hide WriteTables, TotalLba, Layout;
    ImagesAreApart(ws, images, k, i);
    TablesAreWritten([], t, TotalLba(Layout(ws)), i);
  }

  /** Assembling with holes is assembling densely. */
  lemma {:induction false} AssemblyIsDense(ws: seq<Wanted>, images: seq<Option<Bytes>>, t: Tables, n: nat)
    requires Plan(ws, images) && TablesFit(t) && n <= |ws|
    ensures var c := WriteTables([], t, TotalLba(Layout(ws)));
            CopyAll(c, Layout(ws), images, n) == DenseAll(c, Layout(ws), images, n)
  {
    hide WriteTables, TotalLba, Layout, CopyFrom, WriteAt, ZeroUnderSkips, ByteAt, TablesFit;
    if n > 0 {
      AssemblyIsDense(ws, images, t, n - 1);
      if images[n - 1].Some? {
        ZeroWhereNext(ws, images, t, n - 1);
        var c := WriteTables([], t, TotalLba(Layout(ws)));
        TablesAreWritten([], t, TotalLba(Layout(ws)), 0);
        DenseLength(ws, images, c, n - 1);
        LayoutFits(ws, n - 1);
        LayoutSizes(ws, n - 1);
        CopyIsDense(DenseAll(c, Layout(ws), images, n - 1), 512 * Layout(ws)[n - 1].start, images[n - 1].value);
      }
    }
  }

  lemma ZeroWhereNext(ws: seq<Wanted>, images: seq<Option<Bytes>>, t: Tables, k: nat)
    requires Plan(ws, images) && TablesFit(t) && k < |ws| && images[k].Some?
    ensures var c := DenseAll(WriteTables([], t, TotalLba(Layout(ws))), Layout(ws), images, k);
            ZeroUnderSkips(c, 512 * Layout(ws)[k].start, images[k].value)
  {
    hide WriteTables, TotalLba, Layout, DenseAll, ByteAt, TablesFit, Skipped;
    var ps, c0 := Layout(ws), WriteTables([], t, TotalLba(Layout(ws)));
    forall j | 0 <= j < |images[k].value| && Skipped(images[k].value, 0, j)
      ensures ByteAt(DenseAll(c0, ps, images, k), 512 * ps[k].start + j) == 0
    {
      var i := 512 * ps[k].start + j;
      assert InImage(ps, images, k, i);
      ImagesAreApart(ws, images, k, i);
      DenseUntouched(ps, images, c0, k, i);
      FreshUnderImages(ws, images, t, k, i);
    }
  }

  /** The finished disk. */
  function Assembled(ws: seq<Wanted>, images: seq<Option<Bytes>>, t: Tables): Bytes
    requires ws != [] && |images| == |ws|
  {
    CopyAll(WriteTables([], t, TotalLba(Layout(ws))), Layout(ws), images, |ws|)
  }

  /**
   The assembly theorem, byte by byte. The disk is as long as its tables say,
   equals the dense overlay, and holds: both copies of the tables; every image at
   its partition; zeros everywhere else.
   */
  lemma AssembledByte(ws: seq<Wanted>, images: seq<Option<Bytes>>, t: Tables, i: nat)
    requires Plan(ws, images) && TablesFit(t)
    requires i < 512 * TotalLba(Layout(ws))
    ensures var disk, total := Assembled(ws, images, t), TotalLba(Layout(ws));
            |disk| == 512 * total
            && disk == DenseAll(WriteTables([], t, total), Layout(ws), images, |ws|)
            && disk[i] == (if exists k | 0 <= k < |ws| :: InImage(Layout(ws), images, k, i) then
                             var k :| 0 <= k < |ws| && InImage(Layout(ws), images, k, i);
                             images[k].value[i - 512 * Layout(ws)[k].start]
                           else TableByte([], t, total, i))
  {
    hide WriteTables, TotalLba, Layout, DenseAll, CopyAll, TablesFit, TableByte;
    var ps, total := Layout(ws), TotalLba(Layout(ws));
    var c0 := WriteTables([], t, total);
    AssemblyIsDense(ws, images, t, |ws|);
    TablesAreWritten([], t, total, i);
    DenseLength(ws, images, c0, |ws|);
    if exists k | 0 <= k < |ws| :: InImage(ps, images, k, i) {
      var k :| 0 <= k < |ws| && InImage(ps, images, k, i);
      ImagesAreApart(ws, images, k, i);
      DenseHolds(ps, images, c0, |ws|, k, i);
    } else {
      DenseUntouched(ps, images, c0, |ws|, i);
    }
  }

  lemma TablesStand(ws: seq<Wanted>, images: seq<Option<Bytes>>, t: Tables, i: nat)
    requires Plan(ws, images) && TablesFit(t)
    requires i < 1024 + 0x4000 || 512 * (TotalLba(Layout(ws)) - 33) <= i < 512 * TotalLba(Layout(ws))
    ensures var disk, total := Assembled(ws, images, t), TotalLba(Layout(ws));
            |disk| == 512 * total && disk[i] == TableByte([], t, total, i)
  {
    hide TotalLba, Layout, Assembled, TableByte, TablesFit;
    AssembledByte(ws, images, t, i);
    if exists k | 0 <= k < |ws| :: InImage(Layout(ws), images, k, i) {
      var k :| 0 <= k < |ws| && InImage(Layout(ws), images, k, i);
      ImagesAreApart(ws, images, k, i);
    }
  }

  /** Both copies of the partition tables survive the copying of the images. */
  lemma TablesSurvive(ws: seq<Wanted>, images: seq<Option<Bytes>>, t: Tables)
    requires Plan(ws, images) && TablesFit(t)
    ensures var disk, total := Assembled(ws, images, t), TotalLba(Layout(ws));
            && At(disk, 0, t.mbr) && At(disk, 512, t.header) && At(disk, 1024, t.entries)
            && At(disk, 512 * (total - 33), t.entries) && At(disk, 512 * (total - 1), t.backup)
  {
    hide TotalLba, Layout, Assembled;
    var disk, total := Assembled(ws, images, t), TotalLba(Layout(ws));
    forall i | 0 <= i < 512 * total && (i < 1024 + 0x4000 || 512 * (total - 33) <= i)
      ensures |disk| == 512 * total && disk[i] == TableByte([], t, total, i)
    {
      TablesStand(ws, images, t, i);
    }
    TablesStand(ws, images, t, 0);
  }

  /** Every partition's extent holds its image, padded with zeros. */
  lemma PartitionHoldsImage(ws: seq<Wanted>, images: seq<Option<Bytes>>, t: Tables, k: nat)
    requires Plan(ws, images) && TablesFit(t)
    requires k < |ws| && images[k].Some?
    ensures var at, n := 512 * Layout(ws)[k].start, 512 * Sectors(ws[k].size);
            At(Assembled(ws, images, t), at, images[k].value + Zeros(n - |images[k].value|))
  {
    hide TotalLba, Layout, Assembled, Sectors, TableByte, TablesFit;
    var disk, img := Assembled(ws, images, t), images[k].value;
    var at, n := 512 * Layout(ws)[k].start, 512 * Sectors(ws[k].size);
    LayoutFits(ws, k);
    AssembledByte(ws, images, t, at);
    forall i | at <= i < at + n
      ensures disk[i] == if i < at + |img| then img[i - at] else 0
    {
      ExtentByte(ws, images, t, k, i);
    }
    assert disk[at..at + n] == img + Zeros(n - |img|);
  }

  lemma ExtentByte(ws: seq<Wanted>, images: seq<Option<Bytes>>, t: Tables, k: nat, i: nat)
    requires Plan(ws, images) && TablesFit(t)
    requires k < |ws| && images[k].Some?
    requires 512 * Layout(ws)[k].start <= i < 512 * Layout(ws)[k].start + 512 * Sectors(ws[k].size)
    ensures var disk, at := Assembled(ws, images, t), 512 * Layout(ws)[k].start;
            i < |disk|
            && disk[i] == if i < at + |images[k].value| then images[k].value[i - at] else 0
  {
    hide TotalLba, Layout, Assembled, Sectors, WholeSectors, TablesFit;
    LayoutFits(ws, k);
    LayoutSizes(ws, k);
    LayoutIsDisjoint(ws, k);
    AssembledByte(ws, images, t, i);
    if InImage(Layout(ws), images, k, i) {
      ImagesAreApart(ws, images, k, i);
    } else {
      forall m | 0 <= m < |ws|
        ensures !InImage(Layout(ws), images, m, i)
      {
        LayoutIsDisjoint(ws, m);
        LayoutSizes(ws, m);
      }
    }
  }

  /** Reading the finished disk lists every partition with its name, first and last LBA. */
  lemma FinishedDiskReadsBack(ws: seq<Wanted>, images: seq<Option<Bytes>>,
                              crc: Crc, diskGuid: Bytes, uniques: seq<Bytes>)
    requires Plan(ws, images) && |uniques| == |ws| <= ENTRIES && |diskGuid| == 16
    requires AllFit(RecordedAll(Layout(ws), uniques)) && AllBare(RecordedAll(Layout(ws), uniques))
    ensures var parts := RecordedAll(Layout(ws), uniques);
            var disk := Assembled(ws, images, TablesOf(crc, parts, TotalLba(Layout(ws)), diskGuid));
            |disk| >= 1024 + 0x4000 && ReadEntries(disk, 1024, ENTRY_SIZE, ENTRIES) == Rows(parts)
  {
    hide TotalLba, Layout, Assembled, RecordedAll, EntryArray, PrimaryHeader, BackupHeader, Mbr, Rows, ReadEntries;
    var parts := RecordedAll(Layout(ws), uniques);
    var t := TablesOf(crc, parts, TotalLba(Layout(ws)), diskGuid);
    TablesSurvive(ws, images, t);
    TableReadsBack(Assembled(ws, images, t), 1024, parts, ENTRIES);
  }

  /** The disk stage of the builder, on a new empty file: allocate, write the tables, copy the images. */
  method BuildDisk(disk: File, ws: seq<Wanted>, images: seq<Option<Bytes>>,
                   crc: Crc, diskGuid: Bytes, uniques: seq<Bytes>) returns (ok: bool)
    requires disk.content == [] && |images| == |ws|
    requires |uniques| == |ws| <= ENTRIES && |diskGuid| == 16
    modifies disk
    ensures (ok
        <==> ws != [] && AllFit(RecordedAll(Layout(ws), uniques)) && TotalLba(Layout(ws)) <= 0x1_0000_0000_0000_0000)
    ensures ok ==> disk.content
                      == Assembled(ws, images,
                                   TablesOf(crc, RecordedAll(Layout(ws), uniques), TotalLba(Layout(ws)), diskGuid))
  {
    hide TotalLba, Layout, RecordedAll, TablesOf, WriteTables, CopyFrom;
    var ps := Allocate(ws);
    var total := MakeGpt(disk, ps, crc, diskGuid, uniques);
    if total.None? {
      return false;
    }
    ghost var c := disk.content;
    var k := 0;
    while k < |ps|
      invariant 0 <= k <= |ps|
      invariant disk.content == CopyAll(c, ps, images, k)
    {
      if images[k].Some? {
        CopyImage(disk, ps[k].start, images[k].value);
      }
      k := k + 1;
    }
    return true;
  }
}
