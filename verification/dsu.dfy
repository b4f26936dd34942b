/** TransformFstabForDsu: pointing a first-stage fstab at the partitions of a Dynamic System Update. */
module Dsu {
  import opened Wrappers
  import opened FstabTypes
  import opened Text

  /** The names libgsi gives, and its directory of metadata keys. */
  datatype Gsi = Gsi(postfix: string, scratch: string, userdata: string, metadataKeyDir: string -> string)

  const DATA: string := "/data"
  const KEYS_DIR: string := "/avb"
  const FS_TYPES: seq<string> := ["ext4", "erofs"]

  predicate IsUserdata(g: Gsi, p: string) {
    EndsWith(p, g.postfix) && p != g.scratch && p == g.userdata
  }

  predicate IsReadOnly(g: Gsi, p: string) {
    EndsWith(p, g.postfix) && p != g.scratch && p != g.userdata
  }

  /** The partition's name without the DSU postfix. */
  function LpName(g: Gsi, p: string): string
    requires EndsWith(p, g.postfix)
  {
    p[..|p| - |g.postfix|]
  }

  function MountPoint(g: Gsi, p: string): string
    requires EndsWith(p, g.postfix)
  {
    "/" + LpName(g, p)
  }

  // ---------------------------------------------------------------------
  // What the transformation does
  // ---------------------------------------------------------------------

  function ConvertUserdata(g: Gsi, slot: string, e: Entry): Entry {
    if e.mountPoint != DATA then e
    else e.(blkDevice := g.userdata, fsMgrFlags := e.fsMgrFlags + {Logical, Formattable},
            metadataKeyDir := if e.metadataKeyDir == "" then "" else g.metadataKeyDir(slot))
  }

  function UserdataAll(g: Gsi, slot: string, es: seq<Entry>): (r: seq<Entry>)
    ensures |r| == |es|
  {
    if es == [] then []
    else UserdataAll(g, slot, es[..|es| - 1]) + [ConvertUserdata(g, slot, es[|es| - 1])]
  }

  /** Only early-mounted entries take part. */
  predicate Matches(mountPoint: string, e: Entry) {
    FirstStageMount in e.fsMgrFlags && e.mountPoint == mountPoint
  }

  function Convert(g: Gsi, p: string, e: Entry): Entry
    requires EndsWith(p, g.postfix)
  {
    if !Matches(MountPoint(g, p), e) then e
    else e.(blkDevice := p, avbKeys := KEYS_DIR, logicalPartitionName := LpName(g, p),
            fsMgrFlags := e.fsMgrFlags + {Logical} - {SlotSelect, SlotSelectOther})
  }

  function ConvertAll(g: Gsi, p: string, es: seq<Entry>): (r: seq<Entry>)
    requires EndsWith(p, g.postfix)
    ensures |r| == |es|
  {
    if es == [] then [] else ConvertAll(g, p, es[..|es| - 1]) + [Convert(g, p, es[|es| - 1])]
  }

  /** `erase(find(...))` on the list of missing file systems. */
  function EraseFirst(xs: seq<string>, x: string): seq<string> {
    if xs == [] then [] else if xs[0] == x then xs[1..] else [xs[0]] + EraseFirst(xs[1..], x)
  }

  function Lacking(mountPoint: string, es: seq<Entry>): seq<string> {
    if es == [] then FS_TYPES
    else
      var before, last := Lacking(mountPoint, es[..|es| - 1]), es[|es| - 1];
      if Matches(mountPoint, last) then EraseFirst(before, last.fsType) else before
  }

  /** `find_if` and `find_if_not` from position i. */
  function FindMatch(mountPoint: string, es: seq<Entry>, i: nat, want: bool): (k: nat)
    requires i <= |es|
    ensures i <= k <= |es|
    ensures k < |es| ==> Matches(mountPoint, es[k]) == want
    ensures forall j | i <= j < k :: Matches(mountPoint, es[j]) != want
    decreases |es| - i
  {
    if i == |es| || Matches(mountPoint, es[i]) == want then i else FindMatch(mountPoint, es, i + 1, want)
  }

  /** The end of the first group of matching entries, or of the fstab. */
  function GroupEnd(mountPoint: string, es: seq<Entry>): (k: nat)
    ensures k <= |es|
  {
    FindMatch(mountPoint, es, FindMatch(mountPoint, es, 0, true), false)
  }

  function Fresh(g: Gsi, p: string, fsType: string): Entry
    requires EndsWith(p, g.postfix)
  {
    BLANK.(blkDevice := p, logicalPartitionName := LpName(g, p), mountPoint := MountPoint(g, p),
           fsType := fsType, flags := {ReadOnly}, avbKeys := KEYS_DIR,
           fsMgrFlags := {Wait, Logical, FirstStageMount})
  }

  function FreshAll(g: Gsi, p: string, types: seq<string>): (r: seq<Entry>)
    requires EndsWith(p, g.postfix)
    ensures |r| == |types|
  {
    if types == [] then [] else FreshAll(g, p, types[..|types| - 1]) + [Fresh(g, p, types[|types| - 1])]
  }

  function InsertAt(es: seq<Entry>, k: nat, more: seq<Entry>): seq<Entry>
    requires k <= |es|
  {
    es[..k] + more + es[k..]
  }

  function ReadOnlyStep(g: Gsi, p: string, es: seq<Entry>): seq<Entry>
    requires EndsWith(p, g.postfix)
  {
    var m, converted := MountPoint(g, p), ConvertAll(g, p, es);
    InsertAt(converted, GroupEnd(m, converted), FreshAll(g, p, Lacking(m, es)))
  }

  function Step(g: Gsi, slot: string, es: seq<Entry>, p: string): seq<Entry> {
    if IsUserdata(g, p) then UserdataAll(g, slot, es)
    else if IsReadOnly(g, p) then ReadOnlyStep(g, p, es)
    else es
  }

  function Transform(g: Gsi, slot: string, es: seq<Entry>, ps: seq<string>): seq<Entry> {
    if ps == [] then es else Step(g, slot, Transform(g, slot, es, ps[..|ps| - 1]), ps[|ps| - 1])
  }

  // ---------------------------------------------------------------------
  // The code: an fstab edited in place
  // ---------------------------------------------------------------------

  lemma UserdataSnoc(g: Gsi, slot: string, es: seq<Entry>, i: nat)
    requires i < |es|
    ensures UserdataAll(g, slot, es[..i + 1]) == UserdataAll(g, slot, es[..i]) + [ConvertUserdata(g, slot, es[i])]
  {
    hide ConvertUserdata;
    assert es[..i + 1][..i] == es[..i];
  }

  lemma NextIsDone(done: seq<Entry>, es: seq<Entry>, i: nat, e: Entry)
    requires i < |es| && |done| == i
    ensures (done + es[i..])[i] == es[i]
    ensures (done + es[i..])[i := e] == (done + [e]) + es[i + 1..]
    ensures e == es[i] ==> done + es[i..] == (done + [e]) + es[i + 1..]
  {
  }

  class Fstab {
    var entries: seq<Entry>

    constructor (es: seq<Entry>)
      ensures entries == es
    {
      entries := es;
    }

    method ConvertDataEntries(g: Gsi, slot: string)
      modifies this
      ensures entries == UserdataAll(g, slot, old(entries))
    {
      ghost var es := entries;
      for i := 0 to |entries|
        invariant |entries| == |es| && entries == UserdataAll(g, slot, es[..i]) + es[i..]
      {
        var e := entries[i];
        UserdataSnoc(g, slot, es, i);
        hide UserdataAll;
        NextIsDone(UserdataAll(g, slot, es[..i]), es, i, ConvertUserdata(g, slot, es[i]));
        if e.mountPoint == DATA {
          entries := entries[i := e.(blkDevice := g.userdata,
                                     fsMgrFlags := e.fsMgrFlags + {Logical, Formattable},
                                     metadataKeyDir := if e.metadataKeyDir == "" then "" else g.metadataKeyDir(slot))];
        }
      }
      assert es[..|es|] == es;
    }

    /** Converts the matching entries and returns the file systems none of them has. */
    method ConvertMatching(g: Gsi, p: string) returns (lacking: seq<string>)
      requires EndsWith(p, g.postfix)
      modifies this
      ensures entries == ConvertAll(g, p, old(entries))
      ensures lacking == Lacking(MountPoint(g, p), old(entries))
    {
      ghost var es := entries;
      lacking := FS_TYPES;
      for i := 0 to |entries|
        invariant |entries| == |es| && entries == ConvertAll(g, p, es[..i]) + es[i..]
        invariant lacking == Lacking(MountPoint(g, p), es[..i])
      {
        assert es[..i + 1][..i] == es[..i];
        var e := entries[i];
        NextIsDone(ConvertAll(g, p, es[..i]), es, i, Convert(g, p, es[i]));
        if Matches(MountPoint(g, p), e) {
          entries := entries[i := e.(blkDevice := p, avbKeys := KEYS_DIR, logicalPartitionName := LpName(g, p),
                                     fsMgrFlags := e.fsMgrFlags + {Logical} - {SlotSelect, SlotSelectOther})];
          lacking := EraseFirst(lacking, e.fsType);
        }
      }
      assert es[..|es|] == es;
    }

    method InsertMissing(g: Gsi, p: string, lacking: seq<string>)
      requires EndsWith(p, g.postfix)
      modifies this
      ensures (entries
            == InsertAt(old(entries), GroupEnd(MountPoint(g, p), old(entries)), FreshAll(g, p, lacking)))
    {
      ghost var es := entries;
      var k := GroupEnd(MountPoint(g, p), entries);
      var at := k;
      for i := 0 to |lacking|
        invariant at == k + i && entries == InsertAt(es, k, FreshAll(g, p, lacking[..i]))
      {
        assert lacking[..i + 1][..i] == lacking[..i];
        var e := Fresh(g, p, lacking[i]);
        entries := entries[..at] + [e] + entries[at..];
        at := at + 1;
      }
      assert lacking[..|lacking|] == lacking;
    }

    method TransformForDsu(g: Gsi, slot: string, partitions: seq<string>)
      modifies this
      ensures entries == Transform(g, slot, old(entries), partitions)
    {
      ghost var es := entries;
      for i := 0 to |partitions|
        invariant entries == Transform(g, slot, es, partitions[..i])
      {
        var p := partitions[i];
        assert partitions[..i + 1][..i] == partitions[..i];
        hide UserdataAll, ConvertAll, FreshAll, Lacking, GroupEnd, InsertAt;
        if EndsWith(p, g.postfix) && p != g.scratch {
          if p == g.userdata {
            ConvertDataEntries(g, slot);
          } else {
            var lacking := ConvertMatching(g, p);
            if lacking != [] {
              InsertMissing(g, p, lacking);
            } else {
              NothingToInsert(g, p, entries);
            }
          }
        }
      }
      assert partitions[..|partitions|] == partitions;
    }
  }

  lemma NothingToInsert(g: Gsi, p: string, es: seq<Entry>)
    requires EndsWith(p, g.postfix)
    ensures InsertAt(es, GroupEnd(MountPoint(g, p), es), FreshAll(g, p, [])) == es
  {
  }

  // ---------------------------------------------------------------------
  // What a step leaves alone
  // ---------------------------------------------------------------------

  /** The entries of one mount point, in order. */
  function Group(es: seq<Entry>, m: string): seq<Entry> {
    if es == [] then []
    else Group(es[..|es| - 1], m) + (if es[|es| - 1].mountPoint == m then [es[|es| - 1]] else [])
  }

  lemma {:induction false} GroupOfConcat(a: seq<Entry>, b: seq<Entry>, m: string)
    ensures Group(a + b, m) == Group(a, m) + Group(b, m)
    decreases |b|
  {
    if b == [] {
      assert a + b == a && Group(a, m) + [] == Group(a, m);
    } else {
      assert (a + b)[..|a + b| - 1] == a + b[..|b| - 1];
      GroupOfConcat(a, b[..|b| - 1], m);
    }
  }

  lemma {:induction false} UserdataFrame(g: Gsi, slot: string, es: seq<Entry>, m: string)
    requires m != DATA
    ensures Group(UserdataAll(g, slot, es), m) == Group(es, m)
    decreases |es|
  {
    if es != [] {
      var all := UserdataAll(g, slot, es);
      assert all[..|all| - 1] == UserdataAll(g, slot, es[..|es| - 1]);
      UserdataFrame(g, slot, es[..|es| - 1], m);
    }
  }

  lemma {:induction false} ConvertFrame(g: Gsi, p: string, es: seq<Entry>, m: string)
    requires EndsWith(p, g.postfix) && m != MountPoint(g, p)
    ensures Group(ConvertAll(g, p, es), m) == Group(es, m)
    decreases |es|
  {
    if es != [] {
      var all := ConvertAll(g, p, es);
      assert all[..|all| - 1] == ConvertAll(g, p, es[..|es| - 1]);
      ConvertFrame(g, p, es[..|es| - 1], m);
    }
  }

  lemma {:induction false} FreshFrame(g: Gsi, p: string, types: seq<string>, m: string)
    requires EndsWith(p, g.postfix) && m != MountPoint(g, p)
    ensures Group(FreshAll(g, p, types), m) == []
    decreases |types|
  {
    if types != [] {
      var all := FreshAll(g, p, types);
      assert all[..|all| - 1] == FreshAll(g, p, types[..|types| - 1]);
      FreshFrame(g, p, types[..|types| - 1], m);
    }
  }

  lemma InsertFrame(es: seq<Entry>, k: nat, more: seq<Entry>, m: string)
    requires k <= |es| && Group(more, m) == []
    ensures Group(InsertAt(es, k, more), m) == Group(es, m)
  {
    hide Group;
    GroupOfConcat(es[..k] + more, es[k..], m);
    GroupOfConcat(es[..k], more, m);
    GroupOfConcat(es[..k], es[k..], m);
    assert es[..k] + es[k..] == es;
    assert Group(es[..k], m) + [] == Group(es[..k], m);
  }

  /** The mount point a partition is about. */
  function Target(g: Gsi, p: string): Option<string> {
    if IsUserdata(g, p) then Some(DATA)
    else if IsReadOnly(g, p) then Some(MountPoint(g, p))
    else None
  }

  /** A step leaves the entries of every other mount point as they are. */
  lemma StepFrame(g: Gsi, slot: string, es: seq<Entry>, p: string, m: string)
    requires Target(g, p) != Some(m)
    ensures Group(Step(g, slot, es, p), m) == Group(es, m)
  {
    hide Group, MountPoint, ConvertAll, FreshAll, UserdataAll, Lacking, GroupEnd, InsertAt, EndsWith;
    if IsUserdata(g, p) {
      UserdataFrame(g, slot, es, m);
    } else if IsReadOnly(g, p) {
      var converted, types := ConvertAll(g, p, es), Lacking(MountPoint(g, p), es);
      ConvertFrame(g, p, es, m);
      FreshFrame(g, p, types, m);
      InsertFrame(converted, GroupEnd(MountPoint(g, p), converted), FreshAll(g, p, types), m);
    }
  }

  predicate Touches(g: Gsi, ps: seq<string>, m: string) {
    exists i | 0 <= i < |ps| :: Target(g, ps[i]) == Some(m)
  }

  /** Entries of mount points no partition is about survive unchanged and in order. */
  lemma {:induction false} TransformFrame(g: Gsi, slot: string, es: seq<Entry>, ps: seq<string>, m: string)
    requires !Touches(g, ps, m)
    ensures Group(Transform(g, slot, es, ps), m) == Group(es, m)
    decreases |ps|
  {
    hide Step, Target, Group;
    if ps != [] {
      var init := ps[..|ps| - 1];
      assert forall i | 0 <= i < |init| :: init[i] == ps[i];
      TransformFrame(g, slot, es, init, m);
      StepFrame(g, slot, Transform(g, slot, es, init), ps[|ps| - 1], m);
    }
  }

  // ---------------------------------------------------------------------
  // What a step achieves
  // ---------------------------------------------------------------------

  predicate HasType(m: string, es: seq<Entry>, t: string) {
    exists e | e in es :: Matches(m, e) && e.fsType == t
  }

  predicate Distinct(xs: seq<string>) {
    forall i, j | 0 <= i < j < |xs| :: xs[i] != xs[j]
  }

  lemma {:induction false} EraseMeans(xs: seq<string>, x: string, t: string)
    requires Distinct(xs)
    ensures t in EraseFirst(xs, x) <==> t in xs && t != x
  {
    if xs != [] {
      assert xs[0] !in xs[1..];
      assert xs == [xs[0]] + xs[1..];
      EraseMeans(xs[1..], x, t);
    }
  }

  lemma {:induction false} EraseKeepsDistinct(xs: seq<string>, x: string)
    requires Distinct(xs)
    ensures Distinct(EraseFirst(xs, x))
  {
    if xs != [] && xs[0] != x {
      var rest := EraseFirst(xs[1..], x);
      EraseKeepsDistinct(xs[1..], x);
      EraseMeans(xs[1..], x, xs[0]);
      assert xs[0] !in xs[1..];
    }
  }

  lemma {:induction false} LackingIsDistinct(m: string, es: seq<Entry>)
    ensures Distinct(Lacking(m, es))
    decreases |es|
  {
    if es == [] {
      assert FS_TYPES[0][1] != FS_TYPES[1][1];
    } else {
      LackingIsDistinct(m, es[..|es| - 1]);
      EraseKeepsDistinct(Lacking(m, es[..|es| - 1]), es[|es| - 1].fsType);
    }
  }

  /** The list holds exactly the file systems no matching entry has. */
  lemma {:induction false} LackingMeans(m: string, es: seq<Entry>, t: string)
    ensures t in Lacking(m, es) <==> t in FS_TYPES && !HasType(m, es, t)
    decreases |es|
  {
    if es != [] {
      var init, last := es[..|es| - 1], es[|es| - 1];
      assert es == init + [last];
      LackingMeans(m, init, t);
      LackingIsDistinct(m, init);
      hide EraseFirst, Matches;
      EraseMeans(Lacking(m, init), last.fsType, t);
    }
  }

  lemma TargetIsUnique(g: Gsi, p: string, q: string)
    requires IsReadOnly(g, p) && IsReadOnly(g, q) && MountPoint(g, p) == MountPoint(g, q)
    ensures p == q
  {
    assert MountPoint(g, p)[1..] == LpName(g, p) && MountPoint(g, q)[1..] == LpName(g, q);
    assert p == LpName(g, p) + g.postfix && q == LpName(g, q) + g.postfix;
  }

  // ---------------------------------------------------------------------
  // What happens to one entry
  // ---------------------------------------------------------------------

  /** What the step for p does to an entry it finds. */
  function Entrywise(g: Gsi, slot: string, p: string, e: Entry): Entry {
    if IsUserdata(g, p) then ConvertUserdata(g, slot, e)
    else if IsReadOnly(g, p) then Convert(g, p, e)
    else e
  }

  /** The step for p writes to this entry. */
  predicate Acts(g: Gsi, p: string, e: Entry) {
    || (IsUserdata(g, p) && e.mountPoint == DATA)
    || (IsReadOnly(g, p) && Matches(MountPoint(g, p), e))
  }

  function Through(g: Gsi, slot: string, ps: seq<string>, e: Entry): Entry {
    if ps == [] then e else Entrywise(g, slot, ps[|ps| - 1], Through(g, slot, ps[..|ps| - 1], e))
  }

  /** The block device the last acting step writes. */
  function LastDevice(g: Gsi, ps: seq<string>, e: Entry): string {
    if ps == [] then e.blkDevice
    else if Acts(g, ps[|ps| - 1], e) then ps[|ps| - 1]
    else LastDevice(g, ps[..|ps| - 1], e)
  }

  predicate SomeActs(g: Gsi, ps: seq<string>, e: Entry) {
    exists i | 0 <= i < |ps| :: Acts(g, ps[i], e)
  }

  /** The step for p would write nothing new but the block device. */
  predicate Absorbs(g: Gsi, slot: string, p: string, e: Entry) {
    Entrywise(g, slot, p, e) == e.(blkDevice := if Acts(g, p, e) then p else e.blkDevice)
  }

  lemma EntrywiseFrame(g: Gsi, slot: string, p: string, e: Entry)
    ensures var r := Entrywise(g, slot, p, e);
            && r.mountPoint == e.mountPoint && r.fsType == e.fsType
            && (FirstStageMount in r.fsMgrFlags <==> FirstStageMount in e.fsMgrFlags)
            && r.blkDevice == if Acts(g, p, e) then p else e.blkDevice
  {
    hide EndsWith, MountPoint, LpName;
  }

  lemma ActsAlike(g: Gsi, p: string, e: Entry, f: Entry)
    requires e.mountPoint == f.mountPoint && (FirstStageMount in e.fsMgrFlags <==> FirstStageMount in f.fsMgrFlags)
    ensures Acts(g, p, e) <==> Acts(g, p, f)
  {
    hide EndsWith, MountPoint;
  }

  lemma AbsorbsItself(g: Gsi, slot: string, p: string, e: Entry)
    ensures Absorbs(g, slot, p, Entrywise(g, slot, p, e))
  {
    hide EndsWith, MountPoint, LpName;
    var bits := e.fsMgrFlags;
    assert bits + {Logical, Formattable} + {Logical, Formattable} == bits + {Logical, Formattable};
    assert (bits + {Logical} - {SlotSelect, SlotSelectOther} + {Logical} - {SlotSelect, SlotSelectOther}
         == bits + {Logical} - {SlotSelect, SlotSelectOther});
  }

  /** No later step undoes what an earlier one wrote, block devices apart. */
  lemma AbsorbsStays(g: Gsi, slot: string, p: string, q: string, e: Entry)
    requires Absorbs(g, slot, p, e)
    ensures Absorbs(g, slot, p, Entrywise(g, slot, q, e))
  {
    if IsReadOnly(g, p) && IsReadOnly(g, q) && MountPoint(g, p) == MountPoint(g, q) {
      TargetIsUnique(g, p, q);
      AbsorbsItself(g, slot, p, e);
    } else {
      AbsorbsOthers(g, slot, p, q, e);
    }
  }

  lemma AbsorbsOthers(g: Gsi, slot: string, p: string, q: string, e: Entry)
    requires Absorbs(g, slot, p, e)
    requires !(IsReadOnly(g, p) && IsReadOnly(g, q) && MountPoint(g, p) == MountPoint(g, q))
    ensures Absorbs(g, slot, p, Entrywise(g, slot, q, e))
  {
    hide EndsWith, MountPoint, LpName;
    var f, bits := Entrywise(g, slot, q, e), e.fsMgrFlags;
    EntrywiseFrame(g, slot, q, e);
    ActsAlike(g, p, e, f);
    if Acts(g, p, e) && Acts(g, q, e) {
      BitsStay(bits);
    }
  }

  lemma BitsStay(bits: set<FsMgrFlag>)
    ensures bits + {Logical, Formattable} == bits ==>
              (var r := bits + {Logical} - {SlotSelect, SlotSelectOther}; r + {Logical, Formattable} == r)
    ensures bits + {Logical} - {SlotSelect, SlotSelectOther} == bits ==>
              (var r := bits + {Logical, Formattable}; r + {Logical} - {SlotSelect, SlotSelectOther} == r)
    ensures bits + {Logical, Formattable} + {Logical, Formattable} == bits + {Logical, Formattable}
  {
  }

  lemma {:induction false} ThroughFrame(g: Gsi, slot: string, ps: seq<string>, e: Entry)
    ensures var r := Through(g, slot, ps, e);
            && r.mountPoint == e.mountPoint && r.fsType == e.fsType
            && (FirstStageMount in r.fsMgrFlags <==> FirstStageMount in e.fsMgrFlags)
            && r.blkDevice == LastDevice(g, ps, e)
    decreases |ps|
  {
    hide Entrywise, Acts;
    if ps != [] {
      var before := Through(g, slot, ps[..|ps| - 1], e);
      ThroughFrame(g, slot, ps[..|ps| - 1], e);
      EntrywiseFrame(g, slot, ps[|ps| - 1], before);
      ActsAlike(g, ps[|ps| - 1], e, before);
    }
  }

  lemma {:induction false} ThroughKeepsAbsorbing(g: Gsi, slot: string, p: string, ps: seq<string>, e: Entry)
    requires Absorbs(g, slot, p, e)
    ensures Absorbs(g, slot, p, Through(g, slot, ps, e))
    decreases |ps|
  {
    hide Entrywise, Absorbs;
    if ps != [] {
      ThroughKeepsAbsorbing(g, slot, p, ps[..|ps| - 1], e);
      AbsorbsStays(g, slot, p, ps[|ps| - 1], Through(g, slot, ps[..|ps| - 1], e));
    }
  }

  lemma {:induction false} ThroughAbsorbs(g: Gsi, slot: string, ps: seq<string>, e: Entry, i: nat)
    requires i < |ps|
    ensures Absorbs(g, slot, ps[i], Through(g, slot, ps, e))
    decreases |ps|
  {
    hide Entrywise, Absorbs;
    var init, last := ps[..|ps| - 1], ps[|ps| - 1];
    if i == |ps| - 1 {
      AbsorbsItself(g, slot, last, Through(g, slot, init, e));
    } else {
      ThroughAbsorbs(g, slot, init, e, i);
      AbsorbsStays(g, slot, ps[i], last, Through(g, slot, init, e));
    }
  }

  predicate AllAbsorb(g: Gsi, slot: string, ps: seq<string>, e: Entry) {
    forall i | 0 <= i < |ps| :: Absorbs(g, slot, ps[i], e)
  }

  lemma AbsorbsDevice(g: Gsi, slot: string, p: string, e: Entry, b: string)
    requires Absorbs(g, slot, p, e)
    ensures Entrywise(g, slot, p, e.(blkDevice := b)) == e.(blkDevice := if Acts(g, p, e) then p else b)
  {
    hide EndsWith, MountPoint, LpName;
  }

  /** An absorbing entry goes through with nothing changed but its block device. */
  lemma {:induction false} AbsorbingGoesThrough(g: Gsi, slot: string, ps: seq<string>, e: Entry)
    requires AllAbsorb(g, slot, ps, e)
    ensures Through(g, slot, ps, e) == e.(blkDevice := LastDevice(g, ps, e))
    decreases |ps|
  {
    hide Entrywise, Absorbs, Acts;
    if ps != [] {
      AbsorbingGoesThrough(g, slot, ps[..|ps| - 1], e);
      AbsorbsDevice(g, slot, ps[|ps| - 1], e, LastDevice(g, ps[..|ps| - 1], e));
    }
  }

  lemma {:induction false} LastDeviceAlike(g: Gsi, ps: seq<string>, e: Entry, f: Entry)
    requires e.mountPoint == f.mountPoint && (FirstStageMount in e.fsMgrFlags <==> FirstStageMount in f.fsMgrFlags)
    requires SomeActs(g, ps, e) || e.blkDevice == f.blkDevice
    ensures LastDevice(g, ps, e) == LastDevice(g, ps, f)
    decreases |ps|
  {
    hide Acts;
    if ps != [] {
      var init := ps[..|ps| - 1];
      ActsAlike(g, ps[|ps| - 1], e, f);
      if !Acts(g, ps[|ps| - 1], e) {
        if SomeActs(g, ps, e) {
          var i :| 0 <= i < |ps| && Acts(g, ps[i], e);
          assert init[i] == ps[i];
        }
        LastDeviceAlike(g, init, e, f);
      }
    }
  }

  lemma {:induction false} NoneActs(g: Gsi, ps: seq<string>, e: Entry)
    requires !SomeActs(g, ps, e)
    ensures LastDevice(g, ps, e) == e.blkDevice
    decreases |ps|
  {
    hide Acts;
    if ps != [] {
      assert forall i | 0 <= i < |ps| - 1 :: ps[..|ps| - 1][i] == ps[i];
      NoneActs(g, ps[..|ps| - 1], e);
    }
  }

  /** One entry: a second pass changes nothing. */
  lemma ThroughTwice(g: Gsi, slot: string, ps: seq<string>, e: Entry)
    ensures Through(g, slot, ps, Through(g, slot, ps, e)) == Through(g, slot, ps, e)
  {
    var r := Through(g, slot, ps, e);
    hide Through, Acts, Absorbs;
    forall i | 0 <= i < |ps|
      ensures Absorbs(g, slot, ps[i], r)
    {
      ThroughAbsorbs(g, slot, ps, e, i);
    }
    AbsorbingGoesThrough(g, slot, ps, r);
    ThroughFrame(g, slot, ps, e);
    if SomeActs(g, ps, e) {
      LastDeviceAlike(g, ps, e, r);
    } else {
      NoneActs(g, ps, e);
      LastDeviceAlike(g, ps, e, r);
    }
  }

  // ---------------------------------------------------------------------
  // Members of the transformed fstab
  // ---------------------------------------------------------------------

  lemma {:induction false} UserdataMembers(g: Gsi, slot: string, es: seq<Entry>, e: Entry) returns (from: Entry)
    requires e in UserdataAll(g, slot, es)
    ensures from in es && e == ConvertUserdata(g, slot, from)
    decreases |es|
  {
    hide ConvertUserdata;
    if e in UserdataAll(g, slot, es[..|es| - 1]) {
      from := UserdataMembers(g, slot, es[..|es| - 1], e);
    } else {
      from := es[|es| - 1];
    }
  }

  lemma {:induction false} ConvertMembers(g: Gsi, p: string, es: seq<Entry>, e: Entry) returns (from: Entry)
    requires EndsWith(p, g.postfix) && e in ConvertAll(g, p, es)
    ensures from in es && e == Convert(g, p, from)
    decreases |es|
  {
    hide Convert, EndsWith;
    if e in ConvertAll(g, p, es[..|es| - 1]) {
      from := ConvertMembers(g, p, es[..|es| - 1], e);
    } else {
      from := es[|es| - 1];
    }
  }

  lemma {:induction false} ConvertedIn(g: Gsi, p: string, es: seq<Entry>, e: Entry)
    requires EndsWith(p, g.postfix) && e in es
    ensures Convert(g, p, e) in ConvertAll(g, p, es)
    decreases |es|
  {
    hide Convert, EndsWith;
    assert es == es[..|es| - 1] + [es[|es| - 1]];
    if e in es[..|es| - 1] {
      ConvertedIn(g, p, es[..|es| - 1], e);
    }
  }

  lemma {:induction false} FreshMembers(g: Gsi, p: string, types: seq<string>, e: Entry) returns (t: string)
    requires EndsWith(p, g.postfix) && e in FreshAll(g, p, types)
    ensures t in types && e == Fresh(g, p, t)
    decreases |types|
  {
    hide Fresh, EndsWith;
    if e in FreshAll(g, p, types[..|types| - 1]) {
      t := FreshMembers(g, p, types[..|types| - 1], e);
    } else {
      t := types[|types| - 1];
    }
  }

  lemma {:induction false} FreshIn(g: Gsi, p: string, types: seq<string>, t: string)
    requires EndsWith(p, g.postfix) && t in types
    ensures Fresh(g, p, t) in FreshAll(g, p, types)
    decreases |types|
  {
    hide Fresh, EndsWith;
    assert types == types[..|types| - 1] + [types[|types| - 1]];
    if t in types[..|types| - 1] {
      FreshIn(g, p, types[..|types| - 1], t);
    }
  }

  lemma FreshIsConverted(g: Gsi, p: string, t: string)
    requires EndsWith(p, g.postfix)
    ensures Convert(g, p, Fresh(g, p, t)) == Fresh(g, p, t)
    ensures Matches(MountPoint(g, p), Fresh(g, p, t)) && Fresh(g, p, t).fsType == t
  {
    hide MountPoint, LpName, EndsWith;
    var bits := {Wait, Logical, FirstStageMount};
    assert bits + {Logical} - {SlotSelect, SlotSelectOther} == bits;
  }

  lemma ConvertMatches(g: Gsi, p: string, m: string, e: Entry)
    requires EndsWith(p, g.postfix)
    ensures Matches(m, Convert(g, p, e)) <==> Matches(m, e)
    ensures Convert(g, p, e).fsType == e.fsType && Convert(g, p, e).mountPoint == e.mountPoint
  {
    hide MountPoint, LpName, EndsWith;
  }

  lemma InsertMembers(es: seq<Entry>, k: nat, more: seq<Entry>, e: Entry)
    requires k <= |es|
    ensures e in InsertAt(es, k, more) <==> e in es || e in more
  {
    assert es == es[..k] + es[k..];
  }

  lemma StepHasType(g: Gsi, p: string, es: seq<Entry>, t: string)
    requires IsReadOnly(g, p) && t in FS_TYPES
    ensures HasType(MountPoint(g, p), ReadOnlyStep(g, p, es), t)
  {
    hide Convert, EndsWith, MountPoint, ConvertAll, FreshAll, GroupEnd, InsertAt, Lacking, Matches, Fresh;
    var m, converted := MountPoint(g, p), ConvertAll(g, p, es);
    var more := FreshAll(g, p, Lacking(m, es));
    LackingMeans(m, es, t);
    if HasType(m, es, t) {
      var e :| e in es && Matches(m, e) && e.fsType == t;
      ConvertedIn(g, p, es, e);
      ConvertMatches(g, p, m, e);
      InsertMembers(converted, GroupEnd(m, converted), more, Convert(g, p, e));
    } else {
      FreshIn(g, p, Lacking(m, es), t);
      FreshIsConverted(g, p, t);
      InsertMembers(converted, GroupEnd(m, converted), more, Fresh(g, p, t));
    }
  }

  lemma {:induction false} UserdataIn(g: Gsi, slot: string, es: seq<Entry>, e: Entry)
    requires e in es
    ensures ConvertUserdata(g, slot, e) in UserdataAll(g, slot, es)
    decreases |es|
  {
    hide ConvertUserdata;
    assert es == es[..|es| - 1] + [es[|es| - 1]];
    if e in es[..|es| - 1] {
      UserdataIn(g, slot, es[..|es| - 1], e);
    }
  }

  lemma StepIn(g: Gsi, slot: string, es: seq<Entry>, p: string, e: Entry)
    requires e in es
    ensures Entrywise(g, slot, p, e) in Step(g, slot, es, p)
  {
    hide UserdataAll, ConvertAll, FreshAll, Lacking, GroupEnd, InsertAt, EndsWith, MountPoint, Convert, ConvertUserdata;
    if IsUserdata(g, p) {
      UserdataIn(g, slot, es, e);
    } else if IsReadOnly(g, p) {
      var m, converted := MountPoint(g, p), ConvertAll(g, p, es);
      ConvertedIn(g, p, es, e);
      InsertMembers(converted, GroupEnd(m, converted), FreshAll(g, p, Lacking(m, es)), Convert(g, p, e));
    }
  }

  /** Where an entry of the fstab after a step comes from. */
  lemma StepFrom(g: Gsi, slot: string, es: seq<Entry>, p: string, e: Entry) returns (from: Entry, t: string)
    requires e in Step(g, slot, es, p)
    ensures || (from in es && e == Entrywise(g, slot, p, from))
            || (IsReadOnly(g, p) && t in Lacking(MountPoint(g, p), es) && from == e == Fresh(g, p, t))
  {
    hide UserdataAll, ConvertAll, FreshAll, Lacking, GroupEnd, InsertAt, EndsWith, MountPoint, Convert, ConvertUserdata,
         Fresh;
    from, t := e, "";
    if IsUserdata(g, p) {
      from := UserdataMembers(g, slot, es, e);
    } else if IsReadOnly(g, p) {
      var m, converted := MountPoint(g, p), ConvertAll(g, p, es);
      InsertMembers(converted, GroupEnd(m, converted), FreshAll(g, p, Lacking(m, es)), e);
      if e in converted {
        from := ConvertMembers(g, p, es, e);
      } else {
        t := FreshMembers(g, p, Lacking(m, es), e);
      }
    }
  }

  lemma {:induction false} TransformIn(g: Gsi, slot: string, es: seq<Entry>, ps: seq<string>, i: nat, e: Entry)
    requires i <= |ps| && e in Transform(g, slot, es, ps[..i])
    ensures Through(g, slot, ps[i..], e) in Transform(g, slot, es, ps)
    decreases |ps|
  {
    hide Step, Entrywise;
    if i == |ps| {
      assert ps[..i] == ps;
    } else {
      var init := ps[..|ps| - 1];
      assert init[..i] == ps[..i] && ps[i..][..|ps[i..]| - 1] == init[i..];
      TransformIn(g, slot, es, init, i, e);
      StepIn(g, slot, Transform(g, slot, es, init), ps[|ps| - 1], Through(g, slot, init[i..], e));
    }
  }

  /** An entry that the step before position i put in. */
  predicate PutIn(g: Gsi, slot: string, es: seq<Entry>, ps: seq<string>, i: nat, e: Entry) {
    && 0 < i <= |ps| && IsReadOnly(g, ps[i - 1])
    && e.fsType in Lacking(MountPoint(g, ps[i - 1]), Transform(g, slot, es, ps[..i - 1]))
    && e == Fresh(g, ps[i - 1], e.fsType)
  }

  lemma {:induction false} TransformFrom(g: Gsi, slot: string, es: seq<Entry>, ps: seq<string>, e: Entry)
    returns (i: nat, from: Entry)
    requires e in Transform(g, slot, es, ps)
    ensures i <= |ps| && e == Through(g, slot, ps[i..], from)
    ensures (i == 0 && from in es) || PutIn(g, slot, es, ps, i, from)
    decreases |ps|
  {
    hide Step, Entrywise, Fresh, MountPoint, EndsWith;
    if ps == [] {
      return 0, e;
    }
    var init, last := ps[..|ps| - 1], ps[|ps| - 1];
    var x, t := StepFrom(g, slot, Transform(g, slot, es, init), last, e);
    if x in Transform(g, slot, es, init) && e == Entrywise(g, slot, last, x) {
      i, from := TransformFrom(g, slot, es, init, x);
      assert ps[i..][..|ps[i..]| - 1] == init[i..];
      assert i > 0 ==> init[..i - 1] == ps[..i - 1] && init[i - 1] == ps[i - 1];
    } else {
      FreshType(g, last, t);
      i, from := |ps|, e;
    }
  }

  lemma FreshType(g: Gsi, p: string, t: string)
    requires EndsWith(p, g.postfix)
    ensures Fresh(g, p, t).fsType == t
  {
  }

  lemma TypesStay(g: Gsi, slot: string, es: seq<Entry>, p: string, m: string, t: string)
    requires HasType(m, es, t)
    ensures HasType(m, Step(g, slot, es, p), t)
  {
    hide Step, Entrywise;
    var e :| e in es && Matches(m, e) && e.fsType == t;
    StepIn(g, slot, es, p, e);
    EntrywiseFrame(g, slot, p, e);
  }

  /** After the transformation no read-only partition of the list lacks a file system. */
  lemma {:induction false} TransformHasType(g: Gsi, slot: string, es: seq<Entry>, ps: seq<string>, i: nat, t: string)
    requires i < |ps| && IsReadOnly(g, ps[i]) && t in FS_TYPES
    ensures HasType(MountPoint(g, ps[i]), Transform(g, slot, es, ps), t)
    decreases |ps|
  {
    hide MountPoint, HasType, ReadOnlyStep, UserdataAll, EndsWith;
    var init, last := ps[..|ps| - 1], ps[|ps| - 1];
    var before := Transform(g, slot, es, init);
    if i == |ps| - 1 {
      StepHasType(g, last, before, t);
    } else {
      TransformHasType(g, slot, es, init, i, t);
      TypesStay(g, slot, before, last, MountPoint(g, ps[i]), t);
    }
  }

  // ---------------------------------------------------------------------
  // A second pass
  // ---------------------------------------------------------------------

  predicate NoneLacks(g: Gsi, ps: seq<string>, es: seq<Entry>) {
    forall i, t | 0 <= i < |ps| && t in FS_TYPES && IsReadOnly(g, ps[i]) :: HasType(MountPoint(g, ps[i]), es, t)
  }

  function ThroughAll(g: Gsi, slot: string, ps: seq<string>, es: seq<Entry>): (r: seq<Entry>)
    ensures |r| == |es|
  {
    seq(|es|, i requires 0 <= i < |es| => Through(g, slot, ps, es[i]))
  }

  lemma NothingLacks(m: string, es: seq<Entry>)
    requires forall t | t in FS_TYPES :: HasType(m, es, t)
    ensures Lacking(m, es) == []
  {
    hide Lacking, HasType;
    if Lacking(m, es) != [] {
      LackingMeans(m, es, Lacking(m, es)[0]);
    }
  }

  lemma {:induction false} UserdataAt(g: Gsi, slot: string, es: seq<Entry>, i: nat)
    requires i < |es|
    ensures UserdataAll(g, slot, es)[i] == ConvertUserdata(g, slot, es[i])
    decreases |es|
  {
    hide ConvertUserdata;
    if i < |es| - 1 {
      UserdataAt(g, slot, es[..|es| - 1], i);
    }
  }

  lemma {:induction false} ConvertAt(g: Gsi, p: string, es: seq<Entry>, i: nat)
    requires i < |es| && EndsWith(p, g.postfix)
    ensures ConvertAll(g, p, es)[i] == Convert(g, p, es[i])
    decreases |es|
  {
    hide Convert, EndsWith;
    if i < |es| - 1 {
      ConvertAt(g, p, es[..|es| - 1], i);
    }
  }

  /** A step that puts nothing in works entry by entry. */
  lemma StepAt(g: Gsi, slot: string, es: seq<Entry>, p: string, i: nat)
    requires i < |es| && (IsReadOnly(g, p) ==> forall t | t in FS_TYPES :: HasType(MountPoint(g, p), es, t))
    ensures |Step(g, slot, es, p)| == |es| && Step(g, slot, es, p)[i] == Entrywise(g, slot, p, es[i])
  {
    hide UserdataAll, ConvertAll, FreshAll, Lacking, GroupEnd, InsertAt, EndsWith, MountPoint, Convert, ConvertUserdata,
         HasType;
    if IsUserdata(g, p) {
      UserdataAt(g, slot, es, i);
    } else if IsReadOnly(g, p) {
      NothingLacks(MountPoint(g, p), es);
      NothingToInsert(g, p, ConvertAll(g, p, es));
      ConvertAt(g, p, es, i);
    }
  }

  lemma StepLength(g: Gsi, slot: string, es: seq<Entry>, p: string)
    requires IsReadOnly(g, p) ==> forall t | t in FS_TYPES :: HasType(MountPoint(g, p), es, t)
    ensures |Step(g, slot, es, p)| == |es|
  {
    hide UserdataAll, ConvertAll, FreshAll, Lacking, GroupEnd, InsertAt, EndsWith, MountPoint, HasType;
    if IsReadOnly(g, p) {
      NothingLacks(MountPoint(g, p), es);
      NothingToInsert(g, p, ConvertAll(g, p, es));
    }
  }

  lemma {:induction false} SecondPass(g: Gsi, slot: string, ps: seq<string>, es: seq<Entry>)
    requires NoneLacks(g, ps, es)
    ensures Transform(g, slot, es, ps) == ThroughAll(g, slot, ps, es)
    decreases |ps|
  {
    if ps != [] {
      var init, p := ps[..|ps| - 1], ps[|ps| - 1];
      var before := Transform(g, slot, es, init);
      hide Step, Entrywise, HasType, MountPoint, IsReadOnly;
      assert NoneLacks(g, init, es);
      SecondPass(g, slot, init, es);
      if IsReadOnly(g, p) {
        forall t | t in FS_TYPES
          ensures HasType(MountPoint(g, p), before, t)
        {
          assert HasType(MountPoint(g, ps[|ps| - 1]), es, t);
          TypesStayAll(g, slot, es, init, MountPoint(g, p), t);
        }
      }
      StepLength(g, slot, before, p);
      forall i | 0 <= i < |es|
        ensures Transform(g, slot, es, ps)[i] == Through(g, slot, ps, es[i])
      {
        StepAt(g, slot, before, p, i);
      }
    }
  }

  lemma {:induction false} TypesStayAll(g: Gsi, slot: string, es: seq<Entry>, ps: seq<string>, m: string, t: string)
    requires HasType(m, es, t)
    ensures HasType(m, Transform(g, slot, es, ps), t)
    decreases |ps|
  {
    hide Step, HasType;
    if ps != [] {
      TypesStayAll(g, slot, es, ps[..|ps| - 1], m, t);
      TypesStay(g, slot, Transform(g, slot, es, ps[..|ps| - 1]), ps[|ps| - 1], m, t);
    }
  }

  predicate HasUserdata(g: Gsi, ps: seq<string>) {
    exists i | 0 <= i < |ps| :: IsUserdata(g, ps[i])
  }

  /** Partition i is the first read-only one about /data; it comes behind every userdata. */
  predicate DataBehindUserdata(g: Gsi, ps: seq<string>, i: nat)
    requires i < |ps|
  {
    && IsReadOnly(g, ps[i]) && MountPoint(g, ps[i]) == DATA && ps[i] !in ps[..i]
    && HasUserdata(g, ps[..i]) && !HasUserdata(g, ps[i + 1..])
  }

  /** Entries get put in at /data that the userdata step has passed by. */
  predicate LeavesUnmarked(g: Gsi, es: seq<Entry>, ps: seq<string>) {
    Lacking(DATA, es) != [] && exists i | 0 <= i < |ps| :: DataBehindUserdata(g, ps, i)
  }

  lemma {:induction false} LastDeviceSplit(g: Gsi, ps: seq<string>, i: nat, e: Entry)
    requires i <= |ps|
    ensures LastDevice(g, ps, e) == if SomeActs(g, ps[i..], e) then LastDevice(g, ps[i..], e)
                                    else LastDevice(g, ps[..i], e)
    decreases |ps|
  {
    hide Acts;
    if i == |ps| {
      assert ps[..i] == ps;
    } else {
      var init, suffix := ps[..|ps| - 1], ps[i..];
      assert suffix[..|suffix| - 1] == init[i..] && init[..i] == ps[..i];
      if Acts(g, ps[|ps| - 1], e) {
        assert Acts(g, suffix[|suffix| - 1], e);
      } else {
        LastDeviceSplit(g, init, i, e);
        if SomeActs(g, suffix, e) {
          var k :| 0 <= k < |suffix| && Acts(g, suffix[k], e);
          assert init[i..][k] == suffix[k];
        } else {
          assert forall k | 0 <= k < |init[i..]| :: init[i..][k] == suffix[k];
        }
      }
    }
  }

  lemma FreshAbsorbs(g: Gsi, slot: string, p: string, t: string)
    requires IsReadOnly(g, p)
    ensures Absorbs(g, slot, p, Fresh(g, p, t)) && Acts(g, p, Fresh(g, p, t)) && Fresh(g, p, t).blkDevice == p
  {
    hide EndsWith, MountPoint, LpName;
    FreshIsConverted(g, p, t);
  }

  /** An entry put in behind position i - 1 absorbs every step of a second pass. */
  lemma PutInAbsorbs(g: Gsi, slot: string, ps: seq<string>, i: nat, t: string, j: nat)
    requires 0 < i <= |ps| && IsReadOnly(g, ps[i - 1]) && j < |ps|
    requires MountPoint(g, ps[i - 1]) == DATA && HasUserdata(g, ps[..i - 1]) ==> HasUserdata(g, ps[i..])
    ensures Absorbs(g, slot, ps[j], Through(g, slot, ps[i..], Fresh(g, ps[i - 1], t)))
  {
    var q, p := ps[i - 1], ps[j];
    var x := Fresh(g, q, t);
    var e := Through(g, slot, ps[i..], x);
    FreshAbsorbs(g, slot, q, t);
    ThroughFrame(g, slot, ps[i..], x);
    hide Through, EndsWith, MountPoint;
    if j >= i {
      ThroughAbsorbs(g, slot, ps[i..], x, j - i);
    } else if p == q {
      ThroughKeepsAbsorbing(g, slot, q, ps[i..], x);
    } else if IsReadOnly(g, p) && MountPoint(g, p) == MountPoint(g, q) {
      TargetIsUnique(g, p, q);
    } else if IsUserdata(g, p) && e.mountPoint == DATA {
      assert ps[..i - 1][j] == p;
      var k :| 0 <= k < |ps[i..]| && IsUserdata(g, ps[i..][k]);
      ThroughAbsorbs(g, slot, ps[i..], x, k);
    } else {
      hide Fresh;
      NotActing(g, slot, p, e);
    }
  }

  lemma NotActing(g: Gsi, slot: string, p: string, e: Entry)
    requires !Acts(g, p, e)
    ensures Absorbs(g, slot, p, e)
  {
    hide EndsWith, MountPoint, LpName;
  }

  lemma PutInDevice(g: Gsi, slot: string, ps: seq<string>, i: nat, t: string)
    requires 0 < i <= |ps| && IsReadOnly(g, ps[i - 1])
    ensures var e := Through(g, slot, ps[i..], Fresh(g, ps[i - 1], t)); LastDevice(g, ps, e) == e.blkDevice
  {
    var q := ps[i - 1];
    var x := Fresh(g, q, t);
    var e := Through(g, slot, ps[i..], x);
    FreshAbsorbs(g, slot, q, t);
    ThroughFrame(g, slot, ps[i..], x);
    LastDeviceSplit(g, ps, i, e);
    hide Through, Acts, Fresh, Absorbs;
    ActsAlike(g, q, x, e);
    if SomeActs(g, ps[i..], e) {
      LastDeviceAlike(g, ps[i..], e, x);
    } else {
      SomeActsAlike(g, ps[i..], x, e);
      NoneActs(g, ps[i..], x);
      assert ps[..i][|ps[..i]| - 1] == q;
    }
  }

  lemma SomeActsAlike(g: Gsi, ps: seq<string>, e: Entry, f: Entry)
    requires e.mountPoint == f.mountPoint && (FirstStageMount in e.fsMgrFlags <==> FirstStageMount in f.fsMgrFlags)
    requires !SomeActs(g, ps, f)
    ensures !SomeActs(g, ps, e)
  {
    hide Acts;
    forall i | 0 <= i < |ps|
      ensures !Acts(g, ps[i], e)
    {
      ActsAlike(g, ps[i], e, f);
    }
  }

  lemma PutInIsFixed(g: Gsi, slot: string, ps: seq<string>, i: nat, t: string)
    requires 0 < i <= |ps| && IsReadOnly(g, ps[i - 1])
    requires MountPoint(g, ps[i - 1]) == DATA && HasUserdata(g, ps[..i - 1]) ==> HasUserdata(g, ps[i..])
    ensures var e := Through(g, slot, ps[i..], Fresh(g, ps[i - 1], t)); Through(g, slot, ps, e) == e
  {
    var e := Through(g, slot, ps[i..], Fresh(g, ps[i - 1], t));
    hide Through, Absorbs, Fresh, MountPoint, HasUserdata, EndsWith, LastDevice;
    forall j | 0 <= j < |ps|
      ensures Absorbs(g, slot, ps[j], e)
    {
      PutInAbsorbs(g, slot, ps, i, t, j);
    }
    AbsorbingGoesThrough(g, slot, ps, e);
    PutInDevice(g, slot, ps, i, t);
  }

  /** A file system that is put in was lacking from the start, and its partition is new. */
  lemma PutInIsFirst(g: Gsi, slot: string, es: seq<Entry>, ps: seq<string>, i: nat, t: string)
    requires 0 < i <= |ps| && IsReadOnly(g, ps[i - 1])
    requires t in Lacking(MountPoint(g, ps[i - 1]), Transform(g, slot, es, ps[..i - 1]))
    ensures ps[i - 1] !in ps[..i - 1] && t in Lacking(MountPoint(g, ps[i - 1]), es)
  {
    var before, qs, m := Transform(g, slot, es, ps[..i - 1]), ps[..i - 1], MountPoint(g, ps[i - 1]);
    hide MountPoint, EndsWith, Transform, Lacking, HasType;
    LackingMeans(m, before, t);
    LackingMeans(m, es, t);
    if HasType(m, es, t) {
      TypesStayAll(g, slot, es, qs, m, t);
    }
    if ps[i - 1] in qs {
      var k :| 0 <= k < |qs| && qs[k] == ps[i - 1];
      TransformHasType(g, slot, es, qs, k, t);
    }
  }

  lemma MemberIsFixed(g: Gsi, slot: string, es: seq<Entry>, ps: seq<string>, e: Entry)
    requires e in Transform(g, slot, es, ps) && !LeavesUnmarked(g, es, ps)
    ensures Through(g, slot, ps, e) == e
  {
    hide Transform, Through, MountPoint, EndsWith, HasUserdata, Lacking, Fresh;
    var i, x := TransformFrom(g, slot, es, ps, e);
    if i == 0 {
      assert ps[0..] == ps;
      ThroughTwice(g, slot, ps, x);
    } else {
      PutInIsFirst(g, slot, es, ps, i, x.fsType);
      if MountPoint(g, ps[i - 1]) == DATA && HasUserdata(g, ps[..i - 1]) {
        assert !DataBehindUserdata(g, ps, i - 1);
      }
      PutInIsFixed(g, slot, ps, i, x.fsType);
    }
  }

  lemma NoneLacksAfter(g: Gsi, slot: string, es: seq<Entry>, ps: seq<string>)
    ensures NoneLacks(g, ps, Transform(g, slot, es, ps))
  {
    hide Transform, MountPoint, EndsWith, HasType;
    forall i, t | 0 <= i < |ps| && t in FS_TYPES && IsReadOnly(g, ps[i])
      ensures HasType(MountPoint(g, ps[i]), Transform(g, slot, es, ps), t)
    {
      TransformHasType(g, slot, es, ps, i, t);
    }
  }

  lemma {:induction false} NotFormattable(g: Gsi, slot: string, ps: seq<string>, e: Entry)
    requires !HasUserdata(g, ps) && Formattable !in e.fsMgrFlags
    ensures Formattable !in Through(g, slot, ps, e).fsMgrFlags
    decreases |ps|
  {
    hide EndsWith, MountPoint, LpName;
    if ps != [] {
      assert forall i | 0 <= i < |ps| - 1 :: ps[..|ps| - 1][i] == ps[i];
      NotFormattable(g, slot, ps[..|ps| - 1], e);
    }
  }

  lemma MadeFormattable(g: Gsi, slot: string, ps: seq<string>, e: Entry)
    requires HasUserdata(g, ps) && e.mountPoint == DATA
    ensures Formattable in Through(g, slot, ps, e).fsMgrFlags
  {
    var r := Through(g, slot, ps, e);
    var i :| 0 <= i < |ps| && IsUserdata(g, ps[i]);
    hide Through, EndsWith, MountPoint;
    ThroughFrame(g, slot, ps, e);
    ThroughAbsorbs(g, slot, ps, e, i);
    assert r.fsMgrFlags + {Logical, Formattable} == r.fsMgrFlags;
    assert Formattable in r.fsMgrFlags + {Logical, Formattable};
  }

  /** Nothing about /data is added before its partition's turn. */
  lemma StillLacking(g: Gsi, slot: string, es: seq<Entry>, qs: seq<string>, q: string, t: string)
    requires IsReadOnly(g, q) && q !in qs && t in Lacking(MountPoint(g, q), es)
    ensures t in Lacking(MountPoint(g, q), Transform(g, slot, es, qs))
  {
    var m, r := MountPoint(g, q), Transform(g, slot, es, qs);
    hide Transform, Lacking, EndsWith, MountPoint, LpName, Through;
    LackingMeans(m, es, t);
    LackingMeans(m, r, t);
    if HasType(m, r, t) {
      var e :| e in r && Matches(m, e) && e.fsType == t;
      var i, x := TransformFrom(g, slot, es, qs, e);
      ThroughFrame(g, slot, qs[i..], x);
      if i > 0 {
        TargetIsUnique(g, qs[i - 1], q);
      }
    }
  }

  lemma UnmarkedIsChanged(g: Gsi, slot: string, es: seq<Entry>, ps: seq<string>, i: nat) returns (e: Entry)
    requires i < |ps| && DataBehindUserdata(g, ps, i) && Lacking(DATA, es) != []
    ensures e in Transform(g, slot, es, ps) && Through(g, slot, ps, e) != e
  {
    var q, t := ps[i], Lacking(DATA, es)[0];
    var x, before := Fresh(g, q, t), Transform(g, slot, es, ps[..i]);
    StillLacking(g, slot, es, ps[..i], q, t);
    assert x in Transform(g, slot, es, ps[..i + 1]) by {
      assert ps[..i + 1][..i] == ps[..i];
      hide Lacking, FreshAll, ConvertAll, GroupEnd, InsertAt, EndsWith, MountPoint, Fresh;
      FreshIn(g, q, Lacking(DATA, before), t);
      InsertMembers(ConvertAll(g, q, before), GroupEnd(DATA, ConvertAll(g, q, before)),
                    FreshAll(g, q, Lacking(DATA, before)), x);
    }
    hide Transform, Through, EndsWith, MountPoint, LpName, Lacking;
    e := Through(g, slot, ps[i + 1..], x);
    TransformIn(g, slot, es, ps, i + 1, x);
    NotFormattable(g, slot, ps[i + 1..], x);
    ThroughFrame(g, slot, ps[i + 1..], x);
    UserdataBefore(g, ps, i);
    MadeFormattable(g, slot, ps, e);
  }

  lemma UserdataBefore(g: Gsi, ps: seq<string>, i: nat)
    requires i <= |ps| && HasUserdata(g, ps[..i])
    ensures HasUserdata(g, ps)
  {
    hide IsUserdata;
    var k :| 0 <= k < i && IsUserdata(g, ps[..i][k]);
    assert ps[k] == ps[..i][k];
  }

  /**
   Transforming a transformed fstab changes nothing, unless a read-only partition
   about /data follows every userdata and has to put entries in: those are marked
   formattable only by the next pass.
   */
  lemma TransformIsIdempotent(g: Gsi, slot: string, es: seq<Entry>, ps: seq<string>)
    ensures (Transform(g, slot, Transform(g, slot, es, ps), ps) == Transform(g, slot, es, ps)
        <==> !LeavesUnmarked(g, es, ps))
  {
    var r := Transform(g, slot, es, ps);
    NoneLacksAfter(g, slot, es, ps);
    SecondPass(g, slot, ps, r);
    if LeavesUnmarked(g, es, ps) {
      var i :| 0 <= i < |ps| && DataBehindUserdata(g, ps, i);
      var e := UnmarkedIsChanged(g, slot, es, ps, i);
      hide Transform, Through, LeavesUnmarked, DataBehindUserdata, NoneLacks;
      var k :| 0 <= k < |r| && r[k] == e;
      assert ThroughAll(g, slot, ps, r)[k] != r[k];
    } else {
      hide Transform, Through, LeavesUnmarked, NoneLacks;
      forall k | 0 <= k < |r|
        ensures Through(g, slot, ps, r[k]) == r[k]
      {
        MemberIsFixed(g, slot, es, ps, r[k]);
      }
    }
  }

  /** The smallest list for which a second pass is not harmless. */
  lemma NotIdempotent(g: Gsi, slot: string, p: string)
    requires IsUserdata(g, g.userdata) && IsReadOnly(g, p) && MountPoint(g, p) == DATA
    ensures var once := Transform(g, slot, [], [g.userdata, p]);
            Transform(g, slot, once, [g.userdata, p]) != once
  {
    var ps := [g.userdata, p];
    hide Transform, MountPoint, EndsWith;
    assert ps[..1] == [g.userdata] && ps[2..] == [];
    assert HasUserdata(g, ps[..1]) by {
      assert IsUserdata(g, ps[..1][0]);
    }
    assert DataBehindUserdata(g, ps, 1);
    TransformIsIdempotent(g, slot, [], ps);
  }

  /** In particular when no read-only partition is about /data. */
  lemma IdempotentApartFromData(g: Gsi, slot: string, es: seq<Entry>, ps: seq<string>)
    requires ApartFromData(g, ps)
    ensures Transform(g, slot, Transform(g, slot, es, ps), ps) == Transform(g, slot, es, ps)
  {
    hide Transform, HasUserdata, Lacking, MountPoint, EndsWith;
    TransformIsIdempotent(g, slot, es, ps);
  }

  predicate ApartFromData(g: Gsi, ps: seq<string>) {
    forall i | 0 <= i < |ps| :: IsReadOnly(g, ps[i]) ==> MountPoint(g, ps[i]) != DATA
  }

  /** An entry through which first-stage init mounts partition p with file system t. */
  predicate Serves(g: Gsi, p: string, t: string, e: Entry)
    requires EndsWith(p, g.postfix)
  {
    && e.blkDevice == p && e.mountPoint == MountPoint(g, p) && e.fsType == t && e.avbKeys == KEYS_DIR
    && e.logicalPartitionName == LpName(g, p) && {Logical, FirstStageMount} <= e.fsMgrFlags
    && SlotSelect !in e.fsMgrFlags && SlotSelectOther !in e.fsMgrFlags
  }

  lemma {:induction false} OnlyActor(g: Gsi, ps: seq<string>, i: nat, e: Entry)
    requires i < |ps| && IsReadOnly(g, ps[i]) && Matches(MountPoint(g, ps[i]), e) && e.mountPoint != DATA
    ensures LastDevice(g, ps, e) == ps[i]
    decreases |ps|
  {
    hide EndsWith, MountPoint;
    var last := ps[|ps| - 1];
    if Acts(g, last, e) {
      TargetIsUnique(g, last, ps[i]);
    } else {
      OnlyActor(g, ps[..|ps| - 1], i, e);
    }
  }

  /** Every read-only partition of the list ends with an ext4 and an erofs entry of its own. */
  lemma BothTypesServed(g: Gsi, slot: string, es: seq<Entry>, ps: seq<string>, i: nat, t: string)
    requires ApartFromData(g, ps) && i < |ps| && IsReadOnly(g, ps[i]) && t in FS_TYPES
    ensures exists e | e in Transform(g, slot, es, ps) :: Serves(g, ps[i], t, e)
  {
    var r, p := Transform(g, slot, es, ps), ps[i];
    assert !LeavesUnmarked(g, es, ps);
    hide Transform, Through, ApartFromData, EndsWith, MountPoint, LpName, LeavesUnmarked, LastDevice;
    assert MountPoint(g, p) != DATA by {
      ApartAt(g, ps, i);
    }
    TransformHasType(g, slot, es, ps, i, t);
    var e :| e in r && Matches(MountPoint(g, p), e) && e.fsType == t;
    MemberIsFixed(g, slot, es, ps, e);
    ThroughFrame(g, slot, ps, e);
    ThroughAbsorbs(g, slot, ps, e, i);
    OnlyActor(g, ps, i, e);
    assert Convert(g, p, e) == e;
    assert Serves(g, p, t, e);
  }

  lemma ApartAt(g: Gsi, ps: seq<string>, i: nat)
    requires ApartFromData(g, ps) && i < |ps| && IsReadOnly(g, ps[i])
    ensures MountPoint(g, ps[i]) != DATA
  {
  }

  // ---------------------------------------------------------------------
  // Mount points stay together
  // ---------------------------------------------------------------------

  function MountPoints(es: seq<Entry>): (ms: seq<string>)
    ensures |ms| == |es|
  {
    seq(|es|, i requires 0 <= i < |es| => es[i].mountPoint)
  }

  /** Equal mount points are next to each other. */
  predicate Contiguous(ms: seq<string>) {
    forall i, j, k | 0 <= i <= j <= k < |ms| && ms[i] == ms[k] :: ms[j] == ms[i]
  }

  lemma DoubleKeeps(ms: seq<string>, k: nat)
    requires Contiguous(ms) && 0 < k <= |ms|
    ensures Contiguous(ms[..k] + [ms[k - 1]] + ms[k..])
  {
    var r := ms[..k] + [ms[k - 1]] + ms[k..];
    assert forall i | 0 <= i < |r| :: r[i] == ms[if i < k then i else i - 1];
  }

  lemma AppendKeeps(ms: seq<string>, m: string)
    requires Contiguous(ms) && m !in ms
    ensures Contiguous(ms + [m])
  {
  }

  /** n copies of m put in at position k. */
  function WithCopies(ms: seq<string>, k: nat, m: string, n: nat): seq<string>
    requires k <= |ms|
    decreases n
  {
    if n == 0 then ms else WithCopies(ms[..k] + [m] + ms[k..], k + 1, m, n - 1)
  }

  lemma {:induction false} CopiesKeep(ms: seq<string>, k: nat, m: string, n: nat)
    requires Contiguous(ms) && k <= |ms|
    requires (0 < k && ms[k - 1] == m) || (k == |ms| && m !in ms)
    ensures Contiguous(WithCopies(ms, k, m, n))
    decreases n
  {
    if n > 0 {
      var next := ms[..k] + [m] + ms[k..];
      if 0 < k && ms[k - 1] == m {
        DoubleKeeps(ms, k);
      } else {
        AppendKeeps(ms, m);
        assert next == ms + [m];
      }
      hide Contiguous;
      CopiesKeep(next, k + 1, m, n - 1);
    }
  }

  lemma {:induction false} CopiesAre(ms: seq<string>, k: nat, m: string, n: nat)
    requires k <= |ms|
    ensures WithCopies(ms, k, m, n) == ms[..k] + seq(n, i => m) + ms[k..]
    decreases n
  {
    if n == 0 {
      assert ms[..k] + seq(n, i => m) + ms[k..] == ms;
    } else {
      var next := ms[..k] + [m] + ms[k..];
      CopiesAre(next, k + 1, m, n - 1);
      assert next[..k + 1] == ms[..k] + [m] && next[k + 1..] == ms[k..];
      assert [m] + seq(n - 1, i => m) == seq(n, i => m);
      assert ms[..k] + [m] + seq(n - 1, i => m) == ms[..k] + ([m] + seq(n - 1, i => m));
    }
  }

  lemma {:induction false} SamePoints(g: Gsi, slot: string, p: string, es: seq<Entry>)
    ensures MountPoints(UserdataAll(g, slot, es)) == MountPoints(es)
    ensures EndsWith(p, g.postfix) ==> MountPoints(ConvertAll(g, p, es)) == MountPoints(es)
    decreases |es|
  {
    if es != [] {
      var init, last := es[..|es| - 1], es[|es| - 1];
      SamePoints(g, slot, p, init);
      hide EndsWith, MountPoint, LpName;
      assert MountPoints(es) == MountPoints(init) + [last.mountPoint];
      PointsSnoc(UserdataAll(g, slot, init), ConvertUserdata(g, slot, last));
      if EndsWith(p, g.postfix) {
        PointsSnoc(ConvertAll(g, p, init), Convert(g, p, last));
      }
    }
  }

  lemma PointsSnoc(es: seq<Entry>, e: Entry)
    ensures MountPoints(es + [e]) == MountPoints(es) + [e.mountPoint]
  {
  }

  lemma {:induction false} FreshPoints(g: Gsi, p: string, types: seq<string>)
    requires EndsWith(p, g.postfix)
    ensures MountPoints(FreshAll(g, p, types)) == seq(|types|, i => MountPoint(g, p))
    decreases |types|
  {
    hide EndsWith, MountPoint, LpName;
    if types != [] {
      var init := types[..|types| - 1];
      FreshPoints(g, p, init);
      PointsSnoc(FreshAll(g, p, init), Fresh(g, p, types[|types| - 1]));
    }
  }

  lemma InsertPoints(es: seq<Entry>, k: nat, more: seq<Entry>)
    requires k <= |es|
    ensures MountPoints(InsertAt(es, k, more)) == MountPoints(es)[..k] + MountPoints(more) + MountPoints(es)[k..]
  {
  }

  /** The mount points after the step for a read-only partition. */
  lemma ReadOnlyPoints(g: Gsi, p: string, es: seq<Entry>)
    requires EndsWith(p, g.postfix)
    ensures (MountPoints(ReadOnlyStep(g, p, es))
          == WithCopies(MountPoints(es), GroupEnd(MountPoint(g, p), ConvertAll(g, p, es)), MountPoint(g, p),
                        |Lacking(MountPoint(g, p), es)|))
  {
    hide EndsWith, MountPoint, MountPoints, InsertAt, ConvertAll, GroupEnd, Lacking, FreshAll, WithCopies;
    var m, converted := MountPoint(g, p), ConvertAll(g, p, es);
    var k, types := GroupEnd(m, converted), Lacking(m, es);
    SamePoints(g, "", p, es);
    FreshPoints(g, p, types);
    InsertPoints(converted, k, FreshAll(g, p, types));
    CopiesAre(MountPoints(es), k, m, |types|);
  }

  predicate AnyMatch(m: string, es: seq<Entry>) {
    exists e | e in es :: Matches(m, e)
  }

  lemma GroupEndMeans(m: string, es: seq<Entry>)
    ensures var k := GroupEnd(m, es);
            if AnyMatch(m, es) then 0 < k && Matches(m, es[k - 1]) else k == |es|
  {
    var first := FindMatch(m, es, 0, true);
    hide FindMatch, Matches;
    if first < |es| {
      assert es[first] in es;
    }
  }

  lemma {:induction false} NoMatchLacksAll(m: string, es: seq<Entry>)
    requires !AnyMatch(m, es)
    ensures Lacking(m, es) == FS_TYPES
    decreases |es|
  {
    hide Matches;
    if es != [] {
      assert es[|es| - 1] in es;
      assert forall e | e in es[..|es| - 1] :: e in es;
      NoMatchLacksAll(m, es[..|es| - 1]);
    }
  }

  lemma SameMatches(g: Gsi, p: string, m: string, es: seq<Entry>)
    requires EndsWith(p, g.postfix)
    ensures AnyMatch(m, ConvertAll(g, p, es)) <==> AnyMatch(m, es)
  {
    hide EndsWith, ConvertAll, Convert, Matches;
    if AnyMatch(m, es) {
      var e :| e in es && Matches(m, e);
      ConvertedIn(g, p, es, e);
      ConvertMatches(g, p, m, e);
    }
    if AnyMatch(m, ConvertAll(g, p, es)) {
      var e :| e in ConvertAll(g, p, es) && Matches(m, e);
      var from := ConvertMembers(g, p, es, e);
      ConvertMatches(g, p, m, from);
    }
  }

  /**
   The mount point has entries, none of them mounted early, and the fstab ends with
   another one: entries put at the end are away from them.
   */
  predicate Scatters(m: string, es: seq<Entry>) {
    !AnyMatch(m, es) && m in MountPoints(es) && es[|es| - 1].mountPoint != m
  }

  lemma TwoAtTheEnd(ms: seq<string>, m: string)
    requires ms != [] && m in ms && ms[|ms| - 1] != m
    ensures !Contiguous(WithCopies(ms, |ms|, m, 2))
  {
    CopiesAre(ms, |ms|, m, 2);
    var r := ms[..|ms|] + seq(2, i => m) + ms[|ms|..];
    hide WithCopies;
    var i :| 0 <= i < |ms| && ms[i] == m;
    assert r[i] == m && r[|ms| - 1] == ms[|ms| - 1] && r[|ms|] == m;
  }

  /** A read-only step keeps mount points together exactly when it does not scatter. */
  lemma ReadOnlyKeepsTogether(g: Gsi, p: string, es: seq<Entry>)
    requires IsReadOnly(g, p) && Contiguous(MountPoints(es))
    ensures Contiguous(MountPoints(ReadOnlyStep(g, p, es))) <==> !Scatters(MountPoint(g, p), es)
  {
    var m, converted := MountPoint(g, p), ConvertAll(g, p, es);
    var k, n := GroupEnd(m, converted), |Lacking(m, es)|;
    ReadOnlyPoints(g, p, es);
    SameMatches(g, p, m, es);
    GroupEndMeans(m, converted);
    SamePoints(g, "", p, es);
    if !AnyMatch(m, es) {
      NoMatchLacksAll(m, es);
    }
    LastOfGroup(m, converted, es);
    hide EndsWith, MountPoint, ReadOnlyStep, ConvertAll, GroupEnd, Lacking, Contiguous, WithCopies, Matches, AnyMatch,
         MountPoints;
    if Scatters(m, es) {
      LastPoint(es);
      TwoAtTheEnd(MountPoints(es), m);
    } else {
      CopiesKeep(MountPoints(es), k, m, n);
    }
  }

  lemma LastPoint(es: seq<Entry>)
    ensures es != [] ==> MountPoints(es)[|es| - 1] == es[|es| - 1].mountPoint
  {
  }

  lemma LastOfGroup(m: string, converted: seq<Entry>, es: seq<Entry>)
    requires |converted| == |es| && MountPoints(converted) == MountPoints(es)
    ensures var k := GroupEnd(m, converted);
            && (AnyMatch(m, converted) ==> 0 < k && MountPoints(es)[k - 1] == m)
            && (!AnyMatch(m, converted) ==> k == |es|)
            && (m in MountPoints(es) && es[|es| - 1].mountPoint == m ==> MountPoints(es)[|es| - 1] == m)
  {
    GroupEndMeans(m, converted);
    hide GroupEnd, AnyMatch;
    var k := GroupEnd(m, converted);
    assert 0 < k ==> MountPoints(converted)[k - 1] == converted[k - 1].mountPoint;
  }

  /** Taking the copies out again keeps mount points together. */
  lemma CopiesContain(ms: seq<string>, k: nat, m: string, n: nat)
    requires k <= |ms| && Contiguous(WithCopies(ms, k, m, n))
    ensures Contiguous(ms)
  {
    CopiesAre(ms, k, m, n);
    var r := ms[..k] + seq(n, i => m) + ms[k..];
    hide WithCopies;
    assert forall i | 0 <= i < |ms| :: ms[i] == r[if i < k then i else i + n];
  }

  lemma StepNeverMends(g: Gsi, slot: string, es: seq<Entry>, p: string)
    requires Contiguous(MountPoints(Step(g, slot, es, p)))
    ensures Contiguous(MountPoints(es))
  {
    hide Contiguous, MountPoints, EndsWith, MountPoint, ReadOnlyStep, UserdataAll;
    hide WithCopies, ConvertAll, GroupEnd, Lacking;
    SamePoints(g, slot, p, es);
    if IsReadOnly(g, p) {
      var m := MountPoint(g, p);
      ReadOnlyPoints(g, p, es);
      CopiesContain(MountPoints(es), GroupEnd(m, ConvertAll(g, p, es)), m, |Lacking(m, es)|);
    }
  }

  /** Some partition of the list has to append away from late-mounted entries of its mount point. */
  predicate ScattersIn(g: Gsi, slot: string, es: seq<Entry>, ps: seq<string>) {
    exists i | 0 <= i < |ps| ::
      IsReadOnly(g, ps[i]) && Scatters(MountPoint(g, ps[i]), Transform(g, slot, es, ps[..i]))
  }

  lemma ScattersMore(g: Gsi, slot: string, es: seq<Entry>, ps: seq<string>)
    requires ps != []
    ensures var init, p := ps[..|ps| - 1], ps[|ps| - 1];
            (ScattersIn(g, slot, es, ps)
        <==> ScattersIn(g, slot, es, init)
             || (IsReadOnly(g, p) && Scatters(MountPoint(g, p), Transform(g, slot, es, init))))
  {
    var init := ps[..|ps| - 1];
    hide Scatters, Transform, MountPoint, EndsWith;
    assert forall i | 0 <= i < |init| :: init[i] == ps[i] && init[..i] == ps[..i];
  }

  /** Over a whole list, equal mount points stay together exactly when no partition scatters them. */
  lemma {:induction false} TransformKeepsTogetherExactly(g: Gsi, slot: string, es: seq<Entry>, ps: seq<string>)
    requires Contiguous(MountPoints(es))
    ensures Contiguous(MountPoints(Transform(g, slot, es, ps))) <==> !ScattersIn(g, slot, es, ps)
    decreases |ps|
  {
    if ps != [] {
      var p, before := ps[|ps| - 1], Transform(g, slot, es, ps[..|ps| - 1]);
      hide Contiguous, MountPoints, EndsWith, MountPoint, ReadOnlyStep, UserdataAll, Scatters, ScattersIn;
      TransformKeepsTogetherExactly(g, slot, es, ps[..|ps| - 1]);
      ScattersMore(g, slot, es, ps);
      SamePoints(g, slot, p, before);
      if Contiguous(MountPoints(before)) {
        if IsReadOnly(g, p) {
          ReadOnlyKeepsTogether(g, p, before);
        }
      } else if Contiguous(MountPoints(Step(g, slot, before, p))) {
        StepNeverMends(g, slot, before, p);
      }
    }
  }

  // ---------------------------------------------------------------------
  // First-stage fstabs
  // ---------------------------------------------------------------------

  predicate AllFirstStage(es: seq<Entry>) {
    forall e | e in es :: FirstStageMount in e.fsMgrFlags
  }

  lemma FirstStageDoesNotScatter(m: string, es: seq<Entry>)
    requires AllFirstStage(es)
    ensures !Scatters(m, es)
  {
    if m in MountPoints(es) {
      var i :| 0 <= i < |es| && MountPoints(es)[i] == m;
      assert es[i] in es && Matches(m, es[i]);
    }
  }

  lemma StepKeepsFirstStage(g: Gsi, slot: string, es: seq<Entry>, p: string)
    requires AllFirstStage(es)
    ensures AllFirstStage(Step(g, slot, es, p))
  {
    forall e | e in Step(g, slot, es, p)
      ensures FirstStageMount in e.fsMgrFlags
    {
      hide EndsWith, MountPoint, LpName, UserdataAll, ConvertAll, FreshAll, Lacking, GroupEnd, InsertAt, AllFirstStage;
      if IsUserdata(g, p) {
        var from := UserdataMembers(g, slot, es, e);
        FirstStageAt(es, from);
      } else if IsReadOnly(g, p) {
        var converted, types := ConvertAll(g, p, es), Lacking(MountPoint(g, p), es);
        InsertMembers(converted, GroupEnd(MountPoint(g, p), converted), FreshAll(g, p, types), e);
        if e in converted {
          var from := ConvertMembers(g, p, es, e);
          FirstStageAt(es, from);
        } else {
          var t := FreshMembers(g, p, types, e);
        }
      } else {
        FirstStageAt(es, e);
      }
    }
  }

  lemma FirstStageAt(es: seq<Entry>, e: Entry)
    requires AllFirstStage(es) && e in es
    ensures FirstStageMount in e.fsMgrFlags
  {
  }

  /** The transformation of a first-stage fstab keeps equal mount points together. */
  lemma {:induction false} TransformKeepsTogether(g: Gsi, slot: string, es: seq<Entry>, ps: seq<string>)
    requires AllFirstStage(es) && Contiguous(MountPoints(es))
    ensures AllFirstStage(Transform(g, slot, es, ps))
    ensures Contiguous(MountPoints(Transform(g, slot, es, ps)))
    decreases |ps|
  {
    if ps != [] {
      var p, before := ps[|ps| - 1], Transform(g, slot, es, ps[..|ps| - 1]);
      hide AllFirstStage, Contiguous, MountPoints, EndsWith, ReadOnlyStep, UserdataAll, Scatters;
      TransformKeepsTogether(g, slot, es, ps[..|ps| - 1]);
      StepKeepsFirstStage(g, slot, before, p);
      SamePoints(g, slot, p, before);
      if IsReadOnly(g, p) {
        FirstStageDoesNotScatter(MountPoint(g, p), before);
        ReadOnlyKeepsTogether(g, p, before);
      }
    }
  }
}
