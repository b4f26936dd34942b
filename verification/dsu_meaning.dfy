/** What the entries of a transformed fstab say, member by member. */
module DsuMeaning {
  import opened Wrappers
  import opened FstabTypes
  import opened Text
  import opened Dsu

  /** The partition is a read-only one about the mount point of this early-mounted entry. */
  predicate Replaces(g: Gsi, p: string, e: Entry) {
    && EndsWith(p, g.postfix) && p != g.scratch && p != g.userdata
    && FirstStageMount in e.fsMgrFlags && e.mountPoint == "/" + p[..|p| - |g.postfix|]
  }

  /** The partition is the userdata one and this entry is mounted at /data. */
  predicate Houses(g: Gsi, p: string, e: Entry) {
    EndsWith(p, g.postfix) && p != g.scratch && p == g.userdata && e.mountPoint == "/data"
  }

  ghost predicate Replaced(g: Gsi, ps: seq<string>, e: Entry) {
    exists i | 0 <= i < |ps| :: Replaces(g, ps[i], e)
  }

  ghost predicate Housed(g: Gsi, ps: seq<string>, e: Entry) {
    exists i | 0 <= i < |ps| :: Houses(g, ps[i], e)
  }

  /** The last partition of the list about the entry, or the device it had. */
  function DeviceOf(g: Gsi, ps: seq<string>, e: Entry): string {
    if ps == [] then e.blkDevice
    else
      var p := ps[|ps| - 1];
      if Replaces(g, p, e) || Houses(g, p, e) then p else DeviceOf(g, ps[..|ps| - 1], e)
  }

  function BitOf(bit: FsMgrFlag, before: bool, replaced: bool, housed: bool): bool {
    match bit
    case Logical => before || replaced || housed
    case Formattable => before || housed
    case SlotSelect => before && !replaced
    case SlotSelectOther => before && !replaced
    case _ => before
  }

  /** Everything but what the transformation is about is as it was. */
  predicate SameOtherwise(e: Entry, r: Entry) {
    r == e.(blkDevice := r.blkDevice, avbKeys := r.avbKeys, logicalPartitionName := r.logicalPartitionName,
            metadataKeyDir := r.metadataKeyDir, fsMgrFlags := r.fsMgrFlags)
  }

  /** What becomes of an entry, given whether some partition replaces it and whether it is housed. */
  ghost predicate Becomes(g: Gsi, slot: string, e: Entry, device: string, replaced: bool, housed: bool, r: Entry) {
    && SameOtherwise(e, r) && r.blkDevice == device
    && r.avbKeys == (if replaced then "/avb" else e.avbKeys)
    && r.logicalPartitionName == (if replaced && e.mountPoint != "" then e.mountPoint[1..] else e.logicalPartitionName)
    && r.metadataKeyDir == (if housed && e.metadataKeyDir != "" then g.metadataKeyDir(slot) else e.metadataKeyDir)
    && forall bit :: bit in r.fsMgrFlags <==> BitOf(bit, bit in e.fsMgrFlags, replaced, housed)
  }

  lemma ActsIs(g: Gsi, p: string, e: Entry)
    ensures Replaces(g, p, e) <==> IsReadOnly(g, p) && Matches(MountPoint(g, p), e)
    ensures Houses(g, p, e) <==> IsUserdata(g, p) && e.mountPoint == DATA
  {
    hide EndsWith;
  }

  lemma BitsOfSame(g: Gsi, slot: string, e: Entry)
    ensures Becomes(g, slot, e, e.blkDevice, false, false, e)
  {
  }

  lemma ReplacedNow(g: Gsi, slot: string, p: string, e: Entry, device: string, replaced: bool, housed: bool, r: Entry)
    requires Becomes(g, slot, e, device, replaced, housed, r) && Replaces(g, p, e)
    ensures IsReadOnly(g, p) && Becomes(g, slot, e, p, true, housed, Convert(g, p, r))
  {
    hide EndsWith;
    assert BitOf(FirstStageMount, FirstStageMount in e.fsMgrFlags, replaced, housed);
    assert Matches(MountPoint(g, p), r);
    assert e.mountPoint[1..] == LpName(g, p);
  }

  lemma HousedNow(g: Gsi, slot: string, p: string, e: Entry, device: string, replaced: bool, housed: bool, r: Entry)
    requires Becomes(g, slot, e, device, replaced, housed, r) && Houses(g, p, e)
    ensures IsUserdata(g, p) && Becomes(g, slot, e, p, replaced, true, ConvertUserdata(g, slot, r))
  {
    hide EndsWith;
  }

  lemma LeftAlone(g: Gsi, slot: string, p: string, e: Entry, device: string, replaced: bool, housed: bool, r: Entry)
    requires Becomes(g, slot, e, device, replaced, housed, r) && !Replaces(g, p, e) && !Houses(g, p, e)
    ensures Entrywise(g, slot, p, r) == r
  {
    var early := FirstStageMount in e.fsMgrFlags;
    assert BitOf(FirstStageMount, early, replaced, housed) == early;
    hide EndsWith, MountPoint, LpName;
    ActsIs(g, p, e);
  }

  lemma NotBoth(g: Gsi, p: string, e: Entry)
    ensures !(Replaces(g, p, e) && Houses(g, p, e))
  {
    hide EndsWith;
  }

  lemma ListGrows(g: Gsi, ps: seq<string>, e: Entry)
    requires ps != []
    ensures Replaced(g, ps, e) <==> Replaced(g, ps[..|ps| - 1], e) || Replaces(g, ps[|ps| - 1], e)
    ensures Housed(g, ps, e) <==> Housed(g, ps[..|ps| - 1], e) || Houses(g, ps[|ps| - 1], e)
  {
    hide Replaces, Houses;
    var init := ps[..|ps| - 1];
    assert forall i | 0 <= i < |init| :: init[i] == ps[i];
    if Replaced(g, ps, e) {
      var i :| 0 <= i < |ps| && Replaces(g, ps[i], e);
      assert i < |init| ==> init[i] == ps[i];
    }
    if Housed(g, ps, e) {
      var i :| 0 <= i < |ps| && Houses(g, ps[i], e);
      assert i < |init| ==> init[i] == ps[i];
    }
  }

  /** What becomes of an entry that goes through all partitions. */
  lemma {:induction false} ThroughMeans(g: Gsi, slot: string, ps: seq<string>, e: Entry)
    ensures Becomes(g, slot, e, DeviceOf(g, ps, e), Replaced(g, ps, e), Housed(g, ps, e), Through(g, slot, ps, e))
    decreases |ps|
  {
    if ps == [] {
      BitsOfSame(g, slot, e);
    } else {
      var init, p := ps[..|ps| - 1], ps[|ps| - 1];
      var r, d := Through(g, slot, init, e), DeviceOf(g, init, e);
      var ro, ud := Replaced(g, init, e), Housed(g, init, e);
      hide Becomes, Replaced, Housed, Replaces, Houses, Convert, ConvertUserdata, EndsWith, MountPoint;
      ThroughMeans(g, slot, init, e);
      ListGrows(g, ps, e);
      NotBoth(g, p, e);
      if Replaces(g, p, e) {
        ReplacedNow(g, slot, p, e, d, ro, ud, r);
      } else if Houses(g, p, e) {
        HousedNow(g, slot, p, e, d, ro, ud, r);
      } else {
        LeftAlone(g, slot, p, e, d, ro, ud, r);
      }
    }
  }

  lemma BecomesOne(g: Gsi, slot: string, e: Entry, device: string, replaced: bool, housed: bool, r: Entry, r': Entry)
    requires Becomes(g, slot, e, device, replaced, housed, r) && Becomes(g, slot, e, device, replaced, housed, r')
    ensures r == r'
  {
    assert r.fsMgrFlags == r'.fsMgrFlags;
  }

  /** The entry is what going through the partitions makes of the other. */
  ghost predicate ComesFrom(g: Gsi, slot: string, ps: seq<string>, e: Entry, r: Entry) {
    Becomes(g, slot, e, DeviceOf(g, ps, e), Replaced(g, ps, e), Housed(g, ps, e), r)
  }

  lemma ComesFromIs(g: Gsi, slot: string, ps: seq<string>, e: Entry, r: Entry)
    ensures ComesFrom(g, slot, ps, e, r) <==> r == Through(g, slot, ps, e)
  {
    hide Becomes, Through, DeviceOf, Replaced, Housed;
    ThroughMeans(g, slot, ps, e);
    if ComesFrom(g, slot, ps, e, r) {
      BecomesOne(g, slot, e, DeviceOf(g, ps, e), Replaced(g, ps, e), Housed(g, ps, e), r, Through(g, slot, ps, e));
    }
  }

  /** The entry made for a partition and a file system the fstab lacks. */
  function Made(p: string, name: string, fsType: string): Entry {
    Entry(p, name, "/" + name, fsType, {ReadOnly}, "", "", {Wait, Logical, FirstStageMount},
          0, "", -1, -1, 0, 0, 0, -1, "", 0, 0, "", "/avb", "", "", "", "", 0, [], [])
  }

  lemma FreshIsMade(g: Gsi, p: string, t: string)
    requires EndsWith(p, g.postfix)
    ensures Fresh(g, p, t) == Made(p, p[..|p| - |g.postfix|], t)
  {
    hide EndsWith;
  }

  /** Partition i of the list finds no entry of the file system at its mount point, and makes one. */
  ghost predicate MadeAt(g: Gsi, slot: string, es: seq<Entry>, ps: seq<string>, i: nat, t: string, e: Entry): (b: bool)
    ensures b ==> i < |ps|
  {
    && i < |ps| && IsReadOnly(g, ps[i]) && (t == "ext4" || t == "erofs")
    && !HasType(MountPoint(g, ps[i]), Transform(g, slot, es, ps[..i]), t)
    && e == Made(ps[i], ps[i][..|ps[i]| - |g.postfix|], t)
  }

  lemma PutInIsMade(g: Gsi, slot: string, es: seq<Entry>, ps: seq<string>, i: nat, e: Entry)
    requires i < |ps|
    ensures PutIn(g, slot, es, ps, i + 1, e) <==> MadeAt(g, slot, es, ps, i, e.fsType, e)
  {
    assert i + 1 - 1 == i;
    if IsReadOnly(g, ps[i]) {
      LackingMeans(MountPoint(g, ps[i]), Transform(g, slot, es, ps[..i]), e.fsType);
      FreshIsMade(g, ps[i], e.fsType);
      hide Transform, Lacking, HasType, MountPoint, EndsWith, Fresh, Made;
    }
  }

  /**
   The transformed fstab holds exactly the entries it had, each as the partitions about
   it make it, and the entries made where a file system was lacking, each as the
   partitions behind make it.
   */
  lemma TransformMeans(g: Gsi, slot: string, es: seq<Entry>, ps: seq<string>, r: Entry)
    ensures (r in Transform(g, slot, es, ps)
        <==> || (exists e | e in es :: ComesFrom(g, slot, ps, e, r))
             || exists i: nat, e: Entry ::
                  MadeAt(g, slot, es, ps, i, e.fsType, e) && ComesFrom(g, slot, ps[i + 1..], e, r))
  {
    hide Transform, Through, ComesFrom, MadeAt, PutIn;
    if r in Transform(g, slot, es, ps) {
      var i, from := TransformFrom(g, slot, es, ps, r);
      ComesFromIs(g, slot, ps[i..], from, r);
      if i == 0 && from in es {
        assert ps[0..] == ps;
      } else {
        PutInHasPlace(g, slot, es, ps, i, from);
        PutInIsMade(g, slot, es, ps, i - 1, from);
        assert ps[i - 1 + 1..] == ps[i..];
      }
    }
    if e :| e in es && ComesFrom(g, slot, ps, e, r) {
      ComesFromIs(g, slot, ps, e, r);
      NothingYet(g, slot, es, ps);
      TransformIn(g, slot, es, ps, 0, e);
      assert ps[0..] == ps;
    }
    if i: nat, e: Entry :| MadeAt(g, slot, es, ps, i, e.fsType, e) && ComesFrom(g, slot, ps[i + 1..], e, r) {
      ComesFromIs(g, slot, ps[i + 1..], e, r);
      PutInIsMade(g, slot, es, ps, i, e);
      PutInIsThere(g, slot, es, ps, i, e);
      TransformIn(g, slot, es, ps, i + 1, e);
    }
  }

  lemma NothingYet(g: Gsi, slot: string, es: seq<Entry>, ps: seq<string>)
    ensures Transform(g, slot, es, ps[..0]) == es
  {
  }

  lemma PutInHasPlace(g: Gsi, slot: string, es: seq<Entry>, ps: seq<string>, i: nat, e: Entry)
    requires PutIn(g, slot, es, ps, i, e)
    ensures 0 < i <= |ps|
  {
  }

  lemma PutInIsThere(g: Gsi, slot: string, es: seq<Entry>, ps: seq<string>, i: nat, e: Entry)
    requires i < |ps| && PutIn(g, slot, es, ps, i + 1, e)
    ensures e in Transform(g, slot, es, ps[..i + 1])
  {
    var before, p := Transform(g, slot, es, ps[..i]), ps[i];
    assert i + 1 - 1 == i && ps[..i + 1][..i] == ps[..i];
    hide Lacking, GroupEnd, ConvertAll, FreshAll, MountPoint, EndsWith, Fresh;
    var m, converted := MountPoint(g, p), ConvertAll(g, p, before);
    FreshIn(g, p, Lacking(m, before), e.fsType);
    InsertMembers(converted, GroupEnd(m, converted), FreshAll(g, p, Lacking(m, before)), e);
  }
}
