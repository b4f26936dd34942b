/**
 What the scans of the pre-installed directories leave in the repository, told from the
 files alone, and the choice of what to activate after all scans
 (research/aosp-src/afr.cpp).
 */
module ApexScan {
  import opened Wrappers
  import opened ApexRepository

  predicate Bears(f: File, name: string) {
    f.apex.Some? && f.apex.value.name == name
  }

  /** A file of a name with a selection property that the scan looks at. */
  predicate Considered(env: Env, f: File, name: string, partition: Partition): (b: bool)
    ensures b ==> f.apex.Some?
  {
    && Bears(f, name) && env.select(name) != "" && f.baseName.Some?
    && (env.enforcePartition ==> partition == Vendor || partition == Odm)
  }

  /** The file is one the scan would store under the name. */
  predicate Takes(env: Env, f: File, name: string, partition: Partition): (b: bool)
    ensures b ==> f.apex.Some?
  {
    if env.select(name) == "" then Bears(f, name)
    else Considered(env, f, name, partition) && f.baseName.value == env.select(name)
  }

  /** Two files of a name with a selection property carry different keys. */
  ghost predicate Clash(env: Env, files: seq<File>, name: string, partition: Partition) {
    exists i, j | 0 <= i < j < |files| ::
      && Considered(env, files[i], name, partition) && Considered(env, files[j], name, partition)
      && files[i].apex.value.key != files[j].apex.value.key
  }

  /** The first file that is stored under the name. */
  function FirstTaken(env: Env, files: seq<File>, name: string, partition: Partition): (r: Option<Apex>)
    ensures r.None? <==> forall i | 0 <= i < |files| :: !Takes(env, files[i], name, partition)
    ensures r.Some? ==>
              exists i | 0 <= i < |files| ::
                && Takes(env, files[i], name, partition) && files[i].apex == r
                && forall j | 0 <= j < i :: !Takes(env, files[j], name, partition)
  {
    if files == [] then None
    else if Takes(env, files[0], name, partition) then files[0].apex
    else
      var r := FirstTaken(env, files[1..], name, partition);
      assert forall i | 0 < i < |files| :: files[i] == files[1..][i - 1];
      assert forall i | 0 <= i < |files[1..]| :: files[1..][i] == files[i + 1];
      r
  }

  lemma FirstTakenSnoc(env: Env, front: seq<File>, f: File, name: string, partition: Partition)
    ensures var r := FirstTaken(env, front, name, partition);
            FirstTaken(env, front + [f], name, partition)
            == if r.Some? then r else if Takes(env, f, name, partition) then f.apex else None
    decreases |front|
  {
    hide Takes;
    if front == [] {
      assert front + [f] == [f] && [f][1..] == [];
    } else {
      assert (front + [f])[1..] == front[1..] + [f];
      FirstTakenSnoc(env, front[1..], f, name, partition);
    }
  }

  /** The keys a scan has seen under a name. */
  function KeysSeen(env: Env, files: seq<File>, name: string, partition: Partition): set<string> {
    set i | 0 <= i < |files| && Considered(env, files[i], name, partition) :: files[i].apex.value.key
  }

  lemma KeysSeenSnoc(env: Env, front: seq<File>, f: File, name: string, partition: Partition)
    ensures (KeysSeen(env, front + [f], name, partition)
          == KeysSeen(env, front, name, partition)
             + if Considered(env, f, name, partition) then {f.apex.value.key} else {})
  {
    hide Considered;
    var files := front + [f];
    assert forall i | 0 <= i < |front| :: files[i] == front[i];
    assert files[|front|] == f;
  }

  lemma OneOfTwo(keys: set<string>)
    ensures |keys| > 1 <==> exists a, b | a in keys && b in keys :: a != b
  {
    if |keys| > 1 {
      var a :| a in keys;
      var rest := keys - {a};
      assert |rest| > 0;
      var b :| b in rest;
      assert b in keys && a != b;
    }
    if a, b :| a in keys && b in keys && a != b {
      assert {a, b} <= keys;
      SubsetSize({a, b}, keys);
    }
  }

  lemma SubsetSize(a: set<string>, b: set<string>)
    requires a <= b
    ensures |a| <= |b|
  {
    assert b == a + (b - a);
  }

  lemma SeenKey(env: Env, files: seq<File>, name: string, partition: Partition, key: string) returns (i: nat)
    requires key in KeysSeen(env, files, name, partition)
    ensures i < |files| && Considered(env, files[i], name, partition) && files[i].apex.value.key == key
  {
    hide Considered;
    i :| 0 <= i < |files| && Considered(env, files[i], name, partition) && files[i].apex.value.key == key;
  }

  lemma TwoKeysClash(env: Env, files: seq<File>, name: string, partition: Partition)
    requires |KeysSeen(env, files, name, partition)| > 1
    ensures Clash(env, files, name, partition)
  {
    hide Considered, KeysSeen;
    var keys := KeysSeen(env, files, name, partition);
    OneOfTwo(keys);
    var a, b :| a in keys && b in keys && a != b;
    var i := SeenKey(env, files, name, partition, a);
    var j := SeenKey(env, files, name, partition, b);
  }

  lemma ClashIsTwoKeys(env: Env, files: seq<File>, name: string, partition: Partition)
    ensures Clash(env, files, name, partition) <==> |KeysSeen(env, files, name, partition)| > 1
  {
    var keys := KeysSeen(env, files, name, partition);
    OneOfTwo(keys);
    if Clash(env, files, name, partition) {
      hide Considered;
      var i, j :| 0 <= i < j < |files| && Considered(env, files[i], name, partition)
                  && Considered(env, files[j], name, partition)
                  && files[i].apex.value.key != files[j].apex.value.key;
      assert files[i].apex.value.key in keys && files[j].apex.value.key in keys;
    }
    if |keys| > 1 {
      TwoKeysClash(env, files, name, partition);
    }
  }

  // ---------------------------------------------------------------------
  // One directory
  // ---------------------------------------------------------------------

  /** Packages and their partitions are recorded together. */
  predicate Paired(st: Stores) {
    st.partitions.Keys == st.pre.Keys
  }

  /**
   What a scan of one directory makes of a name: nothing is left of it when its files
   carry different keys; otherwise a package that was there stays, and one that was
   not is the first file that can be stored, recorded with the directory's partition.
   */
  ghost predicate Stored(env: Env, st: Stores, files: seq<File>, partition: Partition, name: string, st': Stores)
    requires Paired(st) && Paired(st')
  {
    var first := FirstTaken(env, files, name, partition);
    if Clash(env, files, name, partition) then name !in st'.pre
    else if name in st.pre then
      name in st'.pre && st'.pre[name] == st.pre[name] && st'.partitions[name] == st.partitions[name]
    else
      && (name in st'.pre <==> first.Some?)
      && (first.Some? ==> st'.pre[name] == first.value && st'.partitions[name] == partition)
  }

  /** Nothing about the name has changed. */
  predicate Untouched(st: Stores, st': Stores, name: string)
    requires Paired(st) && Paired(st')
  {
    && (name in st'.pre <==> name in st.pre) && KeysOf(st', name) == KeysOf(st, name)
    && (name in st.pre ==> st'.pre[name] == st.pre[name] && st'.partitions[name] == st.partitions[name])
  }

  lemma OtherKeys(st: Stores, name: string, other: string, keys: set<string>)
    requires other != name
    ensures KeysOf(st.(keys := st.keys[other := keys]), name) == KeysOf(st, name)
  {
  }

  lemma SameKeys(st: Stores, st': Stores, name: string)
    requires st.keys == st'.keys
    ensures KeysOf(st, name) == KeysOf(st', name)
  {
  }

  function Keyed(st: Stores, other: string, keys: set<string>): Stores {
    st.(keys := st.keys[other := keys])
  }

  lemma WithoutOther(st: Stores, other: string, keys: set<string>, name: string)
    requires Paired(st) && other != name
    ensures var st' := Keyed(st, other, keys).(pre := st.pre - {other}, partitions := st.partitions - {other});
            Paired(st') && Untouched(st, st', name)
  {
    OtherKeys(st, name, other, keys);
    var keyed := Keyed(st, other, keys);
    SameKeys(keyed, keyed.(pre := st.pre - {other}, partitions := st.partitions - {other}), name);
    hide KeysOf;
  }

  lemma WithOther(st: Stores, a: Apex, partition: Partition, keys: set<string>, name: string)
    requires Paired(st) && a.name != name
    ensures var st' := Keyed(st, a.name, keys).(pre := Emplace(st.pre, a.name, a),
                                                partitions := Emplace(st.partitions, a.name, partition));
            Paired(st') && Untouched(st, st', name)
  {
    OtherKeys(st, name, a.name, keys);
    SameKeys(Keyed(st, a.name, keys), Keyed(st, a.name, keys).(pre := Emplace(st.pre, a.name, a),
                                                               partitions := Emplace(st.partitions, a.name, partition)),
             name);
    hide KeysOf;
  }

  lemma OnlyKeyed(st: Stores, other: string, keys: set<string>, name: string)
    requires Paired(st) && other != name
    ensures Paired(Keyed(st, other, keys)) && Untouched(st, Keyed(st, other, keys), name)
  {
    OtherKeys(st, name, other, keys);
    hide KeysOf;
  }

  lemma MultiInstallCases(env: Env, st: Stores, f: File, a: Apex, partition: Partition)
    ensures var st', keys := ScanMultiInstall(env, st, f, a, partition), KeysOf(st, a.name) + {a.key};
            var st1 := Keyed(st, a.name, keys);
            || st' == st || st' == st1
            || st' == st1.(pre := st.pre - {a.name}, partitions := st.partitions - {a.name})
            || st' == st1.(pre := Emplace(st.pre, a.name, a), partitions := Emplace(st.partitions, a.name, partition))
  {
    hide KeysOf, Emplace;
  }

  lemma OtherSelectedName(env: Env, st: Stores, f: File, a: Apex, partition: Partition, name: string)
    requires Paired(st) && a.name != name
    ensures var st' := ScanMultiInstall(env, st, f, a, partition); Paired(st') && Untouched(st, st', name)
  {
    var keys := KeysOf(st, a.name) + {a.key};
    assert Untouched(st, st, name);
    hide *;
    MultiInstallCases(env, st, f, a, partition);
    OnlyKeyed(st, a.name, keys, name);
    WithoutOther(st, a.name, keys, name);
    WithOther(st, a, partition, keys, name);
  }

  /** A file of another name changes nothing about this one. */
  lemma OtherName(env: Env, st: Stores, f: File, partition: Partition, name: string)
    requires Paired(st) && !Bears(f, name) && ScanBuiltIn(env, st, f, partition).Continue?
    ensures var st' := ScanBuiltIn(env, st, f, partition).stores; Paired(st') && Untouched(st, st', name)
  {
    if env.select(f.apex.value.name) != "" {
      hide ScanMultiInstall, Untouched;
      OtherSelectedName(env, st, f, f.apex.value, partition, name);
    }
  }

  lemma OrdinaryName(env: Env, st: Stores, f: File, partition: Partition, name: string)
    requires Paired(st) && Bears(f, name) && env.select(name) == "" && ScanBuiltIn(env, st, f, partition).Continue?
    ensures var st' := ScanBuiltIn(env, st, f, partition).stores;
            && Paired(st') && name in st'.pre && KeysOf(st', name) == KeysOf(st, name)
            && st'.pre[name] == (if name in st.pre then st.pre[name] else f.apex.value)
            && st'.partitions[name] == (if name in st.pre then st.partitions[name] else partition)
  {
  }

  lemma SelectedName(env: Env, st: Stores, f: File, partition: Partition, name: string)
    requires Paired(st) && Bears(f, name) && env.select(name) != ""
    ensures ScanBuiltIn(env, st, f, partition).Continue?
    ensures var st' := ScanBuiltIn(env, st, f, partition).stores;
            Paired(st')
            && if !Considered(env, f, name, partition) then st' == st
               else
                 && KeysOf(st', name) == KeysOf(st, name) + {f.apex.value.key}
                 && if |KeysOf(st', name)| > 1 then name !in st'.pre
                    else if Takes(env, f, name, partition) && name !in st.pre then
                      name in st'.pre && st'.pre[name] == f.apex.value && st'.partitions[name] == partition
                    else
                      && (name in st'.pre <==> name in st.pre)
                      && (name in st.pre ==>
                            st'.pre[name] == st.pre[name] && st'.partitions[name] == st.partitions[name])
  {
  }

  lemma ScanSnoc(env: Env, st: Stores, front: seq<File>, f: File, partition: Partition)
    ensures var r := ScanBuiltInAll(env, st, front, partition);
            ScanBuiltInAll(env, st, front + [f], partition)
            == if r.Continue? then ScanBuiltIn(env, r.stores, f, partition) else r
  {
    hide ScanBuiltIn;
    assert (front + [f])[..|front|] == front;
  }

  lemma StoredNothing(env: Env, st: Stores, partition: Partition, name: string)
    requires Paired(st)
    ensures Stored(env, st, [], partition, name, st) && KeysSeen(env, [], name, partition) == {}
  {
  }

  /** A step that leaves the name alone, by a file that says nothing about it. */
  lemma StoredSame(env: Env, st: Stores, front: seq<File>, f: File, partition: Partition, name: string,
                   mid: Stores, st': Stores)
    requires Paired(st) && Paired(mid) && Paired(st') && Stored(env, st, front, partition, name, mid)
    requires Untouched(mid, st', name)
    requires !Considered(env, f, name, partition) && !Takes(env, f, name, partition)
    ensures Stored(env, st, front + [f], partition, name, st')
  {
    hide Considered, Takes, FirstTaken, Clash, KeysSeen, KeysOf;
    FirstTakenSnoc(env, front, f, name, partition);
    KeysSeenSnoc(env, front, f, name, partition);
    ClashIsTwoKeys(env, front, name, partition);
    ClashIsTwoKeys(env, front + [f], name, partition);
    assert KeysSeen(env, front, name, partition) + {} == KeysSeen(env, front, name, partition);
  }

  lemma OrdinaryHasNoClash(env: Env, files: seq<File>, name: string, partition: Partition)
    requires env.select(name) == ""
    ensures !Clash(env, files, name, partition)
  {
  }

  lemma OrdinaryIsNotConsidered(env: Env, f: File, name: string, partition: Partition)
    requires Bears(f, name) && env.select(name) == ""
    ensures !Considered(env, f, name, partition) && Takes(env, f, name, partition)
  {
  }

  lemma StoredOrdinary(env: Env, st: Stores, front: seq<File>, f: File, partition: Partition, name: string, mid: Stores)
    requires Paired(st) && Paired(mid) && Stored(env, st, front, partition, name, mid)
    requires Bears(f, name) && env.select(name) == "" && ScanBuiltIn(env, mid, f, partition).Continue?
    ensures var st' := ScanBuiltIn(env, mid, f, partition).stores;
            Paired(st') && KeysOf(st', name) == KeysOf(mid, name) && Stored(env, st, front + [f], partition, name, st')
  {
    OrdinaryName(env, mid, f, partition, name);
    OrdinaryIsNotConsidered(env, f, name, partition);
    hide Considered, Takes, FirstTaken, Clash, KeysOf, ScanBuiltIn, Paired;
    OrdinaryHasNoClash(env, front, name, partition);
    OrdinaryHasNoClash(env, front + [f], name, partition);
    FirstTakenSnoc(env, front, f, name, partition);
  }

  lemma StoredConsidered(
    env: Env, st: Stores, front: seq<File>, f: File, partition: Partition, name: string, mid: Stores)
    requires Paired(st) && Paired(mid) && Stored(env, st, front, partition, name, mid)
    requires KeysOf(mid, name) == KeysSeen(env, front, name, partition)
    requires Considered(env, f, name, partition)
    ensures ScanBuiltIn(env, mid, f, partition).Continue?
    ensures var st' := ScanBuiltIn(env, mid, f, partition).stores;
            && Paired(st') && KeysOf(st', name) == KeysSeen(env, front + [f], name, partition)
            && Stored(env, st, front + [f], partition, name, st')
  {
    SelectedName(env, mid, f, partition, name);
    KeysSeenSnoc(env, front, f, name, partition);
    ClashIsTwoKeys(env, front, name, partition);
    ClashIsTwoKeys(env, front + [f], name, partition);
    SubsetSize(KeysSeen(env, front, name, partition), KeysSeen(env, front + [f], name, partition));
    hide Considered, Takes, FirstTaken, Clash, KeysOf, KeysSeen, ScanBuiltIn, Paired;
    FirstTakenSnoc(env, front, f, name, partition);
  }

  /** The scan of one directory, name by name. */
  lemma {:induction false} ScanStores(env: Env, st: Stores, files: seq<File>, partition: Partition, name: string)
    requires Paired(st) && st.keys == map[]
    ensures var r := ScanBuiltInAll(env, st, files, partition);
            r.Continue? ==>
              && Paired(r.stores) && KeysOf(r.stores, name) == KeysSeen(env, files, name, partition)
              && Stored(env, st, files, partition, name, r.stores)
    decreases |files|
  {
    if files == [] {
      StoredNothing(env, st, partition, name);
    } else {
      hide *;
      var front, f := files[..|files| - 1], files[|files| - 1];
      assert files == front + [f];
      ScanStores(env, st, front, partition, name);
      ScanSnoc(env, st, front, f, partition);
      var r := ScanBuiltInAll(env, st, front, partition);
      if r.Continue? && ScanBuiltIn(env, r.stores, f, partition).Continue? {
        KeysSeenSnoc(env, front, f, name, partition);
        ScanMore(env, st, front, f, partition, name, r.stores);
      }
    }
  }

  lemma ScanMore(env: Env, st: Stores, front: seq<File>, f: File, partition: Partition, name: string, mid: Stores)
    requires Paired(st) && Paired(mid) && Stored(env, st, front, partition, name, mid)
    requires KeysOf(mid, name) == KeysSeen(env, front, name, partition)
    requires ScanBuiltIn(env, mid, f, partition).Continue?
    ensures var st' := ScanBuiltIn(env, mid, f, partition).stores;
            && Paired(st') && KeysOf(st', name) == KeysSeen(env, front + [f], name, partition)
            && Stored(env, st, front + [f], partition, name, st')
  {
    var st' := ScanBuiltIn(env, mid, f, partition).stores;
    if Considered(env, f, name, partition) {
      StoredConsidered(env, st, front, f, partition, name, mid);
    } else {
      KeysSeenSnoc(env, front, f, name, partition);
      assert KeysSeen(env, front, name, partition) + {} == KeysSeen(env, front, name, partition);
      if Bears(f, name) && env.select(name) == "" {
        hide *;
        StoredOrdinary(env, st, front, f, partition, name, mid);
      } else {
        if Bears(f, name) {
          SelectedName(env, mid, f, partition, name);
        } else {
          OtherName(env, mid, f, partition, name);
        }
        hide ScanBuiltIn, FirstTaken, Clash, KeysSeen, Stored;
        StoredSame(env, st, front, f, partition, name, mid, st');
      }
    }
  }

  // ---------------------------------------------------------------------
  // How a scan ends
  // ---------------------------------------------------------------------

  predicate Agree(a: Apex, b: Apex) {
    a.path == b.path && a.key == b.key
  }

  /** An opened file of an ordinary name agrees with what is stored under it and with the files before it. */
  ghost predicate AgreesAt(env: Env, st: Stores, files: seq<File>, i: nat)
    requires i < |files| && files[i].apex.Some?
  {
    var a := files[i].apex.value;
    env.select(a.name) == "" ==>
      && (a.name in st.pre ==> Agree(st.pre[a.name], a))
      && forall j | 0 <= j < i && Bears(files[j], a.name) :: Agree(files[j].apex.value, a)
  }

  /** Every file can be opened, and no two of an ordinary name differ in path or key. */
  ghost predicate Clean(env: Env, st: Stores, files: seq<File>) {
    forall i | 0 <= i < |files| :: files[i].apex.Some? && AgreesAt(env, st, files, i)
  }

  lemma CleanSnoc(env: Env, st: Stores, front: seq<File>, f: File)
    ensures (Clean(env, st, front + [f])
        <==> Clean(env, st, front) && f.apex.Some? && AgreesAt(env, st, front + [f], |front|))
  {
    var files := front + [f];
    forall i | 0 <= i < |front|
      ensures files[i] == front[i]
      ensures front[i].apex.Some? ==> (AgreesAt(env, st, files, i) <==> AgreesAt(env, st, front, i))
    {
      assert forall j | 0 <= j < i :: files[j] == front[j];
    }
    hide AgreesAt;
  }

  /** What is stored under an ordinary name agrees with all clean files of that name before. */
  lemma StoredAgrees(env: Env, st: Stores, front: seq<File>, f: File, partition: Partition, mid: Stores)
    requires Paired(st) && Paired(mid) && Clean(env, st, front) && f.apex.Some?
    requires env.select(f.apex.value.name) == "" && Stored(env, st, front, partition, f.apex.value.name, mid)
    ensures (AgreesAt(env, st, front + [f], |front|)
        <==> (f.apex.value.name in mid.pre ==> Agree(mid.pre[f.apex.value.name], f.apex.value)))
  {
    var a, files := f.apex.value, front + [f];
    var name := a.name;
    OrdinaryHasNoClash(env, front, name, partition);
    assert forall j | 0 <= j < |front| :: files[j] == front[j];
    assert forall j | 0 <= j < |front| :: Takes(env, front[j], name, partition) <==> Bears(front[j], name);
    if name !in st.pre && name in mid.pre {
      var i :| 0 <= i < |front| && Takes(env, front[i], name, partition)
               && front[i].apex == FirstTaken(env, front, name, partition)
               && forall j | 0 <= j < i :: !Takes(env, front[j], name, partition);
      hide FirstTaken, Clash;
      forall j | 0 <= j < |front| && Bears(front[j], name)
        ensures Agree(front[i].apex.value, front[j].apex.value)
      {
        assert AgreesAt(env, st, front, j);
      }
    } else {
      hide FirstTaken, Clash;
      forall j | 0 <= j < |front| && Bears(front[j], name)
        ensures name in st.pre && Agree(st.pre[name], front[j].apex.value)
      {
        assert AgreesAt(env, st, front, j);
      }
    }
  }

  lemma StepEnds(env: Env, st: Stores, front: seq<File>, f: File, partition: Partition, mid: Stores)
    requires Paired(st) && Paired(mid) && Clean(env, st, front)
    requires f.apex.Some? ==> Stored(env, st, front, partition, f.apex.value.name, mid)
    ensures var r := ScanBuiltIn(env, mid, f, partition);
            && (r.Continue? <==> Clean(env, st, front + [f]))
            && (!r.Continue? ==> r == if f.apex.None? then OpenError else Fatal)
  {
    CleanSnoc(env, st, front, f);
    hide Clean;
    if f.apex.Some? {
      if env.select(f.apex.value.name) == "" {
        hide AgreesAt, Stored;
        StoredAgrees(env, st, front, f, partition, mid);
      }
    }
  }

  lemma {:induction false} ScanContinues(env: Env, st: Stores, files: seq<File>, partition: Partition)
    requires Paired(st) && st.keys == map[]
    ensures ScanBuiltInAll(env, st, files, partition).Continue? <==> Clean(env, st, files)
    decreases |files|
  {
    if files != [] {
      hide *;
      var front, f := files[..|files| - 1], files[|files| - 1];
      assert files == front + [f];
      var r := ScanBuiltInAll(env, st, front, partition);
      ScanContinues(env, st, front, partition);
      ScanSnoc(env, st, front, f, partition);
      CleanSnoc(env, st, front, f);
      if r.Continue? {
        ScanStores(env, st, front, partition, if f.apex.Some? then f.apex.value.name else "");
        StepEnds(env, st, front, f, partition, r.stores);
      }
    } else {
      assert Clean(env, st, files);
    }
  }

  /**
   A scan continues exactly when all files are clean; otherwise the first file that is
   not decides: an error when it cannot be opened, an abort when it conflicts.
   */
  lemma ScanEnds(env: Env, st: Stores, files: seq<File>, partition: Partition, i: nat)
    requires Paired(st) && st.keys == map[]
    ensures ScanBuiltInAll(env, st, files, partition).Continue? <==> Clean(env, st, files)
    ensures i < |files| && Clean(env, st, files[..i]) && !Clean(env, st, files[..i + 1]) ==>
              ScanBuiltInAll(env, st, files, partition) == if files[i].apex.None? then OpenError else Fatal
  {
    hide *;
    ScanContinues(env, st, files, partition);
    if i < |files| && Clean(env, st, files[..i]) && !Clean(env, st, files[..i + 1]) {
      var front, f := files[..i], files[i];
      assert files[..i + 1] == front + [f];
      ScanContinues(env, st, front, partition);
      ScanSnoc(env, st, front, f, partition);
      var r := ScanBuiltInAll(env, st, front, partition);
      ScanStores(env, st, front, partition, if f.apex.Some? then f.apex.value.name else "");
      StepEnds(env, st, front, f, partition, r.stores);
      ScanStopsAt(env, st, files, partition, i + 1);
    }
  }

  // ---------------------------------------------------------------------
  // All directories
  // ---------------------------------------------------------------------

  const EMPTY: Stores := Stores(map[], map[], map[], map[])

  /** The pre-installed package of a name and its partition, told from the directories. */
  ghost function PreInstalled(env: Env, dirs: seq<Directory>, name: string): Option<(Apex, Partition)> {
    if dirs == [] then None
    else
      var d, before := dirs[|dirs| - 1], PreInstalled(env, dirs[..|dirs| - 1], name);
      if Clash(env, d.files, name, d.partition) then None
      else if before.Some? then before
      else
        match FirstTaken(env, d.files, name, d.partition)
        case None => None
        case Some(a) => Some((a, d.partition))
  }

  /** The stores hold the package and nothing is left over from the scan. */
  ghost predicate Knows(st: Stores, name: string, known: Option<(Apex, Partition)>) {
    && Paired(st) && st.keys == map[] && st.data == map[] && (name in st.pre <==> known.Some?)
    && (known.Some? ==> st.pre[name] == known.value.0 && st.partitions[name] == known.value.1)
  }

  lemma KnowsMore(env: Env, st: Stores, d: Directory, name: string, before: Option<(Apex, Partition)>, st': Stores)
    requires Knows(st, name, before) && Paired(st') && st'.data == map[]
    requires Stored(env, st, d.files, d.partition, name, st')
    ensures var first := FirstTaken(env, d.files, name, d.partition);
            Knows(st'.(keys := map[]), name,
                  if Clash(env, d.files, name, d.partition) then None
                  else if before.Some? then before
                  else if first.None? then None else Some((first.value, d.partition)))
  {
    hide FirstTaken, Clash;
  }

  lemma {:induction false} DataStaysEmpty(env: Env, st: Stores, files: seq<File>, partition: Partition)
    requires st.data == map[]
    ensures var r := ScanBuiltInAll(env, st, files, partition); r.Continue? ==> r.stores.data == map[]
    decreases |files|
  {
    if files != [] {
      DataStaysEmpty(env, st, files[..|files| - 1], partition);
      hide KeysOf;
    }
  }

  /** The scans of all directories, name by name. */
  lemma {:induction false} DirsStore(env: Env, dirs: seq<Directory>, name: string)
    requires ScanDirs(env, EMPTY, dirs).Continue?
    ensures Knows(ScanDirs(env, EMPTY, dirs).stores, name, PreInstalled(env, dirs, name))
    decreases |dirs|
  {
    if dirs != [] {
      var front, d := dirs[..|dirs| - 1], dirs[|dirs| - 1];
      hide ScanBuiltInAll, Knows, Stored, Paired, FirstTaken, Clash, KeysSeen;
      DirsStore(env, front, name);
      var st := ScanDirs(env, EMPTY, front).stores;
      KnowsIs(st, name, PreInstalled(env, front, name));
      ScanStores(env, st, d.files, d.partition, name);
      DataStaysEmpty(env, st, d.files, d.partition);
      KnowsMore(env, st, d, name, PreInstalled(env, front, name), ScanBuiltInAll(env, st, d.files, d.partition).stores);
    }
  }

  lemma KnowsIs(st: Stores, name: string, known: Option<(Apex, Partition)>)
    requires Knows(st, name, known)
    ensures Paired(st) && st.keys == map[] && st.data == map[]
  {
  }

  lemma {:induction false} DirsAreConsistent(env: Env, dirs: seq<Directory>)
    requires ScanDirs(env, EMPTY, dirs).Continue?
    ensures var st := ScanDirs(env, EMPTY, dirs).stores; Consistent(st) && st.data == map[]
    decreases |dirs|
  {
    if dirs != [] {
      var front, d := dirs[..|dirs| - 1], dirs[|dirs| - 1];
      hide ScanBuiltInAll;
      DirsAreConsistent(env, front);
      BuiltInScanIsConsistent(env, ScanDirs(env, EMPTY, front).stores, d.files, d.partition);
    }
  }

  // ---------------------------------------------------------------------
  // From the files to the choice
  // ---------------------------------------------------------------------

  /** A data file that may stand beside, or instead of, the pre-installed package. */
  predicate MayUpdate(env: Env, pre: Option<(Apex, Partition)>, f: File, name: string) {
    && Bears(f, name)
    && (if pre.Some? then pre.value.0.key == f.apex.value.key
        else env.brandNewEnabled && env.verifyBrandNew(f.apex.value).Some?)
    && !(|f.apex.value.path| >= 18 && f.apex.value.path[|f.apex.value.path| - 18..] == ".decompressed.apex")
  }

  ghost predicate IsNewestAt(
    env: Env, pre: Option<(Apex, Partition)>, files: seq<File>, name: string, best: Apex, i: nat)
  {
    && i < |files| && MayUpdate(env, pre, files[i], name) && files[i].apex == Some(best)
    && forall j | 0 <= j < |files| && MayUpdate(env, pre, files[j], name) ::
         && files[j].apex.value.version <= best.version
         && (j < i ==> files[j].apex.value.version < best.version)
  }

  /** The first of the newest data files of the name. */
  ghost predicate IsNewest(env: Env, pre: Option<(Apex, Partition)>, files: seq<File>, name: string, best: Apex) {
    exists i: nat :: IsNewestAt(env, pre, files, name, best, i)
  }

  lemma OffersIs(env: Env, st: Stores, f: File, name: string, pre: Option<(Apex, Partition)>)
    requires Knows(st, name, pre)
    ensures Offers(env, st.pre, f, name) <==> MayUpdate(env, pre, f, name)
  {
    assert |DECOMPRESSED_SUFFIX| == 18;
  }

  lemma BestIsNewest(env: Env, st: Stores, files: seq<File>, name: string, pre: Option<(Apex, Partition)>, best: Apex)
    requires Knows(st, name, pre) && IsBest(env, st.pre, files, name, best)
    ensures IsNewest(env, pre, files, name, best)
  {
    hide Knows;
    forall f: File
      ensures Offers(env, st.pre, f, name) <==> MayUpdate(env, pre, f, name)
    {
      OffersIs(env, st, f, name, pre);
    }
    hide Offers, MayUpdate;
    var i: nat :| IsBestAt(env, st.pre, files, name, best, i);
    assert IsNewestAt(env, pre, files, name, best, i);
  }

  predicate InRange(a: Apex) {
    -0x8000_0000 <= a.version < 0x8000_0000
  }

  lemma OffersExist(env: Env, st: Stores, files: seq<File>, name: string, pre: Option<(Apex, Partition)>)
    requires Knows(st, name, pre)
    ensures ((exists f | f in files :: Offers(env, st.pre, f, name))
        <==> exists f | f in files :: MayUpdate(env, pre, f, name))
  {
    hide Knows;
    forall f: File
      ensures Offers(env, st.pre, f, name) <==> MayUpdate(env, pre, f, name)
    {
      OffersIs(env, st, f, name, pre);
    }
  }

  lemma ChoiceOfBoth(env: Env, st: Stores, name: string)
    requires name in st.pre && name in st.data && Consistent(st) && InRange(st.pre[name]) && InRange(st.data[name])
    requires DataIsApart(env, st.pre[name], st.data[name])
    ensures Chosen(env, st, FilesOf(st, name)) == Rule(st.pre[name], st.data[name])
  {
    hide Chosen, Rule, NarrowingIsHarmless, FilesOf;
    InRangeIsHarmless(st.pre[name], st.data[name]);
    ChoiceFollowsRule(env, st, name);
  }

  /** The stores after all scans from an empty repository. */
  function AfterScans(env: Env, dirs: seq<Directory>, files: seq<File>): Stores
    requires ScanDirs(env, EMPTY, dirs).Continue?
  {
    ScanDataAll(env, ScanDirs(env, EMPTY, dirs).stores, files)
  }

  /** What the stores hold after all scans from an empty repository, told from the files alone. */
  lemma ScansFromEmpty(env: Env, dirs: seq<Directory>, files: seq<File>, name: string)
    requires ScanDirs(env, EMPTY, dirs).Continue?
    ensures var st, pre := AfterScans(env, dirs, files), PreInstalled(env, dirs, name);
            && Consistent(st) && (name in st.pre <==> pre.Some?) && (pre.Some? ==> st.pre[name] == pre.value.0)
            && (name in st.data <==> exists f | f in files :: MayUpdate(env, pre, f, name))
            && (name in st.data ==> IsNewest(env, pre, files, name, st.data[name]))
  {
    var st0, pre := ScanDirs(env, EMPTY, dirs).stores, PreInstalled(env, dirs, name);
    hide ScanDirs, ScanDataAll, MayUpdate, Offers, IsBest, IsNewest, Consistent, PreInstalled;
    DirsStore(env, dirs, name);
    DirsAreConsistent(env, dirs);
    DataScanKeepsNewest(env, st0, files, name);
    DataScanIsConsistent(env, st0, files);
    OffersExist(env, st0, files, name, pre);
    if name in AfterScans(env, dirs, files).data {
      BestIsNewest(env, st0, files, name, pre, AfterScans(env, dirs, files).data[name]);
    }
  }

  /**
   From the files to the choice: a package without a pre-installed copy gets its newest
   data file, one without data files its pre-installed copy, and otherwise the rule
   decides between the pre-installed copy and the newest data file.
   */
  lemma SelectionFromFiles(env: Env, dirs: seq<Directory>, files: seq<File>, name: string)
    requires ScanDirs(env, EMPTY, dirs).Continue?
    requires var pre := PreInstalled(env, dirs, name);
             pre.Some? ==>
               && InRange(pre.value.0)
               && forall f | f in files && MayUpdate(env, pre, f, name) ::
                    InRange(f.apex.value) && DataIsApart(env, pre.value.0, f.apex.value)
    ensures var st, pre := AfterScans(env, dirs, files), PreInstalled(env, dirs, name);
            && (name in st.pre <==> pre.Some?)
            && (name in st.data <==> exists f | f in files :: MayUpdate(env, pre, f, name))
            && (name in st.data ==> IsNewest(env, pre, files, name, st.data[name]))
            && (name in st.pre || name in st.data ==>
                  Chosen(env, st, FilesOf(st, name))
                  == if pre.None? then [st.data[name]]
                     else if name !in st.data then [pre.value.0]
                     else Rule(pre.value.0, st.data[name]))
  {
    var st, pre := AfterScans(env, dirs, files), PreInstalled(env, dirs, name);
    ScansFromEmpty(env, dirs, files, name);
    hide AfterScans, ScanDirs, PreInstalled, Consistent, Rule, Selects, Narrow;
    if name in st.pre && name in st.data {
      NewestIsFound(env, pre, files, name, st.data[name]);
      hide MayUpdate, IsNewest, Chosen;
      ChoiceOfBoth(env, st, name);
    }
  }

  lemma NewestIsFound(env: Env, pre: Option<(Apex, Partition)>, files: seq<File>, name: string, best: Apex)
    requires IsNewest(env, pre, files, name, best)
    ensures exists f | f in files :: MayUpdate(env, pre, f, name) && f.apex == Some(best)
  {
    hide MayUpdate;
    var i: nat :| IsNewestAt(env, pre, files, name, best, i);
    assert files[i] in files;
  }
}
