/**
 The package repository and the choice of what to activate
 (research/aosp-src/afr.cpp, SelectApexForActivation in
 research/aosp-src/apexd.cpp).
 */
module ApexRepository {
  import opened Wrappers
  import opened Text

  datatype Partition = System | SystemExt | Product | Vendor | Odm

  /** An opened package: what its manifest and path say. */
  datatype Apex = Apex(name: string, version: int, path: string, key: string, sharedLibs: bool)

  /** A file found by a scan; `apex` is None when it cannot be opened. */
  datatype File = File(path: string, apex: Option<Apex>, baseName: Option<string>)

  /**
   What the repository asks its surroundings: the multi-install selection
   property of a name ("" when unset) and the verifier of brand-new packages.
   */
  datatype Env = Env(select: string -> string, enforcePartition: bool, brandNewEnabled: bool,
                     verifyBrandNew: Apex -> Option<Partition>, decompressionDir: string)

  datatype Stores = Stores(pre: map<string, Apex>, data: map<string, Apex>,
                           partitions: map<string, Partition>, keys: map<string, set<string>>)

  const DECOMPRESSED_SUFFIX := ".decompressed.apex"

  // ---------------------------------------------------------------------
  // Scanning the built-in directories
  // ---------------------------------------------------------------------

  datatype ScanStep = Continue(stores: Stores) | OpenError | Fatal

  /** `emplace`: an existing entry is kept. */
  function Emplace<V>(m: map<string, V>, k: string, v: V): map<string, V> {
    if k in m then m else m[k := v]
  }

  function KeysOf(st: Stores, name: string): set<string> {
    if name in st.keys then st.keys[name] else {}
  }

  /** The branch for names that have a multi-install selection property. */
  function ScanMultiInstall(env: Env, st: Stores, f: File, a: Apex, partition: Partition): Stores {
    if f.baseName.None? then st
    else if env.enforcePartition && partition != Vendor && partition != Odm then st
    else
      var keys := KeysOf(st, a.name) + {a.key};
      var st1 := st.(keys := st.keys[a.name := keys]);
      if |keys| > 1 then
        if a.name in st.pre then st1.(pre := st.pre - {a.name}, partitions := st.partitions - {a.name})
        else st1
      else if f.baseName.value == env.select(a.name) then
        st1.(pre := Emplace(st.pre, a.name, a), partitions := Emplace(st.partitions, a.name, partition))
      else st1
  }

  function ScanBuiltIn(env: Env, st: Stores, f: File, partition: Partition): ScanStep {
    if f.apex.None? then OpenError
    else
      var a := f.apex.value;
      if env.select(a.name) != "" then Continue(ScanMultiInstall(env, st, f, a, partition))
      else if a.name !in st.pre then
        Continue(st.(pre := st.pre[a.name := a], partitions := Emplace(st.partitions, a.name, partition)))
      else if st.pre[a.name].path != a.path || st.pre[a.name].key != a.key then Fatal
      else Continue(st)
  }

  function ScanBuiltInAll(env: Env, st: Stores, files: seq<File>, partition: Partition): ScanStep {
    if files == [] then Continue(st)
    else
      match ScanBuiltInAll(env, st, files[..|files| - 1], partition)
      case Continue(st') => ScanBuiltIn(env, st', files[|files| - 1], partition)
      case failed => failed
  }

  /** A pre-installed directory and the files found in it. */
  datatype Directory = Directory(partition: Partition, files: seq<File>)

  /** AddPreInstalledApex: one directory after the other; the keys are forgotten after each. */
  function ScanDirs(env: Env, st: Stores, dirs: seq<Directory>): ScanStep {
    if dirs == [] then Continue(st)
    else
      var last := dirs[|dirs| - 1];
      match ScanDirs(env, st, dirs[..|dirs| - 1])
      case Continue(st1) =>
        (match ScanBuiltInAll(env, st1, last.files, last.partition)
         case Continue(st2) => Continue(st2.(keys := map[]))
         case failed => failed)
      case failed => failed
  }

  // ---------------------------------------------------------------------
  // Scanning the data directory
  // ---------------------------------------------------------------------

  predicate BrandNew(env: Env, a: Apex) {
    env.brandNewEnabled && env.verifyBrandNew(a).Some?
  }

  /** The data files a scan considers at all. */
  predicate Accepted(env: Env, pre: map<string, Apex>, f: File) {
    f.apex.Some?
    && (if f.apex.value.name in pre then pre[f.apex.value.name].key == f.apex.value.key
        else BrandNew(env, f.apex.value))
    && !EndsWith(f.apex.value.path, DECOMPRESSED_SUFFIX)
  }

  /** One file of AddDataApex. */
  function ScanData(env: Env, st: Stores, f: File): Stores {
    if f.apex.None? then st
    else
      var a := f.apex.value;
      if a.name in st.pre && st.pre[a.name].key != a.key then st
      else if a.name !in st.pre && !BrandNew(env, a) then st
      else
        var st1 := if a.name in st.pre then st
                   else st.(partitions := Emplace(st.partitions, a.name, env.verifyBrandNew(a).value));
        if EndsWith(a.path, DECOMPRESSED_SUFFIX) then st1
        else if a.name !in st.data || a.version > st.data[a.name].version then
          st1.(data := st.data[a.name := a])
        else st1
  }

  function ScanDataAll(env: Env, st: Stores, files: seq<File>): Stores {
    if files == [] then st
    else ScanData(env, ScanDataAll(env, st, files[..|files| - 1]), files[|files| - 1])
  }

  /** Every entry is stored under its own name, and data copies carry the pre-installed key. */
  ghost predicate Consistent(st: Stores) {
    && (forall n | n in st.pre :: st.pre[n].name == n)
    && (forall n | n in st.data :: st.data[n].name == n && (n in st.pre ==> st.pre[n].key == st.data[n].key))
  }

  lemma MultiInstallIsConsistent(env: Env, st: Stores, f: File, a: Apex, partition: Partition)
    requires Consistent(st) && st.data == map[]
    ensures var st' := ScanMultiInstall(env, st, f, a, partition);
            Consistent(st') && st'.data == map[]
  {
    hide KeysOf;
  }

  lemma BuiltInStepIsConsistent(env: Env, st: Stores, f: File, partition: Partition)
    requires Consistent(st) && st.data == map[]
    ensures var r := ScanBuiltIn(env, st, f, partition);
            r.Continue? ==> Consistent(r.stores) && r.stores.data == map[]
  {
    hide ScanMultiInstall;
    if f.apex.Some? {
      MultiInstallIsConsistent(env, st, f, f.apex.value, partition);
    }
  }

  lemma {:induction false} BuiltInScanIsConsistent(env: Env, st: Stores, files: seq<File>, partition: Partition)
    requires Consistent(st) && st.data == map[]
    ensures var r := ScanBuiltInAll(env, st, files, partition);
            r.Continue? ==> Consistent(r.stores) && r.stores.data == map[]
  {
    if files != [] {
      hide ScanBuiltIn, Consistent;
      BuiltInScanIsConsistent(env, st, files[..|files| - 1], partition);
      var r := ScanBuiltInAll(env, st, files[..|files| - 1], partition);
      if r.Continue? {
        BuiltInStepIsConsistent(env, r.stores, files[|files| - 1], partition);
      }
    }
  }

  predicate Offers(env: Env, pre: map<string, Apex>, f: File, name: string) {
    Accepted(env, pre, f) && f.apex.value.name == name
  }

  /** File i is the accepted data file `best` of that name; none is newer, and none before it as new. */
  ghost predicate IsBestAt(env: Env, pre: map<string, Apex>, files: seq<File>, name: string, best: Apex, i: nat) {
    && i < |files| && Offers(env, pre, files[i], name) && files[i].apex.value == best
    && forall j | 0 <= j < |files| && Offers(env, pre, files[j], name) ::
         && files[j].apex.value.version <= best.version
         && (j < i ==> files[j].apex.value.version < best.version)
  }

  /** `best` is the first of the newest accepted data files of that name. */
  ghost predicate IsBest(env: Env, pre: map<string, Apex>, files: seq<File>, name: string, best: Apex) {
    exists i: nat :: IsBestAt(env, pre, files, name, best, i)
  }

  lemma ScanDataAt(env: Env, st: Stores, f: File, name: string)
    ensures var st' := ScanData(env, st, f);
            st'.pre == st.pre
            && if Offers(env, st.pre, f, name) then
                 name in st'.data
                 && st'.data[name] == (if name in st.data && f.apex.value.version <= st.data[name].version
                                       then st.data[name] else f.apex.value)
               else
                 (name in st'.data <==> name in st.data)
                 && (name in st.data ==> st'.data[name] == st.data[name])
  {
    hide EndsWith, BrandNew;
  }

  /**
   What the data scan maintains, over any file list: the built-in store is
   untouched, a name is in the data store exactly when some file is accepted for
   it, and the stored copy is the first of the newest accepted ones.
   */
  lemma {:induction false} DataScanKeepsNewest(env: Env, st: Stores, files: seq<File>, name: string)
    requires st.data == map[]
    ensures var st' := ScanDataAll(env, st, files);
            st'.pre == st.pre
            && (name in st'.data <==> exists f | f in files :: Offers(env, st.pre, f, name))
            && (name in st'.data ==> IsBest(env, st.pre, files, name, st'.data[name]))
  {
    if files != [] {
      var front, last := files[..|files| - 1], files[|files| - 1];
      DataScanKeepsNewest(env, st, front, name);
      assert files == front + [last];
      ScanDataAt(env, ScanDataAll(env, st, front), last, name);
      hide ScanData, Accepted, IsBest, Offers;
      assert last in files && forall f | f in front :: f in files;
      var data := ScanDataAll(env, st, front).data;
      if name in data && (!Offers(env, st.pre, last, name) || last.apex.value.version <= data[name].version) {
        BestStays(env, st.pre, files, name, data[name]);
      } else if Offers(env, st.pre, last, name) {
        LastIsBest(env, st.pre, files, name);
      }
    }
  }

  lemma BestStays(env: Env, pre: map<string, Apex>, files: seq<File>, name: string, best: Apex)
    requires files != [] && IsBest(env, pre, files[..|files| - 1], name, best)
    requires var last := files[|files| - 1];
             Offers(env, pre, last, name) ==> last.apex.Some? && last.apex.value.version <= best.version
    ensures IsBest(env, pre, files, name, best)
  {
    var front := files[..|files| - 1];
    var i: nat :| IsBestAt(env, pre, front, name, best, i);
    hide Offers;
    assert forall j | 0 <= j < |front| :: front[j] == files[j];
    assert IsBestAt(env, pre, files, name, best, i);
  }

  lemma LastIsBest(env: Env, pre: map<string, Apex>, files: seq<File>, name: string)
    requires files != [] && Offers(env, pre, files[|files| - 1], name)
    requires var front, last := files[..|files| - 1], files[|files| - 1];
             || (forall f | f in front :: !Offers(env, pre, f, name))
             || exists best :: IsBest(env, pre, front, name, best) && best.version < last.apex.value.version
    ensures IsBest(env, pre, files, name, files[|files| - 1].apex.value)
  {
    var front, n := files[..|files| - 1], |files| - 1;
    assert forall j | 0 <= j < n :: front[j] == files[j] && files[j] in front;
    assert IsBestAt(env, pre, files, name, files[n].apex.value, n);
  }

  lemma {:induction false} DataScanIsConsistent(env: Env, st: Stores, files: seq<File>)
    requires Consistent(st)
    ensures Consistent(ScanDataAll(env, st, files))
    ensures ScanDataAll(env, st, files).pre == st.pre
  {
    if files != [] {
      DataScanIsConsistent(env, st, files[..|files| - 1]);
    }
  }

  // ---------------------------------------------------------------------
  // Selecting what to activate
  // ---------------------------------------------------------------------

  predicate IsPreInstalled(env: Env, st: Stores, a: Apex) {
    a.name in st.pre && (st.pre[a.name].path == a.path || env.decompressionDir <= a.path)
  }

  /** AllApexFilesByName, at one name: the pre-installed copy comes first. */
  function FilesOf(st: Stores, name: string): seq<Apex> {
    (if name in st.pre then [st.pre[name]] else []) + (if name in st.data then [st.data[name]] else [])
  }

  /** Conversion of a 64-bit version to `int`. */
  function Narrow(v: int): (r: int)
    ensures -0x8000_0000 <= r < 0x8000_0000
    ensures -0x8000_0000 <= v < 0x8000_0000 ==> r == v
  {
    (v + 0x8000_0000) % 0x1_0000_0000 - 0x8000_0000
  }

  /** select_apex */
  predicate Selects(env: Env, st: Stores, a: Apex, versionB: int) {
    if a.sharedLibs then
      (IsPreInstalled(env, st, a) && a.version != versionB)
      || (!IsPreInstalled(env, st, a) && a.version >= versionB)
    else
      a.version > versionB || (a.version == versionB && !IsPreInstalled(env, st, a))
  }

  /** What SelectApexForActivation appends for one package. */
  function Chosen(env: Env, st: Stores, files: seq<Apex>): seq<Apex>
    requires 1 <= |files| <= 2
  {
    if |files| == 1 then files
    else
      (if Selects(env, st, files[0], Narrow(files[1].version)) then [files[0]] else [])
      + (if Selects(env, st, files[1], Narrow(files[0].version)) then [files[1]] else [])
  }

  /**
   The rule the code documents: the data copy is activated unless it is older;
   the pre-installed copy when it is newer, and for shared libraries also when
   it is older.
   */
  function Rule(pre: Apex, data: Apex): seq<Apex> {
    (if pre.version > data.version || (pre.sharedLibs && pre.version < data.version) then [pre] else [])
    + (if data.version >= pre.version then [data] else [])
  }

  /** No version lies between the other version and that version narrowed to 32 bits. */
  predicate NarrowingIsHarmless(pre: Apex, data: Apex) {
    var p, d := pre.version, data.version;
    && !(Narrow(p) <= d < p) && !(p <= d < Narrow(p))
    && (if pre.sharedLibs then Narrow(d) == d || (p != d && p != Narrow(d))
        else !(Narrow(d) < p <= d) && !(d < p <= Narrow(d)))
  }

  /** Data copies live outside the pre-installed and the decompression directories. */
  predicate DataIsApart(env: Env, pre: Apex, data: Apex) {
    pre.name == data.name && data.path != pre.path && !(env.decompressionDir <= data.path)
  }

  /** With both copies present, the choice follows the rule exactly when narrowing does no harm. */
  lemma ChoiceFollowsRule(env: Env, st: Stores, name: string)
    requires name in st.pre && name in st.data && Consistent(st)
    requires DataIsApart(env, st.pre[name], st.data[name])
    ensures (Chosen(env, st, FilesOf(st, name)) == Rule(st.pre[name], st.data[name]))
            <==> NarrowingIsHarmless(st.pre[name], st.data[name])
  {
    hide Narrow;
    var pre, data := st.pre[name], st.data[name];
    var p, d := pre.version, data.version;
    assert FilesOf(st, name) == [pre, data];
    assert IsPreInstalled(env, st, pre) && !IsPreInstalled(env, st, data);
    TwoPicks(pre, data, Selects(env, st, pre, Narrow(d)), Selects(env, st, data, Narrow(p)),
             p > d || (pre.sharedLibs && p < d), d >= p);
  }

  lemma TwoPicks(a: Apex, b: Apex, p: bool, q: bool, p': bool, q': bool)
    requires a != b
    ensures ((if p then [a] else []) + (if q then [b] else [])
             == (if p' then [a] else []) + (if q' then [b] else []))
            <==> (p == p' && q == q')
  {
    var x := (if p then [a] else []) + (if q then [b] else []);
    var y := (if p' then [a] else []) + (if q' then [b] else []);
    assert a in x <==> p;
    assert b in x <==> q;
    assert a in y <==> p';
    assert b in y <==> q';
  }

  lemma InRangeIsHarmless(pre: Apex, data: Apex)
    requires -0x8000_0000 <= pre.version < 0x8000_0000
    requires -0x8000_0000 <= data.version < 0x8000_0000
    ensures NarrowingIsHarmless(pre, data)
  {
    hide Narrow;
  }

  /** The failing family has members: two copies of an ordinary package, both activated. */
  lemma NarrowingCanActivateBoth(env: Env, st: Stores, name: string)
    requires name in st.pre && name in st.data && Consistent(st)
    requires DataIsApart(env, st.pre[name], st.data[name])
    requires !st.pre[name].sharedLibs && !st.data[name].sharedLibs
    requires st.pre[name].version == 1 && st.data[name].version == 0x1_0000_0000
    ensures Chosen(env, st, FilesOf(st, name)) == [st.pre[name], st.data[name]]
    ensures Rule(st.pre[name], st.data[name]) == [st.data[name]]
  {
    assert FilesOf(st, name) == [st.pre[name], st.data[name]];
  }

  /**
   Selection after a built-in scan and a data scan over any file lists. What is
   activated for a name is newest among the pre-installed copy and all accepted
   data files; exactly one copy when neither provides shared libraries, the data
   copy on a tie; and with shared libraries both exactly when data is newer.
   */
  lemma SelectionAfterScans(env: Env, st: Stores, files: seq<File>, name: string)
    requires st.data == map[] && Consistent(st)
    requires name in st.pre
    requires forall f | f in files && Offers(env, st.pre, f, name) ::
               DataIsApart(env, st.pre[name], f.apex.value)
               && -0x8000_0000 <= f.apex.value.version < 0x8000_0000
    requires -0x8000_0000 <= st.pre[name].version < 0x8000_0000
    ensures ScanDataAll(env, st, files).pre == st.pre
    ensures var st' := ScanDataAll(env, st, files);
            var chosen := Chosen(env, st', FilesOf(st', name));
            var pre := st.pre[name];
            && (name !in st'.data ==> chosen == [pre])
            && (name in st'.data ==>
                  var data := st'.data[name];
                  && IsBest(env, st.pre, files, name, data)
                  && (data in chosen <==> data.version >= pre.version)
                  && (pre in chosen <==> pre.version > data.version
                                         || (pre.sharedLibs && pre.version < data.version))
                  && (!pre.sharedLibs ==> |chosen| == 1)
                  && (pre.sharedLibs ==> (|chosen| == 2 <==> data.version > pre.version)))
            && (exists a | a in chosen ::
                  a.version >= pre.version
                  && forall f | f in files && Offers(env, st.pre, f, name) :: a.version >= f.apex.value.version)
  {
    hide ScanDataAll, Selects, Narrow;
    DataScanKeepsNewest(env, st, files, name);
    DataScanIsConsistent(env, st, files);
    var st', pre := ScanDataAll(env, st, files), st.pre[name];
    var chosen := Chosen(env, st', FilesOf(st', name));
    if name in st'.data {
      var data := st'.data[name];
      var f :| f in files && Offers(env, st.pre, f, name) && f.apex.value == data;
      InRangeIsHarmless(pre, data);
      ChoiceFollowsRule(env, st', name);
      assert chosen == Rule(pre, data);
      assert (if data.version >= pre.version then data else pre) in chosen;
    } else {
      assert chosen == [pre];
      assert pre in chosen;
    }
  }

  /** A brand-new package has no pre-installed copy: its newest accepted data file is activated. */
  lemma BrandNewSelection(env: Env, st: Stores, files: seq<File>, name: string)
    requires st.data == map[] && name !in st.pre
    requires exists f | f in files :: Offers(env, st.pre, f, name)
    ensures ScanDataAll(env, st, files).pre == st.pre && name in ScanDataAll(env, st, files).data
    ensures var st' := ScanDataAll(env, st, files);
            Chosen(env, st', FilesOf(st', name)) == [st'.data[name]]
            && IsBest(env, st.pre, files, name, st'.data[name])
  {
    hide ScanDataAll;
    DataScanKeepsNewest(env, st, files, name);
  }

  // ---------------------------------------------------------------------
  // The repository as it runs
  // ---------------------------------------------------------------------

  class Repository {
    const env: Env
    var pre: map<string, Apex>
    var data: map<string, Apex>
    var partitions: map<string, Partition>
    var keys: map<string, set<string>>

    constructor (env: Env)
      ensures this.env == env && View() == Stores(map[], map[], map[], map[])
    {
      this.env := env;
      pre, data, partitions, keys := map[], map[], map[], map[];
    }

    function View(): Stores
      reads this
    {
      Stores(pre, data, partitions, keys)
    }

    /** ScanBuiltInDir; a Fatal outcome is an abort of the process. */
    method ScanBuiltInDir(files: seq<File>, partition: Partition) returns (r: ScanStep)
      modifies this
      ensures var spec := ScanBuiltInAll(env, old(View()), files, partition);
              match spec
              case Continue(st) => r.Continue? && View() == st.(keys := map[])
              case _ => r == spec
    {
      var k := 0;
      while k < |files|
        invariant 0 <= k <= |files|
        invariant ScanBuiltInAll(env, old(View()), files[..k], partition) == Continue(View())
      {
        var step := ScanBuiltIn(env, View(), files[k], partition);
        assert files[..k + 1][..k] == files[..k];
        if !step.Continue? {
          ScanStopsAt(env, old(View()), files, partition, k + 1);
          return step;
        }
        pre, data := step.stores.pre, step.stores.data;
        partitions, keys := step.stores.partitions, step.stores.keys;
        k := k + 1;
      }
      assert files[..k] == files;
      keys := map[];
      return Continue(View());
    }

    /** AddPreInstalledApex, over the directories in the order they are listed. */
    method AddPreInstalledApex(dirs: seq<Directory>) returns (r: ScanStep)
      modifies this
      ensures match ScanDirs(env, old(View()), dirs)
              case Continue(st) => r.Continue? && View() == st
              case failed => r == failed
    {
      var k := 0;
      while k < |dirs|
        invariant 0 <= k <= |dirs|
        invariant ScanDirs(env, old(View()), dirs[..k]) == Continue(View())
      {
        hide ScanBuiltInAll;
        assert dirs[..k + 1][..k] == dirs[..k];
        var step := ScanBuiltInDir(dirs[k].files, dirs[k].partition);
        if !step.Continue? {
          DirsStopAt(env, old(View()), dirs, k + 1);
          return step;
        }
        k := k + 1;
      }
      assert dirs[..k] == dirs;
      return Continue(View());
    }

    /** AddDataApex */
    method AddDataApex(files: seq<File>)
      modifies this
      ensures View() == ScanDataAll(env, old(View()), files)
    {
      var k := 0;
      while k < |files|
        invariant 0 <= k <= |files|
        invariant View() == ScanDataAll(env, old(View()), files[..k])
      {
        var f := files[k];
        assert files[..k + 1][..k] == files[..k];
        k := k + 1;
        if f.apex.None? {
          continue;
        }
        var a := f.apex.value;
        if a.name in pre {
          if pre[a.name].key != a.key {
            continue;
          }
        } else if BrandNew(env, a) {
          partitions := Emplace(partitions, a.name, env.verifyBrandNew(a).value);
        } else {
          continue;
        }
        if EndsWith(a.path, DECOMPRESSED_SUFFIX) {
          continue;
        }
        if a.name !in data {
          data := data[a.name := a];
          continue;
        }
        if a.version > data[a.name].version {
          data := data[a.name := a];
        }
      }
      assert files[..k] == files;
    }

    /** SelectApexForActivation, over the grouped names in the order they are listed. */
    method SelectApexForActivation(names: seq<string>) returns (list: seq<Apex>)
      requires forall k | 0 <= k < |names| :: names[k] in pre || names[k] in data
      ensures list == ChosenAll(env, View(), names)
    {
      list := [];
      var k := 0;
      while k < |names|
        invariant 0 <= k <= |names|
        invariant list == ChosenAll(env, View(), names[..k])
      {
        hide Narrow, Selects, ChosenAll;
        ghost var before := list;
        ChosenMore(env, View(), names, k);
        var files := FilesOf(View(), names[k]);
        if |files| == 1 {
          list := list + [files[0]];
        } else {
          var version0, version1 := Narrow(files[0].version), Narrow(files[1].version);
          if Selects(env, View(), files[0], version1) {
            list := list + [files[0]];
          }
          if Selects(env, View(), files[1], version0) {
            list := list + [files[1]];
          }
          assert list == before + Chosen(env, View(), files);
        }
        k := k + 1;
      }
      assert names[..k] == names;
    }
  }

  lemma ChosenMore(env: Env, st: Stores, names: seq<string>, k: nat)
    requires k < |names| && forall j | 0 <= j < |names| :: names[j] in st.pre || names[j] in st.data
    ensures (ChosenAll(env, st, names[..k + 1])
          == ChosenAll(env, st, names[..k]) + Chosen(env, st, FilesOf(st, names[k])))
  {
    hide Chosen, FilesOf;
    assert names[..k + 1][..k] == names[..k];
  }

  function ChosenAll(env: Env, st: Stores, names: seq<string>): seq<Apex>
    requires forall k | 0 <= k < |names| :: names[k] in st.pre || names[k] in st.data
  {
    if names == [] then []
    else
      ChosenAll(env, st, names[..|names| - 1]) + Chosen(env, st, FilesOf(st, names[|names| - 1]))
  }

  lemma {:induction false} DirsStopAt(env: Env, st: Stores, dirs: seq<Directory>, k: nat)
    requires k <= |dirs| && !ScanDirs(env, st, dirs[..k]).Continue?
    ensures ScanDirs(env, st, dirs) == ScanDirs(env, st, dirs[..k])
    decreases |dirs| - k
  {
    hide ScanBuiltInAll;
    if k == |dirs| {
      assert dirs[..k] == dirs;
    } else {
      assert dirs[..k + 1][..k] == dirs[..k];
      DirsStopAt(env, st, dirs, k + 1);
    }
  }

  lemma {:induction false} ScanStopsAt(env: Env, st: Stores, files: seq<File>, partition: Partition, k: nat)
    requires k <= |files| && !ScanBuiltInAll(env, st, files[..k], partition).Continue?
    ensures ScanBuiltInAll(env, st, files, partition) == ScanBuiltInAll(env, st, files[..k], partition)
    decreases |files| - k
  {
    if k == |files| {
      assert files[..k] == files;
    } else {
      assert files[..k + 1][..k] == files[..k];
      ScanStopsAt(env, st, files, partition, k + 1);
    }
  }
}
