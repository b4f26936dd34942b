/**
 What staging a session does to the active package directory
 (StagePackagesImpl and RemovePreviouslyActiveApexFiles in
 research/aosp-src/apexd.cpp).
 */
module ApexStaging {
  import opened ApexTypes

  /**
   Names of files in the package directories: `<name>@<version>.apex`, which
   determines name and version, or anything else that ends in `.apex`.
   */
  datatype FileName = PackageId(name: string, version: int) | Other(text: string)

  type Dir = map<FileName, ApexFile>

  function Dest(a: ApexFile): FileName {
    PackageId(a.name, a.version)
  }

  function Dests(apexes: seq<ApexFile>): set<FileName> {
    set a | a in apexes :: Dest(a)
  }

  /** The linking loop: each package replaces whatever stood at its destination. */
  function Linked(d: Dir, apexes: seq<ApexFile>): Dir {
    if apexes == [] then d
    else Linked(d, apexes[..|apexes| - 1])[Dest(apexes[|apexes| - 1]) := apexes[|apexes| - 1]]
  }

  function RemoveOld(d: Dir, affected: set<string>, keep: set<FileName>): Dir {
    map p | p in d && (d[p].name !in affected || p in keep) :: d[p]
  }

  function Stage(d: Dir, apexes: seq<ApexFile>): Dir {
    RemoveOld(Linked(d, apexes), Names(apexes), Dests(apexes))
  }

  function Without(d: Dir, names: set<string>): Dir {
    map p | p in d && d[p].name !in names :: d[p]
  }

  /** The session's own files, as a directory. */
  function StagedFiles(apexes: seq<ApexFile>): Dir {
    Linked(map[], apexes)
  }

  lemma DestsOfLast(apexes: seq<ApexFile>)
    requires apexes != []
    ensures var front, a := apexes[..|apexes| - 1], apexes[|apexes| - 1];
            Dests(apexes) == Dests(front) + {Dest(a)}
  {
    assert apexes == apexes[..|apexes| - 1] + [apexes[|apexes| - 1]];
  }

  /** One more package linked. */
  lemma LinkedMore(d: Dir, apexes: seq<ApexFile>, k: nat)
    requires k < |apexes|
    ensures Linked(d, apexes[..k + 1]) == Linked(d, apexes[..k])[Dest(apexes[k]) := apexes[k]]
    ensures Dests(apexes[..k + 1]) == Dests(apexes[..k]) + {Dest(apexes[k])}
    ensures Names(apexes[..k + 1]) == Names(apexes[..k]) + {apexes[k].name}
  {
    assert apexes[..k + 1][..k] == apexes[..k];
    assert apexes[..k + 1] == apexes[..k] + [apexes[k]];
  }

  lemma {:induction false} LinkedIsOverlay(d: Dir, apexes: seq<ApexFile>)
    ensures Linked(d, apexes) == d + StagedFiles(apexes)
  {
    if apexes != [] {
      LinkedIsOverlay(d, apexes[..|apexes| - 1]);
    }
  }

  lemma {:induction false} StagedFilesKeys(apexes: seq<ApexFile>)
    ensures StagedFiles(apexes).Keys == Dests(apexes)
    ensures forall p | p in StagedFiles(apexes) ::
              StagedFiles(apexes)[p] in apexes && Dest(StagedFiles(apexes)[p]) == p
  {
    if apexes != [] {
      StagedFilesKeys(apexes[..|apexes| - 1]);
      DestsOfLast(apexes);
    }
  }

  /** Staging drops the old files of the session's packages and adds its own. */
  lemma StageReplacesPackages(d: Dir, apexes: seq<ApexFile>)
    ensures Stage(d, apexes) == Without(d, Names(apexes)) + StagedFiles(apexes)
  {
    LinkedIsOverlay(d, apexes);
    StagedFilesKeys(apexes);
    assert forall p | p in StagedFiles(apexes) :: StagedFiles(apexes)[p].name in Names(apexes);
  }

  /** With distinct names every package of the session is there, under its own id. */
  lemma {:induction false} StagedFilesOfDistinctNames(apexes: seq<ApexFile>)
    requires forall i, j | 0 <= i < j < |apexes| :: apexes[i].name != apexes[j].name
    ensures forall a | a in apexes :: Dest(a) in StagedFiles(apexes) && StagedFiles(apexes)[Dest(a)] == a
  {
    if apexes != [] {
      StagedFilesOfDistinctNames(apexes[..|apexes| - 1]);
    }
  }

  /** A boot that stages again what an interrupted boot staged changes nothing. */
  lemma StageTwice(d: Dir, apexes: seq<ApexFile>)
    ensures Stage(Stage(d, apexes), apexes) == Stage(d, apexes)
  {
    StageReplacesPackages(d, apexes);
    StageReplacesPackages(Stage(d, apexes), apexes);
    StagedFilesKeys(apexes);
    var s := StagedFiles(apexes);
    assert forall p | p in s :: s[p].name in Names(apexes);
    assert Without(Without(d, Names(apexes)) + s, Names(apexes)) + s == Without(d, Names(apexes)) + s;
  }

  // ---------------------------------------------------------------------
  // Several sessions
  // ---------------------------------------------------------------------

  function StageAll(d: Dir, sessions: seq<seq<ApexFile>>): Dir {
    if sessions == [] then d
    else Stage(StageAll(d, sessions[..|sessions| - 1]), sessions[|sessions| - 1])
  }

  lemma {:induction false} StageAllConcat(d: Dir, a: seq<seq<ApexFile>>, b: seq<seq<ApexFile>>)
    ensures StageAll(d, a + b) == StageAll(StageAll(d, a), b)
    decreases |b|
  {
    hide Stage;
    if b == [] {
      assert a + b == a;
    } else {
      assert (a + b)[..|a + b| - 1] == a + b[..|b| - 1];
      StageAllConcat(d, a, b[..|b| - 1]);
    }
  }

  predicate Affected(sessions: seq<seq<ApexFile>>, name: string) {
    exists s | s in sessions :: name in Names(s)
  }

  predicate StagesAt(sessions: seq<seq<ApexFile>>, p: FileName) {
    exists s | s in sessions :: p in StagedFiles(s)
  }

  ghost predicate PairwiseDisjoint(sessions: seq<seq<ApexFile>>) {
    forall i, j | 0 <= i < j < |sessions| :: Names(sessions[i]) !! Names(sessions[j])
  }

  /**
   `r` is the old files of unaffected packages plus every staged file. Only which
   sessions there are matters here, not where they stand in the list.
   */
  ghost predicate IsOutcome(d: Dir, sessions: seq<seq<ApexFile>>, r: Dir) {
    && (forall s, p | s in sessions && p in StagedFiles(s) :: p in r && r[p] == StagedFiles(s)[p])
    && (forall p | p in r && !StagesAt(sessions, p) ::
          p in d && r[p] == d[p] && !Affected(sessions, d[p].name))
    && (forall p | p in d && !StagesAt(sessions, p) && !Affected(sessions, d[p].name) :: p in r)
  }

  lemma FilesBearNames(apexes: seq<ApexFile>, p: FileName)
    requires p in StagedFiles(apexes)
    ensures p.PackageId? && p.name in Names(apexes) && StagedFiles(apexes)[p].name == p.name
  {
    StagedFilesKeys(apexes);
  }

  lemma OutcomeStep(d: Dir, front: seq<seq<ApexFile>>, last: seq<ApexFile>, r: Dir)
    requires IsOutcome(d, front, r)
    requires forall i | 0 <= i < |front| :: Names(front[i]) !! Names(last)
    ensures IsOutcome(d, front + [last], Without(r, Names(last)) + StagedFiles(last))
  {
    hide StagedFiles, Names;
    var all := front + [last];
    var r' := Without(r, Names(last)) + StagedFiles(last);
    forall s, p | s in all && p in StagedFiles(s)
      ensures p in r' && r'[p] == StagedFiles(s)[p]
    {
      FilesBearNames(s, p);
      if s in front && p in StagedFiles(last) {
        FilesBearNames(last, p);
      }
    }
    forall p | p in r' && !StagesAt(all, p)
      ensures p in d && r'[p] == d[p] && !Affected(all, d[p].name)
    {
      assert last in all;
      assert forall s | s in front :: s in all;
      assert p in r && r'[p] == r[p] && !StagesAt(front, p);
    }
    forall p | p in d && !StagesAt(all, p) && !Affected(all, d[p].name)
      ensures p in r'
    {
      assert last in all;
      assert forall s | s in front :: s in all;
      assert !StagesAt(front, p) && !Affected(front, d[p].name);
    }
  }

  lemma {:induction false} StageAllOutcome(d: Dir, sessions: seq<seq<ApexFile>>)
    requires PairwiseDisjoint(sessions)
    ensures IsOutcome(d, sessions, StageAll(d, sessions))
  {
    if sessions != [] {
      var front, last := sessions[..|sessions| - 1], sessions[|sessions| - 1];
      StageAllOutcome(d, front);
      StageReplacesPackages(StageAll(d, front), last);
      OutcomeStep(d, front, last, StageAll(d, front));
      assert sessions == front + [last];
    }
  }

  lemma OutcomeIsUnique(d: Dir, a: seq<seq<ApexFile>>, b: seq<seq<ApexFile>>, r: Dir, r': Dir)
    requires forall s :: s in a <==> s in b
    requires IsOutcome(d, a, r) && IsOutcome(d, b, r')
    ensures r == r'
  {
    hide StagedFiles, Names;
    forall p
      ensures p in r <==> p in r'
      ensures p in r ==> r[p] == r'[p]
    {
      assert StagesAt(a, p) <==> StagesAt(b, p);
      assert p in d ==> (Affected(a, d[p].name) <==> Affected(b, d[p].name));
      if StagesAt(a, p) {
        var s :| s in a && p in StagedFiles(s);
      }
    }
  }

  /** The order in which disjoint sessions are staged does not matter. */
  lemma StagingOrderIrrelevant(d: Dir, a: seq<seq<ApexFile>>, b: seq<seq<ApexFile>>)
    requires PairwiseDisjoint(a) && PairwiseDisjoint(b)
    requires forall s :: s in a <==> s in b
    ensures StageAll(d, a) == StageAll(d, b)
  {
    StageAllOutcome(d, a);
    StageAllOutcome(d, b);
    OutcomeIsUnique(d, a, b, StageAll(d, a), StageAll(d, b));
  }

  /** Without disjointness it does: the later session wins. */
  lemma StagingOrderMattersOnOverlap(name: string)
    ensures var a, b := [ApexFile(name, 1, 0)], [ApexFile(name, 2, 0)];
            StageAll(map[], [a, b]) != StageAll(map[], [b, a])
  {
    var a, b := [ApexFile(name, 1, 0)], [ApexFile(name, 2, 0)];
    StageReplacesPackages(StageAll(map[], [a]), b);
    StageReplacesPackages(StageAll(map[], [b]), a);
    StagedFilesKeys(a);
    StagedFilesKeys(b);
    assert [a, b][..1] == [a] && [b, a][..1] == [b];
    var p := PackageId(name, 2);
    assert p in StagedFiles(b) && p in StageAll(map[], [a, b]);
    StageReplacesPackages(map[], b);
    assert [b][..0] == [];
    assert p !in StagedFiles(a);
  }
}
