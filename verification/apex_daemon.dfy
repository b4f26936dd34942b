/**
 The daemon's operations on its sessions, the active package directory and the
 backup of it (research/aosp-src/apexd.cpp).

 `...Spec` functions give each operation as a function of the state and of what
 the file system and the session store answered; `History` follows whole runs of
 operations; class `Apexd` is the operations as they run.
 */
module ApexDaemon {
  import opened Wrappers
  import opened ApexTypes
  import opened ApexSessions
  import opened ApexStaging

  datatype Config = Config(checkpoints: bool, inCheckpointMode: bool, fingerprint: string)

  /** `None` is a directory that does not exist. */
  datatype World = World(sessions: Sessions, active: Option<Dir>, backup: Option<Dir>)

  function Packages(d: Option<Dir>): set<ApexFile> {
    if d.None? then {} else d.value.Values
  }

  function Emptied(d: Option<Dir>): Option<Dir> {
    if d.None? then None else Some(map[])
  }

  function MarkAll(ss: Sessions, ids: set<int>, state: SessionState): Sessions {
    map i | i in ss :: if i in ids then ss[i].(state := state) else ss[i]
  }

  lemma MarkOneMore(ss: Sessions, ids: set<int>, id: int, state: SessionState, ok: bool)
    ensures Mark(MarkAll(ss, ids, state), id, state, ok)
         == MarkAll(ss, if ok then ids + {id} else ids, state)
  {
  }

  function Mark(ss: Sessions, id: int, state: SessionState, commitOk: bool): Sessions {
    if commitOk && id in ss then ss[id := ss[id].(state := state)] else ss
  }

  // ---------------------------------------------------------------------
  // Backup and restore
  // ---------------------------------------------------------------------

  /** Backup links every package under its id, so two files with one id cannot be backed up. */
  predicate DistinctIds(d: Dir) {
    forall p, q | p in d && q in d && p != q :: Dest(d[p]) != Dest(d[q])
  }

  function BackupOf(d: Dir): Dir
    requires DistinctIds(d)
  {
    map p | p in d :: Dest(d[p]) := d[p]
  }

  lemma BackupOfPackages(d: Dir)
    requires DistinctIds(d)
    ensures BackupOf(d).Values == d.Values
  {
    var b := BackupOf(d);
    forall f | f in d.Values
      ensures f in b.Values
    {
      var p :| p in d && d[p] == f;
      assert Dest(d[p]) in b && b[Dest(d[p])] == f;
    }
  }

  /** `b` links exactly the files of `d` named in `done`, no two under one id. */
  ghost predicate Backs(d: Dir, done: set<FileName>, b: Dir) {
    && (forall p | p in d && p in done :: Dest(d[p]) in b && b[Dest(d[p])] == d[p])
    && (forall q | q in b :: exists p :: p in d && p in done && Dest(d[p]) == q)
    && (forall p, q | p in d && q in d && p in done && q in done && p != q :: Dest(d[p]) != Dest(d[q]))
  }

  lemma BacksNone(d: Dir)
    ensures Backs(d, {}, map[])
  {
  }

  lemma BacksMore(d: Dir, done: set<FileName>, b: Dir, p: FileName)
    requires Backs(d, done, b) && p in d && p !in done && Dest(d[p]) !in b
    ensures Backs(d, done + {p}, b[Dest(d[p]) := d[p]])
  {
  }

  lemma BacksAll(d: Dir, done: set<FileName>, b: Dir)
    requires Backs(d, done, b) && d.Keys <= done
    ensures DistinctIds(d) && b == BackupOf(d)
  {
  }

  /** LinkFails: a link failed, and the clean-up left `left` in the backup directory. */
  datatype BackupIo = CreateFails | CleanFails | LinkFails(left: Dir) | BackupWorks

  /** BackupActivePackages: the new backup directory, and whether a backup was completed. */
  function BackupSpec(active: Option<Dir>, backup: Option<Dir>, io: BackupIo): (Option<Dir>, bool) {
    if io.CreateFails? then (backup, false)
    else
      var made := if backup.None? then Some(map[]) else backup;
      if active.None? then (made, true)
      else if io.CleanFails? then (made, false)
      else if io.LinkFails? then (Some(io.left), false)
      else if !DistinctIds(active.value) then (Some(map[]), false)
      else (Some(BackupOf(active.value)), true)
  }

  datatype RestoreIo = Blocked | RenameFails | ChmodFails | RestoreWorks

  /** RestoreActivePackages: new active and backup directories, and success. */
  function RestoreSpec(active: Option<Dir>, backup: Option<Dir>, io: RestoreIo)
    : (Option<Dir>, Option<Dir>, bool)
  {
    if backup.None? || active.None? || io.Blocked? then (active, backup, false)
    else if io.RenameFails? then (Some(map[]), backup, false)
    else (backup, None, io.RestoreWorks?)
  }

  // ---------------------------------------------------------------------
  // Submitting and marking successful
  // ---------------------------------------------------------------------

  /** `files`: the session's packages, if they could be opened; `verified`: every check but the overlap. */
  datatype SubmitIo = SubmitIo(backup: BackupIo, files: Option<seq<ApexFile>>, verified: bool, commitOk: bool)

  ghost function SubmitSpec(cfg: Config, w: World, id: int, hasRollback: bool, isRollback: bool, io: SubmitIo)
    : (World, bool)
  {
    if id == 0 || (hasRollback && isRollback) then (w, false)
    else
      var (backup', backedUp) := if cfg.checkpoints then (w.backup, true)
                                 else BackupSpec(w.active, w.backup, io.backup);
      var w1 := w.(backup := backup');
      if !backedUp || io.files.None? || !io.verified
         || !NoOverlap(io.files.value, w.sessions) || !io.commitOk then (w1, false)
      else
        (w1.(sessions := w.sessions[id := Session(VERIFIED, io.files.value, cfg.fingerprint)]), true)
  }

  function ReadySpec(w: World, id: int, commitOk: bool): (World, bool) {
    if id !in w.sessions then (w, false)
    else if w.sessions[id].state == STAGED then (w, true)
    else if w.sessions[id].state == VERIFIED
      then (w.(sessions := Mark(w.sessions, id, STAGED, commitOk)), commitOk)
    else (w, false)
  }

  function AbortSpec(w: World, id: int, deleteOk: bool): (World, bool) {
    if id !in w.sessions || !Busy(w.sessions[id]) then (w, false)
    else if deleteOk then (w.(sessions := w.sessions - {id}), true)
    else (w, false)
  }

  datatype SuccessIo = SuccessIo(cleanOk: bool, commitOk: bool)

  function SuccessSpec(w: World, id: int, io: SuccessIo): (World, bool) {
    if id !in w.sessions then (w, false)
    else if w.sessions[id].state == SUCCESS then (w, true)
    else if w.sessions[id].state != ACTIVATED || !io.cleanOk then (w, false)
    else (World(Mark(w.sessions, id, SUCCESS, io.commitOk), w.active, Emptied(w.backup)), io.commitOk)
  }

  // ---------------------------------------------------------------------
  // Activation
  // ---------------------------------------------------------------------

  /**
   Rejected: nothing was touched; StageLinkFails: link k failed, and the clean-up could
   not unlink the staged files in `kept`; UnlinkFails: staged, but old files remain.
   */
  datatype StageIo =
    | Rejected
    | StageLinkFails(k: nat, unlinked: bool, kept: set<FileName>)
    | UnlinkFails(left: Dir)
    | StageWorks

  function OrEmpty(d: Option<Dir>): Dir {
    if d.None? then map[] else d.value
  }

  /** StagePackagesImpl: the new active directory and success. */
  function StageSpec(active: Option<Dir>, apexes: seq<ApexFile>, io: StageIo): (Option<Dir>, bool) {
    if apexes == [] || io.Rejected? then (active, false)
    else
      var d := OrEmpty(active);
      match io
      case StageLinkFails(k, unlinked, kept) =>
        if k >= |apexes| then (Some(Stage(d, apexes)), true)
        else
          var part := Linked(d, apexes[..k]);
          var part' := if unlinked then part - {Dest(apexes[k])} else part;
          (Some(part' - (Dests(apexes[..k]) - kept)), false)
      case UnlinkFails(left) => (Some(left), false)
      case _ => (Some(Stage(d, apexes)), true)
  }

  datatype ActivateIo = ActivateIo(scanOk: bool, stage: StageIo, commitOk: bool)

  function ActivateOne(cfg: Config, w: World, id: int, io: ActivateIo): World {
    if id !in w.sessions then w
    else
      var s := w.sessions[id];
      if s.fingerprint != cfg.fingerprint || (cfg.checkpoints && !cfg.inCheckpointMode) || !io.scanOk then
        w.(sessions := Mark(w.sessions, id, ACTIVATION_FAILED, io.commitOk))
      else
        var (active', ok) := StageSpec(w.active, s.apexes, io.stage);
        World(Mark(w.sessions, id, if ok then ACTIVATED else ACTIVATION_FAILED, io.commitOk),
              active', w.backup)
  }

  function ActivateFrom(cfg: Config, w: World, order: seq<int>, ios: seq<ActivateIo>): World
    requires |ios| == |order|
  {
    if order == [] then w
    else
      var n := |order| - 1;
      ActivateOne(cfg, ActivateFrom(cfg, w, order[..n], ios[..n]), order[n], ios[n])
  }

  function Members(order: seq<int>): set<int> {
    set i | i in order
  }

  predicate Distinct(order: seq<int>) {
    forall i, j | 0 <= i < j < |order| :: order[i] != order[j]
  }

  /**
   The sessions ActivateStagedSessions visits: the STAGED ones in some order, and with
   checkpoints the ACTIVATED ones behind them, in some order.
   */
  predicate IsActivationOrder(cfg: Config, ss: Sessions, order: seq<int>) {
    && Distinct(order)
    && Members(order) == InState(ss, STAGED) + (if cfg.checkpoints then InState(ss, ACTIVATED) else {})
    && forall i, j | 0 <= i < j < |order| && order[i] in ss && order[j] in ss ::
         ss[order[i]].state == ACTIVATED ==> ss[order[j]].state != STAGED
  }

  /** The sessions in one state, each once. */
  predicate Lists(ss: Sessions, order: seq<int>, state: SessionState) {
    Distinct(order) && Members(order) == InState(ss, state)
  }

  lemma ListedIs(ss: Sessions, order: seq<int>, state: SessionState)
    requires Lists(ss, order, state)
    ensures forall i | 0 <= i < |order| :: order[i] in ss && ss[order[i]].state == state
  {
    forall i | 0 <= i < |order|
      ensures order[i] in ss && ss[order[i]].state == state
    {
      assert order[i] in Members(order);
    }
  }

  /** The STAGED sessions, and with checkpoints the ACTIVATED ones behind them, are an activation order. */
  lemma ListingIsOrder(cfg: Config, ss: Sessions, staged: seq<int>, activated: seq<int>)
    requires Lists(ss, staged, STAGED) && Lists(ss, activated, ACTIVATED)
    ensures IsActivationOrder(cfg, ss, staged + if cfg.checkpoints then activated else [])
  {
    ListedIs(ss, staged, STAGED);
    ListedIs(ss, activated, ACTIVATED);
    MembersOfConcat(staged, if cfg.checkpoints then activated else []);
    hide InState, Members;
    assert Members([]) == {} by {
      NoMembers([]);
    }
  }

  function ApexesOf(ss: Sessions, order: seq<int>): seq<seq<ApexFile>>
    requires forall k | 0 <= k < |order| :: order[k] in ss
  {
    seq(|order|, k requires 0 <= k < |order| => ss[order[k]].apexes)
  }

  predicate Stageable(cfg: Config, ss: Sessions, order: seq<int>) {
    Distinct(order)
    && forall k | 0 <= k < |order| ::
         order[k] in ss && ss[order[k]].fingerprint == cfg.fingerprint && ss[order[k]].apexes != []
  }

  predicate AllWell(ios: seq<ActivateIo>) {
    forall k | 0 <= k < |ios| :: ios[k] == ActivateIo(true, StageWorks, true)
  }

  lemma ActivateOneWell(cfg: Config, w: World, id: int)
    requires id in w.sessions && w.sessions[id].fingerprint == cfg.fingerprint && w.sessions[id].apexes != []
    requires cfg.checkpoints ==> cfg.inCheckpointMode
    ensures (ActivateOne(cfg, w, id, ActivateIo(true, StageWorks, true))
          == World(Mark(w.sessions, id, ACTIVATED, true),
                   Some(Stage(OrEmpty(w.active), w.sessions[id].apexes)), w.backup))
  {
    hide Stage;
  }

  lemma MarkedMore(ss: Sessions, front: seq<int>, id: int)
    requires id in ss && id !in front
    ensures Mark(MarkAll(ss, Members(front), ACTIVATED), id, ACTIVATED, true)
         == MarkAll(ss, Members(front + [id]), ACTIVATED)
    ensures id in MarkAll(ss, Members(front), ACTIVATED)
    ensures MarkAll(ss, Members(front), ACTIVATED)[id] == ss[id]
  {
    MembersOfLonger(front, id);
    MarkOneMore(ss, Members(front), id, ACTIVATED, true);
  }

  lemma ApexesMore(ss: Sessions, d: Dir, order: seq<int>)
    requires order != [] && forall k | 0 <= k < |order| :: order[k] in ss
    ensures var n := |order| - 1;
            && (forall k | 0 <= k < n :: order[..n][k] in ss)
            && StageAll(d, ApexesOf(ss, order)) == Stage(StageAll(d, ApexesOf(ss, order[..n])), ss[order[n]].apexes)
  {
    var n := |order| - 1;
    hide Stage;
    assert ApexesOf(ss, order)[..n] == ApexesOf(ss, order[..n]);
  }

  lemma {:induction false} ActivationOfAll(cfg: Config, w: World, order: seq<int>, ios: seq<ActivateIo>)
    requires |ios| == |order| && Stageable(cfg, w.sessions, order) && AllWell(ios)
    requires cfg.checkpoints ==> cfg.inCheckpointMode
    ensures var w' := ActivateFrom(cfg, w, order, ios);
            w'.sessions == MarkAll(w.sessions, Members(order), ACTIVATED)
            && w'.backup == w.backup
            && w'.active == if order == [] then w.active
                            else Some(StageAll(OrEmpty(w.active), ApexesOf(w.sessions, order)))
  {
    hide StageAll, ActivateOne, Mark, MarkAll, Members, ApexesOf, Stage;
    if order == [] {
      NothingMarked(w.sessions);
    } else {
      var n := |order| - 1;
      var front, id := order[..n], order[n];
      ActivationOfAll(cfg, w, front, ios[..n]);
      assert order == front + [id] && id !in front;
      MarkedMore(w.sessions, front, id);
      ApexesMore(w.sessions, OrEmpty(w.active), order);
      ActivateOneWell(cfg, ActivateFrom(cfg, w, front, ios[..n]), id);
      NothingStaged(OrEmpty(w.active), w.sessions);
    }
  }

  lemma NothingMarked(ss: Sessions)
    ensures MarkAll(ss, Members([]), ACTIVATED) == ss
  {
  }

  lemma NothingStaged(d: Dir, ss: Sessions)
    ensures StageAll(d, ApexesOf(ss, [])) == d
  {
  }

  lemma StagedSessionsAreDisjoint(ss: Sessions, order: seq<int>)
    requires Safe(ss) && Distinct(order)
    requires forall k | 0 <= k < |order| :: order[k] in ss && ss[order[k]].state == STAGED
    ensures PairwiseDisjoint(ApexesOf(ss, order))
  {
    var sets := ApexesOf(ss, order);
    forall i, j | 0 <= i < j < |sets|
      ensures Names(sets[i]) !! Names(sets[j])
    {
      assert order[i] != order[j];
    }
  }

  /**
   When every staged session stages well, the active directory ends as the old
   files of unaffected packages plus the staged files, and no order of the
   sessions gives anything else. It rests on the invariant of the protocol.
   */
  lemma ActivationOutcome(cfg: Config, w: World, order: seq<int>, order': seq<int>,
                          ios: seq<ActivateIo>, ios': seq<ActivateIo>)
    requires !cfg.checkpoints && Safe(w.sessions)
    requires IsActivationOrder(cfg, w.sessions, order) && IsActivationOrder(cfg, w.sessions, order')
    requires Stageable(cfg, w.sessions, order) && Stageable(cfg, w.sessions, order')
    requires |ios| == |order| && |ios'| == |order'| && AllWell(ios) && AllWell(ios')
    ensures ActivateFrom(cfg, w, order, ios) == ActivateFrom(cfg, w, order', ios')
    ensures order != [] ==>
              ActivateFrom(cfg, w, order, ios).active.Some?
              && IsOutcome(OrEmpty(w.active), ApexesOf(w.sessions, order),
                           ActivateFrom(cfg, w, order, ios).active.value)
    ensures InState(ActivateFrom(cfg, w, order, ios).sessions, STAGED) == {}
  {
    ActivationOfAll(cfg, w, order, ios);
    ActivationOfAll(cfg, w, order', ios');
    hide ActivateFrom;
    MembersAreStaged(w.sessions, order);
    MembersAreStaged(w.sessions, order');
    SameMembers(order, order');
    StagedSessionsAreDisjoint(w.sessions, order);
    StagedSessionsAreDisjoint(w.sessions, order');
    StageAllOutcome(OrEmpty(w.active), ApexesOf(w.sessions, order));
    SameApexes(w.sessions, order, order');
    SameApexes(w.sessions, order', order);
    StagingOrderIrrelevant(OrEmpty(w.active), ApexesOf(w.sessions, order), ApexesOf(w.sessions, order'));
  }

  /**
   With checkpoints the ACTIVATED sessions are staged again behind the STAGED ones. The
   order within each group does not matter when the ACTIVATED ones are disjoint.
   */
  lemma CheckpointOutcome(cfg: Config, w: World, staged: seq<int>, again: seq<int>,
                          staged': seq<int>, again': seq<int>, ios: seq<ActivateIo>)
    requires cfg.checkpoints && cfg.inCheckpointMode && Safe(w.sessions)
    requires Distinct(staged) && Distinct(staged') && Stageable(cfg, w.sessions, staged + again)
    requires Members(staged) == Members(staged') == InState(w.sessions, STAGED)
    requires Members(again) == Members(again') && Stageable(cfg, w.sessions, staged' + again')
    requires |ios| == |staged + again| == |staged' + again'| && AllWell(ios)
    requires (forall k | 0 <= k < |again| :: again[k] in w.sessions) && PairwiseDisjoint(ApexesOf(w.sessions, again))
    requires (forall k | 0 <= k < |again'| :: again'[k] in w.sessions) && PairwiseDisjoint(ApexesOf(w.sessions, again'))
    ensures ActivateFrom(cfg, w, staged + again, ios) == ActivateFrom(cfg, w, staged' + again', ios)
  {
    hide *;
    MembersOfConcat(staged, again);
    MembersOfConcat(staged', again');
    SameMembers(staged + again, staged' + again');
    assert InState(w.sessions, STAGED) + {} == InState(w.sessions, STAGED);
    MembersAreStaged(w.sessions, staged);
    MembersAreStaged(w.sessions, staged');
    StagedSessionsAreDisjoint(w.sessions, staged);
    StagedSessionsAreDisjoint(w.sessions, staged');
    TwoGroups(w.sessions, OrEmpty(w.active), staged, again, staged', again');
    ActivationOfAll(cfg, w, staged + again, ios);
    ActivationOfAll(cfg, w, staged' + again', ios);
  }

  lemma TwoGroups(ss: Sessions, d: Dir, a: seq<int>, b: seq<int>, a': seq<int>, b': seq<int>)
    requires Members(a) == Members(a') && Members(b) == Members(b')
    requires forall k | 0 <= k < |a| :: a[k] in ss
    requires forall k | 0 <= k < |b| :: b[k] in ss
    requires forall k | 0 <= k < |a'| :: a'[k] in ss
    requires forall k | 0 <= k < |b'| :: b'[k] in ss
    requires PairwiseDisjoint(ApexesOf(ss, a)) && PairwiseDisjoint(ApexesOf(ss, a'))
    requires PairwiseDisjoint(ApexesOf(ss, b)) && PairwiseDisjoint(ApexesOf(ss, b'))
    ensures forall k | 0 <= k < |a + b| :: (a + b)[k] in ss
    ensures forall k | 0 <= k < |a' + b'| :: (a' + b')[k] in ss
    ensures StageAll(d, ApexesOf(ss, a + b)) == StageAll(d, ApexesOf(ss, a' + b'))
  {
    hide *;
    SameApexes(ss, a, a');
    SameApexes(ss, a', a);
    SameApexes(ss, b, b');
    SameApexes(ss, b', b);
    StagingOrderIrrelevant(d, ApexesOf(ss, a), ApexesOf(ss, a'));
    StagingOrderIrrelevant(StageAll(d, ApexesOf(ss, a)), ApexesOf(ss, b), ApexesOf(ss, b'));
    ApexesOfConcat(ss, a, b);
    ApexesOfConcat(ss, a', b');
    StageAllConcat(d, ApexesOf(ss, a), ApexesOf(ss, b));
    StageAllConcat(d, ApexesOf(ss, a'), ApexesOf(ss, b'));
  }

  lemma MembersOfConcat(a: seq<int>, b: seq<int>)
    ensures Members(a + b) == Members(a) + Members(b)
  {
    assert forall i :: i in a + b <==> i in a || i in b;
  }

  lemma ApexesOfConcat(ss: Sessions, a: seq<int>, b: seq<int>)
    requires forall k | 0 <= k < |a| :: a[k] in ss
    requires forall k | 0 <= k < |b| :: b[k] in ss
    ensures forall k | 0 <= k < |a + b| :: (a + b)[k] in ss
    ensures ApexesOf(ss, a + b) == ApexesOf(ss, a) + ApexesOf(ss, b)
  {
  }

  /** An ACTIVATED session has the last word over a STAGED one of the same package. */
  lemma ActivatedOverwrites(cfg: Config, name: string)
    requires cfg.checkpoints && cfg.inCheckpointMode
    ensures var later, earlier := ApexFile(name, 2, 0), ApexFile(name, 1, 0);
            var ss: Sessions := map[1 := Session(STAGED, [later], cfg.fingerprint),
                                    2 := Session(ACTIVATED, [earlier], cfg.fingerprint)];
            var ios := [ActivateIo(true, StageWorks, true), ActivateIo(true, StageWorks, true)];
            && Safe(ss) && IsActivationOrder(cfg, ss, [1, 2])
            && ActivateFrom(cfg, World(ss, None, None), [1, 2], ios).active == Some(map[Dest(earlier) := earlier])
  {
    var later, earlier := ApexFile(name, 2, 0), ApexFile(name, 1, 0);
    var ss: Sessions := map[1 := Session(STAGED, [later], cfg.fingerprint),
                            2 := Session(ACTIVATED, [earlier], cfg.fingerprint)];
    var w, ios := World(ss, None, None), [ActivateIo(true, StageWorks, true), ActivateIo(true, StageWorks, true)];
    assert Members([1, 2]) == {1, 2} == InState(ss, STAGED) + InState(ss, ACTIVATED);
    ActivationOfAll(cfg, w, [1, 2], ios);
    var apexes := ApexesOf(ss, [1, 2]);
    assert apexes == [[later], [earlier]];
    StagedOver(later, earlier);
  }

  lemma StagedOver(a: ApexFile, b: ApexFile)
    requires a.name == b.name
    ensures StageAll(map[], [[a], [b]]) == map[Dest(b) := b]
  {
    assert [[a], [b]][..1] == [[a]] && [[a]][..0] == [] && [a][..0] == [] && [b][..0] == [];
    assert Linked(map[], []) == map[];
    assert StagedFiles([a]) == map[Dest(a) := a] && StagedFiles([b]) == map[Dest(b) := b];
    StageReplacesPackages(map[], [a]);
    assert StageAll(map[], [[a]]) == map[Dest(a) := a];
    StageReplacesPackages(map[Dest(a) := a], [b]);
    assert Without(map[Dest(a) := a], Names([b])) == map[] by {
      assert b.name in Names([b]);
    }
  }

  lemma MembersAreStaged(ss: Sessions, order: seq<int>)
    requires Members(order) == InState(ss, STAGED) + {}
    ensures forall k | 0 <= k < |order| :: order[k] in ss && ss[order[k]].state == STAGED
  {
    forall k | 0 <= k < |order|
      ensures order[k] in ss && ss[order[k]].state == STAGED
    {
      assert order[k] in Members(order);
    }
  }

  lemma NoMembers(order: seq<int>)
    ensures Members(order) == {} <==> order == []
  {
    assert |order| > 0 ==> order[0] in Members(order);
  }

  lemma MembersOfPrefix(order: seq<int>, k: nat)
    requires k < |order|
    ensures Members(order[..k + 1]) == Members(order[..k]) + {order[k]}
  {
    assert order[..k + 1] == order[..k] + [order[k]];
    MembersOfLonger(order[..k], order[k]);
  }

  lemma MembersOfLonger(order: seq<int>, id: int)
    ensures Members(order + [id]) == Members(order) + {id}
  {
    assert forall i :: i in order + [id] <==> i in order || i == id;
  }

  lemma ListedOnes(listed: seq<int>, ss: Sessions)
    requires Members(listed) == ss.Keys
    ensures forall k | 0 <= k < |listed| :: listed[k] in ss
    ensures forall i | i in ss :: i in listed
  {
    assert forall k | 0 <= k < |listed| :: listed[k] in Members(listed);
    assert forall i | i in ss :: i in Members(listed);
  }

  lemma SameMembers(order: seq<int>, order': seq<int>)
    requires Members(order) == Members(order')
    ensures order == [] <==> order' == []
  {
    NoMembers(order);
    NoMembers(order');
  }

  lemma SameApexes(ss: Sessions, order: seq<int>, order': seq<int>)
    requires Members(order) == Members(order')
    requires forall k | 0 <= k < |order| :: order[k] in ss
    requires forall k | 0 <= k < |order'| :: order'[k] in ss
    ensures forall s | s in ApexesOf(ss, order) :: s in ApexesOf(ss, order')
  {
    var sets, sets' := ApexesOf(ss, order), ApexesOf(ss, order');
    forall s | s in sets
      ensures s in sets'
    {
      var k :| 0 <= k < |sets| && sets[k] == s;
      assert order[k] in Members(order');
      var m :| 0 <= m < |order'| && order'[m] == order[k];
      assert sets'[m] == s;
    }
  }

  // ---------------------------------------------------------------------
  // Reverting
  // ---------------------------------------------------------------------

  /** Neither finalized nor UNKNOWN. */
  function Unfinalized(ss: Sessions): set<int> {
    set i | i in ss && !IsFinalized(ss[i].state) && ss[i].state != UNKNOWN
  }

  /**
   `stopped`: committing REVERT_IN_PROGRESS failed after the sessions in `started`;
   `unmarked`: sessions whose last commit failed.
   */
  datatype RevertIo = RevertIo(stopped: bool, started: set<int>, restore: RestoreIo, unmarked: set<int>)

  function RevertSpec(cfg: Config, w: World, io: RevertIo): (World, bool) {
    var ids := Unfinalized(w.sessions);
    if ids == {} then (w, false)
    else if io.stopped then
      (w.(sessions := MarkAll(w.sessions, io.started, REVERT_IN_PROGRESS)), false)
    else
      var begun := MarkAll(w.sessions, ids, REVERT_IN_PROGRESS);
      var (active', backup', ok) := if cfg.checkpoints then (w.active, w.backup, true)
                                    else RestoreSpec(w.active, w.backup, io.restore);
      (World(MarkAll(begun, ids - io.unmarked, if ok then REVERTED else REVERT_FAILED), active', backup'), ok)
  }

  // ---------------------------------------------------------------------
  // Whole runs
  // ---------------------------------------------------------------------

  datatype Op =
    | Submit(id: int, hasRollback: bool, isRollback: bool, submit: SubmitIo)
    | Ready(id: int, commitOk: bool)
    | AbortSession(id: int, deleteOk: bool)
    | Activate(order: seq<int>, ios: seq<ActivateIo>)
    | MarkSuccessful(id: int, success: SuccessIo)
    | Revert(revert: RevertIo)
      /** Non-staged installs and clean-ups: they rewrite the active directory, never remove it. */
    | RewriteActive(dir: Dir)

  ghost function Apply(cfg: Config, w: World, op: Op): (World, bool)
    requires op.Activate? ==> |op.ios| == |op.order|
  {
    match op
    case Submit(id, hr, ir, io) => SubmitSpec(cfg, w, id, hr, ir, io)
    case Ready(id, ok) => ReadySpec(w, id, ok)
    case AbortSession(id, ok) => AbortSpec(w, id, ok)
    case Activate(order, ios) => (ActivateFrom(cfg, w, order, ios), true)
    case MarkSuccessful(id, io) => SuccessSpec(w, id, io)
    case Revert(io) => RevertSpec(cfg, w, io)
    case RewriteActive(dir) => (if w.active.None? then w else w.(active := Some(dir)), true)
  }

  /**
   `captured`: the packages that were active when the latest backup was completed
   and not restored since; `spoiled`: what the backup directory was left with, if a
   success or a later backup that failed has emptied it after that.
   */
  datatype History = History(w: World, captured: Option<set<ApexFile>>, spoiled: Option<set<ApexFile>>)

  function BackupAttempt(w: World, op: Op): Option<(Option<Dir>, bool)> {
    if op.Submit? && op.id != 0 && !(op.hasRollback && op.isRollback)
    then Some(BackupSpec(w.active, w.backup, op.submit.backup)) else None
  }

  /** Marking an ACTIVATED session successful empties the backup. */
  predicate EmptiesBackup(w: World, op: Op) {
    op.MarkSuccessful? && op.id in w.sessions && w.sessions[op.id].state == ACTIVATED && op.success.cleanOk
  }

  ghost function Record(cfg: Config, h: History, op: Op): History
    requires op.Activate? ==> |op.ios| == |op.order|
  {
    var w' := Apply(cfg, h.w, op).0;
    var attempt := BackupAttempt(h.w, op);
    if attempt.Some? then
      if attempt.value.1 then History(w', Some(Packages(h.w.active)), None)
      else if attempt.value.0 == h.w.backup then History(w', h.captured, h.spoiled)
      else History(w', h.captured, Some(Packages(attempt.value.0)))
    else if EmptiesBackup(h.w, op) then History(w', h.captured, Some({}))
    else if op.Revert? && h.w.backup.Some? && w'.backup.None? then History(w', None, None)
    else History(w', h.captured, h.spoiled)
  }

  ghost predicate HistoryInv(h: History) {
    && (h.captured.Some? ==>
          && h.w.backup.Some?
          && Packages(h.w.backup) == if h.spoiled.Some? then h.spoiled.value else h.captured.value)
    && (h.w.active.None? ==> Packages(h.w.backup) == {})
  }

  predicate Fresh(w: World) {
    w.sessions == map[] && w.backup == None
  }

  ghost predicate IsHistory(cfg: Config, hs: seq<History>, ops: seq<Op>) {
    |hs| == |ops| + 1
    && Fresh(hs[0].w) && hs[0].captured == None && hs[0].spoiled == None
    && forall k | 0 <= k < |ops| ::
         (ops[k].Activate? ==> |ops[k].ios| == |ops[k].order|)
         && hs[k + 1] == Record(cfg, hs[k], ops[k])
  }

  lemma {:induction false} ActivationKeepsDirectories(cfg: Config, w: World, order: seq<int>, ios: seq<ActivateIo>)
    requires |ios| == |order|
    ensures var w' := ActivateFrom(cfg, w, order, ios);
            w'.backup == w.backup && (w.active.Some? ==> w'.active.Some?)
  {
    if order != [] {
      var n := |order| - 1;
      ActivationKeepsDirectories(cfg, w, order[..n], ios[..n]);
    }
  }

  lemma SubmitKeepsHistory(cfg: Config, h: History, op: Op)
    requires !cfg.checkpoints && HistoryInv(h) && op.Submit?
    ensures HistoryInv(Record(cfg, h, op))
  {
    var w := h.w;
    if BackupAttempt(w, op).Some? {
      var (backup', ok) := BackupSpec(w.active, w.backup, op.submit.backup);
      assert Apply(cfg, w, op).0.backup == backup' && Apply(cfg, w, op).0.active == w.active;
      if w.active.Some? && DistinctIds(w.active.value) {
        BackupOfPackages(w.active.value);
      }
    }
  }

  lemma StepKeepsHistory(cfg: Config, h: History, op: Op)
    requires !cfg.checkpoints && HistoryInv(h)
    requires op.Activate? ==> |op.ios| == |op.order|
    ensures HistoryInv(Record(cfg, h, op))
  {
    match op
    case Submit(_, _, _, _) => SubmitKeepsHistory(cfg, h, op);
    case Activate(order, ios) => ActivationKeepsDirectories(cfg, h.w, order, ios);
    case Ready(_, _) =>
    case AbortSession(_, _) =>
    case MarkSuccessful(_, _) =>
    case Revert(_) =>
    case RewriteActive(_) =>
  }

  lemma {:induction false} HistoryKeepsInv(cfg: Config, hs: seq<History>, ops: seq<Op>, k: nat)
    requires !cfg.checkpoints && IsHistory(cfg, hs, ops) && k < |hs|
    ensures HistoryInv(hs[k])
  {
    if k > 0 {
      HistoryKeepsInv(cfg, hs, ops, k - 1);
      assert hs[k - 1 + 1] == Record(cfg, hs[k - 1], ops[k - 1]);
      StepKeepsHistory(cfg, hs[k - 1], ops[k - 1]);
    }
  }

  lemma RevertFinalizes(cfg: Config, w: World, io: RevertIo)
    requires RevertSpec(cfg, w, io).1
    ensures Unfinalized(RevertSpec(cfg, w, io).0.sessions) == Unfinalized(w.sessions) * io.unmarked
    ensures io.unmarked == {} ==> InState(RevertSpec(cfg, w, io).0.sessions, STAGED) == {}
  {
    var w', ids := RevertSpec(cfg, w, io).0, Unfinalized(w.sessions);
    assert forall i | i in w.sessions ::
        i in w'.sessions && w'.sessions[i].state ==
          if i !in ids then w.sessions[i].state
          else if i in io.unmarked then REVERT_IN_PROGRESS else REVERTED;
    forall i
      ensures i in Unfinalized(w'.sessions) <==> i in ids * io.unmarked
      ensures io.unmarked == {} ==> i !in InState(w'.sessions, STAGED)
    {
    }
  }

  /**
   Reverting at any point of any history of operations that run one at a time. A
   successful revert restores exactly the packages the latest completed backup
   captured, if and only if no success and no failed backup has emptied it since, or
   what they left is just those packages; it leaves a session unfinalized only where
   the last commit failed; and when none failed the next activation has nothing to
   visit. `ApexSessions.RevertLeavesNothingStaged` is about commits of other calls that
   fall inside the revert.
   */
  lemma RevertRestores(cfg: Config, hs: seq<History>, ops: seq<Op>, k: nat, io: RevertIo)
    requires !cfg.checkpoints && IsHistory(cfg, hs, ops) && k < |hs|
    requires RevertSpec(cfg, hs[k].w, io).1
    ensures var h, w' := hs[k], RevertSpec(cfg, hs[k].w, io).0;
            (h.captured.Some? ==>
               Packages(w'.active) == (if h.spoiled.Some? then h.spoiled.value else h.captured.value)
               && (Packages(w'.active) == h.captured.value
                   <==> (h.spoiled.None? || h.spoiled == h.captured)))
            && Unfinalized(w'.sessions) == Unfinalized(h.w.sessions) * io.unmarked
            && (io.unmarked == {} ==>
                  forall order, ios: seq<ActivateIo> |
                    IsActivationOrder(cfg, w'.sessions, order) && |ios| == |order| ::
                    order == [] && ActivateFrom(cfg, w', order, ios) == w')
  {
    HistoryKeepsInv(cfg, hs, ops, k);
    var h, w' := hs[k], RevertSpec(cfg, hs[k].w, io).0;
    RevertFinalizes(cfg, h.w, io);
    assert w'.active == h.w.backup;
    if io.unmarked == {} {
      forall order, ios: seq<ActivateIo> |
        IsActivationOrder(cfg, w'.sessions, order) && |ios| == |order|
        ensures order == [] && ActivateFrom(cfg, w', order, ios) == w'
      {
        NoMembers(order);
      }
    }
  }

  /**
   The failing case: once one ACTIVATED session is marked successful, a revert
   forced by another session deletes every package on /data.
   */
  lemma RevertAfterSuccessLosesAll(cfg: Config, hs: seq<History>, ops: seq<Op>, k: nat,
                                   id: int, mark: SuccessIo, io: RevertIo)
    requires !cfg.checkpoints && IsHistory(cfg, hs, ops) && k < |hs| && hs[k].captured.Some?
    requires EmptiesBackup(hs[k].w, MarkSuccessful(id, mark))
    requires RevertSpec(cfg, SuccessSpec(hs[k].w, id, mark).0, io).1
    ensures Packages(RevertSpec(cfg, SuccessSpec(hs[k].w, id, mark).0, io).0.active) == {}
  {
    HistoryKeepsInv(cfg, hs, ops, k);
  }

  /**
   A submit takes its backup before it checks anything. Even one that is then
   rejected makes a later revert restore what is active now, not what was active
   before the sessions were activated.
   */
  lemma RejectedSubmitRecaptures(cfg: Config, w: World, op: Op, io: RevertIo)
    requires !cfg.checkpoints && op.Submit? && op.id != 0 && !(op.hasRollback && op.isRollback)
    requires w.active.Some? && BackupSpec(w.active, w.backup, op.submit.backup).1
    requires !Apply(cfg, w, op).1
    requires RevertSpec(cfg, Apply(cfg, w, op).0, io).1
    ensures Packages(RevertSpec(cfg, Apply(cfg, w, op).0, io).0.active) == Packages(w.active)
  {
    BackupOfPackages(w.active.value);
  }

  // ---------------------------------------------------------------------
  // Every operation keeps the session invariant
  // ---------------------------------------------------------------------

  lemma OpKeepsSafe(cfg: Config, w: World, op: Op)
    requires Safe(w.sessions) && (op.Activate? ==> |op.ios| == |op.order|)
    ensures Safe(Apply(cfg, w, op).0.sessions)
  {
    match op
    case Submit(id, hr, ir, io) =>
      if SubmitSpec(cfg, w, id, hr, ir, io).1 {
        assert forall i | i in w.sessions - {id} :: i in w.sessions;
        CommitKeepsSafe(w.sessions, id, Session(VERIFIED, io.files.value, cfg.fingerprint));
      }
    case Ready(id, _) => ReadyKeepsSafe(w.sessions, id);
    case AbortSession(id, _) => DropKeepsInv(Store(w.sessions, Free), id);
    case Activate(order, ios) => ActivateKeepsSafe(cfg, w, order, ios);
    case MarkSuccessful(id, io) => MarkKeepsSafe(w.sessions, id, SUCCESS, io.commitOk);
    case Revert(io) => RevertKeepsSafe(cfg, w, io);
    case RewriteActive(_) =>
  }

  lemma ReadyKeepsSafe(ss: Sessions, id: int)
    requires Safe(ss)
    ensures id in ss && ss[id].state == VERIFIED ==> Safe(ss[id := ss[id].(state := STAGED)])
  {
    if id in ss && ss[id].state == VERIFIED {
      StepKeepsInv(Store(ss, Free), ReadyRead(id));
      StepKeepsInv(Store(ss, Readying(id, ss[id])), ReadyCommit(true));
    }
  }

  lemma MarkKeepsSafe(ss: Sessions, id: int, state: SessionState, ok: bool)
    requires Safe(ss) && UnlockedTarget(state)
    ensures Safe(Mark(ss, id, state, ok))
  {
    if ok && id in ss {
      UnlockedKeepsInv(Store(ss, Free), id, ss[id].(state := state));
    }
  }

  lemma {:induction false} ActivateKeepsSafe(cfg: Config, w: World, order: seq<int>, ios: seq<ActivateIo>)
    requires |ios| == |order| && Safe(w.sessions)
    ensures Safe(ActivateFrom(cfg, w, order, ios).sessions)
  {
    if order != [] {
      var n := |order| - 1;
      ActivateKeepsSafe(cfg, w, order[..n], ios[..n]);
      var w1 := ActivateFrom(cfg, w, order[..n], ios[..n]);
      MarkKeepsSafe(w1.sessions, order[n], ACTIVATED, ios[n].commitOk);
      MarkKeepsSafe(w1.sessions, order[n], ACTIVATION_FAILED, ios[n].commitOk);
    }
  }

  lemma MarkAllKeepsSafe(ss: Sessions, ids: set<int>, state: SessionState)
    requires Safe(ss) && UnlockedTarget(state)
    ensures Safe(MarkAll(ss, ids, state))
  {
    var ss' := MarkAll(ss, ids, state);
    assert forall i | i in ss' && Busy(ss'[i]) :: i in ss && ss'[i] == ss[i];
  }

  lemma RevertKeepsSafe(cfg: Config, w: World, io: RevertIo)
    requires Safe(w.sessions)
    ensures Safe(RevertSpec(cfg, w, io).0.sessions)
  {
    var ids := Unfinalized(w.sessions);
    MarkAllKeepsSafe(w.sessions, io.started, REVERT_IN_PROGRESS);
    MarkAllKeepsSafe(w.sessions, ids, REVERT_IN_PROGRESS);
    var begun := MarkAll(w.sessions, ids, REVERT_IN_PROGRESS);
    MarkAllKeepsSafe(begun, ids - io.unmarked, REVERTED);
    MarkAllKeepsSafe(begun, ids - io.unmarked, REVERT_FAILED);
  }

  /** The operations as the code invokes them. */
  predicate Invocable(cfg: Config, w: World, op: Op) {
    match op
    case Activate(order, ios) => |ios| == |order| && IsActivationOrder(cfg, w.sessions, order)
    case Revert(io) => io.started <= Unfinalized(w.sessions)
    case _ => true
  }

  lemma {:induction false} ActivationSkips(cfg: Config, w: World, order: seq<int>, ios: seq<ActivateIo>, id: int)
    requires |ios| == |order| && id !in order && id in w.sessions
    ensures var ss := ActivateFrom(cfg, w, order, ios).sessions;
            id in ss && ss[id] == w.sessions[id]
  {
    if order != [] {
      var n := |order| - 1;
      ActivationSkips(cfg, w, order[..n], ios[..n], id);
    }
  }

  /**
   While operations run one at a time, a finalized session is not touched again unless a
   submit reuses its id. `ApexSessions.FinalizedComesBack` is about interleaved ones.
   */
  lemma FinalizedStays(cfg: Config, w: World, op: Op, id: int)
    requires Invocable(cfg, w, op) && id in w.sessions && IsFinalized(w.sessions[id].state)
    requires !(op.Submit? && op.id == id)
    ensures var ss := Apply(cfg, w, op).0.sessions;
            id in ss && ss[id] == w.sessions[id]
  {
    match op
    case Activate(order, ios) =>
      assert id !in Members(order);
      ActivationSkips(cfg, w, order, ios, id);
    case _ =>
  }

  // ---------------------------------------------------------------------
  // The operations as they run
  // ---------------------------------------------------------------------

  lemma RemoveOneMore(d: Dir, gone: set<FileName>, p: FileName)
    ensures (d - gone) - {p} == d - (gone + {p})
  {
  }

  /** Files still to be unlinked, those that stay, and those that are gone. */
  ghost predicate Unlinking(files: set<FileName>, todo: set<FileName>, kept: set<FileName>, gone: set<FileName>) {
    todo + kept + gone == files && todo !! gone && kept !! gone
  }

  lemma UnlinkingOne(files: set<FileName>, todo: set<FileName>, kept: set<FileName>, gone: set<FileName>, p: FileName)
    requires Unlinking(files, todo, kept, gone) && p in todo
    ensures Unlinking(files, todo - {p}, kept - {p}, gone + {p}) && Unlinking(files, todo - {p}, kept + {p}, gone)
  {
  }

  lemma UnlinkingEnds(files: set<FileName>)
    ensures Unlinking(files, files, {}, {})
    ensures forall kept, gone | Unlinking(files, {}, kept, gone) :: gone == files - kept && kept <= files
  {
  }

  /**
   The daemon. File system calls and session commits succeed or fail as they
   like; each method reports in a ghost result what they did.
   */
  class Apexd {
    const cfg: Config
    var sessions: Sessions
    var active: Option<Dir>
    var backup: Option<Dir>

    constructor (cfg: Config, active: Option<Dir>)
      ensures this.cfg == cfg && State() == World(map[], active, None) && Fresh(State())
    {
      this.cfg := cfg;
      this.sessions := map[];
      this.active := active;
      this.backup := None;
    }

    function State(): World
      reads this
    {
      World(sessions, active, backup)
    }

    /** UpdateStateAndCommit, which may fail and then changes nothing. */
    method Commit(id: int, state: SessionState) returns (ok: bool)
      modifies `sessions
      ensures sessions == Mark(old(sessions), id, state, ok)
    {
      ok := *;
      if ok && id in sessions {
        sessions := sessions[id := sessions[id].(state := state)];
      }
    }

    method BackupActivePackages() returns (ok: bool, ghost io: BackupIo)
      modifies `backup
      ensures (backup, ok) == BackupSpec(active, old(backup), io)
      ensures io.LinkFails? ==> io.left.Values <= Packages(active)
    {
      io := BackupWorks;
      var created: bool := *;
      if !created {
        return false, CreateFails;
      }
      if backup.None? {
        backup := Some(map[]);
      }
      if active.None? {
        return true, io;
      }
      var cleaned: bool := *;
      if !cleaned {
        return false, CleanFails;
      }
      backup := Some(map[]);
      ok := LinkAll(active.value);
      if !ok {
        var emptied: bool := *;
        if emptied {
          backup := Some(map[]);
        }
        return false, LinkFails(backup.value);
      }
      return true, io;
    }

    /** The linking loop of the backup: it stops at the first link that fails. */
    method LinkAll(d: Dir) returns (ok: bool)
      requires backup == Some(map[])
      modifies `backup
      ensures ok ==> DistinctIds(d) && backup == Some(BackupOf(d))
      ensures backup.Some? && backup.value.Values <= d.Values
    {
      hide Backs, BackupOf, DistinctIds;
      BacksNone(d);
      var todo := d.Keys;
      ghost var done := {};
      while todo != {}
        invariant todo <= d.Keys && d.Keys <= todo + done && todo !! done
        invariant backup.Some? && Backs(d, done, backup.value) && backup.value.Values <= d.Values
        decreases |todo|
      {
        var p :| p in todo;
        var linked: bool := *;
        if !linked || Dest(d[p]) in backup.value {
          return false;
        }
        BacksMore(d, done, backup.value, p);
        backup := Some(backup.value[Dest(d[p]) := d[p]]);
        done := done + {p};
        todo := todo - {p};
      }
      BacksAll(d, done, backup.value);
      return true;
    }

    method RestoreActivePackages() returns (ok: bool, ghost io: RestoreIo)
      modifies `active, `backup
      ensures (active, backup, ok) == RestoreSpec(old(active), old(backup), io)
    {
      var deleted: bool, renamed: bool, chmodded: bool := *, *, *;
      if backup.None? || active.None? || !deleted {
        return false, Blocked;
      }
      active := Some(map[]);
      if !renamed {
        return false, RenameFails;
      }
      active, backup := backup, None;
      if !chmodded {
        return false, ChmodFails;
      }
      return true, RestoreWorks;
    }

    /** RemovePreviouslyActiveApexFiles; on failure some of the old files are left. */
    method RemovePreviouslyActive(affected: set<string>, keep: set<FileName>) returns (ok: bool)
      requires active.Some?
      modifies `active
      ensures active.Some?
      ensures ok ==> active.value == RemoveOld(old(active).value, affected, keep)
      ensures RemoveOld(old(active).value, affected, keep).Items <= active.value.Items <= old(active).value.Items
    {
      var d := active.value;
      var todo := d.Keys;
      while todo != {}
        invariant todo <= d.Keys && active.Some?
        invariant forall p | p in d && (p in todo || d[p].name !in affected || p in keep) ::
            p in active.value && active.value[p] == d[p]
        invariant forall p | p in active.value ::
            p in d && active.value[p] == d[p] && (p in todo || d[p].name !in affected || p in keep)
        decreases |todo|
      {
        var p :| p in todo;
        if d[p].name in affected && p !in keep {
          var unlinked: bool := *;
          if !unlinked {
            return false;
          }
          active := Some(active.value - {p});
        }
        todo := todo - {p};
      }
      assert active.value == RemoveOld(d, affected, keep);
      return true;
    }

    /** The scope guard of the staging loop: a file that cannot be unlinked stays. */
    method UnlinkStaged(files: set<FileName>) returns (ghost kept: set<FileName>)
      requires active.Some?
      modifies `active
      ensures active == Some(old(active).value - (files - kept)) && kept <= files
    {
      kept := {};
      var todo := files;
      ghost var d: Dir, gone: set<FileName> := active.value, {};
      assert d - {} == d;
      UnlinkingEnds(files);
      hide *;
      while todo != {}
        invariant Unlinking(files, todo, kept, gone) && active == Some(d - gone)
        decreases |todo|
      {
        var p :| p in todo;
        var unlinked: bool := *;
        UnlinkingOne(files, todo, kept, gone, p);
        if unlinked {
          RemoveOneMore(d, gone, p);
          active := Some(active.value - {p});
          gone, kept := gone + {p}, kept - {p};
        } else {
          kept := kept + {p};
        }
        todo := todo - {p};
      }
    }

    method StagePackages(apexes: seq<ApexFile>) returns (ok: bool, ghost io: StageIo)
      modifies `active
      ensures (active, ok) == StageSpec(old(active), apexes, io)
    {
      var accepted: bool := *;
      if apexes == [] || !accepted {
        return false, Rejected;
      }
      if active.None? {
        active := Some(map[]);
      }
      ghost var d := active.value;
      var stagedFiles: set<FileName>, stagedPackages: set<string> := {}, {};
      var k := 0;
      while k < |apexes|
        invariant 0 <= k <= |apexes|
        invariant active == Some(Linked(d, apexes[..k]))
        invariant stagedFiles == Dests(apexes[..k]) && stagedPackages == Names(apexes[..k])
      {
        LinkedMore(d, apexes, k);
        hide Linked, Dests, Names;
        var dest := Dest(apexes[k]);
        ghost var before := active.value;
        var unlinked: bool := *;
        if dest in active.value {
          if !unlinked {
            ghost var kept := UnlinkStaged(stagedFiles);
            return false, StageLinkFails(k, false, kept);
          }
          active := Some(active.value - {dest});
        }
        var linked: bool := *;
        assert active.value == before - {dest};
        if !linked {
          ghost var kept := UnlinkStaged(stagedFiles);
          return false, StageLinkFails(k, true, kept);
        }
        active := Some(active.value[dest := apexes[k]]);
        assert active.value == before[dest := apexes[k]];
        stagedFiles := stagedFiles + {dest};
        stagedPackages := stagedPackages + {apexes[k].name};
        k := k + 1;
      }
      assert apexes[..k] == apexes;
      hide Linked, Dests, Names;
      ok := RemovePreviouslyActive(stagedPackages, stagedFiles);
      io := if ok then StageWorks else UnlinkFails(active.value);
    }

    /** `staged`, `activated`: the sessions in those states in the order the session store lists them. */
    method ActivateStagedSessions(staged: seq<int>, activated: seq<int>)
      returns (order: seq<int>, ghost ios: seq<ActivateIo>)
      requires Lists(sessions, staged, STAGED) && Lists(sessions, activated, ACTIVATED)
      modifies this
      ensures order == staged + (if cfg.checkpoints then activated else [])
      ensures IsActivationOrder(cfg, old(sessions), order) && |ios| == |order|
      ensures State() == ActivateFrom(cfg, old(State()), order, ios)
    {
      order := staged;
      if cfg.checkpoints {
        order := order + activated;
      }
      ListingIsOrder(cfg, sessions, staged, activated);
      ios := [];
      assert staged + [] == staged;
      hide IsActivationOrder;
      var k := 0;
      while k < |order|
        invariant 0 <= k <= |order| && |ios| == k
        invariant State() == ActivateFrom(cfg, old(State()), order[..k], ios)
      {
        ghost var before := State();
        ghost var io := ActivateSession(order[k]);
        assert order[..k + 1][..k] == order[..k] && (ios + [io])[..k] == ios;
        ios := ios + [io];
        k := k + 1;
      }
      assert order[..k] == order;
    }

    method ActivateSession(id: int) returns (ghost io: ActivateIo)
      modifies this
      ensures State() == ActivateOne(cfg, old(State()), id, io)
    {
      io := ActivateIo(true, StageWorks, true);
      if id !in sessions {
        return;
      }
      var s := sessions[id];
      var scanned: bool := *;
      if s.fingerprint != cfg.fingerprint || (cfg.checkpoints && !cfg.inCheckpointMode) || !scanned {
        var committed := Commit(id, ACTIVATION_FAILED);
        return ActivateIo(scanned, StageWorks, committed);
      }
      var ok, stage := StagePackages(s.apexes);
      var committed := Commit(id, if ok then ACTIVATED else ACTIVATION_FAILED);
      return ActivateIo(true, stage, committed);
    }

    /** `listed`: the unfinalized sessions in the order the session store lists them. */
    method RevertActiveSessions(listed: seq<int>) returns (ok: bool, ghost io: RevertIo)
      requires Members(listed) == Unfinalized(sessions)
      modifies this
      ensures (State(), ok) == RevertSpec(cfg, old(State()), io)
    {
      io := RevertIo(false, {}, RestoreWorks, {});
      NoMembers(listed);
      if listed == [] {
        return false, io;
      }
      var k := 0;
      while k < |listed|
        invariant 0 <= k <= |listed|
        invariant sessions == MarkAll(old(sessions), Members(listed[..k]), REVERT_IN_PROGRESS)
        invariant active == old(active) && backup == old(backup)
      {
        MarkOneMore(old(sessions), Members(listed[..k]), listed[k], REVERT_IN_PROGRESS, true);
        MembersOfPrefix(listed, k);
        var committed := Commit(listed[k], REVERT_IN_PROGRESS);
        if !committed {
          return false, RevertIo(true, Members(listed[..k]), RestoreWorks, {});
        }
        k := k + 1;
      }
      assert listed[..k] == listed;
      ghost var restore := RestoreWorks;
      ok := true;
      if !cfg.checkpoints {
        ok, restore := RestoreActivePackages();
      }
      ghost var unmarked := MarkEach(listed, if ok then REVERTED else REVERT_FAILED);
      io := RevertIo(false, {}, restore, unmarked);
    }

    /** Commits one state for every listed session, going on after a failure. */
    method MarkEach(listed: seq<int>, state: SessionState) returns (ghost unmarked: set<int>)
      modifies `sessions
      ensures sessions == MarkAll(old(sessions), Members(listed) - unmarked, state)
    {
      ghost var marked := {};
      var k := 0;
      while k < |listed|
        invariant 0 <= k <= |listed|
        invariant marked <= Members(listed)
        invariant sessions == MarkAll(old(sessions), marked, state)
      {
        var committed := Commit(listed[k], state);
        MarkOneMore(old(sessions), marked, listed[k], state, committed);
        if committed {
          marked := marked + {listed[k]};
        }
        k := k + 1;
      }
      unmarked := Members(listed) - marked;
      assert Members(listed) - unmarked == marked;
    }

    /** `listed`: all sessions in the order the session store lists them. */
    method SubmitStagedSession(id: int, hasRollback: bool, isRollback: bool,
                               apexes: Option<seq<ApexFile>>, listed: seq<int>)
      returns (ok: bool, ghost io: SubmitIo)
      requires Members(listed) == sessions.Keys
      modifies this
      ensures (State(), ok) == SubmitSpec(cfg, old(State()), id, hasRollback, isRollback, io)
      ensures io.files == apexes
      ensures old(Safe(sessions)) ==> Safe(sessions)
    {
      ghost var op := Submit(id, hasRollback, isRollback, SubmitIo(BackupWorks, apexes, true, true));
      io := op.submit;
      if id == 0 || (hasRollback && isRollback) {
        return false, io;
      }
      ghost var backupIo := BackupWorks;
      if !cfg.checkpoints {
        ok, backupIo := BackupActivePackages();
        io := io.(backup := backupIo);
        if !ok {
          return false, io;
        }
      }
      var verified: bool, committed: bool := *, *;
      io := SubmitIo(backupIo, apexes, verified, committed);
      if apexes.None? || !verified {
        return false, io;
      }
      ListedOnes(listed, sessions);
      var overlap := VerifyNoOverlap(apexes.value, sessions, listed);
      if !overlap.Okay? || !committed {
        return false, io;
      }
      assert forall i | i in sessions - {id} :: i in sessions;
      if Safe(sessions) {
        CommitKeepsSafe(sessions, id, Session(VERIFIED, apexes.value, cfg.fingerprint));
      }
      sessions := sessions[id := Session(VERIFIED, apexes.value, cfg.fingerprint)];
      return true, io;
    }

    method MarkStagedSessionReady(id: int) returns (ok: bool, ghost commitOk: bool)
      modifies `sessions
      ensures (State(), ok) == ReadySpec(old(State()), id, commitOk)
      ensures old(Safe(sessions)) ==> Safe(sessions)
    {
      commitOk := true;
      if id !in sessions {
        return false, true;
      }
      if sessions[id].state == STAGED {
        return true, true;
      }
      if sessions[id].state == VERIFIED {
        if Safe(sessions) {
          ReadyKeepsSafe(sessions, id);
        }
        ok := Commit(id, STAGED);
        return ok, ok;
      }
      return false, true;
    }

    method AbortStagedSession(id: int) returns (ok: bool, ghost deleteOk: bool)
      modifies `sessions
      ensures (State(), ok) == AbortSpec(old(State()), id, deleteOk)
    {
      if id !in sessions || !Busy(sessions[id]) {
        return false, true;
      }
      ok := *;
      deleteOk := ok;
      if ok {
        sessions := sessions - {id};
      }
    }

    method MarkStagedSessionSuccessful(id: int) returns (ok: bool, ghost io: SuccessIo)
      modifies `sessions, `backup
      ensures (State(), ok) == SuccessSpec(old(State()), id, io)
    {
      io := SuccessIo(true, true);
      if id !in sessions {
        return false, io;
      }
      if sessions[id].state == SUCCESS {
        return true, io;
      }
      if sessions[id].state != ACTIVATED {
        return false, io;
      }
      var cleaned: bool := *;
      if !cleaned {
        return false, SuccessIo(false, true);
      }
      if backup.Some? {
        backup := Some(map[]);
      }
      ok := Commit(id, SUCCESS);
      io := SuccessIo(true, ok);
    }
  }
}
