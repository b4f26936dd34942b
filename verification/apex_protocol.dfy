/**
 The daemon's operations as runs of the steps of ApexSessions, and what a session goes
 through from its submit to its activation.
 */
module ApexProtocol {
  import opened Wrappers
  import opened ApexTypes
  import opened ApexSessions
  import opened ApexStaging
  import opened ApexDaemon

  // ---------------------------------------------------------------------
  // What the operations store
  // ---------------------------------------------------------------------

  /** The store with one session put in and all others as they were. */
  ghost predicate StoresOne(ss: Sessions, ss': Sessions, id: int, session: Session) {
    && id in ss' && ss'[id] == session
    && forall i | i != id :: (i in ss' <==> i in ss) && (i in ss ==> ss'[i] == ss[i])
  }

  /** Every check of a submit passes and its commit is made. */
  ghost predicate Accepted(cfg: Config, w: World, id: int, hasRollback: bool, isRollback: bool, io: SubmitIo) {
    && id != 0 && !(hasRollback && isRollback)
    && (cfg.checkpoints || BackupSpec(w.active, w.backup, io.backup).1)
    && io.files.Some? && io.verified && NoOverlap(io.files.value, w.sessions) && io.commitOk
  }

  /**
   A submit succeeds exactly when it is accepted. It then stores the session as
   VERIFIED with exactly the opened packages and the current fingerprint; otherwise it
   stores nothing. It never touches the active directory.
   */
  lemma SubmitStores(cfg: Config, w: World, id: int, hasRollback: bool, isRollback: bool, io: SubmitIo)
    ensures var (w', ok) := SubmitSpec(cfg, w, id, hasRollback, isRollback, io);
            && (ok <==> Accepted(cfg, w, id, hasRollback, isRollback, io))
            && (ok ==> StoresOne(w.sessions, w'.sessions, id, Session(VERIFIED, io.files.value, cfg.fingerprint)))
            && (!ok ==> w'.sessions == w.sessions) && w'.active == w.active
  {
    hide NoOverlap, BackupSpec;
  }

  /** Readying makes a VERIFIED session STAGED and changes nothing else of it. */
  lemma ReadyStores(w: World, id: int, commitOk: bool)
    ensures var (w', ok) := ReadySpec(w, id, commitOk);
            && (ok <==> Holds(w.sessions, id, STAGED) || (Holds(w.sessions, id, VERIFIED) && commitOk))
            && (ok && Holds(w.sessions, id, VERIFIED) ==>
                  StoresOne(w.sessions, w'.sessions, id, w.sessions[id].(state := STAGED)))
            && (!(ok && Holds(w.sessions, id, VERIFIED)) ==> w'.sessions == w.sessions)
            && w'.active == w.active && w'.backup == w.backup
  {
  }

  /** Marking successful takes an ACTIVATED session to SUCCESS once the backup is emptied. */
  lemma SuccessStores(w: World, id: int, io: SuccessIo)
    ensures var (w', ok) := SuccessSpec(w, id, io);
            && (ok <==>
                  || Holds(w.sessions, id, SUCCESS)
                  || (Holds(w.sessions, id, ACTIVATED) && io.cleanOk && io.commitOk))
            && (ok && Holds(w.sessions, id, ACTIVATED) ==>
                  && StoresOne(w.sessions, w'.sessions, id, w.sessions[id].(state := SUCCESS))
                  && Packages(w'.backup) == {})
            && (!(ok && Holds(w.sessions, id, ACTIVATED)) ==> w'.sessions == w.sessions) && w'.active == w.active
  {
  }

  /** After a build change nothing is staged: every visited session fails and no directory is touched. */
  lemma {:induction false} StaleSessionsFail(cfg: Config, w: World, order: seq<int>, ios: seq<ActivateIo>)
    requires |ios| == |order| && Distinct(order)
    requires forall k | 0 <= k < |order| ::
               order[k] in w.sessions && w.sessions[order[k]].fingerprint != cfg.fingerprint && ios[k].commitOk
    ensures (ActivateFrom(cfg, w, order, ios)
          == World(MarkAll(w.sessions, Members(order), ACTIVATION_FAILED), w.active, w.backup))
    decreases |order|
  {
    if order == [] {
      assert MarkAll(w.sessions, Members(order), ACTIVATION_FAILED) == w.sessions;
    } else {
      var n := |order| - 1;
      var front, id := order[..n], order[n];
      StaleSessionsFail(cfg, w, front, ios[..n]);
      assert order == front + [id] && id !in front;
      MembersOfLonger(front, id);
      MarkOneMore(w.sessions, Members(front), id, ACTIVATION_FAILED, true);
    }
  }

  /**
   A backup succeeds exactly when nothing fails and no two active files share an id, or
   when there is no active directory; it then holds every active package under its id,
   or what it held before. A backup that fails, but not in a link, leaves the old
   packages or none.
   */
  lemma BackupOutcome(active: Option<Dir>, backup: Option<Dir>, io: BackupIo)
    ensures var (backup', ok) := BackupSpec(active, backup, io);
            && (ok <==> !io.CreateFails? && (active.None? || (io.BackupWorks? && DistinctIds(active.value))))
            && (ok && active.Some? ==> Packages(backup') == Packages(active) && FiledById(backup'))
            && (ok && active.None? ==> Packages(backup') == Packages(backup) && backup'.Some?)
            && (!ok && !io.LinkFails? ==> Packages(backup') == Packages(backup) || Packages(backup') == {})
  {
    if active.Some? && DistinctIds(active.value) {
      BackupOfPackages(active.value);
    }
    assert Packages(Some(map[])) == {};
  }

  predicate FiledById(d: Option<Dir>) {
    d.Some? && forall p | p in d.value :: p == Dest(d.value[p])
  }

  lemma {:induction false} LinkedElsewhere(d: Dir, apexes: seq<ApexFile>, p: FileName)
    requires p !in Dests(apexes)
    ensures p in Linked(d, apexes) <==> p in d
    ensures p in d ==> Linked(d, apexes)[p] == d[p]
    decreases |apexes|
  {
    if apexes != [] {
      var n := |apexes| - 1;
      assert apexes[n] in apexes;
      assert forall a | a in apexes[..n] :: a in apexes;
      LinkedElsewhere(d, apexes[..n], p);
    }
  }

  /** A staging that fails in a link touches no file but those at the ids of its own packages. */
  lemma FailedLinkTouchesOwn(active: Option<Dir>, apexes: seq<ApexFile>, io: StageIo, p: FileName)
    requires io.StageLinkFails? && !StageSpec(active, apexes, io).1 && p !in Dests(apexes)
    ensures var d, d' := OrEmpty(active), OrEmpty(StageSpec(active, apexes, io).0);
            (p in d' <==> p in d) && (p in d ==> d'[p] == d[p])
  {
    if apexes != [] {
      var k := io.k;
      assert forall a | a in apexes[..k] :: a in apexes;
      assert apexes[k] in apexes;
      LinkedElsewhere(OrEmpty(active), apexes[..k], p);
      hide Linked;
    }
  }

  /** Whatever fails while restoring, every backed-up package is still in one of the two directories. */
  lemma RestoreLosesNothing(active: Option<Dir>, backup: Option<Dir>, io: RestoreIo)
    ensures var (active', backup', ok) := RestoreSpec(active, backup, io);
            && Packages(backup) <= Packages(active') + Packages(backup')
            && (ok ==> backup.Some? && active' == backup && backup' == None)
            && (!ok && backup' == backup ==> active' == active || active' == Some(map[]))
  {
  }

  /** The state a revert leaves each session in. */
  lemma RevertOutcome(cfg: Config, w: World, io: RevertIo, id: int)
    requires id in w.sessions && !io.stopped && Unfinalized(w.sessions) != {}
    ensures var (w', ok) := RevertSpec(cfg, w, io);
            && (ok <==> cfg.checkpoints || RestoreSpec(w.active, w.backup, io.restore).2)
            && id in w'.sessions
            && w'.sessions[id] == (if id !in Unfinalized(w.sessions) then w.sessions[id]
                                   else w.sessions[id].(state := if id in io.unmarked then REVERT_IN_PROGRESS
                                                                  else if ok then REVERTED else REVERT_FAILED))
  {
    hide RestoreSpec;
  }

  // ---------------------------------------------------------------------
  // Operations are runs
  // ---------------------------------------------------------------------

  /** The steps are possible one after the other and lead from the one store to the other. */
  ghost predicate Leads(s: Store, acts: seq<Action>, s': Store)
    decreases |acts|
  {
    if acts == [] then s == s'
    else Enabled(s, acts[0]) && Leads(Next(s, acts[0]), acts[1..], s')
  }

  lemma {:induction false} LeadsOn(s: Store, a: seq<Action>, mid: Store, b: seq<Action>, s': Store)
    requires Leads(s, a, mid) && Leads(mid, b, s')
    ensures Leads(s, a + b, s')
    decreases |a|
  {
    if a == [] {
      assert a + b == b;
    } else {
      hide Enabled, Next;
      assert (a + b)[1..] == a[1..] + b;
      LeadsOn(Next(s, a[0]), a[1..], mid, b, s');
    }
  }

  lemma LeadsByOne(s: Store, act: Action)
    requires Enabled(s, act)
    ensures Leads(s, [act], Next(s, act))
  {
    hide Enabled, Next;
    assert [act][1..] == [];
  }

  lemma LeadsByTwo(s: Store, act: Action, act': Action)
    requires Enabled(s, act) && Enabled(Next(s, act), act')
    ensures Leads(s, [act, act'], Next(Next(s, act), act'))
  {
    hide Enabled, Next;
    LeadsByOne(Next(s, act), act');
    assert [act, act'][1..] == [act'];
  }

  function Idle(ss: Sessions): Store {
    Store(ss, Free)
  }

  /** The steps of a submit: the check and, under the same lock, the commit. */
  ghost function SubmitSteps(cfg: Config, w: World, id: int, io: SubmitIo): seq<Action>
    requires io.files.Some?
  {
    [SubmitCheck(id, io.files.value, cfg.fingerprint), SubmitCommit(true)]
  }

  lemma SubmitIsRun(cfg: Config, w: World, id: int, hasRollback: bool, isRollback: bool, io: SubmitIo)
    requires Accepted(cfg, w, id, hasRollback, isRollback, io)
    ensures Leads(Idle(w.sessions), SubmitSteps(cfg, w, id, io),
                  Idle(SubmitSpec(cfg, w, id, hasRollback, isRollback, io).0.sessions))
  {
    var s := Idle(w.sessions);
    var check := SubmitCheck(id, io.files.value, cfg.fingerprint);
    LeadsByTwo(s, check, SubmitCommit(true));
    hide NoOverlap, BackupSpec, Leads;
    assert (Next(Next(s, check), SubmitCommit(true)).sessions
         == w.sessions[id := Session(VERIFIED, io.files.value, cfg.fingerprint)]);
  }

  lemma ReadyIsRun(w: World, id: int, commitOk: bool)
    requires Holds(w.sessions, id, VERIFIED)
    ensures Leads(Idle(w.sessions), [ReadyRead(id), ReadyCommit(commitOk)],
                  Idle(ReadySpec(w, id, commitOk).0.sessions))
  {
    LeadsByTwo(Idle(w.sessions), ReadyRead(id), ReadyCommit(commitOk));
    hide Leads;
  }

  lemma AbortIsRun(w: World, id: int)
    requires id in w.sessions && Busy(w.sessions[id])
    ensures Leads(Idle(w.sessions), [Abort(id)], Idle(AbortSpec(w, id, true).0.sessions))
  {
    LeadsByOne(Idle(w.sessions), Abort(id));
    hide Leads;
  }

  /** A commit that takes no lock, or none when it fails or the session is gone. */
  function MarkSteps(ss: Sessions, id: int, state: SessionState, commitOk: bool): seq<Action> {
    if commitOk && id in ss then [UnlockedCommit(id, ss[id].(state := state))] else []
  }

  lemma MarkIsRun(ss: Sessions, id: int, state: SessionState, commitOk: bool)
    requires UnlockedTarget(state)
    ensures Leads(Idle(ss), MarkSteps(ss, id, state, commitOk), Idle(Mark(ss, id, state, commitOk)))
  {
    if commitOk && id in ss {
      LeadsByOne(Idle(ss), UnlockedCommit(id, ss[id].(state := state)));
      hide Leads;
    }
  }

  /** Every step of the list is a commit without the lock. */
  predicate AllUnlocked(acts: seq<Action>) {
    forall i | 0 <= i < |acts| :: acts[i].UnlockedCommit?
  }

  lemma SuccessIsRun(w: World, id: int, io: SuccessIo) returns (acts: seq<Action>)
    ensures Leads(Idle(w.sessions), acts, Idle(SuccessSpec(w, id, io).0.sessions)) && AllUnlocked(acts)
  {
    if Holds(w.sessions, id, ACTIVATED) && io.cleanOk {
      acts := MarkSteps(w.sessions, id, SUCCESS, io.commitOk);
      MarkIsRun(w.sessions, id, SUCCESS, io.commitOk);
    } else {
      acts := [];
    }
  }

  lemma ActivateOneMarks(cfg: Config, w: World, id: int, io: ActivateIo) returns (state: SessionState)
    ensures state == ACTIVATED || state == ACTIVATION_FAILED
    ensures ActivateOne(cfg, w, id, io).sessions == Mark(w.sessions, id, state, io.commitOk)
  {
    hide StageSpec;
    state := ACTIVATION_FAILED;
    if id in w.sessions {
      var s := w.sessions[id];
      if !(s.fingerprint != cfg.fingerprint || (cfg.checkpoints && !cfg.inCheckpointMode) || !io.scanOk)
         && StageSpec(w.active, s.apexes, io.stage).1 {
        state := ACTIVATED;
      }
    }
  }

  lemma {:induction false} ActivateIsRun(cfg: Config, w: World, order: seq<int>, ios: seq<ActivateIo>)
    returns (acts: seq<Action>)
    requires |ios| == |order|
    ensures Leads(Idle(w.sessions), acts, Idle(ActivateFrom(cfg, w, order, ios).sessions)) && AllUnlocked(acts)
    decreases |order|
  {
    if order == [] {
      acts := [];
    } else {
      hide ActivateOne, Leads, Mark;
      var n := |order| - 1;
      var before := ActivateIsRun(cfg, w, order[..n], ios[..n]);
      var w1 := ActivateFrom(cfg, w, order[..n], ios[..n]);
      var state := ActivateOneMarks(cfg, w1, order[n], ios[n]);
      var last := MarkSteps(w1.sessions, order[n], state, ios[n].commitOk);
      MarkIsRun(w1.sessions, order[n], state, ios[n].commitOk);
      var w2 := Mark(w1.sessions, order[n], state, ios[n].commitOk);
      LeadsOn(Idle(w.sessions), before, Idle(w1.sessions), last, Idle(w2));
      acts := before + last;
    }
  }

  datatype Id = Id(n: int)

  lemma {:induction false} Listing(ids: set<int>) returns (order: seq<int>)
    ensures Distinct(order) && forall i :: i in order <==> i in ids
    decreases |ids|
  {
    var wrapped := set i | i in ids :: Id(i);
    assert forall i | i in ids :: Id(i) in wrapped;
    if wrapped == {} {
      order := [];
    } else {
      var x :| x in wrapped;
      var rest := Listing(ids - {x.n});
      order := rest + [x.n];
    }
  }

  /** Marking a set of sessions is committing them one by one, in any order. */
  lemma {:induction false} MarkAllIsRun(ss: Sessions, ids: set<int>, order: seq<int>, state: SessionState)
    returns (acts: seq<Action>)
    requires UnlockedTarget(state) && Distinct(order) && forall i :: i in order <==> i in ids
    ensures Leads(Idle(ss), acts, Idle(MarkAll(ss, ids, state))) && AllUnlocked(acts)
    decreases |order|
  {
    if order == [] {
      acts := [];
      assert forall i :: i in ids ==> i in order;
      assert MarkAll(ss, ids, state) == ss;
    } else {
      hide Leads, Mark, MarkAll;
      var n := |order| - 1;
      var front, id := order[..n], order[n];
      assert order == front + [id];
      var before := MarkAllIsRun(ss, ids - {id}, front, state);
      var mid := MarkAll(ss, ids - {id}, state);
      var last := MarkSteps(mid, id, state, true);
      MarkIsRun(mid, id, state, true);
      MarkOneMore(ss, ids - {id}, id, state, true);
      assert ids - {id} + {id} == ids;
      LeadsOn(Idle(ss), before, Idle(mid), last, Idle(MarkAll(ss, ids, state)));
      acts := before + last;
    }
  }

  lemma RevertIsRun(cfg: Config, w: World, io: RevertIo) returns (acts: seq<Action>)
    ensures Leads(Idle(w.sessions), acts, Idle(RevertSpec(cfg, w, io).0.sessions)) && AllUnlocked(acts)
  {
    var ids := Unfinalized(w.sessions);
    hide Leads, MarkAll, Unfinalized, RestoreSpec;
    if ids == {} {
      acts := [];
      LeadsNowhere(Idle(w.sessions));
    } else if io.stopped {
      var order := Listing(io.started);
      acts := MarkAllIsRun(w.sessions, io.started, order, REVERT_IN_PROGRESS);
    } else {
      var begun := MarkAll(w.sessions, ids, REVERT_IN_PROGRESS);
      var state := if RevertSpec(cfg, w, io).1 then REVERTED else REVERT_FAILED;
      var order := Listing(ids);
      var first := MarkAllIsRun(w.sessions, ids, order, REVERT_IN_PROGRESS);
      var order' := Listing(ids - io.unmarked);
      var second := MarkAllIsRun(begun, ids - io.unmarked, order', state);
      LeadsOn(Idle(w.sessions), first, Idle(begun), second, Idle(MarkAll(begun, ids - io.unmarked, state)));
      acts := first + second;
    }
  }

  lemma LeadsNowhere(s: Store)
    ensures Leads(s, [], s)
  {
  }

  /** The steps an operation of the daemon makes. */
  ghost predicate AreSteps(cfg: Config, w: World, op: Op, acts: seq<Action>) {
    match op
    case Submit(id, hr, ir, io) =>
      acts == if Accepted(cfg, w, id, hr, ir, io) then SubmitSteps(cfg, w, id, io) else []
    case Ready(id, ok) => acts == if Holds(w.sessions, id, VERIFIED) then [ReadyRead(id), ReadyCommit(ok)] else []
    case AbortSession(id, ok) => acts == if ok && id in w.sessions && Busy(w.sessions[id]) then [Abort(id)] else []
    case RewriteActive(_) => acts == []
    case _ => AllUnlocked(acts)
  }

  /**
   Every operation of the daemon is a run of steps: a submit checks and then commits
   under one lock, readying reads and then commits under one lock, an abort is one
   step, and activation, revert and success are commits without the lock.
   */
  lemma OperationIsRun(cfg: Config, w: World, op: Op) returns (acts: seq<Action>)
    requires op.Activate? ==> |op.ios| == |op.order|
    ensures AreSteps(cfg, w, op, acts)
    ensures Leads(Idle(w.sessions), acts, Idle(Apply(cfg, w, op).0.sessions))
  {
    hide Leads, Accepted, ActivateFrom, RevertSpec, SuccessSpec, SubmitSpec;
    LeadsNowhere(Idle(w.sessions));
    match op
    case Submit(id, hr, ir, io) =>
      acts := [];
      SubmitStores(cfg, w, id, hr, ir, io);
      if Accepted(cfg, w, id, hr, ir, io) {
        AcceptedFiles(cfg, w, id, hr, ir, io);
        acts := SubmitSteps(cfg, w, id, io);
        SubmitIsRun(cfg, w, id, hr, ir, io);
      }
    case Ready(id, ok) =>
      acts := [];
      if Holds(w.sessions, id, VERIFIED) {
        acts := [ReadyRead(id), ReadyCommit(ok)];
        ReadyIsRun(w, id, ok);
      }
    case AbortSession(id, ok) =>
      acts := [];
      if ok && id in w.sessions && Busy(w.sessions[id]) {
        acts := [Abort(id)];
        AbortIsRun(w, id);
      }
    case Activate(order, ios) => acts := ActivateIsRun(cfg, w, order, ios);
    case MarkSuccessful(id, io) => acts := SuccessIsRun(w, id, io);
    case Revert(io) => acts := RevertIsRun(cfg, w, io);
    case RewriteActive(_) => acts := [];
  }

  lemma AcceptedFiles(cfg: Config, w: World, id: int, hasRollback: bool, isRollback: bool, io: SubmitIo)
    requires Accepted(cfg, w, id, hasRollback, isRollback, io)
    ensures io.files.Some?
  {
  }

  /** The stores passed on the way. */
  ghost function Passed(s: Store, acts: seq<Action>, s': Store): (states: seq<Store>)
    requires Leads(s, acts, s')
    ensures |states| == |acts| + 1 && states[0] == s && states[|acts|] == s'
    ensures forall k | 0 <= k < |acts| :: Enabled(states[k], acts[k]) && states[k + 1] == Next(states[k], acts[k])
    decreases |acts|
  {
    if acts == [] then [s] else [s] + Passed(Next(s, acts[0]), acts[1..], s')
  }

  lemma {:induction false} HistoryLeads(cfg: Config, hs: seq<History>, ops: seq<Op>, k: nat) returns (acts: seq<Action>)
    requires IsHistory(cfg, hs, ops) && k < |hs|
    ensures Leads(Idle(map[]), acts, Idle(hs[k].w.sessions))
  {
    hide Leads, Apply, AreSteps;
    if k == 0 {
      acts := [];
      LeadsNowhere(Idle(map[]));
    } else {
      var before := HistoryLeads(cfg, hs, ops, k - 1);
      assert hs[k - 1 + 1] == Record(cfg, hs[k - 1], ops[k - 1]);
      RecordApplies(cfg, hs[k - 1], ops[k - 1]);
      var last := OperationIsRun(cfg, hs[k - 1].w, ops[k - 1]);
      LeadsOn(Idle(map[]), before, Idle(hs[k - 1].w.sessions), last, Idle(hs[k].w.sessions));
      acts := before + last;
    }
  }

  lemma RecordApplies(cfg: Config, h: History, op: Op)
    requires op.Activate? ==> |op.ios| == |op.order|
    ensures Record(cfg, h, op).w == Apply(cfg, h.w, op).0
  {
    hide Apply, BackupAttempt, EmptiesBackup;
  }

  /**
   Every history of operations is a run of ApexSessions that ends with the same
   sessions, so all laws about interleaved runs are laws about the daemon.
   */
  lemma HistoryIsRun(cfg: Config, hs: seq<History>, ops: seq<Op>, k: nat)
    returns (states: seq<Store>, acts: seq<Action>)
    requires IsHistory(cfg, hs, ops) && k < |hs|
    ensures IsRun(states, acts) && states[|acts|] == Idle(hs[k].w.sessions)
  {
    acts := HistoryLeads(cfg, hs, ops, k);
    states := Passed(Idle(map[]), acts, Idle(hs[k].w.sessions));
  }

  // ---------------------------------------------------------------------
  // From submit to activation
  // ---------------------------------------------------------------------

  /** The directory holds exactly these packages of their names, each under its own id. */
  ghost predicate HoldsPackages(active: Option<Dir>, apexes: seq<ApexFile>) {
    && active.Some?
    && (forall a | a in apexes :: Dest(a) in active.value && active.value[Dest(a)] == a)
    && (forall p | p in active.value && active.value[p].name in Names(apexes) :: active.value[p] in apexes)
  }

  lemma SameSession(sessions: seq<seq<ApexFile>>, s: seq<ApexFile>, t: seq<ApexFile>, name: string)
    requires PairwiseDisjoint(sessions) && s in sessions && t in sessions && name in Names(s) && name in Names(t)
    ensures s == t
  {
    hide Names;
    var i :| 0 <= i < |sessions| && sessions[i] == s;
    var j :| 0 <= j < |sessions| && sessions[j] == t;
  }

  lemma OutcomeHolds(d: Dir, sessions: seq<seq<ApexFile>>, r: Dir, apexes: seq<ApexFile>)
    requires IsOutcome(d, sessions, r) && PairwiseDisjoint(sessions) && apexes in sessions
    requires forall i, j | 0 <= i < j < |apexes| :: apexes[i].name != apexes[j].name
    ensures HoldsPackages(Some(r), apexes)
  {
    StagedFilesOfDistinctNames(apexes);
    StagedFilesKeys(apexes);
    hide StagedFiles;
    forall p | p in r && r[p].name in Names(apexes)
      ensures r[p] in apexes
    {
      if StagesAt(sessions, p) {
        var s :| s in sessions && p in StagedFiles(s);
        FilesBearNames(s, p);
        SameSession(sessions, s, apexes, r[p].name);
      }
    }
  }

  /**
   A session that is submitted, readied and activated, all of which succeed, ends
   ACTIVATED, and the active directory then holds exactly its packages under their
   names, whatever other sessions are activated with it and in whatever order.
   */
  lemma SubmittedIsActivated(cfg: Config, w: World, id: int, hasRollback: bool, isRollback: bool, io: SubmitIo,
                             order: seq<int>, ios: seq<ActivateIo>)
    requires !cfg.checkpoints && Safe(w.sessions) && Accepted(cfg, w, id, hasRollback, isRollback, io)
    requires io.files.value != []
    requires forall i, j | 0 <= i < j < |io.files.value| :: io.files.value[i].name != io.files.value[j].name
    requires var w2 := ReadySpec(SubmitSpec(cfg, w, id, hasRollback, isRollback, io).0, id, true).0;
             && IsActivationOrder(cfg, w2.sessions, order) && Stageable(cfg, w2.sessions, order)
             && |ios| == |order| && AllWell(ios)
    ensures var w1 := SubmitSpec(cfg, w, id, hasRollback, isRollback, io).0;
            var w3 := ActivateFrom(cfg, ReadySpec(w1, id, true).0, order, ios);
            Holds(w3.sessions, id, ACTIVATED) && HoldsPackages(w3.active, io.files.value)
  {
    var files := io.files.value;
    var w1 := SubmitSpec(cfg, w, id, hasRollback, isRollback, io).0;
    var w2 := ReadySpec(w1, id, true).0;
    SubmitStores(cfg, w, id, hasRollback, isRollback, io);
    ReadyStores(w1, id, true);
    OpKeepsSafe(cfg, w, Submit(id, hasRollback, isRollback, io));
    OpKeepsSafe(cfg, w1, Ready(id, true));
    assert w2.sessions[id] == Session(STAGED, files, cfg.fingerprint);
    StagedIsVisited(cfg, w2.sessions, order, id);
    hide *;
    ActivatesAll(cfg, w2, order, ios, id, files);
  }

  lemma StagedIsVisited(cfg: Config, ss: Sessions, order: seq<int>, id: int)
    requires IsActivationOrder(cfg, ss, order) && Holds(ss, id, STAGED)
    ensures id in order
  {
    assert id in InState(ss, STAGED);
    assert id in Members(order);
  }

  lemma ActivatesAll(cfg: Config, w: World, order: seq<int>, ios: seq<ActivateIo>, id: int, files: seq<ApexFile>)
    requires !cfg.checkpoints && Safe(w.sessions) && IsActivationOrder(cfg, w.sessions, order)
    requires Stageable(cfg, w.sessions, order) && |ios| == |order| && AllWell(ios)
    requires id in order && id in w.sessions && w.sessions[id].apexes == files
    requires forall i, j | 0 <= i < j < |files| :: files[i].name != files[j].name
    ensures var w' := ActivateFrom(cfg, w, order, ios);
            Holds(w'.sessions, id, ACTIVATED) && HoldsPackages(w'.active, files)
  {
    ActivationOutcome(cfg, w, order, order, ios, ios);
    ActivationOfAll(cfg, w, order, ios);
    MembersAreStaged(w.sessions, order);
    hide ActivateFrom, IsOutcome, HoldsPackages, Safe, IsActivationOrder;
    StagedSessionsAreDisjoint(w.sessions, order);
    var k :| 0 <= k < |order| && order[k] == id;
    assert ApexesOf(w.sessions, order)[k] == files;
    assert id in Members(order);
    OutcomeHolds(OrEmpty(w.active), ApexesOf(w.sessions, order), ActivateFrom(cfg, w, order, ios).active.value, files);
  }
}
