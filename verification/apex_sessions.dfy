/**
 Sessions of apexd and the staging protocol over them
 (research/aosp-src/apexd.cpp).

 `gInstallLock` serialises submitting, readying and aborting. Activation,
 reverting and marking successful do not take the lock: each of their commits
 may fall between any two steps of a call that holds it, and writes back a copy
 of a session that was read earlier.
 */
module ApexSessions {
  import opened ApexTypes

  /** VERIFIED and STAGED sessions hold on to their package names. */
  predicate Busy(s: Session) {
    s.state == VERIFIED || s.state == STAGED
  }

  ghost predicate OneVerified(ss: Sessions) {
    forall i, j | i in ss && j in ss && ss[i].state == VERIFIED && ss[j].state == VERIFIED :: i == j
  }

  ghost predicate DisjointNames(ss: Sessions) {
    forall i, j | i in ss && j in ss && i != j && Busy(ss[i]) && Busy(ss[j]) ::
      Names(ss[i].apexes) !! Names(ss[j].apexes)
  }

  ghost predicate Safe(ss: Sessions) {
    OneVerified(ss) && DisjointNames(ss)
  }

  /** What VerifyNoOverlapInSessions accepts. */
  ghost predicate NoOverlap(apexes: seq<ApexFile>, ss: Sessions) {
    forall i | i in ss ::
      ss[i].state != VERIFIED
      && (ss[i].state == STAGED ==> Names(ss[i].apexes) !! Names(apexes))
  }

  /** Who holds the install lock, and the session copy that call will commit. */
  datatype Lock = Free | Submitting(id: int, copy: Session) | Readying(id: int, copy: Session)

  datatype Store = Store(sessions: Sessions, lock: Lock)

  datatype Action =
    | SubmitCheck(id: int, apexes: seq<ApexFile>, fingerprint: string)
    | SubmitCommit(ok: bool)
    | ReadyRead(id: int)
    | ReadyCommit(ok: bool)
    | Abort(id: int)
    | UnlockedCommit(id: int, copy: Session)
    | DeleteFinalized(id: int)
    | Crash

  /** The states that activation, reverting and marking successful commit. */
  predicate UnlockedTarget(s: SessionState) {
    s == ACTIVATED || s == ACTIVATION_FAILED || s == SUCCESS
    || s == REVERT_IN_PROGRESS || s == REVERTED || s == REVERT_FAILED
  }

  ghost predicate Enabled(s: Store, a: Action) {
    match a
    case SubmitCheck(id, apexes, _) => s.lock.Free? && NoOverlap(apexes, s.sessions)
    case SubmitCommit(_) => s.lock.Submitting?
    case ReadyRead(id) => s.lock.Free? && id in s.sessions && s.sessions[id].state == VERIFIED
    case ReadyCommit(_) => s.lock.Readying?
    case Abort(id) => s.lock.Free? && id in s.sessions && Busy(s.sessions[id])
    case UnlockedCommit(_, copy) => UnlockedTarget(copy.state)
    case DeleteFinalized(id) => id in s.sessions && IsFinalized(s.sessions[id].state)
    case Crash => true
  }

  function Release(s: Store, state: SessionState, ok: bool): Store
    requires !s.lock.Free?
  {
    Store(if ok then s.sessions[s.lock.id := s.lock.copy.(state := state)] else s.sessions, Free)
  }

  ghost function Next(s: Store, a: Action): Store
    requires Enabled(s, a)
  {
    match a
    case SubmitCheck(id, apexes, fp) =>
      s.(lock := Submitting(id, Session(UNKNOWN, apexes, fp)))
    case SubmitCommit(ok) => Release(s, VERIFIED, ok)
    case ReadyRead(id) => s.(lock := Readying(id, s.sessions[id]))
    case ReadyCommit(ok) => Release(s, STAGED, ok)
    case Abort(id) => s.(sessions := s.sessions - {id})
    case UnlockedCommit(id, copy) => s.(sessions := s.sessions[id := copy])
    case DeleteFinalized(id) => s.(sessions := s.sessions - {id})
    case Crash => s.(lock := Free)
  }

  /** What a lock holder may count on until it commits. */
  ghost predicate LockInv(s: Store) {
    match s.lock
    case Free => true
    case Submitting(_, copy) => NoOverlap(copy.apexes, s.sessions)
    case Readying(id, copy) => NoOverlap(copy.apexes, s.sessions - {id})
  }

  ghost predicate Inv(s: Store) {
    Safe(s.sessions) && LockInv(s)
  }

  lemma CommitKeepsSafe(ss: Sessions, id: int, session: Session)
    requires Safe(ss) && NoOverlap(session.apexes, ss - {id})
    ensures Safe(ss[id := session])
  {
    var ss' := ss[id := session];
    forall i | i in ss' && i != id
      ensures i in ss - {id} && ss'[i] == ss[i]
    {
    }
  }

  lemma StepKeepsInv(s: Store, a: Action)
    requires Inv(s) && Enabled(s, a)
    ensures Inv(Next(s, a))
  {
    var ss := s.sessions;
    match a
    case SubmitCommit(ok) =>
      assert forall i | i in ss - {s.lock.id} :: i in ss;
      CommitKeepsSafe(ss, s.lock.id, s.lock.copy.(state := VERIFIED));
    case ReadyCommit(ok) =>
      CommitKeepsSafe(ss, s.lock.id, s.lock.copy.(state := STAGED));
    case ReadyRead(id) =>
      forall i | i in ss - {id}
        ensures ss[i].state != VERIFIED
        ensures ss[i].state == STAGED ==> Names(ss[i].apexes) !! Names(ss[id].apexes)
      {
        assert i in ss && i != id;
      }
    case UnlockedCommit(id, copy) =>
      UnlockedKeepsInv(s, id, copy);
    case Abort(id) =>
      DropKeepsInv(s, id);
    case DeleteFinalized(id) =>
      DropKeepsInv(s, id);
    case _ =>
  }

  lemma UnlockedKeepsInv(s: Store, id: int, copy: Session)
    requires Inv(s) && UnlockedTarget(copy.state)
    ensures Inv(s.(sessions := s.sessions[id := copy]))
  {
    var ss' := s.sessions[id := copy];
    assert forall i | i in ss' && Busy(ss'[i]) :: i != id && i in s.sessions && ss'[i] == s.sessions[i];
    if s.lock.Readying? {
      assert forall i | i in ss' - {s.lock.id} && Busy(ss'[i]) :: i in s.sessions - {s.lock.id};
    }
  }

  lemma DropKeepsInv(s: Store, id: int)
    requires Inv(s)
    ensures Inv(s.(sessions := s.sessions - {id}))
  {
    var ss' := s.sessions - {id};
    assert forall i | i in ss' :: i in s.sessions && ss'[i] == s.sessions[i];
    if s.lock.Readying? {
      assert forall i | i in ss' - {s.lock.id} :: i in s.sessions - {s.lock.id};
    }
  }

  // ---------------------------------------------------------------------
  // Whole runs
  // ---------------------------------------------------------------------

  ghost predicate IsRun(states: seq<Store>, acts: seq<Action>) {
    |states| == |acts| + 1
    && states[0] == Store(map[], Free)
    && forall k | 0 <= k < |acts| ::
         Enabled(states[k], acts[k]) && states[k + 1] == Next(states[k], acts[k])
  }

  /**
   In every run, in every state of it, at most one session is VERIFIED and the
   VERIFIED and STAGED sessions hold pairwise disjoint package names.
   */
  lemma {:induction false} RunIsSafe(states: seq<Store>, acts: seq<Action>, k: nat)
    requires IsRun(states, acts) && k < |states|
    ensures Inv(states[k])
    ensures OneVerified(states[k].sessions) && DisjointNames(states[k].sessions)
  {
    if k > 0 {
      RunIsSafe(states, acts, k - 1);
      assert states[k] == Next(states[k - 1], acts[k - 1]);
      StepKeepsInv(states[k - 1], acts[k - 1]);
    }
  }

  // ---------------------------------------------------------------------
  // Sessions that come back
  // ---------------------------------------------------------------------

  /** A commit under the lock that leaves session id STAGED. */
  ghost predicate CommitsReady(s: Store, a: Action, id: int) {
    a.ReadyCommit? && a.ok && s.lock.Readying? && s.lock.id == id
  }

  /** A commit under the lock that leaves session id VERIFIED. */
  ghost predicate CommitsSubmit(s: Store, a: Action, id: int) {
    a.SubmitCommit? && a.ok && s.lock.Submitting? && s.lock.id == id
  }

  /** The step stores or deletes session id. */
  ghost predicate Writes(s: Store, a: Action, id: int) {
    || CommitsReady(s, a, id) || CommitsSubmit(s, a, id)
    || ((a.UnlockedCommit? || a.Abort? || a.DeleteFinalized?) && a.id == id)
  }

  ghost predicate Holds(ss: Sessions, id: int, state: SessionState) {
    id in ss && ss[id].state == state
  }

  lemma StepOn(s: Store, a: Action, id: int)
    requires Enabled(s, a)
    ensures var ss, ss' := s.sessions, Next(s, a).sessions;
            && (!Writes(s, a, id) ==> (id in ss' <==> id in ss) && (id in ss ==> ss'[id] == ss[id]))
            && (Writes(s, a, id) ==> (Holds(ss', id, STAGED) <==> CommitsReady(s, a, id)))
            && (Writes(s, a, id) ==> (Holds(ss', id, VERIFIED) <==> CommitsSubmit(s, a, id)))
  {
  }

  /** Whoever readies a session read it VERIFIED, and has held the lock since. */
  lemma {:induction false} ReadyWasRead(states: seq<Store>, acts: seq<Action>, k: nat) returns (j: nat)
    requires IsRun(states, acts) && k < |states| && states[k].lock.Readying?
    ensures j < k && acts[j] == ReadyRead(states[k].lock.id)
    ensures Holds(states[j].sessions, states[k].lock.id, VERIFIED)
    ensures forall i | j < i <= k :: states[i].lock == states[k].lock
  {
    assert k > 0;
    assert states[k - 1 + 1] == Next(states[k - 1], acts[k - 1]);
    if acts[k - 1].ReadyRead? {
      j := k - 1;
    } else {
      j := ReadyWasRead(states, acts, k - 1);
    }
  }

  /**
   In every run, a finalized session comes back as VERIFIED or STAGED exactly by a
   submit that reuses its id, or by the commit of a call that had read it VERIFIED,
   under the lock it still holds, before it was finalized.
   */
  lemma FinalizedComesBack(states: seq<Store>, acts: seq<Action>, k: nat, id: int)
    requires IsRun(states, acts) && k < |acts|
    requires id in states[k].sessions && IsFinalized(states[k].sessions[id].state)
    ensures Holds(states[k + 1].sessions, id, VERIFIED) <==> CommitsSubmit(states[k], acts[k], id)
    ensures Holds(states[k + 1].sessions, id, STAGED) <==> CommitsReady(states[k], acts[k], id)
    ensures CommitsReady(states[k], acts[k], id) ==>
              exists j | 0 <= j < k ::
                && acts[j] == ReadyRead(id) && Holds(states[j].sessions, id, VERIFIED)
                && forall i | j < i <= k :: states[i].lock == states[k].lock
  {
    assert states[k + 1] == Next(states[k], acts[k]);
    StepOn(states[k], acts[k], id);
    if CommitsReady(states[k], acts[k], id) {
      var j := ReadyWasRead(states, acts, k);
    }
  }

  /** The last step of the window that stores session id is the commit of a ready call. */
  ghost predicate ReadiedLast(states: seq<Store>, acts: seq<Action>, a: nat, b: nat, id: int)
    requires |states| == |acts| + 1 && b < |states|
  {
    exists k | a <= k < b ::
      && CommitsReady(states[k], acts[k], id)
      && forall m | k < m < b :: !Writes(states[m], acts[m], id)
  }

  ghost predicate Written(states: seq<Store>, acts: seq<Action>, a: nat, b: nat, id: int)
    requires |states| == |acts| + 1 && b < |states|
  {
    exists k | a <= k < b :: Writes(states[k], acts[k], id)
  }

  lemma OneStepMore(states: seq<Store>, acts: seq<Action>, a: nat, b: nat, id: int)
    requires |states| == |acts| + 1 && a < b < |states|
    ensures (Written(states, acts, a, b, id)
        <==> Writes(states[b - 1], acts[b - 1], id) || Written(states, acts, a, b - 1, id))
    ensures (ReadiedLast(states, acts, a, b, id)
        <==> if Writes(states[b - 1], acts[b - 1], id) then CommitsReady(states[b - 1], acts[b - 1], id)
             else ReadiedLast(states, acts, a, b - 1, id))
  {
    var s, act := states[b - 1], acts[b - 1];
    assert CommitsReady(s, act, id) ==> Writes(s, act, id);
    hide Writes, CommitsReady;
    if !Writes(s, act, id) && ReadiedLast(states, acts, a, b - 1, id) {
      var k :| a <= k < b - 1 && CommitsReady(states[k], acts[k], id)
               && forall m | k < m < b - 1 :: !Writes(states[m], acts[m], id);
      assert forall m | k < m < b :: !Writes(states[m], acts[m], id);
    }
  }

  /** After a window of steps the last writer of a session decides whether it is STAGED. */
  lemma {:induction false} LastWriterDecides(states: seq<Store>, acts: seq<Action>, a: nat, b: nat, id: int)
    requires IsRun(states, acts) && a <= b < |states|
    requires Holds(states[a].sessions, id, STAGED) ==> Written(states, acts, a, b, id)
    ensures Holds(states[b].sessions, id, STAGED) <==> ReadiedLast(states, acts, a, b, id)
    decreases b
  {
    if b > a {
      var s, act := states[b - 1], acts[b - 1];
      assert Enabled(s, act) && states[b - 1 + 1] == Next(s, act);
      hide Enabled, Next, Writes, CommitsReady, IsRun, Written, ReadiedLast;
      StepOn(s, act, id);
      OneStepMore(states, acts, a, b, id);
      if !Writes(s, act, id) {
        LastWriterDecides(states, acts, a, b - 1, id);
      }
    }
  }

  /** Every session STAGED at the start of the window is finalized by a commit inside it. */
  ghost predicate RevertsAll(states: seq<Store>, acts: seq<Action>, a: nat, b: nat)
    requires |states| == |acts| + 1 && a <= b < |states|
  {
    forall id | Holds(states[a].sessions, id, STAGED) ::
      exists k | a <= k < b :: acts[k].UnlockedCommit? && acts[k].id == id && IsFinalized(acts[k].copy.state)
  }

  /**
   A finished revert, with the steps of all other calls in between: a session is
   STAGED after it exactly when a ready call had the last word on that session.
   */
  lemma RevertLeavesNothingStaged(states: seq<Store>, acts: seq<Action>, a: nat, b: nat)
    requires IsRun(states, acts) && a <= b < |states| && RevertsAll(states, acts, a, b)
    ensures forall id :: Holds(states[b].sessions, id, STAGED) <==> ReadiedLast(states, acts, a, b, id)
  {
    forall id: int
      ensures Holds(states[b].sessions, id, STAGED) <==> ReadiedLast(states, acts, a, b, id)
    {
      if Holds(states[a].sessions, id, STAGED) {
        var k :| a <= k < b && acts[k].UnlockedCommit? && acts[k].id == id;
        assert Writes(states[k], acts[k], id);
      }
      LastWriterDecides(states, acts, a, b, id);
    }
  }

  /**
   That does happen: a session is read for readying, reverted by a call that takes no
   lock, and then committed as STAGED.
   */
  lemma RevertedComesBack(apexes: seq<ApexFile>, fp: string) returns (states: seq<Store>, acts: seq<Action>)
    ensures IsRun(states, acts) && |acts| == 6
    ensures Holds(states[5].sessions, 1, REVERTED) && Holds(states[6].sessions, 1, STAGED)
  {
    var s := Session(UNKNOWN, apexes, fp);
    var verified, begun, done := s.(state := VERIFIED), s.(state := REVERT_IN_PROGRESS), s.(state := REVERTED);
    acts := [SubmitCheck(1, apexes, fp), SubmitCommit(true), ReadyRead(1), UnlockedCommit(1, begun),
             UnlockedCommit(1, done), ReadyCommit(true)];
    states := [Store(map[], Free), Store(map[], Submitting(1, s)), Store(map[1 := verified], Free),
               Store(map[1 := verified], Readying(1, verified)), Store(map[1 := begun], Readying(1, verified)),
               Store(map[1 := done], Readying(1, verified)), Store(map[1 := s.(state := STAGED)], Free)];
    assert states[1] == Next(states[0], acts[0]);
    assert states[2] == Next(states[1], acts[1]);
    assert states[3] == Next(states[2], acts[2]);
    assert states[4] == Next(states[3], acts[3]);
    assert states[5] == Next(states[4], acts[4]);
    assert states[6] == Next(states[5], acts[5]);
  }

  // ---------------------------------------------------------------------
  // Without the lock
  // ---------------------------------------------------------------------

  /** Submits that do not take the lock: any number may be between check and commit. */
  datatype Loose = Loose(sessions: Sessions, pending: map<int, Session>)

  datatype LooseAction = LooseCheck(id: int, apexes: seq<ApexFile>, fingerprint: string) | LooseCommit(id: int)

  ghost predicate LooseEnabled(s: Loose, a: LooseAction) {
    match a
    case LooseCheck(_, apexes, _) => NoOverlap(apexes, s.sessions)
    case LooseCommit(id) => id in s.pending
  }

  ghost function LooseNext(s: Loose, a: LooseAction): Loose
    requires LooseEnabled(s, a)
  {
    match a
    case LooseCheck(id, apexes, fp) => s.(pending := s.pending[id := Session(VERIFIED, apexes, fp)])
    case LooseCommit(id) => Loose(s.sessions[id := s.pending[id]], s.pending - {id})
  }

  ghost predicate IsLooseRun(states: seq<Loose>, acts: seq<LooseAction>) {
    && |states| == |acts| + 1 && states[0] == Loose(map[], map[])
    && forall k | 0 <= k < |acts| ::
         LooseEnabled(states[k], acts[k]) && states[k + 1] == LooseNext(states[k], acts[k])
  }

  /**
   The lock is what the theorem rests on: without it two submits of one package
   check before either commits, and end as two VERIFIED sessions with one name.
   */
  lemma ChecksWithoutTheLock(apexes: seq<ApexFile>, fp: string)
    returns (states: seq<Loose>, acts: seq<LooseAction>)
    requires apexes != []
    ensures IsLooseRun(states, acts) && |acts| == 4
    ensures !OneVerified(states[4].sessions) && !DisjointNames(states[4].sessions)
  {
    var s := Session(VERIFIED, apexes, fp);
    var ss: Sessions := map[1 := s, 2 := s];
    acts := [LooseCheck(1, apexes, fp), LooseCheck(2, apexes, fp), LooseCommit(1), LooseCommit(2)];
    states := [Loose(map[], map[]), Loose(map[], map[1 := s]), Loose(map[], map[1 := s, 2 := s]),
               Loose(map[1 := s], map[2 := s]), Loose(ss, map[])];
    assert states[1] == LooseNext(states[0], acts[0]);
    assert states[2] == LooseNext(states[1], acts[1]);
    assert states[3] == LooseNext(states[2], acts[2]);
    assert states[4] == LooseNext(states[3], acts[3]);
    assert ss[1].state == VERIFIED && ss[2].state == VERIFIED;
    assert apexes[0].name in Names(ss[1].apexes) && apexes[0].name in Names(ss[2].apexes);
    assert Busy(ss[1]) && Busy(ss[2]);
  }

  // ---------------------------------------------------------------------
  // The overlap check as it runs
  // ---------------------------------------------------------------------

  datatype Overlap = Okay | BeingStaged(id: int) | AlreadyStaged(id: int, name: string)

  /** VerifyNoOverlapInSessions, over the sessions in the order they are listed. */
  method VerifyNoOverlap(apexes: seq<ApexFile>, ss: Sessions, order: seq<int>) returns (r: Overlap)
    requires forall j | 0 <= j < |order| :: order[j] in ss
    requires forall i | i in ss :: i in order
    ensures r.Okay? <==> NoOverlap(apexes, ss)
    ensures r.BeingStaged? ==> r.id in ss && ss[r.id].state == VERIFIED
    ensures r.AlreadyStaged? ==>
              r.id in ss && ss[r.id].state == STAGED
              && r.name in Names(apexes) && r.name in Names(ss[r.id].apexes)
  {
    var k := 0;
    while k < |order|
      invariant 0 <= k <= |order|
      invariant forall j | 0 <= j < k ::
          ss[order[j]].state != VERIFIED
          && (ss[order[j]].state == STAGED ==> Names(ss[order[j]].apexes) !! Names(apexes))
    {
      var id := order[k];
      if ss[id].state == VERIFIED {
        return BeingStaged(id);
      }
      if ss[id].state == STAGED {
        var m := 0;
        while m < |apexes|
          invariant 0 <= m <= |apexes|
          invariant forall j | 0 <= j < m :: apexes[j].name !in Names(ss[id].apexes)
        {
          if apexes[m].name in Names(ss[id].apexes) {
            return AlreadyStaged(id, apexes[m].name);
          }
          m := m + 1;
        }
      }
      k := k + 1;
    }
    return Okay;
  }
}
