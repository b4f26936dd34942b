/**
 The retry loop of `__mount`: an f2fs mount with checkpoints is tried with a growing
 garbage-collection allowance, then without one, then without checkpoints.
 */
module MountRetry {
  import opened Wrappers

  /** What the kernel says: success, EAGAIN, EINVAL or another error. */
  datatype Reply = Mounted | Again | Invalid | Failed

  /** try_f2fs_gc_allowance, try_f2fs_fallback and gc_allowance when mount() is called. */
  datatype State = State(gc: bool, fallback: bool, allowance: nat)

  /** The checkpoint option of one mount. */
  datatype Attempt = Percent(allowance: nat) | Plain | Bare

  function Choice(s: State): Attempt {
    if s.gc then Percent(s.allowance) else if s.fallback then Plain else Bare
  }

  /** The state of the next mount, or None when the loop ends. */
  function Next(s: State, r: Reply): Option<State> {
    var allowance := if s.gc then s.allowance + 10 else s.allowance;
    if r == Again && allowance <= 100 then Some(s.(allowance := allowance))
    else if r == Invalid && (s.gc || s.fallback) then Some(State(false, !s.fallback, allowance))
    else None
  }

  /** Before mount number n, counted from 0. `checkpoints`: f2fs with checkpoint options. */
  function Before(checkpoints: bool, replies: nat -> Reply, n: nat): Option<State> {
    if n == 0 then Some(State(checkpoints, false, 0))
    else
      match Before(checkpoints, replies, n - 1)
      case None => None
      case Some(s) => Next(s, replies(n - 1))
  }

  /** Mount number n is answered EAGAIN although no allowance is in use. */
  predicate Stuck(checkpoints: bool, replies: nat -> Reply, n: nat) {
    var s := Before(checkpoints, replies, n);
    s.Some? && !s.value.gc && replies(n) == Again
  }

  function StuckBefore(checkpoints: bool, replies: nat -> Reply, n: nat): nat {
    if n == 0 then 0
    else StuckBefore(checkpoints, replies, n - 1) + if Stuck(checkpoints, replies, n - 1) then 1 else 0
  }

  /** What holds of every state the loop reaches. */
  predicate Reachable(s: State) {
    (s.gc ==> !s.fallback && s.allowance <= 100) && s.allowance % 10 == 0 && s.allowance <= 110
  }

  /** How many more mounts there can be without an EAGAIN that gets stuck. */
  function Budget(s: State): (b: nat)
    ensures b >= 1
  {
    if s.gc then (if s.allowance <= 100 then 3 + (100 - s.allowance) / 10 else 3)
    else if s.fallback then 2 else 1
  }

  lemma NextStep(s: State, r: Reply)
    requires Reachable(s) && Next(s, r).Some?
    ensures Reachable(Next(s, r).value)
    ensures !s.gc && r == Again ==> Next(s, r).value == s
    ensures s.gc || r != Again ==> Budget(Next(s, r).value) < Budget(s)
  {
  }

  /** The budget pays for every mount but the stuck ones. */
  lemma {:induction false} MountsPaid(checkpoints: bool, replies: nat -> Reply, n: nat)
    ensures var s := Before(checkpoints, replies, n);
            s.Some? ==> Reachable(s.value) && n + Budget(s.value) <= 13 + StuckBefore(checkpoints, replies, n)
  {
    if n > 0 {
      MountsPaid(checkpoints, replies, n - 1);
      var s := Before(checkpoints, replies, n - 1);
      hide Budget, Reachable, Next;
      if Before(checkpoints, replies, n).Some? {
        NextStep(s.value, replies(n - 1));
      }
    }
  }

  /** Never more than 13 mounts, plus one for each EAGAIN given without the allowance. */
  lemma MountsBounded(checkpoints: bool, replies: nat -> Reply, n: nat)
    requires n >= 13 + StuckBefore(checkpoints, replies, n)
    ensures Before(checkpoints, replies, n).None?
  {
    hide Before, StuckBefore;
    MountsPaid(checkpoints, replies, n);
  }

  lemma {:induction false} NeverStuck(checkpoints: bool, replies: nat -> Reply, n: nat)
    requires forall i | 0 <= i < n :: !Stuck(checkpoints, replies, i)
    ensures StuckBefore(checkpoints, replies, n) == 0
  {
    hide Stuck;
    if n > 0 {
      NeverStuck(checkpoints, replies, n - 1);
    }
  }

  /** When the kernel says EAGAIN only to mounts with an allowance, 13 mounts are the most. */
  lemma AtMostThirteen(checkpoints: bool, replies: nat -> Reply)
    requires forall i | 0 <= i < 13 :: !Stuck(checkpoints, replies, i)
    ensures Before(checkpoints, replies, 13).None?
  {
    hide Before, Stuck;
    NeverStuck(checkpoints, replies, 13);
    MountsBounded(checkpoints, replies, 13);
  }

  /** Thirteen are needed: EAGAIN up to 90%, then EINVAL for good. */
  lemma ThirteenHappen()
    ensures var replies := (i: nat) => if i < 10 then Again else Invalid;
            Before(true, replies, 12) == Some(State(false, false, 110))
  {
    var replies := (i: nat) => if i < 10 then Again else Invalid;
    Climb(replies, 10);
    assert Before(true, replies, 11) == Some(State(false, true, 110));
  }

  lemma {:induction false} Climb(replies: nat -> Reply, n: nat)
    requires n <= 10 && forall i | 0 <= i < n :: replies(i) == Again
    ensures Before(true, replies, n) == Some(State(true, false, 10 * n))
  {
    if n > 0 {
      Climb(replies, n - 1);
    }
  }

  /** While the allowance is in use, mount n tries 10n percent. */
  lemma {:induction false} AllowanceGrows(checkpoints: bool, replies: nat -> Reply, n: nat)
    ensures var s := Before(checkpoints, replies, n);
            s.Some? && s.value.gc ==> checkpoints && Choice(s.value) == Percent(10 * n) && n <= 10
  {
    MountsPaid(checkpoints, replies, n);
    if n > 0 {
      AllowanceGrows(checkpoints, replies, n - 1);
    }
  }

  /**
   The order of the attempts: 0%, 10%, ... 100% in steps of ten, the plain option after
   an EINVAL, no option after a second EINVAL; never back.
   */
  lemma AttemptsInOrder(checkpoints: bool, replies: nat -> Reply, n: nat)
    requires Before(checkpoints, replies, n + 1).Some?
    ensures var now, after := Before(checkpoints, replies, n).value, Before(checkpoints, replies, n + 1).value;
            match Choice(now)
            case Percent(a) => (if replies(n) == Again then Choice(after) == Percent(a + 10) && a <= 90
                                else replies(n) == Invalid && Choice(after) == Plain)
            case Plain => (if replies(n) == Again then Choice(after) == Plain
                           else replies(n) == Invalid && Choice(after) == Bare)
            case Bare => replies(n) == Again && Choice(after) == Bare
  {
    MountsPaid(checkpoints, replies, n);
  }

  // ---------------------------------------------------------------------
  // When the loop ends
  // ---------------------------------------------------------------------

  ghost predicate Ends(checkpoints: bool, replies: nat -> Reply) {
    exists n: nat :: Before(checkpoints, replies, n).None?
  }

  /**
   From mount m on, no allowance is in use, the allowance never got past 100, and
   every reply is EAGAIN.
   */
  ghost predicate StuckFrom(checkpoints: bool, replies: nat -> Reply, m: nat) {
    var s := Before(checkpoints, replies, m);
    s.Some? && !s.value.gc && s.value.allowance <= 100 && forall k: nat | k >= m :: replies(k) == Again
  }

  lemma {:induction false} EndedStays(checkpoints: bool, replies: nat -> Reply, n: nat, k: nat)
    requires Before(checkpoints, replies, n).None? && n <= k
    ensures Before(checkpoints, replies, k).None?
    decreases k
  {
    if n < k {
      EndedStays(checkpoints, replies, n, k - 1);
    }
  }

  /** EAGAINs without an allowance leave the state as it is. */
  lemma {:induction false} Waiting(checkpoints: bool, replies: nat -> Reply, m: nat, k: nat)
    requires m <= k && Before(checkpoints, replies, m).Some? && !Before(checkpoints, replies, m).value.gc
    requires forall i | m <= i < k :: replies(i) == Again
    requires Before(checkpoints, replies, m).value.allowance <= 100
    ensures Before(checkpoints, replies, k) == Before(checkpoints, replies, m)
    decreases k
  {
    if m < k {
      Waiting(checkpoints, replies, m, k - 1);
    }
  }

  lemma StuckNeverEnds(checkpoints: bool, replies: nat -> Reply, m: nat, n: nat)
    requires StuckFrom(checkpoints, replies, m)
    ensures Before(checkpoints, replies, n).Some?
  {
    hide Before;
    if n < m {
      if Before(checkpoints, replies, n).None? {
        EndedStays(checkpoints, replies, n, m);
      }
    } else {
      Waiting(checkpoints, replies, m, n);
    }
  }

  lemma FirstOther(replies: nat -> Reply, m: nat, k: nat) returns (j: nat)
    requires m <= k && replies(k) != Again
    ensures m <= j <= k && replies(j) != Again && forall i | m <= i < j :: replies(i) == Again
  {
    j := m;
    while replies(j) == Again
      invariant m <= j <= k && forall i | m <= i < j :: replies(i) == Again
      decreases k - j
    {
      j := j + 1;
    }
  }

  lemma {:induction false} FindEnd(checkpoints: bool, replies: nat -> Reply, m: nat) returns (n: nat)
    requires Before(checkpoints, replies, m).Some?
    requires forall i: nat :: !StuckFrom(checkpoints, replies, i)
    ensures Before(checkpoints, replies, n).None?
    decreases Budget(Before(checkpoints, replies, m).value)
  {
    var s, j := Before(checkpoints, replies, m).value, m;
    MountsPaid(checkpoints, replies, m);
    if !s.gc && s.allowance <= 100 {
      assert !StuckFrom(checkpoints, replies, m);
      var k: nat :| k >= m && replies(k) != Again;
      j := FirstOther(replies, m, k);
      Waiting(checkpoints, replies, m, j);
    }
    assert Before(checkpoints, replies, j + 1) == Next(s, replies(j));
    hide Before, StuckFrom;
    if Next(s, replies(j)).None? {
      n := j + 1;
    } else {
      NextStep(s, replies(j));
      n := FindEnd(checkpoints, replies, j + 1);
    }
  }

  /** The loop ends for exactly those kernels that do not get it stuck. */
  lemma EndsUnlessStuck(checkpoints: bool, replies: nat -> Reply)
    ensures Ends(checkpoints, replies) <==> forall m: nat :: !StuckFrom(checkpoints, replies, m)
  {
    if forall m: nat :: !StuckFrom(checkpoints, replies, m) {
      assert Before(checkpoints, replies, 0).Some?;
      var n := FindEnd(checkpoints, replies, 0);
    } else {
      var m: nat :| StuckFrom(checkpoints, replies, m);
      hide Before, StuckFrom;
      forall n: nat
        ensures Before(checkpoints, replies, n).Some?
      {
        StuckNeverEnds(checkpoints, replies, m, n);
      }
    }
  }

  /** A mount without checkpoints and a kernel that never stops saying EAGAIN. */
  lemma CanBeStuck()
    ensures !Ends(false, (i: nat) => Again)
  {
    var replies: nat -> Reply := (i: nat) => Again;
    assert StuckFrom(false, replies, 0);
    EndsUnlessStuck(false, replies);
  }

  // ---------------------------------------------------------------------
  // The loop
  // ---------------------------------------------------------------------

  /** What the top of the loop makes of its variables and the saved errno. */
  function Pending(gc: bool, fallback: bool, allowance: nat, last: Reply): State {
    if last == Invalid && (gc || fallback) then State(false, !fallback, allowance)
    else State(gc, fallback, allowance)
  }

  /** The attempts are those of the run, and the run has got that far. */
  ghost predicate Recorded(checkpoints: bool, replies: nat -> Reply, attempts: seq<Attempt>) {
    forall i | 0 <= i < |attempts| ::
      var s := Before(checkpoints, replies, i);
      s.Some? && attempts[i] == Choice(s.value)
  }

  lemma RecordedMore(checkpoints: bool, replies: nat -> Reply, attempts: seq<Attempt>, now: State)
    requires Recorded(checkpoints, replies, attempts) && Before(checkpoints, replies, |attempts|) == Some(now)
    ensures Recorded(checkpoints, replies, attempts + [Choice(now)])
    ensures Before(checkpoints, replies, |attempts| + 1) == Next(now, replies(|attempts|))
  {
  }

  lemma StepOfLoop(now: State, r: Reply)
    ensures var allowance := if now.gc then now.allowance + 10 else now.allowance;
            if (r == Again && allowance <= 100) || (r == Invalid && (now.gc || now.fallback))
            then Next(now, r) == Some(Pending(now.gc, now.fallback, allowance, r))
            else Next(now, r) == None
  {
  }

  /** `n` bounds the loop; it is not part of the code. Returns the attempts, in order. */
  method Mount(f2fs: bool, checkpointOptions: string, replies: nat -> Reply, ghost n: nat)
    returns (attempts: seq<Attempt>, last: Reply)
    requires Before(f2fs && checkpointOptions != "", replies, n).None?
    ensures Recorded(f2fs && checkpointOptions != "", replies, attempts)
    ensures Before(f2fs && checkpointOptions != "", replies, |attempts|).None?
    ensures 0 < |attempts| && last == replies(|attempts| - 1)
  {
    var gc, fallback, allowance := f2fs && checkpointOptions != "", false, 0;
    ghost var checkpoints := gc;
    attempts, last := [], Mounted;
    assert Recorded(checkpoints, replies, attempts);
    assert Before(checkpoints, replies, 0) == Some(Pending(gc, fallback, allowance, last));
    hide Before, Recorded, Next;
    var running := true;
    while running
      invariant Recorded(checkpoints, replies, attempts)
      invariant attempts != [] ==> last == replies(|attempts| - 1)
      invariant running ==> Before(checkpoints, replies, |attempts|) == Some(Pending(gc, fallback, allowance, last))
      invariant !running ==> attempts != [] && Before(checkpoints, replies, |attempts|) == None
      decreases running, n - |attempts|
    {
      ghost var now := Pending(gc, fallback, allowance, last);
      if last == Invalid && (gc || fallback) {
        gc := false;
        fallback := !fallback;
      }
      if n <= |attempts| {
        EndedStays(checkpoints, replies, n, |attempts|);
      }
      RecordedMore(checkpoints, replies, attempts, now);
      var option := if gc then Percent(allowance) else if fallback then Plain else Bare;
      last := replies(|attempts|);
      StepOfLoop(now, last);
      attempts := attempts + [option];
      if gc {
        allowance := allowance + 10;
      }
      running := (last == Again && allowance <= 100) || (last == Invalid && (gc || fallback));
    }
  }
}
