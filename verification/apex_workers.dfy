/**
 The activation workers and the queue they share
 (ActivateApexWorker and ActivateApexPackages in research/aosp-src/apexd.cpp).

 Every access to the queue and to the mutex is a step of its own, so a run is any
 interleaving of the workers.
 */
module ApexWorkers {
  import opened Wrappers
  import opened ApexTypes

  datatype Attempt = Attempt(apex: ApexFile, ok: bool)

  /** Where a worker stands in its loop. */
  datatype Pc =
    | Outside                       // about to lock the mutex
    | Inside                        // holds the mutex
    | Read(apex: ApexFile)          // holds it, has read the front
    | Popped(apex: ApexFile)        // holds it, has popped the front
    | Working(apex: ApexFile)       // has released it, is activating
    | Exited

  datatype Worker = Worker(pc: Pc, ret: seq<Attempt>)

  datatype Pool = Pool(queue: seq<ApexFile>, owner: Option<nat>, workers: seq<Worker>)

  datatype Step = Acquire(i: nat) | Leave(i: nat) | Front(i: nat) | Pop(i: nat) | Release(i: nat)
    | Finish(i: nat, ok: bool)

  predicate Enabled(p: Pool, s: Step) {
    s.i < |p.workers|
    && match s
       case Acquire(i) => p.workers[i].pc.Outside? && p.owner.None?
       case Leave(i) => p.workers[i].pc.Inside? && p.queue == []
       case Front(i) => p.workers[i].pc.Inside? && p.queue != []
       case Pop(i) => p.workers[i].pc.Read? && p.queue != []
       case Release(i) => p.workers[i].pc.Popped?
       case Finish(i, _) => p.workers[i].pc.Working?
  }

  function At(p: Pool, i: nat, pc: Pc): seq<Worker>
    requires i < |p.workers|
  {
    p.workers[i := p.workers[i].(pc := pc)]
  }

  function Next(p: Pool, s: Step): Pool
    requires Enabled(p, s)
  {
    match s
    case Acquire(i) => Pool(p.queue, Some(i), At(p, i, Inside))
    case Leave(i) => Pool(p.queue, None, At(p, i, Exited))
    case Front(i) => Pool(p.queue, p.owner, At(p, i, Read(p.queue[0])))
    case Pop(i) => Pool(p.queue[1..], p.owner, At(p, i, Popped(p.workers[i].pc.apex)))
    case Release(i) => Pool(p.queue, None, At(p, i, Working(p.workers[i].pc.apex)))
    case Finish(i, ok) =>
      var w := p.workers[i];
      Pool(p.queue, p.owner, p.workers[i := Worker(Outside, w.ret + [Attempt(w.pc.apex, ok)])])
  }

  /** `threads` is the configured number of workers, 0 for one per package. */
  function Start(apexes: seq<ApexFile>, threads: nat): Pool {
    var n := if threads == 0 || threads > |apexes| then |apexes| else threads;
    Pool(apexes, None, seq(n, i => Worker(Outside, [])))
  }

  // ---------------------------------------------------------------------
  // Where the packages are
  // ---------------------------------------------------------------------

  function Attempted(ret: seq<Attempt>): multiset<ApexFile> {
    if ret == [] then multiset{}
    else Attempted(ret[..|ret| - 1]) + multiset{ret[|ret| - 1].apex}
  }

  function Held(w: Worker): multiset<ApexFile> {
    (if w.pc.Popped? || w.pc.Working? then multiset{w.pc.apex} else multiset{}) + Attempted(w.ret)
  }

  /** In flight with, or finished by, one of the workers. */
  function HeldByAll(ws: seq<Worker>): multiset<ApexFile> {
    if ws == [] then multiset{} else HeldByAll(ws[..|ws| - 1]) + Held(ws[|ws| - 1])
  }

  predicate HoldsMutex(pc: Pc) {
    pc.Inside? || pc.Read? || pc.Popped?
  }

  ghost predicate Inv(p: Pool, apexes: seq<ApexFile>) {
    && multiset(p.queue) + HeldByAll(p.workers) == multiset(apexes)
    && (forall i | 0 <= i < |p.workers| :: HoldsMutex(p.workers[i].pc) <==> p.owner == Some(i))
    && (p.owner.Some? ==> p.owner.value < |p.workers|)
    && (forall i | 0 <= i < |p.workers| && p.workers[i].pc.Read? ::
          p.queue != [] && p.queue[0] == p.workers[i].pc.apex)
    && ((exists i | 0 <= i < |p.workers| :: p.workers[i].pc.Exited?) ==> p.queue == [])
    && (p.workers == [] ==> p.queue == [])
  }

  lemma {:induction false} HeldAfterUpdate(ws: seq<Worker>, i: nat, w: Worker)
    requires i < |ws|
    ensures HeldByAll(ws[i := w]) + Held(ws[i]) == HeldByAll(ws) + Held(w)
  {
    hide Held;
    var n := |ws| - 1;
    var ws' := ws[i := w];
    if i < n {
      HeldAfterUpdate(ws[..n], i, w);
      assert ws'[..n] == ws[..n][i := w];
      Exchange(HeldByAll(ws'[..n]), Held(ws[i]), HeldByAll(ws[..n]), Held(w), Held(ws[n]));
    } else {
      assert ws'[..n] == ws[..n];
      Exchange(HeldByAll(ws[..n]), Held(ws[i]), HeldByAll(ws[..n]), Held(ws[i]), Held(w));
    }
  }

  lemma Exchange<T>(a: multiset<T>, b: multiset<T>, c: multiset<T>, d: multiset<T>, e: multiset<T>)
    requires a + b == c + d
    ensures (a + e) + b == (c + e) + d && (a + e) + b == (c + d) + e
  {
    forall x: T
      ensures ((a + e) + b)[x] == ((c + e) + d)[x] == ((c + d) + e)[x]
    {
      assert (a + b)[x] == (c + d)[x];
    }
  }

  lemma Cancel<T>(a: multiset<T>, b: multiset<T>, c: multiset<T>)
    requires a + c == b + c
    ensures a == b
  {
    forall x: T
      ensures a[x] == b[x]
    {
      assert (a + c)[x] == (b + c)[x];
    }
  }

  lemma QueueSplit(q: seq<ApexFile>)
    requires q != []
    ensures multiset(q) == multiset{q[0]} + multiset(q[1..])
  {
    assert q == [q[0]] + q[1..];
  }

  lemma AttemptedMore(ret: seq<Attempt>, a: Attempt)
    ensures Attempted(ret + [a]) == Attempted(ret) + multiset{a.apex}
  {
    assert (ret + [a])[..|ret|] == ret;
  }

  /** No step loses or duplicates a package. */
  lemma StepConserves(p: Pool, s: Step)
    requires Enabled(p, s)
    requires s.Pop? ==> p.queue[0] == p.workers[s.i].pc.apex
    ensures var p' := Next(p, s);
            multiset(p'.queue) + HeldByAll(p'.workers) == multiset(p.queue) + HeldByAll(p.workers)
  {
    hide HeldByAll, Attempted, Held;
    var i, p' := s.i, Next(p, s);
    var w, w' := p.workers[i], p'.workers[i];
    HeldAfterUpdate(p.workers, i, w');
    if s.Pop? {
      QueueSplit(p.queue);
      HeldAfterPop(w);
      Moved(HeldByAll(p.workers), HeldByAll(p'.workers), Held(w), multiset(p'.queue), multiset{w'.pc.apex});
    } else {
      HeldKept(p, s);
      Cancel(HeldByAll(p'.workers), HeldByAll(p.workers), Held(w));
    }
  }

  lemma HeldAfterPop(w: Worker)
    requires w.pc.Read?
    ensures Held(w.(pc := Popped(w.pc.apex))) == multiset{w.pc.apex} + Held(w)
  {
  }

  /** Finishing turns the package in flight into an attempt; other steps hold what was held. */
  lemma HeldKept(p: Pool, s: Step)
    requires Enabled(p, s) && !s.Pop?
    ensures Held(Next(p, s).workers[s.i]) == Held(p.workers[s.i])
  {
    hide Attempted;
    if s.Finish? {
      var w := p.workers[s.i];
      AttemptedMore(w.ret, Attempt(w.pc.apex, s.ok));
    }
  }

  lemma Moved<T>(held: multiset<T>, held': multiset<T>, w: multiset<T>, q: multiset<T>, x: multiset<T>)
    requires held' + w == held + (x + w)
    ensures q + held' == (x + q) + held
  {
    Exchange(held', w, held, x + w, multiset{});
    assert held' + w == (held + x) + w;
    Cancel(held', held + x, w);
  }

  lemma StepKeepsInv(p: Pool, s: Step, apexes: seq<ApexFile>)
    requires Inv(p, apexes) && Enabled(p, s)
    ensures Inv(Next(p, s), apexes)
  {
    hide Attempted, HeldByAll, Held;
    StepConserves(p, s);
    var p' := Next(p, s);
    assert forall j | 0 <= j < |p'.workers| && j != s.i :: p'.workers[j] == p.workers[j];
  }

  lemma {:induction false} NothingHeld(n: nat)
    ensures HeldByAll(seq(n, i => Worker(Outside, []))) == multiset{}
  {
    if n > 0 {
      var ws := seq(n, i => Worker(Outside, []));
      assert ws[..n - 1] == seq(n - 1, i => Worker(Outside, []));
      NothingHeld(n - 1);
    }
  }

  lemma StartInv(apexes: seq<ApexFile>, threads: nat)
    ensures Inv(Start(apexes, threads), apexes)
  {
    NothingHeld(|Start(apexes, threads).workers|);
  }

  // ---------------------------------------------------------------------
  // Whole runs
  // ---------------------------------------------------------------------

  ghost predicate IsRun(pools: seq<Pool>, steps: seq<Step>, apexes: seq<ApexFile>, threads: nat) {
    |pools| == |steps| + 1
    && pools[0] == Start(apexes, threads)
    && forall k | 0 <= k < |steps| :: Enabled(pools[k], steps[k]) && pools[k + 1] == Next(pools[k], steps[k])
  }

  predicate AllExited(p: Pool) {
    forall i | 0 <= i < |p.workers| :: p.workers[i].pc.Exited?
  }

  /** Everything the futures return, worker after worker. */
  function Collected(ws: seq<Worker>): seq<Attempt> {
    if ws == [] then [] else Collected(ws[..|ws| - 1]) + ws[|ws| - 1].ret
  }

  lemma {:induction false} AttemptedAdds(a: seq<Attempt>, b: seq<Attempt>)
    ensures Attempted(a + b) == Attempted(a) + Attempted(b)
  {
    if b == [] {
      assert a + b == a;
    } else {
      var n := |b| - 1;
      assert (a + b)[..|a| + n] == a + b[..n];
      assert Attempted(a + b) == Attempted(a + b[..n]) + multiset{b[n].apex};
      assert Attempted(b) == Attempted(b[..n]) + multiset{b[n].apex};
      hide Attempted;
      AttemptedAdds(a, b[..n]);
    }
  }

  lemma {:induction false} CollectedIsHeld(ws: seq<Worker>)
    requires forall i | 0 <= i < |ws| :: ws[i].pc.Exited?
    ensures Attempted(Collected(ws)) == HeldByAll(ws)
  {
    if ws != [] {
      CollectedIsHeld(ws[..|ws| - 1]);
      AttemptedAdds(Collected(ws[..|ws| - 1]), ws[|ws| - 1].ret);
    }
  }

  lemma {:induction false} RunKeepsInv(pools: seq<Pool>, steps: seq<Step>, apexes: seq<ApexFile>, threads: nat, k: nat)
    requires IsRun(pools, steps, apexes, threads) && k < |pools|
    ensures Inv(pools[k], apexes)
  {
    if k == 0 {
      StartInv(apexes, threads);
    } else {
      RunKeepsInv(pools, steps, apexes, threads, k - 1);
      assert pools[k - 1 + 1] == Next(pools[k - 1], steps[k - 1]);
      StepKeepsInv(pools[k - 1], steps[k - 1], apexes);
    }
  }

  /**
   In every interleaving: queued, in-flight and finished packages together are
   the input; and once every worker has exited, each package was attempted
   exactly as often as it was given.
   */
  lemma EveryPackageOnce(pools: seq<Pool>, steps: seq<Step>, apexes: seq<ApexFile>, threads: nat, k: nat)
    requires IsRun(pools, steps, apexes, threads) && k < |pools|
    ensures multiset(pools[k].queue) + HeldByAll(pools[k].workers) == multiset(apexes)
    ensures AllExited(pools[k]) ==> Attempted(Collected(pools[k].workers)) == multiset(apexes)
  {
    RunKeepsInv(pools, steps, apexes, threads, k);
    var p := pools[k];
    if AllExited(p) {
      assert p.workers != [] ==> p.workers[0].pc.Exited?;
      assert p.queue == [];
      CollectedIsHeld(p.workers);
    }
  }

  // ---------------------------------------------------------------------
  // Every interleaving comes to an end
  // ---------------------------------------------------------------------

  function Rank(pc: Pc): nat {
    match pc
    case Outside => 3
    case Inside => 2
    case Read(_) => 1
    case Popped(_) => 6
    case Working(_) => 5
    case Exited => 0
  }

  function RankAll(ws: seq<Worker>): nat {
    if ws == [] then 0 else RankAll(ws[..|ws| - 1]) + Rank(ws[|ws| - 1].pc)
  }

  function Measure(p: Pool): nat {
    6 * |p.queue| + RankAll(p.workers)
  }

  lemma {:induction false} RankAfterUpdate(ws: seq<Worker>, i: nat, w: Worker)
    requires i < |ws|
    ensures RankAll(ws[i := w]) + Rank(ws[i].pc) == RankAll(ws) + Rank(w.pc)
  {
    var n := |ws| - 1;
    var ws' := ws[i := w];
    if i < n {
      RankAfterUpdate(ws[..n], i, w);
      assert ws'[..n] == ws[..n][i := w];
    } else {
      assert ws'[..n] == ws[..n];
    }
  }

  lemma StepDescends(p: Pool, s: Step)
    requires Enabled(p, s)
    ensures Measure(Next(p, s)) < Measure(p)
  {
    RankAfterUpdate(p.workers, s.i, Next(p, s).workers[s.i]);
  }

  /** No run is longer than its starting measure... */
  lemma {:induction false} RunsEnd(pools: seq<Pool>, steps: seq<Step>, apexes: seq<ApexFile>, threads: nat, k: nat)
    requires IsRun(pools, steps, apexes, threads) && k < |pools|
    ensures k + Measure(pools[k]) <= Measure(Start(apexes, threads))
  {
    if k > 0 {
      RunsEnd(pools, steps, apexes, threads, k - 1);
      assert pools[k - 1 + 1] == Next(pools[k - 1], steps[k - 1]);
      StepDescends(pools[k - 1], steps[k - 1]);
    }
  }

  /** ...and a run stops only when every worker has exited: nobody waits for ever. */
  lemma NoDeadlock(p: Pool, apexes: seq<ApexFile>) returns (s: Step)
    requires Inv(p, apexes) && !AllExited(p)
    ensures Enabled(p, s)
  {
    var i: nat :| i < |p.workers| && !p.workers[i].pc.Exited?;
    if p.owner.Some? {
      i := p.owner.value;
      s := match p.workers[i].pc
           case Inside => if p.queue == [] then Leave(i) else Front(i)
           case Read(_) => Pop(i)
           case _ => Release(i);
    } else {
      s := if p.workers[i].pc.Outside? then Acquire(i) else Finish(i, true);
    }
  }

  // ---------------------------------------------------------------------
  // Counting the results
  // ---------------------------------------------------------------------

  lemma {:induction false} AttemptedSize(ret: seq<Attempt>)
    ensures |Attempted(ret)| == |ret|
  {
    if ret != [] {
      AttemptedSize(ret[..|ret| - 1]);
    }
  }

  /** The counting loops of ActivateApexPackages. */
  method CountResults(ws: seq<Worker>, ghost apexes: seq<ApexFile>) returns (activated: nat, failed: nat)
    requires Attempted(Collected(ws)) == multiset(apexes)
    ensures activated + failed == |apexes|
    ensures activated == |Succeeded(Collected(ws))|
  {
    activated, failed := 0, 0;
    var i := 0;
    while i < |ws|
      invariant 0 <= i <= |ws|
      invariant activated + failed == |Collected(ws[..i])|
      invariant activated == |Succeeded(Collected(ws[..i]))|
    {
      var ret := ws[i].ret;
      ghost var before := Collected(ws[..i]);
      assert before + ret[..0] == before;
      var k := 0;
      while k < |ret|
        invariant 0 <= k <= |ret|
        invariant activated + failed == |before + ret[..k]|
        invariant activated == |Succeeded(before + ret[..k])|
      {
        hide Succeeded, Collected, Attempted;
        assert before + ret[..k + 1] == (before + ret[..k]) + [ret[k]];
        SucceededMore(before + ret[..k], ret[k]);
        if ret[k].ok {
          activated := activated + 1;
        } else {
          failed := failed + 1;
        }
        k := k + 1;
      }
      assert ret[..k] == ret;
      assert ws[..i + 1][..i] == ws[..i];
      i := i + 1;
    }
    assert ws[..i] == ws;
    AttemptedSize(Collected(ws));
  }

  function Succeeded(ret: seq<Attempt>): seq<Attempt> {
    if ret == [] then []
    else Succeeded(ret[..|ret| - 1]) + (if ret[|ret| - 1].ok then [ret[|ret| - 1]] else [])
  }

  lemma SucceededMore(ret: seq<Attempt>, a: Attempt)
    ensures Succeeded(ret + [a]) == Succeeded(ret) + (if a.ok then [a] else [])
  {
    assert (ret + [a])[..|ret|] == ret;
  }
}
