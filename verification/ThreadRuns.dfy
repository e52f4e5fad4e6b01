/**
 The guest thread protocol over whole runs: every interleaving of creation, joining,
 detaching, ending, reaping and shutdown keeps the invariant, so every reachable state
 has the properties below.
 */
module ThreadRuns {
  import opened ThreadModel
  import opened ThreadSafety

  lemma WorkerStepKeeps(p: Proc, a: Step)
    requires Safe(p) && Enabled(p, a) && (a.WorkerRuns? || a.UserReturns? || a.WorkerFinishes? || a.HostEnds?)
    ensures Safe(Apply(p, a))
  {
    if a.HostEnds? {
      HostEndsKeeps(p, a.t);
    } else {
      CallerStarted(p, a.t);
      PhaseKeeps(p, a.t, if a.WorkerRuns? then Running else if a.UserReturns? then Exiting else Finished);
    }
  }

  lemma CallerStarted(p: Proc, t: nat)
    requires Safe(p) && 0 < t < |p.recs|
    requires CanCall(p, t) || (p.hist[t].started && p.recs[t].phase == Idle)
    ensures p.hist[t].started && !Over(p.recs[t])
  {
  }

  lemma CallStepKeeps(p: Proc, a: Step)
    requires Safe(p) && Enabled(p, a)
    requires a.Reserve? || a.InitFails? || a.Start? || a.CreateStarted? || a.FreeFailed? || a.JoinBegins?
          || a.JoinReturns? || a.JoinEnds? || a.JoinFrees? || a.Detach?
    ensures Safe(Apply(p, a))
  {
    hide Safe, WellShaped;
    match a
    case Reserve(c) => ReserveKeeps(p, c);
    case InitFails(c) => AbandonKeeps(p, c);
    case Start(c, ok) => if ok { StartKeeps(p, c); } else { AbandonKeeps(p, c); }
    case CreateStarted(c, ok) => CreatedKeeps(p, c, ok);
    case FreeFailed(c) => CallFreedKeeps(p, c);
    case JoinBegins(c, tid) => JoinBeginsKeeps(p, c, tid);
    case JoinReturns(c) => JoinReturnsKeeps(p, c);
    case JoinEnds(c) => JoinEndsKeeps(p, c);
    case JoinFrees(c) => CallFreedKeeps(p, c);
    case Detach(c, tid) => DetachKeeps(p, c, tid);
  }

  lemma BatchStepKeeps(p: Proc, a: Step)
    requires Safe(p) && Enabled(p, a)
    requires a.ReapTakes? || a.BatchJoins? || a.BatchFrees? || a.ReapEnds? || a.ShutdownReaps?
          || a.ShutdownCollects? || a.ShutdownClears? || a.MainFreed?
    ensures Safe(Apply(p, a))
  {
    hide Safe, WellShaped;
    match a
    case ReapTakes(c) => ReapTakesKeeps(p, c);
    case BatchJoins(c) => HeadJoinedKeeps(p, c);
    case BatchFrees(c) => HeadFreedKeeps(p, c);
    case ReapEnds(c) => ReapEndsKeeps(p, c);
    case ShutdownReaps => ShutdownReapsKeeps(p);
    case ShutdownCollects => CollectsKeeps(p);
    case ShutdownClears => ClearsKeeps(p);
    case MainFreed => MainFreedKeeps(p);
  }

  lemma MainStepKeeps(p: Proc, a: Step)
    requires Safe(p) && Enabled(p, a) && (a.ShutdownBegins? || a.WorkersQuiet? || a.JoinsDone?)
    ensures Safe(Apply(p, a))
  {
    hide ThreadOk, CallOk, TidsOk, SlotsOk, JoinCount, CallInRange, ThreadPending;
    if a.ShutdownBegins? {
      MainCallKeeps(p, InShutdown(0, [], false), true);
    } else if a.WorkersQuiet? {
      QuietWhenNonePending(p);
      MainCallKeeps(p, InShutdown(1, [], false), true);
    } else {
      MainCallKeeps(p, InShutdown(2, [], false), true);
    }
  }

  /** Every step of every actor keeps the invariant. */
  lemma StepKeeps(p: Proc, a: Step)
    requires Safe(p) && Enabled(p, a)
    ensures Safe(Apply(p, a))
  {
    hide Safe, WellShaped, Enabled, Apply;
    match a
    case WorkerRuns(_) => WorkerStepKeeps(p, a);
    case UserReturns(_) => WorkerStepKeeps(p, a);
    case WorkerFinishes(_) => WorkerStepKeeps(p, a);
    case HostEnds(_) => WorkerStepKeeps(p, a);
    case ShutdownBegins => MainStepKeeps(p, a);
    case WorkersQuiet => MainStepKeeps(p, a);
    case JoinsDone => MainStepKeeps(p, a);
    case Reserve(_) => CallStepKeeps(p, a);
    case InitFails(_) => CallStepKeeps(p, a);
    case Start(_, _) => CallStepKeeps(p, a);
    case CreateStarted(_, _) => CallStepKeeps(p, a);
    case FreeFailed(_) => CallStepKeeps(p, a);
    case JoinBegins(_, _) => CallStepKeeps(p, a);
    case JoinReturns(_) => CallStepKeeps(p, a);
    case JoinEnds(_) => CallStepKeeps(p, a);
    case JoinFrees(_) => CallStepKeeps(p, a);
    case Detach(_, _) => CallStepKeeps(p, a);
    case ReapTakes(_) => BatchStepKeeps(p, a);
    case BatchJoins(_) => BatchStepKeeps(p, a);
    case BatchFrees(_) => BatchStepKeeps(p, a);
    case ReapEnds(_) => BatchStepKeeps(p, a);
    case ShutdownReaps => BatchStepKeeps(p, a);
    case ShutdownCollects => BatchStepKeeps(p, a);
    case ShutdownClears => BatchStepKeeps(p, a);
    case MainFreed => BatchStepKeeps(p, a);
  }

  lemma {:induction false} RunKeeps(p: Proc, run: seq<Step>, q: Proc)
    requires Safe(p) && RunFrom(p, run, q)
    ensures Safe(q)
    decreases |run|
  {
    hide Safe, Enabled, Apply, WellShaped;
    if run != [] {
      StepKeeps(p, run[0]);
      RunKeeps(Apply(p, run[0]), run[1..], q);
    }
  }

  lemma ReachableSafe(arch: Arch, p: Proc)
    requires Reachable(arch, p)
    ensures Safe(p)
  {
    hide Safe, RunFrom;
    InitialSafe(arch);
    var run :| RunFrom(Initial(arch), run, p);
    RunKeeps(Initial(arch), run, p);
  }

  // ---- what holds in every reachable state ----

  /** At most one join and one free for each worker, in that order, and only after its end. */
  lemma JoinedAndFreedOnce(arch: Arch, p: Proc, t: nat)
    requires Reachable(arch, p) && WellShaped(p) && 0 < t < |p.hist|
    ensures p.hist[t].joins <= 1 && p.hist[t].frees <= 1
    ensures p.hist[t].joins == 1 ==> p.hist[t].exited && Over(p.recs[t])
    ensures p.hist[t].frees == 1 && p.hist[t].started ==> p.hist[t].exited && p.hist[t].joins == 1
    ensures !p.hist[t].started ==> p.hist[t].joins == 0
  {
    ReachableSafe(arch, p);
    hide MainOk, TableOk, TidsOk, SlotsOk;
    assert ThreadOk(p, t);
  }

  /** A join in flight excludes detaching, and active_joins counts the joins in flight. */
  lemma JoiningIsExclusive(arch: Arch, p: Proc)
    requires Reachable(arch, p)
    ensures forall t :: 0 <= t < |p.recs| ==> !(p.recs[t].detached && p.recs[t].joining)
    ensures p.activeJoins == JoinCount(p.calls)
    ensures forall c, d :: 0 <= c < d < |p.calls| && p.calls[c].InJoin? && p.calls[d].InJoin? ==> p.calls[c].t != p.calls[d].t
  {
    ReachableSafe(arch, p);
    hide TidsOk, SlotsOk, JoinCount, CallInRange;
    forall t | 0 <= t < |p.recs|
      ensures !(p.recs[t].detached && p.recs[t].joining)
    {
      assert t > 0 ==> ThreadOk(p, t);
    }
    forall c, d | 0 <= c < d < |p.calls| && p.calls[c].InJoin? && p.calls[d].InJoin?
      ensures p.calls[c].t != p.calls[d].t
    {
      assert CallOk(p, c) && CallOk(p, d);
    }
  }

  /** The records the code may still read: in the table, in a call, or behind a live worker. */
  ghost predicate InUse(p: Proc, t: nat)
    requires WellShaped(p) && t < |p.recs|
  {
    || t in p.threads
    || (p.hist[t].started && !p.hist[t].exited)
    || exists c :: 0 <= c < |p.calls| && Mentions(p.calls[c], t)
  }

  predicate Mentions(k: Call, t: nat) {
    InHands(k, t) || (k.InCreate? && k.t == t) || (k.InJoin? && k.t == t)
  }

  /** No record is freed while anything can still read it. */
  lemma NoUseAfterFree(arch: Arch, p: Proc, t: nat)
    requires Reachable(arch, p) && WellShaped(p) && 0 < t < |p.recs| && InUse(p, t)
    ensures p.hist[t].frees == 0
  {
    ReachableSafe(arch, p);
    hide TidsOk, SlotsOk, MainOk, TableOk, CallInRange;
    assert ThreadOk(p, t);
    if c :| 0 <= c < |p.calls| && Mentions(p.calls[c], t) {
      assert CallOk(p, c);
    }
  }

  /** The threads in the table have distinct tids, and on ARM the workers distinct slots of 1..15. */
  lemma TableIdsDistinct(arch: Arch, p: Proc)
    requires Reachable(arch, p) && WellShaped(p)
    ensures forall i, j :: 0 <= i < j < |p.threads| ==> p.recs[p.threads[i]].tid != p.recs[p.threads[j]].tid
    ensures p.arch == Arm ==> forall i :: 0 <= i < |p.threads| && p.threads[i] != 0 ==>
              1 <= p.recs[p.threads[i]].slot <= 15
    ensures p.arch == Arm ==> forall i, j :: 0 <= i < j < |p.threads| && p.threads[i] != 0 && p.threads[j] != 0 ==>
              p.recs[p.threads[i]].slot != p.recs[p.threads[j]].slot
  {
    ReachableSafe(arch, p);
    hide ThreadOk, CallOk, MainOk, CallInRange, JoinCount;
    forall i, j | 0 <= i < j < |p.threads|
      ensures p.recs[p.threads[i]].tid != p.recs[p.threads[j]].tid
    {
      assert p.threads[i] != p.threads[j];
    }
  }

  /** The worker count alone decides whether a slot is found: the second refusal cannot happen. */
  lemma SlotFoundBelowLimit(arch: Arch, p: Proc)
    requires Reachable(arch, p) && p.arch == Arm && WellShaped(p)
    ensures Workers(p.threads) <= 15
    ensures Workers(p.threads) < 15 <==> FreeSlot(p.threads, p.recs, 1) < ARM_MAX_GUEST_THREADS
  {
    ReachableSafe(arch, p);
    hide Safe, Workers, FreeSlot;
    ReservationSucceeds(p);
  }

  // ---- what can be done with a worker ----

  /** A started worker in the table that nobody is joining can be joined exactly if it is not detached. */
  lemma JoinableUnlessDetached(arch: Arch, p: Proc, t: nat)
    requires Reachable(arch, p) && WellShaped(p) && t > 0 && t in p.threads && p.hist[t].started && !p.recs[t].joining
    ensures p.recs[t].joinable <==> !p.recs[t].detached
  {
    ReachableSafe(arch, p);
    assert ThreadOk(p, t);
  }

  /** A worker is found under its own tid. */
  lemma FoundByTid(p: Proc, t: nat)
    requires Safe(p) && t in p.threads
    ensures Find(p.threads, p.recs, p.recs[t].tid) == t
  {
    hide ThreadOk, CallOk, MainOk, SlotsOk, CallInRange, JoinCount;
    var i :| 0 <= i < |p.threads| && p.threads[i] == t;
    var u := Find(p.threads, p.recs, p.recs[t].tid);
    assert p.recs[p.threads[i]].tid == p.recs[t].tid;
  }

  /** Every other thread that may make a call may join or detach such a worker. */
  lemma WorkerCanBeJoined(p: Proc, t: nat, d: nat)
    requires Safe(p) && t > 0 && t in p.threads && p.hist[t].started && !p.recs[t].joining && !p.recs[t].detached
    requires d != t && d < |p.calls| && CanCall(p, d)
    ensures Enabled(p, JoinBegins(d, p.recs[t].tid)) && Enabled(p, Detach(d, p.recs[t].tid))
  {
    FoundByTid(p, t);
    assert ThreadOk(p, t);
    assert TidsOk(p);
    hide ThreadOk, CallOk, MainOk, SlotsOk, CallInRange, JoinCount, Find;
  }

  /** Right after it is created a worker can be joined or detached by every other thread that may make a call. */
  lemma CreatedCanBeJoined(arch: Arch, p: Proc, a: Step, d: nat)
    requires Reachable(arch, p) && WellShaped(p) && Enabled(p, a)
    requires (a.Start? || a.CreateStarted?) && a.ok
    ensures var q, t := Apply(p, a), if a.Start? then p.calls[a.c].t else |p.recs|;
            && WellShaped(q) && 0 < t < |q.recs| && q.hist[t].started && t in q.threads
            && (d != t && d < |q.calls| && CanCall(q, d) ==>
                  Enabled(q, JoinBegins(d, q.recs[t].tid)) && Enabled(q, Detach(d, q.recs[t].tid)))
  {
    ReachableSafe(arch, p);
    StepKeeps(p, a);
    var q, t := Apply(p, a), if a.Start? then p.calls[a.c].t else |p.recs|;
    NewWorker(p, a);
    hide Safe, Enabled, Apply;
    if d != t && d < |q.calls| && CanCall(q, d) {
      WorkerCanBeJoined(q, t, d);
    }
  }

  lemma NewWorker(p: Proc, a: Step)
    requires Safe(p) && Enabled(p, a) && (a.Start? || a.CreateStarted?) && a.ok
    ensures var q, t := Apply(p, a), if a.Start? then p.calls[a.c].t else |p.recs|;
            && WellShaped(q) && 0 < t < |q.recs| && q.hist[t].started && t in q.threads
            && !q.recs[t].joining && !q.recs[t].detached
  {
    StepKeeps(p, a);
    if a.Start? {
      assert CallOk(p, a.c);
      assert ThreadOk(p, p.calls[a.c].t);
    }
    hide CallOk, MainOk, SlotsOk, TidsOk, CallInRange, JoinCount;
  }

  /** What a detach does: the worker can no longer be joined, and once it is finished reaping takes it. */
  lemma DetachedIsReaped(arch: Arch, p: Proc, t: nat)
    requires Reachable(arch, p) && WellShaped(p) && 0 < t < |p.recs| && t in p.threads && p.recs[t].detached
    requires p.recs[t].phase == Finished
    ensures Reapable(p.arch, p.recs, t)
    ensures forall d :: !Enabled(p, JoinBegins(d, p.recs[t].tid)) && !Enabled(p, Detach(d, p.recs[t].tid))
  {
    ReachableSafe(arch, p);
    FoundByTid(p, t);
    assert ThreadOk(p, t);
    hide CallOk, MainOk, SlotsOk, TidsOk, CallInRange, JoinCount, Find;
  }

  /** Once shutdown has begun no worker is started any more. */
  lemma NoStartInShutdown(p: Proc, a: Step, t: nat)
    requires WellShaped(p) && p.shuttingDown && Enabled(p, a)
    ensures var q := Apply(p, a);
            q.shuttingDown && (t < |q.hist| && q.hist[t].started ==> t < |p.hist| && p.hist[t].started)
  {
    hide Taken, Without, Find, FreeSlot, Workers, Remove, ThreadPending;
    match a
    case Reserve(_) =>
    case InitFails(_) =>
    case CreateStarted(_, _) =>
    case JoinBegins(_, _) =>
    case BatchFrees(_) =>
    case _ =>
  }

  // ---- what is always possible ----

  /** A worker that is in no call and whose host thread has not ended can take a step of its own. */
  lemma WorkerGoesOn(p: Proc, t: nat)
    requires Safe(p) && 0 < t < |p.hist| && p.hist[t].started && !p.hist[t].exited && p.calls[t] == NoCall
    ensures match p.recs[t].phase
            case Idle => Enabled(p, WorkerRuns(t)) && Apply(p, WorkerRuns(t)).recs[t].phase == Running
            case Finished => Enabled(p, HostEnds(t)) && Apply(p, HostEnds(t)).hist[t].exited
            case Joined => false
            case _ => Enabled(p, WorkerFinishes(t)) && Apply(p, WorkerFinishes(t)).recs[t].phase == Finished
    ensures p.arch == Arm && p.recs[t].phase == Running ==>
              Enabled(p, UserReturns(t)) && Apply(p, UserReturns(t)).recs[t].phase == Exiting
  {
    assert ThreadOk(p, t);
    hide ThreadOk, CallOk, MainOk, SlotsOk, TidsOk, CallInRange, JoinCount;
  }

  /** A call in flight can take its next step, or waits for the end of the host thread it is to join. */
  lemma CallGoesOn(p: Proc, c: nat)
    requires Safe(p) && c < |p.calls|
    ensures match p.calls[c]
            case InCreate(_) => Enabled(p, InitFails(c)) && Enabled(p, Start(c, false)) && (!p.shuttingDown ==> Enabled(p, Start(c, true)))
            case InFailedCreate(_) => Enabled(p, FreeFailed(c))
            case InJoin(t, returned) =>
              if returned then Enabled(p, JoinEnds(c)) else p.hist[t].exited ==> Enabled(p, JoinReturns(c))
            case InJoinFree(_) => Enabled(p, JoinFrees(c))
            case InReap(batch, headJoined) =>
              if batch == [] then Enabled(p, ReapEnds(c))
              else if headJoined then Enabled(p, BatchFrees(c)) else p.hist[batch[0]].exited ==> Enabled(p, BatchJoins(c))
            case _ => true
  {
    assert CallOk(p, c);
    hide ThreadOk, CallOk, MainOk, SlotsOk, TidsOk, JoinCount;
  }

  /** Until shutdown a thread that may make a call may create a worker, on ARM while there are fewer than 15. */
  lemma CreateAllowed(p: Proc, c: nat, ok: bool)
    requires Safe(p) && CanCall(p, c) && !p.shuttingDown
    ensures p.arch == AArch64 ==> Enabled(p, CreateStarted(c, ok))
    ensures p.arch == Arm ==> (Enabled(p, Reserve(c)) <==> Workers(p.threads) < 15)
  {
    if p.arch == Arm {
      ReservationSucceeds(p);
    }
    hide Safe, Workers, FreeSlot, CanCall;
  }

  /** Only AArch64 lets a worker detach itself. */
  lemma DetachesItself(p: Proc, t: nat)
    requires Safe(p) && t > 0 && t in p.threads && p.hist[t].started && !p.recs[t].joining && !p.recs[t].detached
    requires CanCall(p, t)
    ensures Enabled(p, Detach(t, p.recs[t].tid)) <==> p.arch == AArch64
    ensures !Enabled(p, JoinBegins(t, p.recs[t].tid))
  {
    FoundByTid(p, t);
    assert ThreadOk(p, t);
    assert TidsOk(p);
    hide ThreadOk, CallOk, MainOk, SlotsOk, CallInRange, JoinCount, Find;
  }

  /** Shutdown can begin when main is in no call, and goes on as soon as the listed workers are finished. */
  lemma ShutdownGoesOn(p: Proc)
    requires Safe(p)
    ensures p.calls[0] == NoCall ==> Enabled(p, ShutdownBegins) && Apply(p, ShutdownBegins).shuttingDown
    ensures ShutdownAt(p, 0) && (forall u :: u in p.threads && u != 0 && p.hist[u].started ==> p.recs[u].phase == Finished) ==>
              Enabled(p, WorkersQuiet)
  {
    forall u: nat | u in p.threads && u != 0 && p.recs[u].valid
      ensures p.hist[u].started
    {
      assert ThreadOk(p, u);
    }
    hide ThreadOk, CallOk, MainOk, SlotsOk, TidsOk, CallInRange, JoinCount;
  }

  // ---- shutdown ----

  /** When no worker is running, no worker is in a call. */
  lemma QuietCalls(p: Proc, c: nat)
    requires Safe(p) && Quiet(p) && 0 < c < |p.calls|
    ensures p.calls[c] == NoCall
  {
    assert CallOk(p, c);
  }

  lemma {:induction false} NoJoins(calls: seq<Call>)
    requires forall c :: 0 <= c < |calls| ==> !calls[c].InJoin?
    ensures JoinCount(calls) == 0
  {
    if calls != [] {
      NoJoins(calls[..|calls| - 1]);
    }
  }

  lemma NoJoinsWhenQuiet(p: Proc)
    requires Safe(p) && Stage(p) >= 1
    ensures p.activeJoins == 0
    ensures ShutdownAt(p, 1) ==> Enabled(p, JoinsDone)
  {
    hide ThreadOk, CallOk, TidsOk, SlotsOk, MainOk, CallInRange, JoinCount;
    forall c | 0 <= c < |p.calls|
      ensures !p.calls[c].InJoin?
    {
      if c > 0 {
        QuietCalls(p, c);
      }
    }
    NoJoins(p.calls);
  }

  /** Once the workers are quiet no join is in flight, so the wait for the joins never blocks. */
  lemma JoinsAlreadyDone(arch: Arch, p: Proc)
    requires Reachable(arch, p) && WellShaped(p) && Stage(p) >= 1
    ensures p.activeJoins == 0
    ensures ShutdownAt(p, 1) ==> Enabled(p, JoinsDone)
  {
    ReachableSafe(arch, p);
    NoJoinsWhenQuiet(p);
  }

  /** Shutdown ends with every worker freed once, its host thread joined once if it had one. */
  lemma ShutdownLeavesNothing(arch: Arch, p: Proc, t: nat)
    requires Reachable(arch, p) && WellShaped(p) && 0 < t < |p.hist|
    requires Stage(p) >= 3 && p.calls[0].batch == []
    ensures p.hist[t].place == Gone && p.hist[t].frees == 1
    ensures p.hist[t].joins == (if p.hist[t].started then 1 else 0)
    ensures p.hist[t].started ==> p.hist[t].exited
  {
    ReachableSafe(arch, p);
    hide TidsOk, SlotsOk, CallInRange, JoinCount;
    forall c | 0 < c < |p.calls|
      ensures p.calls[c] == NoCall
    {
      QuietCalls(p, c);
    }
    assert ThreadOk(p, t);
  }

  /** The main record is freed exactly at the end of shutdown. */
  lemma MainFreedLast(arch: Arch, p: Proc)
    requires Reachable(arch, p) && WellShaped(p)
    ensures p.hist[0].frees == 1 <==> p.calls[0].InShutdown? && p.calls[0].stage == 4
    ensures p.hist[0].frees <= 1
    ensures p.hist[0].frees == 1 ==> p.threads == [0] && p.calls[0].batch == []
  {
    ReachableSafe(arch, p);
    hide ThreadOk, CallOk, TidsOk, SlotsOk, JoinCount, CallInRange;
  }

  /** From the moment the workers are quiet, some step towards the end of shutdown is possible. */
  lemma ShutdownNeverStuck(p: Proc)
    requires Safe(p) && 1 <= Stage(p) <= 3
    ensures var k := p.calls[0];
            if k.batch == [] then
              Enabled(p, JoinsDone) || Enabled(p, ShutdownCollects) || Enabled(p, ShutdownClears) || Enabled(p, MainFreed)
            else if k.headJoined then Enabled(p, BatchFrees(0))
            else Enabled(p, BatchJoins(0)) || Enabled(p, HostEnds(k.batch[0]))
  {
    NoJoinsWhenQuiet(p);
    if p.calls[0].batch != [] {
      HeadProgresses(p);
    } else {
      hide ThreadOk, TidsOk, SlotsOk, MainOk, CallInRange, JoinCount, Taken, TableOk;
      assert CallOk(p, 0);
    }
  }

  lemma HeadProgresses(p: Proc)
    requires Safe(p) && p.calls[0].InShutdown? && p.calls[0].batch != [] && Stage(p) >= 1
    ensures if p.calls[0].headJoined then Enabled(p, BatchFrees(0))
            else Enabled(p, BatchJoins(0)) || Enabled(p, HostEnds(p.calls[0].batch[0]))
  {
    hide TidsOk, SlotsOk, MainOk, CallInRange, JoinCount;
    assert CallOk(p, 0);
    assert ThreadOk(p, p.calls[0].batch[0]);
  }
}
