/**
 What every step of the guest thread protocol keeps, and what follows from it over whole
 runs: no record is joined or freed twice, none is touched after it is freed, and
 shutdown leaves every worker joined and freed.
 */
module ThreadSafety {
  import opened ThreadModel

  // ---- the invariant ----

  /** The records an actor has taken out of the table. */
  predicate InHands(k: Call, t: nat) {
    match k
    case InFailedCreate(u) => t == u
    case InJoinFree(u) => t == u
    case InReap(batch, _) => t in batch
    case InShutdown(_, batch, _) => t in batch
    case _ => false
  }

  /** How often the host thread of a record in hand has been joined. */
  function HandJoins(k: Call, t: nat): nat {
    match k
    case InJoinFree(_) => 1
    case InReap(batch, headJoined) => if headJoined && batch != [] && batch[0] == t then 1 else 0
    case InShutdown(_, batch, headJoined) => if headJoined && batch != [] && batch[0] == t then 1 else 0
    case _ => 0
  }

  predicate Over(r: Rec) { r.phase == Finished || r.phase == Joined }

  predicate InTable(h: Hist) { h.place.Creating? || h.place.Listed? || h.place.Joining? }

  /** The record, its history and the actor that has to do with it agree. */
  predicate PlaceOk(p: Proc, t: nat)
    requires WellShaped(p) && t < |p.recs|
  {
    var r, h := p.recs[t], p.hist[t];
    match h.place
    case Creating(c) =>
      && p.arch == Arm && c < |p.calls| && p.calls[c] == InCreate(t)
      && !h.started && !r.valid && r.joinable && !r.joining && h.joins == 0 && h.frees == 0
    case Listed =>
      && h.started && r.valid && !r.joining && (r.joinable <==> !r.detached) && h.joins == 0 && h.frees == 0
    case Joining(c) =>
      && c < |p.calls| && p.calls[c].InJoin? && p.calls[c].t == t
      && h.started && r.valid && r.joining && !r.joinable && !r.detached && h.frees == 0
      && h.joins == (if p.calls[c].returned then 1 else 0)
    case Held(c) =>
      && c < |p.calls| && InHands(p.calls[c], t) && !r.joining && h.frees == 0
      && h.joins == HandJoins(p.calls[c], t)
    case Gone => !r.joining && h.frees == 1 && h.joins == (if h.started then 1 else 0)
  }

  predicate LifeOk(r: Rec, h: Hist) {
    && (h.exited ==> h.started && Over(r))
    && (h.joins > 0 ==> h.exited)
    && (!h.started ==> r.phase == Idle)
    && (h.started && !Over(r) ==> h.place.Listed? || h.place.Joining?)
    && (r.detached ==> !r.joinable)
    && (r.phase == Joined ==> h.exited && (h.place.Held? || h.place.Gone?))
  }

  predicate ThreadOk(p: Proc, t: nat)
    requires WellShaped(p) && t < |p.recs|
  {
    PlaceOk(p, t) && LifeOk(p.recs[t], p.hist[t]) && (t in p.threads <==> InTable(p.hist[t]))
  }

  predicate Owned(p: Proc, c: nat, t: nat, started: bool)
    requires WellShaped(p)
  {
    0 < t < |p.hist| && p.hist[t].place == Held(c) && p.hist[t].started == started
  }

  predicate BatchOk(p: Proc, c: nat, batch: seq<nat>, headJoined: bool)
    requires WellShaped(p)
  {
    Distinct(batch) && (headJoined ==> batch != []) && forall i :: 0 <= i < |batch| ==> Owned(p, c, batch[i], true)
  }

  predicate CallOk(p: Proc, c: nat)
    requires WellShaped(p) && c < |p.calls|
  {
    && (c > 0 && p.calls[c] != NoCall ==> p.hist[c].started && !Over(p.recs[c]) && p.recs[c].phase != Idle)
    && match p.calls[c]
       case NoCall => true
       case InCreate(t) => 0 < t < |p.hist| && p.hist[t].place == Creating(c)
       case InFailedCreate(t) => Owned(p, c, t, false)
       case InJoin(t, _) => 0 < t < |p.hist| && p.hist[t].place == Joining(c)
       case InJoinFree(t) => Owned(p, c, t, true)
       case InReap(batch, headJoined) => BatchOk(p, c, batch, headJoined)
       case InShutdown(stage, batch, headJoined) => c == 0 && stage <= 4 && BatchOk(p, c, batch, headJoined)
  }

  function JoinCount(calls: seq<Call>): nat {
    if calls == [] then 0 else JoinCount(calls[..|calls| - 1]) + (if calls[|calls| - 1].InJoin? then 1 else 0)
  }

  function Stage(p: Proc): nat
    requires WellShaped(p)
  {
    if p.calls[0].InShutdown? then p.calls[0].stage else 0
  }

  /** No worker is running any more. */
  predicate Quiet(p: Proc)
    requires WellShaped(p)
  {
    forall t :: 0 < t < |p.recs| && p.hist[t].started ==> Over(p.recs[t])
  }

  predicate MainOk(p: Proc)
    requires WellShaped(p)
  {
    && p.recs[0].phase == Running && p.hist[0].started && !p.hist[0].exited && p.hist[0].joins == 0
    && !p.recs[0].joining && 0 in p.threads
    && p.hist[0].frees == (if Stage(p) == 4 then 1 else 0)
  }

  predicate TableOk(p: Proc)
    requires WellShaped(p)
  {
    && Distinct(p.threads) && p.activeJoins == JoinCount(p.calls)
    && (p.shuttingDown <==> p.calls[0].InShutdown?)
    && (Stage(p) >= 1 ==> Quiet(p)) && (Stage(p) >= 3 ==> p.threads == [0])
    && (Stage(p) == 4 ==> p.calls[0].batch == [])
  }

  predicate TidsOk(p: Proc) {
    && (forall t :: 0 <= t < |p.recs| ==> 0 < p.recs[t].tid < p.nextTid)
    && (forall t, u :: 0 <= t < u < |p.recs| ==> p.recs[t].tid != p.recs[u].tid)
  }

  predicate SlotsOk(p: Proc)
    requires WellShaped(p)
  {
    p.arch == Arm ==>
      && (forall u :: u in p.threads && u != 0 ==> 0 < p.recs[u].slot < ARM_MAX_GUEST_THREADS)
      && (forall u, v :: u in p.threads && v in p.threads && u != 0 && v != 0 && u != v
            ==> p.recs[u].slot != p.recs[v].slot)
  }

  predicate Safe(p: Proc) {
    && WellShaped(p)
    && (forall t: nat :: 0 < t < |p.recs| ==> ThreadOk(p, t))
    && (forall c: nat :: c < |p.calls| ==> CallOk(p, c))
    && MainOk(p) && TableOk(p) && TidsOk(p) && SlotsOk(p)
  }

  lemma InitialSafe(arch: Arch)
    ensures Safe(Initial(arch))
  {
    var p := Initial(arch);
    assert JoinCount(p.calls) == 0 by { assert p.calls[..0] == []; }
  }

  // ---- counting joins ----

  lemma {:induction false} JoinCountUpdate(calls: seq<Call>, c: nat, k: Call)
    requires c < |calls|
    ensures JoinCount(calls[c := k])
         == JoinCount(calls) - (if calls[c].InJoin? then 1 else 0) + (if k.InJoin? then 1 else 0)
  {
    var n := |calls| - 1;
    if c == n {
      assert calls[c := k][..n] == calls[..n];
    } else {
      assert calls[c := k][..n] == calls[..n][c := k];
      JoinCountUpdate(calls[..n], c, k);
    }
  }

  lemma JoinCountAppend(calls: seq<Call>)
    ensures JoinCount(calls + [NoCall]) == JoinCount(calls)
  {
    assert (calls + [NoCall])[..|calls|] == calls;
  }

  // ---- steps of the workers ----

  lemma PhaseKeeps(p: Proc, t: nat, phase: Phase)
    requires Safe(p) && 0 < t < |p.recs| && p.hist[t].started && !Over(p.recs[t])
    requires phase == Running || phase == Exiting || (phase == Finished && p.calls[t] == NoCall)
    ensures Safe(SetPhase(p, t, phase))
  {
    var q := SetPhase(p, t, phase);
    forall u: nat | 0 < u < |q.recs|
      ensures ThreadOk(q, u)
    {
      assert ThreadOk(p, u);
    }
    forall c: nat | c < |q.calls|
      ensures CallOk(q, c)
    {
      assert CallOk(p, c);
    }
    assert ThreadOk(p, t);
  }

  lemma HostEndsKeeps(p: Proc, t: nat)
    requires Safe(p) && Enabled(p, HostEnds(t))
    ensures Safe(Apply(p, HostEnds(t)))
  {
    var q := Apply(p, HostEnds(t));
    hide JoinCount, TidsOk, SlotsOk;
    assert TidsOk(q) && SlotsOk(q) by { SameIds(p, q); }
    forall u: nat | 0 < u < |q.recs|
      ensures ThreadOk(q, u)
    {
      assert ThreadOk(p, u);
    }
    forall c: nat | c < |q.calls|
      ensures CallOk(q, c)
    {
      assert CallOk(p, c);
    }
  }

  // ---- creation ----

  lemma AllocateRest(p: Proc, c: nat, r: Rec, h: Hist, k: Call)
    requires Safe(p) && c < |p.calls| && p.calls[c] == NoCall && !k.InJoin? && !k.InShutdown?
    requires r.tid == p.nextTid && Stage(p) == 0 && WellShaped(Allocate(p, c, r, h, k))
    requires p.arch == Arm ==> h.place.Held? || (0 < r.slot < ARM_MAX_GUEST_THREADS && !SlotInUse(p.threads, p.recs, r.slot))
    ensures var q := Allocate(p, c, r, h, k);
            MainOk(q) && TableOk(q) && TidsOk(q) && SlotsOk(q)
  {
    var q := Allocate(p, c, r, h, k);
    AllocateTable(p, c, r, h, k);
    AllocateIds(p, c, r, h, k);
  }

  lemma AllocateTable(p: Proc, c: nat, r: Rec, h: Hist, k: Call)
    requires Safe(p) && c < |p.calls| && p.calls[c] == NoCall && !k.InJoin? && !k.InShutdown?
    requires Stage(p) == 0 && WellShaped(Allocate(p, c, r, h, k))
    ensures MainOk(Allocate(p, c, r, h, k)) && TableOk(Allocate(p, c, r, h, k))
  {
    hide ThreadOk, CallOk, TidsOk, SlotsOk;
    JoinCountUpdate(p.calls, c, k);
    JoinCountAppend(p.calls[c := k]);
    assert |p.recs| !in p.threads;
  }

  lemma AllocateIds(p: Proc, c: nat, r: Rec, h: Hist, k: Call)
    requires Safe(p) && c < |p.calls| && r.tid == p.nextTid && WellShaped(Allocate(p, c, r, h, k))
    requires p.arch == Arm ==> h.place.Held? || (0 < r.slot < ARM_MAX_GUEST_THREADS && !SlotInUse(p.threads, p.recs, r.slot))
    ensures TidsOk(Allocate(p, c, r, h, k)) && SlotsOk(Allocate(p, c, r, h, k))
  {
    hide ThreadOk, CallOk, MainOk, TableOk;
    var q, n := Allocate(p, c, r, h, k), |p.recs|;
    assert forall t :: 0 <= t < n ==> q.recs[t] == p.recs[t];
    assert q.recs[n] == r && n !in p.threads && p.recs[0].tid > 0;
    forall u | u in q.threads
      ensures u == n || u in p.threads
    {
    }
  }

  lemma ReserveKeeps(p: Proc, c: nat)
    requires Safe(p) && Enabled(p, Reserve(c))
    ensures Safe(Apply(p, Reserve(c)))
  {
    NotBusy(p, c);
    hide Safe;
    ReservedKeeps(p, c, FreeSlot(p.threads, p.recs, 1));
  }

  lemma ReservedKeeps(p: Proc, c: nat, slot: nat)
    requires Safe(p) && CanCall(p, c) && Stage(p) == 0 && p.arch == Arm
    requires 0 < slot < ARM_MAX_GUEST_THREADS && !SlotInUse(p.threads, p.recs, slot)
    ensures Safe(Allocate(p, c, NewRec(p, slot, false), Hist(false, false, 0, 0, Creating(c)), InCreate(|p.recs|)))
  {
    var n := |p.recs|;
    var q := Allocate(p, c, NewRec(p, slot, false), Hist(false, false, 0, 0, Creating(c)), InCreate(n));
    AllocateRest(p, c, NewRec(p, slot, false), Hist(false, false, 0, 0, Creating(c)), InCreate(n));
    AllocatedThreads(p, q, c);
    assert ThreadOk(q, n);
  }

  /** An actor that can make a call is not in shutdown, and no worker is once it is quiet. */
  lemma NotBusy(p: Proc, c: nat)
    requires Safe(p) && CanCall(p, c)
    ensures Stage(p) == 0
    ensures c == 0 ==> !p.shuttingDown
  {
    assert CallOk(p, 0);
  }

  lemma AllocatedThreads(p: Proc, q: Proc, c: nat)
    requires Safe(p) && WellShaped(q) && c < |p.calls| && p.calls[c] == NoCall && q.arch == p.arch
    requires |q.recs| == |p.recs| + 1 && q.recs[..|p.recs|] == p.recs && q.hist[..|p.hist|] == p.hist
    requires q.threads == p.threads || q.threads == p.threads + [|p.recs|]
    requires q.calls == p.calls[c := q.calls[c]] + [NoCall]
    ensures forall t: nat :: 0 < t < |p.recs| ==> ThreadOk(q, t)
    ensures forall d: nat :: d < |p.calls| && d != c ==> CallOk(q, d)
  {
    forall t: nat | 0 < t < |p.recs|
      ensures ThreadOk(q, t)
    {
      assert ThreadOk(p, t);
      assert q.recs[t] == p.recs[t] && q.hist[t] == p.hist[t];
    }
    forall d: nat | d < |p.calls| && d != c
      ensures CallOk(q, d)
    {
      assert CallOk(p, d);
      assert q.recs[d] == p.recs[d] && q.hist[d] == p.hist[d];
    }
  }

  lemma CreatedKeeps(p: Proc, c: nat, ok: bool)
    requires Safe(p) && Enabled(p, CreateStarted(c, ok))
    ensures Safe(Apply(p, CreateStarted(c, ok)))
  {
    NotBusy(p, c);
    if ok { CreateWorks(p, c); } else { CreateFails(p, c); }
  }

  lemma CreateWorks(p: Proc, c: nat)
    requires Safe(p) && Stage(p) == 0 && p.arch == AArch64 && CanCall(p, c)
    ensures Safe(Created(p, c, true))
  {
    var q, n := Created(p, c, true), |p.recs|;
    AllocateRest(p, c, NewRec(p, 0, true), Hist(true, false, 0, 0, Listed), NoCall);
    AllocatedThreads(p, q, c);
    assert ThreadOk(q, n);
  }

  lemma CreateFails(p: Proc, c: nat)
    requires Safe(p) && Stage(p) == 0 && p.arch == AArch64 && CanCall(p, c)
    ensures Safe(Created(p, c, false))
  {
    var q, n := Created(p, c, false), |p.recs|;
    AllocateRest(p, c, NewRec(p, 0, false), Hist(false, false, 0, 0, Held(c)), InFailedCreate(n));
    AllocatedThreads(p, q, c);
    assert ThreadOk(q, n);
  }

  /** Nothing but the call of c, the record and the history of t, and the table changed. */
  ghost predicate Local(p: Proc, q: Proc, c: nat, t: nat)
    requires WellShaped(p)
  {
    && WellShaped(q) && c < |p.calls| && 0 < t < |p.recs|
    && q.arch == p.arch && q.nextTid == p.nextTid && q.shuttingDown == p.shuttingDown
    && |q.recs| == |p.recs| && q.recs == p.recs[t := q.recs[t]]
    && q.hist == p.hist[t := q.hist[t]] && q.calls == p.calls[c := q.calls[c]]
    && (forall u: nat :: u != t ==> (u in q.threads <==> u in p.threads))
  }

  /** Whatever else c had in hand must still be in its hands. */
  ghost predicate SameHands(p: Proc, q: Proc, c: nat, t: nat)
    requires WellShaped(p) && WellShaped(q) && c < |p.calls| && c < |q.calls|
  {
    && (forall u :: u != t && InHands(p.calls[c], u) ==>
          InHands(q.calls[c], u) && HandJoins(q.calls[c], u) == HandJoins(p.calls[c], u))
    && (p.calls[c].InCreate? ==> p.calls[c].t == t)
    && (p.calls[c].InJoin? ==> p.calls[c].t == t)
  }

  /** t is in the table with no actor at work on it, or c is the actor at work on it. */
  predicate Mine(p: Proc, c: nat, t: nat)
    requires t < |p.hist|
  {
    match p.hist[t].place
    case Creating(d) => d == c
    case Joining(d) => d == c
    case Held(d) => d == c
    case Listed => true
    case Gone => false
  }

  lemma NobodyElse(p: Proc, c: nat, t: nat, d: nat)
    requires Safe(p) && 0 < t < |p.recs| && Mine(p, c, t) && d < |p.calls| && d != c
    ensures !InHands(p.calls[d], t)
    ensures p.calls[d].InCreate? || p.calls[d].InJoin? ==> p.calls[d].t != t
  {
    assert CallOk(p, d);
  }

  /** A local step keeps every other thread and every other actor as they were. */
  lemma LocalKeeps(p: Proc, q: Proc, c: nat, t: nat)
    requires Safe(p) && Local(p, q, c, t) && SameHands(p, q, c, t) && Mine(p, c, t)
    requires ThreadOk(q, t) && CallOk(q, c)
    requires p.calls[t] == NoCall || (q.hist[t].started && !Over(q.recs[t]) && q.recs[t].phase != Idle)
    ensures forall u: nat :: 0 < u < |q.recs| ==> ThreadOk(q, u)
    ensures forall d: nat :: d < |q.calls| ==> CallOk(q, d)
  {
    hide TidsOk, SlotsOk, MainOk, JoinCount, TableOk;
    forall u: nat | 0 < u < |q.recs|
      ensures ThreadOk(q, u)
    {
      assert ThreadOk(p, u);
    }
    forall d: nat | d < |q.calls|
      ensures CallOk(q, d)
    {
      assert CallOk(p, d);
      if d != c {
        NobodyElse(p, c, t, d);
      }
    }
  }

  /** What a local step must respect so that the table and the ids stay right. */
  predicate LocalTable(p: Proc, q: Proc, c: nat, t: nat)
    requires WellShaped(p) && WellShaped(q) && |q.recs| == |p.recs| && |q.calls| == |p.calls|
    requires c < |p.calls| && t < |p.recs|
  {
    && q.recs[t].tid == p.recs[t].tid && q.recs[t].slot == p.recs[t].slot
    && q.activeJoins == p.activeJoins - (if p.calls[c].InJoin? then 1 else 0) + (if q.calls[c].InJoin? then 1 else 0)
    && (q.threads == p.threads || q.threads == Remove(p.threads, t))
    && (p.calls[c].InShutdown? <==> q.calls[c].InShutdown?)
    && (p.calls[c].InShutdown? ==> q.calls[c].stage == p.calls[c].stage < 4)
    && (Stage(p) >= 1 && q.hist[t].started ==> Over(q.recs[t]))
  }

  lemma LocalIds(p: Proc, q: Proc, c: nat, t: nat)
    requires Safe(p) && Local(p, q, c, t) && LocalTable(p, q, c, t)
    ensures TidsOk(q) && SlotsOk(q)
  {
    hide ThreadOk, CallOk, MainOk, JoinCount, CallInRange;
    RemoveKeeps(p.threads, t);
    assert forall u :: 0 <= u < |p.recs| ==> q.recs[u].tid == p.recs[u].tid && q.recs[u].slot == p.recs[u].slot;
    assert forall u :: u in q.threads ==> u in p.threads;
  }

  lemma LocalMain(p: Proc, q: Proc, c: nat, t: nat)
    requires Safe(p) && Local(p, q, c, t) && LocalTable(p, q, c, t)
    ensures MainOk(q) && Stage(q) == Stage(p)
  {
    hide ThreadOk, CallOk, TableOk, TidsOk, SlotsOk, JoinCount, CallInRange;
  }

  lemma LocalRest(p: Proc, q: Proc, c: nat, t: nat)
    requires Safe(p) && Local(p, q, c, t) && LocalTable(p, q, c, t)
    ensures TableOk(q)
  {
    LocalMain(p, q, c, t);
    hide ThreadOk, CallOk, TidsOk, SlotsOk, MainOk, JoinCount, CallInRange;
    JoinCountUpdate(p.calls, c, q.calls[c]);
    RemoveKeeps(p.threads, t);
    if Stage(p) >= 3 && q.threads != p.threads {
      RemoveAbsent(p.threads, t);
    }
  }

  lemma {:induction false} RemoveAbsent(s: seq<nat>, t: nat)
    requires t !in s
    ensures Remove(s, t) == s
  {
    if s != [] {
      RemoveAbsent(s[1..], t);
    }
  }

  lemma LocalSafe(p: Proc, q: Proc, c: nat, t: nat)
    requires Safe(p) && Local(p, q, c, t) && SameHands(p, q, c, t) && Mine(p, c, t) && LocalTable(p, q, c, t)
    requires ThreadOk(q, t) && CallOk(q, c)
    requires p.calls[t] == NoCall || (q.hist[t].started && !Over(q.recs[t]) && q.recs[t].phase != Idle)
    ensures Safe(q)
  {
    hide ThreadOk, CallOk, MainOk, TableOk, TidsOk, SlotsOk, LocalTable;
    LocalKeeps(p, q, c, t);
    LocalIds(p, q, c, t);
    LocalMain(p, q, c, t);
    LocalRest(p, q, c, t);
  }

  // ---- steps that touch one actor and one record ----

  /** An actor in the middle of a call other than shutdown shows that shutdown is not past its first stage. */
  lemma WorkingEarly(p: Proc, c: nat)
    requires Safe(p) && c < |p.calls| && p.calls[c] != NoCall && !p.calls[c].InShutdown?
    ensures Stage(p) == 0
  {
    hide ThreadOk, TidsOk, SlotsOk;
    assert CallOk(p, c) && CallOk(p, 0);
  }

  lemma AbandonKeeps(p: Proc, c: nat)
    requires Safe(p) && c < |p.calls| && p.calls[c].InCreate?
    ensures Safe(AbandonCreate(p, c))
  {
    var q, t := AbandonCreate(p, c), p.calls[c].t;
    hide TidsOk, SlotsOk, MainOk, JoinCount;
    WorkingEarly(p, c);
    assert CallOk(p, c) && ThreadOk(p, t) && CallOk(p, t);
    RemoveKeeps(p.threads, t);
    LocalSafe(p, q, c, t);
  }

  lemma StartKeeps(p: Proc, c: nat)
    requires Safe(p) && c < |p.calls| && p.calls[c].InCreate?
    ensures Safe(Started(p, c))
  {
    var q, t := Started(p, c), p.calls[c].t;
    hide TidsOk, SlotsOk, MainOk, JoinCount;
    WorkingEarly(p, c);
    assert CallOk(p, c) && ThreadOk(p, t) && CallOk(p, t);
    LocalSafe(p, q, c, t);
  }

  lemma CallFreedKeeps(p: Proc, c: nat)
    requires Safe(p) && c < |p.calls| && (p.calls[c].InFailedCreate? || p.calls[c].InJoinFree?)
    ensures Safe(CallFreed(p, c))
  {
    var q, t := CallFreed(p, c), p.calls[c].t;
    hide TidsOk, SlotsOk, MainOk, JoinCount;
    WorkingEarly(p, c);
    assert CallOk(p, c) && ThreadOk(p, t) && CallOk(p, t);
    LocalSafe(p, q, c, t);
  }

  /** What FindThread finds is a listed worker no one else works on. */
  lemma FoundListed(p: Proc, tid: nat, t: nat)
    requires Safe(p) && t == Find(p.threads, p.recs, tid) && t > 0
    requires p.recs[t].joinable && (p.arch == Arm ==> p.recs[t].valid)
    ensures p.hist[t].place == Listed
  {
    assert ThreadOk(p, t);
  }

  lemma JoinBeginsKeeps(p: Proc, c: nat, tid: nat)
    requires Safe(p) && Enabled(p, JoinBegins(c, tid))
    ensures Safe(Apply(p, JoinBegins(c, tid)))
  {
    var t := Find(p.threads, p.recs, tid);
    NotBusy(p, c);
    FoundListed(p, tid, t);
    hide Find;
    JoinBegunKeeps(p, c, t);
  }

  lemma JoinBegunKeeps(p: Proc, c: nat, t: nat)
    requires Safe(p) && CanCall(p, c) && Stage(p) == 0 && 0 < t < |p.recs|
    requires p.hist[t].place == Listed && p.recs[t].joinable && !p.recs[t].detached && p.recs[t].valid
    ensures Safe(JoinBegun(p, c, t))
  {
    var q := JoinBegun(p, c, t);
    hide TidsOk, SlotsOk, MainOk, JoinCount, InHands, HandJoins;
    assert CallOk(p, c) && ThreadOk(p, t) && CallOk(p, t);
    LocalSafe(p, q, c, t);
  }

  lemma JoinReturnsKeeps(p: Proc, c: nat)
    requires Safe(p) && Enabled(p, JoinReturns(c))
    ensures Safe(Apply(p, JoinReturns(c)))
  {
    var q, t := JoinReturned(p, c), p.calls[c].t;
    WorkingEarly(p, c);
    hide TidsOk, SlotsOk, MainOk, JoinCount;
    assert CallOk(p, c) && ThreadOk(p, t) && CallOk(p, t);
    LocalSafe(p, q, c, t);
  }

  lemma JoinEndsKeeps(p: Proc, c: nat)
    requires Safe(p) && Enabled(p, JoinEnds(c))
    ensures Safe(Apply(p, JoinEnds(c)))
  {
    var q, t := JoinEnded(p, c), p.calls[c].t;
    WorkingEarly(p, c);
    hide TidsOk, SlotsOk, MainOk, JoinCount;
    assert CallOk(p, c) && ThreadOk(p, t) && CallOk(p, t);
    RemoveKeeps(p.threads, t);
    LocalSafe(p, q, c, t);
  }

  lemma DetachKeeps(p: Proc, c: nat, tid: nat)
    requires Safe(p) && Enabled(p, Detach(c, tid))
    ensures Safe(Apply(p, Detach(c, tid)))
  {
    var t := Find(p.threads, p.recs, tid);
    var q := Detached(p, t);
    NotBusy(p, c);
    FoundListed(p, tid, t);
    hide TidsOk, SlotsOk, MainOk, JoinCount, Find, Reapable, InHands, HandJoins;
    assert CallOk(p, c) && ThreadOk(p, t) && CallOk(p, t);
    LocalSafe(p, q, c, t);
  }

  lemma HeadJoinedKeeps(p: Proc, c: nat)
    requires Safe(p) && Enabled(p, BatchJoins(c))
    ensures Safe(Apply(p, BatchJoins(c)))
  {
    var q, t := HeadJoined(p, c), p.calls[c].batch[0];
    hide TidsOk, SlotsOk, MainOk, JoinCount;
    assert CallOk(p, c) && ThreadOk(p, t) && CallOk(p, t);
    LocalSafe(p, q, c, t);
  }

  lemma HeadFreedKeeps(p: Proc, c: nat)
    requires Safe(p) && Enabled(p, BatchFrees(c))
    ensures Safe(Apply(p, BatchFrees(c)))
  {
    var q, t := HeadFreed(p, c), p.calls[c].batch[0];
    hide TidsOk, SlotsOk, MainOk, JoinCount, TableOk;
    assert CallOk(p, c) && ThreadOk(p, t) && CallOk(p, t);
    var batch := p.calls[c].batch;
    assert batch == [t] + batch[1..];
    assert ThreadOk(q, t) && CallOk(q, c);
    hide ThreadOk;
    assert LocalTable(p, q, c, t) by { HeadFreedTable(p, c); }
    LocalSafe(p, q, c, t);
  }

  lemma HeadFreedTable(p: Proc, c: nat)
    requires Safe(p) && Enabled(p, BatchFrees(c))
    ensures WellShaped(HeadFreed(p, c)) ==> LocalTable(p, HeadFreed(p, c), c, p.calls[c].batch[0])
  {
    hide TidsOk, SlotsOk, MainOk, JoinCount;
    var t := p.calls[c].batch[0];
    assert CallOk(p, c) && ThreadOk(p, t);
  }

  // ---- steps that take records out of the table ----

  /** The call a batch is put into. */
  predicate TakesBatch(p: Proc, c: nat, w: Which, k: Call)
    requires WellShaped(p) && c < |p.calls|
  {
    var batch := Taken(p.arch, w, p.threads, p.recs);
    || (p.calls[c] == NoCall && w == Reaping(p.arch) && k == InReap(batch, false))
    || (ShutdownAt(p, Stage(p)) && c == 0 && p.calls[0].InShutdown? && Stage(p) <= 2
        && k.InShutdown? && k.batch == batch && !k.headJoined && k.stage <= 3
        && (w == Reaping(p.arch) || (w == Collecting && Stage(p) == 2)))
  }

  lemma ChosenListed(p: Proc, w: Which, t: nat)
    requires Safe(p) && t in p.threads && Chosen(w, p.recs, t)
    requires w == Reaping(p.arch) || (w == Collecting && Stage(p) >= 1)
    ensures 0 < t < |p.recs| && p.hist[t].place == Listed && Over(p.recs[t])
  {
    assert ThreadOk(p, t);
  }

  /** q is p after c took batch out of the table. */
  ghost predicate Takes(p: Proc, q: Proc, c: nat, batch: seq<nat>)
    requires WellShaped(p) && WellShaped(q)
  {
    && c < |p.calls| && Distinct(batch) && q.arch == p.arch && q.recs == p.recs
    && q.hist == Moved(p.hist, batch, Held(c)) && q.calls == p.calls[c := q.calls[c]]
    && (forall u: nat :: u in q.threads <==> u in p.threads && u !in batch)
    && (forall t :: t in batch ==> 0 < t < |p.recs| && p.hist[t].place == Listed && Over(p.recs[t]))
    && (q.calls[c].InReap? || q.calls[c].InShutdown?) && q.calls[c].batch == batch && !q.calls[c].headJoined
    && (p.calls[c] == NoCall || (p.calls[c].InShutdown? && p.calls[c].batch == []))
  }

  /** What a batch does to one record and to the actor that works on it. */
  lemma TakesAt(p: Proc, q: Proc, c: nat, batch: seq<nat>, t: nat)
    requires WellShaped(p) && WellShaped(q) && Takes(p, q, c, batch) && 0 < t < |p.recs|
    ensures q.arch == p.arch && q.recs[t] == p.recs[t] && |q.calls| == |p.calls| && InHands(q.calls[c], t) == (t in batch)
    ensures t in batch ==> p.hist[t].place == Listed && Over(p.recs[t]) && t !in q.threads
    ensures t in batch ==> q.hist[t] == p.hist[t].(place := Held(c)) && HandJoins(q.calls[c], t) == 0
    ensures t !in batch ==> q.hist[t] == p.hist[t] && (t in q.threads <==> t in p.threads)
    ensures !InHands(p.calls[c], t) && !p.calls[c].InCreate? && !p.calls[c].InJoin?
    ensures forall d: nat :: d < |p.calls| && d != c ==> q.calls[d] == p.calls[d]
  {
    hide CallInRange;
  }

  lemma TakesThread(p: Proc, q: Proc, c: nat, batch: seq<nat>, t: nat)
    requires Safe(p) && WellShaped(q) && Takes(p, q, c, batch) && 0 < t < |p.recs|
    ensures ThreadOk(q, t)
  {
    assert ThreadOk(p, t);
    TakesAt(p, q, c, batch, t);
    hide TidsOk, SlotsOk, MainOk, JoinCount, TableOk, CallOk, CallInRange, Takes, InHands, HandJoins, Safe;
  }

  lemma TakesKeepsOwned(p: Proc, q: Proc, c: nat, batch: seq<nat>)
    requires WellShaped(p) && WellShaped(q) && Takes(p, q, c, batch)
    ensures forall u: nat :: u < |p.hist| && !p.hist[u].place.Listed? ==> q.hist[u] == p.hist[u]
    ensures forall u: nat :: u < |p.hist| ==> q.hist[u].started == p.hist[u].started
  {
    hide CallInRange;
  }

  lemma TakesCall(p: Proc, q: Proc, c: nat, batch: seq<nat>, d: nat)
    requires Safe(p) && WellShaped(q) && Takes(p, q, c, batch) && d < |p.calls|
    requires c > 0 ==> CanCall(p, c)
    requires q.calls[c].InShutdown? ==> c == 0 && q.calls[c].stage <= 4
    ensures CallOk(q, d)
  {
    if d == c {
      hide TidsOk, SlotsOk, MainOk, JoinCount, TableOk, CallInRange, ThreadOk, BatchOk, Safe;
      TakesOwned(p, q, c, batch);
    } else {
      TakesKeepsOwned(p, q, c, batch);
      assert CallOk(p, d);
      hide Takes, TidsOk, SlotsOk, MainOk, JoinCount, TableOk, CallInRange, ThreadOk;
      assert q.calls[d] == p.calls[d] && q.recs[d] == p.recs[d] by { TakesOthers(p, q, c, batch, d); }
    }
  }

  lemma TakesOthers(p: Proc, q: Proc, c: nat, batch: seq<nat>, d: nat)
    requires WellShaped(p) && WellShaped(q) && Takes(p, q, c, batch) && d < |p.calls| && d != c
    ensures q.calls[d] == p.calls[d] && q.recs[d] == p.recs[d]
  {
  }

  lemma TakesOwned(p: Proc, q: Proc, c: nat, batch: seq<nat>)
    requires Safe(p) && WellShaped(q) && Takes(p, q, c, batch)
    ensures BatchOk(q, c, batch, false)
  {
    hide TidsOk, SlotsOk, MainOk, JoinCount, TableOk, CallInRange, CallOk;
    forall i | 0 <= i < |batch|
      ensures Owned(q, c, batch[i], true)
    {
      assert batch[i] in batch;
      assert ThreadOk(p, batch[i]);
    }
  }

  lemma TakeThreads(p: Proc, c: nat, w: Which, k: Call)
    requires Safe(p) && c < |p.calls| && TakesBatch(p, c, w, k) && WellShaped(Take(p, c, w, k))
    requires c > 0 ==> CanCall(p, c)
    ensures forall t: nat :: 0 < t < |p.recs| ==> ThreadOk(Take(p, c, w, k), t)
    ensures forall d: nat :: d < |p.calls| ==> CallOk(Take(p, c, w, k), d)
  {
    var q, batch := Take(p, c, w, k), Taken(p.arch, w, p.threads, p.recs);
    TakenKeeps(p.arch, w, p.threads, p.recs);
    WithoutKeeps(p.threads, batch);
    forall t | t in batch
      ensures 0 < t < |p.recs| && p.hist[t].place == Listed && Over(p.recs[t])
    {
      ChosenListed(p, w, t);
    }
    hide ThreadOk, CallOk, TidsOk, SlotsOk, MainOk, JoinCount, Taken, Without, TableOk;
    assert Takes(p, q, c, batch);
    forall t: nat | 0 < t < |p.recs|
      ensures ThreadOk(q, t)
    {
      TakesThread(p, q, c, batch, t);
    }
    forall d: nat | d < |p.calls|
      ensures CallOk(q, d)
    {
      TakesCall(p, q, c, batch, d);
    }
  }

  lemma WithoutShape(s: seq<nat>, gone: seq<nat>, n: nat)
    requires AllBelow(s, n) && Distinct(s)
    ensures AllBelow(Without(s, gone), n)
  {
    WithoutKeeps(s, gone);
    forall i | 0 <= i < |Without(s, gone)|
      ensures Without(s, gone)[i] < n
    {
      assert Without(s, gone)[i] in s;
    }
  }

  lemma TakeRest(p: Proc, c: nat, w: Which, k: Call)
    requires Safe(p) && c < |p.calls| && TakesBatch(p, c, w, k) && WellShaped(Take(p, c, w, k))
    requires k.InShutdown? ==> k.stage == Stage(p)
    ensures var q := Take(p, c, w, k); MainOk(q) && TableOk(q)
  {
    var q, batch := Take(p, c, w, k), Taken(p.arch, w, p.threads, p.recs);
    TakenKeeps(p.arch, w, p.threads, p.recs);
    WithoutKeeps(p.threads, batch);
    JoinCountUpdate(p.calls, c, k);
    hide TidsOk, SlotsOk, JoinCount, Taken, Without, ThreadOk, CallOk;
    assert 0 !in batch;
    assert p.threads == [0] ==> Stage(p) <= 2 || Without([0], batch) == [0];
  }

  lemma TakeIds(p: Proc, c: nat, w: Which, k: Call)
    requires Safe(p) && c < |p.calls| && WellShaped(Take(p, c, w, k))
    ensures var q := Take(p, c, w, k); TidsOk(q) && SlotsOk(q)
  {
    WithoutKeeps(p.threads, Taken(p.arch, w, p.threads, p.recs));
    hide MainOk, TableOk, JoinCount, Taken, Without, ThreadOk, CallOk;
  }

  lemma TakeShape(p: Proc, c: nat, w: Which, k: Call)
    requires Safe(p) && c < |p.calls| && TakesBatch(p, c, w, k)
    ensures WellShaped(Take(p, c, w, k))
  {
    WithoutShape(p.threads, Taken(p.arch, w, p.threads, p.recs), |p.recs|);
  }

  lemma ReapTakesKeeps(p: Proc, c: nat)
    requires Safe(p) && Enabled(p, ReapTakes(c))
    ensures Safe(Apply(p, ReapTakes(c)))
  {
    var k := InReap(Taken(p.arch, Reaping(p.arch), p.threads, p.recs), false);
    hide ThreadOk, CallOk, MainOk, TableOk, TidsOk, SlotsOk, Taken;
    TakeShape(p, c, Reaping(p.arch), k);
    TakeThreads(p, c, Reaping(p.arch), k);
    TakeRest(p, c, Reaping(p.arch), k);
    TakeIds(p, c, Reaping(p.arch), k);
  }

  lemma ShutdownReapsKeeps(p: Proc)
    requires Safe(p) && Enabled(p, ShutdownReaps)
    ensures Safe(Apply(p, ShutdownReaps))
  {
    var k := InShutdown(p.calls[0].stage, Taken(p.arch, Reaping(p.arch), p.threads, p.recs), false);
    hide ThreadOk, CallOk, MainOk, TableOk, TidsOk, SlotsOk, Taken;
    TakeShape(p, 0, Reaping(p.arch), k);
    TakeThreads(p, 0, Reaping(p.arch), k);
    TakeRest(p, 0, Reaping(p.arch), k);
    TakeIds(p, 0, Reaping(p.arch), k);
  }

  // ---- slots ----

  /** The slots the workers of s hold. */
  ghost function SlotSet(s: seq<nat>, recs: seq<Rec>): set<nat>
    requires AllBelow(s, |recs|)
  {
    if s == [] then {}
    else (if s[0] != 0 then {recs[s[0]].slot} else {}) + SlotSet(s[1..], recs)
  }

  lemma {:induction false} SlotSetIsInUse(s: seq<nat>, recs: seq<Rec>)
    requires AllBelow(s, |recs|)
    ensures forall slot :: slot in SlotSet(s, recs) <==> SlotInUse(s, recs, slot)
  {
    if s != [] {
      assert s == [s[0]] + s[1..];
      SlotSetIsInUse(s[1..], recs);
      forall slot
        ensures slot in SlotSet(s, recs) <==> SlotInUse(s, recs, slot)
      {
        assert slot in SlotSet(s[1..], recs) <==> SlotInUse(s[1..], recs, slot);
        if SlotInUse(s[1..], recs, slot) {
          var u :| u in s[1..] && u != 0 && recs[u].slot == slot;
          assert u in s;
        }
        if SlotInUse(s, recs, slot) && !(s[0] != 0 && recs[s[0]].slot == slot) {
          var u :| u in s && u != 0 && recs[u].slot == slot;
          assert u in s[1..];
        }
        if s[0] != 0 && recs[s[0]].slot == slot {
          assert s[0] in s;
        }
      }
    }
  }

  ghost predicate SlotsDiffer(s: seq<nat>, recs: seq<Rec>)
    requires AllBelow(s, |recs|)
  {
    forall i, j :: 0 <= i < j < |s| && s[i] != 0 && s[j] != 0 ==> recs[s[i]].slot != recs[s[j]].slot
  }

  lemma {:induction false} SlotSetSize(s: seq<nat>, recs: seq<Rec>)
    requires AllBelow(s, |recs|) && SlotsDiffer(s, recs)
    ensures |SlotSet(s, recs)| == Workers(s)
  {
    if s != [] {
      var rest := s[1..];
      SlotSetSize(rest, recs);
      if s[0] != 0 {
        SlotSetIsInUse(rest, recs);
        forall u | u in rest && u != 0
          ensures recs[u].slot != recs[s[0]].slot
        {
          var i :| 0 <= i < |rest| && rest[i] == u;
          assert s[i + 1] == u;
        }
      }
    }
  }

  ghost function AllSlots(n: nat): (r: set<nat>)
    ensures |r| == n && forall k :: k in r <==> 1 <= k <= n
  {
    if n == 0 then {} else AllSlots(n - 1) + {n}
  }

  lemma SubsetSize<T>(a: set<T>, b: set<T>)
    requires a <= b
    ensures |a| <= |b| && (|a| == |b| ==> a == b)
  {
    assert b == a + (b - a);
  }

  lemma SlotsOfTable(p: Proc)
    requires Safe(p) && p.arch == Arm
    ensures SlotsDiffer(p.threads, p.recs)
    ensures SlotSet(p.threads, p.recs) <= AllSlots(ARM_MAX_GUEST_THREADS - 1)
  {
    hide ThreadOk, CallOk, MainOk, TidsOk, CallInRange, JoinCount;
    SlotSetIsInUse(p.threads, p.recs);
    forall i | 0 <= i < |p.threads|
      ensures p.threads[i] in p.threads
    {
    }
  }

  /** Fewer than n numbers of 1..n are used exactly when the least unused one is among them. */
  lemma Pigeonhole(used: set<nat>, n: nat, first: nat)
    requires used <= AllSlots(n) && 1 <= first <= n + 1
    requires forall k: nat :: 1 <= k < first ==> k in used
    requires first <= n ==> first !in used
    ensures |used| <= n && (|used| < n <==> first <= n)
  {
    hide AllSlots;
    SubsetSize(used, AllSlots(n));
    if first == n + 1 {
      assert AllSlots(n) <= used;
      SubsetSize(AllSlots(n), used);
    } else {
      assert first in AllSlots(n);
    }
  }

  /** Slots never run out before the workers do, so the second -EAGAIN is never returned. */
  lemma ReservationSucceeds(p: Proc)
    requires Safe(p) && p.arch == Arm
    ensures Workers(p.threads) <= ARM_MAX_GUEST_THREADS - 1
    ensures Workers(p.threads) < ARM_MAX_GUEST_THREADS - 1 <==> FreeSlot(p.threads, p.recs, 1) < ARM_MAX_GUEST_THREADS
  {
    hide ThreadOk, CallOk, MainOk, TableOk, TidsOk, SlotsOk, SlotSet, Workers, SlotsDiffer, SlotInUse, AllSlots, FreeSlot;
    SlotsOfTable(p);
    SlotSetSize(p.threads, p.recs);
    SlotSetIsInUse(p.threads, p.recs);
    Pigeonhole(SlotSet(p.threads, p.recs), ARM_MAX_GUEST_THREADS - 1, FreeSlot(p.threads, p.recs, 1));
  }

  // ---- the stages of shutdown ----

  lemma {:induction false} SelectedAreWorkers(s: seq<nat>, recs: seq<Rec>)
    requires AllBelow(s, |recs|)
    ensures |Select(Collecting, s, recs)| <= Workers(s)
  {
    if s != [] {
      SelectedAreWorkers(s[1..], recs);
    }
  }

  /** Once the workers are quiet, every worker in the table is there to be collected. */
  lemma QuietTable(p: Proc, t: nat)
    requires Safe(p) && Stage(p) >= 1 && t in p.threads && t != 0
    ensures Collectable(p.recs, t)
  {
    forall c | 0 < c < |p.calls|
      ensures p.calls[c] == NoCall
    {
      assert CallOk(p, c);
    }
    assert ThreadOk(p, t);
  }

  lemma FirstTwoDiffer(s: seq<nat>)
    requires Distinct(s)
    ensures |s| >= 2 ==> s[0] != s[1]
  {
  }

  lemma OnlyMain(s: seq<nat>)
    requires Distinct(s) && 0 in s && forall i :: 0 <= i < |s| ==> s[i] == 0
    ensures s == [0]
  {
    FirstTwoDiffer(s);
  }

  /** ARM's arrays are large enough: the last collection leaves only the main thread. */
  lemma ArmCollectsAll(p: Proc)
    requires Safe(p) && p.arch == Arm && Stage(p) >= 1
    ensures Without(p.threads, Taken(Arm, Collecting, p.threads, p.recs)) == [0]
  {
    var batch := Taken(Arm, Collecting, p.threads, p.recs);
    ReservationSucceeds(p);
    SelectedAreWorkers(p.threads, p.recs);
    SelectKeeps(Collecting, p.threads, p.recs);
    WithoutKeeps(p.threads, batch);
    hide ThreadOk, CallOk, TidsOk, SlotsOk, CallInRange;
    var rest := Without(p.threads, batch);
    forall i | 0 <= i < |rest|
      ensures rest[i] == 0
    {
      assert rest[i] in rest;
      if rest[i] != 0 {
        QuietTable(p, rest[i]);
      }
    }
    assert 0 !in batch;
    OnlyMain(rest);
  }

  lemma CollectsKeeps(p: Proc)
    requires Safe(p) && Enabled(p, ShutdownCollects)
    ensures Safe(Apply(p, ShutdownCollects))
  {
    if p.arch == Arm { ArmCollects(p); } else { OneCollected(p); }
  }

  lemma OneCollected(p: Proc)
    requires Safe(p) && Enabled(p, ShutdownCollects) && p.arch == AArch64
    ensures Safe(Collected(p))
  {
    var k := InShutdown(2, Taken(p.arch, Collecting, p.threads, p.recs), false);
    hide ThreadOk, CallOk, MainOk, TidsOk, SlotsOk, Taken, TableOk;
    TakeShape(p, 0, Collecting, k);
    TakeThreads(p, 0, Collecting, k);
    TakeIds(p, 0, Collecting, k);
    TakeRest(p, 0, Collecting, k);
  }

  lemma ArmCollects(p: Proc)
    requires Safe(p) && Enabled(p, ShutdownCollects) && p.arch == Arm
    ensures Safe(Collected(p))
  {
    var batch := Taken(p.arch, Collecting, p.threads, p.recs);
    var k, k2 := InShutdown(3, batch, false), InShutdown(2, batch, false);
    hide ThreadOk, CallOk, MainOk, TidsOk, SlotsOk, Taken, TableOk, CallInRange;
    TakeShape(p, 0, Collecting, k);
    TakeShape(p, 0, Collecting, k2);
    TakeThreads(p, 0, Collecting, k);
    TakeIds(p, 0, Collecting, k);
    TakeRest(p, 0, Collecting, k2);
    ArmCollectsAll(p);
    var q := Take(p, 0, Collecting, k2);
    NextStage(q, 3);
    assert q.(calls := q.calls[0 := q.calls[0].(stage := 3)]) == Collected(p);
    assert Take(p, 0, Collecting, k) == Collected(p);
  }

  /** The table facts do not depend on whether the stage is the second or the third. */
  lemma NextStage(q: Proc, stage: nat)
    requires WellShaped(q) && q.calls[0].InShutdown? && 1 <= q.calls[0].stage <= 3 && 1 <= stage <= 3
    requires MainOk(q) && TableOk(q) && q.threads == [0]
    ensures var r := q.(calls := q.calls[0 := q.calls[0].(stage := stage)]);
            WellShaped(r) && MainOk(r) && TableOk(r)
  {
    JoinCountUpdate(q.calls, 0, q.calls[0].(stage := stage));
    hide JoinCount;
  }

  /** A step that only moves the main thread between calls without a batch. */
  lemma MainCallKeeps(p: Proc, k: Call, down: bool)
    requires Safe(p) && (p.calls[0] == NoCall || ShutdownAt(p, Stage(p)))
    requires k == NoCall || (k.InShutdown? && k.batch == [] && !k.headJoined && k.stage <= 3)
    requires (down <==> k.InShutdown?) && Stage(p) < 4
    requires k.InShutdown? && k.stage >= 1 ==> Quiet(p)
    requires k.InShutdown? && k.stage >= 3 ==> p.threads == [0]
    ensures Safe(SetCall(p, 0, k).(shuttingDown := down))
  {
    var q := SetCall(p, 0, k).(shuttingDown := down);
    JoinCountUpdate(p.calls, 0, k);
    hide JoinCount;
    forall t: nat | 0 < t < |q.recs|
      ensures ThreadOk(q, t)
    {
      assert ThreadOk(p, t);
    }
    forall c: nat | c < |q.calls|
      ensures CallOk(q, c)
    {
      assert CallOk(p, c);
    }
  }

  lemma ReapEndsKeeps(p: Proc, c: nat)
    requires Safe(p) && Enabled(p, ReapEnds(c))
    ensures Safe(Apply(p, ReapEnds(c)))
  {
    var q := Apply(p, ReapEnds(c));
    JoinCountUpdate(p.calls, c, NoCall);
    hide JoinCount, TidsOk, SlotsOk;
    assert TidsOk(q) && SlotsOk(q) by { SameIds(p, q); }
    forall t: nat | 0 < t < |q.recs|
      ensures ThreadOk(q, t)
    {
      assert ThreadOk(p, t);
    }
    forall d: nat | d < |q.calls|
      ensures CallOk(q, d)
    {
      assert CallOk(p, d);
    }
  }

  lemma SameIds(p: Proc, q: Proc)
    requires WellShaped(p) && WellShaped(q) && q.recs == p.recs && q.nextTid == p.nextTid && q.arch == p.arch
    requires q.threads == p.threads && TidsOk(p) && SlotsOk(p)
    ensures TidsOk(q) && SlotsOk(q)
  {
  }

  lemma QuietWhenNonePending(p: Proc)
    requires Safe(p) && forall u :: u in p.threads ==> !ThreadPending(p.recs, u)
    ensures Quiet(p)
  {
    forall t | 0 < t < |p.recs| && p.hist[t].started
      ensures Over(p.recs[t])
    {
      assert ThreadOk(p, t);
    }
  }

  lemma ClearsKeeps(p: Proc)
    requires Safe(p) && Enabled(p, ShutdownClears)
    ensures Safe(Apply(p, ShutdownClears)) && p.threads == [0]
  {
    TakenKeeps(p.arch, Collecting, p.threads, p.recs);
    assert p.threads == [0] by {
      hide ThreadOk, CallOk, TidsOk, SlotsOk, CallInRange, Taken;
      forall i | 0 <= i < |p.threads|
        ensures p.threads[i] == 0
      {
        if p.threads[i] != 0 {
          QuietTable(p, p.threads[i]);
        }
      }
      OnlyMain(p.threads);
    }
    hide Taken;
    MainCallKeeps(p, InShutdown(3, [], false), true);
  }

  lemma MainFreedKeeps(p: Proc)
    requires Safe(p) && Enabled(p, MainFreed)
    ensures Safe(Apply(p, MainFreed))
  {
    var q := Apply(p, MainFreed);
    JoinCountUpdate(p.calls, 0, InShutdown(4, [], false));
    hide JoinCount, TidsOk, SlotsOk;
    assert TidsOk(q) && SlotsOk(q) by { SameIds(p, q); }
    forall t: nat | 0 < t < |q.recs|
      ensures ThreadOk(q, t)
    {
      assert ThreadOk(p, t);
    }
    forall c: nat | c < |q.calls|
      ensures CallOk(q, c)
    {
      assert CallOk(p, c);
    }
  }
}
