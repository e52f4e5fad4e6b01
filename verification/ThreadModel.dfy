/**
 Guest threads of the ARM and AArch64 interpreters as a state machine.  One step is one
 section of code run with process->mutex held, or one unlocked action (pthread_join
 returning, a record being freed, a host thread ending).  Any actor may take any step
 that its own place in the code allows, so the steps give every interleaving.

 A thread is named by its position in recs; 0 is the main thread.  recs holds the fields
 of the source's records.  hist holds what happened to each record: it is not read by
 any guard of the source, only by the host's own rules (joining waits for the end).
 */
module ThreadModel {

  datatype Arch = Arm | AArch64

  const ARM_MAX_GUEST_THREADS: nat := 16

  /** Exiting is an ARM state, Joined an AArch64 one. */
  datatype Phase = Idle | Running | Exiting | Finished | Joined

  datatype Rec = Rec(tid: nat, slot: nat, valid: bool, joinable: bool, detached: bool, joining: bool, phase: Phase)

  /** Where a record is: in the threads table, in the hands of one actor, or freed. */
  datatype Place = Creating(actor: nat) | Listed | Joining(actor: nat) | Held(actor: nat) | Gone

  datatype Hist = Hist(started: bool, exited: bool, joins: nat, frees: nat, place: Place)

  /** Where an actor is in the code; batch holds records it took from the table. */
  datatype Call =
    | NoCall
    | InCreate(t: nat)
    | InFailedCreate(t: nat)
    | InJoin(t: nat, returned: bool)
    | InJoinFree(t: nat)
    | InReap(batch: seq<nat>, headJoined: bool)
    | InShutdown(stage: nat, batch: seq<nat>, headJoined: bool)

  datatype Proc = Proc(arch: Arch, threads: seq<nat>, recs: seq<Rec>, hist: seq<Hist>, calls: seq<Call>,
                       nextTid: nat, activeJoins: int, shuttingDown: bool)

  function MainRec(): Rec { Rec(1, 0, true, false, false, false, Running) }

  function MainHist(): Hist { Hist(true, false, 0, 0, Listed) }

  /** After init and the attachment of the main thread, which has tid 1. */
  function Initial(arch: Arch): Proc {
    Proc(arch, [0], [MainRec()], [MainHist()], [NoCall], 2, 0, false)
  }

  // ---- the threads table ----

  predicate Distinct(s: seq<nat>) {
    forall i, j :: 0 <= i < j < |s| ==> s[i] != s[j]
  }

  predicate AllBelow(s: seq<nat>, n: nat) {
    forall i :: 0 <= i < |s| ==> s[i] < n
  }

  /** VectorDeleteElement at the first place that holds t, if there is one. */
  function Remove(s: seq<nat>, t: nat): seq<nat> {
    if s == [] then [] else if s[0] == t then s[1..] else [s[0]] + Remove(s[1..], t)
  }

  lemma {:induction false} RemoveKeeps(s: seq<nat>, t: nat)
    requires Distinct(s)
    ensures forall u :: u in Remove(s, t) <==> u in s && u != t
    ensures forall i :: 0 <= i < |Remove(s, t)| ==> Remove(s, t)[i] in s
    ensures Distinct(Remove(s, t))
  {
    if s != [] {
      assert s == [s[0]] + s[1..];
      if s[0] != t {
        RemoveKeeps(s[1..], t);
        Prepended(s[0], Remove(s[1..], t));
      }
    }
  }

  lemma Prepended(u: nat, s: seq<nat>)
    requires Distinct(s) && u !in s
    ensures Distinct([u] + s)
  {
  }

  /** The first thread in the table with this tid. */
  function Find(s: seq<nat>, recs: seq<Rec>, tid: nat): (t: int)
    requires AllBelow(s, |recs|)
    ensures t != -1 ==> t in s && t < |recs| && recs[t].tid == tid
    ensures t == -1 ==> forall i :: 0 <= i < |s| ==> recs[s[i]].tid != tid
  {
    if s == [] then -1 else if recs[s[0]].tid == tid then s[0] else Find(s[1..], recs, tid)
  }

  /** Detached, finished and not yet taken: what ReapFinishedDetachedThreads looks for. */
  predicate Reapable(arch: Arch, recs: seq<Rec>, t: nat)
    requires t < |recs|
  {
    && t != 0 && recs[t].detached && recs[t].valid && recs[t].phase == Finished
    && (arch == Arm ==> !recs[t].joining)
  }

  /** What the end of shutdown collects. */
  predicate Collectable(recs: seq<Rec>, t: nat)
    requires t < |recs|
  {
    t != 0 && recs[t].valid && !recs[t].joining
  }

  datatype Which = Reaping(arch: Arch) | Collecting

  predicate Chosen(w: Which, recs: seq<Rec>, t: nat)
    requires t < |recs|
  {
    match w
    case Reaping(arch) => Reapable(arch, recs, t)
    case Collecting => Collectable(recs, t)
  }

  /** The threads of s that are chosen, in order. */
  function Select(w: Which, s: seq<nat>, recs: seq<Rec>): (r: seq<nat>)
    requires AllBelow(s, |recs|)
    ensures AllBelow(r, |recs|)
  {
    if s == [] then []
    else if Chosen(w, recs, s[0]) then [s[0]] + Select(w, s[1..], recs)
    else Select(w, s[1..], recs)
  }

  lemma {:induction false} SelectKeeps(w: Which, s: seq<nat>, recs: seq<Rec>)
    requires AllBelow(s, |recs|) && Distinct(s)
    ensures forall u :: u in Select(w, s, recs) <==> u in s && Chosen(w, recs, u)
    ensures Distinct(Select(w, s, recs))
  {
    if s != [] {
      assert s == [s[0]] + s[1..];
      SelectKeeps(w, s[1..], recs);
      if Chosen(w, recs, s[0]) {
        Prepended(s[0], Select(w, s[1..], recs));
      }
    }
  }

  /** ARM collects into an array of this size, AArch64 one thread at a time. */
  function BatchLimit(arch: Arch): nat { if arch == Arm then ARM_MAX_GUEST_THREADS else 1 }

  /** What one critical section takes: the first chosen threads, up to the limit. */
  function Taken(arch: Arch, w: Which, s: seq<nat>, recs: seq<Rec>): (r: seq<nat>)
    requires AllBelow(s, |recs|)
    ensures AllBelow(r, |recs|)
  {
    var all := Select(w, s, recs);
    if |all| > BatchLimit(arch) then all[..BatchLimit(arch)] else all
  }

  lemma TakenKeeps(arch: Arch, w: Which, s: seq<nat>, recs: seq<Rec>)
    requires AllBelow(s, |recs|) && Distinct(s)
    ensures var r := Taken(arch, w, s, recs);
            && Distinct(r)
            && (forall u :: u in r ==> u in s && Chosen(w, recs, u))
            && (r == [] <==> forall i :: 0 <= i < |s| ==> !Chosen(w, recs, s[i]))
  {
    SelectKeeps(w, s, recs);
    var all := Select(w, s, recs);
    if all == [] {
      forall i | 0 <= i < |s|
        ensures !Chosen(w, recs, s[i])
      {
        assert s[i] !in all;
      }
    } else {
      assert all[0] in all;
    }
  }

  /** The threads of s that are not in gone. */
  function Without(s: seq<nat>, gone: seq<nat>): seq<nat> {
    if s == [] then []
    else if s[0] in gone then Without(s[1..], gone)
    else [s[0]] + Without(s[1..], gone)
  }

  lemma {:induction false} WithoutKeeps(s: seq<nat>, gone: seq<nat>)
    requires Distinct(s)
    ensures forall u :: u in Without(s, gone) <==> u in s && u !in gone
    ensures Distinct(Without(s, gone))
  {
    if s != [] {
      assert s == [s[0]] + s[1..];
      WithoutKeeps(s[1..], gone);
      if s[0] !in gone {
        Prepended(s[0], Without(s[1..], gone));
      }
    }
  }

  // ---- slots ----

  function Workers(s: seq<nat>): nat {
    if s == [] then 0 else (if s[0] != 0 then 1 else 0) + Workers(s[1..])
  }

  predicate SlotInUse(s: seq<nat>, recs: seq<Rec>, slot: nat)
    requires AllBelow(s, |recs|)
  {
    exists u :: u in s && u != 0 && recs[u].slot == slot
  }

  /** The least slot of from..15 not in use, or ARM_MAX_GUEST_THREADS. */
  function FreeSlot(s: seq<nat>, recs: seq<Rec>, from: nat): (slot: nat)
    requires AllBelow(s, |recs|)
    requires from <= ARM_MAX_GUEST_THREADS
    ensures from <= slot <= ARM_MAX_GUEST_THREADS
    ensures slot < ARM_MAX_GUEST_THREADS ==> !SlotInUse(s, recs, slot)
    ensures forall k :: from <= k < slot ==> SlotInUse(s, recs, k)
    decreases ARM_MAX_GUEST_THREADS - from
  {
    if from == ARM_MAX_GUEST_THREADS || !SlotInUse(s, recs, from) then from
    else FreeSlot(s, recs, from + 1)
  }

  // ---- steps ----

  datatype Step =
    | WorkerRuns(t: nat)
    | UserReturns(t: nat)
    | WorkerFinishes(t: nat)
    | HostEnds(t: nat)
    | Reserve(c: nat)
    | InitFails(c: nat)
    | Start(c: nat, ok: bool)
    | CreateStarted(c: nat, ok: bool)
    | FreeFailed(c: nat)
    | JoinBegins(c: nat, tid: nat)
    | JoinReturns(c: nat)
    | JoinEnds(c: nat)
    | JoinFrees(c: nat)
    | Detach(c: nat, tid: nat)
    | ReapTakes(c: nat)
    | BatchJoins(c: nat)
    | BatchFrees(c: nat)
    | ReapEnds(c: nat)
    | ShutdownBegins
    | ShutdownReaps
    | WorkersQuiet
    | JoinsDone
    | ShutdownCollects
    | ShutdownClears
    | MainFreed

  predicate WellShaped(p: Proc) {
    && |p.recs| == |p.hist| == |p.calls| > 0
    && AllBelow(p.threads, |p.recs|)
    && (forall c: nat :: c < |p.calls| ==> CallInRange(p.calls[c], |p.recs|))
  }

  predicate CallInRange(k: Call, n: nat) {
    match k
    case NoCall => true
    case InCreate(t) => t < n
    case InFailedCreate(t) => t < n
    case InJoin(t, _) => t < n
    case InJoinFree(t) => t < n
    case InReap(batch, _) => AllBelow(batch, n)
    case InShutdown(_, batch, _) => AllBelow(batch, n)
  }

  /** c executes guest code and is in no call: it may make one. */
  predicate CanCall(p: Proc, c: nat)
    requires WellShaped(p)
  {
    && c < |p.calls| && p.calls[c] == NoCall
    && (c == 0 || (p.hist[c].started && (p.recs[c].phase == Running || p.recs[c].phase == Exiting)))
  }

  predicate ThreadPending(recs: seq<Rec>, t: nat)
    requires t < |recs|
  {
    t != 0 && recs[t].valid && recs[t].phase != Finished
  }

  /** The guards of the source, and of the host for what the host does. */
  predicate Enabled(p: Proc, a: Step)
    requires WellShaped(p)
  {
    match a
    case WorkerRuns(t) => 0 < t < |p.recs| && p.hist[t].started && p.recs[t].phase == Idle
    case UserReturns(t) => p.arch == Arm && t != 0 && CanCall(p, t) && p.recs[t].phase == Running
    case WorkerFinishes(t) => t != 0 && CanCall(p, t)
    case HostEnds(t) => 0 < t < |p.recs| && p.hist[t].started && p.recs[t].phase == Finished && !p.hist[t].exited
    case Reserve(c) =>
      p.arch == Arm && CanCall(p, c) && !p.shuttingDown && Workers(p.threads) < ARM_MAX_GUEST_THREADS - 1
      && FreeSlot(p.threads, p.recs, 1) < ARM_MAX_GUEST_THREADS
    case InitFails(c) => c < |p.calls| && p.calls[c].InCreate?
    case Start(c, ok) => c < |p.calls| && p.calls[c].InCreate? && (ok ==> !p.shuttingDown)
    case CreateStarted(c, ok) => p.arch == AArch64 && CanCall(p, c) && !p.shuttingDown
    case FreeFailed(c) => c < |p.calls| && p.calls[c].InFailedCreate?
    case JoinBegins(c, tid) =>
      CanCall(p, c) && tid != 0 && tid != p.recs[c].tid
      && var t := Find(p.threads, p.recs, tid);
         t > 0 && p.recs[t].joinable && !p.recs[t].detached && p.recs[t].valid
    case JoinReturns(c) =>
      c < |p.calls| && p.calls[c].InJoin? && !p.calls[c].returned && p.hist[p.calls[c].t].exited
    case JoinEnds(c) => c < |p.calls| && p.calls[c].InJoin? && p.calls[c].returned
    case JoinFrees(c) => c < |p.calls| && p.calls[c].InJoinFree?
    case Detach(c, tid) =>
      CanCall(p, c) && tid != 0 && (p.arch == Arm ==> tid != p.recs[c].tid)
      && var t := Find(p.threads, p.recs, tid);
         t > 0 && p.recs[t].joinable && !p.recs[t].detached && (p.arch == Arm ==> p.recs[t].valid)
    case ReapTakes(c) => CanCall(p, c)
    case BatchJoins(c) =>
      c < |p.calls| && HasBatch(p.calls[c]) && !p.calls[c].headJoined && p.hist[p.calls[c].batch[0]].exited
    case BatchFrees(c) => c < |p.calls| && HasBatch(p.calls[c]) && p.calls[c].headJoined
    case ReapEnds(c) => c < |p.calls| && p.calls[c].InReap? && p.calls[c].batch == []
    case ShutdownBegins => CanCall(p, 0)
    case ShutdownReaps => ShutdownAt(p, 0) || ShutdownAt(p, 2)
    case WorkersQuiet => ShutdownAt(p, 0) && forall u :: u in p.threads ==> !ThreadPending(p.recs, u)
    case JoinsDone => ShutdownAt(p, 1) && p.activeJoins == 0
    case ShutdownCollects =>
      ShutdownAt(p, 2) && (p.arch == AArch64 ==> Taken(p.arch, Collecting, p.threads, p.recs) != [])
    case ShutdownClears =>
      ShutdownAt(p, 2) && p.arch == AArch64 && Taken(p.arch, Collecting, p.threads, p.recs) == []
    case MainFreed => ShutdownAt(p, 3)
  }

  predicate HasBatch(k: Call) { (k.InReap? || k.InShutdown?) && |k.batch| > 0 }

  /** The main thread is at this stage of shutdown with nothing in its hands. */
  predicate ShutdownAt(p: Proc, stage: nat)
    requires WellShaped(p)
  {
    p.calls[0].InShutdown? && p.calls[0].stage == stage && p.calls[0].batch == []
  }

  function SetRec(p: Proc, t: nat, r: Rec, h: Hist): Proc
    requires t < |p.recs| && t < |p.hist|
  {
    p.(recs := p.recs[t := r], hist := p.hist[t := h])
  }

  function SetCall(p: Proc, c: nat, k: Call): Proc
    requires c < |p.calls|
  {
    p.(calls := p.calls[c := k])
  }

  /** The places of the records of batch set to place. */
  function Moved(hist: seq<Hist>, batch: seq<nat>, place: Place): (h: seq<Hist>)
    ensures |h| == |hist|
    ensures forall t :: 0 <= t < |hist| ==> h[t] == if t in batch then hist[t].(place := place) else hist[t]
  {
    seq(|hist|, t requires 0 <= t < |hist| => if t in batch then hist[t].(place := place) else hist[t])
  }

  function Take(p: Proc, c: nat, w: Which, k: Call): Proc
    requires WellShaped(p) && c < |p.calls|
  {
    var batch := Taken(p.arch, w, p.threads, p.recs);
    p.(threads := Without(p.threads, batch), hist := Moved(p.hist, batch, Held(c)), calls := p.calls[c := k])
  }

  function NewRec(p: Proc, slot: nat, valid: bool): Rec {
    Rec(p.nextTid, slot, valid, true, false, false, Idle)
  }

  /** A new record; nothing of it is published when place is Held. */
  function Allocate(p: Proc, c: nat, r: Rec, h: Hist, k: Call): Proc
    requires c < |p.calls|
  {
    p.(recs := p.recs + [r], hist := p.hist + [h], calls := p.calls[c := k] + [NoCall], nextTid := p.nextTid + 1,
       threads := if h.place.Held? then p.threads else p.threads + [|p.recs|])
  }

  function Apply(p: Proc, a: Step): Proc
    requires WellShaped(p) && Enabled(p, a)
  {
    match a
    case WorkerRuns(t) => SetPhase(p, t, Running)
    case UserReturns(t) => SetPhase(p, t, Exiting)
    case WorkerFinishes(t) => SetPhase(p, t, Finished)
    case HostEnds(t) => p.(hist := p.hist[t := p.hist[t].(exited := true)])
    case Reserve(c) => Reserved(p, c)
    case InitFails(c) => AbandonCreate(p, c)
    case Start(c, ok) => if ok then Started(p, c) else AbandonCreate(p, c)
    case CreateStarted(c, ok) => Created(p, c, ok)
    case FreeFailed(c) => CallFreed(p, c)
    case JoinBegins(c, tid) => JoinBegun(p, c, Find(p.threads, p.recs, tid))
    case JoinReturns(c) => JoinReturned(p, c)
    case JoinEnds(c) => JoinEnded(p, c)
    case JoinFrees(c) => CallFreed(p, c)
    case Detach(c, tid) => Detached(p, Find(p.threads, p.recs, tid))
    case ReapTakes(c) => ReapTaken(p, c)
    case BatchJoins(c) => HeadJoined(p, c)
    case BatchFrees(c) => HeadFreed(p, c)
    case ReapEnds(c) => SetCall(p, c, NoCall)
    case ShutdownBegins => SetCall(p, 0, InShutdown(0, [], false)).(shuttingDown := true)
    case ShutdownReaps => ShutdownReaped(p)
    case WorkersQuiet => SetCall(p, 0, InShutdown(1, [], false))
    case JoinsDone => SetCall(p, 0, InShutdown(2, [], false))
    case ShutdownCollects => Collected(p)
    case ShutdownClears => SetCall(p, 0, InShutdown(3, [], false)).(threads := [0])
    case MainFreed => Freed(SetCall(p, 0, InShutdown(4, [], false)), 0)
  }

  function SetPhase(p: Proc, t: nat, phase: Phase): Proc
    requires t < |p.recs|
  {
    p.(recs := p.recs[t := p.recs[t].(phase := phase)])
  }

  /** A record reserved and published before its worker is started. */
  function Reserved(p: Proc, c: nat): Proc
    requires WellShaped(p) && c < |p.calls|
  {
    var slot := FreeSlot(p.threads, p.recs, 1);
    Allocate(p, c, NewRec(p, slot, false), Hist(false, false, 0, 0, Creating(c)), InCreate(|p.recs|))
  }

  /** A record published and its worker started in one critical section, or taken back. */
  function Created(p: Proc, c: nat, ok: bool): Proc
    requires WellShaped(p) && c < |p.calls|
  {
    if ok then Allocate(p, c, NewRec(p, 0, true), Hist(true, false, 0, 0, Listed), NoCall)
    else Allocate(p, c, NewRec(p, 0, false), Hist(false, false, 0, 0, Held(c)), InFailedCreate(|p.recs|))
  }

  /** The one record in the caller's hands is freed, and the call is over. */
  function CallFreed(p: Proc, c: nat): Proc
    requires WellShaped(p) && c < |p.calls| && (p.calls[c].InFailedCreate? || p.calls[c].InJoinFree?)
  {
    Freed(SetCall(p, c, NoCall), p.calls[c].t)
  }

  function JoinReturned(p: Proc, c: nat): Proc
    requires WellShaped(p) && c < |p.calls| && p.calls[c].InJoin?
  {
    SetCall(HostJoined(p, p.calls[c].t), c, InJoin(p.calls[c].t, true))
  }

  function ReapTaken(p: Proc, c: nat): Proc
    requires WellShaped(p) && c < |p.calls|
  {
    Take(p, c, Reaping(p.arch), InReap(Taken(p.arch, Reaping(p.arch), p.threads, p.recs), false))
  }

  function ShutdownReaped(p: Proc): Proc
    requires WellShaped(p) && p.calls[0].InShutdown?
  {
    Take(p, 0, Reaping(p.arch),
         InShutdown(p.calls[0].stage, Taken(p.arch, Reaping(p.arch), p.threads, p.recs), false))
  }

  function Started(p: Proc, c: nat): Proc
    requires WellShaped(p) && c < |p.calls| && p.calls[c].InCreate?
  {
    var t := p.calls[c].t;
    SetCall(SetRec(p, t, p.recs[t].(valid := true), p.hist[t].(started := true, place := Listed)), c, NoCall)
  }

  function JoinBegun(p: Proc, c: nat, t: nat): Proc
    requires WellShaped(p) && c < |p.calls| && t < |p.recs|
  {
    SetCall(SetRec(p, t, p.recs[t].(joinable := false, joining := true), p.hist[t].(place := Joining(c))),
            c, InJoin(t, false)).(activeJoins := p.activeJoins + 1)
  }

  function JoinEnded(p: Proc, c: nat): Proc
    requires WellShaped(p) && c < |p.calls| && p.calls[c].InJoin?
  {
    var t := p.calls[c].t;
    var phase := if p.arch == AArch64 then Joined else p.recs[t].phase;
    SetCall(SetRec(p, t, p.recs[t].(valid := false, joining := false, phase := phase), p.hist[t].(place := Held(c))),
            c, InJoinFree(t)).(activeJoins := p.activeJoins - 1, threads := Remove(p.threads, t))
  }

  function Detached(p: Proc, t: nat): Proc
    requires t < |p.recs|
  {
    p.(recs := p.recs[t := p.recs[t].(joinable := false, detached := true)])
  }

  function HeadJoined(p: Proc, c: nat): Proc
    requires WellShaped(p) && c < |p.calls| && HasBatch(p.calls[c])
  {
    var k := p.calls[c];
    SetCall(HostJoined(p, k.batch[0]), c, k.(headJoined := true))
  }

  function HeadFreed(p: Proc, c: nat): Proc
    requires WellShaped(p) && c < |p.calls| && HasBatch(p.calls[c])
  {
    var k := p.calls[c];
    Freed(SetCall(p, c, k.(batch := k.batch[1..], headJoined := false)), k.batch[0])
  }

  /** The last collection; ARM clears the table in the same critical section. */
  function Collected(p: Proc): Proc
    requires WellShaped(p)
  {
    var batch := Taken(p.arch, Collecting, p.threads, p.recs);
    if p.arch == Arm then Take(p, 0, Collecting, InShutdown(3, batch, false)).(threads := [0])
    else Take(p, 0, Collecting, InShutdown(2, batch, false))
  }

  function HostJoined(p: Proc, t: nat): Proc
    requires t < |p.hist|
  {
    p.(hist := p.hist[t := p.hist[t].(joins := p.hist[t].joins + 1)])
  }

  function Freed(p: Proc, t: nat): Proc
    requires t < |p.hist|
  {
    p.(hist := p.hist[t := p.hist[t].(frees := p.hist[t].frees + 1, place := Gone)])
  }

  function AbandonCreate(p: Proc, c: nat): Proc
    requires WellShaped(p) && c < |p.calls| && p.calls[c].InCreate?
  {
    var t := p.calls[c].t;
    SetCall(p, c, InFailedCreate(t)).(threads := Remove(p.threads, t), hist := p.hist[t := p.hist[t].(place := Held(c))])
  }

  /** The states a run of steps from the start leads to. */
  ghost predicate RunFrom(p: Proc, run: seq<Step>, q: Proc)
    decreases |run|
  {
    if run == [] then p == q
    else WellShaped(p) && Enabled(p, run[0]) && RunFrom(Apply(p, run[0]), run[1..], q)
  }

  ghost predicate Reachable(arch: Arch, p: Proc) {
    exists run :: RunFrom(Initial(arch), run, p)
  }
}
