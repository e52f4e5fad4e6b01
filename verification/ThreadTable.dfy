/**
 The process's threads table as the source keeps it: a vector and records changed in
 place.  Each method is the body of one critical section, or a loop inside one, and is
 proved to take the step of the state machine that stands for it, or to refuse with the
 error the source returns and change nothing.
 */
module ThreadTable {
  import opened ThreadModel
  import opened ThreadSafety

  datatype Status = Done | NotFound | Invalid | NoSlot | Again

  // ---- what the collecting loops compute ----

  /** One pass over s: the first chosen threads up to the limit, and what is left of s. */
  function Sweep(w: Which, s: seq<nat>, recs: seq<Rec>, limit: nat): (r: (seq<nat>, seq<nat>))
    requires AllBelow(s, |recs|)
    ensures |r.0| <= limit
    ensures forall i :: 0 <= i < |r.0| ==> r.0[i] in s
    ensures AllBelow(r.1, |recs|)
  {
    if s == [] || limit == 0 then ([], s)
    else if Chosen(w, recs, s[0]) then
      var rest := Sweep(w, s[1..], recs, limit - 1); ([s[0]] + rest.0, rest.1)
    else
      var rest := Sweep(w, s[1..], recs, limit); (rest.0, [s[0]] + rest.1)
  }

  lemma {:induction false} WithoutNone(s: seq<nat>)
    ensures Without(s, []) == s
  {
    if s != [] {
      WithoutNone(s[1..]);
    }
  }

  lemma {:induction false} WithoutAlso(s: seq<nat>, t: nat, gone: seq<nat>)
    requires t !in s
    ensures Without(s, [t] + gone) == Without(s, gone)
  {
    if s != [] {
      WithoutAlso(s[1..], t, gone);
    }
  }

  lemma {:induction false} SweepIsPrefix(w: Which, s: seq<nat>, recs: seq<Rec>, limit: nat)
    requires AllBelow(s, |recs|)
    ensures var all := Select(w, s, recs);
            Sweep(w, s, recs, limit).0 == if |all| > limit then all[..limit] else all
  {
    hide Chosen;
    if s != [] && limit > 0 {
      SweepIsPrefix(w, s[1..], recs, if Chosen(w, recs, s[0]) then limit - 1 else limit);
    }
  }

  lemma {:induction false} SweepLeaves(w: Which, s: seq<nat>, recs: seq<Rec>, limit: nat)
    requires AllBelow(s, |recs|) && Distinct(s)
    ensures Sweep(w, s, recs, limit).1 == Without(s, Sweep(w, s, recs, limit).0)
  {
    hide Chosen;
    if s == [] {
    } else if limit == 0 {
      WithoutNone(s);
    } else {
      var t, rest := s[0], s[1..];
      assert s == [t] + rest;
      var left := if Chosen(w, recs, t) then limit - 1 else limit;
      SweepLeaves(w, rest, recs, left);
      if Chosen(w, recs, t) {
        WithoutAlso(rest, t, Sweep(w, rest, recs, left).0);
      } else {
        assert t !in Sweep(w, rest, recs, left).0;
      }
    }
  }

  /** A pass takes a prefix of the chosen threads and leaves exactly the others. */
  lemma SweepTakes(w: Which, s: seq<nat>, recs: seq<Rec>, limit: nat)
    requires AllBelow(s, |recs|) && Distinct(s)
    ensures var all := Select(w, s, recs);
            Sweep(w, s, recs, limit).0 == if |all| > limit then all[..limit] else all
    ensures Sweep(w, s, recs, limit).1 == Without(s, Sweep(w, s, recs, limit).0)
  {
    SweepIsPrefix(w, s, recs, limit);
    SweepLeaves(w, s, recs, limit);
  }

  lemma {:induction false} RemoveFirst(s: seq<nat>, t: nat, i: nat)
    requires i < |s| && s[i] == t && forall k :: 0 <= k < i ==> s[k] != t
    ensures Remove(s, t) == s[..i] + s[i + 1..]
  {
    if i > 0 {
      RemoveFirst(s[1..], t, i - 1);
      assert s[..i] + s[i + 1..] == [s[0]] + (s[1..][..i - 1] + s[1..][i..]);
    }
  }

  /** The pass as seen from the middle of the loop. */
  lemma SweepAt(w: Which, s: seq<nat>, recs: seq<Rec>, limit: nat, n: nat)
    requires AllBelow(s, |recs|) && n <= |s|
    ensures n == |s| || limit == 0 ==> Sweep(w, s[n..], recs, limit) == ([], s[n..])
    ensures n < |s| && limit > 0 && Chosen(w, recs, s[n]) ==>
              var rest := Sweep(w, s[n + 1..], recs, limit - 1);
              Sweep(w, s[n..], recs, limit) == ([s[n]] + rest.0, rest.1)
    ensures n < |s| && limit > 0 && !Chosen(w, recs, s[n]) ==>
              var rest := Sweep(w, s[n + 1..], recs, limit);
              Sweep(w, s[n..], recs, limit) == (rest.0, [s[n]] + rest.1)
  {
    if n < |s| {
      assert s[n..][1..] == s[n + 1..];
    }
  }

  lemma Regroup(a: seq<nat>, t: nat, b: seq<nat>)
    ensures (a + [t]) + b == a + ([t] + b)
  {
  }

  /** The loop has walked over the first n threads of s. */
  ghost predicate Midway(w: Which, s: seq<nat>, recs: seq<Rec>, limit: nat, n: nat, batch: seq<nat>, kept: seq<nat>)
    requires AllBelow(s, |recs|)
  {
    && n <= |s| && |batch| <= limit
    && Sweep(w, s, recs, limit).0 == batch + Sweep(w, s[n..], recs, limit - |batch|).0
    && Sweep(w, s, recs, limit).1 == kept + Sweep(w, s[n..], recs, limit - |batch|).1
  }

  lemma MidwayStep(w: Which, s: seq<nat>, recs: seq<Rec>, limit: nat, n: nat, batch: seq<nat>, kept: seq<nat>)
    requires AllBelow(s, |recs|) && Midway(w, s, recs, limit, n, batch, kept) && n < |s| && |batch| < limit
    ensures if Chosen(w, recs, s[n]) then Midway(w, s, recs, limit, n + 1, batch + [s[n]], kept)
            else Midway(w, s, recs, limit, n + 1, batch, kept + [s[n]])
  {
    hide Sweep, Chosen;
    SweepAt(w, s, recs, limit - |batch|, n);
    if Chosen(w, recs, s[n]) {
      Regroup(batch, s[n], Sweep(w, s[n + 1..], recs, limit - |batch| - 1).0);
    } else {
      Regroup(kept, s[n], Sweep(w, s[n + 1..], recs, limit - |batch|).1);
    }
  }

  lemma MidwayEnd(w: Which, s: seq<nat>, recs: seq<Rec>, limit: nat, n: nat, batch: seq<nat>, kept: seq<nat>)
    requires AllBelow(s, |recs|) && Midway(w, s, recs, limit, n, batch, kept) && (n == |s| || |batch| == limit)
    ensures Sweep(w, s, recs, limit) == (batch, kept + s[n..])
  {
    hide Sweep, Chosen;
    SweepAt(w, s, recs, limit - |batch|, n);
    assert batch + [] == batch;
  }

  lemma Deleted(kept: seq<nat>, s: seq<nat>, n: nat)
    requires n < |s|
    ensures var t := kept + s[n..];
            t[|kept|] == s[n] && t == (kept + [s[n]]) + s[n + 1..] && t[..|kept|] + t[|kept| + 1..] == kept + s[n + 1..]
  {
  }

  lemma SweepIsTaking(arch: Arch, w: Which, s: seq<nat>, recs: seq<Rec>)
    requires AllBelow(s, |recs|) && Distinct(s)
    ensures var batch := Taken(arch, w, s, recs);
            Sweep(w, s, recs, BatchLimit(arch)) == (batch, Without(s, batch))
  {
    SweepTakes(w, s, recs, BatchLimit(arch));
  }

  /** A detached worker whose slot is about to come free: it is exiting, or finished and not yet taken. */
  predicate RetiringThread(recs: seq<Rec>, t: nat, caller: nat)
    requires t < |recs|
  {
    var r := recs[t];
    && t != caller && t != 0 && r.detached
    && (r.phase == Exiting || (r.phase == Finished && r.valid && !r.joining))
  }

  predicate Retiring(s: seq<nat>, recs: seq<Rec>, caller: nat)
    requires AllBelow(s, |recs|)
  {
    exists i :: 0 <= i < |s| && RetiringThread(recs, s[i], caller)
  }

  /** A worker that retires comes to an end without any call: once finished it is one that reaping takes. */
  lemma RetiringIsReaped(p: Proc, c: nat, i: nat)
    requires Safe(p) && i < |p.threads| && RetiringThread(p.recs, p.threads[i], c)
    ensures p.recs[p.threads[i]].phase == Finished ==> Reapable(p.arch, p.recs, p.threads[i])
    ensures p.recs[p.threads[i]].phase == Exiting && p.calls[p.threads[i]] == NoCall ==> Enabled(p, WorkerFinishes(p.threads[i]))
  {
    assert p.threads[i] in p.threads;
    assert ThreadOk(p, p.threads[i]);
  }

  class Process {
    const arch: Arch
    var threads: seq<nat>
    var recs: seq<Rec>
    var nextTid: nat
    var activeJoins: int
    var shuttingDown: bool

    constructor (arch: Arch)
      ensures Shows(Initial(arch))
    {
      this.arch := arch;
      threads, recs, nextTid, activeJoins, shuttingDown := [0], [MainRec()], 2, 0, false;
    }

    ghost predicate Valid()
      reads this
    {
      AllBelow(threads, |recs|)
    }

    /** The fields are those of the state p. */
    ghost predicate Shows(p: Proc)
      reads this
    {
      && arch == p.arch && threads == p.threads && recs == p.recs
      && nextTid == p.nextTid && activeJoins == p.activeJoins && shuttingDown == p.shuttingDown
    }

    // ---- the loops ----

    method FindThread(tid: nat) returns (t: int)
      requires Valid()
      ensures t == Find(threads, recs, tid)
    {
      var i := 0;
      while i < |threads|
        invariant 0 <= i <= |threads|
        invariant Find(threads, recs, tid) == Find(threads[i..], recs, tid)
      {
        if recs[threads[i]].tid == tid {
          return threads[i];
        }
        i := i + 1;
      }
      t := -1;
    }

    method IsWorkerSlotInUse(slot: nat) returns (used: bool)
      requires Valid()
      ensures used <==> SlotInUse(threads, recs, slot)
    {
      var i := 0;
      while i < |threads|
        invariant 0 <= i <= |threads|
        invariant forall k :: 0 <= k < i ==> threads[k] == 0 || recs[threads[k]].slot != slot
      {
        if threads[i] != 0 && recs[threads[i]].slot == slot {
          return true;
        }
        i := i + 1;
      }
      used := false;
    }

    method FindFreeSlot() returns (slot: nat)
      requires Valid()
      ensures slot == FreeSlot(threads, recs, 1)
    {
      slot := 1;
      while slot < ARM_MAX_GUEST_THREADS
        invariant 1 <= slot <= ARM_MAX_GUEST_THREADS
        invariant FreeSlot(threads, recs, 1) == FreeSlot(threads, recs, slot)
      {
        var used := IsWorkerSlotInUse(slot);
        if !used {
          return;
        }
        slot := slot + 1;
      }
    }

    method CountActiveWorkers() returns (count: nat)
      requires Valid()
      ensures count == Workers(threads)
    {
      count := 0;
      var i := 0;
      while i < |threads|
        invariant 0 <= i <= |threads|
        invariant Workers(threads) == count + Workers(threads[i..])
      {
        if threads[i] != 0 {
          count := count + 1;
        }
        i := i + 1;
      }
    }

    method HasRetiringDetachedWorker(caller: nat) returns (found: bool)
      requires Valid()
      ensures found <==> Retiring(threads, recs, caller)
    {
      var i := 0;
      while i < |threads|
        invariant 0 <= i <= |threads|
        invariant forall k :: 0 <= k < i ==> !RetiringThread(recs, threads[k], caller)
      {
        if RetiringThread(recs, threads[i], caller) {
          return true;
        }
        i := i + 1;
      }
      found := false;
    }

    method RemoveThread(t: nat)
      modifies this`threads
      ensures threads == Remove(old(threads), t)
    {
      var i := 0;
      while i < |threads|
        invariant 0 <= i <= |threads| && threads == old(threads)
        invariant forall k :: 0 <= k < i ==> threads[k] != t
      {
        if threads[i] == t {
          RemoveFirst(threads, t, i);
          threads := threads[..i] + threads[i + 1..];
          return;
        }
        i := i + 1;
      }
      RemoveAbsent(threads, t);
    }

    /** The loop that takes chosen threads out of the vector while it walks over it. */
    method TakeOut(w: Which, limit: nat) returns (batch: seq<nat>)
      requires Valid()
      modifies this`threads
      ensures batch == Sweep(w, old(threads), recs, limit).0
      ensures threads == Sweep(w, old(threads), recs, limit).1
    {
      batch := [];
      var i := 0;
      ghost var s, n, kept := threads, 0, [];
      assert s[0..] == s;
      hide Sweep, Chosen;
      assert Midway(w, s, recs, limit, 0, [], []);
      hide Midway;
      while i < |threads| && |batch| < limit
        invariant n <= |s| && |batch| <= limit && |kept| == i && threads == kept + s[n..]
        invariant Midway(w, s, recs, limit, n, batch, kept)
        decreases |s| - n
      {
        MidwayStep(w, s, recs, limit, n, batch, kept);
        Deleted(kept, s, n);
        if Chosen(w, recs, threads[i]) {
          batch := batch + [threads[i]];
          threads := threads[..i] + threads[i + 1..];
        } else {
          kept := kept + [threads[i]];
          i := i + 1;
        }
        n := n + 1;
      }
      MidwayEnd(w, s, recs, limit, n, batch, kept);
    }

    /** The workers still in the vector, up to the size of the array they are put into. */
    method CollectWorkers() returns (workers: seq<nat>, mainSeen: bool)
      requires Valid()
      ensures workers == Sweep(Collecting, threads, recs, ARM_MAX_GUEST_THREADS).0
      ensures mainSeen <==> 0 in threads
    {
      hide Sweep;
      workers, mainSeen := [], false;
      var i := 0;
      assert threads[0..] == threads;
      while i < |threads|
        invariant 0 <= i <= |threads| && |workers| <= ARM_MAX_GUEST_THREADS
        invariant mainSeen <==> 0 in threads[..i]
        invariant Sweep(Collecting, threads, recs, ARM_MAX_GUEST_THREADS).0
               == workers + Sweep(Collecting, threads[i..], recs, ARM_MAX_GUEST_THREADS - |workers|).0
      {
        SweepAt(Collecting, threads, recs, ARM_MAX_GUEST_THREADS - |workers|, i);
        SweepAt(Collecting, threads, recs, ARM_MAX_GUEST_THREADS - |workers|, i + 1);
        assert threads[..i + 1] == threads[..i] + [threads[i]];
        if threads[i] == 0 {
          mainSeen := true;
        } else if recs[threads[i]].valid && !recs[threads[i]].joining && |workers| < ARM_MAX_GUEST_THREADS {
          workers := workers + [threads[i]];
        }
        i := i + 1;
      }
      SweepAt(Collecting, threads, recs, ARM_MAX_GUEST_THREADS - |workers|, i);
    }

    // ---- the critical sections ----

    /**
     The first section of ARM's create: refused when shutting down, or when 15 workers exist
     of which none is about to retire; when one is, the caller reaps and comes again.
     */
    method ReserveThread(c: nat, ghost p: Proc) returns (status: Status)
      requires Safe(p) && Shows(p) && CanCall(p, c) && arch == Arm
      modifies this
      ensures status == Done <==> Enabled(p, Reserve(c))
      ensures status == Done ==> Shows(Apply(p, Reserve(c)))
      ensures status != Done ==> Shows(p)
      ensures status == Invalid <==> p.shuttingDown
      ensures status == NoSlot <==> !p.shuttingDown && Workers(p.threads) == ARM_MAX_GUEST_THREADS - 1
                                    && !Retiring(p.threads, p.recs, c)
      ensures status == Again <==> !p.shuttingDown && Workers(p.threads) == ARM_MAX_GUEST_THREADS - 1
                                   && Retiring(p.threads, p.recs, c)
    {
      hide ThreadOk, CallOk, MainOk, TableOk, TidsOk, SlotsOk, Workers, FreeSlot, Retiring;
      if shuttingDown {
        return Invalid;
      }
      ReservationSucceeds(p);
      var workers := CountActiveWorkers();
      if workers >= ARM_MAX_GUEST_THREADS - 1 {
        var wait := HasRetiringDetachedWorker(c);
        return if wait then Again else NoSlot;
      }
      var slot := FindFreeSlot();
      if slot == ARM_MAX_GUEST_THREADS {
        return NoSlot;
      }
      threads := threads + [|recs|];
      recs := recs + [Rec(nextTid, slot, false, true, false, false, Idle)];
      nextTid := nextTid + 1;
      status := Done;
    }

    /** The section of create that starts the worker, or takes the record back. */
    method StartThread(t: nat, hostOk: bool, c: nat, ghost p: Proc) returns (status: Status)
      requires WellShaped(p) && Shows(p) && c < |p.calls| && p.calls[c] == InCreate(t)
      modifies this
      ensures status == Done <==> hostOk && !p.shuttingDown
      ensures Shows(Apply(p, Start(c, status == Done)))
    {
      if shuttingDown || !hostOk {
        RemoveThread(t);
        return Invalid;
      }
      recs := recs[t := recs[t].(valid := true)];
      status := Done;
    }

    /** AArch64's create, which publishes and starts the worker in one section. */
    method CreateThread(hostOk: bool, c: nat, ghost p: Proc) returns (status: Status)
      requires WellShaped(p) && Shows(p) && CanCall(p, c) && arch == AArch64
      modifies this
      ensures status == Done <==> hostOk && !p.shuttingDown
      ensures if p.shuttingDown then Shows(p) else Shows(Apply(p, CreateStarted(c, hostOk)))
    {
      if shuttingDown {
        return Invalid;
      }
      var t := |recs|;
      recs := recs + [Rec(nextTid, 0, false, true, false, false, Idle)];
      nextTid := nextTid + 1;
      threads := threads + [t];
      if !hostOk {
        threads := threads[..|threads| - 1];
        return Invalid;
      }
      recs := recs[t := recs[t].(valid := true)];
      status := Done;
    }

    /** The first section of join, with the errors of both interpreters. */
    method BeginJoin(c: nat, tid: nat, ghost p: Proc) returns (status: Status, found: int)
      requires WellShaped(p) && Shows(p) && CanCall(p, c)
      modifies this
      ensures status == Done <==> Enabled(p, JoinBegins(c, tid))
      ensures status == Done ==> Shows(Apply(p, JoinBegins(c, tid))) && found == Find(p.threads, p.recs, tid)
      ensures status == NotFound <==> tid != 0 && tid != p.recs[c].tid && Find(p.threads, p.recs, tid) == -1
      ensures status != Done ==> Shows(p)
    {
      found := -1;
      if tid == 0 || tid == recs[c].tid {
        return Invalid, found;
      }
      found := FindThread(tid);
      if found == -1 {
        return NotFound, found;
      }
      var r := recs[found];
      if !r.joinable || r.detached || !r.valid || found == 0 {
        return Invalid, found;
      }
      recs := recs[found := r.(joinable := false, joining := true)];
      activeJoins := activeJoins + 1;
      status := Done;
    }

    /** The second section of join, after pthread_join has returned. */
    method EndJoin(t: nat, c: nat, ghost p: Proc)
      requires WellShaped(p) && Shows(p) && Enabled(p, JoinEnds(c)) && t == p.calls[c].t
      modifies this
      ensures Shows(Apply(p, JoinEnds(c)))
    {
      var r := recs[t].(valid := false, joining := false);
      recs := recs[t := if arch == AArch64 then r.(phase := Joined) else r];
      activeJoins := activeJoins - 1;
      RemoveThread(t);
    }

    method DetachThread(c: nat, tid: nat, ghost p: Proc) returns (status: Status)
      requires WellShaped(p) && Shows(p) && CanCall(p, c)
      modifies this
      ensures status == Done <==> Enabled(p, Detach(c, tid))
      ensures status == Done ==> Shows(Apply(p, Detach(c, tid)))
      ensures status == NotFound <==>
        tid != 0 && (p.arch == Arm ==> tid != p.recs[c].tid) && Find(p.threads, p.recs, tid) == -1
      ensures status != Done ==> Shows(p)
    {
      if tid == 0 || (arch == Arm && tid == recs[c].tid) {
        return Invalid;
      }
      var found := FindThread(tid);
      if found == -1 {
        return NotFound;
      }
      var r := recs[found];
      if !r.joinable || r.detached || found == 0 || (arch == Arm && !r.valid) {
        return Invalid;
      }
      recs := recs[found := r.(joinable := false, detached := true)];
      status := Done;
    }

    /** The critical section of reaping: ARM takes up to 16 threads, AArch64 one. */
    method ReapFinished(c: nat, ghost p: Proc) returns (batch: seq<nat>)
      requires Safe(p) && Shows(p) && CanCall(p, c)
      modifies this`threads
      ensures Shows(Apply(p, ReapTakes(c))) && Apply(p, ReapTakes(c)).calls[c] == InReap(batch, false)
    {
      hide ThreadOk, CallOk, MainOk, TidsOk, SlotsOk, Sweep, Taken, Without, Distinct, JoinCount, CallInRange;
      SweepIsTaking(arch, Reaping(arch), threads, recs);
      batch := TakeOut(Reaping(arch), BatchLimit(arch));
    }

    /** The last collection of shutdown, after which ARM keeps only the main thread. */
    method CollectForShutdown(ghost p: Proc) returns (batch: seq<nat>)
      requires Safe(p) && Shows(p) && Enabled(p, ShutdownCollects)
      modifies this`threads
      ensures Shows(Apply(p, ShutdownCollects)) && Apply(p, ShutdownCollects).calls[0].batch == batch
    {
      hide ThreadOk, CallOk, TidsOk, SlotsOk, Sweep, Taken, Without, Distinct, JoinCount, CallInRange;
      SweepIsTaking(arch, Collecting, threads, recs);
      if arch == Arm {
        var mainSeen;
        batch, mainSeen := CollectWorkers();
        threads := if mainSeen then [0] else [];
      } else {
        batch := TakeOut(Collecting, 1);
      }
    }
  }
}
