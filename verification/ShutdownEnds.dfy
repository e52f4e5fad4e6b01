/**
 Shutdown of the guest threads ends: from the moment the workers are quiet every step of
 any actor brings it nearer, and some step is always possible.
 */
module ShutdownEnds {
  import opened ThreadModel
  import opened ThreadSafety
  import opened ThreadRuns

  // ---- the measure ----

  /** The host threads that were started and have not ended. */
  function Alive(hist: seq<Hist>): nat {
    if hist == [] then 0
    else Alive(hist[..|hist| - 1]) + (if hist[|hist| - 1].started && !hist[|hist| - 1].exited then 1 else 0)
  }

  /** What shutdown still has to do: ends to wait for, threads to collect, to join and to free, and its own stages. */
  function Remaining(p: Proc): nat
    requires WellShaped(p) && p.calls[0].InShutdown? && p.calls[0].stage <= 4
  {
    var k := p.calls[0];
    Alive(p.hist) + 3 * |p.threads| + 2 * |k.batch| + (if k.headJoined then 0 else 1) + 2 * (4 - k.stage)
  }

  lemma {:induction false} SameAlive(h: seq<Hist>, g: seq<Hist>)
    requires |h| == |g| && forall t :: 0 <= t < |h| ==> h[t].started == g[t].started && h[t].exited == g[t].exited
    ensures Alive(h) == Alive(g)
  {
    if h != [] {
      SameAlive(h[..|h| - 1], g[..|g| - 1]);
    }
  }

  lemma {:induction false} OneEnds(h: seq<Hist>, t: nat)
    requires t < |h| && h[t].started && !h[t].exited
    ensures Alive(h[t := h[t].(exited := true)]) == Alive(h) - 1
  {
    var n := |h| - 1;
    var g := h[t := h[t].(exited := true)];
    if t < n {
      OneEnds(h[..n], t);
      assert g[..n] == h[..n][t := h[t].(exited := true)];
    } else {
      assert g[..n] == h[..n];
    }
  }

  // ---- taking threads out of the table ----

  function Members(s: seq<nat>): (r: set<nat>)
    ensures forall u :: u in r <==> u in s
  {
    if s == [] then {} else assert s == [s[0]] + s[1..]; {s[0]} + Members(s[1..])
  }

  lemma {:induction false} DistinctSize(s: seq<nat>)
    requires Distinct(s)
    ensures |Members(s)| == |s|
  {
    if s != [] {
      DistinctSize(s[1..]);
      assert s[0] !in s[1..];
    }
  }

  lemma WithoutSize(s: seq<nat>, gone: seq<nat>)
    requires Distinct(s) && Distinct(gone) && forall u :: u in gone ==> u in s
    ensures |Without(s, gone)| + |gone| == |s|
  {
    WithoutKeeps(s, gone);
    DistinctSize(s);
    DistinctSize(gone);
    DistinctSize(Without(s, gone));
    hide Without, Members;
    assert Members(s) == Members(gone) + Members(Without(s, gone));
    assert Members(gone) !! Members(Without(s, gone));
  }

  lemma TakenSize(p: Proc, w: Which)
    requires Safe(p)
    ensures var batch := Taken(p.arch, w, p.threads, p.recs);
            |Without(p.threads, batch)| + |batch| == |p.threads|
  {
    TakenKeeps(p.arch, w, p.threads, p.recs);
    hide Taken, Without, Chosen;
    WithoutSize(p.threads, Taken(p.arch, w, p.threads, p.recs));
  }

  // ---- every step ----

  /** An empty reap, which changes nothing. */
  predicate Idles(p: Proc, a: Step)
    requires WellShaped(p)
  {
    a == ShutdownReaps && Taken(p.arch, Reaping(p.arch), p.threads, p.recs) == []
  }

  /** The steps of main in shutdown, and the ends of host threads. */
  predicate OfShutdown(a: Step) {
    a.HostEnds? || a == BatchJoins(0) || a == BatchFrees(0) || a.ShutdownReaps? || a.JoinsDone? || a.ShutdownCollects?
    || a.ShutdownClears? || a.MainFreed?
  }

  /** Once the workers are quiet nobody can do anything else. */
  lemma OnlyShutdown(p: Proc, a: Step)
    requires Safe(p) && Stage(p) >= 1 && Enabled(p, a)
    ensures OfShutdown(a)
  {
    hide ThreadOk, CallOk, MainOk, TidsOk, SlotsOk, CallInRange, JoinCount, Taken, FreeSlot, Workers, Find;
    forall c | 0 < c < |p.calls|
      ensures p.calls[c] == NoCall && !CanCall(p, c)
    {
      QuietCalls(p, c);
    }
  }

  lemma EndDecreases(p: Proc, t: nat)
    requires Safe(p) && Stage(p) >= 1 && Enabled(p, HostEnds(t)) && p.calls[0].stage <= 4
    ensures var q := Apply(p, HostEnds(t));
            WellShaped(q) && q.calls == p.calls && Remaining(q) < Remaining(p)
  {
    OneEnds(p.hist, t);
    hide Alive;
  }

  lemma BatchDecreases(p: Proc, a: Step)
    requires Safe(p) && 1 <= Stage(p) <= 3 && Enabled(p, a) && (a == BatchJoins(0) || a == BatchFrees(0))
    ensures var q := Apply(p, a);
            WellShaped(q) && q.calls[0].InShutdown? && Stage(q) == Stage(p) && Remaining(q) < Remaining(p)
  {
    StepKeeps(p, a);
    hide ThreadOk, CallOk, MainOk, TidsOk, SlotsOk, TableOk;
    SameAlive(p.hist, Apply(p, a).hist);
  }

  /** Taking threads from the table into hand, where they count for less. */
  lemma TakeCounts(p: Proc, w: Which, k: Call)
    requires Safe(p) && p.calls[0].InShutdown? && k.InShutdown? && p.calls[0].stage <= k.stage <= 4 && !k.headJoined
    requires p.calls[0].batch == [] && !p.calls[0].headJoined && k.batch == Taken(p.arch, w, p.threads, p.recs)
    ensures var q := Take(p, 0, w, k);
            && Alive(q.hist) == Alive(p.hist) && q.calls[0] == k && |q.threads| + |k.batch| == |p.threads|
  {
    TakenSize(p, w);
    hide Safe, Taken, Without, Alive;
    SameAlive(p.hist, Take(p, 0, w, k).hist);
  }

  lemma NoHeadAlone(p: Proc)
    requires Safe(p) && p.calls[0].InShutdown? && p.calls[0].batch == []
    ensures !p.calls[0].headJoined
  {
    assert CallOk(p, 0);
  }

  lemma ReapDecreases(p: Proc)
    requires Safe(p) && 1 <= Stage(p) <= 3 && Enabled(p, ShutdownReaps) && !Idles(p, ShutdownReaps)
    ensures var q := Apply(p, ShutdownReaps);
            WellShaped(q) && q.calls[0].InShutdown? && Stage(p) <= Stage(q) <= 4 && Remaining(q) < Remaining(p)
  {
    StepKeeps(p, ShutdownReaps);
    NoHeadAlone(p);
    TakeCounts(p, Reaping(p.arch), InShutdown(p.calls[0].stage, Taken(p.arch, Reaping(p.arch), p.threads, p.recs), false));
    hide ThreadOk, CallOk, MainOk, TidsOk, SlotsOk, TableOk, Taken, Take, CallInRange, Alive;
  }

  lemma CollectDecreases(p: Proc)
    requires Safe(p) && 1 <= Stage(p) <= 3 && Enabled(p, ShutdownCollects)
    ensures var q := Apply(p, ShutdownCollects);
            WellShaped(q) && q.calls[0].InShutdown? && Stage(p) <= Stage(q) <= 4 && Remaining(q) < Remaining(p)
  {
    StepKeeps(p, ShutdownCollects);
    NoHeadAlone(p);
    MainListed(p);
    var stage := if p.arch == Arm then 3 else 2;
    TakeCounts(p, Collecting, InShutdown(stage, Taken(p.arch, Collecting, p.threads, p.recs), false));
    hide ThreadOk, CallOk, MainOk, TidsOk, SlotsOk, TableOk, Taken, CallInRange, Alive, Without, Moved;
  }

  lemma MainListed(p: Proc)
    requires Safe(p)
    ensures |p.threads| >= 1
    ensures |Without(p.threads, Taken(p.arch, Collecting, p.threads, p.recs))| >= 1
  {
    TakenKeeps(p.arch, Collecting, p.threads, p.recs);
    WithoutKeeps(p.threads, Taken(p.arch, Collecting, p.threads, p.recs));
    hide Taken, Without;
  }

  lemma StageDecreases(p: Proc, a: Step)
    requires Safe(p) && 1 <= Stage(p) <= 3 && Enabled(p, a) && (a.JoinsDone? || a.ShutdownClears? || a.MainFreed?)
    ensures var q := Apply(p, a);
            WellShaped(q) && q.calls[0].InShutdown? && Stage(p) <= Stage(q) <= 4 && Remaining(q) < Remaining(p)
  {
    StepKeeps(p, a);
    MainListed(p);
    hide ThreadOk, CallOk, TidsOk, SlotsOk, TableOk, Taken, Without, CallInRange;
    SameAlive(p.hist, Apply(p, a).hist);
    hide Alive;
  }

  /** From stage 1 on every step of any actor decreases what remains, but for reaps that find nothing. */
  lemma ShutdownDecreases(p: Proc, a: Step)
    requires Safe(p) && 1 <= Stage(p) <= 3 && Enabled(p, a)
    ensures var q := Apply(p, a);
            && WellShaped(q) && q.calls[0].InShutdown? && Stage(p) <= Stage(q) <= 4
            && (if Idles(p, a) then q == p else Remaining(q) < Remaining(p))
  {
    OnlyShutdown(p, a);
    hide Safe, Enabled, Apply, Remaining, Taken;
    if Idles(p, a) {
      IdleChangesNothing(p);
    } else {
      match a
      case HostEnds(t) => EndKeepsStage(p, t);
      case BatchJoins(_) => BatchDecreases(p, a);
      case BatchFrees(_) => BatchDecreases(p, a);
      case ShutdownReaps => ReapDecreases(p);
      case ShutdownCollects => CollectDecreases(p);
      case _ => StageDecreases(p, a);
    }
  }

  lemma EndKeepsStage(p: Proc, t: nat)
    requires Safe(p) && 1 <= Stage(p) <= 3 && Enabled(p, HostEnds(t))
    ensures var q := Apply(p, HostEnds(t));
            WellShaped(q) && q.calls[0].InShutdown? && Stage(q) == Stage(p) && Remaining(q) < Remaining(p)
  {
    EndDecreases(p, t);
    hide Safe, Enabled, Apply, Remaining;
  }

  lemma {:induction false} WithoutNobody(s: seq<nat>)
    ensures Without(s, []) == s
  {
    if s != [] {
      WithoutNobody(s[1..]);
    }
  }

  lemma IdleChangesNothing(p: Proc)
    requires Safe(p) && Stage(p) >= 1 && Enabled(p, ShutdownReaps) && Idles(p, ShutdownReaps)
    ensures Apply(p, ShutdownReaps) == p
  {
    WithoutNobody(p.threads);
    assert CallOk(p, 0);
    hide ThreadOk, MainOk, TidsOk, SlotsOk, TableOk, Taken, Without;
    assert Moved(p.hist, [], Held(0)) == p.hist;
  }

  /** At the end every host thread has ended. */
  lemma AllEnded(p: Proc, t: nat)
    requires Safe(p) && Stage(p) == 4 && 0 < t < |p.hist| && p.hist[t].started
    ensures p.hist[t].exited
  {
    forall c | 0 < c < |p.calls|
      ensures p.calls[c] == NoCall
    {
      QuietCalls(p, c);
    }
    hide TidsOk, SlotsOk, CallInRange, JoinCount, CallOk;
    assert ThreadOk(p, t);
  }

  /** At the end of shutdown nothing more happens. */
  lemma NothingAfterwards(p: Proc, a: Step)
    requires Safe(p) && Stage(p) == 4
    ensures !Enabled(p, a)
  {
    if a.HostEnds? && 0 < a.t < |p.hist| && p.hist[a.t].started {
      AllEnded(p, a.t);
    } else if Enabled(p, a) {
      OnlyShutdown(p, a);
    }
    hide ThreadOk, CallOk, TidsOk, SlotsOk, CallInRange, JoinCount, Taken;
  }

  // ---- whole runs ----

  /** A run without empty reaps. */
  ghost predicate Busy(p: Proc, run: seq<Step>)
    decreases |run|
  {
    run != [] ==> WellShaped(p) && Enabled(p, run[0]) && !Idles(p, run[0]) && Busy(Apply(p, run[0]), run[1..])
  }

  /** However the actors interleave, no run from there on has more steps than remained. */
  lemma {:induction false} ShutdownBounded(p: Proc, run: seq<Step>)
    requires Safe(p) && 1 <= Stage(p) <= 4 && Busy(p, run)
    ensures |run| <= Remaining(p)
    decreases |run|
  {
    hide Safe, Enabled, Apply, Remaining, Idles;
    if run != [] {
      if Stage(p) == 4 {
        NothingAfterwards(p, run[0]);
      } else {
        ShutdownDecreases(p, run[0]);
        StepKeeps(p, run[0]);
        ShutdownBounded(Apply(p, run[0]), run[1..]);
      }
    }
  }

  /** A step that is possible and brings shutdown nearer. */
  lemma SomeStep(p: Proc) returns (a: Step)
    requires Safe(p) && 1 <= Stage(p) <= 3
    ensures Enabled(p, a) && !Idles(p, a)
  {
    ShutdownNeverStuck(p);
    var k := p.calls[0];
    hide Safe, Enabled, Taken;
    a := if k.batch == [] then
           if Enabled(p, JoinsDone) then JoinsDone
           else if Enabled(p, ShutdownCollects) then ShutdownCollects
           else if Enabled(p, ShutdownClears) then ShutdownClears
           else MainFreed
         else if k.headJoined then BatchFrees(0)
         else if Enabled(p, BatchJoins(0)) then BatchJoins(0)
         else HostEnds(k.batch[0]);
  }

  /** From there on shutdown can always be carried to its end, in at most the steps that remained. */
  lemma {:induction false} ShutdownFinishes(p: Proc) returns (run: seq<Step>, q: Proc)
    requires Safe(p) && 1 <= Stage(p) <= 4
    ensures RunFrom(p, run, q) && Safe(q) && Stage(q) == 4 && |run| <= Remaining(p)
    decreases Remaining(p)
  {
    assert WellShaped(p);
    hide Safe, Enabled, Apply, Remaining, Idles;
    if Stage(p) == 4 {
      run, q := [], p;
    } else {
      var a := SomeStep(p);
      ShutdownDecreases(p, a);
      StepKeeps(p, a);
      var rest;
      rest, q := ShutdownFinishes(Apply(p, a));
      run := [a] + rest;
      assert run[1..] == rest;
    }
  }
}
