/**
 Exclusive loads and stores of the AArch64 interpreter.  Every access to guest memory runs
 with process->memory_mutex held, so an interleaving is a sequence of whole events.  The
 monitor is an epoch that every write of the process advances: a reservation stands while
 its epoch is the current one.
 */
module ExclusiveMonitor {

  import opened LittleEndian

  // ---- words in guest memory ----

  predicate Inside(memory: seq<byte>, addr: nat, size: nat) { addr + size <= |memory| }

  predicate Apart(addr: nat, size: nat, addr2: nat, size2: nat) {
    addr + size <= addr2 || addr2 + size2 <= addr
  }

  function Word(memory: seq<byte>, addr: nat, size: nat): nat
    requires Inside(memory, addr, size)
  {
    FromBytes(memory[addr..addr + size])
  }

  function WithWord(memory: seq<byte>, addr: nat, size: nat, value: nat): (r: seq<byte>)
    requires Inside(memory, addr, size)
    ensures |r| == |memory|
  {
    memory[..addr] + ToBytes(value, size) + memory[addr + size..]
  }

  lemma WordOfWithWord(memory: seq<byte>, addr: nat, size: nat, value: nat)
    requires Inside(memory, addr, size)
    ensures Word(WithWord(memory, addr, size, value), addr, size) == value % Modulus(size)
  {
    assert WithWord(memory, addr, size, value)[addr..addr + size] == ToBytes(value, size);
    BytesRoundTrip(value, size);
  }

  lemma WordApart(memory: seq<byte>, addr: nat, size: nat, addr2: nat, size2: nat, value: nat)
    requires Inside(memory, addr, size) && Inside(memory, addr2, size2) && Apart(addr, size, addr2, size2)
    ensures Word(WithWord(memory, addr2, size2, value), addr, size) == Word(memory, addr, size)
  {
    assert WithWord(memory, addr2, size2, value)[addr..addr + size] == memory[addr..addr + size];
  }

  // ---- the machine ----

  datatype Reservation = Reservation(valid: bool, addr: nat, size: nat, epoch: nat)

  /** hasProcess is false for an interpreter that runs on its own, which keeps no epoch. */
  datatype Machine = Machine(hasProcess: bool, memory: seq<byte>, epoch: nat, held: seq<Reservation>)

  datatype Event =
    | Store(t: nat, addr: nat, size: nat, value: nat)
    | LoadExclusive(t: nat, addr: nat, size: nat)
    | StoreExclusive(t: nat, addr: nat, size: nat, value: nat)
    | ClearExclusive(t: nat)

  predicate WellFormed(m: Machine) {
    && |m.held| > 0
    && (!m.hasProcess ==> |m.held| == 1 && m.epoch == 0)
    && forall t :: 0 <= t < |m.held| ==> m.held[t].epoch <= m.epoch
  }

  predicate Possible(m: Machine, e: Event) {
    && e.t < |m.held|
    && (!e.ClearExclusive? ==> Inside(m.memory, e.addr, e.size))
  }

  predicate Succeeds(m: Machine, t: nat, addr: nat, size: nat)
    requires t < |m.held|
  {
    m.held[t].valid && m.held[t].addr == addr && m.held[t].size == size && m.held[t].epoch == m.epoch
  }

  /** The bytes change and the epoch advances, if there is one. */
  function Written(m: Machine, addr: nat, size: nat, value: nat): Machine
    requires Inside(m.memory, addr, size)
  {
    m.(memory := WithWord(m.memory, addr, size, value), epoch := if m.hasProcess then m.epoch + 1 else m.epoch)
  }

  function Released(m: Machine, t: nat): Machine
    requires t < |m.held|
  {
    m.(held := m.held[t := m.held[t].(valid := false)])
  }

  function Apply(m: Machine, e: Event): Machine
    requires Possible(m, e)
  {
    match e
    case Store(t, addr, size, value) => Released(Written(m, addr, size, value), t)
    case LoadExclusive(t, addr, size) => m.(held := m.held[t := Reservation(true, addr, size, m.epoch)])
    case StoreExclusive(t, addr, size, value) =>
      if Succeeds(m, t, addr, size) then Released(Written(m, addr, size, value), t) else Released(m, t)
    case ClearExclusive(t) => Released(m, t)
  }

  // ---- runs ----

  ghost predicate RunOk(m: Machine, run: seq<Event>)
    decreases |run|, 0
  {
    run == [] || (RunOk(m, run[..|run| - 1]) && Possible(After(m, run[..|run| - 1]), run[|run| - 1]))
  }

  ghost function After(m: Machine, run: seq<Event>): Machine
    requires RunOk(m, run)
    decreases |run|, 1
  {
    if run == [] then m else Apply(After(m, run[..|run| - 1]), run[|run| - 1])
  }

  lemma {:induction false} PrefixOk(m: Machine, run: seq<Event>, k: nat)
    requires RunOk(m, run) && k <= |run|
    ensures RunOk(m, run[..k])
    ensures k < |run| ==> Possible(After(m, run[..k]), run[k])
    decreases |run|
  {
    if k < |run| {
      var r := run[..|run| - 1];
      PrefixOk(m, r, k);
      assert r[..k] == run[..k];
    } else {
      assert run[..k] == run;
    }
  }

  lemma {:induction false} AfterShape(m: Machine, run: seq<Event>)
    requires WellFormed(m) && RunOk(m, run)
    ensures WellFormed(After(m, run))
    ensures |After(m, run).held| == |m.held| && |After(m, run).memory| == |m.memory|
    decreases |run|
  {
    if run != [] {
      AfterShape(m, run[..|run| - 1]);
    }
  }

  /** e puts new bytes in memory. */
  predicate Writes(m: Machine, e: Event)
    requires Possible(m, e)
  {
    e.Store? || (e.StoreExclusive? && Succeeds(m, e.t, e.addr, e.size))
  }

  /** e ends a reservation of t: any write at all, or an exclusive access or clear of t itself. */
  predicate Disturbs(m: Machine, e: Event, t: nat)
    requires Possible(m, e)
  {
    Writes(m, e) || (e.t == t && !e.Store?)
  }

  /** Event j is the exclusive load of t at this cell, and nothing has disturbed it since. */
  ghost predicate HeldSince(m: Machine, run: seq<Event>, j: nat, t: nat, addr: nat, size: nat)
    requires RunOk(m, run)
  {
    && j < |run| && run[j] == LoadExclusive(t, addr, size)
    && forall k :: j < k < |run| ==> UndisturbedAt(m, run, k, t)
  }

  ghost predicate UndisturbedAt(m: Machine, run: seq<Event>, k: nat, t: nat)
    requires RunOk(m, run) && k < |run|
  {
    PrefixOk(m, run, k);
    !Disturbs(After(m, run[..k]), run[k], t)
  }

  lemma HeldExtends(m: Machine, run: seq<Event>, j: nat, t: nat, addr: nat, size: nat)
    requires RunOk(m, run) && run != [] && j < |run| - 1
    ensures var r := run[..|run| - 1];
            HeldSince(m, run, j, t, addr, size) <==>
              (HeldSince(m, r, j, t, addr, size) && !Disturbs(After(m, r), run[|run| - 1], t))
  {
    var r := run[..|run| - 1];
    hide RunOk, After, Disturbs;
    assert RunOk(m, r) by { PrefixOk(m, run, |r|); }
    forall k | j < k < |r|
      ensures UndisturbedAt(m, run, k, t) == UndisturbedAt(m, r, k, t)
    {
      assert r[..k] == run[..k];
    }
    assert UndisturbedAt(m, run, |r|, t) == !Disturbs(After(m, r), run[|r|], t) by { PrefixOk(m, run, |r|); }
  }

  lemma HeldMoves(m: Machine, e: Event, t: nat, addr: nat, size: nat)
    requires WellFormed(m) && Possible(m, e) && t < |m.held|
    ensures Succeeds(Apply(m, e), t, addr, size) <==>
              e == LoadExclusive(t, addr, size) || (Succeeds(m, t, addr, size) && !Disturbs(m, e, t))
  {
    hide WithWord;
  }

  /** A reservation stands exactly when an exclusive load of that cell has been undisturbed since. */
  lemma {:induction false} ReservationMeaning(m: Machine, run: seq<Event>, t: nat, addr: nat, size: nat)
    requires WellFormed(m) && RunOk(m, run) && t < |m.held| && !m.held[t].valid
    ensures t < |After(m, run).held|
    ensures Succeeds(After(m, run), t, addr, size) <==> exists j :: HeldSince(m, run, j, t, addr, size)
    decreases |run|
  {
    AfterShape(m, run);
    if run != [] {
      var n := |run| - 1;
      var r, e := run[..n], run[n];
      ReservationMeaning(m, r, t, addr, size);
      AfterShape(m, r);
      HeldMoves(After(m, r), e, t, addr, size);
      hide Succeeds, Disturbs;
      HeldAtEnd(m, run, t, addr, size);
      forall j: nat | j < n
        ensures HeldSince(m, run, j, t, addr, size) <==>
                  (HeldSince(m, r, j, t, addr, size) && !Disturbs(After(m, r), e, t))
      {
        HeldExtends(m, run, j, t, addr, size);
      }
    }
  }

  lemma HeldAtEnd(m: Machine, run: seq<Event>, t: nat, addr: nat, size: nat)
    requires RunOk(m, run) && run != []
    ensures HeldSince(m, run, |run| - 1, t, addr, size) <==> run[|run| - 1] == LoadExclusive(t, addr, size)
  {
  }

  /** A store exclusive succeeds exactly when no one wrote since this thread's matching load exclusive. */
  lemma StoreExclusiveSucceedsIff(m: Machine, run: seq<Event>, t: nat, addr: nat, size: nat, value: nat)
    requires WellFormed(m) && RunOk(m, run) && (forall u :: 0 <= u < |m.held| ==> !m.held[u].valid)
    requires t < |m.held| && Inside(m.memory, addr, size)
    ensures Possible(After(m, run), StoreExclusive(t, addr, size, value))
    ensures Writes(After(m, run), StoreExclusive(t, addr, size, value)) <==>
              exists j :: HeldSince(m, run, j, t, addr, size)
  {
    AfterShape(m, run);
    ReservationMeaning(m, run, t, addr, size);
  }

  /** While a reservation stands, all of memory is as the exclusive load saw it. */
  lemma {:induction false} MemoryAsLoaded(m: Machine, run: seq<Event>, j: nat, t: nat, addr: nat, size: nat)
    requires WellFormed(m) && RunOk(m, run) && HeldSince(m, run, j, t, addr, size)
    ensures RunOk(m, run[..j]) && After(m, run).memory == After(m, run[..j]).memory
    decreases |run|
  {
    var n := |run| - 1;
    PrefixOk(m, run, j);
    if j < n {
      HeldExtends(m, run, j, t, addr, size);
      MemoryAsLoaded(m, run[..n], j, t, addr, size);
      assert run[..n][..j] == run[..j];
    }
  }

  // ---- read-modify-write loops ----

  /** What the last exclusive load of t read, or -1 before there was one. */
  ghost function LastLoaded(m: Machine, run: seq<Event>, t: nat): int
    requires WellFormed(m) && RunOk(m, run)
    decreases |run|
  {
    if run == [] then -1
    else
      var r, e := run[..|run| - 1], run[|run| - 1];
      if e.LoadExclusive? && e.t == t then Word(After(m, r).memory, e.addr, e.size)
      else LastLoaded(m, r, t)
  }

  lemma {:induction false} LoadedWhenHeld(m: Machine, run: seq<Event>, j: nat, t: nat, addr: nat, size: nat)
    requires WellFormed(m) && RunOk(m, run) && HeldSince(m, run, j, t, addr, size)
    ensures Inside(After(m, run).memory, addr, size)
    ensures LastLoaded(m, run, t) == Word(After(m, run).memory, addr, size)
    decreases |run|
  {
    var n := |run| - 1;
    MemoryAsLoaded(m, run, j, t, addr, size);
    PrefixOk(m, run, n);
    if j < n {
      HeldExtends(m, run, j, t, addr, size);
      LoadedWhenHeld(m, run[..n], j, t, addr, size);
    }
  }

  /**
   The last event respects the cell: only exclusive stores reach it, and each stores the
   update of what its own thread loaded last.
   */
  ghost predicate Respects(m: Machine, run: seq<Event>, e: Event, addr: nat, size: nat, f: nat -> nat)
    requires WellFormed(m) && RunOk(m, run)
  {
    match e
    case Store(_, a, n, _) => Apart(addr, size, a, n)
    case StoreExclusive(t, a, n, v) =>
      if a == addr && n == size then LastLoaded(m, run, t) >= 0 ==> v == f(LastLoaded(m, run, t))
      else Apart(addr, size, a, n)
    case _ => true
  }

  ghost predicate OnlyUpdates(m: Machine, run: seq<Event>, addr: nat, size: nat, f: nat -> nat)
    requires WellFormed(m) && RunOk(m, run)
    decreases |run|
  {
    run == [] ||
    (var r := run[..|run| - 1];
     OnlyUpdates(m, r, addr, size, f) && Respects(m, r, run[|run| - 1], addr, size, f))
  }

  /** The exclusive stores to the cell that succeeded. */
  ghost function Successes(m: Machine, run: seq<Event>, addr: nat, size: nat): nat
    requires RunOk(m, run)
    decreases |run|
  {
    if run == [] then 0
    else
      var r, e := run[..|run| - 1], run[|run| - 1];
      var last := if e.StoreExclusive? && e.addr == addr && e.size == size && Writes(After(m, r), e) then 1 else 0;
      Successes(m, r, addr, size) + last
  }

  ghost function Repeat(f: nat -> nat, size: nat, k: nat, x: nat): nat {
    if k == 0 then x else f(Repeat(f, size, k - 1, x)) % Modulus(size)
  }

  /** A cell that only such loops write holds as many updates of its first value as there were successes. */
  lemma {:induction false} UpdatesAreAtomic(m: Machine, run: seq<Event>, addr: nat, size: nat, f: nat -> nat)
    requires WellFormed(m) && RunOk(m, run) && (forall u :: 0 <= u < |m.held| ==> !m.held[u].valid)
    requires Inside(m.memory, addr, size) && OnlyUpdates(m, run, addr, size, f)
    ensures Inside(After(m, run).memory, addr, size)
    ensures Word(After(m, run).memory, addr, size)
         == Repeat(f, size, Successes(m, run, addr, size), Word(m.memory, addr, size))
    decreases |run|
  {
    AfterShape(m, run);
    if run != [] {
      var r, e := run[..|run| - 1], run[|run| - 1];
      UpdatesAreAtomic(m, r, addr, size, f);
      AfterShape(m, r);
      UpdateStep(m, r, e, addr, size, f);
    }
  }

  lemma UpdateStep(m: Machine, r: seq<Event>, e: Event, addr: nat, size: nat, f: nat -> nat)
    requires WellFormed(m) && RunOk(m, r) && (forall u :: 0 <= u < |m.held| ==> !m.held[u].valid)
    requires Inside(m.memory, addr, size) && Inside(After(m, r).memory, addr, size)
    requires Possible(After(m, r), e) && Respects(m, r, e, addr, size, f)
    ensures |Apply(After(m, r), e).memory| == |After(m, r).memory|
    ensures var last := e.StoreExclusive? && e.addr == addr && e.size == size && Writes(After(m, r), e);
            var before := Word(After(m, r).memory, addr, size);
            Word(Apply(After(m, r), e).memory, addr, size) == (if last then f(before) % Modulus(size) else before)
  {
    AfterShape(m, r);
    var now := After(m, r);
    if Writes(now, e) {
      if e.StoreExclusive? && e.addr == addr && e.size == size {
        ReservationMeaning(m, r, e.t, addr, size);
        var j: nat :| HeldSince(m, r, j, e.t, addr, size);
        LoadedWhenHeld(m, r, j, e.t, addr, size);
        WordOfWithWord(now.memory, addr, size, e.value);
      } else {
        WordApart(now.memory, addr, size, e.addr, e.size, e.value);
      }
    }
  }

  function AddOne(v: nat): nat { v + 1 }

  lemma {:induction false} RepeatAddOne(size: nat, k: nat, x: nat)
    requires x < Modulus(size)
    ensures Repeat(AddOne, size, k, x) == (x + k) % Modulus(size)
  {
    var m := Modulus(size);
    if k == 0 {
      RemainderIs(x, m, 0, x);
    } else {
      RepeatAddOne(size, k - 1, x);
      AddModOne(x + k - 1, m);
    }
  }

  lemma AddModOne(v: nat, m: nat)
    requires m > 0
    ensures (v % m + 1) % m == (v + 1) % m
  {
    var q, r := v / m, v % m;
    assert v == m * q + r;
    if r + 1 < m {
      RemainderIs(v + 1, m, q, r + 1);
      RemainderIs(r + 1, m, 0, r + 1);
    } else {
      assert m * (q + 1) == m * q + m;
      RemainderIs(v + 1, m, q + 1, 0);
      RemainderIs(r + 1, m, 1, 0);
    }
  }

  /** No increment is lost: a counter ends at its first value plus the number of successes. */
  lemma CounterIsExact(m: Machine, run: seq<Event>, addr: nat, size: nat)
    requires WellFormed(m) && RunOk(m, run) && (forall u :: 0 <= u < |m.held| ==> !m.held[u].valid)
    requires Inside(m.memory, addr, size) && OnlyUpdates(m, run, addr, size, AddOne)
    ensures Inside(After(m, run).memory, addr, size)
    ensures Word(After(m, run).memory, addr, size)
         == (Word(m.memory, addr, size) + Successes(m, run, addr, size)) % Modulus(size)
  {
    hide RunOk, After, Repeat, Successes, OnlyUpdates, Modulus, FromBytes;
    UpdatesAreAtomic(m, run, addr, size, AddOne);
    WordFits(m.memory[addr..addr + size]);
    RepeatAddOne(size, Successes(m, run, addr, size), Word(m.memory, addr, size));
  }
}
