/**
 The interpreter's own code for guest stores and exclusive accesses, on registers, memory
 and reservation changed in place, proved to take the events of the exclusive monitor.
 Memory is the host memory the interpreter can reach, from address 0; the guest's part of
 it is the mapped ranges.  An access outside them ends the program when the main thread
 makes it; a worker is only marked as ended, and the access goes on.
 */
module ExclusiveInterpreter {
  import opened LittleEndian
  import opened Words
  import opened ExclusiveMonitor

  // ---- fields of a load or store exclusive ----

  type instruction = x: int | 0 <= x < 0x1_0000_0000

  function SizeOf(insn: instruction): (size: nat)
    ensures size == 1 || size == 2 || size == 4 || size == 8
  {
    Pow2Small();
    Pow2(insn / 0x4000_0000 % 4)
  }

  predicate IsLoad(insn: instruction) { insn / 0x40_0000 % 2 != 0 }

  function Rs(insn: instruction): nat { insn / 0x1_0000 % 32 }

  function Rn(insn: instruction): nat { insn / 32 % 32 }

  function Rt(insn: instruction): nat { insn % 32 }

  /** An instruction with these fields; fixed are the other bits of its opcode. */
  function EncodeExclusive(sizeLog2: nat, load: bool, ordered: bool, rs: nat, rn: nat, rt: nat): (insn: instruction)
    requires sizeLog2 < 4 && rs < 32 && rn < 32 && rt < 32
  {
    sizeLog2 * 0x4000_0000 + 0x0800_0000 + (if load then 0x40_0000 else 0) + rs * 0x1_0000
    + (if ordered then 0x8000 else 0) + 0x7C00 + rn * 32 + rt
  }

  lemma Field(high: nat, x: nat, width: nat, scale: nat, low: nat)
    requires x < width && low < scale
    ensures ((high * width + x) * scale + low) / scale % width == x
  {
    DivUnique((high * width + x) * scale + low, scale, high * width + x, low);
    DivUnique(high * width + x, width, high, x);
  }

  lemma RegistersDecode(sizeLog2: nat, load: bool, ordered: bool, rs: nat, rn: nat, rt: nat)
    requires sizeLog2 < 4 && rs < 32 && rn < 32 && rt < 32
    ensures var insn := EncodeExclusive(sizeLog2, load, ordered, rs, rn, rt); Rs(insn) == rs && Rn(insn) == rn && Rt(insn) == rt
  {
    var l, o := if load then 1 else 0, if ordered then 1 else 0;
    var top := sizeLog2 * 256 + 32 + l;
    var bottom := (top * 64 + rs) * 2 + o;
    Field((bottom * 32 + 31) * 32 + rn, rt, 32, 1, 0);
    Field(bottom * 32 + 31, rn, 32, 32, rt);
    Field(top * 2, rs, 32, 0x1_0000, o * 0x8000 + 0x7C00 + rn * 32 + rt);
  }

  lemma KindDecodes(sizeLog2: nat, load: bool, ordered: bool, rs: nat, rn: nat, rt: nat)
    requires sizeLog2 < 4 && rs < 32 && rn < 32 && rt < 32
    ensures var insn := EncodeExclusive(sizeLog2, load, ordered, rs, rn, rt);
            (IsLoad(insn) <==> load) && insn / 0x4000_0000 % 4 == sizeLog2
  {
    var l, low := if load then 1 else 0, rs * 0x1_0000 + (if ordered then 0x8000 else 0) + 0x7C00 + rn * 32 + rt;
    Field(sizeLog2 * 128 + 16, l, 2, 0x40_0000, low);
    Field(0, sizeLog2, 4, 0x4000_0000, 0x0800_0000 + l * 0x40_0000 + low);
  }

  /** Decoding finds the fields, whatever the others are. */
  lemma FieldsDecode(sizeLog2: nat, load: bool, ordered: bool, rs: nat, rn: nat, rt: nat)
    requires sizeLog2 < 4 && rs < 32 && rn < 32 && rt < 32
    ensures var insn := EncodeExclusive(sizeLog2, load, ordered, rs, rn, rt);
            && Rs(insn) == rs && Rn(insn) == rn && Rt(insn) == rt && (IsLoad(insn) <==> load)
            && SizeOf(insn) == (if sizeLog2 == 0 then 1 else if sizeLog2 == 1 then 2 else if sizeLog2 == 2 then 4 else 8)
  {
    RegistersDecode(sizeLog2, load, ordered, rs, rn, rt);
    KindDecodes(sizeLog2, load, ordered, rs, rn, rt);
    Pow2Small();
    hide EncodeExclusive, Pow2;
  }

  /** Register 31 reads as zero and ignores writes. */
  function RegValue(x: seq<u64>, reg: nat): u64
    requires |x| == 31 && reg < 32
  {
    if reg == 31 then 0 else x[reg]
  }

  function WithReg(x: seq<u64>, reg: nat, value: u64): seq<u64>
    requires |x| == 31 && reg < 32
  {
    if reg == 31 then x else x[reg := value]
  }

  /** What is written to a register is read from it and from no other; register 31 is always zero. */
  lemma RegistersRead(x: seq<u64>, reg: nat, value: u64, other: nat)
    requires |x| == 31 && reg < 32 && other < 32
    ensures RegValue(x, 31) == 0 && WithReg(x, 31, value) == x
    ensures reg < 31 ==> RegValue(x, reg) == x[reg] && |WithReg(x, reg, value)| == 31
    ensures reg < 31 ==> RegValue(WithReg(x, reg, value), reg) == value
    ensures reg < 31 && other != reg ==> RegValue(WithReg(x, reg, value), other) == RegValue(x, other)
  {
  }

  lemma WordIsU64(memory: seq<byte>, addr: nat, size: nat)
    requires Inside(memory, addr, size) && size <= 8
    ensures Word(memory, addr, size) < TWO64
  {
    WordFits(memory[addr..addr + size]);
    ModulusFits(size);
  }

  // ---- what becomes of an access ----

  /** Stopped is the end of the program by its own hand; Crashed is the host's, at memory it does not have. */
  datatype Outcome = Done | Stopped | Crashed

  datatype Range = Range(start: nat, end: nat)

  predicate Mapped(ranges: seq<Range>, addr: nat, size: nat) {
    exists i :: 0 <= i < |ranges| && ranges[i].start <= addr && addr + size <= ranges[i].end
  }

  /** Some range holds every byte of the access. */
  lemma MappedBytes(ranges: seq<Range>, addr: nat, size: nat)
    requires size > 0
    ensures Mapped(ranges, addr, size) <==>
              exists i :: 0 <= i < |ranges| && HasBytes(ranges[i], addr, size)
  {
    forall i | 0 <= i < |ranges|
      ensures HasBytes(ranges[i], addr, size) <==> ranges[i].start <= addr && addr + size <= ranges[i].end
    {
      if HasBytes(ranges[i], addr, size) {
        assert HasByte(ranges[i], addr) && HasByte(ranges[i], addr + size - 1);
      }
    }
  }

  predicate HasBytes(r: Range, addr: nat, size: nat) { forall b :: addr <= b < addr + size ==> HasByte(r, b) }

  predicate HasByte(r: Range, b: nat) { r.start <= b < r.end }

  /** Only the main thread is stopped by an access outside the guest's memory. */
  function OutcomeOf(worker: bool, mapped: bool, memory: nat, addr: nat, size: nat): Outcome {
    if !mapped && !worker then Stopped else if addr + size > memory then Crashed else Done
  }

  /** The registers of a worker that failed: X0 gets the exit status. */
  function AfterFailure(x: seq<u64>, failed: bool): (r: seq<u64>)
    requires |x| == 31
    ensures |r| == 31
  {
    if failed then x[0 := 1] else x
  }

  lemma LoadSays(m: Machine, addr: nat, size: nat)
    requires |m.held| == 1 && Possible(m, LoadExclusive(0, addr, size))
    ensures var n := Apply(m, LoadExclusive(0, addr, size));
            n.memory == m.memory && n.epoch == m.epoch && n.held == [Reservation(true, addr, size, m.epoch)]
  {
  }

  lemma StoreSays(m: Machine, addr: nat, size: nat, value: nat)
    requires |m.held| == 1 && Possible(m, StoreExclusive(0, addr, size, value))
    ensures var e, matches := StoreExclusive(0, addr, size, value), m.held[0] == Reservation(true, addr, size, m.epoch);
            && !Apply(m, e).held[0].valid && (Writes(m, e) <==> matches)
            && (!matches ==> Apply(m, e).memory == m.memory && Apply(m, e).epoch == m.epoch)
            && (matches ==> Apply(m, e).memory == WithWord(m.memory, addr, size, value))
  {
  }

  class Process {
    var writeEpoch: nat

    constructor ()
      ensures writeEpoch == 0
    {
      writeEpoch := 0;
    }
  }

  class Interpreter {
    const process: Process?
    const memory: array<byte>
    const ranges: seq<Range>
    const worker: bool
    const x: array<u64>
    var running: bool
    var pc: nat
    var exitCode: int
    var reservationValid: bool
    var reservationAddress: nat
    var reservationSize: nat
    var reservationEpoch: nat

    constructor (process: Process?, memory: array<byte>, ranges: seq<Range>, worker: bool, entry: nat)
      ensures this.process == process && this.memory == memory && fresh(x)
      ensures this.ranges == ranges && this.worker == worker && running && pc == entry
      ensures x.Length == 31 && !reservationValid
    {
      this.process, this.memory, this.ranges, this.worker := process, memory, ranges, worker;
      running, pc, exitCode := true, entry, 0;
      x := new u64[31];
      reservationValid, reservationAddress, reservationSize, reservationEpoch := false, 0, 0, 0;
    }

    function Epoch(): nat
      reads this, process
    {
      if process != null then process.writeEpoch else 0
    }

    /** The monitor as this interpreter alone sees it. */
    ghost function View(): Machine
      reads this, process, memory
    {
      Machine(process != null, memory[..], Epoch(),
              [Reservation(reservationValid, reservationAddress, reservationSize, reservationEpoch)])
    }

    method WriteX(reg: nat, value: u64)
      requires x.Length == 31 && reg < 32
      modifies x
      ensures x[..] == WithReg(old(x[..]), reg, value)
    {
      if reg != 31 {
        x[reg] := value;
      }
    }

    method LoadGuestRaw(addr: nat, size: nat) returns (value: u64)
      requires addr + size <= memory.Length && size <= 8
      ensures value == Word(memory[..], addr, size)
    {
      WordIsU64(memory[..], addr, size);
      assert memory[..][addr..addr + size] == memory[addr..addr + size];
      value := FromBytes(memory[addr..addr + size]);
    }

    method StoreGuestRaw(addr: nat, size: nat, value: u64)
      requires addr + size <= memory.Length
      modifies memory
      ensures memory[..] == WithWord(old(memory[..]), addr, size, value)
    {
      forall i | 0 <= i < size {
        memory[addr + i] := ToBytes(value, size)[i];
      }
      assert memory[addr..addr + size] == ToBytes(value, size);
    }

    method DidWrite()
      modifies this`reservationValid, process
      ensures process != null ==> process.writeEpoch == old(process.writeEpoch) + 1
      ensures !reservationValid
    {
      if process != null {
        process.writeEpoch := process.writeEpoch + 1;
      }
      reservationValid := false;
    }

    method InterpreterAddressOk(addr: nat, size: nat) returns (ok: bool)
      ensures ok <==> Mapped(ranges, addr, size)
    {
      var i := 0;
      while i < |ranges|
        invariant 0 <= i <= |ranges|
        invariant forall k :: 0 <= k < i ==> !(ranges[k].start <= addr && addr + size <= ranges[k].end)
      {
        if ranges[i].start <= addr && addr + size <= ranges[i].end {
          return true;
        }
        i := i + 1;
      }
      ok := false;
    }

    /** AARCH64InterpreterFail: the program ends here, or the thread is marked as ended and the caller goes on. */
    method Fail(status: u64) returns (stopped: bool)
      requires x.Length == 31
      modifies this`running, this`pc, this`exitCode, x
      ensures stopped <==> !worker
      ensures stopped ==> x[..] == old(x[..]) && running == old(running) && pc == old(pc) && exitCode == old(exitCode)
      ensures !stopped ==> x[..] == old(x[..])[0 := status] && !running && pc == 0 && exitCode == status
    {
      if !worker {
        return true;
      }
      x[0] := status;
      running, pc, exitCode := false, 0, status;
      stopped := false;
    }

    /** The fields that say whether and where this thread goes on. */
    predicate EndedIf(failed: bool, running0: bool, pc0: nat, exitCode0: int)
      reads this
    {
      if failed then !running && pc == 0 && exitCode == 1
      else running == running0 && pc == pc0 && exitCode == exitCode0
    }

    /** Store8, Store16, Store32 and Store64. */
    method StoreGuest(addr: nat, size: nat, value: u64) returns (outcome: Outcome)
      requires x.Length == 31
      modifies this, process, memory, x
      ensures outcome == OutcomeOf(worker, Mapped(ranges, addr, size), memory.Length, addr, size)
      ensures outcome.Done? <==> outcome != Stopped && Possible(old(View()), Store(0, addr, size, value))
      ensures View() == if outcome.Done? then Apply(old(View()), Store(0, addr, size, value)) else old(View())
      ensures var failed := worker && !Mapped(ranges, addr, size);
              x[..] == AfterFailure(old(x[..]), failed) && EndedIf(failed, old(running), old(pc), old(exitCode))
      ensures outcome.Stopped? <==> !worker && !Mapped(ranges, addr, size)
      ensures worker && !Mapped(ranges, addr, size) ==>
                x[0] == 1 && !running && pc == 0 && exitCode == 1 && x[1..] == old(x[1..])
      ensures !worker || Mapped(ranges, addr, size) ==> x[..] == old(x[..]) && running == old(running) && pc == old(pc)
    {
      var mapped := InterpreterAddressOk(addr, size);
      if !mapped {
        var stopped := Fail(1);
        if stopped {
          return Stopped;
        }
      }
      if addr + size > memory.Length {
        return Crashed;
      }
      StoreGuestRaw(addr, size, value);
      DidWrite();
      outcome := Done;
    }

    method ExecuteClearExclusive()
      modifies this`reservationValid
      ensures View() == Apply(old(View()), ClearExclusive(0))
    {
      reservationValid := false;
    }

    /** LDXR, LDAXR, STXR and STLXR. */
    method ExecuteLoadStoreExclusive(insn: instruction) returns (outcome: Outcome)
      requires x.Length == 31
      modifies this, process, memory, x
      ensures var addr, size := RegValue(old(x[..]), Rn(insn)), SizeOf(insn);
              var failed := worker && !Mapped(ranges, addr, size);
              var regs := AfterFailure(old(x[..]), failed);
              && outcome == OutcomeOf(worker, Mapped(ranges, addr, size), memory.Length, addr, size)
              && EndedIf(failed, old(running), old(pc), old(exitCode))
              && (if !outcome.Done? then View() == old(View()) && x[..] == regs
                  else if IsLoad(insn) then LoadedBy(old(View()), regs, addr, size, Rt(insn))
                  else StoredBy(old(View()), regs, StoreExclusive(0, addr, size, RegValue(regs, Rt(insn))), Rs(insn)))
      ensures var addr, size := RegValue(old(x[..]), Rn(insn)), SizeOf(insn);
              && (outcome.Stopped? <==> !worker && !Mapped(ranges, addr, size))
              && (outcome.Done? ==> addr + size <= memory.Length)
              && (worker && !Mapped(ranges, addr, size) ==> !running && pc == 0 && exitCode == 1)
              && (outcome.Done? && IsLoad(insn) ==>
                    && memory[..] == old(memory[..]) && reservationValid && Epoch() == old(Epoch())
                    && (Rt(insn) < 31 ==> x[Rt(insn)] == Word(old(memory[..]), addr, size)))
              && (outcome.Done? && !IsLoad(insn) ==>
                    var matches := old(reservationValid) && old(reservationAddress) == addr && old(reservationSize) == size
                                   && old(reservationEpoch) == old(Epoch());
                    && !reservationValid && (Rs(insn) < 31 ==> x[Rs(insn)] == if matches then 0 else 1)
                    && (!matches ==> memory[..] == old(memory[..]) && Epoch() == old(Epoch()))
                    && (matches && Mapped(ranges, addr, size) ==>
                          memory[..] == WithWord(old(memory[..]), addr, size, RegValue(old(x[..]), Rt(insn)))))
    {
      var size := SizeOf(insn);
      var addr := RegValue(x[..], Rn(insn));
      var mapped := InterpreterAddressOk(addr, size);
      if !mapped {
        var stopped := Fail(1);
        if stopped {
          return Stopped;
        }
      }
      if addr + size > memory.Length {
        return Crashed;
      }
      outcome := Done;
      if IsLoad(insn) {
        LoadSays(View(), addr, size);
        LoadAndReserve(addr, size, Rt(insn));
      } else {
        StoreSays(View(), addr, size, RegValue(x[..], Rt(insn)));
        StoreIfReserved(addr, size, Rt(insn), Rs(insn));
      }
    }

    method LoadAndReserve(addr: nat, size: nat, rt: nat)
      requires x.Length == 31 && addr + size <= memory.Length && size <= 8 && rt < 32
      modifies this`reservationValid, this`reservationAddress, this`reservationSize, this`reservationEpoch, x
      ensures LoadedBy(old(View()), old(x[..]), addr, size, rt)
    {
      var value := LoadGuestRaw(addr, size);
      reservationValid, reservationAddress, reservationSize, reservationEpoch := true, addr, size, Epoch();
      WriteX(rt, value);
    }

    method StoreIfReserved(addr: nat, size: nat, rt: nat, rs: nat)
      requires x.Length == 31 && addr + size <= memory.Length && rt < 32 && rs < 32
      modifies this`reservationValid, process, memory, x
      ensures StoredBy(old(View()), old(x[..]), StoreExclusive(0, addr, size, RegValue(old(x[..]), rt)), rs)
    {
      var success := reservationValid && reservationAddress == addr && reservationSize == size && reservationEpoch == Epoch();
      if success {
        StoreGuestRaw(addr, size, RegValue(x[..], rt));
        if process != null {
          process.writeEpoch := process.writeEpoch + 1;
        }
      }
      reservationValid := false;
      WriteX(rs, if success then 0 else 1);
    }

    /** The register gets the word in memory, and the reservation is taken. */
    ghost predicate LoadedBy(m: Machine, regs: seq<u64>, addr: nat, size: nat, rt: nat)
      requires Possible(m, LoadExclusive(0, addr, size)) && |regs| == 31 && rt < 32 && size <= 8
      reads this, process, memory, x
    {
      WordIsU64(m.memory, addr, size);
      View() == Apply(m, LoadExclusive(0, addr, size)) && x[..] == WithReg(regs, rt, Word(m.memory, addr, size))
    }

    /** The status register is 0 exactly when the word was written. */
    ghost predicate StoredBy(m: Machine, regs: seq<u64>, e: Event, rs: nat)
      requires Possible(m, e) && e.StoreExclusive? && |regs| == 31 && rs < 32
      reads this, process, memory, x
    {
      View() == Apply(m, e) && x[..] == WithReg(regs, rs, if Writes(m, e) then 0 else 1)
    }
  }

  // ---- one interpreter among many ----

  function Alone(m: Machine, t: nat): Machine
    requires t < |m.held|
  {
    m.(held := [m.held[t]])
  }

  function AsFirst(e: Event): Event { e.(t := 0) }

  /** What the interpreter of thread t does to its own view is the event in the machine of all threads. */
  lemma OneOfMany(m: Machine, e: Event)
    requires WellFormed(m) && m.hasProcess && Possible(m, e)
    ensures Possible(Alone(m, e.t), AsFirst(e))
    ensures Alone(Apply(m, e), e.t) == Apply(Alone(m, e.t), AsFirst(e))
    ensures Writes(m, e) == Writes(Alone(m, e.t), AsFirst(e))
    ensures forall u :: 0 <= u < |m.held| && u != e.t ==> Apply(m, e).held[u] == m.held[u]
  {
  }

  // ---- accesses outside the guest's memory ----

  /** The machine after thread e.t has come to a store, wherever it points. */
  function AfterStore(m: Machine, e: Event, ranges: seq<Range>, worker: bool): Machine
    requires e.Store? && e.t < |m.held|
  {
    if OutcomeOf(worker, Mapped(ranges, e.addr, e.size), |m.memory|, e.addr, e.size).Done? then Apply(m, e) else m
  }

  /** Outside the guest's memory a store is done exactly by a worker, and then no thread's reservation is left. */
  lemma OutsideStore(m: Machine, e: Event, ranges: seq<Range>, worker: bool)
    requires WellFormed(m) && m.hasProcess && e.Store? && e.t < |m.held| && !Mapped(ranges, e.addr, e.size)
    ensures AfterStore(m, e, ranges, worker) != m <==> worker && Inside(m.memory, e.addr, e.size)
    ensures worker && Inside(m.memory, e.addr, e.size) ==>
              && Word(AfterStore(m, e, ranges, worker).memory, e.addr, e.size) == e.value % Modulus(e.size)
              && forall u, a, n :: 0 <= u < |m.held| ==> !Succeeds(AfterStore(m, e, ranges, worker), u, a, n)
  {
    if Inside(m.memory, e.addr, e.size) {
      WordOfWithWord(m.memory, e.addr, e.size, e.value);
      assert Apply(m, e).epoch == m.epoch + 1;
    }
    hide WithWord, Mapped, Word;
  }

  /** A worker stores at address 1, of which the guest has only address 0: the byte changes and thread 0 is put off. */
  lemma WorkerStoresOutside()
    ensures var m := Machine(true, [7, 7], 5, [Reservation(true, 0, 1, 5), Reservation(false, 0, 0, 0)]);
            var e, ranges := Store(1, 1, 1, 9), [Range(0, 1)];
            && WellFormed(m) && !Mapped(ranges, 1, 1) && Succeeds(m, 0, 0, 1)
            && AfterStore(m, e, ranges, true).memory == [7, 9] && !Succeeds(AfterStore(m, e, ranges, true), 0, 0, 1)
            && AfterStore(m, e, ranges, false) == m
  {
    var m := Machine(true, [7, 7], 5, [Reservation(true, 0, 1, 5), Reservation(false, 0, 0, 0)]);
    var e, ranges := Store(1, 1, 1, 9), [Range(0, 1)];
    assert !Mapped(ranges, 1, 1);
    OutsideStore(m, e, ranges, true);
    OutsideStore(m, e, ranges, false);
    assert ToBytes(9, 1) == [9];
    assert WithWord([7, 7], 1, 1, 9) == [7, 9];
  }
}
