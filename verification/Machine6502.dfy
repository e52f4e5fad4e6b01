/**
 The 65C02 interpreter on the twelve opcodes the relocator uses.  Step is the effect of
 one instruction on a machine state; the class Interpreter runs the handlers in place
 and is tied to Step.  Where no device answers, the I/O window is memory like any other; no
 watchpoint or debugger is attached.
 */
module Machine6502 {
  import opened Words

  type byte = x: int | 0 <= x < 256

  const MEMORY_SIZE: nat := 0x1_0000
  const IO_START: nat := 0xFE00
  const IO_END: nat := 0xFEFF

  datatype Flags = Flags(c: bool, z: bool, i: bool, d: bool, b: bool, u: bool, v: bool, s: bool)

  type Memory = seq<byte>

  /** devices are the addresses at which a device answers. */
  datatype State =
    State(a: byte, x: byte, y: byte, sp: byte, pc: nat, flags: Flags, mem: Memory, devices: set<nat>)

  /** SET_FLAGS */
  function SetFlags(f: Flags, v: byte): Flags { f.(z := v == 0, s := v >= 0x80) }

  /** a | b on k bits. */
  function OrBits(a: nat, b: nat, k: nat): (r: nat)
    ensures r < Pow2(k)
  {
    if k == 0 then 0
    else 2 * OrBits(a / 2, b / 2, k - 1) + if a % 2 == 1 || b % 2 == 1 then 1 else 0
  }

  lemma {:induction false} OrZero(a: nat, b: nat, k: nat)
    requires a < Pow2(k) && b < Pow2(k)
    ensures OrBits(a, b, k) == 0 <==> a == 0 && b == 0
  {
    if k > 0 {
      OrZero(a / 2, b / 2, k - 1);
    }
  }

  function Or8(a: byte, b: byte): (r: byte)
    ensures r == 0 <==> a == 0 && b == 0
  {
    Pow2At8();
    OrZero(a, b, 8);
    OrBits(a, b, 8)
  }

  function Pair(lo: nat, hi: nat): nat { lo + 0x100 * hi }

  function Inc8(v: int): byte { (v + 1) % 0x100 }

  function Dec8(v: int): byte { (v - 1) % 0x100 }

  /** The 16-bit little-endian word at z. */
  function Word(mem: Memory, z: nat): nat
    requires z + 1 < |mem|
  {
    Pair(mem[z], mem[z + 1])
  }

  /** INC_PC */
  function Next(s: State, n: nat): nat { (s.pc + n) % MEMORY_SIZE }

  /** The address after a branch at pc by the signed byte off. */
  function BranchTarget(pc: nat, off: byte): nat {
    (pc + (if off < 0x80 then off else off - 0x100) + 2) % MEMORY_SIZE
  }

  /** The operand address of (zp),Y. */
  function IndirectY(s: State): nat
    requires s.pc + 1 < |s.mem| == MEMORY_SIZE
  {
    Word(s.mem, s.mem[s.pc + 1]) + s.y
  }

  /** An access here is one to memory. */
  predicate PlainAddress(s: State, a: nat) { a < MEMORY_SIZE && !(IO_START <= a <= IO_END && a in s.devices) }

  const OPCODES: set<nat> := {0xA9, 0xA0, 0x85, 0xA5, 0x05, 0xF0, 0xD0, 0xB1, 0x91, 0xE6, 0xC6, 0x4C}

  /** The next instruction is modelled: a known opcode, and no access to a device. */
  predicate CanStep(s: State) {
    && |s.mem| == MEMORY_SIZE && s.pc + 2 < MEMORY_SIZE
    && s.mem[s.pc] as int in OPCODES
    && (s.mem[s.pc] == 0xB1 || s.mem[s.pc] == 0x91 ==> PlainAddress(s, IndirectY(s)))
  }

  /** StepOneInstruction: the handler of the opcode at pc. */
  function Step(s: State): (t: State)
    requires CanStep(s)
    ensures |t.mem| == MEMORY_SIZE && t.pc < MEMORY_SIZE
  {
    var op, arg := s.mem[s.pc], s.mem[s.pc + 1];
    if op == 0xA9 then s.(a := arg, flags := SetFlags(s.flags, arg), pc := Next(s, 2))
    else if op == 0xA0 then s.(y := arg, flags := SetFlags(s.flags, arg), pc := Next(s, 2))
    else if op == 0x85 then s.(mem := s.mem[arg := s.a], pc := Next(s, 2))
    else if op == 0xA5 then s.(a := s.mem[arg], flags := SetFlags(s.flags, s.mem[arg]), pc := Next(s, 2))
    else if op == 0x05 then
      var v := Or8(s.a, s.mem[arg]);
      s.(a := v, flags := SetFlags(s.flags, v), pc := Next(s, 2))
    else if op == 0xF0 then s.(pc := if s.flags.z then BranchTarget(s.pc, arg) else Next(s, 2))
    else if op == 0xD0 then s.(pc := if !s.flags.z then BranchTarget(s.pc, arg) else Next(s, 2))
    else if op == 0xB1 then
      var v := s.mem[IndirectY(s)];
      s.(a := v, flags := SetFlags(s.flags, v), pc := Next(s, 2))
    else if op == 0x91 then s.(mem := s.mem[IndirectY(s) := s.a], pc := Next(s, 2))
    else if op == 0xE6 then
      var v := Inc8(s.mem[arg]);
      s.(mem := s.mem[arg := v], flags := SetFlags(s.flags, v), pc := Next(s, 2))
    else if op == 0xC6 then
      var v := Dec8(s.mem[arg]);
      s.(mem := s.mem[arg := v], flags := SetFlags(s.flags, v), pc := Next(s, 2))
    else s.(pc := Word(s.mem, s.pc + 1))
  }

  /** n modelled instructions take s to t. */
  ghost predicate Runs(s: State, n: nat, t: State)
    decreases n
  {
    if n == 0 then s == t else CanStep(s) && Runs(Step(s), n - 1, t)
  }

  lemma {:induction false} RunsJoin(s: State, n: nat, t: State, m: nat, u: State)
    requires Runs(s, n, t) && Runs(t, m, u)
    ensures Runs(s, n + m, u)
    decreases n
  {
    hide Step, CanStep;
    if n > 0 {
      RunsJoin(Step(s), n - 1, t, m, u);
    }
  }

  /** The machine is deterministic: a run of a given length has one end. */
  lemma {:induction false} RunsUnique(s: State, n: nat, t: State, u: State)
    requires Runs(s, n, t) && Runs(s, n, u)
    ensures t == u
    decreases n
  {
    hide Step, CanStep;
    if n > 0 {
      RunsUnique(Step(s), n - 1, t, u);
    }
  }

  // ---- what the shared operations mean ----

  function BitAt(x: nat, k: nat): bool { if k == 0 then x % 2 == 1 else BitAt(x / 2, k - 1) }

  /** Z tells zero and S the top bit; the other flags stay. */
  lemma FlagsSay(f: Flags, v: byte)
    ensures (SetFlags(f, v).z <==> v == 0) && (SetFlags(f, v).s <==> v / 128 == 1)
    ensures SetFlags(f, v) == Flags(f.c, SetFlags(f, v).z, f.i, f.d, f.b, f.u, f.v, SetFlags(f, v).s)
  {
  }

  lemma {:induction false} OrBitsAt(a: nat, b: nat, k: nat, i: nat)
    requires i < k
    ensures BitAt(OrBits(a, b, k), i) <==> BitAt(a, i) || BitAt(b, i)
    decreases i
  {
    if i > 0 {
      OrBitsAt(a / 2, b / 2, k - 1, i - 1);
    }
  }

  /** ORA is bit by bit. */
  lemma OrSays(a: byte, b: byte, i: nat)
    requires i < 8
    ensures BitAt(Or8(a, b), i) <==> BitAt(a, i) || BitAt(b, i)
  {
    OrBitsAt(a, b, 8, i);
  }

  /** Increments and decrements wrap, and undo one another. */
  lemma CountsWrap(v: byte)
    ensures Inc8(v) == (if v == 255 then 0 else v + 1) && Dec8(v) == (if v == 0 then 255 else v - 1)
    ensures Dec8(Inc8(v)) == v
  {
  }

  /** A branch goes forwards by less than 128 and backwards otherwise, from after the instruction. */
  lemma BranchesSay(pc: nat, off: byte)
    requires 128 <= pc < MEMORY_SIZE - 130
    ensures off < 128 ==> BranchTarget(pc, off) == pc + 2 + off
    ensures off >= 128 ==> BranchTarget(pc, off) == pc + 2 + off - 256
  {
  }

  /** (zp),Y is the little-endian word in zero page plus Y. */
  lemma IndirectSays(s: State)
    requires s.pc + 1 < |s.mem| == MEMORY_SIZE
    ensures var z := s.mem[s.pc + 1]; IndirectY(s) == s.mem[z] + 256 * s.mem[z + 1] + s.y
  {
  }

  // ---- the interpreter in place ----

  class Interpreter {
    var a: byte
    var x: byte
    var y: byte
    var s: byte
    var pc: nat
    var flags: Flags
    const memory: array<byte>
    const devices: set<nat>

    constructor (image: Memory, start: nat, devices: set<nat>)
      requires |image| == MEMORY_SIZE && start < MEMORY_SIZE
      ensures Now().mem == image && pc == start && fresh(memory) && this.devices == devices
    {
      this.devices := devices;
      a, x, y, s, pc := 0, 0, 0, 0xFF, start;
      flags := Flags(false, false, false, false, false, false, false, false);
      memory := new byte[MEMORY_SIZE](i requires 0 <= i < |image| => image[i]);
      new;
      assert memory[..] == image;
    }

    ghost function Now(): State
      reads this, memory
    {
      State(a, x, y, s, pc, flags, memory[..], devices)
    }

    method LoadA(addr: nat)
      requires addr < memory.Length
      modifies `a, `flags
      ensures a == memory[addr] && flags == SetFlags(old(flags), memory[addr])
    {
      a := memory[addr];
      flags := SetFlags(flags, a);
    }

    method StepOneInstruction()
      requires CanStep(Now())
      modifies `a, `y, `pc, `flags, memory
      ensures Now() == Step(old(Now()))
    {
      var opcode := memory[pc];
      var op8 := memory[pc + 1];
      ghost var before := Now();
      match opcode {
        case 0xA9 =>
          a := op8;
          flags := SetFlags(flags, a);
        case 0xA0 =>
          y := op8;
          flags := SetFlags(flags, y);
        case 0x85 => memory[op8] := a;
        case 0xA5 => LoadA(op8);
        case 0x05 =>
          a := Or8(a, memory[op8]);
          flags := SetFlags(flags, a);
        case 0xF0 => if flags.z { pc := BranchTarget(pc, op8); return; }
        case 0xD0 => if !flags.z { pc := BranchTarget(pc, op8); return; }
        case 0xB1 =>
          var pointer := Pair(memory[op8], memory[op8 + 1]);
          LoadA(pointer + y);
        case 0x91 =>
          var pointer := Pair(memory[op8], memory[op8 + 1]);
          memory[pointer + y] := a;
        case 0xE6 =>
          memory[op8] := Inc8(memory[op8]);
          flags := SetFlags(flags, memory[op8]);
        case 0xC6 =>
          memory[op8] := Dec8(memory[op8]);
          flags := SetFlags(flags, memory[op8]);
        case _ =>
          pc := Pair(memory[pc + 1], memory[pc + 2]);
          return;
      }
      pc := (pc + 2) % MEMORY_SIZE;
    }
  }
}
