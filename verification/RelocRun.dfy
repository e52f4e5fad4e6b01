/**
 Running the relocator: what each piece of the generated code does on the machine, and
 the theorem that the stub ends at the entry with the image moved down.
 */
module RelocRun {
  import opened Machine6502
  import opened RelocStub

  /** code lies in memory at address at. */
  predicate CodeAt(mem: Memory, at: nat, code: seq<byte>) {
    at + |code| <= |mem| && mem[at..at + |code|] == code
  }

  lemma CodeAtParts(mem: Memory, at: nat, a: seq<byte>, b: seq<byte>)
    ensures CodeAt(mem, at, a + b) <==> CodeAt(mem, at, a) && CodeAt(mem, at + |a|, b)
  {
    var n := |a|;
    if CodeAt(mem, at, a + b) {
      var whole := mem[at..at + |a + b|];
      assert mem[at..at + n] == whole[..n] == a;
      assert mem[at + n..at + n + |b|] == whole[n..] == b;
    }
    if CodeAt(mem, at, a) && CodeAt(mem, at + n, b) {
      assert mem[at..at + |a + b|] == mem[at..at + n] + mem[at + n..at + n + |b|];
    }
  }

  /** Code none of whose cells changed is still there. */
  lemma CodeKept(m: Memory, m': Memory, at: nat, code: seq<byte>)
    requires CodeAt(m, at, code) && |m'| == |m|
    requires forall i :: at <= i < at + |code| ==> m'[i] == m[i]
    ensures CodeAt(m', at, code)
  {
  }

  /** Everything but A, Y, PC, Z, S and memory is as it was. */
  predicate SameRest(s: State, t: State) {
    t.x == s.x && t.sp == s.sp && t.devices == s.devices && t.flags == s.flags.(z := t.flags.z, s := t.flags.s)
  }

  /** No device answers between lo and hi, nor is hi beyond memory. */
  predicate NoDevice(s: State, lo: nat, hi: nat) {
    hi <= MEMORY_SIZE && forall a :: lo <= a < hi && IO_START <= a <= IO_END ==> a !in s.devices
  }

  const ZP_LO: nat := 0x70
  const ZP_HI: nat := 0x75

  /** A 16-bit pointer moved past the last byte of memory. */
  function Wrapped(x: nat): nat { if x == MEMORY_SIZE then 0 else x }

  predicate Pointers(mem: Memory, src: nat, dst: nat, count: nat) {
    |mem| == MEMORY_SIZE && Word(mem, 0x70) == Wrapped(src) && Word(mem, 0x72) == dst && Word(mem, 0x74) == count
  }

  /** Only the six zero page cells changed. */
  predicate OnlyZeroPage(m: Memory, m': Memory) {
    |m'| == |m| && forall i :: 0 <= i < |m| && !(ZP_LO <= i <= ZP_HI) ==> m'[i] == m[i]
  }

  // ---- single instructions ----

  lemma Ran1(s: State)
    requires CanStep(s)
    ensures Runs(s, 1, Step(s))
  {
    assert Runs(Step(s), 0, Step(s));
  }

  /** The instruction op arg is next. */
  predicate Fetches(s: State, op: byte, arg: byte) {
    |s.mem| == MEMORY_SIZE && s.pc + 4 < MEMORY_SIZE && s.mem[s.pc] == op && s.mem[s.pc + 1] == arg
  }

  lemma LdaImm(s: State, v: byte) returns (t: State)
    requires Fetches(s, 0xA9, v)
    ensures Runs(s, 1, t) && t == s.(a := v, flags := SetFlags(s.flags, v), pc := s.pc + 2)
  {
    t := Step(s);
    Ran1(s);
  }

  lemma LdyImm(s: State, v: byte) returns (t: State)
    requires Fetches(s, 0xA0, v)
    ensures Runs(s, 1, t) && t == s.(y := v, flags := SetFlags(s.flags, v), pc := s.pc + 2)
  {
    t := Step(s);
    Ran1(s);
  }

  lemma StaZp(s: State, z: byte) returns (t: State)
    requires Fetches(s, 0x85, z)
    ensures Runs(s, 1, t) && t == s.(mem := s.mem[z := s.a], pc := s.pc + 2)
  {
    t := Step(s);
    Ran1(s);
  }

  lemma LdaZp(s: State, z: byte) returns (t: State)
    requires Fetches(s, 0xA5, z)
    ensures Runs(s, 1, t) && t == s.(a := s.mem[z], flags := SetFlags(s.flags, s.mem[z]), pc := s.pc + 2)
  {
    t := Step(s);
    Ran1(s);
  }

  lemma OraZp(s: State, z: byte) returns (t: State)
    requires Fetches(s, 0x05, z)
    ensures Runs(s, 1, t) && SameRest(s, t) && t.pc == s.pc + 2 && t.y == s.y && t.mem == s.mem
    ensures t.flags.z <==> s.a == 0 && s.mem[z] == 0
  {
    t := Step(s);
    Ran1(s);
  }

  lemma Beq(s: State, off: byte) returns (t: State)
    requires Fetches(s, 0xF0, off) && off < 0x80 && s.pc + off as int + 2 < MEMORY_SIZE
    ensures Runs(s, 1, t) && t == s.(pc := if s.flags.z then s.pc + off as int + 2 else s.pc + 2)
  {
    t := Step(s);
    Ran1(s);
  }

  lemma Bne(s: State, off: byte) returns (t: State)
    requires Fetches(s, 0xD0, off) && off < 0x80 && s.pc + off as int + 2 < MEMORY_SIZE
    ensures Runs(s, 1, t) && t == s.(pc := if s.flags.z then s.pc + 2 else s.pc + off as int + 2)
  {
    t := Step(s);
    Ran1(s);
  }

  lemma LdaIndY(s: State, z: byte) returns (t: State)
    requires Fetches(s, 0xB1, z) && s.y == 0 && PlainAddress(s, Word(s.mem, z))
    ensures var v := s.mem[Word(s.mem, z)];
            Runs(s, 1, t) && t == s.(a := v, flags := SetFlags(s.flags, v), pc := s.pc + 2)
  {
    t := Step(s);
    Ran1(s);
  }

  lemma StaIndY(s: State, z: byte) returns (t: State)
    requires Fetches(s, 0x91, z) && s.y == 0 && PlainAddress(s, Word(s.mem, z))
    ensures Runs(s, 1, t) && t == s.(mem := s.mem[Word(s.mem, z) := s.a], pc := s.pc + 2)
  {
    t := Step(s);
    Ran1(s);
  }

  lemma IncZp(s: State, z: byte) returns (t: State)
    requires Fetches(s, 0xE6, z)
    ensures var v := Inc8(s.mem[z]);
            Runs(s, 1, t) && t == s.(mem := s.mem[z := v], flags := SetFlags(s.flags, v), pc := s.pc + 2)
  {
    t := Step(s);
    Ran1(s);
  }

  lemma DecZp(s: State, z: byte) returns (t: State)
    requires Fetches(s, 0xC6, z)
    ensures var v := Dec8(s.mem[z]);
            Runs(s, 1, t) && t == s.(mem := s.mem[z := v], flags := SetFlags(s.flags, v), pc := s.pc + 2)
  {
    t := Step(s);
    Ran1(s);
  }

  // ---- the pieces of a stage ----

  lemma LoadStore(s: State, v: byte, z: byte) returns (t: State)
    requires |s.mem| == MEMORY_SIZE && s.pc + 6 < MEMORY_SIZE && CodeAt(s.mem, s.pc, SetByte(v, z))
    ensures Runs(s, 2, t) && SameRest(s, t) && t.pc == s.pc + 4 && t.y == s.y && t.mem == s.mem[z := v]
  {
    hide Step, CanStep, Runs;
    Fetched(s.mem, s.pc, SetByte(v, z));
    var s1 := LdaImm(s, v);
    t := StaZp(s1, z);
    RunsJoin(s, 1, s1, 1, t);
  }

  /** The bytes of code, one by one. */
  lemma Fetched(mem: Memory, at: nat, code: seq<byte>)
    requires CodeAt(mem, at, code)
    ensures forall i :: 0 <= i < |code| ==> mem[at + i] == code[i]
  {
    forall i | 0 <= i < |code|
      ensures mem[at + i] == code[i]
    {
      assert mem[at..at + |code|][i] == code[i];
    }
  }

  lemma SetWordRuns(s: State, v: int, z: byte) returns (t: State)
    requires |s.mem| == MEMORY_SIZE && z < 0xFF && 0x100 <= s.pc && s.pc + 10 < MEMORY_SIZE
    requires 0 <= v < 0x1_0000 && CodeAt(s.mem, s.pc, SetWord(v, z))
    ensures Runs(s, 4, t) && SameRest(s, t) && t.pc == s.pc + 8 && t.y == s.y
    ensures t.mem == s.mem[z := Lo(v)][z + 1 := Hi(v)] && Word(t.mem, z) == v
  {
    hide Step, CanStep;
    CodeAtParts(s.mem, s.pc, SetByte(Lo(v), z), SetByte(Hi(v), z + 1));
    var s1 := LoadStore(s, Lo(v), z);
    CodeKept(s.mem, s1.mem, s1.pc, SetByte(Hi(v), z + 1));
    t := LoadStore(s1, Hi(v), z + 1);
    RunsJoin(s, 2, s1, 2, t);
  }

  /** The setup of a stage: pointers and count in place, nothing else in memory changed. */
  lemma SetupRuns(s: State, src: int, dst: int, count: int) returns (t: State)
    requires |s.mem| == MEMORY_SIZE && 0x100 <= s.pc && s.pc + 30 < MEMORY_SIZE
    requires 0 <= src < 0x1_0000 && 0 <= dst < 0x1_0000 && 0 <= count < 0x1_0000
    requires CodeAt(s.mem, s.pc, SetupCode(src, dst, count))
    ensures Runs(s, 13, t) && SameRest(s, t) && t.pc == s.pc + 26 && t.y == 0
    ensures Pointers(t.mem, src, dst, count) && OnlyZeroPage(s.mem, t.mem)
  {
    hide Step, CanStep, Runs, CodeAt, Lo, Hi, SetByte;
    var c1, c2, c3 := SetWord(src, 0x70), SetWord(dst, 0x72), SetWord(count, 0x74);
    SetWordLength(src, 0x70);
    SetWordLength(dst, 0x72);
    SetWordLength(count, 0x74);
    CodeAtParts(s.mem, s.pc, c1 + c2 + c3, [0xA0, 0]);
    CodeAtParts(s.mem, s.pc, c1 + c2, c3);
    CodeAtParts(s.mem, s.pc, c1, c2);
    var s1 := SetWordRuns(s, src, 0x70);
    CodeKept(s.mem, s1.mem, s.pc + 8, c2);
    var s2 := SetWordRuns(s1, dst, 0x72);
    CodeKept(s.mem, s2.mem, s.pc + 16, c3);
    var s3 := SetWordRuns(s2, count, 0x74);
    CodeKept(s.mem, s3.mem, s.pc + 24, [0xA0, 0]);
    t := ClearY(s3);
    RunsJoin(s, 4, s1, 4, s2);
    RunsJoin(s, 8, s2, 4, s3);
    RunsJoin(s, 12, s3, 1, t);
  }

  lemma SetWordLength(v: int, z: byte)
    requires z < 0xFF
    ensures |SetWord(v, z)| == 8
  {
  }

  lemma ClearY(s: State) returns (t: State)
    requires |s.mem| == MEMORY_SIZE && s.pc + 4 < MEMORY_SIZE && CodeAt(s.mem, s.pc, [0xA0, 0])
    ensures Runs(s, 1, t) && SameRest(s, t) && t.pc == s.pc + 2 && t.y == 0 && t.mem == s.mem
  {
    hide Step, CanStep, Runs;
    Fetched(s.mem, s.pc, [0xA0, 0]);
    t := LdyImm(s, 0);
  }

  const TEST: seq<byte> := [0xA5, 0x74, 0x05, 0x75, 0xF0, 27]

  /** LDA count; ORA count + 1; BEQ: on to the copy, or past the loop when the count is zero. */
  lemma TestRuns(s: State) returns (t: State)
    requires |s.mem| == MEMORY_SIZE && s.pc + 34 < MEMORY_SIZE && CodeAt(s.mem, s.pc, TEST)
    ensures Runs(s, 3, t) && SameRest(s, t) && t.y == s.y && t.mem == s.mem
    ensures t.pc == if Word(s.mem, 0x74) == 0 then s.pc + 33 else s.pc + 6
  {
    hide Step, CanStep, Runs;
    Fetched(s.mem, s.pc, TEST);
    assert s.mem[s.pc + 2] == TEST[2] && s.mem[s.pc + 3] == TEST[3];
    assert s.mem[s.pc + 4] == TEST[4] && s.mem[s.pc + 5] == TEST[5];
    var s1 := LdaZp(s, 0x74);
    var s2 := OraZp(s1, 0x75);
    t := Beq(s2, 27);
    RunsJoin(s, 1, s1, 1, s2);
    RunsJoin(s, 2, s2, 1, t);
  }

  const MOVE: seq<byte> := [0xB1, 0x70, 0x91, 0x72]

  /** LDA (src),Y; STA (dst),Y with Y zero. */
  lemma MoveRuns(s: State, src: nat, dst: nat) returns (t: State)
    requires |s.mem| == MEMORY_SIZE && s.pc + 6 < MEMORY_SIZE && CodeAt(s.mem, s.pc, MOVE)
    requires s.y == 0 && Word(s.mem, 0x70) == src && Word(s.mem, 0x72) == dst
    requires PlainAddress(s, src) && PlainAddress(s, dst)
    ensures Runs(s, 2, t) && SameRest(s, t) && t.pc == s.pc + 4 && t.y == 0
    ensures t.mem == s.mem[dst := s.mem[src]]
  {
    hide Step, CanStep, Runs;
    Fetched(s.mem, s.pc, MOVE);
    var s1 := LdaIndY(s, 0x70);
    t := StaIndY(s1, 0x72);
    RunsJoin(s, 1, s1, 1, t);
  }

  function IncWord(z: byte): seq<byte>
    requires z < 0xFF
  {
    [0xE6, z, 0xD0, 0x02, 0xE6, z + 1]
  }

  /** INC z; BNE over INC z + 1: a 16-bit increment. */
  lemma IncWordRuns(s: State, z: byte) returns (n: nat, t: State)
    requires |s.mem| == MEMORY_SIZE && z < 0xFF && 0x100 <= s.pc && s.pc + 10 < MEMORY_SIZE
    requires CodeAt(s.mem, s.pc, IncWord(z))
    ensures Runs(s, n, t) && SameRest(s, t) && t.pc == s.pc + 6 && t.y == s.y && |t.mem| == MEMORY_SIZE
    ensures Word(t.mem, z) == Wrapped(Word(s.mem, z) + 1)
    ensures forall i :: 0 <= i < MEMORY_SIZE && i != z && i != z + 1 ==> t.mem[i] == s.mem[i]
  {
    hide Step, CanStep, Runs;
    Fetched(s.mem, s.pc, IncWord(z));
    var s1 := IncZp(s, z);
    t := Bne(s1, 2);
    n := 2;
    RunsJoin(s, 1, s1, 1, t);
    if s1.flags.z {
      var s2 := t;
      t := IncZp(s2, z + 1);
      RunsJoin(s, 2, s2, 1, t);
      n := 3;
    }
  }

  const DEC: seq<byte> := [0xA5, 0x74, 0xD0, 0x02, 0xC6, 0x75, 0xC6, 0x74]

  /** The borrow is taken from the high byte before the low byte is decremented. */
  lemma DecRuns(s: State) returns (n: nat, t: State)
    requires |s.mem| == MEMORY_SIZE && 0x100 <= s.pc && s.pc + 12 < MEMORY_SIZE
    requires CodeAt(s.mem, s.pc, DEC) && Word(s.mem, 0x74) > 0
    ensures Runs(s, n, t) && SameRest(s, t) && t.pc == s.pc + 8 && t.y == s.y && |t.mem| == MEMORY_SIZE
    ensures Word(t.mem, 0x74) == Word(s.mem, 0x74) - 1
    ensures forall i :: 0 <= i < MEMORY_SIZE && i != 0x74 && i != 0x75 ==> t.mem[i] == s.mem[i]
  {
    hide Step, CanStep, Runs;
    Fetched(s.mem, s.pc, DEC);
    assert s.mem[s.pc + 2] == DEC[2] && s.mem[s.pc + 3] == DEC[3];
    assert s.mem[s.pc + 4] == DEC[4] && s.mem[s.pc + 5] == DEC[5];
    assert s.mem[s.pc + 6] == DEC[6] && s.mem[s.pc + 7] == DEC[7];
    var s1 := LdaZp(s, 0x74);
    var s2 := Bne(s1, 2);
    n := 2;
    RunsJoin(s, 1, s1, 1, s2);
    if s1.flags.z {
      var s3 := DecZp(s2, 0x75);
      RunsJoin(s, 2, s2, 1, s3);
      s2 := s3;
      n := 3;
    }
    t := DecZp(s2, 0x74);
    RunsJoin(s, n, s2, 1, t);
    n := n + 1;
  }

  lemma JumpRuns(s: State, target: nat) returns (t: State)
    requires |s.mem| == MEMORY_SIZE && s.pc + 2 < MEMORY_SIZE && CodeAt(s.mem, s.pc, Jump(target))
    requires target < MEMORY_SIZE
    ensures Runs(s, 1, t) && t == s.(pc := target)
  {
    Fetched(s.mem, s.pc, Jump(target));
    t := Step(s);
    Ran1(s);
  }

  // ---- the copy loop ----

  /** The pieces of the loop lie where the loop lies. */
  predicate LoopAt(mem: Memory, at: nat) {
    && CodeAt(mem, at, TEST) && CodeAt(mem, at + 6, MOVE)
    && CodeAt(mem, at + 10, IncWord(0x70)) && CodeAt(mem, at + 16, IncWord(0x72))
    && CodeAt(mem, at + 22, DEC) && CodeAt(mem, at + 30, Jump(at))
  }

  lemma LoopParts(mem: Memory, at: nat)
    requires CodeAt(mem, at, LoopCode(at))
    ensures LoopAt(mem, at)
  {
    hide CodeAt, Jump, Lo, Hi;
    var a1, a2, a3, a4 := TEST + MOVE, IncWord(0x70), IncWord(0x72), DEC;
    assert LoopCode(at) == a1 + a2 + a3 + a4 + Jump(at);
    CodeAtParts(mem, at, a1 + a2 + a3 + a4, Jump(at));
    CodeAtParts(mem, at, a1 + a2 + a3, a4);
    CodeAtParts(mem, at, a1 + a2, a3);
    CodeAtParts(mem, at, a1, a2);
    CodeAtParts(mem, at, TEST, MOVE);
  }

  lemma LoopKept(m: Memory, m': Memory, at: nat)
    requires LoopAt(m, at) && |m'| == |m|
    requires forall i :: at <= i < at + 33 ==> m'[i] == m[i]
    ensures LoopAt(m', at)
  {
    hide Jump, IncWord;
    assert |Jump(at)| == 3 && |IncWord(0x70)| == 6 && |IncWord(0x72)| == 6 by { PieceLengths(at); }
  }

  lemma PieceLengths(at: nat)
    ensures |Jump(at)| == 3 && |IncWord(0x70)| == 6 && |IncWord(0x72)| == 6
  {
  }

  /** At the head of the loop at address at, with count bytes left to copy from src to dst. */
  predicate AtHead(s: State, at: nat, src: nat, dst: nat, count: nat) {
    && s.pc == at && s.y == 0 && Pointers(s.mem, src, dst, count) && LoopAt(s.mem, at)
    && 0x100 <= at && at + 36 < MEMORY_SIZE
    && 0x100 <= dst < src && NoDevice(s, dst, src + count)
    && (dst + count <= at || at + 33 <= dst)
  }

  /** Only zero page cells and the cell dst changed, and that one to v. */
  predicate Wrote(m: Memory, m': Memory, dst: nat, v: byte) {
    && |m'| == |m| == MEMORY_SIZE && 0x100 <= dst < MEMORY_SIZE && m'[dst] == v
    && forall i :: 0 <= i < MEMORY_SIZE && !(ZP_LO <= i <= ZP_HI) && i != dst ==> m'[i] == m[i]
  }

  /** The end of a turn: both pointers one further, the count one less, and back to the head. */
  lemma AdvanceRuns(s: State, at: nat) returns (n: nat, t: State)
    requires |s.mem| == MEMORY_SIZE && LoopAt(s.mem, at) && s.pc == at + 10
    requires 0x100 <= at && at + 36 < MEMORY_SIZE && Word(s.mem, 0x74) > 0
    ensures Runs(s, n, t) && SameRest(s, t) && t.pc == at && t.y == s.y && |t.mem| == MEMORY_SIZE
    ensures Word(t.mem, 0x70) == Wrapped(Word(s.mem, 0x70) + 1) && Word(t.mem, 0x72) == Wrapped(Word(s.mem, 0x72) + 1)
    ensures Word(t.mem, 0x74) == Word(s.mem, 0x74) - 1 && OnlyZeroPage(s.mem, t.mem)
  {
    hide Step, CanStep, Runs, CodeAt, Wrapped;
    var n3, s3 := IncWordRuns(s, 0x70);
    LoopKept(s.mem, s3.mem, at);
    var n4, s4 := IncWordRuns(s3, 0x72);
    LoopKept(s3.mem, s4.mem, at);
    var n5, s5 := DecRuns(s4);
    LoopKept(s4.mem, s5.mem, at);
    t := JumpRuns(s5, at);
    RunsJoin(s, n3, s3, n4, s4);
    RunsJoin(s, n3 + n4, s4, n5, s5);
    RunsJoin(s, n3 + n4 + n5, s5, 1, t);
    n := n3 + n4 + n5 + 1;
  }

  /** One turn of the loop copies one byte and moves on. */
  lemma LoopTurn(s: State, at: nat, src: nat, dst: nat, count: nat) returns (n: nat, t: State)
    requires AtHead(s, at, src, dst, count) && count > 0
    ensures Runs(s, n, t) && SameRest(s, t) && AtHead(t, at, src + 1, dst + 1, count - 1)
    ensures Wrote(s.mem, t.mem, dst, s.mem[src])
  {
    hide Step, CanStep, Runs, CodeAt;
    var s1 := TestRuns(s);
    var s2 := MoveRuns(s1, src, dst);
    LoopKept(s.mem, s2.mem, at);
    hide LoopAt;
    var n3, s3 := AdvanceRuns(s2, at);
    RunsJoin(s, 3, s1, 2, s2);
    RunsJoin(s, 5, s2, n3, s3);
    LoopStays(s2.mem, s3.mem, at);
    n, t := 5 + n3, s3;
  }

  lemma LoopStays(m: Memory, m': Memory, at: nat)
    requires LoopAt(m, at) && OnlyZeroPage(m, m') && 0x100 <= at && at + 36 < |m|
    ensures LoopAt(m', at)
  {
    LoopKept(m, m', at);
    hide LoopAt;
  }

  /** The bytes of m from src on are those of m' from dst on; the rest, zero page cells aside, is kept. */
  predicate Copied(m: Memory, m': Memory, src: nat, dst: nat, count: nat) {
    && |m'| == |m| == MEMORY_SIZE && src + count <= MEMORY_SIZE && dst + count <= MEMORY_SIZE
    && (forall j :: dst <= j < dst + count ==> m'[j] == m[src + (j - dst)])
    && (forall i :: 0 <= i < MEMORY_SIZE && !(ZP_LO <= i <= ZP_HI) && !(dst <= i < dst + count) ==> m'[i] == m[i])
  }

  /** A byte written below the source does not disturb what is still to be copied. */
  lemma CopiedStep(m0: Memory, m1: Memory, m2: Memory, src: nat, dst: nat, count: nat)
    requires 0x100 <= dst < src && src + count <= MEMORY_SIZE && count > 0
    requires |m0| == MEMORY_SIZE && Wrote(m0, m1, dst, m0[src])
    requires Copied(m1, m2, src + 1, dst + 1, count - 1)
    ensures Copied(m0, m2, src, dst, count)
  {
    forall j | dst <= j < dst + count
      ensures m2[j] == m0[src + (j - dst)]
    {
      if j > dst {
        assert m2[j] == m1[src + 1 + (j - (dst + 1))];
      }
    }
  }

  lemma {:induction false} LoopRuns(s: State, at: nat, src: nat, dst: nat, count: nat) returns (n: nat, t: State)
    requires AtHead(s, at, src, dst, count)
    ensures Runs(s, n, t) && SameRest(s, t) && t.pc == at + 33
    ensures Copied(s.mem, t.mem, src, dst, count)
    decreases count
  {
    hide Step, CanStep, Runs, LoopAt;
    if count == 0 {
      HeadHasTest(s.mem, at);
      t := TestRuns(s);
      n := 3;
    } else {
      var n1, s1 := LoopTurn(s, at, src, dst, count);
      var n2, s2 := LoopRuns(s1, at, src + 1, dst + 1, count - 1);
      CopiedStep(s.mem, s1.mem, s2.mem, src, dst, count);
      RunsJoin(s, n1, s1, n2, s2);
      n, t := n1 + n2, s2;
    }
  }

  lemma HeadHasTest(mem: Memory, at: nat)
    requires LoopAt(mem, at)
    ensures CodeAt(mem, at, TEST)
  {
  }

  // ---- a stage, and the whole stub ----

  /** A stage copies its bytes and jumps to its target, touching nothing else but zero page. */
  lemma StageRuns(s: State, at: nat, src: nat, dst: nat, count: nat, target: nat) returns (n: nat, t: State)
    requires |s.mem| == MEMORY_SIZE && s.pc == at && CodeAt(s.mem, at, StageCode(at, src, dst, count, target))
    requires 0x100 <= at && at + STAGE_LEN + 4 < MEMORY_SIZE && target < MEMORY_SIZE
    requires 0x100 <= dst < src < MEMORY_SIZE && count < MEMORY_SIZE && NoDevice(s, dst, src + count)
    requires dst + count <= at || at + STAGE_LEN <= dst
    ensures Runs(s, n, t) && SameRest(s, t) && t.pc == target && Copied(s.mem, t.mem, src, dst, count)
  {
    hide Step, CanStep, Runs, CodeAt, SetupCode, LoopCode, Jump, LoopAt;
    var c1, c2, c3 := SetupCode(src, dst, count), LoopCode(at + 26), Jump(target);
    StageLengths(src, dst, count, at + 26, target);
    CodeAtParts(s.mem, at, c1 + c2, c3);
    CodeAtParts(s.mem, at, c1, c2);
    var s1 := SetupRuns(s, src, dst, count);
    CodeKept(s.mem, s1.mem, at + 26, c2);
    CodeKept(s.mem, s1.mem, at + 59, c3);
    LoopParts(s1.mem, at + 26);
    var n2, s2 := LoopRuns(s1, at + 26, src, dst, count);
    CodeKept(s1.mem, s2.mem, at + 59, c3);
    t := JumpRuns(s2, target);
    RunsJoin(s, 13, s1, n2, s2);
    RunsJoin(s, 13 + n2, s2, 1, t);
    n := 14 + n2;
  }

  lemma StageLengths(src: int, dst: int, count: int, at: int, target: int)
    ensures |SetupCode(src, dst, count)| == 26 && |LoopCode(at)| == 33 && |Jump(target)| == 3
  {
  }

  /**
   The file that elf2ssd writes, loaded at DFS_PAGE and started there, reaches the entry
   with the image at TAPE_DEST.  Besides the image only the parked second stage and the
   six zero page cells have changed, and no register but A, Y, PC and the Z and S flags.
   */
  lemma Relocates(s: State, entry: nat, image: seq<byte>) returns (n: nat, t: State)
    requires |s.mem| == MEMORY_SIZE && s.pc == DFS_PAGE && entry < MEMORY_SIZE
    requires CodeAt(s.mem, DFS_PAGE, Stub(entry, |image|, DFS_PAGE, TAPE_DEST) + image)
    requires NoDevice(s, STUB_PARK, DFS_PAGE + 2 * STAGE_LEN + |image|)
    ensures Runs(s, n, t) && t.pc == entry && SameRest(s, t)
    ensures |t.mem| == MEMORY_SIZE && t.mem[TAPE_DEST..TAPE_DEST + |image|] == image
    ensures forall i :: 0 <= i < MEMORY_SIZE && !(ZP_LO <= i <= ZP_HI)
              && !(STUB_PARK <= i < STUB_PARK + STAGE_LEN) && !(TAPE_DEST <= i < TAPE_DEST + |image|)
              ==> t.mem[i] == s.mem[i]
  {
    hide Step, CanStep, Runs, CodeAt, StageCode;
    var count := |image|;
    var stageA := StageCode(DFS_PAGE, DFS_PAGE + STAGE_LEN, STUB_PARK, STAGE_LEN, STUB_PARK);
    var stageB := StageCode(STUB_PARK, DFS_PAGE + 2 * STAGE_LEN, TAPE_DEST, count, entry);
    CodeAtParts(s.mem, DFS_PAGE, stageA + stageB, image);
    CodeAtParts(s.mem, DFS_PAGE, stageA, stageB);
    var n1, s1 := StageRuns(s, DFS_PAGE, DFS_PAGE + STAGE_LEN, STUB_PARK, STAGE_LEN, STUB_PARK);
    CodeMoved(s.mem, s1.mem, DFS_PAGE + STAGE_LEN, STUB_PARK, stageB);
    CodeKept(s.mem, s1.mem, DFS_PAGE + 2 * STAGE_LEN, image);
    var n2, s2 := StageRuns(s1, STUB_PARK, DFS_PAGE + 2 * STAGE_LEN, TAPE_DEST, count, entry);
    CodeMoved(s1.mem, s2.mem, DFS_PAGE + 2 * STAGE_LEN, TAPE_DEST, image);
    RunsJoin(s, n1, s1, n2, s2);
    n, t := n1 + n2, s2;
    CodeIsSlice(t.mem, TAPE_DEST, image);
  }

  lemma CodeMoved(m: Memory, m': Memory, src: nat, dst: nat, code: seq<byte>)
    requires CodeAt(m, src, code) && Copied(m, m', src, dst, |code|)
    ensures CodeAt(m', dst, code)
  {
    Fetched(m, src, code);
    forall i | 0 <= i < |code|
      ensures m'[dst..dst + |code|][i] == code[i]
    {
      assert m'[dst + i] == m[src + (dst + i - dst)];
    }
    assert m'[dst..dst + |code|] == code;
  }

  lemma CodeIsSlice(mem: Memory, at: nat, code: seq<byte>)
    requires CodeAt(mem, at, code)
    ensures mem[at..at + |code|] == code
  {
  }

  /** A file that elf2ssd accepts starts the image it was given, wherever that is linked. */
  lemma WrittenFileStarts(s: State, entry: int, load: int, image: seq<byte>) returns (n: nat, t: State)
    requires var file := WrittenFile(entry, load, image);
             && file.DiscFile? && 0 <= file.load && 0 <= file.exec
             && |s.mem| == MEMORY_SIZE && s.pc == file.exec && CodeAt(s.mem, file.load, file.bytes)
    requires load == TAPE_DEST ==> NoDevice(s, STUB_PARK, DFS_PAGE + 2 * STAGE_LEN + |image|)
    ensures Runs(s, n, t) && t.pc == entry && SameRest(s, t)
    ensures 0 <= load && CodeAt(t.mem, load, image)
  {
    if load == TAPE_DEST {
      n, t := Relocates(s, entry, image);
    } else {
      n, t := 0, s;
    }
  }
}
