/**
 The two-stage relocator that elf2ssd prepends to an image linked at 0x0E00: the code
 generator, and the proof that the generated code, run by the interpreter, moves the
 image down over itself and jumps to its entry.
 */
module RelocStub {
  import opened Words
  import opened Machine6502

  const DFS_PAGE: nat := 0x1F00
  const TAPE_DEST: nat := 0x0E00
  const STUB_PARK: nat := 0x0900
  const STAGE_LEN: nat := 62

  /** v & 0xFF and (v >> 8) & 0xFF */
  function Lo(v: int): byte { v % 0x100 }

  function Hi(v: int): byte { v / 0x100 % 0x100 }

  // ---- the generated code ----

  function SetByte(v: byte, z: byte): seq<byte> { [0xA9, v, 0x85, z] }

  function SetWord(v: int, z: byte): seq<byte>
    requires z < 0xFF
  {
    SetByte(Lo(v), z) + SetByte(Hi(v), z + 1)
  }

  /** Source, destination and count into zero page 0x70 to 0x75, and Y cleared. */
  function SetupCode(src: int, dst: int, count: int): (code: seq<byte>)
    ensures |code| == 26
  {
    SetWord(src, 0x70) + SetWord(dst, 0x72) + SetWord(count, 0x74) + [0xA0, 0]
  }

  function Jump(target: int): seq<byte> { [0x4C, Lo(target), Hi(target)] }

  /** The copy loop placed at address at; its BEQ leads past its own JMP. */
  function LoopCode(at: int): seq<byte> {
    [0xA5, 0x74, 0x05, 0x75, 0xF0, 27]
    + [0xB1, 0x70, 0x91, 0x72]
    + [0xE6, 0x70, 0xD0, 0x02, 0xE6, 0x71]
    + [0xE6, 0x72, 0xD0, 0x02, 0xE6, 0x73]
    + [0xA5, 0x74, 0xD0, 0x02, 0xC6, 0x75, 0xC6, 0x74]
    + Jump(at)
  }

  /** A stage at address at: copy count bytes from src to dst, then jump. */
  function StageCode(at: int, src: int, dst: int, count: int, target: int): (code: seq<byte>)
    ensures |code| == STAGE_LEN
  {
    SetupCode(src, dst, count) + LoopCode(at + 26) + Jump(target)
  }

  function Stub(entry: int, count: int, load: int, dest: int): seq<byte> {
    StageCode(load, load + STAGE_LEN, STUB_PARK, STAGE_LEN, STUB_PARK)
    + StageCode(STUB_PARK, load + 2 * STAGE_LEN, dest, count, entry)
  }

  /** The loop before the offset of its BEQ is known. */
  function UnpatchedLoop(at: int): (code: seq<byte>)
    ensures |code| == 33
  {
    LoopCode(at)[5 := 0]
  }

  method EmitSetup(src: int, dst: int, count: int) returns (b: seq<byte>)
    ensures b == SetupCode(src, dst, count)
  {
    b := [];
    b := b + [0xA9, Lo(src)];
    b := b + [0x85, 0x70];
    b := b + [0xA9, Hi(src)];
    b := b + [0x85, 0x71];
    b := b + [0xA9, Lo(dst)];
    b := b + [0x85, 0x72];
    b := b + [0xA9, Hi(dst)];
    b := b + [0x85, 0x73];
    b := b + [0xA9, Lo(count)];
    b := b + [0x85, 0x74];
    b := b + [0xA9, Hi(count)];
    b := b + [0x85, 0x75];
    b := b + [0xA0, 0];
  }

  method EmitLoop(at: int) returns (b: seq<byte>, beqAt: nat)
    ensures b == UnpatchedLoop(at) && beqAt == 4
  {
    b := [0xA5, 0x74];
    b := b + [0x05, 0x75];
    beqAt := |b|;
    b := b + [0xF0, 0x00];
    b := b + [0xB1, 0x70];
    b := b + [0x91, 0x72];
    b := b + [0xE6, 0x70];
    b := b + [0xD0, 0x02];
    b := b + [0xE6, 0x71];
    b := b + [0xE6, 0x72];
    b := b + [0xD0, 0x02];
    b := b + [0xE6, 0x73];
    b := b + [0xA5, 0x74];
    b := b + [0xD0, 0x02];
    b := b + [0xC6, 0x75];
    b := b + [0xC6, 0x74];
    b := b + Jump(at);
  }

  /** One stage as the generator emits it, the branch offset patched in afterwards. */
  method EmitStage(at: int, src: int, dst: int, count: int, target: int) returns (b: seq<byte>)
    ensures b == StageCode(at, src, dst, count, target)
  {
    b := EmitSetup(src, dst, count);
    var loop := |b|;
    var body, beq := EmitLoop(at + loop);
    b := b + body;
    var done := |b|;
    var beqAt := loop + beq;
    PatchedLoop(at + loop);
    assert b[beqAt + 1 := 27] == SetupCode(src, dst, count) + body[5 := 27];
    b := b[beqAt + 1 := Lo(done - (beqAt + 2))];
    b := b + Jump(target);
  }

  lemma PatchedLoop(at: int)
    ensures UnpatchedLoop(at)[5 := 27] == LoopCode(at)
  {
  }

  /** The search for lengths that agree with the addresses built from them. */
  method BuildRelocStub(entry: int, payloadLen: int, dfsLoad: int, dest: int) returns (stub: seq<byte>)
    ensures stub == Stub(entry, payloadLen, dfsLoad, dest)
  {
    var stubLen := 0;
    while true
      invariant stubLen == 0 || stubLen == 2 * STAGE_LEN
      decreases stubLen == 0
    {
      var srcAddr := dfsLoad + stubLen;
      var stageB := EmitStage(STUB_PARK, srcAddr, dest, payloadLen, entry);
      var guess := 40;
      var stageA, stageBSrc;
      while true
        invariant guess == 40 || guess == STAGE_LEN
        decreases guess == 40
      {
        stageBSrc := dfsLoad + guess;
        stageA := EmitStage(dfsLoad, stageBSrc, STUB_PARK, |stageB|, STUB_PARK);
        if |stageA| == guess {
          break;
        }
        guess := |stageA|;
      }
      stub := stageA + stageB;
      if |stub| == stubLen && dfsLoad + |stub| == srcAddr {
        if stageBSrc == dfsLoad + |stageA| {
          return;
        }
      }
      stubLen := |stub|;
    }
  }

  /** What is to be put on the disc, and the addresses DFS loads it at and starts it at. */
  datatype DiscFile = DiscFile(bytes: seq<byte>, load: int, exec: int) | Refused

  /** The file to write for an image: wrapped when it is linked at TAPE_DEST, else as it is. */
  function WrittenFile(entry: int, load: int, image: seq<byte>): DiscFile {
    if load != TAPE_DEST then DiscFile(image, load, entry)
    else if entry < load || entry >= load + |image| then Refused
    else DiscFile(Stub(entry, |image|, DFS_PAGE, TAPE_DEST) + image, DFS_PAGE, DFS_PAGE)
  }

  /** What is written: any image not linked at TAPE_DEST as it is, and one that is exactly if it holds its entry. */
  lemma WrittenWhen(entry: int, load: int, image: seq<byte>)
    ensures WrittenFile(entry, load, image).Refused? <==> load == 0x0E00 && !(load <= entry < load + |image|)
    ensures load != 0x0E00 ==> WrittenFile(entry, load, image) == DiscFile(image, load, entry)
    ensures load == 0x0E00 && load <= entry < load + |image| ==>
              var file := WrittenFile(entry, load, image);
              file.load == file.exec == 0x1F00 && |file.bytes| >= |image| && file.bytes[|file.bytes| - |image|..] == image
  {
  }

  method WrapTapeE00(entry: int, load: int, image: seq<byte>) returns (file: DiscFile)
    ensures load != TAPE_DEST ==> file == Refused
    ensures load == TAPE_DEST ==> file == WrittenFile(entry, load, image)
  {
    if load != TAPE_DEST {
      return Refused;
    }
    if entry < load || entry >= load + |image| {
      return Refused;
    }
    var stub := BuildRelocStub(entry, |image|, DFS_PAGE, TAPE_DEST);
    file := DiscFile(stub + image, DFS_PAGE, DFS_PAGE);
  }

  method MaybeWrapTapeE00(entry: int, load: int, image: seq<byte>) returns (file: DiscFile)
    ensures file == WrittenFile(entry, load, image)
  {
    if load == TAPE_DEST {
      file := WrapTapeE00(entry, load, image);
    } else {
      file := DiscFile(image, load, entry);
    }
  }
}
