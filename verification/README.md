# Verified models of the toolchain's core algorithms

Dafny models, with proofs, of the parts of this toolchain whose correctness is hardest to
see from the code: software floating point, the relocator generated for 6502 images, the
life of guest threads, exclusive accesses to guest memory, and the linker's tables, layout,
symbol resolution, garbage collection, script expressions, patterns and stack-trace table,
and the packet CRC of the file server. `dafny verify dfyconfig.toml` checks everything.

Each algorithm that works in place is a method over arrays or a class over the fields the
source updates, proved against functions; the theorems are lemmas about those functions.

| modules | subject |
|---|---|
| Words, PowerOfTwo, LittleEndian | words of fixed width, powers of two, bytes of a word |
| FloatSpec, StickyBits, SoftFloat, FloatArith, FloatMulDiv, FloatConvert, FloatLaws | binary32 and binary64 arithmetic from integers, against exact rationals |
| Machine6502, RelocStub, RelocRun | the 6502 step, the generator of the relocator, and what its output does on the machine |
| ThreadModel, ThreadSafety, ThreadRuns, ShutdownEnds, ThreadTable | the thread protocol of both interpreters as steps, its invariant, the theorems over runs, the end of shutdown, and the critical sections in place |
| ExclusiveMonitor, ExclusiveInterpreter | reservations over all interleavings, and the instructions in place |
| GnuHash, DynamicRelocations | the symbol index and the relocation section of shared objects |
| ScriptExpr, ScriptRoundTrip, ScriptMeaning, ScriptParser | linker-script expressions: reading, the round trip, what words and operators mean, and the parser in place |
| Glob | section name patterns |
| SectionGC | garbage collection of sections |
| Layout, Placement, BssPlacement | section groups, their addresses, and .bss |
| SymbolMerge, SymbolOrder, SymbolTable, ArchiveResolve | declarations of one name, when their order matters, common symbols, static libraries |
| GF2, Crc16 | the packet CRC as a polynomial remainder |
| StackTrace, StackTable | the stack-trace records and the bytes they are written to |

## Conventions

- C integers are unbounded numbers reduced where the C type reduces them. Shifts, masks and
  ORs of disjoint bits in the floating-point code are products, quotients and sums by powers
  of two; the arithmetic lemmas show that no 64-bit step loses a bit.
- A finite float's value is a whole number of ticks, the least positive value of its format;
  an exact result is a rational number of ticks. `Rounded` says that the bits are the nearest
  representable value, even on ties, infinite from the midpoint beyond the largest one.
- The thread protocol takes each section under the process mutex as one step and each action
  outside it (the host join, freeing, the end of a host thread) as a step of its own. Any
  actor may reap at any time, which covers the calls to reaping at the ends of the other
  calls. Main begins shutdown after its guest code has returned.
- Exclusive accesses and stores are single events, since the source does them under the
  memory mutex. The write epoch counts without wrapping.

## Where the code differs from what it is meant to do

- A weak reference can be made strong by a member read late in the last pass
  (`Linker/linker_symbols.c:297-302`), and is then left undefined although a library lists it.
  `ArchiveResolve.WeakReferenceMissed` gives such a link, and `ArchiveResolve.MissesExactly`
  says for which libraries it can happen.
- A weak common that is read first absorbs a strong common (`Linker/linker_symbols.c:254-261`),
  so the class of a name depends on the order of the files: `SymbolMerge.WeakCommonsMatter` is
  an example, `SymbolMerge.ClassExactly` gives the class for each order, and
  `SymbolOrder.ClassOrderExactly` says for which declarations the order matters. Whether a
  multiple definition is reported, and the size of a common, depend on the order as well:
  `SymbolOrder.WeakCommonHidesConflict`, and exactly when in `SymbolOrder.ReportOrderExactly`
  and `SymbolOrder.SizeOrderExactly`.
- The length field of a packet wraps at a byte (`6502server/packet.c:67`), so of every size
  from 254 bytes on some packets are refused by their receiver: `Crc16.LongPacketRefused`, and
  exactly when in `Crc16.BuiltAreAcceptedExactly`.
- `AARCH64InterpreterFail` returns when the failing thread is a worker
  (`aarch64_interpreter/aarch64_process.c:244-253`), and its callers go on. A worker's store
  outside the guest's memory is therefore done, advances the write epoch and ends the
  reservations of all threads: `ExclusiveInterpreter.WorkerStoresOutside`, and exactly when in
  `ExclusiveInterpreter.OutsideStore`.
- The mask that places .bss inputs (`Linker/linker.c:1591`) aligns only to powers of two:
  `BssPlacement.MaskMisaligns` and `BssPlacement.MaskAlignsExactly`.
- `AlignUpExpr` wraps near 2^64; `ScriptExpr.AlignUpMeaning` says exactly when.

## Model

| member | source | states |
|---|---|---|
| FloatSpec.FormatsWellFormed | bpf support/softfloat.c:54-74 | binary32 and binary64 have the widths, biases and sign bits that the theorems about a format assume |
| FloatSpec.TicksOfFields | bpf support/softfloat.c:88-118 | an exponent field e and fraction t stand for t least steps when e is 0 (subnormal) and for (2^mant + t) * 2^(e-1) of them otherwise: the value the correctness statements below are about is the one of section 3.4 of IEEE 754-2019 |
| FloatSpec.TicksOrder | bpf support/softfloat.c:351-354 | magnitudes compare as their bit patterns do |
| FloatSpec.NearestUnique | bpf support/softfloat.c:151-167 | an exact rational has at most one nearest-even result, so the statements below determine every bit |
| FloatSpec.BetweenIsNearest | bpf support/softfloat.c:151-163 | lying between the midpoints to both neighbours, with the even side of a tie, is global nearness among all finite magnitudes, or overflow to infinity |
| FloatSpec.ExactIsNearest | bpf support/softfloat.c:118-167 | a representable value rounds to itself |
| SoftFloat.RoundPack | bpf support/softfloat.c:120-168 | for any significand that stands for an exact rational up to a faithful sticky bit, and any exponent, the result is that rational rounded once to nearest even, with subnormals and overflow to infinity |
| SoftFloat.Normalize | bpf support/softfloat.c:134-137 | shifting left to the hidden bit, or to the least exponent, keeps the value stood for |
| SoftFloat.Denormalize | bpf support/softfloat.c:138-150 | shifting right to the least exponent keeps the value stood for and the sticky bit, also for shifts of 63 and more |
| SoftFloat.RoundAndPack | bpf support/softfloat.c:151-167 | from a significand in place the bits are the round-to-even multiple of eight at that exponent, or infinity |
| FloatArith.Unpack | bpf support/softfloat.c:88-118 | classes and signs are those of the bits, and exponent and significand of a number, subnormal or not, give back its exact value with the hidden bit set |
| FloatArith.Add | bpf support/softfloat.c:170-227 | for all bit patterns: the exact sum rounded once to nearest even, the rule for the sign of zero, infinities and NaNs (sections 4.3.1, 5.4.1 and 6.3 of IEEE 754-2019); no 64-bit step overflows |
| FloatMulDiv.Sub | bpf support/softfloat.c:465-501 | the exact difference rounded once; a NaN operand gives a NaN |
| FloatMulDiv.MulWide | bpf support/softfloat.c:254-264 | the two words built from four 32-bit limb products are exactly the 128-bit product |
| FloatMulDiv.Mul | bpf support/softfloat.c:229-287 | for all bit patterns: the exact product rounded once to nearest even, with its sign; infinity times zero is NaN |
| FloatMulDiv.DivideStep | bpf support/softfloat.c:322-332 | one step brings one more bit of the dividend into quotient and remainder exactly |
| FloatMulDiv.Divide | bpf support/softfloat.c:317-332 | the loop gives quotient and remainder of a * 2^extra by b, with the remainder below b |
| FloatMulDiv.Div | bpf support/softfloat.c:289-337 | for all bit patterns: the exact quotient rounded once to nearest even; a nonzero number over zero is a signed infinity, zero over zero and infinity over infinity are NaN |
| FloatLaws.OperandsCommute | bpf support/softfloat.c:170-287 | what a sum and a product must be does not depend on the order of the operands |
| FloatLaws.SignsMultiply | bpf support/softfloat.c:232-337 | a product or quotient that is not a NaN is negative exactly if one operand is |
| FloatLaws.ZeroAdds | bpf support/softfloat.c:188-196 | adding a zero gives the number back, and for zero itself the negative zero does |
| FloatLaws.Cancels | bpf support/softfloat.c:216-225 | a number and its opposite add up to plus zero |
| FloatLaws.OneMultiplies | bpf support/softfloat.c:229-337 | multiplying by one and dividing by one give every finite number back, subnormals included |
| FloatConvert.Compare | bpf support/softfloat.c:339-355 | 2 exactly when an operand is NaN, and otherwise the order of the two values, with both zeros equal |
| FloatConvert.Msb | bpf support/softfloat.c:23-52 | the position of the highest set bit |
| FloatConvert.FromUnsigned | bpf support/softfloat.c:357-375 | every 64-bit integer is rounded once to nearest even |
| FloatConvert.FromSigned | bpf support/softfloat.c:377-392 | the same with a sign, including the least int64 |
| FloatConvert.OneIsOne | bpf support/softfloat.c:54-70 | the number 1 has the exponent field bias, in the unit that integers are counted in |
| FloatConvert.TruncatedMeans | bpf support/softfloat.c:402-420 | the truncated value has the sign of the value, is no larger, and misses less than one of it |
| FloatConvert.ToSigned | bpf support/softfloat.c:394-421 | the value truncated toward zero, saturated to int64; NaN gives 0 |
| FloatConvert.Widen | bpf support/softfloat.c:423-438 | the binary64 value is exactly the binary32 value, subnormals included |
| FloatConvert.Narrow | bpf support/softfloat.c:440-460 | the binary64 value rounded once to binary32 |
| FloatConvert.NarrowOfWidened | bpf support/softfloat.c:423-460 | narrowing after widening gives back every binary32 pattern that is not NaN |
| RelocStub.EmitSetup | 6502 support/elf2ssd.py:149-161 | the thirteen emitted instructions are those that load source, destination and count of the copy |
| RelocStub.EmitLoop | 6502 support/elf2ssd.py:162-179 | the loop as emitted, with its branch offset still to be patched in at a known place |
| RelocStub.EmitStage | 6502 support/elf2ssd.py:69-105 | one stage, its forward branch patched to just after the loop |
| RelocStub.BuildRelocStub | 6502 support/elf2ssd.py:32-194 | both searches for agreeing lengths end, and the stub is the two stages at the addresses their final lengths give |
| RelocStub.WrapTapeE00 | 6502 support/elf2ssd.py:197-206 | refused unless the image is linked at 0x0E00 and holds its entry; otherwise the stub followed by the image, loaded and entered at PAGE |
| RelocStub.MaybeWrapTapeE00 | 6502 support/elf2ssd.py:209-213 | the file written for any image |
| Machine6502.Interpreter.StepOneInstruction | 6502_interpreter/6502_interpreter.c:1513-1526 | the in-place interpreter on the 64K array does exactly the step function that the theorems below are about |
| Machine6502.RunsUnique | 6502_interpreter/6502_interpreter.c:1513-1526 | the machine is deterministic: a run of given length has one end |
| Machine6502.FlagsSay | 6502_interpreter/6502_interpreter.c:1798-1808 | Z tells zero and S the top bit, and no other flag changes |
| Machine6502.OrSays | 6502_interpreter/6502_interpreter.c:2041-2043 | ORA is bit by bit |
| Machine6502.CountsWrap | 6502_interpreter/6502_interpreter.c:2611-2615 | increments and decrements wrap and undo one another |
| Machine6502.BranchesSay | 6502_interpreter/6502_interpreter.c:2000-2007 | a taken branch goes forwards or backwards from the next instruction by the signed offset |
| Machine6502.IndirectSays | 6502_interpreter/6502_interpreter.c:1867-1869 | the operand of an indirect indexed access is the little-endian word in zero page plus Y |
| RelocStub.WrittenWhen | 6502 support/elf2ssd.py:197-213 | an image is refused exactly if it is linked at 0x0E00 and does not hold its entry, and otherwise ends the file |
| RelocRun.AdvanceRuns | 6502 support/elf2ssd.py:169-179 | the end of a turn: 16-bit increments of both pointers, wrapping at the end of memory, and a 16-bit decrement of the count |
| RelocRun.LoopTurn | 6502 support/elf2ssd.py:162-182 | one turn of the generated loop on the interpreter copies one byte, counts down a 16-bit count, carries into both pointers, and is back at its head with the rest of memory unchanged |
| RelocRun.LoopRuns | 6502 support/elf2ssd.py:162-182 | the loop ends, by induction on the count, with all bytes copied even when the ranges overlap downwards |
| RelocRun.StageRuns | 6502 support/elf2ssd.py:149-183 | a whole stage copies its bytes and jumps to its target, touching nothing else but zero page 0x70-0x75 |
| RelocRun.Relocates | 6502 support/elf2ssd.py:32-194 | from PAGE with stub and payload loaded, the interpreter reaches the entry after finitely many steps with the payload at 0x0E00, for every payload that fits in memory and on which no device answers, changing only zero page 0x70-0x75, the parked stage and the destination |
| RelocRun.WrittenFileStarts | 6502 support/elf2ssd.py:197-213 | the file written for any accepted image, loaded and entered where it says, starts the image in its place at its entry |
| ThreadSafety.InitialSafe | arm_interpreter/arm_process.c:394-414 | the process with only its main thread satisfies the invariant |
| ThreadRuns.StepKeeps | arm_interpreter/arm_process.c:491-732 | every step of every actor (worker, creator, joiner, detacher, reaper, shutdown), on both interpreters, keeps the invariant that ties table, records, calls in flight and history together |
| ThreadRuns.RunKeeps | aarch64_interpreter/aarch64_process.c:420-735 | so does every interleaving |
| ThreadRuns.ReachableSafe | arm_interpreter/arm_process.c:209-732 | the invariant holds in every reachable state of either interpreter |
| ThreadRuns.JoinedAndFreedOnce | arm_interpreter/arm_process.c:235-239 | in every reachable state a worker's host thread has been joined at most once and its record freed at most once, joined only after it ended, and freed only after the join |
| ThreadRuns.JoiningIsExclusive | arm_interpreter/arm_process.c:628-662 | no thread is both detached and being joined, two joins in flight have different targets, and active_joins is the number of joins in flight |
| ThreadRuns.NoUseAfterFree | arm_interpreter/arm_process.c:639-672 | no record is freed while the table, a call in flight or the running worker can still reach it |
| ThreadRuns.TableIdsDistinct | arm_interpreter/arm_process.c:169-179 | listed threads have distinct tids, and ARM's workers distinct slots in 1..15 |
| ThreadSafety.ReservationSucceeds | arm_interpreter/arm_process.c:538-547 | under the invariant a slot is found exactly when fewer than 15 workers exist |
| ThreadRuns.SlotFoundBelowLimit | arm_interpreter/arm_process.c:538-547 | in every reachable ARM state the count of workers alone decides whether a slot is found: the second -EAGAIN branch is unreachable |
| ThreadRuns.JoinsAlreadyDone | arm_interpreter/arm_process.c:342-343 | once shutdown has seen the workers quiet, no join is in flight, so the wait for the joins does not block |
| ThreadRuns.ShutdownLeavesNothing | arm_interpreter/arm_process.c:374-392 | when shutdown is about to free the main record, every worker ever created has been freed exactly once, and joined exactly once if it was started |
| ThreadRuns.MainFreedLast | aarch64_interpreter/aarch64_process.c:471-480 | the main record is freed exactly at the end of shutdown, once, when it is the only one listed |
| ThreadRuns.ShutdownNeverStuck | aarch64_interpreter/aarch64_process.c:436-480 | after the workers are quiet some step of shutdown, or the end of the host thread it waits for, is always possible |
| ThreadRuns.JoinableUnlessDetached | arm_interpreter/arm_process.c:628-637 | in every reachable state a started listed worker that nobody is joining is joinable exactly if it is not detached |
| ThreadRuns.WorkerCanBeJoined | arm_interpreter/arm_process.c:607-637 | every other thread that may make a call can join it or detach it under its tid |
| ThreadRuns.CreatedCanBeJoined | arm_interpreter/arm_process.c:565-595 | right after a create succeeds, on either interpreter, the new worker is listed and every other thread that may make a call can join or detach it |
| ThreadRuns.DetachedIsReaped | arm_interpreter/arm_process.c:209-231 | a detached worker can be neither joined nor detached again, and is one that reaping takes once it is finished |
| ThreadRuns.NoStartInShutdown | arm_interpreter/arm_process.c:566-577 | once shutdown has begun no step starts a worker |
| ThreadRuns.WorkerGoesOn | arm_interpreter/arm_process.c:453-469 | a worker in no call always has a next step of its own, from idle to the end of its host thread |
| ThreadRuns.CallGoesOn | arm_interpreter/arm_process.c:551-673 | every call in flight has a next step, or waits for the end of the one host thread it is to join |
| ThreadRuns.CreateAllowed | arm_interpreter/arm_process.c:533-548 | until shutdown a thread that may make a call may create a worker, on ARM exactly while there are fewer than 15 |
| ThreadRuns.DetachesItself | aarch64_interpreter/aarch64_process.c:703-731 | a worker may detach itself on AArch64 and not on ARM, and may never join itself |
| ThreadRuns.ShutdownGoesOn | arm_interpreter/arm_process.c:334-342 | main may begin shutdown, and its wait ends as soon as the listed workers are finished |
| ShutdownEnds.OnlyShutdown | arm_interpreter/arm_process.c:342-391 | once the workers are quiet no other actor can take any step |
| ShutdownEnds.ShutdownDecreases | arm_interpreter/arm_process.c:343-391 | every step of any actor decreases what remains of shutdown, but for a reap that finds nothing and changes nothing |
| ShutdownEnds.ShutdownBounded | arm_interpreter/arm_process.c:343-391 | however the steps interleave, no run from there has more of them than remained |
| ShutdownEnds.ShutdownFinishes | arm_interpreter/arm_process.c:343-391 | from every such state a run of at most that many steps reaches the end of shutdown |
| ShutdownEnds.NothingAfterwards | arm_interpreter/arm_process.c:391 | at the end no step is possible any more |
| ThreadTable.RetiringIsReaped | arm_interpreter/arm_process.c:192-207 | the worker waited for is one that finishes without help and is then taken by reaping |
| ThreadTable.Process.HasRetiringDetachedWorker | arm_interpreter/arm_process.c:192-207 | whether a listed detached worker other than the caller is about to give up its slot |
| ThreadTable.SweepTakes | arm_interpreter/arm_process.c:216-228 | the loop that deletes from the vector it walks over takes exactly the first chosen threads, up to its limit, and leaves exactly the others |
| ThreadTable.Process.FindThread | arm_interpreter/arm_process.c:597-605 | the first listed thread with the tid, or none |
| ThreadTable.Process.IsWorkerSlotInUse | arm_interpreter/arm_process.c:159-167 | whether a listed worker has the slot |
| ThreadTable.Process.FindFreeSlot | arm_interpreter/arm_process.c:169-179 | the least slot that no listed worker has, or the limit |
| ThreadTable.Process.CountActiveWorkers | arm_interpreter/arm_process.c:181-190 | the number of listed workers |
| ThreadTable.Process.RemoveThread | aarch64_interpreter/aarch64_process.c:89-97 | the thread is removed from the vector and the order of the others kept |
| ThreadTable.Process.TakeOut | arm_interpreter/arm_process.c:216-228 | the in-place loop computes the sweep, for both conditions and any limit |
| ThreadTable.Process.CollectWorkers | arm_interpreter/arm_process.c:351-367 | the last collection of ARM's shutdown |
| ThreadTable.Process.ReserveThread | arm_interpreter/arm_process.c:520-549 | succeeds exactly when the protocol step is enabled, does exactly that step, and otherwise changes nothing; at 15 workers it comes again exactly while one is retiring and is -EAGAIN exactly when none is |
| ThreadTable.Process.StartThread | arm_interpreter/arm_process.c:565-593 | starts the worker exactly when not shutting down and the host could, and otherwise takes the record back |
| ThreadTable.Process.CreateThread | aarch64_interpreter/aarch64_process.c:605-626 | publishes and starts a worker in one section, takes it back when the host cannot, and changes nothing when shutting down |
| ThreadTable.Process.BeginJoin | arm_interpreter/arm_process.c:609-637 | accepts exactly the targets the protocol allows, does that step, and reports -ESRCH exactly for unknown tids |
| ThreadTable.Process.EndJoin | aarch64_interpreter/aarch64_process.c:690-696 | the protocol step that ends a join |
| ThreadTable.Process.DetachThread | aarch64_interpreter/aarch64_process.c:703-731 | accepts exactly the targets the protocol allows on each interpreter (only ARM refuses the caller itself), and does that step |
| ThreadTable.Process.ReapFinished | arm_interpreter/arm_process.c:215-229 | takes exactly the batch the protocol step takes |
| ThreadTable.Process.CollectForShutdown | aarch64_interpreter/aarch64_process.c:452-463 | takes exactly the batch the protocol step takes |
| ExclusiveMonitor.ReservationMeaning | aarch64_interpreter/aarch64_interpreter.c:882-907 | over every interleaving of any number of threads, a store exclusive would succeed exactly when the same thread did a load exclusive of the same address and size and nothing was written by anyone, nor any exclusive of its own lost the reservation, since |
| ExclusiveMonitor.StoreExclusiveSucceedsIff | aarch64_interpreter/aarch64_interpreter.c:898-917 | the same for the store itself: it writes exactly when undisturbed since the matching load |
| ExclusiveMonitor.MemoryAsLoaded | aarch64_interpreter/aarch64_interpreter.c:157-162 | while a reservation stands, all of guest memory is as the load exclusive saw it |
| ExclusiveMonitor.LoadedWhenHeld | aarch64_interpreter/aarch64_interpreter.c:882-889 | the value loaded is the value still in the cell when the store succeeds |
| ExclusiveMonitor.UpdatesAreAtomic | aarch64_interpreter/aarch64_interpreter.c:866-917 | a cell that only load-update-store loops write holds the update applied to its first value as often as there were successes, for any update and any interleaving |
| ExclusiveMonitor.CounterIsExact | aarch64_interpreter/aarch64_interpreter.c:866-917 | a counter ends at its first value plus the number of successes, modulo its size: no increment is lost |
| ExclusiveInterpreter.Interpreter.StoreGuest | aarch64_interpreter/aarch64_interpreter.c:171-233 | a store of 1, 2, 4 or 8 bytes is the store event; outside the guest's memory the main thread is stopped with nothing changed, while a worker is marked as ended and its store is done all the same |
| ExclusiveInterpreter.Interpreter.ExecuteClearExclusive | aarch64_interpreter/aarch64_interpreter.c:1530-1533 | CLREX is the clear event |
| ExclusiveInterpreter.Interpreter.ExecuteLoadStoreExclusive | aarch64_interpreter/aarch64_interpreter.c:866-918 | the decoded instruction does the load or store exclusive event and writes the loaded value or the status to the right register (never to register 31); outside the guest's memory the main thread is stopped, and a worker goes on with X0 already holding its exit status |
| ExclusiveInterpreter.Interpreter.Fail | aarch64_interpreter/aarch64_process.c:244-253 | only the main thread is stopped; a worker gets its status in X0, its end in its fields, and returns |
| ExclusiveInterpreter.Interpreter.InterpreterAddressOk | aarch64_interpreter/aarch64_interpreter.c:98-124 | whether one of the guest's ranges holds the whole access |
| ExclusiveInterpreter.OutsideStore | aarch64_interpreter/aarch64_interpreter.c:171-180 | a store outside the guest's memory is done exactly when a worker makes it and the host has that memory, and then it ends the reservation of every thread |
| ExclusiveInterpreter.WorkerStoresOutside | aarch64_interpreter/aarch64_interpreter.c:171-180 | a concrete worker and address: the byte outside changes and another thread's reservation is lost, where the main thread would change nothing |
| ExclusiveInterpreter.FieldsDecode | aarch64_interpreter/aarch64_interpreter.c:868-874 | decoding finds size, direction and the three registers of an encoded instruction, whatever the other fields are |
| ExclusiveInterpreter.RegistersRead | aarch64_interpreter/aarch64_interpreter.c:17-29 | what is written to a register is read from it and from no other, and register 31 is always zero |
| ExclusiveInterpreter.MappedBytes | aarch64_interpreter/aarch64_interpreter.c:98-124 | an access is mapped exactly when one range has all of its bytes |
| ExclusiveInterpreter.OneOfMany | aarch64_interpreter/aarch64_interpreter.c:157-162 | what one interpreter does to its own view is the event in the machine of all threads, and leaves the reservations of the others alone |
| LittleEndian.BytesRoundTrip | aarch64_interpreter/aarch64_interpreter.c:848-864 | a word stored and loaded raw is reduced modulo its size |
| LittleEndian.ByteAt | aarch64_interpreter/aarch64_interpreter.c:857-864 | byte k of a stored word has the weight 256^k |
| LittleEndian.FirstByteLowest | aarch64_interpreter/aarch64_interpreter.c:848-855 | a word read is the sum of its bytes with those weights |
| GnuHash.GnuHashOf | c_compiler/Loader/loader_dynamic.c:210-216 | the loop computes the recurrence h * 33 + c from 5381 modulo 2^32, for signed characters too |
| GnuHash.KnownHashes | c_compiler/Loader/loader_dynamic.c:210-216 | the recurrence at the end of a name, its seed, and a hash known from elsewhere |
| GnuHash.MoveUndefinedFirst | Linker/linker_dynamic.c:1172-1212 | a permutation that keeps the null symbol first, then all undefined symbols, then all defined ones |
| GnuHash.SortDynamicSymbolTable | Linker/linker_dynamic.c:1172-1227 | the same with the defined part in order of bucket |
| PowerOfTwo.Smear | Linker/linker_dynamic.c:1257-1265 | each or-with-shift doubles the run of ones below the highest bit |
| PowerOfTwo.NextPowerOf2 | Linker/linker_dynamic.c:1255-1265 | the least power of two above v, wrapping to 0 at 2^64 |
| GnuHash.WriteHeader | Linker/linker_dynamic.c:1290-1309 | the filter has at least 12 bits for each symbol in the least sufficient power of two of words, and never none |
| GnuHash.WriteBloomFilter | Linker/linker_dynamic.c:1311-1341 | the loop builds the filter of the defined symbols, in 32 or 64 bit words |
| GnuHash.BloomExactly | Linker/linker_dynamic.c:1325-1340 | a word of the filter has a bit exactly when some defined symbol falls into it with one of its two bits there |
| GnuHash.BloomAdmitsMembers | Linker/linker_dynamic.c:1325-1340 | the filter never rejects the hash of a symbol in it |
| GnuHash.FillTable | Linker/linker_dynamic.c:1368-1398 | after the loop every bucket starts at its first symbol and every chain word is the hash with its end bit set exactly at the last symbol of a bucket |
| GnuHash.WriteHashTable | Linker/linker_dynamic.c:1343-1399 | the written buckets and chains index the table |
| GnuHash.FindSymbolSlowly | c_compiler/Loader/loader_dynamic.c:1412-1428 | the first defined symbol of that name |
| GnuHash.FindSymbol | c_compiler/Loader/loader_dynamic.c:1430-1491 | the filter, bucket and chain lookup returns the very index a linear search returns, for present and absent names, and ends |
| GnuHash.CreateGnuHashTable | Linker/linker_dynamic.c:1410-1427 | from any symbol table: a permutation of it and a header, filter, buckets and chains written for it |
| GnuHash.FoundIffDefined | Linker/linker_dynamic.c:1172-1227 | after the reordering a name is found exactly when some symbol of the original table defines it |
| DynamicRelocations.EntryRoundTrip | Linker/linker_dynamic.c:507-531 | an entry of any of the three formats reads back as itself exactly when its fields fit the format |
| DynamicRelocations.IndexNamed | Linker/linker_dynamic.c:541-552 | an entry names the dynamic index, failing that the symbol's own, and failing both 0 |
| DynamicRelocations.WordBytes | Linker/linker_dynamic.c:513-530 | the words a loader makes are those of the entry's own width |
| DynamicRelocations.EntrySays | Linker/linker_dynamic.c:537-564 | an entry lies at its offset from its own section or from the GOT; a relative one names nothing and carries the whole link-time value |
| DynamicRelocations.AllocateDynamicRelocations | Linker/linker_dynamic.c:485-494 | the space reserved is one entry for each relocation of both tables |
| DynamicRelocations.EmitTable | Linker/linker_dynamic.c:586-606 | one inner loop writes its matching relocations in order behind what is there, within the space |
| DynamicRelocations.BuildDynamicRelocations | Linker/linker_dynamic.c:570-608 | the two passes fill exactly the allocated space with the encoded emitted entries |
| DynamicRelocations.EmittedOnce | Linker/linker_dynamic.c:584-607 | every data and GOT relocation is emitted exactly once |
| DynamicRelocations.RelativeRun | Linker/linker_dynamic.c:579-607 | entry k is relative exactly when k is below the recorded count, and is the entry of its own relocation at its own base |
| DynamicRelocations.CountRelative | Linker/linker_dynamic.c:1051-1068 | the recorded count is the number of relative relocations |
| DynamicRelocations.LoaderAgrees | Linker/linker_dynamic.c:579-582 | a loader that trusts the recorded count and reads the written bytes computes for every word the value it must hold, in 32 and in 64 bits, when the entry fits its format |
| ScriptExpr.AlignUpMeaning | Linker/linker_script.c:545-550 | the result is a multiple, and the least one not below the value exactly when the sum does not wrap |
| ScriptExpr.FindsLastSymbol | Linker/linker_script.c:519-530 | the symbol found is the latest of its name |
| ScriptExpr.FindsFirstMemory | Linker/linker_script.c:506-517 | the region found is the first of its name |
| PowerOfTwo.BitsOf | Linker/linker_script.c:721-735 | the or and the and of two words, bit by bit |
| ScriptRoundTrip.PrintAppends | Linker/linker_script.c:552-746 | the tokens of a tree do not depend on what follows them |
| ScriptRoundTrip.ChainReads | Linker/linker_script.c:676-735 | reading a left-nested chain at any operator level leaves that level's loop with the chain's value: operators are left-associative |
| ScriptRoundTrip.TreeReads | Linker/linker_script.c:552-746 | for every tree, level and following tokens, parsing the minimally parenthesised tokens gives the tree's value modulo 2^64 and consumes exactly those tokens |
| ScriptRoundTrip.ParsePrinted | Linker/linker_script.c:737-746 | the whole expression parses to its value with no token left and no error |
| ScriptMeaning.SumsAndProducts | Linker/linker_script.c:691-704 | sums, differences, products and the negation are those of the integers modulo 2^64, and the complement is 2^64 - 1 less the word |
| ScriptMeaning.Quotients | Linker/linker_script.c:676-689 | quotients are rounded down, and division by zero keeps the left operand |
| ScriptMeaning.Shifts | Linker/linker_script.c:706-719 | shifts multiply and divide by the power of two of the count modulo 64 |
| ScriptMeaning.Bitwise | Linker/linker_script.c:721-735 | and and or are bit by bit |
| ScriptMeaning.OperatorsRead | Linker/linker_script.c:676-735 | each of the eight operator tokens between two numbers is that operation |
| ScriptMeaning.TwoOperators | Linker/linker_script.c:676-735 | of any two operators the second is applied first exactly if it binds tighter: products over sums over shifts over and over or; otherwise they go from left to right |
| ScriptMeaning.SignsRead | Linker/linker_script.c:558-563 | a sign and a complement belong to the primary behind them |
| ScriptMeaning.ConditionReads | Linker/linker_script.c:737-746 | a condition chooses the first branch exactly when it is not zero |
| ScriptMeaning.SymbolReads | Linker/linker_script.c:664-670 | a word that is no keyword reads as the value of the latest symbol of that name |
| ScriptMeaning.LatestAssignmentReads | Linker/linker_script.c:519-530 | a name assigned twice reads as what it was assigned last |
| ScriptMeaning.UnknownReads | Linker/linker_script.c:641-669 | an unknown word reads as 0 until layout, and DEFINED tells exactly which words are symbols |
| ScriptMeaning.RegionsRead | Linker/linker_script.c:613-633 | ORIGIN and org read as the start, LENGTH and len as the length, of the first region of the name, quoted or not |
| ScriptMeaning.NoRegionReads | Linker/linker_script.c:624-631 | a region that does not exist is reported once and reads as 0 |
| ScriptMeaning.PlacesRead | Linker/linker_script.c:570-574 | the location counter and the words for sections have no value before layout |
| ScriptMeaning.AlignReads | Linker/linker_script.c:579-592 | ALIGN and BLOCK of two arguments round up, and of one have no value before layout |
| ScriptMeaning.ExtremesRead | Linker/linker_script.c:603-612 | MAX and MIN read as the argument that bounds both |
| ScriptMeaning.ConstantsRead | Linker/linker_script.c:593-602 | the page size, the size of the headers by class, and ABSOLUTE |
| ScriptParser.Parser.FindMemoryName | Linker/linker_script.c:506-517 | the loop finds what the search function finds |
| ScriptParser.Parser.FindScriptSymbol | Linker/linker_script.c:519-530 | so does the loop that goes backwards |
| ScriptParser.Parser.ParsePrimary | Linker/linker_script.c:552-674 | the method that advances the parser's fields computes the reading function, for every token list including malformed ones |
| ScriptParser.Parser.ParseMul | Linker/linker_script.c:676-689 | the loop computes level 5: division by zero keeps the left operand |
| ScriptParser.Parser.ParseAdd | Linker/linker_script.c:691-704 | the loop computes level 4, modulo 2^64 |
| ScriptParser.Parser.ParseShift | Linker/linker_script.c:706-719 | the loop computes level 3: counts are taken modulo 64 |
| ScriptParser.Parser.ParseAnd | Linker/linker_script.c:721-727 | the loop computes level 2 |
| ScriptParser.Parser.ParseOr | Linker/linker_script.c:729-735 | the loop computes level 1 |
| ScriptParser.Parser.ParseExpression | Linker/linker_script.c:737-746 | the conditional is right-associative, and the parser's state and error count are those of the reading function |
| Glob.StarLanguage | Linker/linker_config.c:180-191 | a star stands for any number of characters |
| Glob.CharLanguage | Linker/linker_config.c:193-214 | every other item stands for one character it admits |
| Glob.WildcardsDenote | Linker/linker_config.c:179-199 | on the characters of a pattern: nothing denotes the empty name, a star any prefix, a question mark any character |
| Glob.CharactersDenote | Linker/linker_config.c:150-154 | every other character, and a bracket that is not closed, denotes itself |
| Glob.ClassesDenote | Linker/linker_config.c:155-175 | a closed bracket denotes one character, a member of it, or after a caret or an exclamation mark one that is not |
| Glob.CommonSelects | Linker/linker_config.c:223-227 | COMMON selects exactly its three names, and every other pattern what it denotes |
| Glob.PatternCharClassMatches | Linker/linker_config.c:148-176 | true exactly when the name goes on with a character the class admits (ranges, single characters, negation; a literal bracket when unterminated), and where the pattern goes on |
| Glob.StarMatches | Linker/linker_config.c:180-191 | true exactly when the rest of the pattern matches some suffix |
| Glob.PatternMatch | Linker/linker_config.c:178-217 | true exactly when the name is in the language of the pattern; the loop with its recursion ends for every pattern and name |
| Glob.LinkerConfigPatternMatch | Linker/linker_config.c:219-228 | the same, with COMMON standing for its three names |
| Glob.LinkerConfigPatternIndex | Linker/linker_config.c:234-245 | the first pattern that selects the name, or -1 when none does |
| SectionGC.Collector.BuildSectionRelocGraph | Linker/linker_gc.c:95-110 | the adjacency lists hold exactly the relocation edges |
| SectionGC.TargetIsNamed | Linker/linker_gc.c:51-67 | a relocation refers to its symbol's section, failing that to its symbol's own, and failing both to the section its name is found in |
| SectionGC.SeedsAreRoots | Linker/linker_gc.c:128-143 | the roots are the retained sections, those with special names, the first entry symbol's, and for a shared object those of all defined globals |
| SectionGC.RootNames | Linker/linker_gc.c:29-49 | the special names and prefixes are roots whatever follows the prefix, and a section of code is not |
| SectionGC.Collector.MarkSectionLive | Linker/linker_gc.c:69-79 | only that section changes, and it is pushed exactly when it was discarded |
| SectionGC.Collector.MarkSpecialSections | Linker/linker_gc.c:119-132 | every allocatable section is discarded but the roots, and those are pushed |
| SectionGC.Collector.MarkSymbols | Linker/linker_gc.c:134-143 | the entry symbol's section, and for a shared object every section of a defined global, is live |
| SectionGC.Collector.WalkSection | Linker/linker_gc.c:145-150 | one turn of the worklist loop keeps the invariant that every edge from a walked section leads to a live one, and makes progress |
| SectionGC.ClosedHoldsReached | Linker/linker_gc.c:145-150 | a set that holds the roots and is closed under edges holds every reachable section |
| SectionGC.Collector.CollectSections | Linker/linker_gc.c:112-151 | an allocatable section is kept exactly when a root reaches it; what a relocation of a kept one names, directly or by name, is kept, and so is every root; the loop ends; each section is pushed at most once, and exactly the kept ones are |
| Layout.StrictestAlignment | Linker/linker.c:1126-1132 | the largest alignment of the inputs, at least 1 |
| Layout.BuildSectionGroup | Linker/linker.c:1116-1159 | the inputs in order with the least padding that puts each at a multiple of its alignment within the group |
| Layout.PowersDivide | Linker/linker.c:1784-1803 | what a power of two divides, the smaller powers divide |
| Placement.Segment.RegionAllocateAddress | Linker/linker.c:494-522 | the address is the region's next one, aligned at the start of a group; an error is reported, and 0 returned, exactly when the section would end beyond a limited region |
| Placement.Segment.RaiseFirstAlignment | Linker/linker.c:1784-1803 | only alignments change, only upwards, and to one that some group asked for |
| Placement.Segment.PlaceGroup | Linker/linker.c:1866-1921 | unless something is refused, the group starts at a multiple of its alignment at or after the region's next address and its components follow one another |
| Placement.Segment.AlignRegionEnds | Linker/linker.c:1924-1939 | each region goes on at the next multiple of its trailing alignment |
| Placement.Segment.AssignSegmentSectionAddresses | Linker/linker.c:1784-1939 | unless something is refused, all groups are laid out, in order within their regions, none before its region stood, each at the first multiple of its alignment after the one before it, none beyond the end of a limited region; and built groups that ask for powers of two have all their inputs aligned and disjoint |
| Placement.PaddingFills | Linker/linker.c:573-584 | the padding of a fixed image ends exactly at the region's end, and there is none in regions tied to the file |
| Layout.OffsetAfter | Linker/linker.c:1877-1909 | an input and a padding move the next component on by their size, a made section by what was reserved for it |
| Placement.InputsAligned | Linker/linker.c:1138-1147 | with power-of-two alignments, every input section of a built group gets a multiple of its own alignment |
| Placement.InputsDisjoint | Linker/linker.c:1871-1910 | no two input sections of one region overlap, within a group or across groups |
| Placement.InputsWellPlaced | Linker/linker.c:1116-1159 | the two together: for groups that were built, ask for powers of two and were laid out, every input is aligned and all inputs of a region are pairwise disjoint |
| Layout.BuiltAsksPowers | Linker/linker.c:1126-1135 | a group combined from sections that ask for powers of two asks for powers of two itself |
| BssPlacement.ClearBitsIsAnd | Linker/linker.c:1591 | clearing bits is the bitwise and with the complement, for words of any width |
| BssPlacement.MaskIsRound | Linker/linker.c:1591 | for a power of two the mask rounds up to the next multiple |
| BssPlacement.MaskAlignsExactly | Linker/linker.c:1591 | the mask aligns all addresses exactly when the alignment is a power of two |
| BssPlacement.MaskMisaligns | Linker/linker.c:1591 | alignment 3 leaves address 1 at 1 |
| BssPlacement.AssignBSSInputSectionAddresses | Linker/linker.c:1577-1596 | the .bss inputs follow one another, each at the masked end of the one before |
| BssPlacement.MaskedRowDisjoint | Linker/linker.c:1577-1596 | they never overlap, whatever alignments they ask for |
| BssPlacement.MaskedRowAligned | Linker/linker.c:1589-1592 | each that asks for a power of two begins at its first multiple after the one before it |
| Placement.RowDisjoint | Linker/linker_symbols.c:209-211 | rows placed by rounding up are aligned and disjoint |
| SymbolTable.LinkerSymbol.RedefineSymbol | Linker/linker_symbols.c:245-303 | the fields after one more declaration, and whether it is a multiple definition |
| SymbolTable.ReadDeclarations | Linker/linker_symbols.c:331-352 | reading all declarations of a name in order is the merge the lemmas below are about, and value and file are those of the declaration that counts |
| SymbolMerge.ResolveSummary | Linker/linker_symbols.c:245-303 | without weak commons: the class is the strongest declared (weak reference, reference, weak definition, definition), an error is reported exactly when two strong definitions exist that are not all common, and the size of a common is the maximum |
| SymbolMerge.HeaderGoverns | Linker/linker_symbols.c:285-302 | the header is one of the declarations, and a defined symbol has the value and the file of its header |
| SymbolMerge.FirstStrongestWins | Linker/linker_symbols.c:245-303 | without weak commons the header is the first declaration of the highest rank |
| SymbolMerge.OneStrongWins | Linker/linker_symbols.c:270-277 | without weak commons a name with one strong definition has exactly its header, size, value and file, whatever was read before or after |
| SymbolMerge.OrderDoesNotMatter | Linker/linker_symbols.c:245-352 | so every permutation gives the same class, the same presence of an error and, when every strong declaration is common, the same size |
| SymbolMerge.WeakCommonsMatter | Linker/linker_symbols.c:254-261 | with a weak common the class does depend on the order: a counterexample |
| SymbolMerge.ClassExactly | Linker/linker_symbols.c:245-303 | for all declarations: the class is the strongest declared exactly when no strong common was absorbed by a weak common before it, and errors are reported exactly when the listed conflicts occur |
| SymbolOrder.ClassOrderExactly | Linker/linker_symbols.c:245-352 | for all declarations: every order of the files gives the same class exactly when there is no weak common, or no strong declaration, or a strong one that is not common |
| SymbolOrder.ReportOrderExactly | Linker/linker_symbols.c:245-352 | every order reports a multiple definition or none does, exactly unless there are a weak common, one strong definition that is not common, and a strong common |
| SymbolOrder.WeakCommonHidesConflict | Linker/linker_symbols.c:254-282 | three declarations of which one order reports an error and another reports none |
| SymbolOrder.SizeOrderExactly | Linker/linker_symbols.c:254-262 | when every strong declaration is common, every order gives the same size exactly unless there are a weak definition that is not common and a weak common larger than every strong one |
| SymbolTable.CommonAlignment | Linker/linker_symbols.c:202-208 | the asked alignment, or the least power of two up to 16 that holds the size |
| SymbolTable.AssignCommonSymbolAddresses | Linker/linker_symbols.c:193-214 | the commons follow one another at the least aligned addresses |
| SymbolTable.CommonsDisjoint | Linker/linker_symbols.c:193-214 | they are aligned as asked and never overlap |
| ArchiveResolve.LoadDefines | Linker/linker.c:993-1012 | reading a member defines every name it defines |
| ArchiveResolve.LoadPromotes | Linker/linker_symbols.c:297-302 | reading a member turns a weak reference into a strong one, still undefined, exactly when it wants the name and does not define it |
| ArchiveResolve.MissedWasWeak | Linker/linker.c:1039-1073 | with true indexes, a listed symbol that a pass leaves undefined was a weak reference when the pass began |
| ArchiveResolve.WeakReferenceMissed | Linker/linker.c:1045-1047 | a concrete link whose last pass leaves a strong reference undefined although a library lists it |
| ArchiveResolve.VisitDefines | Linker/linker.c:1044-1070 | a visit of a strong reference defines it exactly when a static or a shared library has it, and a shared one only marks it |
| ArchiveResolve.LeftUndefined | Linker/linker.c:1039-1073 | what a pass leaves undefined of the strong references it began with is in no library, static or shared |
| ArchiveResolve.SecondIsReported | Linker/linker_symbols.c:279-282 | a member that defines a strongly defined name again is reported when it is read |
| ArchiveResolve.PassReports | Linker/linker.c:1048-1054 | the errors of a pass are those of the members it reads, each in the table as it is then |
| ArchiveResolve.MissesExactly | Linker/linker.c:1101-1109 | with true indexes, some link misses a name exactly when a library lists it and a listed member needs it strongly without defining it: a condition on the libraries alone; if members name each symbol once, then also some link in which nothing is defined twice |
| ArchiveResolve.MissingLinkIsClean | Linker/linker_symbols.c:279-282 | the link that misses the name reports no multiple definition |
| ArchiveResolve.Linker.ReadMember | Linker/linker.c:993-1012 | the table after all symbols of a member |
| ArchiveResolve.Linker.ResolveUndefined | Linker/linker.c:1039-1073 | the table after one visit |
| ArchiveResolve.Linker.TraverseTable | Linker/linker.c:1101-1106 | the table after one pass, whatever the order; no name is lost and only names of members are added |
| ArchiveResolve.Linker.ResolveUndefinedSymbols | Linker/linker.c:1101-1109 | the loop ends for all libraries; what it misses was a weak reference before the last pass and is wanted by a listed member that does not define it; without weak references no symbol left undefined is in any library, static or shared |
| GF2.RemainderUnique | 6502server/packet.c:47-60 | there is one remainder modulo x^16 + x^12 + x^5 + 1 |
| GF2.NoShortMultiple | 6502server/packet.c:47-60 | the generator divides no shifted nonzero polynomial of degree below 16 |
| Crc16.CodeRotates | 6502server/packet.c:51-55 | whatever the upper bits of the int hold (bytes are sign-extended into them), one rotation is the shift register's on the low 16 bits |
| Crc16.CRC16 | 6502server/packet.c:47-59 | the low 16 bits of the result are the CRC, for every length, negative ones included, and seed |
| Crc16.CrcIsRemainder | 6502server/packet.c:47-60 | the CRC is the remainder of the message times x^16, with the seed ahead of it, over GF(2) |
| Crc16.CrcInPieces | 6502server/packet.c:44-47 | the CRC of one piece seeds the next |
| Crc16.BurstDetected | 6502server/packet.c:47-60 | any nonzero error within 16 consecutive bits changes the CRC |
| Crc16.Packet.BuildPacket | 6502server/packet.c:65-69 | the length field wraps to a byte and the CRC is that of all the data |
| Crc16.Packet.ProcessPacket | 6502server/packet.c:71-80 | the length exactly when the CRC of the bytes the length covers is the one in the packet, otherwise -1 |
| Crc16.CheckedInData | 6502server/packet.c:66-74 | the bytes checked lie within the data built, and are all of it exactly up to 253 bytes |
| Crc16.LengthCovers | 6502server/packet.c:66-74 | the length is n + 2 in a byte, and covers n mod 256 bytes, or none when that needs more than the byte holds |
| Crc16.BuiltIsAccepted | 6502server/packet.c:65-80 | a packet of at most 253 bytes is accepted as built |
| Crc16.BuiltAreAcceptedExactly | 6502server/packet.c:65-80 | for every size n: all packets of n bytes are accepted as built exactly when n is at most 253 |
| Crc16.DamageIsRefused | 6502server/packet.c:71-80 | a built packet damaged within 16 consecutive data bits is refused |
| Crc16.LongPacketRefused | 6502server/packet.c:67 | for every size from 254 bytes on, a packet of that size that is refused as built |
| StackTrace.RecordsAre | Linker/linker_stacktrace.c:660-694 | what one pass over the sorted functions records: strictly increasing starts, nonempty ranges clipped at the next function, the largest of equal starts |
| StackTrace.RecordsDisjoint | Linker/linker_stacktrace.c:660-694 | the records are strictly increasing, nonempty and pairwise disjoint |
| StackTrace.LookupMeaning | Linker/linker_stacktrace.c:669-679 | an address is in a record exactly when the record's start is the greatest function start not above it and it lies within the size chosen there |
| StackTrace.EveryFunctionRecorded | Linker/linker_stacktrace.c:662-667 | every function whose range does not wrap has a record at its start, of a function at least as large |
| StackTrace.LinesAre | Linker/linker_stacktrace.c:704-721 | the line records are at strictly increasing addresses and every line of an address below 2^64 - 1 has one at its address |
| StackTable.AddNames | Linker/linker_stacktrace.c:454-465 | the room for all names, or SIZE_MAX when it would pass that |
| StackTable.SizeFits | Linker/linker_stacktrace.c:529-554 | the tests by subtraction and division refuse exactly the sizes beyond SIZE_MAX |
| StackTable.LinkerStacktracePrepare | Linker/linker_stacktrace.c:494-587 | the section has exactly the size computed, and is refused exactly when that is beyond SIZE_MAX, or beyond what a 16-bit target can address |
| StackTable.StacktraceInfo.SymbolEnd | Linker/linker_stacktrace.c:669-679 | the inner loop finds the end clipped at the next different start |
| StackTable.StacktraceInfo.WriteSymbols | Linker/linker_stacktrace.c:660-694 | the in-place pass writes exactly the function records and their names, each in its room |
| StackTable.StacktraceInfo.WriteSources | Linker/linker_stacktrace.c:696-702 | the names of the sources follow, and their offsets are where they are |
| StackTable.StacktraceInfo.WriteLines | Linker/linker_stacktrace.c:704-721 | exactly the line records, between the others |
| StackTable.StacktraceInfo.Finalize | Linker/linker_stacktrace.c:643-735 | sorting and filling never leave the prepared space and put header, records, names and lines in their places |
| StackTable.NamesFit | Linker/linker_stacktrace.c:690-693 | the names of the recorded functions fit in the room of all names |
| StackTable.StacktraceInfo.HeaderReads | Linker/linker_stacktrace.c:723-729 | a reader finds in the finished section the two counts and the two offsets, in that order |
| StackTable.StacktraceInfo.FunctionReads | Linker/linker_stacktrace.c:681-688 | and function record k after the header |
| StackTable.StacktraceInfo.NameReads | Linker/linker_stacktrace.c:690-692 | and where that record says, the function's name with a zero behind it |
| StackTable.SourceAt | Linker/linker_stacktrace.c:696-702 | the name of a source is at the offset its lines carry |
| StackTable.LineReadsBack | Linker/linker_stacktrace.c:713-719 | line record k holds the address, its source's name and the line |
| StackTable.RelativeReturns | Linker/linker_stacktrace.c:683-686 | adding the table's address to a stored address gives the address |
| StackTable.RecordAt | Linker/linker_stacktrace.c:681-688 | record k is found at its number |
| StackTable.RecordReadsBack | Linker/linker_stacktrace.c:630-641 | a reader finds in record k its range relative to the table and its name's offset, modulo the pointer size |

## Left out

- FloatArith.Add: NaNs are one class; which payload a NaN result carries is not stated (so too for the other float operations).
- SoftFloat.RoundPack: its four stages are separate methods here; the branch of `Mul` for formats of at most three fraction bits is not modelled, since neither format takes it.
- Machine6502.Interpreter.StepOneInstruction: models the twelve opcodes the relocator uses; what a device does when it answers in the I/O window, watchpoints, the debugger, tracing and cycle timing are not modelled.
- RelocRun.WrittenFileStarts: the DFS catalogue and the disc image around the file are not modelled; an image that reaches into the I/O window is covered as long as no device answers at its cells.
- ThreadRuns.StepKeeps: waiting on addresses, guest memory maps and their readers, thread-local blocks, exit codes and the heap lock are not modelled.
- ThreadRuns.ShutdownLeavesNothing: records that a failed create frees before they are published have no history here.
- ShutdownEnds.ShutdownFinishes: begins once the workers are quiet; two workers that join each other never end, and then shutdown waits for them, as in the source.
- ThreadTable.Process.EndJoin: the host join and the copying of the exit code to guest memory are not modelled; a failed copy ends the join in the same section.
- ExclusiveInterpreter.Interpreter.Fail: the destructor of a worker's thread-local data, guest code that a failing worker runs before it goes on, and its heap lock are not modelled; host memory is one block that can be read and written.
- ExclusiveMonitor.ReservationMeaning: host fences, plain loads, and memory written by host system calls are not events of the model.
- GnuHash.FindSymbol: the lookup in this repository reads 64-bit filters; for 32-bit targets it is stated for a lookup that reads 32-bit words.
- GnuHash.SortDynamicSymbolTable: the library's qsort is any sort by bucket; symbols of one bucket may come in any order.
- DynamicRelocations.LoaderAgrees: for the two formats whose entries carry their addends, since the third keeps them in the words; symbol lookup is a parameter.
- DynamicRelocations.BuildDynamicRelocations: PLT relocations and their section are left out, being one plain loop.
- ScriptParser.Parser.ParseExpression: begins from tokens; lexing and the MEMORY and SECTIONS statements are left out.
- SectionGC.Collector.CollectSections: the switch that turns collection off and the printing of removed sections are left out.
- Placement.Segment.AssignSegmentSectionAddresses: the choice of a region for a group and the sort of groups by region are inputs; TLS groups, file offsets, segment bounds and wrap-around of addresses are not modelled.
- Placement.InputsDisjoint: about input sections; the fill at the end of a fixed region is not charged to the region by the source either, and is kept apart.
- SymbolTable.ReadDeclarations: local symbols, corrupt names and the vectors of common symbols are left out.
- ArchiveResolve.Linker.ResolveUndefinedSymbols: the order in which the hash table is traversed is a parameter; every member of an archive can be read.
- Crc16.BurstDetected: is about errors in the data, not in the CRC or length field.
- StackTable.LinkerStacktracePrepare: the DWARF line program, LEB128 numbers and the finding of a line's section are inputs.
- StackTable.StacktraceInfo.Finalize: functions of equal address and size are sorted in any order, where the source goes on to compare their names.
- Per-architecture relocation, ELF reading and writing, archive reading, hash tables and vectors: sequences and maps stand for them.
- Debuggers, disassemblers, option parsing and drivers: user interface.
- All other AArch64 and ARM instructions: finite and mostly of one branch.
