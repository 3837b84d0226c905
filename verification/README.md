# Verified models of vardoger's core

vardoger runs Android ARM64 code in an emulator, recovers protected methods and writes
them back into DEX files. This project models the parts of it that carry state or
transform data, and proves what they keep, undo or preserve, for all inputs and all
runs.

Each part has a value-level model (`*Model.dfy` and its neighbours), on which the
properties are proved, and, where the source works by updating fields or looping, a class
or methods proved to do exactly what the model says (`Scheduler.dfy`, `Memory.dfy`,
`Vfs.dfy`, `Dex.dfy`, `Devirt.dfy`, the methods in the ELF, GDB and Dalvik files).

1. **From trace to running code** (`Devirt*`, `Dalvik*`, `Dex*`, `Uleb128`, `LebValues`). Trace records
   become Dalvik instructions, the assembler turns them into code units, the rebuilder
   puts them into a DEX, the reader finds them there and the interpreter runs them.
   `DevirtRun.RebuiltMethodRuns` joins all of these: the method in the rebuilt file does,
   step by step, what the recovered instruction list does. `DevirtTrace` gives the records
   of a trace a meaning of their own, and `DevirtFollows.RebuiltFollowsTrace` says that
   calling the rebuilt method answers what the trace answers. The assembler keeps this
   promise only while branch distances fit their fields;
   `DalvikSim.TakenBranchIff` says so exactly, and `DevirtRun.ShortBodiesFit` with
   `DevirtLimits.FarTrace` gives the length up to which it always holds.
2. **Cooperative scheduler** (`Scheduler*`). Runs are sequences of steps: a pick, calls
   the guest makes, the end of a slice. Invariants, joins, mutual exclusion and bounded
   waiting are stated over every run.
3. **Guest memory** (`Memory*`). The region list, the engine's pages and the allocators
   over every history of requests.
4. **Relocations** (`Elf*`, `Sleb128`). The packed forms have the effect of the plain one.
5. **Virtual file system** (`Vfs*`). Descriptors, the write observer, lines, directories.
6. **Debugger protocol** (`Gdb*`). Packets, registers, binary writes, chunked transfers.

Beside the models stand the formats and the calls as a user of them sees them, stated
without the functions that compute them: the Dalvik opcodes byte by byte (`DalvikBytes`,
`DalvikArith`, `DalvikFormats`), the DEX items (`DexFormat`), relocation entries
(`ElfMeaning`), LEB128 numbers (`LebValues`), protocol text (`GdbWire`), thread calls
(`SchedulerCalls`), mappings (`MemoryCalls`) and file contents (`VfsData`).

Where a promise is false in a corner of the code, the condition under which it holds is
proved, and a lemma gives a failing input or run that the code can meet:

| promise | holds | fails in |
|---|---|---|
| a recovered branch is followed | if and only if its distance fits (`DalvikSim.TakenBranchIff`); always up to 43 instructions | `DevirtLimits.FarTrace`, 44 records |
| a recovered pool index is used | if and only if it has sixteen bits (`DevirtLimits.PoolSurvivesIff`) | `DevirtLimits.BigPoolAsksForZero` |
| a replaced payload was observed | if and only if it was reported before it was replaced (`VfsObserver.ClobberedSeenIff`) | `VfsObserver.PayloadsEscape` |
| a mutex excludes | if and only if no worker locks it while thread 0 is inside (`SchedulerExclusion.ExclusionIff`) | `SchedulerMutex.MainLockIsNotExclusive` |
| a heap block exists | if and only if the cursor plus the length does not wrap around 64 bits, or wraps to a sum that is refused (`MemoryWrap.HeapKeepsHistoryIff`) | `MemoryWrap.BlocksOverlap`, three requests |
| a Java block exists | if and only if the same holds of its cursor (`MemoryWrap.JavaKeepsHistoryIff`) | a length that wraps to a sum inside the region |
| a fixed mapping exists | if and only if its end does not wrap into its own first page while that page is free (`MemoryWrap.FixedKeepsHistoryIff`) | a length of nearly 2^64 |
| n + 2k picks are enough | when no preference is pending at the start; one more is enough otherwise (`SchedulerFairness.BoundedWaiting`) | `SchedulerFairness.PendingPreferenceCostsATurn`, `SchedulerFairness.BoundIsMet` |

Two more promises have an exact condition that names the failing inputs by itself: a
successful gets makes progress (`VfsLines.ProgressIff`), and a payload passes the packet
layer (`GdbPacket.TransparentIff`).

Clocks, the CPU, hash functions and the host behind the interpreter are parameters: every
theorem holds for any of them. So is the arithmetic of the interpreter in the simulation;
`DalvikArith` gives it the values the source computes.

## Model

| member | source | states |
|---|---|---|
| DevirtRun.RebuiltMethodRuns | include/vardoger/dex/devirt_rebuild.hpp:1347-1411 | in the rebuilt DEX the reader finds each recovered native method without its native flag and with a valid code item; if the branch distances of the recovered body fit, then for any arguments, host and number of steps the interpreter on it does what the recovered instruction list, its pool indices cut to sixteen bits, does, never leaves the frame, and the whole call answers what the list answers |
| DevirtFollows.RebuiltFollowsTrace | include/vardoger/dex/devirt_rebuild.hpp:1347-1411 | in the rebuilt DEX a recovered native method, found again without its native flag, answers for every host, arithmetic and argument list what running the records of its trace one by one answers, if the branch distances of its body fit |
| DevirtFollows.CallFollowsTrace | include/vardoger/dex/devirt_rebuild.hpp:1395-1401 | the same for a recovered code item anywhere in a file: a call answers what the trace answers, from a frame of at least sixteen registers with the arguments in the last ones |
| DevirtTrace.BodyFollowsTrace | include/vardoger/dex/devirt_rebuild.hpp:446-568 | every trace, read by itself as a program of records with registers, a pending result and a host, and the body recovered from it do the same for any number of steps: arithmetic with its operation and operand order, moves, constants, calls, tests, jumps and returns |
| DevirtTrace.BodyFollows | include/vardoger/dex/devirt_rebuild.hpp:446-568 | one turn of the recovered body is the action of one record |
| DevirtTrace.RecordCarried | include/vardoger/dex/devirt_rebuild.hpp:1128-1191 | the instruction of every record carries out the action its family, operand nibbles and target stand for |
| DevirtFollows.KeptOfParts | include/vardoger/dex/devirt_rebuild.hpp:1128-1135 | what is kept of two stretches of a trace is what is kept of each, in order |
| DevirtFollows.KeptOfOne | include/vardoger/dex/devirt_rebuild.hpp:1128-1135 | a single record is dropped if and only if its opcode is 0xffff |
| DevirtRun.FrameIsEnough | include/vardoger/dex/devirt_rebuild.hpp:1395-1401 | for every trace and family table whose branch distances fit, sixteen registers are enough for any run of any length, and the program counter is always the start of an instruction or the end |
| DevirtRun.ShortBodiesFit | include/vardoger/dex/devirt_rebuild.hpp:369-395 | a body of at most 43 instructions has only branches that fit |
| DevirtLimits.FarTrace | include/vardoger/dex/devirt_rebuild.hpp:330-333 | a trace of 44 records whose last jump does not fit: the interpreter makes the 43 calls once and returns, where the instruction list starts over |
| DevirtRun.StubReturnsZero | include/vardoger/dex/devirt_rebuild.hpp:1206-1217 | the body given to a method without a trace returns zero for every return type, argument list and host |
| DevirtSafety.RecoveredOk | include/vardoger/dex/devirt_rebuild.hpp:446-568 | every instruction of every recovered body names registers 0 to 15 only, and every branch in it targets another instruction of the same body |
| DevirtSafety.VmCodeOk | include/vardoger/dex/devirt_rebuild.hpp:1170-1191 | after target repair a test always has a target inside the method other than itself, and so has every goto that still has one |
| DevirtSafety.NormAssembles | include/vardoger/dex/devirt_rebuild.hpp:344-355 | cutting pool indices to sixteen bits does not change the assembled code |
| DevirtLimits.PoolSurvivesIff | include/vardoger/dex/devirt_rebuild.hpp:1153-1156 | for every trace, the interpreter understands an instruction that uses the pool as it was recovered if and only if the index in its record is below 65536 |
| DevirtLimits.PoolReadBackIff | include/vardoger/dex/devirt_rebuild.hpp:290-355 | of the emitted instructions that use the pool, decoding the encoded units gives the meaning back if and only if the pool index has sixteen bits |
| DevirtLimits.BigPoolAsksForZero | include/vardoger/dex/devirt_rebuild.hpp:344-355 | a trace of one call through entry 65536: the instruction list asks the host for method 65536, the interpreter for method 0 |
| Devirt.DecodeMethod | include/vardoger/dex/devirt_rebuild.hpp:1128-1193 | the decoding loops, with repair in place, give for each kept record its decoding with the target repaired |
| Devirt.RepairOne | include/vardoger/dex/devirt_rebuild.hpp:1171-1191 | one pass of the repair loop replaces one instruction by its repaired form and leaves the rest |
| Devirt.Recover | include/vardoger/dex/devirt_rebuild.hpp:1349-1355 | decoding, translation and assembly in sequence give the assembled body of the trace, of which `DevirtTrace.BodyFollowsTrace` says that it does what the trace does |
| DalvikSim.AssembledRuns | include/vardoger/dex/devirt_rebuild.hpp:369-407 | simulation: for every program that fits its encoding, every host, start and number of steps, the interpreter on the assembled bytes and the machine on the instruction list stay together and end alike, with the program counter at the current instruction's offset |
| DalvikSim.StepSim | core/dex/dalvik.cpp:76-230 | one instruction of the list is one turn of the interpreter, faults included |
| DalvikSim.TakenBranchIff | include/vardoger/dex/devirt_rebuild.hpp:320-343 | a taken branch leads both machines to the same place if and only if its distance fits the format |
| DalvikSim.BranchLandsIff | include/vardoger/dex/devirt_rebuild.hpp:320-343 | the distance the interpreter reads back is the true one if and only if it fits: 8 bits for goto, 16 for goto/16 and tests, 32 for goto/32 |
| DalvikSim.FarGotoIsLost | include/vardoger/dex/devirt_rebuild.hpp:330-333 | a short goto over 128 to 255 units at the start of any program makes the interpreter return two turns later, where the list goes on at the target |
| DalvikSim.Understood | include/vardoger/dex/devirt_rebuild.hpp:255-365 | for each of the twenty formats, what the interpreter decodes from the encoded units is what the mnemonic means, when the operands fit their fields |
| DalvikSim.Fetched | core/dex/dalvik.cpp:76-80 | the bytes the interpreter fetches at an instruction's offset are that instruction's units |
| DalvikIsa.SextIff | core/dex/dalvik.cpp:113-116 | truncation to a signed width and extension again is the identity exactly on the values of that width |
| DalvikVm.Dalvik.Run | core/dex/dalvik.cpp:21-603 | the loop gives the value of the step function iterated at most 200000 times, zero at the depth limit or without code, and restores the depth on every way out; what a step does is stated opcode by opcode in `DalvikBytes` |
| DalvikBytes.TestTwo | core/dex/dalvik.cpp:197-230 | on the bytes of if-eq to if-le the machine goes to the target if and only if the plain signed comparison of the two registers holds, a zero distance going on, otherwise to the next instruction; nothing else changes |
| DalvikBytes.TestZero | core/dex/dalvik.cpp:164-196 | the same for the six comparisons of a register with zero |
| DalvikBytes.Jump | core/dex/dalvik.cpp:150-163 | the three gotos move by their signed distance; a zero distance ends the method for the short form only |
| DalvikBytes.MoveShort | core/dex/dalvik.cpp:87-98 | the nibble moves copy the register in the high nibble to the one in the low nibble |
| DalvikBytes.MoveFrom16 | core/dex/dalvik.cpp:231-236 | the destination is a byte, the source a half-word |
| DalvikBytes.Move16 | core/dex/dalvik.cpp:237-243 | destination and source are half-words |
| DalvikBytes.MoveResult | core/dex/dalvik.cpp:99-104 | the pending result goes to the register |
| DalvikBytes.ConstFour | core/dex/dalvik.cpp:113-118 | the high nibble, sign-extended |
| DalvikBytes.ConstSixteen | core/dex/dalvik.cpp:119-130 | sign-extended half-words, and shifted by 16 and 48 for the high forms |
| DalvikBytes.ConstThirtyTwo | core/dex/dalvik.cpp:123-126 | a sign-extended word |
| DalvikBytes.ConstWide | core/dex/dalvik.cpp:252-258 | eight bytes, the lowest first |
| DalvikBytes.FixedValue | core/dex/dalvik.cpp:305-313 | const-class, the comparisons of wide numbers and instance-of store fixed values |
| DalvikBytes.Skips | core/dex/dalvik.cpp:284-304 | the opcodes that do nothing, with their widths |
| DalvikBytes.Leaves | core/dex/dalvik.cpp:105-112 | return-void answers zero, the other returns their register |
| DalvikBytes.GivesUp | core/dex/dalvik.cpp:594-598 | throw and unknown opcodes answer the pending result |
| DalvikBytes.RunsOut | core/dex/dalvik.cpp:76-80 | behind the last unit the pending result is the answer |
| DalvikBytes.MakesObject | core/dex/dalvik.cpp:131-149 | const-string and new-instance ask the host with the index and store the answer |
| DalvikBytes.MakesStringJumbo | core/dex/dalvik.cpp:135-138 | the same with a four-byte index |
| DalvikBytes.LengthOfArray | core/dex/dalvik.cpp:272-277 | asks with the array and stores the low 32 bits of the answer |
| DalvikBytes.MakesArray | core/dex/dalvik.cpp:278-283 | asks with the type and the length cut to 32 signed bits |
| DalvikBytes.ReadsArray | core/dex/dalvik.cpp:314-326 | asks with array and index, the index cut to 32 signed bits |
| DalvikBytes.WritesArray | core/dex/dalvik.cpp:327-340 | asks with array, index and value |
| DalvikBytes.InstanceField | core/dex/dalvik.cpp:362-381 | reads and writes a field of the object in the high nibble |
| DalvikBytes.StaticField | core/dex/dalvik.cpp:341-361 | reads and writes a field by its index alone |
| DalvikBytes.Invokes | core/dex/dalvik.cpp:382-404 | a call takes as many argument registers as its count says, in nibble order, and leaves the answer pending; more than five fault |
| DalvikBytes.InvokesRange | core/dex/dalvik.cpp:405-423 | a range call takes consecutive registers as far as there are any |
| DalvikBytes.UnaryOps | core/dex/dalvik.cpp:424-474 | the register in the low nibble gets the operation applied to the one in the high nibble |
| DalvikBytes.BinaryOps | core/dex/dalvik.cpp:475-516 | the operation is the place of the opcode in its group, the first source its left operand |
| DalvikBytes.BinaryInPlace | core/dex/dalvik.cpp:517-556 | the same with the destination as left operand |
| DalvikBytes.BinaryOnBytes | core/dex/dalvik.cpp:475-516 | with the arithmetic of the interpreter the register gets the result the opcode names |
| DalvikBytes.Literal16 | core/dex/dalvik.cpp:557-572 | the register is cut to 32 signed bits and combined with the literal, reversed for the second opcode |
| DalvikBytes.Literal8 | core/dex/dalvik.cpp:573-593 | the same with a signed byte |
| DalvikBytes.ArgumentsArrive | core/dex/dalvik.cpp:24-31 | argument i is in register registers - ins + i, every other register is zero and nothing is pending |
| DalvikBytes.CallCutOff | core/dex/dalvik.cpp:76-77 | a call runs for at most 200000 turns; a method still running then answers its pending result |
| DalvikArith.BinaryMeans | core/dex/dalvik.cpp:38-63 | the eleven operations on 64-bit slots are sum, difference and product modulo 2^64, quotient and remainder rounded toward zero with zero for a zero divisor, the bitwise and, or, xor, and shifts by the low six bits |
| DalvikArith.UnaryMeans | core/dex/dalvik.cpp:424-474 | negation, complement and the narrowing conversions are what their names say, the floating ones copy |
| DalvikArith.QuotientTruncates | core/dex/dalvik.cpp:45-48 | quotient and remainder recompose and the remainder has the sign of the dividend |
| DalvikVm.Settled | core/dex/dalvik.cpp:76-77 | a finished run stays finished under any larger step limit |
| DalvikAsm.AssembleProgram | include/vardoger/dex/devirt_rebuild.hpp:369-407 | the three passes (offsets, bytes, units) give each instruction's encoding in order, each branch resolved to its target's offset |
| DalvikAsm.OffsetTable | include/vardoger/dex/devirt_rebuild.hpp:372-378 | the table holds for each instruction the sum of the units before it |
| DalvikAsm.OffsetsIncrease | include/vardoger/dex/devirt_rebuild.hpp:209-222 | later instructions start behind the end of earlier ones |
| DalvikFormats.EncodedAsDrawn | include/vardoger/dex/devirt_rebuild.hpp:255-365 | every instruction whose operands fit is encoded byte by byte as its format is drawn, all twenty formats |
| DexCode.MakeCodeItem | include/vardoger/dex/rebuilder.hpp:49-67 | header fields copied into place and units pushed byte by byte give the code item of the format |
| DexCode.ItemReadsBack | core/dex/dex_file.cpp:30-42 | the reader finds in a written code item the same sizes and the same units, and calls it valid |
| DexReadBack.ReadBack | include/vardoger/dex/rebuilder.hpp:71-147 | for every well-formed DEX and every set of code whose result stays below 4 GiB, the reader accepts the rebuilt file and finds the same classes and methods in order, except that each recovered native method has its flag cleared and its code offset set; a class is repointed exactly when one of its methods was recovered |
| DexReadBack.CodeInPlace | include/vardoger/dex/rebuilder.hpp:90-97 | every supplied code item is in the output byte for byte, four-byte aligned, behind the original and at the offset its method carries |
| DexReadBack.LeftAloneIff | include/vardoger/dex/rebuilder.hpp:122-139 | a class data block counts no hit if and only if none of its methods is native and supplied with code |
| DexFormat.MethodsTold | include/vardoger/dex/rebuilder.hpp:101-147 | in the rebuilt file every method has its index; a method with access bit 0x100 and supplied code has lost that bit and points, four-byte aligned, to its code byte for byte; any other is as it was; class, access and superclass words too |
| DexFormat.FieldsTold | include/vardoger/dex/rebuilder.hpp:105-121 | counts and fields of every class are listed as before, wherever its data is now |
| DexFormat.CountsTold | include/vardoger/dex/rebuilder.hpp:125-147 | the counters are the number of native methods with supplied code and the number of classes that have one |
| DexReadBack.SizesTold | include/vardoger/dex/rebuilder.hpp:148-153 | for every accepted input whose result is below 4 GiB the file-size word is the length of the file, and data size plus data offset is that length modulo 2^32 |
| DexFormat.HashesTold | include/vardoger/dex/rebuilder.hpp:154-158 | the signature is over everything from byte 0x20 of the finished file and the checksum over everything from byte 0x0c |
| DexRebuild.BuildVerifies | include/vardoger/dex/devirt_rebuild.hpp:1436-1447 | for any hash and checksum functions the output passes the signature and checksum test made on it afterwards |
| DexRebuild.BuildFrame | include/vardoger/dex/rebuilder.hpp:140-158 | for every accepted input, of the original bytes only the size, signature and checksum fields of the header and the data offsets of class definitions in which the loop recovers a method can change |
| DexReadBack.OnlyRecoveredClassesMove | include/vardoger/dex/rebuilder.hpp:140-158 | for a well-formed DEX, a changed original byte outside the header fields is in the data offset of a class that has a recovered method |
| DexNames.NamesReadBack | core/dex/dex_file.cpp:79-95 | for a DEX whose tables and strings lie outside the header fields and the class definitions, every class descriptor, superclass and method name reads the same in the rebuilt file |
| DexNames.BuildExtends | include/vardoger/dex/rebuilder.hpp:140-158 | every original byte outside the header fields and the class definitions is in the rebuilt file |
| DexFormat.MethodFound | core/dex/dex_file.cpp:44-60 | a method whose eight-byte entry, type, prototype and strings stand where the format puts them is found with that class, name and short form |
| DexFormat.StringFound | core/dex/dex_file.cpp:79-90 | a string entry that leads to a length number, a text and a zero is found as that text |
| DexFormat.TypeFound | core/dex/dex_file.cpp:92-95 | a type entry is found as its string |
| DexFormat.NothingFound | core/dex/dex_file.cpp:79-95 | an index beyond its table is found as nothing |
| DexFormat.AcceptedIff | core/dex/dex_file.cpp:170-192 | a file is taken for a DEX if and only if it has a header with the magic text and its class definitions end inside it; nothing is built from any other |
| DexFormat.DataFound | core/dex/dex_file.cpp:118-168 | class data that lists any fields and any methods, indices by difference, is found with those methods |
| DexFormat.DefLayout | core/dex/dex_file.cpp:186-205 | the words of a class definition are read from their places in its 32 bytes |
| DexFormat.ItemLayout | include/vardoger/dex/rebuilder.hpp:49-67 | a code item has its five fields and its units in their places |
| DexFormat.WordBytes | core/dex/dex_file.cpp:8-15 | words are read lowest byte first, zero outside the file |
| DexObjects.DexRebuilder.Build | include/vardoger/dex/rebuilder.hpp:71-159 | the in-place rebuild gives the modelled file, empty for what is no DEX, and counts the patched methods and classes; what is in the file is stated by `DexFormat.MethodsTold`, `DexFormat.FieldsTold`, `DexFormat.CountsTold`, `DexFormat.HashesTold` and `DexReadBack.SizesTold` |
| DexObjects.DexRebuilder.RelinkClass | include/vardoger/dex/rebuilder.hpp:101-147 | one class definition is repointed to an aligned rewritten block if a method was hit, otherwise nothing changes |
| DexObjects.DexRebuilder.PlaceCodes | include/vardoger/dex/rebuilder.hpp:86-97 | code items are appended in key order, each aligned, with their offsets recorded |
| DexObjects.RebuildClassData | include/vardoger/dex/rebuilder.hpp:105-139 | the rewritten block holds the same numbers in order with the hit methods' flags and offsets replaced, and the hits are counted |
| DexObjects.DexFile.Parse | core/dex/dex_file.cpp:170-209 | parsing succeeds exactly on accepted images and then lists every class definition as read from the image |
| DexObjects.ParseClassData | core/dex/dex_file.cpp:150-168 | direct and virtual methods are read behind the skipped fields, indices accumulated from zero in each group |
| DexObjects.DexFile.StringAt | core/dex/dex_file.cpp:79-90 | the entry, the skipped length and the bytes up to a zero give the modelled string, empty out of range |
| DexObjects.DexFile.MethodAt | core/dex/dex_file.cpp:44-60 | class, name and prototype of a method by index, empty out of range |
| Uleb128.ReadWriteN | include/vardoger/dex/rebuilder.hpp:185-192 | any list of 32-bit numbers written one after the other reads back, ending where the bytes end |
| Uleb128.ReadersAgreeN | core/dex/dex_file.cpp:17-27 | on well-formed numbers the parser's bounded reader and the rebuilder's unbounded one agree in values and positions |
| Uleb128.WriteUleb | include/vardoger/dex/rebuilder.hpp:185-192 | the loop appends the shortest encoding |
| LebValues.UnsignedValue | core/dex/dex_file.cpp:17-27 | a number of up to five bytes is the value of its seven-bit digits cut to 32 bits, for both readers |
| SchedulerInvariant.StepKeepsInv | core/engine/scheduler.cpp:116-247 | every enabled step keeps: ids are exactly 0 to next-1, blocked agrees with a block reason, a join waits for an existing unfinished thread, the current thread exists and its state agrees with why the slice stops |
| SchedulerInvariant.RunKeepsInv | core/engine/scheduler.cpp:116-247 | the invariant holds in every state of every run |
| SchedulerInvariant.PickNextSpec | core/engine/scheduler.cpp:77-101 | nothing is picked if and only if no thread is runnable; what is picked is runnable; only the preference and the cursor change |
| SchedulerCalls.SpawnCreates | core/engine/scheduler.cpp:249-282 | a spawn adds one runnable thread under the next id and stores the id; nobody else changes; in hybrid mode the caller makes way and the new thread is preferred |
| SchedulerCalls.CloneCreates | core/engine/scheduler.cpp:284-319 | a clone does the same and stores the id at both addresses |
| SchedulerCalls.WorkerRunsFirst | core/engine/scheduler.cpp:77-101 | over every run in hybrid mode, after a spawn or clone the new thread is the next one picked |
| SchedulerCalls.RunBegins | core/engine/scheduler.cpp:116-135 | a run begins with the main thread alone; memory, mode and a pending preference stay |
| SchedulerCalls.PlainCalls | core/engine/scheduler.cpp:356-361 | a yield only asks to be put off; a store of the guest changes one word and the mode switch one flag |
| SchedulerCalls.SliceEnds | core/engine/scheduler.cpp:190-247 | how a slice ends, by what stopped it: a blocked thread stays blocked, an exit finishes the thread and with thread 0 the run, anything else leaves it runnable |
| SchedulerJoin.FinishedIsFinal | core/engine/scheduler.cpp:206-220 | over every run a finished thread keeps its record for ever |
| SchedulerJoin.JoinDeliversOverRuns | core/engine/scheduler.cpp:103-114 | over every run a joiner stays as it is until its target exits, at which step it becomes runnable with the exit value stored where its record says; that this is where its own call asked is `SchedulerCalls.JoinStores` |
| SchedulerJoin.ExitDelivers | core/engine/scheduler.cpp:206-220 | the exit step of a target wakes each joiner and stores the exit value |
| SchedulerJoin.LateJoinAgrees | core/engine/scheduler.cpp:335-354 | a join after the exit does not block and stores the same value |
| SchedulerCalls.JoinStores | core/engine/scheduler.cpp:335-354 | over every run in which a thread joins an unfinished target, with a nonzero address, at whatever later step the target exits the exit value is stored at the address that very join was given, and the caller becomes runnable |
| SchedulerCalls.JoinBlocks | core/engine/scheduler.cpp:335-354 | a join on an unfinished thread blocks the caller with the address it was given, and nobody else changes |
| SchedulerCalls.JoinUnknown | core/engine/scheduler.cpp:335-354 | a join on an unknown thread stores zero |
| SchedulerCalls.ExitFrame | core/engine/scheduler.cpp:103-114 | an exit writes nowhere but where a joiner asked for it; address 0 asks for nothing |
| SchedulerJoin.JoinTargetsLive | core/engine/scheduler.cpp:335-354 | in every state of every run a blocked joiner waits for an existing unfinished thread, and blocked agrees with a reason |
| SchedulerMutex.MutexSafety | core/engine/scheduler.cpp:363-393 | over every run in which only workers lock the mutex, only a worker inside unlocks it, nobody inside relocks it and no condition uses it, at most one worker is inside, it is the recorded owner and not waiting, and a waiter implies an owner inside |
| SchedulerExclusion.ExclusionIff | core/engine/scheduler.cpp:363-393 | over every run from a free mutex in which nobody inside relocks it, only a thread inside unlocks it and no condition uses it, at most one thread is ever inside if and only if no worker locks it while the main thread is inside |
| SchedulerExclusion.WorkerOvertakes | core/engine/scheduler.cpp:363-374 | however the main thread came inside, by its own lock or by hand-off, the next lock by a worker succeeds and both are inside |
| SchedulerMutex.UnlockHandsOff | core/engine/scheduler.cpp:375-393 | an unlock makes the first waiter the runnable owner |
| SchedulerCalls.HeldLockWaits | core/engine/scheduler.cpp:363-374 | a lock on a mutex with a recorded worker as owner blocks the caller on it |
| SchedulerCalls.FreeLockTaken | core/engine/scheduler.cpp:363-374 | a lock on a mutex without owner or with owner 0 records the caller and changes no thread |
| SchedulerCalls.UnlockReleases | core/engine/scheduler.cpp:375-393 | an unlock gives the mutex to the lowest-numbered thread waiting for it and makes it runnable, or frees it; nobody else changes |
| SchedulerCalls.WaitBlocks | core/engine/scheduler.cpp:395-402 | a wait releases the mutex and blocks the caller on the condition |
| SchedulerCalls.SignalWakes | core/engine/scheduler.cpp:404-417 | a signal wakes the lowest-numbered waiter of the condition, if there is one, and nobody else |
| SchedulerCalls.BroadcastWakes | core/engine/scheduler.cpp:404-417 | a broadcast wakes every waiter of the condition and nobody else |
| SchedulerCalls.OnlySignalsWake | core/engine/scheduler.cpp:395-417 | over every run a thread waiting for a condition stays as it is until a signal or broadcast of that condition |
| SchedulerMutex.MainLockAdmitsWorker | core/engine/scheduler.cpp:363-374 | over every run, fair or not: once the main thread has locked a free mutex, the next use of it, if a lock by a worker, succeeds and both are inside |
| SchedulerMutex.MainLockIsNotExclusive | core/engine/scheduler.cpp:363-374 | such a run exists from the start state: the main thread and a worker are inside the same mutex |
| SchedulerFairness.BoundedWaiting | core/engine/scheduler.cpp:77-101 | a runnable thread is picked within n + 2k picks, one more if a preference is pending at the start, n being the threads then and k the spawns since |
| SchedulerFairness.WaitingWithinDistance | core/engine/scheduler.cpp:77-101 | a runnable thread has been picked after more picks than the cursor is away from it, plus one for a pending preference and two for each spawn |
| SchedulerFairness.WaitingIsPaidFor | core/engine/scheduler.cpp:77-101 | while a runnable thread is passed over it stays runnable, and every pick lowers a bounded distance that only spawns raise |
| SchedulerFairness.PendingPreferenceCostsATurn | core/engine/scheduler.cpp:80-86 | a run from the start state that reaches three threads with a preference pending and then passes over the main thread in three picks without spawns, which is exactly the sharp bound |
| SchedulerFairness.BoundIsMet | core/engine/scheduler.cpp:77-101 | for every number of threads, cursor position, preferred thread and other thread, some run passes the other thread over exactly as often as the sharp bound allows |
| SchedulerClass.Scheduler.PickNext | core/engine/scheduler.cpp:77-101 | the preference, then the round-robin scan, on the object's own fields, do what the model's pick does |
| SchedulerClass.Scheduler.WakeJoiners | core/engine/scheduler.cpp:103-114 | the loop over the thread map wakes exactly the joiners of the thread and writes its value to each of their outputs |
| SchedulerClass.Scheduler.Spawn | core/engine/scheduler.cpp:249-282 | a new runnable thread with the next id, preferred in hybrid mode |
| SchedulerClass.Scheduler.SpawnClone | core/engine/scheduler.cpp:284-319 | as spawn, with both id pointers written; zero and no change when not running |
| SchedulerClass.Scheduler.DoJoin | core/engine/scheduler.cpp:335-354 | value at once for a finished or unknown thread, blocked with the address of the call otherwise (`SchedulerCalls.JoinBlocks`, `SchedulerCalls.JoinUnknown`, `SchedulerJoin.LateJoinAgrees`) |
| SchedulerClass.Scheduler.MutexLock | core/engine/scheduler.cpp:363-374 | taken when no owner or owner 0 is recorded, blocked otherwise, the owner itself included |
| SchedulerClass.Scheduler.MutexUnlock | core/engine/scheduler.cpp:375-393 | handed to the lowest-numbered waiter, free without one |
| SchedulerClass.Scheduler.CondWait | core/engine/scheduler.cpp:395-402 | unlocks the mutex and blocks on the condition |
| SchedulerClass.Scheduler.CondWake | core/engine/scheduler.cpp:404-417 | wakes the first or all waiters of the condition and nothing else |
| SchedulerClass.Scheduler.Run | core/engine/scheduler.cpp:116-247 | the loop walks through a run of the state machine from its start; it returns the main thread's value only when that thread has finished and gives up only when nothing is runnable |
| MemoryInvariant.EngineAgrees | core/engine/memory.cpp:43-58 | the engine accepts a mapping if and only if it is non-empty, below the end of the address space and free in the region list |
| MemoryInvariant.AddRegionSpec | core/engine/memory.cpp:36-41 | tracking a new range succeeds exactly when it is free, and keeps regions sorted, page-aligned, disjoint and equal to the engine's pages |
| MemoryInvariant.ProbeIsFirstFit | core/engine/memory.cpp:70-80 | with enough tries the search ends at the least free address from its start |
| MemoryInvariant.MmapAllocIsFirstFit | core/engine/memory.cpp:60-85 | an address returned is the least one from the cursor where the size fits; a failure changes nothing |
| MemoryInvariant.MmapAllocSucceeds | core/engine/memory.cpp:60-85 | with at most 4096 regions the search never runs out of tries: it fails only for lack of address space |
| MemoryProtect.ProtectSpec | core/engine/memory.cpp:207-237 | on both paths every page in range ends up mapped with the protection (read-write for holes asked to have none), no page outside changes, and the invariant holds |
| MemoryHistory.AllocationHistory | core/engine/memory.cpp:60-205 | over every sequence of requests in which no heap, Java or fixed request makes a sum that leaves 64 bits, the blocks returned by the heap, the Java region, anonymous and fixed mappings, big blocks and libraries are non-empty, aligned as asked (to a page for mappings), inside tracked regions and pairwise disjoint, heap blocks of one arena at least 16 bytes apart |
| MemoryHistory.HeapNullIffExtensionFails | core/engine/memory.cpp:138-190 | where the sums fit 64 bits, a heap block is a multiple of the alignment, and for alignments up to a page null is returned if and only if the arena is full and its extension could not be mapped |
| MemoryHistory.ServeStep | core/engine/memory.cpp:60-237 | every request, protect included, keeps the history invariant, a heap, Java or fixed request if its sums fit 64 bits |
| MemoryHistory.HeapFits | core/engine/memory.cpp:138-190 | where no sum leaves 64 bits, the machine arithmetic does what the same steps do in mathematical integers |
| MemoryCalls.FixedMaps | core/engine/memory.cpp:43-58 | a fixed mapping works if and only if none of its pages is mapped, and then maps exactly the pages from that of its first byte to that of its last, with the protection and kind asked for |
| MemoryCalls.LibMaps | core/engine/memory.cpp:99-109 | a library is mapped at the library cursor, which moves one unmapped page beyond it |
| MemoryCalls.MmapMaps | core/engine/memory.cpp:60-85 | an anonymous mapping maps whole pages at the least free address from the cursor, which moves behind it |
| MemoryCalls.BigMaps | core/engine/memory.cpp:87-97 | a big block is mapped at its own cursor while it ends at or below 0x70000000, and like any mapping beyond |
| MemoryCalls.HeapMaps | core/engine/memory.cpp:138-146 | the first request maps 128 MiB at 0x40000000, readable and writable |
| MemoryCalls.JavaMaps | core/engine/memory.cpp:192-199 | the first request maps 64 MiB at 0x30000000, readable and writable |
| MemoryCalls.HeapBumps | core/engine/memory.cpp:147-186 | a block is at the first multiple of the alignment from the cursor, which moves behind its length rounded up to 32 and a gap of 16 |
| MemoryCalls.JavaBumps | core/engine/memory.cpp:200-204 | a Java block is at the first multiple of the alignment from the cursor, which moves right behind it, or there is an error |
| MemoryCalls.RoundUpIsLeast | core/engine/memory.cpp:147-149 | the rounded address is the least multiple not below |
| MemoryCalls.ProtectRecords | core/engine/memory.cpp:207-237 | every recorded range stays on record as it was, but for the protection of one that was protected as a whole; cursors stay |
| MemoryWrap.HeapKeepsHistoryIff | core/engine/memory.cpp:147-186 | for memory in the lower half of the address space and alignments up to a page, a heap request keeps the history if and only if the aligned cursor plus the length does not wrap, or wraps to a sum that is refused all the same |
| MemoryWrap.BlocksOverlap | core/engine/memory.cpp:147-186 | three requests to a fresh manager: the second, of nearly 2^64 bytes, is answered and moves the cursor back, and the third gets a block inside the first |
| MemoryWrap.JavaKeepsHistoryIff | core/engine/memory.cpp:192-205 | for memory in the lower half of the address space and alignments up to a page, a Java request keeps the history if and only if the aligned cursor plus the length does not wrap, or wraps to a sum that is refused all the same |
| MemoryWrap.FixedKeepsHistoryIff | core/engine/memory.cpp:43-58 | a fixed mapping keeps the history if and only if its end stays in the address space, or wraps no further than its own first page begins, or that page is mapped; otherwise one page is mapped for nearly 2^64 bytes |
| MemoryClass.Memory.MmapAlloc | core/engine/memory.cpp:60-85 | cursor, search and mapping on the object's fields do what the model does |
| MemoryClass.Memory.FindGap | core/engine/memory.cpp:70-80 | the retry loop ends where the model's search ends |
| MemoryClass.Memory.BigAlloc | core/engine/memory.cpp:87-97 | the big-block cursor while it stays below the mmap area, the search beyond |
| MemoryClass.Memory.MapLib | core/engine/memory.cpp:99-109 | the library cursor moves only on success |
| MemoryClass.Memory.HeapAlloc | core/engine/memory.cpp:138-190 | first use maps the arena, then bump allocation with extension, all sums in 64 bits |
| MemoryClass.Memory.JavaAlloc | core/engine/memory.cpp:192-205 | bump allocation in its own arena, sums in 64 bits, an error when full |
| MemoryClass.Memory.Protect | core/engine/memory.cpp:207-237 | the hole test and either path do what the model does |
| MemoryClass.Memory.RegionOf | core/engine/memory.cpp:250-254 | finds a region containing the address if and only if there is one |
| Sleb128.ReadWrite | core/elf/elf_loader.cpp:371-382 | every signed 64-bit number in its shortest encoding reads back, ending where the bytes end |
| LebValues.SignedValue | core/elf/elf_loader.cpp:371-382 | a number of up to nine bytes is the value of its seven-bit digits, less 128 to the number of bytes if bit 6 of the last byte is set |
| LebValues.SignedTenValue | core/elf/elf_loader.cpp:371-382 | ten bytes give their digits modulo 2^64 |
| ElfReloc.ApplyRela | core/elf/elf_loader.cpp:284-304 | the loop over the table in the memory being relocated gives the modelled memory or an error |
| ElfReloc.TableIsList | core/elf/elf_loader.cpp:284-304 | a table that none of its own slots overlaps has the effect of the list of its entries |
| ElfMeaning.EntryRelocates | core/elf/elf_loader.cpp:284-304 | from the three words of an entry: at bias plus offset it stores bias plus addend, the symbol, or the symbol plus addend, by the low half of the information word, with the symbol in the high half; no other byte changes, an unknown type changes nothing, and a slot outside memory is an error |
| ElfMeaning.TableInParts | core/elf/elf_loader.cpp:284-304 | a table is its entries, 24 bytes apart, one after the other |
| ElfMeaning.SlotFinally | core/elf/elf_loader.cpp:284-304 | a slot ends with the word its last entry stored, symbols looked up in the memory as earlier entries left it |
| ElfMeaning.ListKeeps | core/elf/elf_loader.cpp:284-304 | bytes outside every slot are never written |
| ElfMeaning.WordBytes | core/elf/elf_loader.cpp:284-304 | a word is eight bytes, the lowest first |
| ElfAps2Proofs.UnpackPack | core/elf/elf_loader.cpp:355-420 | unpacking undoes packing for every list of relocations and every truthful grouping |
| ElfMeaning.FlagBits | core/elf/elf_loader.cpp:355-420 | the four group flags are bits 0 to 3 |
| ElfMeaning.NoMagic | core/elf/elf_loader.cpp:355-370 | text that does not start with the magic stands for no relocation |
| ElfAps2Proofs.ApplyAndroidRela | core/elf/elf_loader.cpp:355-420 | the interleaved decoder has the effect of the unpacked list, and no result for a table outside memory or a stream that breaks off inside a number |
| ElfAps2Proofs.PackedRefinesFlat | core/elf/elf_loader.cpp:284-420 | the packed stream has the effect of the flat table of the same relocations |
| ElfRelr.ApplyRelr | core/elf/elf_loader.cpp:329-351 | the loop over address and bitmap entries gives the modelled memory or an error |
| ElfRelr.RelrExact | core/elf/elf_loader.cpp:329-351 | every word the stream names gets the bias added exactly once and every other byte stays |
| ElfMeaning.RunNames | core/elf/elf_loader.cpp:325-350 | an address and its bitmaps name the word at the address and, of the words behind it, those whose bits are set, 63 to a bitmap |
| ElfMeaning.RunsNames | core/elf/elf_loader.cpp:325-350 | a stream is its runs, one after the other |
| ElfRelr.RelrIsRelative | core/elf/elf_loader.cpp:284-351 | the stream has the effect of plain relative relocations of the addresses it names |
| VfsObserver.NothingEscapes | core/android/vfs.cpp:109-161 | over every run, after a write a path either has a dirty open handle or was last observed with its stored content, as long as it is not truncated, unlinked or overwritten by the host |
| VfsObserver.AllClosedAllSeen | core/android/vfs.cpp:152-161 | when every handle is closed the last observation of a written path is its content |
| VfsObserver.ClobberedSeenIff | core/android/vfs.cpp:44-77 | over every run, the content of a path that a truncating open, an unlink or a host overwrite replaces by another is ever reported, until it is stored again, if and only if it had been reported before |
| VfsObserver.ReportedBeforeClobber | core/android/vfs.cpp:152-161 | a written path without a dirty handle has had its present content reported, so replacing it loses nothing |
| VfsObserver.ReportsStored | core/android/vfs.cpp:152-161 | an operation reports at most one content, and it is the one stored at that moment |
| VfsObserver.PayloadsEscape | core/android/vfs.cpp:44-77 | from an empty store: a byte written and then truncated, unlinked or overwritten under its dirty handle is never reported |
| VfsObserver.FreshDescriptors | core/android/vfs.cpp:44-85 | over every run open and dup hand out growing numbers from 3, never one in use |
| VfsData.WriteBytes | core/android/vfs.cpp:109-119 | a write replaces the bytes from the position on, fills a gap with zeros and leaves every other byte of the file, every other path and every other descriptor as they were |
| VfsData.ReadBackWrite | core/android/vfs.cpp:97-150 | seeking back after a write and reading as many bytes gives the data written |
| VfsData.FileWritten | core/android/vfs.cpp:44-119 | a file opened with truncation and written in pieces holds their concatenation; one opened for appending, its old content and then the pieces; closing it reports exactly that, once |
| VfsData.ReadsAll | core/android/vfs.cpp:44-107 | opening a stored path for reading and reading enough gives its content |
| VfsData.ReadBytes | core/android/vfs.cpp:97-107 | a read gives the bytes from the position, as many as there are up to the number asked for, and moves behind them |
| VfsData.SeekMoves | core/android/vfs.cpp:146-150 | a seek moves to the position or to the end if that is nearer |
| VfsData.OpenForWriting | core/android/vfs.cpp:44-57 | an open for writing or creation keeps or empties the file and starts at its beginning or end by the flags |
| VfsData.OpenForReading | core/android/vfs.cpp:58-77 | an open for reading gives the stored content, else what the provider offers, else 0 |
| VfsData.DupCopies | core/android/vfs.cpp:79-85 | a duplicate is the same handle under a new number |
| VfsData.Dup2Copies | core/android/vfs.cpp:87-95 | a duplicate onto a number closes what was there and moves the next number beyond it |
| VfsData.CloseTells | core/android/vfs.cpp:152-161 | closing a written handle reports the content of its path once; any other close reports nothing |
| VfsData.WritableIsStoredOverRuns | core/android/vfs.cpp:44-161 | over every run a descriptor open for writing stands for the stored file, never for a snapshot |
| VfsLines.LinesPartition | core/android/vfs.cpp:121-134 | for max of at least 2 the lines concatenate to the rest of the file; each is non-empty, at most max-1 long and has a newline only at its end |
| VfsLines.LineEndIsLine | core/android/vfs.cpp:121-134 | the scan ends at the line end, the limit or the end of the file |
| VfsLines.LineIsUnique | core/android/vfs.cpp:121-134 | there is only one such line |
| VfsLines.ProgressIff | core/android/vfs.cpp:121-134 | a successful gets advances if and only if max is at least 2 |
| VfsDirs.ProbeIff | core/android/vfs.cpp:14-22 | the entry found by one lower-bound probe has the prefix if and only if some entry has it |
| VfsDirs.PrefixInterval | core/android/vfs.cpp:14-22 | strings between a prefix and one of its extensions have the prefix |
| VfsDirs.IsDir | core/android/vfs.cpp:14-22 | true if and only if the trimmed path is registered or some stored path lies below it |
| VfsClass.Vfs.Open | core/android/vfs.cpp:44-77 | creation, truncation, append, provider content or 0, on the object's fields |
| VfsClass.Vfs.Dup | core/android/vfs.cpp:79-85 | a copy of the handle under the next number, or 0 |
| VfsClass.Vfs.Dup2 | core/android/vfs.cpp:87-95 | closes what was there and installs a copy, or -1 |
| VfsClass.Vfs.Write | core/android/vfs.cpp:109-119 | bytes replaced and the file grown at the position, handle marked dirty; byte by byte in `VfsData.WriteBytes` |
| VfsClass.Vfs.Close | core/android/vfs.cpp:152-161 | reports the content of a dirty handle's path, then drops the handle |
| VfsClass.Vfs.ReadLines | core/android/vfs.cpp:121-134 | repeated gets ends and its pieces concatenate to the rest of the file |
| VfsClass.Vfs.ReadChunks | core/android/vfs.cpp:97-107 | repeated reads of any positive sizes end and concatenate to the rest of the file |
| GdbPacket.ReceiveUndoesSend | core/engine/gdb_stub.cpp:409-460 | behind any noise and any frames with bad checksums, a payload without a number sign is received as sent, with one refusal per bad frame |
| GdbPacket.TransparentIff | core/engine/gdb_stub.cpp:443-460 | a payload is received as sent if and only if it has no number sign |
| GdbPacket.Receive | core/engine/gdb_stub.cpp:409-441 | the reading loop gives the packet, the rest and the acknowledgements of the model, or nothing at the end of input |
| GdbPacket.SendPacket | core/engine/gdb_stub.cpp:443-460 | frames the payload with its checksum |
| GdbWire.FrameLayout | core/engine/gdb_stub.cpp:443-460 | a frame is a dollar sign, the payload, a number sign and the checksum in two lower-case digits |
| GdbWire.SumsAdd | core/engine/gdb_stub.cpp:443-460 | the checksum of a text in two parts is the sum of their checksums modulo 256 |
| GdbWire.DamageRefused | core/engine/gdb_stub.cpp:409-441 | a frame is accepted once if its digits are its sum, otherwise refused once and reading goes on behind it |
| GdbWire.InterruptAnswered | core/engine/gdb_stub.cpp:409-420 | an interrupt is taken behind any noise, without an acknowledgement |
| GdbHex.HexRoundTrip | core/engine/gdb_stub.cpp:160-195 | bytes in hex read back |
| GdbHex.ParseRoundTrip | core/engine/gdb_stub.cpp:160-195 | every 64-bit number in hex reads back up to the first non-digit |
| GdbWire.Alphabet | core/engine/gdb_stub.cpp:160-195 | digits go out in lower case and are taken in either; anything else is no digit and reads as zero |
| GdbWire.HexAt | core/engine/gdb_stub.cpp:160-195 | two digits a byte, the high one first |
| GdbWire.ParseAppends | core/engine/gdb_stub.cpp:160-195 | one more digit multiplies by sixteen and adds it, modulo 2^64 |
| GdbRegs.GAfterGRestores | core/engine/gdb_stub.cpp:514-532 | writing all registers with what reading all gave restores every one of them, whatever they hold meanwhile |
| GdbRegs.ReadAllRegs | core/engine/gdb_stub.cpp:514-521 | the loop gives the hex of each register in order |
| GdbRegs.WriteAllRegs | core/engine/gdb_stub.cpp:523-532 | the loop sets registers in order while digits last |
| GdbWire.RegisterDigits | core/engine/gdb_stub.cpp:514-521 | a register is sent lowest byte first, each byte high digit first |
| GdbWire.RegistersInParts | core/engine/gdb_stub.cpp:514-521 | registers follow each other without anything between them |
| GdbWire.ShortRestore | core/engine/gdb_stub.cpp:523-532 | text that ends inside a register restores those before it and leaves the rest |
| GdbXfer.UnescapeInverts | core/engine/gdb_stub.cpp:712-736 | un-escaping gives back the data for every choice of escaped bytes that includes the escape byte |
| GdbXfer.BinaryThroughPackets | core/engine/gdb_stub.cpp:712-736 | any binary data arrives intact through escaping, framing, noise and un-escaping |
| GdbXfer.Unescape | core/engine/gdb_stub.cpp:712-736 | the loop un-escapes at most the announced number of bytes |
| GdbXfer.FetchAll | core/engine/gdb_stub.cpp:839-854 | chunks of any positive lengths concatenate to the whole document |
| GdbWire.ChunkAsked | core/engine/gdb_stub.cpp:839-854 | a chunk is the part of the document asked for and says whether the document ends with it |
| GdbWire.EscapesSpecials | core/engine/gdb_stub.cpp:712-736 | the four special characters are sent as an escape and the character with bit 5 changed |
| GdbWire.FlipsBitFive | core/engine/gdb_stub.cpp:712-736 | un-escaping changes bit 5 and no other |
| GdbXfer.RangeRoundTrip | core/engine/gdb_stub.cpp:839-854 | offset and length in the request read back |

## Left out

- DalvikIsa.Apply: opcodes the source calls approximate are modelled as approximate as they are.
- DalvikArith.BinaryMeans: signed overflow, undefined in the source, wraps, the division of the least number by -1 included.
- DalvikAsm.AssembleProgram: mnemonics are represented by their opcodes and offsets are unbounded, so the spelling table and programs over two billion units are not modelled.
- DalvikVm.CodeAt: code offsets in the last sixteen bytes below 4 GiB, where the source's 32-bit sum wraps, count as invalid.
- DalvikVm.Dalvik.Run: re-entry through the host is part of the host parameter; a register outside the frame is an explicit fault here and undefined in the source.
- DexObjects.DexFile.Parse: a class keeps type and method indices where the source stores the strings; `DexFile.TypeAt` and `DexFile.MethodAt` look them up.
- DexReadBack.ReadBack: asks that class data is well formed, lies outside the header and the class definitions, and that the result is below 4 GiB.
- SchedulerClass.Scheduler.Run: what the guest does in a slice is given in advance; saving and restoring CPU registers, slice time and stack memory are not modelled.
- SchedulerClass.Scheduler.Spawn: the new thread's stack and initial registers belong to the CPU context, which is not modelled.
- SchedulerClass.Scheduler.SpawnClone: the inherited registers, the stack and the test for the ABI belong to the CPU context, which is not modelled.
- SchedulerClass.Scheduler.CondWait: a woken waiter does not take the mutex again, as in the source, so mutual exclusion is stated for mutexes that are not used with conditions.
- MemoryClass.Memory.Protect: an address plus a length past 2^64 is not modelled, nor is a range that ends exactly there, where the source's end is 0; region labels are dropped.
- MemoryClass.Memory.MmapAlloc: a region that ends exactly at 2^64, whose end the source computes as 0, is treated like any other.
- MemoryClass.Memory.BigAlloc: sums are mathematical integers; a size that wraps in the source is refused by the engine, as it is here.
- MemoryWrap.HeapKeepsHistoryIff: stated for memory in the lower half of the address space and alignments up to a page; `MemoryHistory.AllocationHistory` needs neither.
- MemoryClass.Memory.HeapAlloc: alignments are powers of two, as at every call in the source.
- Memory::unmap is not part of this model: the region list is not kept in step with it.
- ElfAps2Proofs.ApplyAndroidRela: sums that overflow a signed 64-bit integer wrap; a stream that breaks off inside a number, where the source reads past its buffer, is an error here.
- The symbol count from the GNU hash table and the rest of ELF loading would add only independent table lookups.
- VfsObserver.FreshDescriptors: descriptors are mathematical integers; the source's int overflows for a dup2 onto 2^31 - 1 or after two billion opens.
- VfsClass.Vfs.Close: an observer is installed; without one the source reports nothing.
- VfsClass.Vfs.Read: reading at a position beyond the end, after another handle truncated the file, is an error here.
- The trace parser and the heuristics that assign families to opcodes are inputs: any family table is allowed.
- Stubs, system calls, JNI and ART wiring, Python bindings, logging and environment switches would add many easy members.
- GdbPacket.SendPacket: the acknowledgement byte the source reads and ignores after sending is not modelled.
- Sockets and run control of the debugger stub; only its packet and transfer layers are modelled.
