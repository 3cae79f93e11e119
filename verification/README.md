# A model of the PolyML whole-region compiler, translator analyses and image formats

This project states in Dafny what three parts of the repository are for, and proves it.

**The whole-region compiler** (`crates/polyml-jit/src/memtrans.rs`, `boundary.rs`). The
reference is the bytecode interpreter as a small-step machine (`Interp`): a call pushes the
return address and the closure, a return pops them. The target is the emitted block graph
(`Region`): blocks that share one downward-growing stack, native recursion for static calls,
a zero in place of the return address, a trampoline for dynamic calls. `Compile`, `Discovery`,
`CallGraph` and `Build` are the compiler itself: the loops that find the functions, detect
recursion, find block starts and emit blocks. `RetPc`, `Lowering`, `Trampoline`, `Simulation`,
`RegionTheorem` and `Divergence` relate the two machines in both directions, `Prologue` and
`Exhaustion` give the conditions under which they agree, `Gc`, `GcOps`, `GcAlloc` and `GcTheorem`
let a moving collector run in the middle, and `NativeDepth` and `StackUse` bound native recursion
and stack use. `Assembler`, `Meaning`, `HeapMeaning` and `StaticCalls` say independently of all that
what the bytes mean: which bytes are which instruction, what integers the arithmetic opcodes
compute in both machines, which objects are made, and which functions are called. `Samples` and `Collected` hold small regions that exhibit single runs.

**The per-function translator** (`translate.rs`, `lib.rs`). `Stacking` holds its opcode tables;
`DepthScan` and `InferArgs` are the two worklist analyses, `Emission` the second pass, `Blocks`
says which blocks it fills, `Translator` is the driver, `Sufficiency` relates the two analyses, and
`Effects` relates them to the interpreter. `Blockers` is the set of opcode scans that decide what
is installed; `Alignment` says when their boundaries are those of the instructions that are
translated, and `Tails` what a call in tail position is to the interpreter.

**The image formats** (`pexport.rs`, `bicimage.rs`). `Pexport` and `PexportImage`, and `Bic`,
say what is printed and what is read; `PexportCodec` and `BicCodec` are the cursors, readers and
writers that update their position step by step, each method proved against those functions.
`Lenient` is about texts that no printer prints, `Formats` and `Utf8` pin letters, tags and
encoding.

Machine words are integers below 2^64, wrapping written out; `Words` and `Arith` model the
instructions of the code generator. The outside is a parameter: where the allocator places an
object and when it finds no room, what a fresh body holds, which collection happens at which
allocation or poll (`Machine.World`), and how invalid UTF-8 is repaired. Names are UTF-8 as in
section 4 of RFC 3629, numbers LEB128 as in section 7.6 of DWARF Version 5.

The compiler theorems assume of the bytecode what the SML compiler guarantees: it does not use a
return-address slot as a value, returns from where the frame layout puts its result, untags
only tagged words, and calls constants that still name the code they named at compile time
(`Interp.Disciplined`). Under a moving collector it is also typed (`Typing.TypedIns`). A run
that breaks these is stuck, and the theorems say nothing of it.

## Findings

Where the code does not have a property it should have, the project keeps the code, exhibits
an input, and proves the exact condition.

- **Pushes are not checked.** The interpreter's `push` raises StackOverflow on a full stack; the
  compiled push and the compiled frame make no check. `Prologue.PushBelowStack` is the input;
  `RegionTheorem.RegionPreservesMeaning` is the condition, both ways; `Prologue.PrologueGuards`
  is the guard: two free slots at the call, and stack-size checks that cover what each function
  uses.
- **Heap exhaustion changes its name.** `Exhaustion.ExhaustionDiffers` is the input,
  `Exhaustion.SameException` the condition, `Exhaustion.ExceptionsKept` the guard.
- **MOVE_TO_CONTAINER_B is counted one short** by the argument inference.
  `Sufficiency.ContainerUndercounted` is the input,
  `Sufficiency.UnderflowsOnlyAtContainer` the condition.
- **The line counter of the text parser saturates.** `PexportImage.RepeatedDefinition` is the
  input, `PexportImage.DefinedExactlyOnce` the condition and the guard.
- **The architecture byte is printed as a character**, in two bytes outside ASCII, and not read
  back (`PexportImage.ArchBroken`): `PexportImage.PexportRoundTrip` and `PexportImage.Reprinted` are
  the conditions.
- **A fused call skips the opcodes of the return after it**, also when one of them is a branch
  target, whose block then stays empty. `UnfilledBlock.BlockUnfilled` is the input, which the
  driver accepts with its own argument count; `Blocks.TargetsFilled` and `Blocks.AllFilled` are
  the condition, over the bytes and the depths of pass 1.
- **The blocker scan can miss a real blocker**, against its own comment
  (`crates/polyml-jit/src/lib.rs:178-190`). It walks by the disassembler's lengths, and the
  disassembler gives PUSH_HANDLER and CALL_FAST_RTS0 to CALL_FAST_RTS5 an operand byte
  (`crates/polyml-runtime/src/interpreter/disasm.rs:360`, `:378-383`) that neither the translator
  (`crates/polyml-jit/src/translate.rs:2208-2209`, `:2284`) nor the interpreter
  (`crates/polyml-runtime/src/interpreter/mod.rs:5798-5803`) reads; and it takes the count byte of
  an entry marker for an opcode. `Alignment.MissedBlocker` and `Alignment.MissedAfterMarker` are the
  inputs, `Alignment.WalkIsAligned` is the condition, and `Alignment.FlagsAreReal` and
  `Alignment.TailsAreReal` say what the scans are worth under it.

## Model

| member | source | states |
|---|---|---|
| `RegionTheorem.RegionPreservesMeaning` | crates/polyml-jit/src/memtrans.rs:1004-1416 | for every region, start state and start stack, and any number of interpreter steps: if the interpreter finishes the call, the compiled call finishes in the same way (stack pointer, heap, live stack, raise or return) if and only if the interpreter was not stopped by a full stack at a push in natively run code; there the compiled call is undefined |
| `Divergence.CompiledEndsWithInterpreter` | crates/polyml-jit/src/memtrans.rs:1004-1416 | the converse: if the compiled call ends, with whatever fuel, the interpreter's run of it does not go on for ever, and if that ends within the discipline the two endings are the same, the same case excepted |
| `Divergence.EndReflects` | crates/polyml-jit/src/memtrans.rs:1998-2054 | from any block boundary, a compiled function that ends means an interpreter run of the active frame that ends or is stuck |
| `Prologue.PushBelowStack` | crates/polyml-runtime/src/interpreter/mod.rs:4445-4457 | the failing input: on a stack with room for the frame only, the interpreter raises StackOverflow and the compiled push writes below the stack |
| `Prologue.PrologueGuards` | crates/polyml-jit/src/memtrans.rs:2310-2331 | with two free slots for the frame, and functions whose STACK_SIZE16 check covers what they use, the two always end alike |
| `Prologue.RunsOutBelowReach` | crates/polyml-runtime/src/interpreter/mod.rs:4445-4457 | an instruction finds the stack full only where the stack pointer is below the number of slots it pushes into |
| `RegionTheorem.EmittedSimulates` | crates/polyml-jit/src/memtrans.rs:1061-1416 | every instruction the emitter accepts does to related memories what one interpreter step does, calls and returns included |
| `Simulation.RunSimulates` | crates/polyml-jit/src/memtrans.rs:1998-2054 | from any block boundary the block graph, with native recursion, ends as the interpreter's run of the active frame does |
| `Simulation.ReturnSimulates` | crates/polyml-jit/src/memtrans.rs:1963-1978 | collapsing N+2 slots is popping result, closure, return address and N arguments and pushing the result |
| `Simulation.EnterSimulates` | crates/polyml-jit/src/memtrans.rs:2011-2029 | a frame with a zero placeholder agrees with one that holds the real return address |
| `Simulation.BranchIsInterp` | crates/polyml-jit/src/memtrans.rs:1526-1635 | the emitted conditional branches take the side the interpreter takes |
| `Lowering.LoweringIsInterp` | crates/polyml-jit/src/memtrans.rs:1061-1416 | loads and stores at absolute indices do what the interpreter's pops and pushes do, for every straight-line instruction, its raise and its full-stack case included |
| `Lowering.LengthWordDecodes` | crates/polyml-jit/src/memtrans.rs:1734-1770 | masking and shifting the length word give back the length and the flag byte |
| `RetPc.ExecAlike` | crates/polyml-runtime/src/interpreter/mod.rs:5541-6840 | an instruction that leaves the return-address slots alone cannot tell what they hold |
| `RetPc.CheckedKeepsFrames` | crates/polyml-runtime/src/interpreter/mod.rs:9061-9620 | on every run a call adds one frame, a return resumes the caller at the recorded offset, and nothing else touches a frame |
| `RetPc.RunSplits` | crates/polyml-runtime/src/interpreter/mod.rs:9529-9620 | a run of a caller is the run of its callee followed by the rest |
| `Trampoline.RunPaired` | crates/polyml-runtime/src/interpreter/mod.rs:4017-4185 | a callee run on its own, from a zero return address, does what it does when called: values, heap, exceptions and full stacks |
| `Exhaustion.SameException` | crates/polyml-jit/src/memtrans.rs:2091-2122 | the packet of the compiled call is the interpreter's exception if and only if that is not heap exhaustion |
| `Exhaustion.ExhaustionDiffers` | crates/polyml-jit/src/memtrans.rs:2108-2117 | the failing input: an allocation that finds no room is heap exhaustion to the interpreter and StackOverflow to the compiled code |
| `Exhaustion.ExceptionsKept` | crates/polyml-jit/src/memtrans.rs:1981-1987 | with an allocator that finds room and lengths that are not negative, every exception that leaves the interpreter leaves the compiled call as itself |
| `GcTheorem.CollectorInvisible` | crates/polyml-jit/src/memtrans.rs:2062-2305 | between a world that never collects and one that places objects elsewhere, collects and moves them at any time, but finds no room for the same allocations and puts the same junk into fresh bodies: a well-typed compiled call ends alike up to a renaming of addresses |
| `GcTheorem.CollectorsAgree` | crates/polyml-jit/src/memtrans.rs:2062-2305 | two worlds that both collect, each in its own way, through the one that does not: where the call ends there, both endings are renamings of that ending |
| `GcTheorem.CompiledUnderCollector` | crates/polyml-jit/src/memtrans.rs:1478-1521 | what a typed interpreter run computes without collections, the compiled call computes under every legal collector |
| `GcTheorem.RunRel` | crates/polyml-jit/src/memtrans.rs:1478-1521 | related memories stay related through whole runs: only the stack pointer crosses a block |
| `GcAlloc.LowerRel` | crates/polyml-jit/src/memtrans.rs:2062-2305 | every lowered instruction keeps two memories related although each may collect in the middle of it |
| `GcAlloc.RegionAllocRel` | crates/polyml-jit/src/memtrans.rs:2091-2122 | after an allocation and its collection the memories are related again and the new object is fresh in both |
| `Gc.CollectRel` | crates/polyml-jit/src/boundary.rs:248-300 | a legal move of the collector keeps the relation: live slots and object words are renamed, dead slots may hold anything |
| `Gc.MovedObject` | crates/polyml-jit/src/boundary.rs:248-300 | a legal move brings a kept object to its new address with its flags, renames its words if it is no byte object, and changes nothing else in it |
| `Gc.MovedRest` | crates/polyml-jit/src/boundary.rs:248-300 | nothing else is on the heap after the move, and the live stack slots are renamed |
| `Collected.CollectionHappens` | crates/polyml-jit/src/memtrans.rs:2199-2226 | a run in which the collector moves an object during the call and the result is right: the exception for illegal collectors does not swallow the theorem |
| `Compile.ComputeBlockOffsets` | crates/polyml-jit/src/memtrans.rs:916-956 | succeeds exactly when every jump lands on an instruction or the end; then returns the jump targets and fall-throughs; the error names a target off every boundary |
| `Compile.EmitAllBlocks` | crates/polyml-jit/src/memtrans.rs:1004-1055 | succeeds exactly when every block can be built, and then each block holds its code up to its terminator or the next block |
| `Compile.DefineFunction` | crates/polyml-jit/src/memtrans.rs:706-905 | compiles exactly the compilable functions |
| `Compile.BlockStartsAreBoundaries` | crates/polyml-jit/src/memtrans.rs:916-956 | every block start is an instruction boundary |
| `Bytecode.SupportedIsLowered` | crates/polyml-jit/src/memtrans.rs:498-566 | the pre-flight table and the emitter agree: every supported opcode is lowered |
| `Bytecode.CallConstIsCca` | crates/polyml-jit/src/memtrans.rs:204-243 | what the emitter calls natively is what the discovery resolved |
| `Assembler.DecodesSpelling` | crates/polyml-jit/src/memtrans.rs:1061-1416 | n bytes are decoded as an instruction if and only if they are one of its spellings, given as opcode numbers, operands, displacements from the end of a forward jump or the start of a backward one, and pool words as eight bytes |
| `Assembler.OneSpelling` | crates/polyml-jit/src/memtrans.rs:1061-1416 | no bytes spell two instructions |
| `Assembler.JumpsAgree` | crates/polyml-jit/src/memtrans.rs:957-1003 | for every jump opcode the region compiler and the per-function translator find the same target and the same fall-through, or both none, where the operand is cut off or a backward jump would leave the code |
| `Assembler.TableRead` | crates/polyml-jit/src/translate.rs:1981-2020 | a jump table that is there in full goes to the offset behind it by default and for each case as far from its own start as the two bytes of the case say; a table cut short has no targets |
| `CallGraph.CallGraphHasCycle` | crates/polyml-jit/src/memtrans.rs:457-484 | true exactly when the graph has a cycle, duplicates and self-edges included; otherwise a topological order is returned; no in-degree goes below zero |
| `CallGraph.OrderedAcyclic` | crates/polyml-jit/src/memtrans.rs:457-484 | an order in which all edges go forward excludes cycles |
| `CallGraph.StuckHasCycle` | crates/polyml-jit/src/memtrans.rs:457-484 | nodes none of which is free of predecessors contain a cycle |
| `Discovery.Discover` | crates/polyml-jit/src/memtrans.rs:361-413 | on success exactly the code reachable by static calls is resolved, with exactly its edges, at most 256 functions; each refusal has a reachable culprit or 257 reachable functions |
| `Discovery.AllReached` | crates/polyml-jit/src/memtrans.rs:371-413 | a drained worklist has resolved everything reachable |
| `StaticCalls.CallsAreSpelled` | crates/polyml-jit/src/memtrans.rs:204-260 | the static callees of an accepted function are exactly the code addresses of the closures that the calls in its bytes name |
| `StaticCalls.AcceptableIs` | crates/polyml-jit/src/memtrans.rs:371-413 | a function can be part of a region if and only if it resolves, every instruction has a lowering, and every static call names a closure whose code address can be read |
| `Build.BuildRegion` | crates/polyml-jit/src/memtrans.rs:361-450 | succeeds exactly for roots whose reachable functions all scan, compile and fit; the result is a region to which the theorems apply |
| `Build.BuiltIsRegion` | crates/polyml-jit/src/memtrans.rs:415-450 | a built region is closed under native calls and all its functions are compiled |
| `NativeDepth.NativeRecursionBounded` | crates/polyml-jit/src/memtrans.rs:415-450 | in an acyclic region no run ever has more native calls active than the region has functions |
| `NativeDepth.DepthBound` | crates/polyml-jit/src/memtrans.rs:1998-2054 | a function at place k of the topological order nests at most the functions after it |
| `StackUse.SharedStackBounded` | crates/polyml-jit/src/memtrans.rs:1998-2054 | in an acyclic region whose functions each stay within M slots of their own, the whole call tree stays within the sum of M(g)+2 over the functions g |
| `StackUse.LowestBound` | crates/polyml-jit/src/memtrans.rs:1998-2054 | the same from any point of any function, against the functions later in the order |
| `Boundary.Shared.DispatchRegion` | crates/polyml-jit/src/boundary.rs:86-114 | the handshake on the shared array: placeholder and closure written, native root run, outcome returned or raised with the packet and the handler's stack pointer |
| `Boundary.RunSized` | crates/polyml-jit/src/boundary.rs:86-114 | no run changes the size of the shared stack |
| `Arith.FixedArithExact` | crates/polyml-jit/src/memtrans.rs:1865-1907 | add, sub and mult store the tag of the true integer exactly when it lies in [-2^62, 2^62-1], and raise Overflow otherwise |
| `Arith.MulGuardNeverTraps` | crates/polyml-jit/src/memtrans.rs:1881-1893 | the signed division in the multiply guard never traps |
| `Arith.MulGuardExact` | crates/polyml-jit/src/memtrans.rs:1881-1893 | the guard divides back to the factor exactly when the 64-bit product did not wrap |
| `Arith.FixedDivExact` | crates/polyml-jit/src/memtrans.rs:1912-1948 | quot and rem are those of the untagged integers, with DivByZero for zero |
| `Arith.WordRing` | crates/polyml-jit/src/memtrans.rs:1775-1824 | tagged word add, sub and mult are the ring of integers modulo 2^63 on payloads |
| `Arith.WordBits` | crates/polyml-jit/src/memtrans.rs:1775-1824 | and, or, xor and both shifts act on payloads |
| `Arith.LoweringsIdentical` | crates/polyml-jit/src/translate.rs:1389-1446 | the two independent lowerings give bit-identical words for all operations on all tagged inputs |
| `Arith.RegionWordIsInterp` | crates/polyml-jit/src/memtrans.rs:1775-1824 | the region's words are the interpreter's |
| `Arith.WordKeepsTag` | crates/polyml-jit/src/memtrans.rs:1775-1824 | every result is tagged |
| `Meaning.FixedDivTruncates` | crates/polyml-jit/src/memtrans.rs:1912-1948 | the words that quotient and remainder leave, interpreted and lowered, are integers q and r with a = qb + r, |r| < |b|, r zero or with the sign of a, |qb| at most |a|; only -2^62 by -1 wraps, to -2^62 |
| `Meaning.FixedDivision` | crates/polyml-jit/src/memtrans.rs:1912-1948 | from the opcode byte through both machines: FIXED_QUOT and FIXED_REM leave the one such q and r, and raise DivByZero for a zero divisor |
| `Meaning.FixedArithmetic` | crates/polyml-jit/src/memtrans.rs:1865-1907 | from the opcode byte through both machines: the sum, the difference lower minus upper, the product, or Overflow outside [-2^62, 2^62-1] |
| `Meaning.SignedComparisons` | crates/polyml-jit/src/memtrans.rs:1951-1962 | from the opcode byte through both machines: EQUAL_WORD and the four signed comparisons decide a = b, a < b, a <= b, a > b, a >= b for the integers a below and b on top |
| `Meaning.UnsignedComparisons` | crates/polyml-jit/src/memtrans.rs:1951-1962 | the four unsigned comparisons compare the upper 63 bits as numbers |
| `Meaning.WordArithmetic` | crates/polyml-jit/src/memtrans.rs:1775-1824 | from the opcode byte through both machines: sums, differences and products modulo 2^63 of the upper 63 bits |
| `Meaning.WordBitwise` | crates/polyml-jit/src/memtrans.rs:1775-1824 | WORD_AND, WORD_OR and WORD_XOR combine the operands bit by bit |
| `Meaning.WordShifts` | crates/polyml-jit/src/memtrans.rs:1775-1824 | shifts by the upper operand modulo 64, to the left modulo 2^63, to the right without a sign |
| `Meaning.WordDivision` | crates/polyml-jit/src/memtrans.rs:1828-1864 | WORD_DIV and WORD_MOD leave u = qv + r with r < v, and raise DivByZero for zero |
| `Meaning.ConditionalJumps` | crates/polyml-jit/src/memtrans.rs:1526-1571 | both machines take JUMP8_FALSE and JUMP16_FALSE exactly on the tagged 0, the others exactly on anything else |
| `Meaning.LocalJumps` | crates/polyml-jit/src/memtrans.rs:1572-1650 | both machines take JUMP_TAGGED_LOCAL exactly on a tagged local, JUMP_NEQ_LOCAL exactly on one that is not the tagged byte |
| `HeapMeaning.LoadsLeave` | crates/polyml-jit/src/memtrans.rs:1663-1700 | a byte load leaves the byte at its place in memory, lowest byte of a word first; a word load the word; an untagged load the signed word, tagged |
| `HeapMeaning.TupleMakes` | crates/polyml-jit/src/memtrans.rs:2130-2160 | a tuple is one new object without flags whose fields are the values taken, the deepest first |
| `HeapMeaning.ClosureMakes` | crates/polyml-jit/src/memtrans.rs:2162-2197 | a closure has type bits 3, the code address of the closure below its captures, and the captures in order |
| `HeapMeaning.RefMakes` | crates/polyml-jit/src/memtrans.rs:2199-2226 | a reference is one mutable field holding the value on top |
| `DepthScan.ScanBranchTargets` | crates/polyml-jit/src/translate.rs:3079-3193 | what it accepts is a consistent typing at depths control can branch or fall in with; every refusal has a cause: control can reach that fault, leave the code, branch to or fall into one offset at two depths, or fall short of the depth of a branch |
| `DepthScan.RunsNeverUnderflow` | crates/polyml-jit/src/translate.rs:3079-3193 | along every run that truncates at block entry, each opcode is entered at its recorded depth with the operands it needs |
| `DepthScan.MergeAll` | crates/polyml-jit/src/translate.rs:3107-3190 | merging the edges of an opcode keeps the typing so far, makes progress, and fails only on real disagreement |
| `Effects.MovesPointer` | crates/polyml-runtime/src/interpreter/mod.rs:5541-6840 | every instruction of the interpreter, calls and returns apart, moves the stack pointer as a table of pops and pushes says |
| `Effects.AllKnown` | crates/polyml-jit/src/translate.rs:3201-3900 | for every opcode both models cover, the first pass of the per-function translator has exactly that effect, the length and the targets the decoder has |
| `Effects.RunStaysInFrame` | crates/polyml-jit/src/translate.rs:3079-3193 | the interpreter, started on a body that pass 1 accepts with the argument count it is accepted under, never leaves the code or uses a slot below its arguments before it calls or returns; SET_STACK_VAL_B, whose slot pass 1 does not look at, excepted |
| `Emission.EmitFunction` | crates/polyml-jit/src/translate.rs:364-400 | every opcode is emitted at its recorded depth with exactly the jumps of pass 1, each passing as many values as its block takes; it fails only on what pass 2 cannot lower or asks more for |
| `Emission.RunsAreEmitted` | crates/polyml-jit/src/translate.rs:364-400 | if the walk passes every branch target, everything that can run is emitted at the depth at which it runs, the opcodes swallowed by a fused call excepted |
| `Blocks.TargetsFilled` | crates/polyml-jit/src/translate.rs:364-400 | when every branch target lies on the chain of opcodes from the entry, the block of a target is filled if and only if the target is not one of the three bytes after a CALL_CLOSURE that pass 1 reaches and that LOCAL_0; RESET_R_1; RETURN_1 follows |
| `Blocks.AllFilled` | crates/polyml-jit/src/translate.rs:364-400 | every block is filled if and only if every branch target lies on the chain and none in the return sequence of such a call |
| `Blocks.EverythingEmitted` | crates/polyml-jit/src/translate.rs:364-400 | under that condition on the bytes and the depths of pass 1, everything that can run is emitted at the depth at which it runs, up to the first fused call |
| `UnfilledBlock.BlockUnfilled` | crates/polyml-jit/src/translate.rs:610-660 | the failing input: an entry marker with two arguments, then a conditional jump to the return sequence that a fused call skips; the translator can only accept it, emits the jump, and never fills the block |
| `Emission.PassesMatch` | crates/polyml-jit/src/translate.rs:400-2114 | the tables of the two passes agree on every body |
| `Stacking.PassesAgree` | crates/polyml-jit/src/translate.rs:3201-3900 | opcode by opcode: the same next offset, change of depth and branch targets |
| `Stacking.StricterOnly` | crates/polyml-jit/src/translate.rs:3201-3900 | only SET_STACK_VAL_B asks for more values in pass 2 than in pass 1 |
| `Stacking.LengthsAgree` | crates/polyml-jit/src/translate.rs:2174-2305 | the third table, for dead code, steps over as many bytes as pass 2 does, the fused call excepted |
| `InferArgs.InferArgCount` | crates/polyml-jit/src/translate.rs:2525-2965 | what it returns is needed by some path; when it drains its worklist it is the least baseline under which no path reads or pops below its stack; otherwise it has met an opcode it cannot judge or spent its budget |
| `InferArgs.LeastIsLeast` | crates/polyml-jit/src/translate.rs:2525-2965 | no smaller baseline suffices |
| `InferArgs.PathDominated` | crates/polyml-jit/src/translate.rs:2540-2600 | a drained worklist has explored a point at least as shallow as every path's |
| `InferArgs.InferenceAgrees` | crates/polyml-jit/src/translate.rs:2600-2960 | the effect table of the inference is that of pass 1 on all it knows but MOVE_TO_CONTAINER_B |
| `Sufficiency.UnderflowsOnlyAtContainer` | crates/polyml-jit/src/translate.rs:2990-3008 | with a drained inference, pass 1 runs out of values over opcodes both tables accept if and only if a path comes to MOVE_TO_CONTAINER_B with one value left |
| `Sufficiency.ContainerUndercounted` | crates/polyml-jit/src/translate.rs:2990-3008 | the failing input: for a move to a container before a raise the least baseline is 1, the count at most 1, and no typing exists |
| `Translator.ComputeArgCount` | crates/polyml-jit/src/translate.rs:2990-3008 | the declared count; without one, at least n + 2 when the decoder finds the first return to take n arguments, enough for every explored path, and no more than that or some path needs |
| `Translator.ArityFromReturns` | crates/polyml-jit/src/translate.rs:2477-2514 | n if and only if the first return reached by stepping is complete and is decoded as a return of n arguments; none if an unknown or truncated opcode comes first |
| `Translator.ReturnsDecoded` | crates/polyml-jit/src/translate.rs:2483-2506 | the scan for returns sees a return of n exactly where the decoder does, and a missing operand exactly where it is cut off |
| `Translator.MarkerCounts` | crates/polyml-jit/src/translate.rs:2311-2323 | the count byte of an entry marker gives its low seven bits |
| `Translator.Translate` | crates/polyml-jit/src/translate.rs:121-400 | with the argument count it computes, an accepted body is typed, at depths control can arrive with, and emitted at its types; a refused one has a fault control can reach, or is typed and pass 2 cannot lower, step over or supply an opcode |
| `Blockers.ScanBlockers` | crates/polyml-jit/src/lib.rs:191-241 | completes exactly when the bytes split into the disassembler's instructions; sets each flag exactly when the opcode occurs at a boundary of that walk; every flag it sets the raw scan sets |
| `Blockers.BoundariesSplit` | crates/polyml-jit/src/lib.rs:191-241 | the boundaries are strictly increasing, each follows its instruction, and the last ends at the end |
| `Blockers.ScanCallDensity` | crates/polyml-jit/src/lib.rs:146-175 | counts the instructions and those that call out |
| `Blockers.CcaAllTail` | crates/polyml-jit/src/lib.rs:286-341 | true exactly when every static call at a boundary of the disassembler's walk is in tail position |
| `Blockers.CcaInstallSafe` | crates/polyml-jit/src/lib.rs:354-361 | where the disassembler's walk succeeds, exactly when all static calls at its boundaries are in tail position; where it does not, exactly when no byte looks like one |
| `Tails.TailReturns` | crates/polyml-jit/src/lib.rs:256-285 | a call is in tail position if and only if the decoder finds a return after it, or the bytes of LOCAL_0; RESET_R_1; RETURN_1 follow |
| `Tails.CleanupReturns` | crates/polyml-jit/src/lib.rs:256-285 | in the interpreter these three instructions come to what a return of one argument does at once, dead slots apart |
| `Tails.SoughtOpcodes` | crates/polyml-jit/src/lib.rs:20-60 | the opcodes the scans look for, as bytes |
| `Alignment.LengthsDiffer` | crates/polyml-jit/src/translate.rs:2174-2305 | of the opcodes the translator knows, the disassembler gives exactly PUSH_HANDLER and CALL_FAST_RTS0 to CALL_FAST_RTS5 another length, one byte more |
| `Alignment.KnownNamed` | crates/polyml-runtime/src/interpreter/disasm.rs:330-420 | the walk does not stop at an opcode that the translator's table knows, unless its operands are cut off |
| `Alignment.WalkIsAligned` | crates/polyml-jit/src/lib.rs:178-241 | the walk's boundaries are the translator's instructions, behind the entry marker, if and only if the marker's count byte takes no operands as an opcode and no boundary after it holds one of those seven |
| `Alignment.FlagsAreReal` | crates/polyml-jit/src/lib.rs:178-241 | under that guard each flag is set exactly when the translator meets such an opcode: no real blocker slips through |
| `Alignment.TailsAreReal` | crates/polyml-jit/src/lib.rs:286-341 | under that guard the tail test is about the static calls the translator meets |
| `Alignment.AcceptedSplits` | crates/polyml-jit/src/translate.rs:2174-2305 | a body the translator accepts splits into instructions of its table, so the two above apply to it where the walk completes |
| `Alignment.MissedBlocker` | crates/polyml-runtime/src/interpreter/disasm.rs:360-383 | the failing input: the walk takes a dynamic call for the operand of PUSH_HANDLER, and the scan completes without seeing it |
| `Alignment.MissedAfterMarker` | crates/polyml-jit/src/lib.rs:191-241 | the other failing input: the count byte of an entry marker looks like SET_HANDLER8 and hides the call after it |
| `Bic.BicRoundTrip` | crates/polyml-image/src/bicimage.rs:199-254 | reading what was written gives the image back, with nothing left over, if and only if the image is one the format carries |
| `Bic.TruncationDetected` | crates/polyml-image/src/bicimage.rs:225-385 | every strict prefix of a written image is rejected |
| `Bic.UvarintRoundTrip` | crates/polyml-image/src/bicimage.rs:273-287 | decoding inverts encoding for every unsigned 64-bit number (section 7.6 of DWARF Version 5) |
| `Bic.UvarintAtMostTen` | crates/polyml-image/src/bicimage.rs:64-73 | an encoding takes at most ten bytes |
| `Bic.ZigzagBijection` | crates/polyml-image/src/bicimage.rs:75-81 | zigzag is a bijection between signed and unsigned 64-bit words |
| `Bic.BodyRoundTrip` | crates/polyml-image/src/bicimage.rs:147-193 | every object body is read back from its bytes |
| `BicCodec.WriteThenRead` | crates/polyml-image/src/bicimage.rs:214-254 | the writer and the reader, run one after the other, give the image back exactly when the format carries it |
| `BicCodec.Reader.ReadNumber` | crates/polyml-image/src/bicimage.rs:273-287 | the loop over result and shift reads what the format says and leaves the rest |
| `BicCodec.Reader.ReadObjectBody` | crates/polyml-image/src/bicimage.rs:343-385 | reads what the format says, or fails with its error |
| `BicCodec.Reader.ReadImage` | crates/polyml-image/src/bicimage.rs:225-254 | reads what the format says, or fails with its error |
| `BicCodec.Writer.PutImage` | crates/polyml-image/src/bicimage.rs:199-212 | appends exactly the bytes of the format |
| `PexportImage.PexportRoundTrip` | crates/polyml-image/src/pexport.rs:427-524 | parsing what was written gives the image back if and only if the text format can carry it |
| `PexportImage.AcceptedIsClosed` | crates/polyml-image/src/pexport.rs:454-524 | in accepted text every value reference, code address and relocation target is below the count, every object is there, flags are known and the architecture canonical |
| `PexportImage.DefinedExactlyOnce` | crates/polyml-image/src/pexport.rs:476-523 | in accepted text each id is defined, and exactly once if and only if there are as many lines as the header counts, which below 2^32-1 is always so |
| `PexportImage.RepeatedDefinition` | crates/polyml-image/src/pexport.rs:486-507 | the failing input: with 2^32-1 objects, the text with its first line repeated at the end is accepted as the same image |
| `PexportImage.Reprinted` | crates/polyml-image/src/pexport.rs:427-524 | printing and parsing again whatever lenient text was accepted gives the same image if and only if the architecture byte is ASCII |
| `PexportImage.ObjectRoundTrip` | crates/polyml-image/src/pexport.rs:188-255 | flags in any combination, type letter and payload are read back |
| `PexportImage.HeaderRoundTrip` | crates/polyml-image/src/pexport.rs:527-580 | a written header is read back, and is refused exactly when the count does not fit or the architecture is not read back |
| `Lenient.AbbreviatedRead` | crates/polyml-image/src/pexport.rs:547-560 | the text of an interpreted 64-bit image parses alike with and without architecture and word size, whatever kind of line end stands after the root |
| `Lenient.LaidOutRead` | crates/polyml-image/src/pexport.rs:454-660 | however an image is laid out it is read back: older header, line ends of any kind and number, blanks, leading zeros, flags in any order and number, lines in any order |
| `Lenient.DefinitionRead` | crates/polyml-image/src/pexport.rs:596-660 | an object is accepted after its payload if and only if nothing but blanks comes before the end of the line |
| `Lenient.HexAnyCase` | crates/polyml-image/src/pexport.rs:399-425 | bytes are read from hexadecimal digits of either case |
| `Lenient.ClosureOfNone` | crates/polyml-image/src/pexport.rs:711-733 | a closure counted as no words is read with its code address and no captures |
| `Formats.TextCode` | crates/polyml-image/src/pexport.rs:188-285 | a code object with a constant and a relocation, character by character |
| `Formats.TextHeader` | crates/polyml-image/src/pexport.rs:427-446 | the headers of the three architectures, character by character |
| `Formats.BinaryHeader` | crates/polyml-image/src/bicimage.rs:199-212 | the binary headers of the three architectures, byte by byte |
| `Formats.BinaryWords` | crates/polyml-image/src/bicimage.rs:121-165 | the tags of values and word objects, byte by byte |
| `Utf8.ValidExactly` | crates/polyml-image/src/pexport.rs:809-826 | the test for valid names holds exactly of the encodings of Unicode scalar values (section 3 of RFC 3629) |
| `Pexport.I64RoundTrip` | crates/polyml-image/src/pexport.rs:372-397 | signed decimals are read back, the least number included |
| `Pexport.HexRoundTrip` | crates/polyml-image/src/pexport.rs:399-425 | hex bytes are read back |
| `Pexport.PayloadRoundTrip` | crates/polyml-image/src/pexport.rs:705-824 | every payload is read back: captures, code with relocations, names with line ends in them |
| `PexportCodec.Cursor.Number` | crates/polyml-image/src/pexport.rs:334-360 | the digit loop reads the decimal number, or reports overflow |
| `PexportCodec.Cursor.CodeObject` | crates/polyml-image/src/pexport.rs:755-807 | reads what the format says, relocation list included |
| `PexportCodec.Cursor.Fill` | crates/polyml-image/src/pexport.rs:479-507 | the loop over lines fills the slots as the lines say and counts them, saturating |
| `PexportCodec.ParseImage` | crates/polyml-image/src/pexport.rs:454-524 | the parser over its cursor and slot array accepts and refuses what the format says |
| `PexportCodec.Printer.PutImage` | crates/polyml-image/src/pexport.rs:427-449 | appends exactly the text of the format |
| `PexportCodec.ParseAuto` | crates/polyml-image/src/lib.rs:34-40 | chooses the reader by the magic bytes |
| `PexportCodec.AutoReadsBoth` | crates/polyml-image/src/lib.rs:34-40 | an image that both formats carry is read back from either |

## Left out

- What a call does to the depths of the per-function translator: `Effects` compares the instructions
  that neither call nor return.
- Dynamic calls under a moving collector: `GcTheorem` treats them as ill-typed; without
  collections they are covered, through the trampoline.
- Values behind a stack-container pointer: the address is computed and passed on, but reading or
  writing through it is outside both machines.
- Runs in which the interpreter is stuck, because the bytecode breaks the discipline above: the
  compiled call may then do anything.
- Stack use of the interpreter under a dynamic call: `StackUse` counts native code only.
- What a failed push leaves in dead slots before StackOverflow is reported is not recorded.
- Exceptions caught by a handler inside a run: the handler opcodes are not lowered, so an
  exception always leaves the compiled call; in the per-function translator they are stubs.
- Splitting a code object into bytecode and constant pool, and the return-scan gate of
  `resolve_code`: the image of resolvable code objects is a parameter of `Discovery`.
- The code generator, its verifier, symbol registration and finalisation; the meaning of the
  emitted instructions is modelled instead.
- The values on the translator's compile-time stack: `Emission` follows how many there are and
  which jumps carry how many, not which value is which.
- What the code generator makes of a block that is never filled: `Blocks` says when there is one.
- Overflow of the 32-bit depths in the argument inference, capacity hints, and byte positions and
  texts in errors.
- Decoding of overlong LEB128 numbers: only what the writer produces is claimed to be read back.
- `String::from_utf8_lossy` in the binary reader: a parameter that keeps valid text.
- `region.rs`, the hand-built demonstration regions, `build_code_object` and
  `hashfold_reference`: they would only add easier members beside the general compiler.
- The zero-divisor and overflow behaviour of the per-function translator, which differs from the
  region compiler's and the interpreter's: only its word operations are compared
  (`Arith.LoweringsIdentical`).
