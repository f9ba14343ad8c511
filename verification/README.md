# Verified model of the threaded interpreter's handler generator and of the performance gate

`sf-nano-core/interp_gen/` emits, at build time, the machine code of a threaded WebAssembly
interpreter: one handler for every op, operand class and destination class. A handler reads a
32-byte cell `[handler|a|b|c]`, works on a frame of 8-byte slots and on linear memory, and goes
to the next cell. Two locals and an accumulator are cached in registers and written through.
This project models that code and proves that it means what the slot-only WebAssembly
semantics means. A second, smaller part models the sequential test of `ci/performance.py`.

`dafny verify dfyconfig.toml` checks everything.

## How it is organised

* **Reference and words.** `Words`, `Bits`, `WasmNum`, `LittleEndian`, `BulkSpec`: machine words
  as bounded integers with digitwise operations, the integer operators of section 4.3.2 of the
  WebAssembly Core Specification 2.0, little-endian memory, and the byte-at-a-time
  `memory.copy`/`memory.fill` of section 4.4.7. `Operators` says digit by digit, and by their
  defining equations, what those operators are; `Branches` says it of the branches.
* **Two machines.** `Interp` defines linked cells, a reference machine in which every operand is
  a slot, and the register-cached machine with its driver: native handlers, and the shared
  executor for slow cells and bails. Two parameters say where backends differ: whether the
  remainder bails on MIN rem -1, and whether the i32 subtract-and-branch of a slot works in the
  accumulator. `Packing` has the packed words of calls and the lookup of `call_indirect`.
  `WellFormed` states what the predecoder and linker guarantee, as a per-cell predicate `Linked`
  over an annotation of each program point (which slots are current, what the accumulator holds,
  which values are zero-extended 32-bit ones).
* **Runs.** `Coherence`, `NativeSteps`, `SlowSteps`, `CallSteps`, `Indirect`, `Runs`: one dispatch
  refines one reference step, hence every run does. `Lifo`: calls nest. `Admission` and
  `TypedCode`: every dispatch of a run meets the bounds, and reads the zero-extended operands,
  that its handler asks for. `Remainder`: concrete programs.
* **Handlers.** `Arm64`, `X86`, `Rv32`, `Rv64` are classes over registers, frame and memory
  arrays; each handler is a method whose postcondition is the machine's step on its cell. On
  arm64 and RV32 `Dispatch` covers every native op and `Chain` runs handlers one after the other.
  `Supers` says what running the cells of each superhandler shape in order does. `ArmIsa`,
  `Pairs`, `RiscV`, `Arm32`, `Rotations`, `BitTricks`, `Division`, `Bounds` and `TruncBounds`
  prove the arithmetic the handlers rest on. `BulkLoops` and `BulkHandlers` are the in-place
  memory loops.
* **Generator.** `Generator`: the slot table.
* **Gate.** `Gate`: the adaptive loop with its error bound. `Fractions`, `BetaFraction`, `Lentz`:
  convergents, the incomplete-beta fraction with its closed value at whole parameters, and the
  loop that evaluates it.

## Findings

* **A remainder that bails and succeeds.** `sf-nano-core/interp_gen/x86_64.rs:28-31` and
  `sf-nano-core/interp_gen/arm64.rs:590-594` state that a handler never bails on a path that could
  still succeed, because the accumulator's next reader would see a stale register. The signed
  remainder of x86-64, RISC-V and arm32 does so on MIN rem -1: the executor returns 0 in the slot
  and `sf-nano-core/src/vm/interpreter/exec.rs:3259-3261` carries the old accumulator over.
  `Remainder.AccumulatorReaderAfterRemainder` gives the program and the exact condition;
  `Remainder.NotLinkedWithBail` shows that this is the one thing the run theorem's hypothesis
  excludes there. arm64 is not affected (`Division.DivArm64`).
* **The accumulator after subtract-and-branch.** The i32 form of a slot operand overwrites the
  accumulator on RISC-V and arm32 (`sf-nano-core/interp_gen/riscv.rs:897-902`) and not on arm64
  or x86-64. `WellFormed.SubBrCellOk` therefore lets no successor claim the accumulator, and with
  that the run theorem holds of both.
* **The arm64 i32 population count** reads the whole register
  (`sf-nano-core/interp_gen/arm64.rs:1172-1182`): `ArmIsa.PopcountReadsAll` says it is right
  exactly on zero-extended ones, which `TypedCode.OperandsHoldOnEveryRun` provides.
* **arm32 fused narrow loads** (`sf-nano-core/interp_gen/arm32.rs:952-963`) leave the high half of
  the target register alone. `Arm32.FusedNarrowLoadKeepsHigh` says exactly when that matters.

## Model

| member | source | states |
|---|---|---|
| Runs.RunRefines | sf-nano-core/interp_gen/arm64.rs:890-1345 | Over every run of linked cells, in any mix of register, constant and slot variants, direct and indirect calls, slow cells and bails, the cached machine reaches the same status, memory, globals and pc as the slot-only machine; coherence holds at every dispatch, and a run that exits leaves the same results in the same slots, a single one in the accumulator too |
| Runs.StepRefines | sf-nano-core/interp_gen/arm64.rs:890-1345 | One dispatch, native or slow, is one reference step; it keeps coherence, or exits with the same results in the same slots |
| Runs.BootCoherent | sf-nano-core/src/vm/interpreter/exec.rs:3250-3261 | Entering the chain with the pinned registers loaded from their slots is a coherent state, whatever the accumulator holds |
| Runs.RemainderLeavesAccumulator | sf-nano-core/interp_gen/x86_64.rs:1366-1415 | After a remainder that is stored or kept in the accumulator alone, the accumulator holds it exactly when the operands are not MIN and -1, or it was already zero |
| Remainder.AccumulatorReaderAfterRemainder | sf-nano-core/src/vm/interpreter/exec.rs:3250-3261 | `rem_s` followed by a reader of the accumulator agrees with the reference exactly when the handler does not bail on MIN rem -1, or the stale accumulator's 32-bit value is zero |
| Remainder.NotLinkedWithBail | sf-nano-core/src/vm/interpreter/engine.rs:1063-1099 | No annotation links that program when the remainder may bail and succeed |
| Remainder.TypedWithoutBail | sf-nano-core/src/vm/interpreter/engine.rs:1063-1099 | The same program is linked and typed when it cannot: the hypotheses of the run theorem and of the arm64 chain have instances |
| Coherence.FetchAgrees | sf-nano-core/interp_gen/arm64.rs:111-147 | In a coherent frame every operand class yields the operand slot's reference value, below 2^32 where claimed |
| Coherence.FinishAgrees | sf-nano-core/interp_gen/arm64.rs:167-187 | Landing a result keeps the frames in agreement for each destination class, including the accumulator class that skips the store |
| NativeSteps.PairLocal | sf-nano-core/interp_gen/arm64.rs:1077-1133 | Ordered double moves keep registers and slots in agreement whatever source and destination slots coincide |
| NativeSteps.BranchLands | sf-nano-core/interp_gen/arm64.rs:990-1005 | Every branch and every clamped table entry lands on an allowed successor |
| Branches.BranchesOnZero | sf-nano-core/interp_gen/arm64.rs:916-943 | On both machines `Br` is taken, `BrIf` exactly on a nonzero i32 and `BrIfNot` exactly on zero |
| Branches.BranchesOnCommonOnes | sf-nano-core/interp_gen/arm64.rs:1018-1035 | On both machines the and-branch is taken exactly when the operands' low halves have a one in common, its negation exactly when they have none |
| Branches.BranchesByTable | sf-nano-core/interp_gen/arm64.rs:990-1012 | On both machines a table branch goes to the entry its i32 index names, and past the table to the last one |
| SlowSteps.SlowArrive | sf-nano-core/src/vm/interpreter/exec.rs:3250-3261 | After the executor finishes a cell, reloading the pinned registers from their slots restores coherence with nothing claimed of the accumulator |
| CallSteps.UnpackPacked | sf-nano-core/src/vm/interpreter/exec.rs:1868-1884 | The packed 48/16/31-bit call words come apart into what was packed |
| CallSteps.CallStep | sf-nano-core/interp_gen/arm64.rs:703-791 | A call in a coherent state enters the callee coherently and suspends the caller, or both machines run out of records or stack |
| Indirect.CallIndirectStep | sf-nano-core/interp_gen/arm64.rs:793-848 | An indirect call whose guards pass enters the function the specification calls, coherently, or both machines run out |
| Indirect.IndirectBailTraps | sf-nano-core/interp_gen/arm64.rs:793-848 | A failed guard is exactly a trap of the specification, and the executor raises it with nothing changed |
| Indirect.TargetIsCallee | sf-nano-core/src/vm/interpreter/exec.rs:1810-1850 | The guards on table, entry and canonical type accept exactly the handles the specification accepts and name the same function |
| CallSteps.ReturnStep | sf-nano-core/interp_gen/arm64.rs:1417-1469 | A return moves the results down and resumes the caller coherently from its record, or exits with the same results on both machines |
| Lifo.BalancedCall | sf-nano-core/interp_gen/arm64.rs:709-791 | After any callee run that comes back, direct or indirect, the caller resumes at the next cell with its frame, cell base, records, every slot below the arguments and its pinned locals; the state just before is a return in the callee's own frame, and each of its results has moved to the argument base |
| Lifo.RunWithinLimits | sf-nano-core/interp_gen/arm64.rs:721-730 | Over every run no record exceeds the return stack and no live or suspended frame exceeds the value stack |
| Lifo.CallClears | sf-nano-core/interp_gen/arm64.rs:742-772 | A call zeroes exactly the slots from the parameter count to the local count of the new frame and changes no other slot |
| Lifo.DriveStackStep | sf-nano-core/interp_gen/arm64.rs:1417-1469 | One dispatch leaves every slot below the current frame alone and pushes or pops at most one record |
| Admission.RunAdmits | sf-nano-core/src/vm/interpreter/engine.rs:1063-1099 | Every native dispatch of every run, whatever its op, meets the operand, destination, successor, branch-table, call-entry, return-record, global and bulk bounds its handler method requires |
| Arm64.Engine.Chain | sf-nano-core/interp_gen/arm64.rs:890-1345 | From any coherent state of linked typed code, the arm64 handlers chained one after the other are a run of the machine and agree with the slot-only machine after every dispatch, until a trap, an exit or a cell handed untouched to the driver |
| Arm64.Engine.Dispatch | sf-nano-core/interp_gen/arm64.rs:890-1345 | For every op, the handler of the current cell is the machine's step |
| ArmIsa.InstructionIsWasm | sf-nano-core/interp_gen/arm64.rs:400-429 | Each selected instruction computes the Wasm operator, rotate-left as rotate-right by the negated amount |
| Operators.ShlMeaning | sf-nano-core/interp_gen/arm64.rs:400-429 | Every digit of a left shift is the digit the masked amount below, or zero |
| Operators.ShrUMeaning | sf-nano-core/interp_gen/riscv.rs:1307-1316 | Every digit of an unsigned right shift is the digit the masked amount above, or zero past the top |
| Operators.ShrSMeaning | sf-nano-core/interp_gen/riscv.rs:1307-1316 | Every digit of a signed right shift is the digit the masked amount above, or the sign digit past the top |
| Operators.RotlMeaning | sf-nano-core/interp_gen/riscv.rs:1322-1349 | Every digit of a left rotation is the digit the masked amount below, around the width |
| Operators.RotrMeaning | sf-nano-core/interp_gen/riscv.rs:1322-1349 | Every digit of a right rotation is the digit the masked amount above, around the width |
| Operators.BitwiseMeaning | sf-nano-core/interp_gen/arm64.rs:400-429 | And, or and exclusive or of every digit |
| Operators.RingMeaning | sf-nano-core/interp_gen/arm64.rs:400-429 | Addition, subtraction and multiplication are those of the integers modulo the width |
| Operators.DigitsDecide | sf-nano-core/interp_gen/arm64.rs:400-429 | Words with the same digits are the same, so the digits above leave no choice |
| Operators.SignedDivMeaning | sf-nano-core/interp_gen/arm64.rs:1502-1524 | For every nonzero divisor of either sign the quotient and the remainder add up to the dividend, the remainder is smaller than the divisor and zero or of the dividend's sign; the overflow traps exactly at MIN by -1, with remainder zero |
| Operators.TowardZeroUnique | sf-nano-core/interp_gen/arm64.rs:1502-1524 | Only one quotient and remainder do |
| Operators.UnsignedDivMeaning | sf-nano-core/interp_gen/arm64.rs:1502-1524 | The unsigned quotient and remainder add up to the dividend, the remainder below the divisor |
| Operators.ZeroDivisorTraps | sf-nano-core/interp_gen/arm64.rs:1471-1526 | All four divisions trap on zero, and only there with that kind |
| Operators.ZerosMeaning | sf-nano-core/interp_gen/arm64.rs:1391-1402 | The leading and trailing zeros counted are zeros, and the digit that ends each run is a one |
| Operators.PopcntMeaning | sf-nano-core/interp_gen/arm64.rs:1172-1182 | The population count is the number of places that hold a one |
| Operators.ExtendMeaning | sf-nano-core/interp_gen/arm64.rs:1403-1413 | Sign extensions repeat the top digit read at every higher place; wrapping and zero extension leave zeros |
| Operators.ValueMeaning | sf-nano-core/interp_gen/arm64.rs:1560-1590 | Digit j of byte i of a load is digit 8i + j of its value |
| Operators.BytesMeaning | sf-nano-core/interp_gen/arm64.rs:1600-1626 | Byte i of a store holds the eight digits of the value from place 8i |
| ArmIsa.FlagsDecide | sf-nano-core/interp_gen/arm64.rs:431-460 | The condition selected for each compare passes on the flags of `cmp` exactly when the Wasm compare holds, at both widths |
| ArmIsa.InverseFails | sf-nano-core/interp_gen/arm64.rs:56-74 | The inverse of a condition passes exactly when it fails, on all flags |
| ArmIsa.LoadIsWasm | sf-nano-core/interp_gen/arm64.rs:462-487 | The load instruction selected for each size, sign and width leaves the Wasm value |
| ArmIsa.UnaryIsWasm | sf-nano-core/interp_gen/arm64.rs:1391-1415 | The unary sequences give the Wasm result from any register, the i32 population count from a zero-extended one |
| ArmIsa.PopcountReadsAll | sf-nano-core/interp_gen/arm64.rs:1172-1182 | Counting per byte and adding counts the whole register: the i32 form is right exactly on zero-extended registers |
| Arm64.Engine.SrcAB | sf-nano-core/interp_gen/arm64.rs:149-165 | Paired and scalar payload reads deliver the same two operands for every class pair |
| Arm64.Engine.HBin | sf-nano-core/interp_gen/arm64.rs:1253-1267 | Binary handlers of every class combination are the machine's step |
| Arm64.Engine.HCmp | sf-nano-core/interp_gen/arm64.rs:1268-1273 | Compare handlers, setting the selected condition, are the machine's step |
| Arm64.Engine.HMov | sf-nano-core/interp_gen/arm64.rs:1040-1076 | Moves are the machine's step, also in the paired form that takes the destination from the mirrored word |
| Arm64.Engine.HGlobalGet | sf-nano-core/interp_gen/arm64.rs:1147-1152 | Reading a global into every destination class is the machine's step |
| Arm64.Engine.HGlobalSet | sf-nano-core/interp_gen/arm64.rs:1153-1157 | Writing a global is the machine's step |
| Arm64.Engine.HUn | sf-nano-core/interp_gen/arm64.rs:1158-1182 | Unary handlers, zero tests included, are the machine's step |
| Arm64.Engine.HSelect | sf-nano-core/interp_gen/arm64.rs:1134-1146 | `Select` with its packed condition and destination slots is the machine's step |
| Arm64.Engine.HMovPair | sf-nano-core/interp_gen/arm64.rs:1077-1133 | The first destination commits, register included, before the second source is read |
| Arm64.Engine.HSubBrIf | sf-nano-core/interp_gen/arm64.rs:945-989 | Subtract in place, write through and branch while not zero is the machine's step |
| Arm64.Engine.HBranch | sf-nano-core/interp_gen/arm64.rs:916-1035 | Unconditional, conditional and table branches, and the fused ones that fall through on the inverse condition, go where the machine goes |
| Arm64.Engine.HDiv | sf-nano-core/interp_gen/arm64.rs:1471-1526 | Division bails exactly when the machine does and otherwise lands the Wasm result |
| Arm64.Engine.HLoad | sf-nano-core/interp_gen/arm64.rs:1533-1590 | Loads, plain and address-fused, trap exactly out of bounds and otherwise land the extended value |
| Arm64.Engine.HStore | sf-nano-core/interp_gen/arm64.rs:1533-1626 | Stores trap with nothing written exactly out of bounds and otherwise write exactly the access's bytes |
| Arm64.Engine.HCall | sf-nano-core/interp_gen/arm64.rs:703-791 | A direct call is the machine's activation entry, record pushed, locals zeroed, pins loaded |
| Arm64.Engine.ZeroPairs | sf-nano-core/interp_gen/arm64.rs:742-772 | The paired-store loop clears exactly the requested slots and never overshoots |
| Arm64.Engine.ZeroWords | sf-nano-core/interp_gen/arm64.rs:766-772 | The single-store loop clears exactly the requested slots |
| Arm64.Engine.HCallIndirect | sf-nano-core/interp_gen/arm64.rs:793-848 | The lookup, its guards and the entry by composed words are the machine's step; if a guard fails nothing has changed |
| Arm64.Engine.CopyResults | sf-nano-core/interp_gen/arm64.rs:1417-1440 | The upward copy loop moves the result slots down unharmed by overlap, the accumulator keeping the last one |
| Arm64.Engine.HReturn | sf-nano-core/interp_gen/arm64.rs:1417-1469 | A return is the machine's step: results, record, cell base, pinned reloads, float-flag bit |
| Arm64.Engine.HBulk | sf-nano-core/interp_gen/arm64.rs:1628-1797 | `memory.fill` and `memory.copy` bail out of bounds with nothing written and otherwise are the machine's step |
| Arm64.Engine.HFillCopy | sf-nano-core/interp_gen/arm64.rs:1799-1880 | The fused fill and copy is the machine's step; when a guard fails nothing has changed |
| Arm64.Engine.SuperListStep | sf-nano-core/interp_gen/arm64.rs:270-308 | The list step is a run of its four cells; on a trap pc is the load cell with both copies committed, the store not done and the accumulator untouched |
| Arm64.Engine.SuperAdd4 | sf-nano-core/interp_gen/arm64.rs:310-335 | Four chained adds are a run of their four cells |
| Arm64.Engine.SuperAddBrNe | sf-nano-core/interp_gen/arm64.rs:337-360 | In-place add and compare-branch are a run of their two cells |
| Arm64.Engine.SuperShrUAnd | sf-nano-core/interp_gen/arm64.rs:362-374 | Shift and mask are a run of their two cells |
| Arm64.Engine.SuperAndBrEq | sf-nano-core/interp_gen/arm64.rs:376-396 | Mask and compare-branch are a run of their two cells |
| Supers.ListRuns | sf-nano-core/src/vm/interpreter/engine.rs:537-578 | Under the admitted shape, running the four cells copies, loads through the new first pinned local, stores the old one to the same word and branches on the loaded value, or stops at the load |
| Supers.Add4Explicit | sf-nano-core/src/vm/interpreter/engine.rs:579-618 | Under the admitted shape, the four adds each read what the earlier ones wrote |
| Supers.ShrUAndRuns | sf-nano-core/src/vm/interpreter/engine.rs:644-668 | Under the admitted shape, the shifted accumulator is masked into the slot and the accumulator |
| Supers.AndBrEqRuns | sf-nano-core/src/vm/interpreter/engine.rs:669-692 | Under the admitted shape, the branch compares the masked value it has just stored |
| Supers.AddBrNeRuns | sf-nano-core/src/vm/interpreter/engine.rs:619-643 | Under the admitted shape, the branch compares against the new sum even when it rereads the updated slot |
| Arm64.FusedCell | sf-nano-core/interp_gen/arm64.rs:1799-1880 | The fused cell's memory is the specification's fill then copy exactly when its guards hold, and it bails unchanged otherwise |
| BulkHandlers.FillCopyIsOneFill | sf-nano-core/interp_gen/arm64.rs:1840-1880 | When the copy reads only filled bytes and the destinations touch, one fill over the union equals fill then copy, empty ranges included |
| BulkHandlers.FillCopyArm64 | sf-nano-core/interp_gen/arm64.rs:1799-1880 | The guards decide fusibility exactly and the tiered fill produces the fill-then-copy memory |
| BulkLoops.CopyDownPipelined | sf-nano-core/interp_gen/arm64.rs:1723-1786 | The software-pipelined overlapping backward copy leaves memory exactly as `memory.copy` for every base, length from 64 up and overlap |
| BulkLoops.PipelineLoop | sf-nano-core/interp_gen/arm64.rs:1746-1768 | With one block in flight, the loop keeps every byte at or above the cursor final and every source byte it still needs unclobbered |
| BulkHandlers.CopyArm64 | sf-nano-core/interp_gen/arm64.rs:1628-1797 | Direction choice and tiers: bails exactly out of bounds, otherwise the byte-at-a-time copy |
| BulkHandlers.CopyX86 | sf-nano-core/interp_gen/x86_64.rs:1595-1716 | The same for x86-64's half-block moves |
| BulkHandlers.CopyWords | sf-nano-core/interp_gen/riscv.rs:1990-2088 | The same for RISC-V and arm32, whose 32-bit bounds sums recover the lost carry |
| BulkHandlers.Fill64 | sf-nano-core/interp_gen/x86_64.rs:1595-1660 | Vector, word and byte tiers fill exactly the range with the low byte on arm64 and x86-64 |
| BulkHandlers.FillWords | sf-nano-core/interp_gen/arm32.rs:1029-1075 | Word and byte tiers fill exactly the range on RISC-V and arm32 |
| BulkSpec.CopyIsSimultaneous | sf-nano-core/interp_gen/arm64.rs:1628-1797 | The specification's byte-at-a-time copy moves every byte the source range held at the start, for every overlap |
| LittleEndian.SplatsReplicate | sf-nano-core/interp_gen/arm64.rs:1641-1652 | The shift-and-or splats and the multiplication splat replicate the low byte |
| Indirect.ComposedIsDirect | sf-nano-core/interp_gen/arm64.rs:830-848 | The words an indirect call composes on arm64, x86-64 and RV64 are bit for bit those of the direct call cell |
| Indirect.Rv64UnpacksAlike | sf-nano-core/interp_gen/riscv.rs:1760-1840 | RV64's shift pairs find the same packed fields as the bit-field extracts |
| Division.DivArm64 | sf-nano-core/interp_gen/arm64.rs:1471-1526 | Bails exactly on Wasm traps and otherwise gives the Wasm quotient or remainder at both widths |
| Division.DivX86 | sf-nano-core/interp_gen/x86_64.rs:1366-1415 | As Wasm, bailing additionally exactly on MIN rem -1 |
| Division.DivRv64 | sf-nano-core/interp_gen/riscv.rs:1364-1419 | As Wasm from sign-extended operands with a zero-extended result, bailing additionally exactly on MIN rem -1 |
| Division.Div32 | sf-nano-core/interp_gen/arm32.rs:865-897 | The 32-bit forms of arm32 and RV32, bailing additionally exactly on MIN rem -1 |
| Division.MultiplySubtract | sf-nano-core/interp_gen/arm64.rs:1510-1526 | Multiply-subtract on the wrapped quotient gives the signed remainder, MIN by -1 included |
| X86.Engine.Alu2 | sf-nano-core/interp_gen/x86_64.rs:336-355 | For every aliasing of destination and operands the destination gets the operation of the old operand values and no register but the scratch changes |
| X86.Engine.Shift | sf-nano-core/interp_gen/x86_64.rs:357-371 | The same with the count moved through `cl` |
| X86.Engine.HBin | sf-nano-core/interp_gen/x86_64.rs:1168-1176 | Binary handlers of every class combination are the machine's step |
| X86.Engine.CondMove | sf-nano-core/interp_gen/x86_64.rs:957-975 | The select sequence is right for every aliasing of target and operands |
| X86.Engine.HSelect | sf-nano-core/interp_gen/x86_64.rs:957-975 | `Select` is the machine's step |
| X86.Engine.HMovPair | sf-nano-core/interp_gen/x86_64.rs:904-956 | Ordered double moves are the machine's step |
| X86.Engine.HSubBrIf | sf-nano-core/interp_gen/x86_64.rs:804-846 | Destructive subtract, store and branch is the machine's step, subtrahend in the same register included |
| X86.OperandsExchange | sf-nano-core/interp_gen/x86_64.rs:152-180 | The operations marked commutative are |
| X86.LowByteCounts | sf-nano-core/interp_gen/x86_64.rs:357-371 | Reading only the low byte of the count loses nothing of the count modulo the width |
| Pairs.PairAdd | sf-nano-core/interp_gen/riscv.rs:1270-1276 | Low sum, compare-recovered carry and high sums are 64-bit addition |
| Pairs.PairSub | sf-nano-core/interp_gen/riscv.rs:1277-1283 | Low difference, borrow and high differences are 64-bit subtraction |
| Pairs.PairBitwise | sf-nano-core/interp_gen/riscv.rs:1284-1288 | Bitwise operations act on the halves separately |
| Pairs.PairEqual | sf-nano-core/interp_gen/riscv.rs:631-641 | The folded difference word is zero exactly when the 64-bit values are equal |
| Pairs.PairExtend | sf-nano-core/interp_gen/riscv.rs:1204-1214 | The sign-filled high half is the 64-bit sign extension |
| Rv32.Engine.Pair | sf-nano-core/interp_gen/riscv.rs:491-518 | A pair of registers holds the operand's 64-bit value for every class, other registers unchanged |
| Rv32.Engine.PairOp | sf-nano-core/interp_gen/riscv.rs:1262-1294 | The pair sequences compute the 64-bit operation when the destination pair is an operand pair too |
| Rv32.Engine.HBin64 | sf-nano-core/interp_gen/riscv.rs:1262-1294 | i64 add, sub and bitwise handlers are the machine's step, registers read as pairs |
| Rv32.Engine.HBin32 | sf-nano-core/interp_gen/riscv.rs:1295-1362 | i32 handlers are the machine's step, with a zero high half in register and slot |
| Rv32.Engine.HCmp64 | sf-nano-core/interp_gen/riscv.rs:1240-1247 | i64 equality handlers are the machine's step |
| Rv32.Engine.HCmp32 | sf-nano-core/interp_gen/riscv.rs:1240-1247 | i32 compare handlers are the machine's step |
| Rv32.Engine.HBrCmp64 | sf-nano-core/interp_gen/riscv.rs:1004-1021 | Fused i64 equality branches go where the machine goes |
| Rv32.Engine.HBrCmp32 | sf-nano-core/interp_gen/riscv.rs:1004-1021 | Fused i32 compare branches go where the machine goes |
| Rv32.Engine.HUn | sf-nano-core/interp_gen/riscv.rs:1162-1234 | Zero tests, wrap, the narrow sign extensions and the extensions from i32 are the machine's step on pairs |
| Rv32.Engine.HSubBrIf | sf-nano-core/interp_gen/riscv.rs:892-974 | Subtract-and-branch is the machine's step: the i64 form in scratch, the i32 form in the pinned or the accumulator pair |
| Rv32.Engine.HDiv | sf-nano-core/interp_gen/riscv.rs:1364-1419 | Division handlers complete or bail as the machine does |
| Rv32.Engine.HMov | sf-nano-core/interp_gen/riscv.rs:1024-1052 | Moves of pairs are the machine's step |
| Rv32.Engine.HMovPair | sf-nano-core/interp_gen/riscv.rs:1053-1103 | Ordered double moves of pairs are the machine's step |
| Rv32.Engine.HSelect | sf-nano-core/interp_gen/riscv.rs:1104-1144 | The low half of the condition slot decides, and the chosen pair lands |
| Rv32.Engine.HGlobalGet | sf-nano-core/interp_gen/riscv.rs:1145-1153 | Both halves of a global land |
| Rv32.Engine.HGlobalSet | sf-nano-core/interp_gen/riscv.rs:1154-1161 | Both halves of the operand reach the global |
| Rv32.Engine.HBranch | sf-nano-core/interp_gen/riscv.rs:860-1021 | Unconditional, conditional, table and and-branches go where the machine goes |
| Rv32.Engine.HReturn | sf-nano-core/interp_gen/riscv.rs:1901-1928 | The result pairs move down unharmed by overlap, the last one staying in the accumulator pair, and the chain is left |
| Rv32.Engine.HBulk | sf-nano-core/interp_gen/riscv.rs:1990-2088 | `memory.fill` and `memory.copy` on low halves are the machine's step |
| Rv32.Engine.HLoad | sf-nano-core/interp_gen/riscv.rs:1421-1545 | Loads trap exactly when the unbounded address leaves memory and otherwise land the value, high half zero when narrow |
| Rv32.Engine.HStore | sf-nano-core/interp_gen/riscv.rs:1421-1575 | Stores trap exactly when the unbounded address leaves memory and otherwise write exactly the bytes |
| Rv32.Engine.Guarded | sf-nano-core/interp_gen/riscv.rs:421-456 | The wrapped address and its two carry guards trap exactly when the machine's unbounded address leaves memory, and otherwise give that address |
| Rv32.Engine.Dispatch | sf-nano-core/interp_gen/riscv.rs:262-314 | For every op RV32 keeps native, the handler of the current cell is the machine's step |
| Rv32.Engine.Chain | sf-nano-core/interp_gen/riscv.rs:262-314 | From any coherent state of linked typed RV32 code, chained handlers agree with the slot-only machine after every dispatch: each register pair and each pair of words holds the 64-bit value, until a trap, an exit or a cell handed untouched to the driver |
| RiscV.RegisterIsWasm | sf-nano-core/interp_gen/riscv.rs:1294-1362 | At both register widths every integer operation gives the Wasm result below the operand width; only the bitwise operations and the logical shift need zero-extended operands for it |
| RiscV.CompareIsWasm | sf-nano-core/interp_gen/riscv.rs:612-653 | From zero-extended operands the compares, sign-extending only the signed i32 ones, decide as Wasm does |
| RiscV.StrayDigitsShow | sf-nano-core/interp_gen/riscv.rs:536-557 | On RV64 the equality of a register and its own i32 value is right exactly when the register is zero-extended |
| RiscV.UnaryIsWasm | sf-nano-core/interp_gen/riscv.rs:1162-1234 | RV64's unary sequences give the Wasm result from any register contents, zero-extended when 32-bit |
| Rv64.Engine.HBin | sf-nano-core/interp_gen/riscv.rs:1294-1362 | From zero-extended operands, binary handlers are the machine's step and leave a zero-extended result |
| Rv64.Engine.HCmp | sf-nano-core/interp_gen/riscv.rs:1240-1247 | Compare handlers are the machine's step |
| Rv64.Engine.HBrCmp | sf-nano-core/interp_gen/riscv.rs:1004-1021 | Fused compare branches go where the machine goes |
| Rv64.Engine.HUn | sf-nano-core/interp_gen/riscv.rs:1162-1234 | Unary handlers are the machine's step |
| Rv64.Engine.HDiv | sf-nano-core/interp_gen/riscv.rs:1364-1419 | Division handlers complete or bail as the machine does |
| Rv64.Engine.HSubBrIf | sf-nano-core/interp_gen/riscv.rs:892-974 | Subtract-and-branch is the machine's step, the i32 form of a slot working in the accumulator |
| TypedCode.OperandsHoldOnEveryRun | sf-nano-core/interp_gen/riscv.rs:536-557 | Along every run of typed code, on a machine whose i32 subtract-and-branch may overwrite the accumulator, each i32 operand and select condition a handler reads is below 2^32 |
| Arm32.FlagsCarryPairs | sf-nano-core/interp_gen/arm32.rs:816-843 | Flag-carrying add and subtract on halves are the 64-bit operations |
| Arm32.FusedNarrowLoadKeepsHigh | sf-nano-core/interp_gen/arm32.rs:952-963 | A fused narrow load lands like every other handler exactly when the target's high half was zero |
| Arm32.StaleHighHalf | sf-nano-core/interp_gen/arm32.rs:952-963 | A concrete load after which the register pair and the i32 value differ |
| Bounds.CheckSltu | sf-nano-core/interp_gen/riscv.rs:450-456 | Comparing each sum with an addend traps exactly when offset plus address plus size exceeds the length in unbounded arithmetic |
| Bounds.CheckCarry | sf-nano-core/interp_gen/arm32.rs:902-932 | The same from the two carry flags |
| Bounds.Check64 | sf-nano-core/interp_gen/arm64.rs:1533-1561 | A single 64-bit compare is exact because a 48-bit offset and a 32-bit address cannot wrap |
| Bounds.CarriesAreNeeded | sf-nano-core/interp_gen/arm32.rs:924-932 | Without the carries the check errs exactly on accesses whose wrapped end is inside memory |
| Bounds.PageLimits | sf-nano-core/src/constants.rs:1-16 | The page limit keeps every length a 32-bit number on a 32-bit host and at most 2^32 elsewhere |
| BitTricks.Popcount32 | sf-nano-core/interp_gen/arm32.rs:745-766 | The 32-bit SWAR sequence counts the one digits of every word |
| BitTricks.Popcount64 | sf-nano-core/interp_gen/x86_64.rs:1335-1356 | The 64-bit SWAR sequence counts the one digits of every word |
| BitTricks.FoldKeepsSum | sf-nano-core/interp_gen/x86_64.rs:1313-1361 | Adding neighbouring lanes into double lanes keeps the total, at every lane width |
| BitTricks.AddThenMask | sf-nano-core/interp_gen/x86_64.rs:1325-1330 | Adding before masking is the same fold when no nibble exceeds four |
| Rotations.ClzByBsr | sf-nano-core/interp_gen/x86_64.rs:1285-1311 | Bit-scan-reverse with an all-ones sentinel counts leading zeros, zero included |
| Rotations.CtzByBsf | sf-nano-core/interp_gen/x86_64.rs:1285-1311 | Bit-scan-forward with a width sentinel counts trailing zeros, zero included |
| Rotations.ReversedZeros | sf-nano-core/interp_gen/arm32.rs:733-744 | Leading zeros of the reversed digits are the trailing zeros |
| Rotations.ShiftsRotate | sf-nano-core/interp_gen/riscv.rs:1322-1349 | Two masked shifts and an or rotate at either width, amount zero included |
| Rotations.RorRotatesLeft | sf-nano-core/interp_gen/arm32.rs:846-855 | Rotating right by 32 less the amount rotates left, amount zero included |
| TruncBounds.BailMeansTrap | sf-nano-core/interp_gen/arm64.rs:589-633 | For every pattern of either format and every tabulated pair, the two compares pass exactly when the partial truncation is defined |
| TruncBounds.BoundsAreExact | sf-nano-core/interp_gen/riscv.rs:226-241 | For every finite operand, strictly between the bounds as reals is exactly fitting the target after truncation |
| TruncBounds.UnitsGrow | sf-nano-core/interp_gen/x86_64.rs:256-274 | Magnitudes are ordered as their bit patterns |
| TruncBounds.LowBoundIs | sf-nano-core/interp_gen/arm64.rs:596-633 | Each low bound is the last value too small, though one below a signed minimum is not an f32 |
| Generator.Combos | sf-nano-core/interp_gen/mod.rs:246-319 | The nested loops list exactly the family's combinations, each once |
| Generator.OwnsExactly | sf-nano-core/interp_gen/mod.rs:246-319 | A family owns every combination of the backend's classes in the coordinates it varies, with no second pinned local where there is none, and nothing else |
| Generator.SlotsInjective | sf-nano-core/src/vm/interpreter/layout.rs:139-191 | Packed slots are in range and no two handler keys share one |
| Generator.NoGap | sf-nano-core/src/vm/interpreter/layout.rs:139-191 | Every slot of a family's block is the slot of some combination |
| Generator.Table.EmitKey | sf-nano-core/interp_gen/mod.rs:373-403 | The slot is taken exactly when this very handler has been emitted before; otherwise handler and slot get one fresh label |
| Generator.Table.Generate | sf-nano-core/interp_gen/mod.rs:368-405 | For every emission order the duplicate assertion fires exactly when the order names again, in the same bank, an op with a handler to emit; otherwise the driver visits exactly the listed keys |
| Generator.Table.OrderPasses | sf-nano-core/interp_gen/mod.rs:75-244 | An order that names no op twice in one bank passes |
| Generator.Table.Finished | sf-nano-core/interp_gen/mod.rs:384-449 | Each emitted key's slot holds the label standing in the text before that key's handler; each filled slot's label stands before exactly one handler, its own key's; no op that may exit slow has a handler with an accumulator source |
| Gate.RequiredPairs | ci/performance_stats.py:206-256 | The smallest even count in range whose projection reaches the target, or none when there is none |
| Gate.AnalyzePhase | ci/performance.py:305-370 | For any runs, an error exactly when there is no block or some block, in slot order, is not four runs of alternating versions; otherwise, block by block, a baseline-candidate comparison of its first two runs and one of its last two |
| Gate.SortedBlock | ci/performance.py:341-344 | Sorting puts exactly the runs of the block in slot order, runs of one slot as they were made |
| Gate.OneSlotOrder | ci/performance.py:341-344 | There is only one such order |
| Gate.ScheduleAlternates | ci/performance.py:789-812 | Slots run in order, neighbouring slots and the first slots of neighbouring blocks are of opposite versions, and block 0 starts with the baseline |
| Gate.NextLook | ci/performance.py:915-962 | The least even size beyond the current one at which some undecided metric is projected to reach its target, or none exactly when none is |
| Gate.Confirm | ci/performance.py:889-962 | The first look is at the minimum; each later one is at the least even size at which some metric undecided at the look before is projected to reach its target; at the last one no undecided metric is projected to within the maximum. There are no more looks than counted; each analyses exactly the complete blocks made after the pilot, pairing slot 0 with 1 and 2 with 3 |
| Gate.FamilyBound | ci/performance_stats.py:186-204 | The errors the thresholds allow, over all jobs, selected metrics and the looks `Confirm` makes for each, sum to at most the requested family error |
| Gate.FamilyExact | ci/performance_stats.py:186-204 | The sum is exactly the family error when every job takes every look at every metric it plans for |
| Lentz.BetaContinuedFraction | ci/performance_stats.py:15-61 | A value is replaced exactly when some convergent's numerator or denominator shrinks below the tiny factor; otherwise the value is the convergent with twice the iterations plus one partial numerators, at the first iteration whose last factor is within the tolerance of one; it fails when none of the permitted iterations is |
| BetaFraction.WholeParameter | ci/performance_stats.py:31-52 | For every whole b the convergent with 2b - 1 partial numerators has denominator (1 - x)^b and numerator the sum of (-1)^j C(b-1, j) a/(a+j) x^j, the incomplete beta integral over x^a |
| BetaFraction.Frozen | ci/performance_stats.py:31-52 | Every later convergent has the same value |
| Lentz.WholeEvaluation | ci/performance_stats.py:15-61 | For a whole b within the limit an evaluation that replaces nothing converges by iteration b, and from iteration b - 1 on its value times (1 - x)^b is that sum |
| BetaFraction.Contiguous | ci/performance_stats.py:31-52 | Neighbouring hypergeometric terms differ by the weight that the partial numerators are, term by term |
| Lentz.HalfStep | ci/performance_stats.py:31-57 | A half-step keeps `c` the ratio of numerators, `d` the ratio of denominators and the result their quotient, and replaces a value exactly when the new numerator or denominator is below the tiny factor of the last |
| Fractions.ConvergentIsNested | ci/performance_stats.py:15-61 | The recurrence's quotient is the value of the nested finite continued fraction |

## Left out

- Assumed of the linker: `WellFormed.Linked` stands for the predecoder, linker and fixup pass, and `TypedCode.Typed` for validation; that they establish them is not proved. `Linked` includes frames of at least one slot and pinned slots below 8192 (`sf-nano-core/src/vm/interpreter/predecode.rs:110`).
- Slow calls: functions the driver enters from Rust, imports, foreign function handles, callees without a native entry, tail calls and RV32's calls, which cross the chain boundary; the run theorem covers native direct and indirect calls and returns. The function table does not change during a run.
- Handlers without a proof: on x86-64 all but binary, select, pair-move and subtract-and-branch ones; on RV64 moves, select, plain and table branches, globals, loads, stores, calls, returns and bulk; arm32 has only its arithmetic. For those backends the run theorem is about the machine, and the arithmetic modules about the sequences.
- Arm64.Engine.Chain: the shared executor and the trampolines around the chain are the machine's `SlowStep`, not code; superhandlers are proved against runs of their cells beside it.
- Arm64.Engine.HLoad: addresses are unbounded numbers here; `Bounds.Check64` is the reason no register wraps, with static offsets below 2^48.
- Arm64.Engine.SuperListStep: after a trap the accumulator keeps its old value where the four cells would have replaced it; a trap ends the run, so nothing reads it.
- Arm64.Engine.HMovPair, X86.Engine.HMovPair: the second value also reaches the accumulator, as in the code.
- Arm64.Engine.HCallIndirect: its x86-64 and RV64 forms are modelled only in the words they compose.
- Rv32.Engine.HReturn: the record a return pops is the one that leaves the chain, since RV32 makes no native call.
- Generator.Table.Generate: ops and backends are abstract; the program's own emission order is not written out, so that it names no op twice in one bank is a condition on it and not a fact proved of it.
- Generator.Table.EmitKey: object formats; the text is the list of labels and of whose body follows each, and a label is its number.
- TruncBounds.BailMeansTrap: the conversion instruction after the guards, and float arithmetic, rounding and NaN payloads, are hardware semantics and not modelled; nor are the float copies of the pinned registers.
- BulkHandlers.CopyArm64: the host address of memory is far enough from the top of the address space that a cursor plus one vector block does not wrap.
- Lentz.BetaContinuedFraction: real numbers instead of floating point, and the tiny constant is a parameter; convergence within the iteration limit is claimed for whole second parameters only, and nothing of the value once one has been replaced.
- Gate.AnalyzePhase: a run's unit and direction labels, whose mismatch is a further error.
- Gate.Confirm: measurements, the t distribution and the logarithms are inputs; reports and job scheduling are left out.
- Dispatch counting, prefetch order, alignment, padding and the entry and exit trampolines: no meaning changes with them.
- The JIT, garbage collection, SIMD, exceptions, memory growth and table operations are not part of this model.
