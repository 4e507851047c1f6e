# Accelerator verification

A Dafny model of the GPU accelerator in `src/accel`, and proofs about it.
`dafny verify dfyconfig.toml` checks all of it.

**The compiler.**  A function's top-level ranged loops are grouped into
regions (`RegionPartition`).  The function's block graph is scanned for
reassigned, captured and escaping bindings (`EffectScan`, `ScanMeaning`).  A table of
checked integer nodes bounds every loop and every buffer access (`SizeDag`,
`Ranges`, `SizeBounds`; `Admission` says which loops get one).  Each loop body
is lowered to typed straight-line code, one invocation an iteration
(`Lowering`, and the in-place lowerer `KernelLower`; `Typing` says which bodies
lower), which the IR validator checks (`KernelValidation`; `KernelSafety` says
what its acceptance means).
`Truncation` is the program the kernels run: the source with its folded
constants as ints.  `LoweringMeaning` relates one invocation to one iteration
of it, `Dispatch` relates
interleaved invocations to sequential ones, `Doall` decides which loops have
independent iterations, `LoopMeaning` relates a dispatch to a loop and
`Region` relates a region's dispatches to its loops.  `ProgramMeaning` says
when these loops leave what the program itself leaves.  `RuntimeChecks` shows
the runtime's range checks to be exact, and `Completeness` that what the
classifiers accept compiles and runs.
`Residency` adds the host transfers and the buffers that live on the device
only, `Slots` the layout of the runtime argument array.  `Hir` and `AccelIr`
hold the two languages and their meaning, `Words` 32-bit arithmetic,
`LongArithmetic` what 64-bit values share with it, `CountedLoop` how the
bytecode counts a loop's turns.

**The context.**  `Context` has one function for each mutex-held section of
the shared state, `ContextObject` the object whose methods do what those
functions say, `SessionList` its doubly linked list.  `Lifetime` runs any
number of client threads and the destructor through these sections in every
order, with ghost holdings for each thread, and with everything that happens
while the mutex is dropped as steps of its own.  `ContextRuns` performs these
steps on the object, so what holds of every run holds of it.  `Registry` is
the table of program IDs, as histories and as an object.

**The transaction.**  `Transaction` is the optimizer callback.  A record of
what the callback owns goes through every exit; its operations require
ownership, so a second release or a lock taken twice would not verify.

How the program's values are modelled: ints are 32-bit words that wrap, right
shift is logical, division and remainder truncate, Booleans are the ints 0 and
1, 64-bit literals make 64-bit arithmetic, and float operations are arbitrary
functions on 32-bit patterns.  Allocation failures, backend answers, the LIR
budget, the rewrite stages and other threads' registry operations are
parameters over which every theorem quantifies.

A 64-bit literal makes the values computed from it 64 bits wide, while the
kernel keeps 32.  Two results meet this.  Every accepted region, without
exception, is run by the device as its truncation (`RegionSimulation`,
`HostTransfer`).  The program itself agrees with its truncation wherever each
64-bit operation it performs meets its guard and each loop makes the
dispatched trips (`ProgramSimulation`, `ProgramTransfer`); `Widths` also names
expressions that meet their guards on every input (`WidthsGuard`).

Three properties one might expect do not hold of the code; each has concrete
inputs that show it and the exact condition under which the code is right.

- A kernel computes with the low words of 64-bit values, so it can store
  another word than the program (`LongDivisorObservable`,
  `WideDividendObservable`).  A 64-bit operand of a comparison is right
  exactly in the range of an int (`NarrowComparesIff`, `ByBitsIff`); so is a
  64-bit dividend, whatever the divisor, and a divisor is right for every
  dividend exactly when it is 1 (`NarrowDividesIff`, `WideDivisorIff`); a
  right shift is right exactly when the upper half contributes nothing
  (`WideShiftIff`).  A constant operand is right for every int left operand
  exactly when the program computes the folded number (`ConstantExactIff`).
  These conditions are the guards.  Sums, products, bitwise operations and
  left shifts are always right.
- The runtime computes trip counts from exact bounds, the program from
  wrapping ones (`StopBoundWraps`).  They agree exactly under the condition of
  `CountAgreesIff` (`CountsAgreeIff`).
- `accel_context_destroy` deadlocks exactly when it sleeps in its drain while
  every claim holder sleeps in session cleanup (`BlockedIff`,
  `DeadlockReachable`).

## Model

| member | source | states |
|---|---|---|
| `Words.TruncMeaning` | src/core/execution.c:488-743 | Quotient and remainder rebuild the dividend; the remainder is smaller than the divisor and never of the other sign than the dividend |
| `Words.BitMeaning` | src/core/execution.c:746-921 | Each bit of a bitwise combination is the combination of the bits |
| `Words.ShiftMeaning` | src/core/execution.c:998-1071 | A right shift divides the unsigned word, dropping the remainder |
| `Hir.FoldExact` | src/optimizer/hir_opt_analysis.c:698-762 | Folding succeeds if and only if the expression joins literals by sums, differences and negations in at most 64 levels and no part leaves the 64-bit range, and finds the exact value |
| `Hir.FoldMeaning` | src/optimizer/hir_opt_analysis.c:698-762 | A folded constant without 64-bit literals is, modulo 2^32, the int the program computes |
| `Hir.NormalizeForms` | src/optimizer/hir_opt_analysis.c:106-213 | An index is counter-affine if and only if it is, in any parentheses, the counter, the counter plus or minus a literal or another name, or a literal or another name plus the counter; which offset, name and sign it then has |
| `Hir.NormalizeMeaning` | src/optimizer/hir_opt_analysis.c:106-213 | A normalised counter-affine index denotes exactly what its source expression evaluates to, for every counter value and argument |
| `ConstantOperands.ClosedMeaning` | src/optimizer/hir_opt_analysis.c:698-762 | The source value of a foldable expression is the same wherever it is computed, and is 64-bit exactly when a 64-bit literal occurs |
| `ConstantOperands.FoldWord` | src/optimizer/hir_opt_analysis.c:698-762 | The folded number and the source value agree modulo 2^32, whatever 64-bit literals and int wraps the expression holds |
| `ConstantOperands.ConstantExactIff` | src/accel/accel_compile.c:3509-3574 | The emitted divide, remainder or shift by a folded constant leaves the word the source leaves, from every int left operand, if and only if the program computes the folded number itself, as an int or as a 64-bit value |
| `LongArithmetic.ArithWord` | src/core/execution.c:87-491 | The low word of a sum, difference or product of ints and 64-bit values is that of their low words |
| `LongArithmetic.BitsWord` | src/core/execution.c:746-921 | So is that of a bitwise combination |
| `WidthLimits.NarrowComparesIff` | src/accel/accel_compile.c:3652-3724 | A 64-bit value compares as its word does, in every comparison with every number of that range, if and only if it is in the range itself |
| `WidthLimits.ByBitsIff` | src/core/execution.c:1678-1980 | The equality of an int and a 64-bit value takes the int by its bits, and is wrong if and only if both are the same negative number |
| `WidthLimits.WideShiftIff` | src/core/execution.c:998-1071 | A 64-bit right shift leaves the word the 32-bit shift leaves if and only if it brings no set bit down from the upper half |
| `WidthLimits.WideShiftAlways` | src/accel/accel_compile.c:3541-3574 | Only a shift by 0 does so for every 64-bit value |
| `WidthLimits.NarrowDividesIff` | src/accel/accel_compile.c:3509-3541 | A 64-bit dividend leaves, under every accepted divisor, the word the 32-bit quotient and remainder leave if and only if it is in the range of an int |
| `WidthLimits.WideDivisorIff` | src/accel/accel_compile.c:3509-3541 | An accepted divisor leaves the right word, as quotient and as remainder, from every 64-bit dividend if and only if it is 1 |
| `Widths.ConstantLow` | src/accel/accel_compile.c:3509-3574 | Where its guard holds, a division, remainder or shift by a folded constant of any int, float or 64-bit value is the same operation on the low word |
| `Widths.CompareLow` | src/accel/accel_compile.c:3652-3724 | Where its guard holds, a comparison of any values is the comparison of their low words |
| `Widths.ArithLow` | src/accel/accel_compile.c:3489-3649 | A sum, difference, product or bitwise operation of any values is, in its low word, the operation on their low words |
| `Widths.TruncatedMeaning` | src/accel/accel_compile.c:3352-3772 | Where every operation in it meets its guard, an expression evaluates, but for the upper words of 64-bit values, as its truncation does, and fails where that fails |
| `Widths.WidthGuards` | src/accel/accel_compile.c:3352-3772 | An expression with a width meets its guards on every input over ints and floats, and its value has that width |
| `LongExamples.LongDivisorObservable` | src/accel/accel_compile.c:3509-3541 | A concrete accepted body with a 64-bit divisor, `out[i] = -(x / 1L) < 0`, whose kernel stores 1 where the source stores 0 |
| `LongExamples.WideDividendObservable` | src/accel/accel_compile.c:3509-3541 | A concrete accepted body with exact constants and without comparison or shift, `out[i] = x / 1L * 2 / 2`, whose kernel stores a negative word where the source stores x |
| `KernelLower.KernelLowerer.constructor` | src/accel/accel_compile.c:3086-3092 | A new lowering state: no instruction, no local, no uniform |
| `KernelLower.KernelLowerer.Emit` | src/accel/accel_compile.c:4336-4363 | Appends one instruction; declines at the instruction or the value limit |
| `KernelLower.KernelLowerer.UniformValue` | src/accel/accel_compile.c:4005-4041 | Emits a uniform once and reuses its value |
| `KernelLower.KernelLowerer.GlobalIndexValue` | src/accel/accel_compile.c:4085-4109 | Emits the invocation index once and reuses it |
| `KernelLower.KernelLowerer.ResultValue` | src/accel/accel_compile.c:4044-4082 | Loads an earlier result and records the kernel as its consumer |
| `KernelLower.KernelLowerer.FindResult` | src/accel/accel_compile.c:3981-4002 | The first entry of that name among those of strictly earlier kernels |
| `KernelLower.KernelLowerer.SymbolValue` | src/accel/accel_compile.c:3910-3978 | A name resolves, in this order, to an immutable parameter, an earlier reduction or a local already assigned; the counter, a parameter the function assigns and everything else decline |
| `KernelLower.KernelLowerer.IndexValue` | src/accel/accel_compile.c:3775-3907 | A counter-affine index becomes lane + start, plus or minus the invariant, plus the offset |
| `KernelLower.KernelLowerer.ExprValue` | src/accel/accel_compile.c:3352-3486 | Expressions of every supported shape, with the errors of the others |
| `KernelLower.KernelLowerer.BinaryValue` | src/accel/accel_compile.c:3489-3649 | Two-operand arithmetic: equal operand types, constant divisors and shift amounts only |
| `KernelLower.KernelLowerer.ComparisonValue` | src/accel/accel_compile.c:3652-3724 | Comparisons of equal scalar types yield an explicit Boolean |
| `KernelLower.KernelLowerer.CoerceTo` | src/accel/accel_compile.c:4297-4333 | Only a Boolean converts, to 0 or 1 |
| `KernelLower.KernelLowerer.AddToResult` | src/accel/accel_compile.c:3214-3244 | The accumulator update becomes one atomic add of the mapped expression into the kernel's own entry |
| `KernelLower.KernelLowerer.StoreElement` | src/accel/accel_compile.c:3247-3296 | An element store lowers its index, then its value, then stores |
| `KernelLower.KernelLowerer.AssignLocal` | src/accel/accel_compile.c:3298-3347 | Assigning a local records the value as the local's current one; parameters and counters decline |
| `KernelLower.KernelLowerer.Statement` | src/accel/accel_compile.c:3192-3349 | The accumulator update is recognised before any other assignment |
| `KernelLower.KernelLowerer.Block` | src/accel/accel_compile.c:3114-3189 | The walk succeeds if and only if the body is one chain of straight blocks, within the block limit, ending with the edge back to its first block, whose statements all lower; the state is then the lowering of exactly those statements |
| `KernelLower.ChainDistinct` | src/accel/accel_compile.c:3128-3136 | A chain that ends at the back edge never repeats a block, so the premature-cycle check rejects no lowerable body |
| `KernelLower.OneChain` | src/accel/accel_compile.c:3114-3189 | A loop body has at most one such chain |
| `KernelLower.BuildKernel` | src/accel/accel_compile.c:3032-3111 | A kernel is built if and only if its name, with the index in decimal, leaves room for the terminator, there is memory and the body is lowerable; it is valid, so the failed-validation error is unreachable, and its uniforms are parameters the function never assigns, its buffers bound ones |
| `KernelLower.ChainMeans` | src/accel/accel_compile.c:3114-3189 | The chain, block by block: straight blocks of the body, each leading to the next and only the last ending the body |
| `KernelLower.LowerableMeans` | src/accel/accel_compile.c:3032-3189 | A chain within the block limit lowers if and only if its body is typed, unless its instructions may not fit |
| `KernelLower.TouchedIsBound` | src/accel/accel_compile.c:2326-2347 | Every buffer a lowered kernel loads or stores is one some kernel is recorded to touch, and has a binding with its name and class |
| `Typing.ExprTyped` | src/accel/accel_compile.c:3352-3772 | Lowering an expression succeeds, with its type, if and only if it has one that fits: every name one immutable parameter, earlier result or assigned local, equal operand types, constants and indices of the admitted form; otherwise it fails with the error of the first part that has none, or for size, and that only if 11 instructions a node could not fit |
| `Typing.BodyTyped` | src/accel/accel_compile.c:3114-3349 | A body lowers if and only if it is typed, and otherwise fails with the error of the first thing that is not, unless its instructions may not fit; every instruction then names what the typing found |
| `Typing.ReassignedNeverRead` | src/accel/accel_compile.c:3935-3941 | A body that reads a parameter the function assigns somewhere is never lowered, and the uniforms of a lowered body are parameters it never assigns |
| `KernelValidation.Validate` | src/accel/accel_ir.c:232-344 | The validator accepts exactly the valid kernels |
| `KernelSafety.AcceptedInstr` | src/accel/accel_ir.c:462-775 | One instruction is accepted if and only if its bindings exist, its operands are earlier values of the right types, a divisor is a positive literal and a shift amount a literal in 0 .. 31 |
| `KernelSafety.AcceptedKernel` | src/accel/accel_ir.c:232-344 | A kernel is accepted if and only if it is within the limits, its buffers hold ints and floats, each instruction is accepted after those before it and the value count is right |
| `KernelSafety.AcceptedRunsSafely` | src/accel/accel_ir.c:232-344 | In every execution of an accepted kernel each operand is defined with the type its instruction needs, no division is by zero or a negative number and no shift leaves 0 .. 31 |
| `KernelValidation.LoweredKernelIsValid` | src/accel/accel_ir.c:462-775 | Every lowered kernel is valid, adds only into its own entry and loads only entries of earlier kernels, all of them existing |
| `KernelValidation.ReductionFlow` | src/accel/accel_compile.c:3981-4082 | Consumer bit k of an entry is set if and only if kernel k loads it; the producer is then strictly earlier, and only the producer adds |
| `LoweringMeaning.IndexMeaning` | src/accel/accel_compile.c:3775-3907 | The emitted index equals, modulo 2^32, start + lane, plus or minus the invariant, plus the offset, for every start, sign and offset accepted |
| `LoweringMeaning.ExprMeaning` | src/accel/accel_compile.c:3352-3772 | The value emitted for an expression is the one its truncation, in which folded constants are ints, evaluates to, for every accepted expression |
| `LoweringMeaning.AtomicMeaning` | src/accel/accel_compile.c:4262-4294 | The atomic add contributes what the truncated source statement adds to the accumulator |
| `LoweringMeaning.StoreMeaning` | src/accel/accel_compile.c:4232-4259 | The emitted store writes the word the truncated source statement writes, to the same element |
| `LoweringMeaning.StatementMeaning` | src/accel/accel_compile.c:3192-3349 | Each accepted statement keeps the correspondence of memory, results and locals with the truncated source |
| `LoweringMeaning.IterationMeaning` | src/accel/accel_compile.c:3114-3189 | Running the emitted code for one lane leaves memory and results exactly as the matching iteration of the truncated body does, whatever the variables held before it, and addresses only the summarised accesses |
| `Dispatch.AnySchedule` | src/accel/accel_compile.c:2431-2533 | Any interleaving of the lanes' instructions, run to completion, leaves memory and results as the lanes run one after another |
| `Dispatch.ReductionTotal` | src/accel/accel_compile.c:4262-4294 | In any interleaving a reduction word ends as its initial value plus every lane's contribution, modulo 2^32 |
| `Dispatch.UntouchedState` | src/accel/accel_compile.c:2431-2533 | Buffers no lane writes and entries of other kernels are unchanged by any interleaving |
| `Doall.FirstOffender` | src/optimizer/hir_opt_doall.c:235-262 | The first scalar, if any, that is written, is not the counter, and is not both declared inside and written before it is read; carried between iterations unless it is declared outside and never read |
| `Doall.Classify` | src/optimizer/hir_opt_doall.c:202-413 | A loop is DOALL if and only if its summary is complete, no scalar offends, no element at a fixed index is written and no two accesses can meet in different iterations; a DOALL loop has no two accesses, one a write, to objects that may be one buffer, and a loop unknown for aliasing has two; otherwise the verdict names the incomplete summary, the first offending scalar with its reason, the kind of the first dependence in the order of the walk, or what stopped the walk |
| `Doall.PairMeaning` | src/optimizer/hir_opt_doall.c:66-85 | What two accesses are to each other, from the summary entries alone: harmless, of an unknown object, possibly of one buffer with its pair of ids in order, or dependent |
| `Doall.FreeMeans` | src/optimizer/hir_opt_doall.c:202-413 | No accesses can meet if and only if no write has a fixed index and any two accesses, one a write, are at the same counter offset of one known object or in two known objects of which one is unique or both are checked not to alias |
| `Doall.DistanceMeaning` | src/optimizer/hir_opt_doall.c:92-130 | The kind and the distance of a recorded dependence: known exactly for two accesses at the counter plus constants, and then how many iterations lie between the two accesses to the same element |
| `Doall.FreeIsIndependent` | src/optimizer/hir_opt_doall.c:202-413 | A body classified as free has independent iterations, whichever of its objects turn out to be one buffer |
| `Doall.IndependentIsFree` | src/optimizer/hir_opt_doall.c:202-413 | Where no object may alias, every body with independent iterations and no write at a fixed index is classified as free |
| `Doall.RefusalNeeded` | src/optimizer/hir_opt_doall.c:312-324 | A body refused for its accesses has two, one a write, that reach one buffer in some placement of its objects the summary allows; the iterations are then not independent, unless the two are at the same index of objects that may alias |
| `LoopMeaning.AddressInjective` | src/optimizer/hir_opt_doall.c:202-413 | Accepted accesses to one written buffer reach different elements from different lanes |
| `LoopMeaning.LoopSimulation` | src/accel/accel_compile.c:2431-2533 | The truncated loop cannot fail and the dispatch, in any interleaving, leaves the memory and the published accumulators it leaves |
| `LoopMeaning.LoopFrame` | src/accel/accel_compile.c:2431-2533 | A dispatch leaves alone every buffer its loop does not write and every other reduction |
| `SizeDag.Evaluate` | src/accel/accel_program.c:424-529 | The evaluation loop returns the checked value of the node, or none |
| `SizeDag.ValueExact` | src/accel/accel_program.c:424-529 | A checked evaluation that succeeds is the exact integer |
| `SizeDag.ValueIff` | src/accel/accel_program.c:424-529 | A node has a value if and only if it exists, the table is within its limit, and no sum, difference or multiple up to it leaves the 64-bit range |
| `SizeDag.FromHirBuilds` | src/accel/accel_compile.c:2629-2732 | The node built for a bound denotes the bound's exact value, over nodes that name only earlier nodes |
| `SizeDag.AffineBuilds` | src/accel/accel_compile.c:2775-2841 | The nodes built for an access denote base, plus or minus the invariant, plus the offset |
| `Admission.FromHirAdmits` | src/accel/accel_compile.c:2629-2732 | A bound gets a node if and only if it is a non-negative int constant, an int parameter the function never assigns, or a sum or difference of such bounds, unless the nodes may not fit |
| `Admission.AffineAdmits` | src/accel/accel_compile.c:2775-2841 | An index gets its nodes if and only if it is counter-affine over an int parameter the function never assigns, unless they may not fit |
| `SizeBounds.TableAlwaysEvaluates` | src/accel/accel_program.c:424-529 | For every vector of int arguments every node of a compiled table evaluates, without overflow, to its exact value |
| `SizeBounds.FinishedAlwaysEvaluates` | src/accel/accel_compile.c:2536-2599 | So does every node of the finished table, byte sizes included; a byte size is the element width times the exact end of the buffer, or times the exact extent of a device buffer |
| `SizeBounds.FinishedTransfers` | src/accel/accel_compile.c:2576-2596 | A device buffer is never transferred; a host buffer is always uploaded, and downloaded if and only if some loop writes it |
| `SizeBounds.OffsetOfIndex` | src/optimizer/hir_opt_analysis.c:106-213 | A normalised index has an int offset |
| `SizeBounds.BodyOffsets` | src/accel/accel_compile.c:2844-2932 | So has every access a loop body records |
| `Ranges.RangeBuilder.constructor` | src/accel/accel_compile.c:2096-2175 | An empty size table and one empty row for each buffer |
| `Ranges.RangeBuilder.Bound` | src/accel/accel_compile.c:2629-2732 | Builds the nodes of a loop bound |
| `Ranges.RangeBuilder.AdjustBy` | src/accel/accel_compile.c:2735-2772 | Adds a signed constant to a node |
| `Ranges.RangeBuilder.Affine` | src/accel/accel_compile.c:2775-2841 | Builds the nodes of an access end |
| `Ranges.RangeBuilder.Merge` | src/accel/accel_compile.c:2935-3029 | Joins a range pair, the first one by assignment |
| `Ranges.RangeBuilder.Record` | src/accel/accel_compile.c:2844-2932 | Joins one access into its kernel's and its buffer's ranges and effects |
| `Ranges.RangeBuilder.AddKernelRanges` | src/accel/accel_compile.c:2844-2932 | All accesses of a kernel, then the complete-overwrite marks |
| `Ranges.RangeBuilder.AddLoops` | src/accel/accel_compile.c:2431-2533 | Bounds, trip count and ranges of every loop in source order |
| `Ranges.RangeBuilder.FinalizeBuffers` | src/accel/accel_compile.c:2536-2599 | One byte-size node and one transfer plan for each buffer, in binding order; a buffer without a range is an error |
| `Ranges.AddKernelsDescribe` | src/accel/accel_compile.c:2431-2533 | The finished table: starts, stops and trip counts denote the loops' exact ones, and every per-kernel range denotes the join over that kernel's accesses |
| `Ranges.AddKernelsEffects` | src/accel/accel_compile.c:2844-2932 | Each kernel's read, write, read-before-write and overwrite flags describe its access list exactly |
| `Ranges.AddKernelsAccepted` | src/accel/accel_compile.c:2431-2533 | Only bounds and counter-affine indices over immutable int parameters are accepted |
| `Admission.LoopsAdmit` | src/accel/accel_compile.c:2431-2533 | A region gets its table if and only if every bound and every index of every loop has that form, unless the nodes may not fit; a buffer has a range if and only if some loop accesses it |
| `Admission.FinishedAdmits` | src/accel/accel_compile.c:2536-2599 | The finished table exists if and only if, besides, every buffer is accessed; each of its scalar nodes names an int parameter the function never assigns |
| `Admission.SingleWrite` | src/accel/accel_compile.c:2908-2929 | A complete overwrite is recorded exactly for the buffers with one write |
| `Ranges.RangeSound` | src/accel/accel_compile.c:2844-3029 | For every kernel, access and counter in start .. stop - 1 the exact index lies in the kernel's range, and that range in the aggregate |
| `Ranges.BoundsTight` | src/accel/accel_compile.c:2935-3029 | Both ends of a range are reached by some access at the loop's bounds |
| `Region.AddressExact` | src/accel/accel_compile.c:3775-3907 | The emitted index word is the exact index of the size table modulo 2^32 |
| `Region.AccessAddressed` | src/accel/accel_compile.c:3775-3907 | so it is the exact index, inside the checked range, in every accepted dispatch |
| `Region.SourceBoundIs` | src/accel/accel_compile.c:2629-2732 | The program computes a bound as the exact bound modulo 2^32, in an int if and only if no literal of it is 64-bit |
| `CountedLoop.TurnsExact` | src/core/lir.c:2497-2537 | How often a ranged loop turns, against its comparison, equality test (lines 2600-2650) and increment taken one at a time: a count, or never an end or a failure, for int and 64-bit bounds |
| `CountedLoop.TurnsDifference` | src/core/lir.c:2488-2500 | From an int below the stop it is the difference, for an int stop or a 64-bit stop below 2^32 |
| `CountedLoop.CountdownExact` | src/core/lir.c:2539-2598 | Between int bounds the countdown form, one iteration a turn, makes the turns of the plain form |
| `CountedLoop.CountdownByFour` | src/core/lir.c:2539-2598 | With four iterations a turn it ends if and only if the length is a multiple of four, after a quarter as many turns |
| `Region.CountAgreesIff` | src/accel/accel_compile.c:2629-2732 | The loop and the dispatch agree on the trip count if and only if the stop, as the program computes it, either does not exceed the start and the exact stop does not either, or is reached by an int counter and equals the exact stop |
| `Region.IntGuardIff` | src/accel/accel_compile.c:2629-2732 | Between int bounds: if and only if the exact stop is at most the largest int and, if below the smallest, still wraps to at most the start |
| `Region.ConstantStopAgrees` | src/accel/accel_compile.c:2647-2666 | A constant stop that the program computes exactly, int or 64-bit, always agrees |
| `CountExample.StopBoundWraps` | src/accel/accel_compile.c:2629-2732 | A concrete region, accepted by compiler and runtime, that the program runs no times and the accelerator 2^31 times |
| `Region.AcceptedRuns` | src/accel/accel_runtime.c:1543-1599 | What compilation and the runtime checks established is enough to dispatch |
| `RuntimeChecks.RuntimeExact` | src/accel/accel_runtime.c:1543-1599 | The runtime accepts a dispatch if and only if every start is a non-negative int, every trip count fits its word, and no access of any iteration of any kernel leaves its buffer |
| `Completeness.RegionCompiles` | src/accel/accel_compile.c:2096-2175 | A region of at most 32 loops compiles when every loop passes the classifiers: clean scalars, a typed body, no two accesses that can meet, admitted bounds and indices, all within the limits |
| `Completeness.InsideRuns` | src/accel/accel_runtime.c:1543-1599 | A compiled region runs whenever no access of any iteration leaves its buffer |
| `Region.CountsAgreeIff` | src/accel/accel_runtime.c:1543-1599 | The program makes the dispatched trips if and only if every stop meets that condition |
| `Region.RegionSimulation` | src/accel/accel_compile.c:2431-2599 | For every accepted region, arguments, buffers and interleaving of each kernel lanes, without exception: the truncated sequential loops, run as often as the trip counts say, cannot fail, the device ends with the memory they leave, and every result word is the value of its accumulator |
| `Residency.HostTransfer` | src/accel/accel_runtime.c:1708-1801 | Uploading the buffers active kernels use, dispatching and downloading the ones they write leaves every host buffer as those loops do, whatever the other device buffers held |
| `ProgramMeaning.AcceptedIndexed` | src/accel/accel_compile.c:3775-3907 | Every subscript of an accepted body is counter-affine over int arguments, so the program itself computes its index in ints |
| `ProgramMeaning.RegionLow` | src/accel/accel_compile.c:2431-2599 | Where every 64-bit operation of the program meets its guard and its loops make the dispatched trips, the truncated loops leave its memory and the low words of its variables |
| `ProgramMeaning.ProgramSimulation` | src/accel/accel_compile.c:2431-2599 | So there the program itself cannot fail, the device ends with the memory it leaves, and every result word is the low word of its accumulator |
| `ProgramMeaning.ProgramTransfer` | src/accel/accel_runtime.c:1708-1801 | The same through the host transfers |
| `ProgramMeaning.WidthsGuard` | src/accel/accel_compile.c:2431-2599 | A region whose statements have widths meets its guards on every input, if no variable holds a 64-bit value before it |
| `Residency.RunIgnores` | src/accel/accel_compile.c:2536-2599 | An invocation that loads no differing buffer computes the same on two memories |
| `Residency.CollectFirstKernel` | src/accel/accel_compile.c:1264-1340 | The facts about the first kernel: reads, writes, one write and that through the bare counter, a later read, an exact zero-based extent |
| `Residency.CollectFacts` | src/accel/accel_compile.c:1115-1168 | The facts about a local: its constructor, its declaration and size, its uses on the CPU, and those of the first kernel once the others allow it |
| `Residency.ClassifyLocal` | src/accel/accel_residency.c:17-96 | A buffer goes to the device if and only if it is a local the CPU never uses, with a valid constructor right before the region, of a positive literal or immutable int size, and the first of several loops runs from 0 to that size, never reads it and writes it in one place, at the counter, and a later loop reads it; otherwise a parameter or an unassigned local stays on the host |
| `Residency.FindLaterRead` | src/accel/accel_compile.c:1310-1321 | Whether some later kernel reads the buffer |
| `Residency.DeviceLengthMatches` | src/accel/accel_compile.c:1343-1397 | The device allocates exactly the elements the removed constructor would have created |
| `Residency.FirstKernelDefines` | src/accel/accel_residency.c:42-96 | When the facts hold the first kernel reads nothing of the buffer and its lanes write all of it |
| `Residency.DeviceElision` | src/accel/accel_residency.c:42-96 | The whole region runs the same whatever a device-local buffer held before it, so dropping its constructor cannot be observed |
| `Slots.MarkBuffers` | src/accel/accel_compile.c:2213-2262 | A catalog entry is marked read or written if and only if some access of some kernel so touches the first entry with its id; an unknown object or effect is an error |
| `Slots.AddBufferBindings` | src/accel/accel_compile.c:2265-2366 | Succeeds if and only if every touched buffer has a supported class and, as a parameter, a slot, the host locals fit in 32 slots and there is something to do; the bindings are then exactly the entries some kernel reads or writes, in catalog order, each once, with its name, its class and its slot |
| `Slots.AccessedIsBound` | src/accel/accel_compile.c:2213-2366 | So every buffer an access of some kernel touches has exactly one binding |
| `Slots.AddScalarResults` | src/accel/accel_compile.c:2369-2428 | Results take consecutive slots after every slot of the buffers, if and only if they fit |
| `Slots.LayoutClaims` | src/accel/accel_compile.c:2265-2366 | Host-backed locals take consecutive slots from the parameter count on |
| `Slots.BindingSlotsDistinct` | src/accel/accel_compile.c:2265-2366 | No two bindings share a slot |
| `Slots.NotAScalar` | src/accel/accel_compile.c:2265-2366 | No binding takes a scalar parameter's slot, and exactly the device-local ones have none |
| `Slots.ValidateNamespace` | src/accel/accel_program.c:1404-1470 | The program's own check accepts exactly the dense, duplicate-free argument arrays and never reads past its table |
| `Slots.NamespaceMeans` | src/accel/accel_program.c:1404-1470 | Accepted are exactly the arrays whose scalars and parameter buffers are parameters, with no other slot claimed twice and none left out below a claimed one |
| `Slots.RegionNamespaceDense` | src/accel/accel_program.c:1404-1470 | Every compiled layout passes it: locals then results fill the slots after the parameters without a gap |
| `RegionPartition.FindLoops` | src/accel/accel_compile.c:477-580 | Succeeds if and only if the top-level chain is acyclic, within the block limit, made of own BASIC blocks and 1 to 32 ranged loops; loops and regions are then those of the chain; otherwise it fails with the first obstacle in the order of the checks |
| `RegionPartition.AcceptableMeans` | src/accel/accel_compile.c:477-580 | The accepted chain, block by block: at most 1024 distinct own BASIC or ranged FOR blocks, each leading to the next, with 1 to 32 loops |
| `RegionPartition.FoundMeaning` | src/accel/accel_compile.c:477-580 | The first regions tile the ranged loops in order, and neighbours share one if and only if every block between them is free of statements |
| `RegionPartition.StopReasons` | src/accel/accel_compile.c:477-580 | Which failure is reported: no loop at the end, a cycle or a foreign block, a limit, or a block of another kind, exactly |
| `RegionPartition.FailureUnique` | src/accel/accel_compile.c:477-580 | A chain is rejected at one place and for one reason only |
| `RegionPartition.PartitionMeaning` | src/accel/accel_compile.c:477-580 | The regions tile the loops in order, and two neighbours are joined exactly when no statement stands between them |
| `RegionPartition.ValidateInitializer` | src/accel/accel_compile.c:680-768 | The initializer exists if and only if the accumulator is a mutable local initialized by the reduction identity and the first block leading to the loop is an own BASIC block ending with that declaration; it is that block |
| `RegionPartition.RebuildRegions` | src/accel/accel_compile.c:771-862 | The second walk terminates, meets the same loops and always succeeds: its error and limit branches are unreachable |
| `RegionPartition.RebuiltMeaning` | src/accel/accel_compile.c:771-889 | Final regions tile the loops in order, and neighbours share one if and only if every block between them is empty or the sole-statement initializer of the later loop |
| `RegionPartition.RebuildCoarsens` | src/accel/accel_compile.c:771-889 | Loops joined before are joined after |
| `EffectScan.Scan.constructor` | src/accel/accel_compile.c:897-899 | Nothing is visited or marked |
| `EffectScan.Scan.ScanExpression` | src/accel/accel_compile.c:1592-1955 | Fails exactly on malformed expressions; otherwise sets exactly the marks of the expression in its context |
| `EffectScan.Scan.ScanStatement` | src/accel/accel_compile.c:1548-1589 | Scans the value, then the target unless the statement is its declaration |
| `EffectScan.Scan.ScanArms` | src/accel/accel_compile.c:1457-1480 | Scans every arm's condition and body |
| `EffectScan.Scan.ScanBlock` | src/accel/accel_compile.c:1424-1545 | Visits only blocks reached from the given one, each under a flag it is reached with; when it completes, every mark is that of a visited block and every visited block is finished; an exhausted budget names a reachable block not visited |
| `EffectScan.Scan.ScanVisited` | src/accel/accel_compile.c:1424-1545 | What a block encloses, then what follows it |
| `EffectScan.ScanFunction` | src/accel/accel_compile.c:892-909 | The whole function, with the meaning of each of its three outcomes |
| `ScanMeaning.MarksOccur` | src/accel/accel_compile.c:1592-1955 | An expression sets a mark if and only if somewhere in it a name stands as the mark records: read, written, assigned, captured, named, passed to a call or returned |
| `ScanMeaning.MalformedOccurs` | src/accel/accel_compile.c:1592-1955 | The scan of an expression fails if and only if a malformed expression stands somewhere in it |
| `ScanMeaning.MalformedBlock` | src/accel/accel_compile.c:1424-1545 | A block is refused if and only if its shape is malformed or a malformed expression stands in one it owns |
| `ScanMeaning.BlockStands` | src/accel/accel_compile.c:1424-1545 | So does a block |
| `EffectScan.ReachableVisited` | src/accel/accel_compile.c:1424-1545 | After a completed scan every reachable block is visited |
| `ScanMeaning.ScanExact` | src/accel/accel_compile.c:892-1955 | After a completed scan a name is marked reassigned, escaped, passed to a call or returned if and only if some reachable block uses it so |
| `ScanMeaning.AccessExact` | src/accel/accel_compile.c:892-1955 | A buffer is marked read or written by the CPU if and only if some reachable block outside the selected loops reads or writes an element of it, and by the GPU if and only if some block inside does |
| `ScanMeaning.ScanCatchesAll` | src/accel/accel_compile.c:892-1955 | Where every access is through a bare name, as in all code the callback is given, a scalar is marked reassigned if and only if some reachable block assigns it outside its declaration or captures it, however deep |
| `ScanMeaning.MissedCapture` | src/accel/accel_compile.c:1672-1700 | That hypothesis is needed: a capture below any other base marks nothing |
| `EffectScan.BudgetBounds` | src/accel/accel_compile.c:1400-1421 | A scan that completes has at most 1024 reachable blocks |
| `EffectScan.OverrunMeans` | src/accel/accel_compile.c:1400-1421 | A scan that runs out of budget has more than 1024 |
| `ContextObject.AcceleratorContext.constructor` | src/accel/accel_context.c:41-83 | A detached context with the owner's reference |
| `ContextObject.Create` | src/accel/accel_context.c:41-83 | A context exists if and only if there is a virtual machine, every operation of the backend is present, and memory, mutex and condition are |
| `ContextObject.AcceleratorContext.BeginOperation` | src/accel/accel_context.c:330-354 | Claims if and only if the context is attached, not shutting down and below the counter limit; the count then grows by one and nothing else changes |
| `ContextObject.AcceleratorContext.EndOperation` | src/accel/accel_context.c:359-378 | Gives a claim back, waking everyone with the last; aborts at zero |
| `ContextObject.AcceleratorContext.BeginSessionCleanup` | src/accel/accel_context.c:387-422 | One pass of the wait: waits if and only if destruction holds the linked session, refuses an unlinked one, and otherwise claims unless the counter is full |
| `ContextObject.AcceleratorContext.RetainShell` | src/accel/accel_context.c:427-452 | Retains exactly while not destroying and the count is neither zero nor full |
| `ContextObject.AcceleratorContext.ReleaseShell` | src/accel/accel_context.c:461-496 | The last release frees, and aborts before teardown is published |
| `ContextObject.AcceleratorContext.AttachOptimizer` | src/accel/accel_context.c:574-599 | Installs its callback and attaches, once; aborts over another callback |
| `ContextObject.AcceleratorContext.DetachOptimizer` | src/accel/accel_context.c:604-628 | Removes its own callback and starts the shutdown; aborts if the callback is not its own |
| `ContextObject.AcceleratorContext.CloseClaimGate` | src/accel/accel_context.c:707-731 | Closes the gate for claims, once, after the detach |
| `ContextObject.AcceleratorContext.LinkSession` | src/accel/accel_context.c:633-664 | Appends the session; aborts if it is linked or lacks a callback |
| `ContextObject.AcceleratorContext.UnlinkSession` | src/accel/accel_context.c:669-702 | Removes the session |
| `ContextObject.AcceleratorContext.TakeHead` | src/accel/accel_context.c:740-753 | One turn of the destructor's loop takes the head |
| `ContextObject.AcceleratorContext.PublishTeardown` | src/accel/accel_context.c:772-779 | Publishes that the resources are gone |
| `SessionList.Session.constructor` | src/accel/accel_context.c:633-664 | An unlinked session |
| `SessionList.LiveSessions.constructor` | src/accel/accel_context.c:41-83 | An empty list |
| `SessionList.LiveSessions.Link` | src/accel/accel_context.c:633-664 | The doubly linked list is the old sequence with the session appended; aborts on one already linked or without its callbacks |
| `SessionList.LiveSessions.Unlink` | src/accel/accel_context.c:669-702 | The list is the old sequence without that one session, from head, middle or tail |
| `Lifetime.RunInv` | src/accel/accel_context.c:330-781 | The invariant of every interleaving: counters equal the threads' holdings, every session ever linked is in exactly one place, no wake-up is lost |
| `Lifetime.ClaimSafety` | src/accel/accel_context.c:330-422 | While any thread holds a claim the registry payloads, the backend state and the shell exist |
| `Lifetime.ClaimGranted` | src/accel/accel_context.c:330-354 | In every run any thread is granted a claim, whatever the others hold, if and only if the context is attached, not shutting down and below the counter limit; while it is attached every running thread may ask |
| `Lifetime.ReferenceGranted` | src/accel/accel_context.c:427-452 | Any thread that may ask is granted a reference if and only if destruction has not begun and the counter is not full |
| `Lifetime.CleanupGranted` | src/accel/accel_context.c:387-422 | A finalizer sleeps if and only if destruction holds its linked session, claims it if and only if destruction has not begun, and leaves empty-handed if it is not linked |
| `Lifetime.NothingGranted` | src/accel/accel_context.c:707-731 | After `destroying` is set no step grants a claim or a reference, in the windows without the mutex too |
| `Lifetime.ListShrinks` | src/accel/accel_context.c:732-755 | After the drain no session is added and each turn of the loop removes one |
| `Lifetime.ExactlyOnceTeardown` | src/accel/accel_context.c:387-422 | No session is destroyed twice, and once the resources are gone every session ever linked was destroyed exactly once |
| `Lifetime.PayloadBeforeBackend` | src/accel/accel_context.c:740-772 | A session payload is destroyed only while the backend state exists |
| `Lifetime.ShellLifetime` | src/accel/accel_context.c:427-496 | The count is the owner's reference plus those held; the shell exists exactly while it is not zero, outlives the resources, and no step touches a freed shell |
| `Lifetime.AbortsIff` | src/accel/accel_context.c:330-496 | The process stops if and only if a session finalizer finds the claim counter full before destruction; every other abort branch is unreachable |
| `Lifetime.DestroyProgress` | src/accel/accel_context.c:732-781 | If no thread waits in session cleanup while it holds a claim, some enabled step of the destructor or of a claim holder brings the end strictly closer |
| `Lifetime.BlockedIff` | src/accel/accel_context.c:732-755 | The destructor is stuck if and only if it sleeps in its drain and every claim holder sleeps in session cleanup |
| `Lifetime.DeadlockReachable` | src/accel/accel_context.c:387-422 | A concrete run into that deadlock: a thread that finalizes a session under its own claim after destruction began |
| `Lifetime.DeadlockForever` | src/accel/accel_context.c:387-422 | No step, spurious wake-ups included, leaves it |
| `Lifetime.WaitersWoken` | src/accel/accel_context.c:740-755 | Unlinking a session wakes every waiter, and a waiter for it returns without a claim |
| `Lifetime.NoSleeperLeft` | src/accel/accel_context.c:740-781 | Past the sweep nobody sleeps |
| `ContextRuns.Runner.constructor` | src/accel/accel_context.c:41-83 | Threads holding nothing around a fresh context |
| `ContextRuns.Runner.Perform` | src/accel/accel_context.c:330-781 | Each step, taken by calls on the context object with its 32-bit counters, linked list and callback, changes the state exactly as the interleaving model says, and stops the process exactly when the model does |
| `ContextRuns.Execute` | src/accel/accel_context.c:330-781 | So every run of the model can be performed on a fresh object and ends in the state of the model, with its invariant |
| `Registry.GrantedRanges` | src/accel/accel_context.c:803-921 | In every history of reserve, cancel and publish the granted ranges are disjoint, within 1 .. INT_MAX and covered by the table, whose capacity stays within 32 bits |
| `Registry.PublishedStable` | src/accel/accel_context.c:501-540 | A published ID keeps its entry |
| `Registry.CancelledNeverReused` | src/accel/accel_context.c:162-181 | A cancelled ID is never published and never granted again |
| `Registry.FailedReserve` | src/accel/accel_context.c:803-842 | A failed reservation consumes no ID and changes no entry |
| `Registry.ReserveExact` | src/accel/accel_context.c:803-872 | IDs are given if and only if some are asked for, the context admits it, none passes INT_MAX and the table and every wrapper can be allocated; which IDs, and what becomes of the table |
| `Registry.GrownExact` | src/accel/accel_context.c:890-901 | The table doubles, from at least eight entries, the fewest times that reach the request, or takes the request itself rather than double past INT_MAX |
| `Registry.CommitSlotsFree` | src/accel/accel_context.c:942-973 | The slot checks of a commit cannot fail for a reservation still held |
| `Registry.ProgramRegistry.constructor` | src/accel/accel_context.c:41-83 | An empty table and the first ID 1 |
| `Registry.ProgramRegistry.ReservationRange` | src/accel/accel_context.c:845-872 | The range exists exactly when it ends by INT_MAX, and 32-bit arithmetic on it never wraps |
| `Registry.ProgramRegistry.NewCapacity` | src/accel/accel_context.c:890-901 | Doubling that falls back to the request instead of wrapping |
| `Registry.ProgramRegistry.Grow` | src/accel/accel_context.c:875-921 | Grows without moving a published entry; without memory nothing changes |
| `Registry.ProgramRegistry.ReserveLocked` | src/accel/accel_context.c:803-842 | Allocates every wrapper, then numbers them consecutively and advances the next ID; otherwise takes none |
| `Registry.ProgramRegistry.SlotsValid` | src/accel/accel_context.c:942-973 | Accepts exactly the non-empty reservations whose slots exist and are empty |
| `Registry.ProgramRegistry.PublishLocked` | src/accel/accel_context.c:223-261 | Moves payload i into wrapper i, wrapper i into its slot, and empties the prepared array |
| `Registry.ProgramRegistry.Find` | src/accel/accel_context.c:501-520 | Returns the published entry of an ID, or none |
| `Transaction.DestroyPrepared` | src/accel/accel_callback.c:275-292 | Destroys each prepared payload once |
| `Transaction.PrepareRegions` | src/accel/accel_callback.c:112-178 | Prepares in order and, at the first region that fails or declines, gives everything back; succeeds then if and only if that region declined |
| `Transaction.ReserveIds` | src/accel/accel_context.c:88-139 | Takes the next IDs under the mutex if and only if the registry, as it is, can give them |
| `Transaction.CancelIds` | src/accel/accel_context.c:162-181 | Gives a reservation back, unpublished |
| `Transaction.PublishAndCommit` | src/accel/accel_callback.c:261-271 | Publishes every program under its ID and commits the rewrite while the mutex is held |
| `Transaction.CommitPhase` | src/accel/accel_callback.c:234-271 | Commits exactly when the context is still attached and the locals were added; otherwise gives everything back |
| `Transaction.ReserveAndCommit` | src/accel/accel_callback.c:182-271 | Reserves, checks the budget, stages and commits, or gives everything back |
| `Transaction.OptimizeClaimed` | src/accel/accel_callback.c:59-272 | The transaction under a claim |
| `Transaction.OptimizeCallback` | src/accel/accel_callback.c:27-56 | On every path nothing stays held: each payload is destroyed once or published once, plan and rewrite are freed once, the reservation is cancelled or published whole, mutex and claim are released. The rewrite commits, program i published under ID i, if and only if every region is prepared, the registry as the other threads left it has IDs to give, budget and staging apply, the context is attached and the locals are added; the callback succeeds if and only if it commits or the first step that stops it declined |

## Left out

- LoweringMeaning.IterationMeaning: takes the reduction classifier's result as an assumption: an accumulator is only updated by adding its mapped expression, and no published reduction is assigned otherwise.
- ProgramMeaning.ProgramSimulation: where a local is annotated as an int, the program checks its type at run time (`src/core/lir.c:3049-3085`) and stops on a 64-bit value; that stop is not modelled.
- LoweringMeaning.ExprMeaning: an operation that mixes an int with a float evaluates to nothing in the source model; the lowerer declines it, so no accepted body contains one.
- Residency.HostTransfer: transfers whole buffers, as `src/accel/accel_runtime.c:1602-1705` does, not the prefix up to the required end.
- Slots.BindingSlotsDistinct: assumes catalog symbols to be distinct and a parameter buffer to be a packed parameter, which the memory catalog and earlier passes establish.
- EffectScan.Scan.ScanArms: an IF block and its chain of arms is one block with a finite list of arms; a chain that is itself cyclic is not modelled.
- ScanMeaning.AccessExact: assumes that the bodies of the selected loops lead only to themselves, as every body that lowers does (`KernelLower.KernelLowerer.Block`), and are entered only from their loops.
- ScanMeaning.ScanCatchesAll: takes as a hypothesis that every access is through a bare name; packed accesses are made after the callback (`src/core/hir.c:668-706`) and always over a fresh name (`src/optimizer/hir_opt_abce.c:1950-1978`).
- Lifetime.RunInv: each session is linked at most once, and links and unlinks happen under a claim; `accel_runtime_discard_session` in the runtime unlinks a session it owns without one and is not part of this model.
- Typing.BodyTyped: bounds the emitted instructions from above, 11 a node; between that bound and the limits of 1024 it does not say which bodies decline. `Admission.LoopsAdmit` does the same for the 512 nodes of the size table.
- KernelLower.BuildKernel: allocation failure inside the instruction builder is not modelled; names are counted in characters.
- Buffers hold at most 2^31 elements, so every element has an int index.
- Scalars a loop assigns are compared after the region only where they are published reductions; the classifier admits no write to another scalar declared outside the loop (`Doall.FirstOffender`).
- The optimizer's summaries are modelled as the list of accesses a body makes, in source order, with their normalised indices.
- Doall.Classify: access and object limits of the loop summary are enforced where it is built, which is not part of this model.
- The LIR budget, the rewrite's internals, the GPU backends, device enumeration, the shader sources and the runtime package format: no part of the properties above.
- Error texts, line numbers and translation.
- `include/noct` and `resources`: declarations and vendored files.
