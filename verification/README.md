# Verified models of the boot loader's memory system and fixed-point kernels

The boot loader carves a non-cacheable window out of the address space with MPU regions, turns the data
cache on and off around that, and links DSP kernels that come as header code. This project models those
pieces and proves what they are for, over all inputs and all runs.

| file | what it models |
|---|---|
| `Bits.dfy` | powers of two, `&`, `\|`, shifts, masks and fields of unsigned words |
| `Trace.dfy` | the order of all MPU, cache and memory writes, and which of them the state of the MPU and of the cache allows |
| `Tiling.dfy` | aligned power-of-two blocks and the greedy tiling of an address range |
| `Mpu.dfy` | MPU register encoders, register writes, table loading, and the hardware's lookup |
| `MemoryMap.dfy` | the regions BOARD_ConfigMPU writes and the memory map they give |
| `Subregions.dfy`, `SubregionMinimum.dfy` | regions with subregions disabled, how many of them the tiling could save, and the least number needed |
| `Cache.dfy` | a write-back set-associative cache, its maintenance operations and the view through it |
| `SweepOrder.dfy` | what a clean-and-invalidate sweep leaves in memory from any cache contents |
| `Coherence.dfy` | runs of the cached machine against flat memory |
| `Interleaving.dfy`, `InterleavedDisable.dfy` | the cleaning functions and SCB_DisableDCache as single register writes with hardware and processor in between |
| `Scb.dfy` | the SCB cache functions with their countdown loops and register writes |
| `Board.dfy` | BOARD_ConfigMPUNonCached, BOARD_ConfigMPU, BOARD_RelocateVectorTableToRam |
| `Arithmetic.dfy` | facts about products and quotients that the numeric modules share |
| `FixedPoint.dfy` | casts, saturation, QADD/QSUB, the 32x64 product |
| `Reciprocal.dfy` | the Newton reciprocals |
| `Pid.dfy` | the Q15 PID controller, portable and DSP form |
| `Transforms.dfy` | Clarke and Park transforms and their inverses |
| `Interpolation.dfy`, `InterpolationQ31.dfy` | linear interpolation in Q15 and Q7, and in Q31 |
| `Bilinear.dfy`, `BilinearQ31.dfy` | bilinear interpolation in Q15 and Q7, and in Q31 |
| `ConstantTables.dfy`, `BilinearMonotone.dfy` | constant tables, and tables that rise along rows or columns, under bilinear interpolation |
| `CircularBuffer.dfy` | circular writes and reads |
| `BitReverse.dfy`, `Nvic.dfy` | bit reversal, priority encoding |

`dafny verify dfyconfig.toml` checks the whole project.

## Conventions

- Registers and addresses are natural numbers; `&`, `|` and shifts are the bitwise functions of `Bits`.
  `regionAddress % (1 << power) != 0` appears as `Low(address, power) != 0`; `Bits.AsDivMod` shows that the
  two are the same.
- Signed arithmetic is on mathematical integers with explicit casts. `>>` on a signed value is floor
  division. Where the C would overflow, a range is a precondition; in BOARD_ConfigMPUNonCached `1 << 31` is
  read as 0x80000000, as GCC does, so sizes below 2 GB are covered.
- The endless loop that BOARD_ConfigMPUNonCached enters on failure is the result `stuck`.
- Cache hardware follows section B2.2 of the ARMv7-M Architecture Reference Manual: write-back, no write
  allocation, line fills and evictions possible at any time while the cache is on, no lookup while it is off.
  MPU hardware follows section B3.5: the highest-numbered enabled matching region decides.
- The MPU and the system control block share a ghost log, `Trace.Recorder`, in which each write to a register or to memory
  is entered. It is there to state the order of the writes; the original has no such log.
- Barriers are no-ops. The window, the OCRAM bases and the XIP switch come from the linker and the build and
  are parameters. The OCRAM bases are multiples of 1 MB, as the hardware asks of a 1 MB region, and the regions
  that BOARD_ConfigMPU does not write are disabled on entry.

## Where code and comments disagree

- bootloader/board/board.c:302-304 suspects that the greedy choice may use too many regions. Among whole regions,
  with no subregion disabled and joined by union, it never does (`Tiling.GreedyIsMinimal`) and never gives up early
  (`Board.FitsIffCoverable`). With subregions disabled fewer regions can do, down to a quarter and no further:
  `Subregions.OneRegionForSevenEighths`, `Subregions.SubregionsSaveAtMostThreeQuarters`, `Subregions.OneRegionForFour`.
  `SubregionMinimum.CoverableIffReached` gives the minimum with subregions.
- bootloader/board/board.c:604 calls SCB_DisableDCache without the guard of bootloader/board/board.c:386. On a cache that
  is off but still holds dirty lines, the call overwrites memory with them; `Coherence.DisableFromOffPreserves` says exactly when,
  `Coherence.UnguardedDisableOverwrites` shows such a state, and `Board.RelocateVectorTableToRam` states its result from the memory that is left.
- bootloader/board/board.c:472-474 calls region 8 Normal non-cacheable. The encoded TEX, C and B are all zero,
  which the table at bootloader/board/board.c:406-407 lists as Strongly Ordered; `MemoryMap.FinalMap` says so.
- bootloader/CMSIS/arm_math.h:5157 promises no overflow for the Clarke transform. The cast of the second
  product wraps before the saturating addition; `Transforms.ClarkeSaturates` gives the exact range of Ib.
- bootloader/CMSIS/arm_math.h:5347 and 5450 promise the same for the Park transforms. A product of two -1.0 wraps;
  `Transforms.ParkSaturates` and `Transforms.InverseParkSaturates` say exactly when that changes an output. The promise
  at bootloader/CMSIS/arm_math.h:5243 for the inverse Clarke transform holds on all inputs
  (`Transforms.InverseClarkeSaturates`).
- bootloader/CMSIS/arm_math.h:808 casts where the Q31 function saturates, so for zero and negative inputs
  arm_recip_q15 wraps (`Reciprocal.Q15StepExactIff`, `Reciprocal.Q15NegativeExample`); arm_recip_q31 returns the largest
  value for them.
- arm_linear_interp_q15 and _q7 use 0xFFFFF for "one", so a positive first table entry is returned exactly for
  negative coordinates but one lower at zero. `Interpolation.WholeRangeMonotoneIff` says exactly which
  tables are affected.
- arm_linear_interp_q31 truncates its two products separately and can step back inside a segment, even on a constant
  table. `InterpolationQ31.MonotoneFromZeroIff` and `InterpolationQ31.MonotoneQ31Iff` give the exact conditions,
  `InterpolationQ31.SteepTablesAreMonotone` and `InterpolationQ31.ConstantTableIff` what they come to for steep and for
  constant tables.
- bootloader/CMSIS/arm_math.h:6896-6899 places element (x, y) of the bilinear table at x + y * numCols and line 6920 promises
  zero only outside the table. The checks at bootloader/CMSIS/arm_math.h:7100 and 7178 compare the x index with numRows and
  the y index with numCols. Cells of a wide table are answered with zero (`Bilinear.WideTableReturnsZero`), and points
  beside a tall one with a value from the rows below (`Bilinear.TallTableReadsOn`). `Bilinear.InterpolatesIff` says exactly
  which cells are interpolated, `Bilinear.AnswersZeroIff` which points are answered with zero, and
  `Bilinear.ZeroOutsideIff` for which table sizes the promise is kept.
- arm_bilinear_interp_q31 shifts its 32-bit sum left by two at bootloader/CMSIS/arm_math.h:7064. That wraps for entries near
  -1.0: a constant table of -1.0 is answered with almost +1.0 (`BilinearQ31.FullScaleWraps`). Corners that are all at least
  -2^31 + 13 never wrap, and corners that are all lower do at some fractions (`BilinearQ31.SafeCorners`,
  `BilinearQ31.UnsafeCorners`).
- The formula at bootloader/CMSIS/arm_math.h:6910-6914 reproduces constant tables. The code uses 0xFFFFF for "one", cuts four
  bits off each first product in Q15 and cuts every product twice in Q31. `ConstantTables.ConstantQ7Iff`,
  `ConstantTables.ConstantQ15Iff` and `ConstantTables.ConstantQ31Iff` say exactly which constants come back at every point.
- The comments at bootloader/CMSIS/arm_math.h:6067 and 6121 speak of negative offsets; only the upper bound is
  handled. `CircularBuffer.InBoundsIff` says exactly which walks stay inside the buffer.

## Model

| member | source | states |
|---|---|---|
| Tiling.GreedyIsMaximalBlocks | bootloader/board/board.c:300-334 | The blocks chosen by the loop are exactly the maximal size-aligned power-of-two blocks of the range |
| Tiling.GreedyIsMinimal | bootloader/board/board.c:300-334 | No list of whole aligned power-of-two blocks, overlapping or not, with exactly that union is shorter |
| Tiling.GreedyIsCover | bootloader/board/board.c:300-334 | The blocks are aligned to their own size and their union is exactly the range |
| Tiling.GreedyOrdered | bootloader/board/board.c:300-334 | The blocks are pairwise disjoint and in address order |
| Tiling.GreedyShape | bootloader/board/board.c:308-333 | Block sizes strictly increase and then strictly decrease |
| Tiling.AtMostTwoPerSize | bootloader/board/board.c:308-333 | No three blocks have the same size |
| Tiling.GreedyCountBound | bootloader/board/board.c:308-333 | At most 2 * (floor(log2 size) - 4) regions are needed when every block has at least 32 bytes |
| Tiling.GrowPower | bootloader/board/board.c:309-312 | The first inner loop finds the largest power of two not above the size |
| Tiling.ShrinkPower | bootloader/board/board.c:314-320 | The second inner loop finds the largest power not above it that divides the address |
| Board.FindPower | bootloader/board/board.c:305-320 | The two inner loops compute the block power of the tiling |
| Board.ConfigMPUNonCached | bootloader/board/board.c:295-343 | Returns exactly when the window is a union of at most 15 - first whole regions; the regions from `first` on then hold the base and the attribute word of each tiling block, written in that order, and the others are unchanged |
| Board.FitsByTiling | bootloader/board/board.c:321-342 | Multiples of 32 and enough regions for the maximal blocks is the same as: all tiling blocks have 32 bytes and they are few enough |
| Board.FitsIffCoverable | bootloader/board/board.c:297-342 | The greedy choice fits if and only if the window is exactly the union of some choice of whole regions (no subregion disabled) within the budget |
| Subregions.MaskedMatches | bootloader/CMSIS/mpu_armv7.h:75-124 | A region with a subregion disable field matches exactly the addresses of its enabled eighths |
| Subregions.OneRegionForSevenEighths | bootloader/board/board.c:302-304 | One region with its last subregion disabled covers a window for which every choice of whole regions needs three |
| Subregions.SubregionsSaveAtMostThreeQuarters | bootloader/board/board.c:302-304 | A window that is the union of n regions with any subregions disabled is the union of at most 4 n whole regions |
| Subregions.WholeRegionsAreMasked | bootloader/board/board.c:302-304 | The other way round, n whole regions are n regions with subregions |
| Subregions.OneRegionForFour | bootloader/board/board.c:302-304 | The factor of four is reached |
| Subregions.MaskedCoverFits | bootloader/board/board.c:297-342 | The function succeeds wherever a quarter of the budget would do with subregions |
| SubregionMinimum.CoverableIffReached | bootloader/board/board.c:302-304 | A window is the union of n regions with any subregions disabled if and only if n steps that always extend furthest reach its end |
| SubregionMinimum.StretchMask | bootloader/CMSIS/mpu_armv7.h:87-124 | Every run of whole subregions of a block is exactly what one region covers |
| Board.SetFixedRegions | bootloader/board/board.c:439-484 | Regions 0 to 10 end up with their configurations, written in order; region 9 only with XIP; higher regions are untouched |
| MemoryMap.FinalMap | bootloader/board/board.c:327-333 | Every address has on the window full access, executable, Normal non-cacheable, and elsewhere the fixed map; the uncached OCRAM is Strongly Ordered |
| MemoryMap.FixedMapTypes | bootloader/board/board.c:439-482 | The fixed map by literal address range, with register fields and memory type: SDRAM, TCMs and cached OCRAM write-back with full access, XIP flash write-back and read-only, uncached OCRAM Strongly Ordered, peripherals and the rest of the first gigabyte Device, everything else no access and execute never |
| MemoryMap.FixedPlanLookup | bootloader/board/board.c:439-484 | The priorities of regions 0 to 10 resolve to the address-range map |
| MemoryMap.ProgrammedMatches | bootloader/CMSIS/mpu_armv7.h:75-109 | A region written by RBAR and RASR matches exactly the addresses of its block and carries its attributes |
| MemoryMap.LookupFollowsPlan | bootloader/CMSIS/mpu_armv7.h:75-124 | The hardware's lookup in the registers is the lookup in the configuration they implement |
| Board.ConfigMPU | bootloader/board/board.c:345-497 | Returns exactly when four whole regions can cover the window; then the memory map is final, the MPU and the data cache are on, the program's memory is unchanged, also when the cache was off with arbitrary contents, and the register writes are exactly those of the source in order; otherwise it stays in the endless loop with both off |
| Board.ConfigGuarded | bootloader/board/board.c:384-492 | In that order of writes no region register is written while the MPU or the data cache is on, the cache is switched on after the MPU, and both end up on |
| Board.RelocateVectorTableToRam | bootloader/board/board.c:597-626 | From a consistent cache that is on, or any cache that is off: afterwards the program sees the stack top in the first word, the bytes 4 to 0x3FF of the table after it, and every other word as the unguarded disable left it, which is the program's memory when the cache was on or its dirty lines were harmless; the cache is switched off before the 257 stores and on after them, and is coherent |
| Mpu.RasrRoundTrip | bootloader/CMSIS/mpu_armv7.h:87-124 | Every field encoded into RASR is read back by the hardware, cut to its width |
| Mpu.RasrValue | bootloader/CMSIS/mpu_armv7.h:87-124 | The attribute word bit by bit |
| Mpu.RbarValue | bootloader/CMSIS/mpu_armv7.h:75-78 | The base word bit by bit |
| Mpu.RbarRoundTrip | bootloader/CMSIS/mpu_armv7.h:75-78 | The hardware reads VALID, the low four bits of the region number, and the base with its low five bits cleared |
| Mpu.Peripheral.SetRegion | bootloader/CMSIS/mpu_armv7.h:225-229 | For any two words, the region named in the first, or the one selected before when VALID is clear, holds the base without its low five bits and the second word; written in that order |
| Mpu.Peripheral.OrderedMemcpy | bootloader/CMSIS/mpu_armv7.h:248-255 | Copies words in order into RBAR, RASR and their aliases |
| Mpu.Peripheral.Load | bootloader/CMSIS/mpu_armv7.h:261-270 | For every table length, leaves the same registers as setting each entry in order, and writes the words of the table in order |
| Mpu.LoadedRegion | bootloader/CMSIS/mpu_armv7.h:261-270 | Every region that some entry of a table goes to ends up with the pair of the last such entry, whatever its words |
| Mpu.UntouchedRegion | bootloader/CMSIS/mpu_armv7.h:261-270 | A region that no entry goes to is unchanged |
| Mpu.BurstIsTable | bootloader/CMSIS/mpu_armv7.h:264-269 | One burst through the alias registers continues an in-order load |
| Coherence.RunsReadFlatMemory | bootloader/CMSIS/core_cm7.h:2325-2501 | From power-up with arbitrary cache contents, after SCB_EnableDCache every run shows the program what flat memory would |
| Coherence.RunsReachMemory | bootloader/CMSIS/core_cm7.h:2365-2501 | At the end of such a run, disabling or cleaning the whole cache leaves flat memory in the backing memory |
| Coherence.StepRefines | bootloader/CMSIS/core_cm7.h:2325-2591 | Each access, fill, eviction, single cleaning register write and cache function is the same step of flat memory |
| Coherence.EnableRefines | bootloader/CMSIS/core_cm7.h:2325-2358 | Enabling from off keeps memory whatever the cache contained |
| Coherence.DisableRefines | bootloader/CMSIS/core_cm7.h:2365-2396 | Disabling writes everything back and empties the cache |
| Coherence.GuardedRestart | bootloader/board/board.c:386-389 | Disabling only when on, then enabling, keeps the program's memory from any state |
| Coherence.DisabledMemory | bootloader/CMSIS/core_cm7.h:2365-2396 | From any cache contents, disabling gives each line the data of the dirty line for it that the sweep names last, if there is one, and changes no other |
| Coherence.DisableFromOffPreserves | bootloader/board/board.c:386-389 | Without the guard, disabling from off, with any contents, keeps memory if and only if those last named dirty lines equal memory |
| Coherence.HarmlessWhenEqual | bootloader/board/board.c:386-389 | It is enough that all dirty lines equal memory, and in a consistent cache also necessary |
| Coherence.UnguardedDisableOverwrites | bootloader/board/board.c:604 | A consistent cache that is off and holds one dirty line: disabling it overwrites memory with that line |
| Coherence.CleanRangeReachesMemory | bootloader/CMSIS/core_cm7.h:2542-2591 | After a clean by address, memory holds the program's data in every line that meets the range |
| Coherence.InvalidateRangeReadsMemory | bootloader/CMSIS/core_cm7.h:2512-2531 | After an invalidate by address, lines meeting the range are read from memory and all others keep their contents |
| Cache.SweepCleans | bootloader/CMSIS/core_cm7.h:2438-2501 | A whole-cache clean keeps the view and brings memory up to it; with invalidation the cache is empty |
| Cache.SweepInvalidates | bootloader/CMSIS/core_cm7.h:2403-2431 | A whole-cache invalidate keeps memory and empties any cache |
| SweepOrder.SweepMemory | bootloader/CMSIS/core_cm7.h:2381-2391 | Memory after a clean-and-invalidate sweep, line by line, from any cache contents |
| Interleaving.SweepIsItsWrites | bootloader/CMSIS/core_cm7.h:2438-2501 | A whole-cache function is the run of its register writes |
| Interleaving.InterleavedSweepReachesMemory | bootloader/CMSIS/core_cm7.h:2438-2501 | With loads, other stores, fills, evictions and write-backs between the register writes, a whole-cache clean still brings memory up to date in every line not stored to meanwhile |
| Interleaving.InterleavedRangeReachesMemory | bootloader/CMSIS/core_cm7.h:2542-2591 | The same for a clean by address, on the lines that meet the range |
| InterleavedDisable.InterleavedDisable | bootloader/CMSIS/core_cm7.h:2365-2396 | Disabling as a switch-off followed by register writes with accesses in between: the cache ends off and empty; a line without a dirty copy at the switch-off keeps every store made meanwhile, and of a line with one only the stores after the event that writes the copy back survive |
| InterleavedDisable.WhichStoresSurvive | bootloader/CMSIS/core_cm7.h:2365-2396 | Stores to a line only after its write-back all survive; stores only before it are all lost |
| InterleavedDisable.UntouchedLinesSurvive | bootloader/CMSIS/core_cm7.h:2365-2396 | A line not stored to meanwhile reaches memory with the program's data |
| Cache.SweepIssuesEachOnce | bootloader/CMSIS/core_cm7.h:2381-2391 | With at most 512 sets and 4 ways each set and way is named by exactly one operand of a sweep |
| Cache.WideGeometryCollides | bootloader/CMSIS/core_cm7.h:816-834 | Beyond 512 sets or 4 ways two lines share an operand |
| Cache.SetWayWordFields | bootloader/CMSIS/core_cm7.h:2344-2345 | The operand carries set and way where the hardware reads them |
| Cache.SweepInOrder | bootloader/CMSIS/core_cm7.h:2381-2391 | The operand at each position of a sweep, as a number: sets count down, and ways within each set |
| Cache.RangeTouchesExactly | bootloader/CMSIS/core_cm7.h:2512-2591 | The by-address loops name exactly the 32-byte lines that meet the range, each once, for any alignment |
| Scb.CcsidrFields | bootloader/CMSIS/core_cm7.h:2231-2232 | The two macros extract the NumSets and Associativity fields |
| Scb.ControlBlock.ForEachSetAndWay | bootloader/CMSIS/core_cm7.h:2381-2391 | The nested countdowns perform the sweep and issue exactly its operands in order |
| Scb.ControlBlock.EnableDCache | bootloader/CMSIS/core_cm7.h:2325-2358 | Does nothing when enabled; otherwise selects the data cache, invalidates everything and switches on, in that order of writes |
| Scb.ControlBlock.DisableDCache | bootloader/CMSIS/core_cm7.h:2365-2396 | Switches off, then cleans and invalidates everything, in that order of writes |
| Scb.ControlBlock.InvalidateDCache | bootloader/CMSIS/core_cm7.h:2403-2431 | Invalidates everything |
| Scb.ControlBlock.CleanDCache | bootloader/CMSIS/core_cm7.h:2438-2466 | Cleans everything |
| Scb.ControlBlock.CleanInvalidateDCache | bootloader/CMSIS/core_cm7.h:2473-2501 | Cleans and invalidates everything |
| Scb.ControlBlock.ByAddr | bootloader/CMSIS/core_cm7.h:2512-2591 | Nothing for a size that is not positive; otherwise one operation for each operand of the range, in order |
| FixedPoint.ClipIsClamp | bootloader/CMSIS/arm_math.h:670-675 | The word comparison clamps every 64-bit value to 32 bits |
| FixedPoint.SaturatingSums | bootloader/CMSIS/arm_math.h:1055-1071 | QADD and QSUB saturate |
| FixedPoint.Mult32x64IsFloor | bootloader/CMSIS/arm_math.h:710-716 | The two-part product is the floor of the full product |
| Reciprocal.NewtonIdentity | bootloader/CMSIS/arm_math.h:753-759 | The scaled new error is the square of the old error plus two truncation terms |
| Reciprocal.NewtonBounds | bootloader/CMSIS/arm_math.h:753-759 | A step never overestimates, from any estimate, with that error bound |
| Reciprocal.Q31TwoPasses | bootloader/CMSIS/arm_math.h:749-759 | From a table entry within 2^54, two steps give 0 < 2^61 - N*out < 2^34 |
| Reciprocal.RecipQ31 | bootloader/CMSIS/arm_math.h:721-766 | For a positive input the method returns that result, never saturating; for zero and negative inputs the largest value; the second result is the number of sign bits that normalises the magnitude to 31 bits, plus one |
| Reciprocal.Q15TwoPasses | bootloader/CMSIS/arm_math.h:799-808 | From a table entry within 2^22, two steps give 0 < 2^29 - N*out < 2^16 + 2^5 |
| Reciprocal.RecipQ15 | bootloader/CMSIS/arm_math.h:772-816 | The same accuracy for positive inputs of the Q15 function, and the normalising sign bits for all; for other inputs two Newton steps, each cut to 16 bits |
| Reciprocal.Q15StepCast | bootloader/CMSIS/arm_math.h:803-810 | From every estimate the Q15 loop body is the Newton step cut to 16 bits: no other cast loses a value |
| Reciprocal.Q31StepExact | bootloader/CMSIS/arm_math.h:753-759 | For every normalised input the loop body is the saturated Newton step |
| Reciprocal.Q15StepExactIff | bootloader/CMSIS/arm_math.h:803-810 | The Q15 loop body is the Newton step if and only if the input is positive |
| Reciprocal.MidpointEntriesServeQ31 | bootloader/CMSIS/arm_math.h:743-748 | Entries computed for bucket midpoints meet the hypothesis for every Q31 input |
| Reciprocal.MidpointEntriesServeQ15 | bootloader/CMSIS/arm_math.h:793-797 | The same for Q15 |
| Pid.Conservation | bootloader/CMSIS/arm_math.h:5040-5060 | On every run, saturating or not, the positional PID law minus the scaled output is the sum of what the steps discarded |
| Pid.ResidueRange | bootloader/CMSIS/arm_math.h:5051-5054 | A step discards between 0 and 2^15 - 1 if and only if it does not saturate |
| Pid.DriftBound | bootloader/CMSIS/arm_math.h:5023-5060 | Without saturation the output drifts from the positional law by less than one LSB for each sample |
| Pid.DspAccumulator | bootloader/CMSIS/arm_math.h:5030-5047 | The packed accumulator is the portable one plus 1 exactly when A0 and the input are negative |
| Pid.OneStepDifference | bootloader/CMSIS/arm_math.h:5030-5054 | From equal states the DSP output is at least the portable one and at most one higher |
| Pid.DspDiffersIff | bootloader/CMSIS/arm_math.h:5030-5054 | It is one higher if and only if A0 and the input are negative, the fraction of the accumulator is all ones and the quotient is below the upper limit and not below the lower one; all else of the state is equal |
| Pid.DspDiffersExample | bootloader/CMSIS/arm_math.h:5030-5054 | An input where they differ |
| Pid.RunDifference | bootloader/CMSIS/arm_math.h:5023-5060 | Over whole runs, through saturation, the DSP output exceeds the portable one by at most the number of negative inputs, and not at all when A0 >= 0 |
| Pid.Instance.Process | bootloader/CMSIS/arm_math.h:5023-5060 | The output of the portable branch is the clamped quotient of the sum of the four products, and the state is the input, the previous input and the output |
| Pid.Instance.ProcessDsp | bootloader/CMSIS/arm_math.h:5030-5060 | The same for the DSP branch, with one added to the sum exactly when A0 and the input are negative |
| Transforms.ClarkeSaturates | bootloader/CMSIS/arm_math.h:5159-5178 | Beta is the saturated sum if and only if Ib is within the limit at which the product cast wraps |
| Transforms.ClarkeRoundTrip | bootloader/CMSIS/arm_math.h:5245-5264 | When the forward transform does not overflow, the inverse returns Ia exactly and Ib within 3 below and 1 above |
| Transforms.ClarkeAccuracy | bootloader/CMSIS/arm_math.h:5159-5178 | Without overflow (Ia + 2 Ib) / sqrt(3) exceeds beta by more than -1/2 and less than 5/2, compared by squares; and by 0 to 2 units with the integer constant in place of 1 / sqrt(3) |
| Transforms.ParkAccuracy | bootloader/CMSIS/arm_math.h:5349-5378 | Without overflow d and q are the rotated coordinates to within two units and one unit |
| Transforms.ProductExact | bootloader/CMSIS/arm_math.h:5361-5371 | A product cast is exact unless both factors are -1.0 |
| Transforms.ParkSaturates | bootloader/CMSIS/arm_math.h:5344-5378 | d and q are the saturated sum and difference if and only if no product of two -1.0 changes them |
| Transforms.InverseParkSaturates | bootloader/CMSIS/arm_math.h:5447-5481 | The same for the inverse |
| Transforms.InverseClarkeSaturates | bootloader/CMSIS/arm_math.h:5240-5264 | The inverse Clarke output is the saturated difference on all inputs |
| Transforms.ParkRoundTrip | bootloader/CMSIS/arm_math.h:5349-5481 | Park and inverse Park return alpha within 4 LSB and beta within 5, plus the coordinate times the error of sin^2 + cos^2 |
| Interpolation.Q15Interpolates | bootloader/CMSIS/arm_math.h:5651-5693 | On a nondecreasing table the function is nondecreasing from zero on and stays in its segment, widened by one below |
| Interpolation.Q7Interpolates | bootloader/CMSIS/arm_math.h:5708-5750 | The same for Q7 |
| Interpolation.SegmentHull | bootloader/CMSIS/arm_math.h:5676-5692 | For any table, Q15 and Q7 values stay between the two neighbours, widened by one below |
| Interpolation.WholeRangeMonotoneIff | bootloader/CMSIS/arm_math.h:5666-5674 | Over all signed coordinates both are monotone if and only if the table has one entry or starts at or below zero |
| Interpolation.LinearNearFormula | bootloader/CMSIS/arm_math.h:5651-5750 | At every coordinate of every table, in Q15 and in Q7: the first entry below zero, the last one beyond the end, and otherwise the documented formula within the share of the left entry that 0xFFFFF leaves out and less than one unit |
| Interpolation.Halfway | bootloader/CMSIS/arm_math.h:5678-5692 | Halfway between 0 and 1000 the Q15 function gives 500 |
| InterpolationQ31.LinearQ31NearFormula | bootloader/CMSIS/arm_math.h:5593-5635 | The same for Q31, within four units |
| InterpolationQ31.MonotoneFromZeroIff | bootloader/CMSIS/arm_math.h:5593-5635 | On a nondecreasing table the Q31 function is nondecreasing from zero on if and only if in every reachable segment the entries differ in their upper eleven bits or every fraction that borrows also carries |
| InterpolationQ31.MonotoneQ31Iff | bootloader/CMSIS/arm_math.h:5593-5635 | Over all signed coordinates it is nondecreasing if and only if, besides, the table has one entry or starts with an even entry at or below zero |
| InterpolationQ31.SteepTablesAreMonotone | bootloader/CMSIS/arm_math.h:5593-5635 | A table that rises by at least 2^21 at each entry is interpolated monotonically from zero on |
| InterpolationQ31.ConstantTableIff | bootloader/CMSIS/arm_math.h:5593-5635 | Exactly which constant tables are reproduced monotonically, by the power of two that divides the entry; for odd negative entries by the residues of the fractions |
| InterpolationQ31.BoundaryNeverStepsBack | bootloader/CMSIS/arm_math.h:5593-5635 | From a segment to the start of a later one, or to the clamp at the end, the function never steps back |
| InterpolationQ31.Q31AlmostMonotone | bootloader/CMSIS/arm_math.h:5593-5635 | From zero on, on a nondecreasing table, the Q31 function steps back by two units at most |
| InterpolationQ31.Q31AlmostMonotoneEverywhere | bootloader/CMSIS/arm_math.h:5593-5635 | Over all coordinates, by four units at most |
| InterpolationQ31.Q31StepsBack | bootloader/CMSIS/arm_math.h:5626-5634 | Both bounds are reached, on constant tables |
| InterpolationQ31.SegmentHullQ31 | bootloader/CMSIS/arm_math.h:5626-5634 | For any table, Q31 values stay between the two neighbours, widened by four below |
| Bilinear.InterpolatesIff | bootloader/CMSIS/arm_math.h:7098-7103 | A cell of the table is interpolated for all data if and only if its x index is below numRows and its y index below numCols, in Q15 and in Q7 |
| Bilinear.SquareTablesInterpolate | bootloader/CMSIS/arm_math.h:7098-7103 | In a square table every cell is interpolated |
| Bilinear.WideTableReturnsZero | bootloader/CMSIS/arm_math.h:7098-7103 | A cell inside a wide table is answered with zero |
| Bilinear.AnswersZeroIff | bootloader/CMSIS/arm_math.h:7098-7103 | A point is answered with zero for all data if and only if an index is negative, the x index is at least numRows or the y index at least numCols, in Q15 and in Q7 |
| BilinearQ31.AnswersZeroIffQ31 | bootloader/CMSIS/arm_math.h:7024-7029 | The same for Q31 |
| Bilinear.ZeroOutsideIff | bootloader/CMSIS/arm_math.h:6920 | Every coordinate outside the table is rejected if and only if the table is square, empty, or too large for a coordinate to leave it on either side |
| Bilinear.TallTableReadsOn | bootloader/CMSIS/arm_math.h:7098-7103 | A point beside a tall table is answered with a value read from the rows below |
| Bilinear.BilinearQ15OnCell | bootloader/CMSIS/arm_math.h:7075-7143 | On every cell of the table: zero when the check rejects it, and otherwise in the hull of the corners widened by one below, and from 1 + 2^-4 + 2^-14 units below to 2^-4 above the documented formula |
| Bilinear.BilinearQ7OnCell | bootloader/CMSIS/arm_math.h:7153-7217 | The same, from 1 + 2^-12 units below to 2^-12 above the formula |
| Bilinear.MixQ15Exact | bootloader/CMSIS/arm_math.h:7121-7138 | No 32-bit or 64-bit cast of the Q15 arithmetic loses a value |
| Bilinear.MixQ7Exact | bootloader/CMSIS/arm_math.h:7198-7212 | The same for Q7 |
| BilinearQ31.NeverWrapsIff | bootloader/CMSIS/arm_math.h:7044-7065 | Every choice of four corners from `low` up keeps the final shift of the Q31 function from wrapping, at all fractions, if and only if `low` is at least -2^31 + 13 |
| BilinearQ31.SafeCorners | bootloader/CMSIS/arm_math.h:7044-7065 | Four corners that are all at least -2^31 + 13 never wrap |
| BilinearQ31.UnsafeCorners | bootloader/CMSIS/arm_math.h:7044-7065 | Four corners that are all below that limit wrap at some fractions |
| BilinearQ31.ConstantNeverWrapsIff | bootloader/CMSIS/arm_math.h:7044-7065 | Four equal corners never wrap if and only if they are at least the limit |
| BilinearQ31.LowCornerCanBeSafe | bootloader/CMSIS/arm_math.h:7044-7065 | One corner of -1.0 beside three of zero never wraps |
| BilinearQ31.FullScaleWraps | bootloader/CMSIS/arm_math.h:7044-7065 | A constant table of -1.0 is answered with almost +1.0 |
| BilinearQ31.BilinearQ31OnCell | bootloader/CMSIS/arm_math.h:7001-7065 | On every cell of every table: zero when the check rejects it; otherwise within 24 units below and 2 above the documented formula if and only if the shift does not wrap, and then in the hull of the corners widened by as much; where it wraps the documented value is within 24 units of -1.0 and the result within 25 of +1.0 |
| ConstantTables.ConstantQ7Iff | bootloader/CMSIS/arm_math.h:7198-7216 | Q7 reproduces a constant at every point if and only if it is not positive; a positive one reads one lower everywhere |
| ConstantTables.ConstantQ15Iff | bootloader/CMSIS/arm_math.h:7121-7142 | Q15 reproduces exactly the constants 0, -8, -12 and all from -14 down |
| ConstantTables.ConstantQ31Iff | bootloader/CMSIS/arm_math.h:7047-7065 | Q31 reproduces no constant but zero |
| ConstantTables.ConstantTableReadsLow | bootloader/CMSIS/arm_math.h:7075-7217 | A constant table of 5 reads 4 in Q15 and in Q7 |
| BilinearMonotone.AlongRow | bootloader/CMSIS/arm_math.h:7001-7217 | Along a row of a table whose rows are nondecreasing, within and across cells, Q7 never steps back, Q15 by one unit at most, and Q31 by twenty where its shift fits |
| BilinearMonotone.AlongColumn | bootloader/CMSIS/arm_math.h:7001-7217 | The same along a column |
| CircularBuffer.SlotValue | bootloader/CMSIS/arm_math.h:6067-6070 | For an increment up to the length, the offset after k samples is the start plus k increments, modulo the length |
| CircularBuffer.InBoundsIff | bootloader/CMSIS/arm_math.h:6067-6070 | For every increment, negative ones included, exactly which block sizes stay inside the buffer |
| CircularBuffer.TwoWrites | bootloader/CMSIS/arm_math.h:6040-6078 | Writing a block in two calls equals writing it in one |
| CircularBuffer.LastWriteWins | bootloader/CMSIS/arm_math.h:6059-6074 | A cell holds the last sample that goes to it |
| CircularBuffer.ReadAfterWrite | bootloader/CMSIS/arm_math.h:6040-6135 | A read from the offset of a write returns the block, whatever it is, if and only if block size times gcd(increment, length) is at most the length; for increments outside that range always |
| CircularBuffer.DistinctIff | bootloader/CMSIS/arm_math.h:6067-6070 | No cell is visited twice under exactly that condition |
| CircularBuffer.DestinationIff | bootloader/CMSIS/arm_math.h:6113-6119 | Reads of every block size stay inside the destination if and only if the step is zero, or positive with both the destination and the part from the start on a whole number of steps |
| CircularBuffer.OneTurnDistinct | bootloader/CMSIS/arm_math.h:6067-6070 | No cell is visited twice while the samples span at most one turn |
| CircularBuffer.UnitIncrement | bootloader/CMSIS/arm_math.h:6040-6135 | With increment one and at most a bufferful, the block comes back and all other cells are unchanged |
| CircularBuffer.Write | bootloader/CMSIS/arm_math.h:6040-6078 | For every increment and length whose walk stays inside, the loop writes the picked samples in order and returns the next offset cut to 16 bits |
| CircularBuffer.WriteCell | bootloader/CMSIS/arm_math.h:6059-6074 | A visited cell holds the source sample at `start` plus k source increments, for the last k that goes to it |
| CircularBuffer.SourceComesBack | bootloader/CMSIS/arm_math.h:6040-6135 | With unit increments, what is read back is the stretch of the source that was written |
| CircularBuffer.NewOffset | bootloader/CMSIS/arm_math.h:6067-6077 | For a buffer of up to 2^16 cells and an increment up to the length, the returned offset is the start plus all increments, modulo the length |
| CircularBuffer.Read | bootloader/CMSIS/arm_math.h:6084-6135 | For every pair of walks that stay inside, the loop delivers the samples in order into the destination, itself walked circularly |
| CircularBuffer.DstSlotValue | bootloader/CMSIS/arm_math.h:6113-6119 | In whole steps, destination cell k is the start plus k steps, modulo the length |
| CircularBuffer.ReadCell | bootloader/CMSIS/arm_math.h:6105-6131 | A visited destination cell holds the buffer cell of the last sample that goes to it |
| CircularBuffer.UnitDestination | bootloader/CMSIS/arm_math.h:6105-6131 | With step one from the first cell, sample k goes to destination cell k and the rest is unchanged |
| BitReverse.Rbit | bootloader/CMSIS/cmsis_gcc.h:1045-1069 | The early-exit loop moves all 32 bits across |
| BitReverse.ReversesBits | bootloader/CMSIS/cmsis_gcc.h:1045-1069 | Bit i goes to position 31 - i for every input |
| BitReverse.Involution | bootloader/CMSIS/cmsis_gcc.h:1045-1069 | Reversing twice gives the word back |
| Nvic.DecodeEncode | bootloader/CMSIS/core_cm7.h:2079-2117 | Decoding inverts encoding on the masked inputs |
| Nvic.EncodeDecode | bootloader/CMSIS/core_cm7.h:2079-2117 | Every code of the implemented width is the encoding of its parts |
| Nvic.EncodeInRange | bootloader/CMSIS/core_cm7.h:2079-2092 | Every encoding fits the implemented priority bits |
| Nvic.EncodeOrders | bootloader/CMSIS/core_cm7.h:2079-2092 | Code order is the lexicographic order of preemption priority and subpriority |
| Nvic.BinaryPoint | bootloader/CMSIS/core_cm7.h:2106-2117 | Decoding agrees with the hardware's split of the priority byte above bit PRIGROUP |

## Left out

- Reciprocal.RecipQ31: takes the accuracy of the selected table entry as a hypothesis (for inputs that are not positive only its size), because the table contents are not part of this model; the most negative input is left out, because its magnitude does not fit 32 bits. The same holds for the Q15 function.
- Reciprocal.RecipQ15: for zero and negative inputs the two steps, each cut to 16 bits, have no relation to the reciprocal, and none is stated.
- Bilinear.BilinearQ15OnCell: the last row and column, which the bounds check may also admit, need entries beyond the table; no bound is stated there. The floating-point bilinear function is not modelled.
- CircularBuffer.Read: source, buffer and destination do not overlap.
- SubregionMinimum.CoverableIffReached: overlays by regions of other attributes are not considered as a means to cover a window.
- Board.RelocateVectorTableToRam: interrupt masking, the instruction cache and the write of VTOR are not modelled; the two tables must not overlap.
- Coherence.RunsReadFlatMemory: whole-cache and by-address functions are single steps of these runs; the modules on interleaving take them apart.
- Board.ConfigMPUNonCached: windows of 2 GB and more are not modelled, because the C shift overflows there.
- Memory accesses of the cache model are whole words; byte and halfword accesses are not modelled.
- Memory types are not fed back into the cache model: every line may be cached.
- Write-through and write-allocate policies, the instruction cache, timing, speculative prefetch and errata.
- arm_pid_q31 (its final addition wraps), arm_pid_f32 and the other floating-point and NEON variants.
- The Cortex-M4 variant of BOARD_ConfigMPU, and the fault enable bit that ARM_MPU_Enable and ARM_MPU_Disable also switch.
- Functions of arm_math.h that are prototypes only, and the 8-bit and 16-bit lane operations.
- clip_q31_to_q7, clip_q63_to_q15 and clip_q31_to_q15, rotation, unsigned saturation and the start-up copy loops.
- A bare SCB_InvalidateDCache as a step of a coherent run, because it discards dirty data by design.
- Register pokes without a deep property: SysTick, ITM, system reset, clock, pin and I2C set-up.
