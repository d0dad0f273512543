# Verification of Foptim's core algorithms

A Dafny model of the parts of Foptim whose correctness is a theorem of its own,
and proofs of what those parts are for. Code that works by changing things is
modelled by classes and by methods with loops over arrays and vectors; what runs
concurrently is modelled as atomic steps over all interleavings.

Run `dafny verify dfyconfig.toml` in this directory.

## The parts

- Wide integers. `Arith`, `Words`, `LimbShift`, `Wrapping` and `BitViews` hold the
  arithmetic; `WordLoops` the loops over 64 bit words; `KnuthD` Algorithm D on
  32 bit limbs; `ApInt`, `ApIntShift`, `ApIntOverflow`, `ApIntDiv` and `ApIntPrint`
  the operations of `APInt` in their three tiers (inline word, native 128 bits,
  word loops), each against the mathematical operation modulo 2^bits; `Numerals`
  reads printed numbers back.
- Division by constants. `Magic` is the search for multiplier and shift, `Mir` an
  interpreter for the instructions used, `ConstDivEmit` the emitter, proved end to end.
- Backend transformations. `ParallelMove` orders the moves of block arguments,
  `LegalizeBBForm` splits blocks, `Aggregate` flattens nested values, `FuncOrder`
  orders functions.
- State machines. `Scheduler` and `ParallelFor`, `StableVec`, `InternTable`,
  `PassSkipping`, and `ArenaModel` with `Arena`; `Sums` counts over their parts,
  and `Options` is the option type they share.
- Bookkeeping. `DefUse` is the graph of operands and use lists.

## Where the code differs from what it says

- `collect_garbage` bumps the generation before it recycles so that no removed ref
  becomes valid again. If a `push_back` and a `remove` of the same slot both happen
  between the bump and the visit of that slot, the slot is collected in the very
  generation the next `push_back` publishes, and the old ref is valid again
  (`StableVec.InterleavedCollectRevives`). What decides is whether the collector
  visits a removed slot of the current generation: in runs in which it never does, no
  removed ref is valid again (`StableVec.GuardIsSafe`), and wherever it does, one can be
  (`StableVec.UnguardedRevives`). The pass manager collects only after `wait_till_done`
  (src/optim/function_pass.hpp:227-231), and keeping pushes and collections apart like
  this is enough (`StableVec.QuietIsGuarded`, `StableVec.QuietIsSafe`).
- `LegalizeBBForm` keeps what a block does, read from top to bottom, exactly when its
  conditional jumps stand together and a return behind them has no moves of its own
  (`LegalizeBBForm.SafeIff`). Moves between a conditional jump and a return end up in a
  block nothing jumps to, and moves before a second conditional jump are skipped when it
  is not taken (`LegalizeBBForm.OneGapSafeIff`, `LegalizeBBForm.SecondJumpLosesMoves`).
  The latter is what a switch with block arguments is matched to
  (src/mir/matcher_patterns.cpp:3496-3525), and there it is what is wanted: for every
  block the pass gives each later edge its own moves and no others
  (`LegalizeBBForm.SplitRunsByEdges`, `LegalizeBBForm.RunsByEdges`).

## Model
| member | source | states |
|---|---|---|
| WordLoops.AddN | src/utils/APInt.cpp:10-18 | Words and carry out together are the exact sum: no bit of it is lost, and the carry is 0 or 1. |
| WordLoops.SubN | src/utils/APInt.cpp:20-28 | Result plus subtrahend is minuend plus borrow times 2^(64n); the borrow read from bit 64 of the 128 bit difference is 0 or 1. |
| WordLoops.MulN | src/utils/APInt.cpp:31-41 | The result is the product of the two numbers modulo 2^(64n); every 128 bit intermediate fits. |
| WordLoops.MulRow | src/utils/APInt.cpp:33-40 | One row adds x * b * 2^(64i) to the buffer, up to what falls off the top. |
| WordLoops.UcmpN | src/utils/APInt.cpp:43-50 | The sign of the result is the order of the two numbers, and 0 means the same words. |
| WordLoops.ShlN | src/utils/APInt.cpp:52-65 | For every amount below 64n the buffer holds a * 2^amt modulo 2^(64n), whole words and part words alike. |
| WordLoops.ShrN | src/utils/APInt.cpp:68-76 | With fill 0 the quotient by 2^amt; with fill ~0 the same for the negative number whose sign is above the words, rounded down. |
| LimbShift.ShiftUpVal | src/utils/APInt.cpp:56-60 | Joining neighbouring digits shifts the whole number left, the bits that leave at the top accounted for. |
| LimbShift.ShiftDownVal | src/utils/APInt.cpp:71-75 | Joining neighbouring digits shifts the whole number right, the bits that leave at the bottom accounted for. |
| KnuthD.Divmnu | src/utils/APInt.cpp:80-141 | q * v + r == u and r < v for every u of m limbs and v of n <= m limbs with a nonzero top limb. |
| KnuthD.EstimateDigit | src/utils/APInt.cpp:109-119 | The correction loop ends with the largest digit that fits the two leading divisor limbs and three leading dividend limbs; it is below 2^32 and no product overflows 64 bits. |
| KnuthD.EstimateBounds | src/utils/APInt.cpp:109-119 | The corrected estimate is the true digit or one more (Knuth, TAOCP vol. 2, 4.3.1). |
| KnuthD.MulSub | src/utils/APInt.cpp:120-131 | Multiply and subtract leaves the exact difference, plus one unit above the window when it reports a negative result; the signed 64 bit intermediates fit. |
| KnuthD.AddBack | src/utils/APInt.cpp:133-139 | Adding the divisor back is exact but for what carries out of the window. |
| KnuthD.Subtract | src/utils/APInt.cpp:108-140 | Estimate, subtraction and at most one add-back together replace the window by its remainder modulo the divisor. |
| KnuthD.ShiftLimbs | src/utils/APInt.cpp:99-106 | Every limb becomes its own bits shifted up joined with the bits leaving the limb below; the limbs above are left alone. |
| KnuthD.ShiftedValue | src/utils/APInt.cpp:99-106 | With limbs like that the number is multiplied by 2^s, the bits that leave the top limb accounted for. |
| KnuthD.ShortDivide | src/utils/APInt.cpp:82-91 | The one-limb divisor path gives the exact quotient and remainder. |
| ApInt.Canonical | src/utils/APInt.hpp:14-21 | Two values of equal width and equal number have the same representation, because unused high bits are zero. |
| ApInt.ClearUnused | src/utils/APInt.hpp:44-49 | Masking the top word takes the whole number modulo 2^bits. |
| ApInt.Freeze | src/utils/APInt.hpp:44-49 | A buffer becomes a well-formed value equal to the buffer modulo 2^bits. |
| ApInt.FromU64 | src/utils/APInt.hpp:93-101 | The value modulo 2^bits, in both storage forms. |
| ApInt.FromU128 | src/utils/APInt.cpp:173-182 | The value modulo 2^bits, at every width. |
| ApInt.FromI128 | src/utils/APInt.cpp:184-197 | The signed value modulo 2^bits, sign extended over all words. |
| ApInt.SignExtend | src/utils/APInt.hpp:50-53 | Shifting a value to the top of a register and arithmetically back reads its sign. |
| ApInt.Sext64 | src/utils/APInt.hpp:50-53 | The signed value of an inline word, within 64 bits. |
| ApInt.Get128 | src/utils/APInt.hpp:40-43 | The native value of two words is the number. |
| ApInt.ToI128 | src/utils/APInt.cpp:243-249 | The signed value, within 128 bits. |
| ApInt.BitAt | src/utils/APInt.hpp:177-180 | The bit of the word that holds it is the bit of the number. |
| ApInt.IsNeg | src/utils/APInt.hpp:187 | The top bit is set exactly when the signed value is negative. |
| ApInt.Add | src/utils/APInt.cpp:318-326 | Sum modulo 2^bits in all three tiers, unused bits zero. |
| ApInt.Sub | src/utils/APInt.cpp:328-336 | Difference modulo 2^bits in all three tiers. |
| ApInt.Mul | src/utils/APInt.cpp:338-346 | Product modulo 2^bits in all three tiers. |
| ApInt.Neg | src/utils/APInt.hpp:224 | Additive inverse modulo 2^bits. |
| ApInt.Not | src/utils/APInt.cpp:306-313 | 2^bits - 1 minus the value. |
| ApInt.Bitwise | src/utils/APInt.cpp:348-370 | and, or, xor: every bit of the result is the operator on the two bits, and no unused bit is set. |
| BitViews.BitsInjective | src/utils/APInt.cpp:348-370 | A number is determined by its bits, so the bitwise statement fixes the result. |
| BitViews.WordBit | src/utils/APInt.hpp:177-180 | Bit i of the number is bit i % 64 of word i / 64. |
| ApIntShift.Zext | src/utils/APInt.cpp:560-564 | The same unsigned value at the new width. |
| ApIntShift.Sext | src/utils/APInt.cpp:566-581 | The same signed value at the new width, whether or not the old width ends inside a word. |
| ApIntShift.Trunc | src/utils/APInt.cpp:583-588 | The value modulo the new width. |
| ApIntShift.ShiftLeft | src/utils/APInt.cpp:372-383 | Value times 2^amt modulo 2^bits; zero from the width on. |
| ApIntShift.LogicalShiftRight | src/utils/APInt.cpp:385-395 | Value shifted down; zero from the width on. |
| ApIntShift.ArithmeticShiftRight | src/utils/APInt.cpp:397-408 | The signed value divided by 2^amt, rounded down, for every amount. |
| ApIntShift.Ucmp | src/utils/APInt.cpp:410-417 | Three-way order of the unsigned values. |
| ApIntShift.Scmp | src/utils/APInt.cpp:419-426 | Three-way order of the signed values. |
| ApIntShift.Equal | src/utils/APInt.cpp:428-430 | True exactly for equal values, which is the same as equal representations. |
| ApIntShift.Ult | src/utils/APInt.hpp:420-423 | True exactly when the unsigned value is less. |
| ApIntShift.Slt | src/utils/APInt.hpp:430-433 | True exactly when the signed value is less. |
| ApIntOverflow.UaddOv | src/utils/APInt.cpp:510-514 | Wrapped sum; flag exactly when the unbounded unsigned sum does not fit. |
| ApIntOverflow.UsubOv | src/utils/APInt.cpp:516-519 | Wrapped difference; flag exactly when the unbounded difference is negative. |
| ApIntOverflow.UmulOv | src/utils/APInt.cpp:521-531 | Wrapped product; flag exactly when the unbounded unsigned product does not fit. |
| ApIntOverflow.SaddOv | src/utils/APInt.cpp:533-537 | Wrapped sum; flag exactly when the unbounded signed sum does not fit. |
| ApIntOverflow.SsubOv | src/utils/APInt.cpp:539-543 | Wrapped difference; flag exactly when the unbounded signed difference does not fit. |
| ApIntOverflow.SmulOv | src/utils/APInt.cpp:545-558 | Wrapped product; flag exactly when the unbounded signed product does not fit. |
| ApIntOverflow.Clz | src/utils/APInt.cpp:282-294 | Leading zeros within the width: together with the bit length they make up the width. |
| ApIntOverflow.ActiveBits | src/utils/APInt.hpp:197 | The bit length of the number. |
| ApIntDiv.ToLimbs | src/utils/APInt.cpp:143-150 | The 32 bit limbs denote the same number as the words. |
| ApIntDiv.Trim | src/utils/APInt.cpp:152-158 | Dropping leading zero limbs keeps the number; nothing is left exactly for zero. |
| ApIntDiv.Pack | src/utils/APInt.cpp:460-465 | Limbs or-ed into zeroed words denote the same number. |
| ApIntDiv.UdivremWide | src/utils/APInt.cpp:432-472 | Exact quotient and remainder above 64 bits, both within the width, through the native and the limb path. |
| ApIntDiv.Udiv | src/utils/APInt.hpp:321-328 | The unsigned quotient at every width. |
| ApIntDiv.Urem | src/utils/APInt.hpp:329-336 | The unsigned remainder at every width. |
| ApIntDiv.Sdiv | src/utils/APInt.cpp:486-497 | The quotient rounded towards zero at every width; the minimum by minus one gives the minimum. |
| ApIntDiv.Srem | src/utils/APInt.cpp:499-508 | The remainder with the sign of the dividend at every width; zero for minus one. |
| ApIntPrint.DivideByBillion | src/utils/APInt.cpp:609-615 | One in-place pass over the limbs leaves quotient and remainder by 10^9. |
| ApIntPrint.PrintChunk | src/utils/APInt.cpp:619-622 | Inner chunks give nine digits, the last one its significant digits only; the number still to print is accounted for exactly. |
| ApIntPrint.DigitAt | src/utils/APInt.cpp:626-630 | Or-ing single bits gives the digit of radix 2 or 16, also where the width ends inside a digit. |
| ApIntPrint.ToString | src/utils/APInt.cpp:600-644 | Reading the numeral back gives the signed or unsigned value at every width in radix 2, 10 and 16; no leading zeros; a minus sign exactly for negative signed values. |
| Numerals.NumeralUnique | src/utils/APInt.cpp:600-644 | A number has one numeral without leading zeros, so the round trip fixes the text. |
| Magic.UdivMagic | src/mir/const_div.hpp:26-63 | A multiplier is returned exactly for the accepted divisors, fits the width, has a non-negative high shift at width 64, and the formula it selects equals division for every operand; no 128 bit intermediate overflows. |
| Magic.SdivMagic | src/mir/const_div.hpp:77-96 | The search succeeds for every accepted divisor and the signed formula equals truncating division for every operand. |
| Magic.MagicQuotient | src/mir/const_div.hpp:46-50 | The error test e <= 2^s is enough for the rounded-up reciprocal to give the quotient. |
| Magic.MagicNegative | src/mir/const_div.hpp:65-70 | For negative operands the same reciprocal, rounded down, is one below the truncated quotient. |
| Magic.PlainExact | src/mir/const_div.hpp:12 | The plain and pre-shifted formulas are exact. |
| Magic.AddExact | src/mir/const_div.hpp:13-14 | The formula with the add fixup is exact, and its subtraction does not go below zero. |
| Magic.SignedExact | src/mir/const_div.hpp:65-70 | The signed formula is exact for every operand of the width. |
| Magic.LastCandidate | src/mir/const_div.hpp:84-94 | The last shift tried by the signed search always passes both tests. |
| ConstDivEmit.ConstDivEmitter.Mulh | src/mir/matcher_const_div.cpp:70-78 | The emitted high multiply leaves the high half of the product, changing no earlier register. |
| ConstDivEmit.ConstDivEmitter.Udiv | src/mir/matcher_const_div.cpp:79-99 | Running the emitted code gives the unsigned quotient of every operand of the width; refused exactly when there is no multiplier. |
| ConstDivEmit.ConstDivEmitter.SdivAbs | src/mir/matcher_const_div.cpp:104-129 | Running the emitted code gives the quotient by the magnitude, including the bias path and the high multiply correction. |
| ConstDivEmit.ConstDivEmitter.Sdiv | src/mir/matcher_const_div.cpp:102-131 | Running the emitted code gives the quotient rounded towards zero, negative divisors included. |
| ConstDivEmit.ConstDivEmitter.DivRem | src/mir/matcher_const_div.cpp:175-193 | Every quotient and remainder path leaves the exact result in the result register. |
| ConstDivEmit.ConstDivEmitter.GenerateConstDiv | src/mir/matcher_const_div.cpp:135-200 | Accepted exactly for the supported divisors; then the result register holds the exact quotient or remainder for every operand and register file, and no other old register changes. |
| ParallelMove.Emission.CollectPairs | src/mir/matcher.cpp:411-425 | Exactly the read arguments that do not already sit in their register become pairs. |
| ParallelMove.Emission.Resolve | src/mir/matcher.cpp:431-470 | The loop ends with all pairs emitted, by the measure (pairs, pairs not yet saved), and carries every source to its destination. |
| ParallelMove.Emission.GenerateBBArgs | src/mir/matcher.cpp:405-473 | After the emitted moves every destination holds its source's original value and no other old register changed. |
| ParallelMove.AllCollide | src/mir/matcher.cpp:459-469 | When every destination is still a source, the pair about to be saved reads an old register, so saving makes progress. |
| DefUse.Graph.RemoveUsage | src/ir/use.cpp:98-105 | Exactly one occurrence of the use goes, from the list of that value only. |
| DefUse.Graph.AddArg | src/ir/instruction.cpp:271-276 | The argument is appended and every use list still equals the slots that hold its value. |
| DefUse.Graph.AddBB | src/ir/instruction.cpp:290-295 | The target is appended and every use list still equals the slots that hold its value. |
| DefUse.Graph.AddBBArg | src/ir/instruction.cpp:278-284 | The block argument is appended and every use list still equals the slots that hold its value. |
| DefUse.Graph.ReplaceArg | src/ir/instruction.cpp:137-155 | Only that slot changes, the old operand is returned, and every use list is exact again. |
| DefUse.Graph.ReplaceBB | src/ir/instruction.cpp:157-174 | Only that slot changes, the old operand is returned, and every use list is exact again. |
| DefUse.Graph.ReplaceBBArg | src/ir/instruction.cpp:185-202 | Only that slot changes, the old operand is returned, and every use list is exact again. |
| DefUse.Graph.ClearArgs | src/ir/instruction.cpp:75-82 | The operands go and every use list is exact again. |
| DefUse.Graph.ClearBBArgs | src/ir/instruction.cpp:99-106 | The operands go and every use list is exact again. |
| DefUse.Graph.ClearBBs | src/ir/instruction.cpp:84-97 | The operands go and every use list is exact again. |
| DefUse.Graph.RemoveArg | src/ir/instruction.cpp:204-214 | The operand is erased, later ones move down by one, and every use list is exact under the new numbers, repeated operands included. |
| DefUse.Graph.RemoveBB | src/ir/instruction.cpp:216-233 | The operand is erased, later ones move down by one, and every use list is exact under the new numbers, repeated operands included. |
| DefUse.Graph.RemoveBBArg | src/ir/instruction.cpp:235-249 | The operand is erased, later ones move down by one, and every use list is exact under the new numbers, repeated operands included. |
| DefUse.Graph.Substitute | src/ir/instruction.cpp:38-73 | Every operand in the map is replaced by its image, all others stay, and the result tells whether any was. |
| DefUse.Graph.ReplaceUse | src/ir/use.cpp:33-45 | Only the named slot changes, and every use list is exact again. |
| DefUse.Graph.ReplaceAllUses | src/ir/use.cpp:57-64 | Exactly the slots of the old value now hold the new one; if the two differ the old value is left without uses. |
| DefUse.Graph.ReplaceResultUses | src/ir/use.cpp:71-78 | Exactly the slots holding that result of the instruction are rewritten. |
| DefUse.Graph.constructor | src/ir/storage.hpp:71-78 | An empty module is consistent, so every sequence of edits has a first state. |
| DefUse.Graph.NewInstr | src/ir/storage.hpp:93-96 | A new instruction has no operands and every use list is still exact. |
| DefUse.Graph.Destroy | src/ir/instruction.cpp:17-26 | The operands, block arguments and targets give up their uses and the instruction goes; every use list is exact. |
| DefUse.UseListIsExact | src/ir/use.cpp:98-105 | In a consistent graph a use list has one entry per slot holding the value and no other. |
| DefUse.SnapshotIsSlots | src/ir/use.cpp:57-64 | The snapshot that the rewriting loops walk holds exactly the slots that hold the definition. |
| Scheduler.Reachable | src/utils/job_system.hpp:76-205 | All the invariants hold in every reachable state, for any number of workers and any interleaving. |
| Scheduler.NoLostWakeup | src/utils/job_system.hpp:76-87 | With a worker, no reachable state has queued jobs, no push in flight, no stop, and all workers blocked. |
| Scheduler.NobodySleepsAfterStop | src/utils/job_system.hpp:63-70 | When deinit joins, no worker is blocked in the wait. |
| Scheduler.PendingIsExact | src/utils/job_system.hpp:76-113 | pending is the number of jobs being pushed, queued and running, and every job is in exactly one of those places or done once. |
| Scheduler.WaitReturnsWhenAllDone | src/utils/job_system.hpp:116-129 | wait_till_done returns only when every job pushed so far has finished exactly once. |
| Scheduler.NoLostCompletion | src/utils/job_system.hpp:110-112 | A main thread blocked with nothing pending still has its wake-up coming. |
| ParallelFor.NeverTwice | src/utils/job_system.hpp:163-174 | In every interleaving an index is called at most once, and none outside the range. |
| ParallelFor.ReturnedMeansAllCalled | src/utils/job_system.hpp:175-184 | Once it has returned, every index was called and finished exactly once and no late helper calls or will call fn. |
| ParallelFor.CallerNotLeftBlocked | src/utils/job_system.hpp:170-183 | A caller blocked with all calls done still has its wake-up coming. |
| StableVec.NoSlotTwice | src/utils/stable_vec.hpp:150-239 | In every interleaving each slot is in exactly one place: one free range, one push in progress, the collector's list, or Used/Free; so no live slot is handed out twice. |
| StableVec.SlotsAddUp | src/utils/stable_vec.hpp:184-194 | In every interleaving the number n_used computes, all slots less the lengths on the free list, is the number of slots being pushed, held by the collector, live, and removed but not yet collected. |
| StableVec.OnlyPublishValidates | src/utils/stable_vec_slot.hpp:61-80 | A ref becomes valid only by the publish of its slot with its generation. |
| StableVec.OnlyRemoveInvalidates | src/utils/stable_vec_ref.hpp:81-90 | A valid ref becomes invalid only by its removal. |
| StableVec.RevivedIff | src/utils/stable_vec.hpp:198-239 | At one publish: a removed ref becomes valid again if and only if the last ref the slot lost to a collection has the generation now published; stated on the history of what slots lost. |
| StableVec.InterleavedCollectRevives | src/utils/stable_vec.hpp:150-177 | A run in which a removed ref is valid again: a push and a removal between the generation bump and the visit of the slot. |
| StableVec.GuardIsSafe | src/utils/stable_vec.hpp:150-177 | In every run in which the collector visits no removed slot whose generation is the current one, no removed ref is ever valid again, however pushes, removals and collections overlap. |
| StableVec.UnguardedRevives | src/utils/stable_vec.hpp:150-177 | From every reachable state, with at least one pushing thread, in which the collector is about to visit such a slot, the run can go on so that the removed ref is valid again. |
| StableVec.QuietIsGuarded | src/utils/stable_vec.hpp:150-177 | When collections do not overlap pushes, as function_pass.hpp:227-231 has it, the collector visits no such slot. |
| StableVec.QuietIsSafe | src/utils/stable_vec.hpp:150-177 | So no removed ref is then ever valid again. |
| InternTable.InternTable.Intern | src/ir/intern_table.hpp:53-81 | The ref returned is live, holds the value, and is the only one that does; a new one is made exactly when none was live. The probe loop ends. |
| InternTable.InternTable.Insert | src/ir/intern_table.hpp:63-71 | Storing at the stale entry or at the end of the chain keeps every live ref reachable by bound probes from its hash. |
| InternTable.ProbesBounded | src/ir/intern_table.hpp:61 | A chain of n bound probes needs n distinct keys, so it is no longer than the shard. |
| PassSkipping.CleanTracker.Init | src/optim/pass_skipping.hpp:52-73 | Ids are given exactly to the skippable function passes, one per configuration however often it occurs, and the interprocedural ones are listed. |
| PassSkipping.PassManager.RunPass | src/optim/function_pass.hpp:136-200 | Only function i changes. Its text is what the pass makes of it, or the old one if its bit was set and skipping is on; a change clears all its bits, no change keeps them and sets the one of this pass. True bits of intraprocedural passes stay true, all bits if nothing changed, and for an intraprocedural pass the text is the same skipped or not. |
| PassSkipping.PassManager.RunJobs | src/optim/function_pass.hpp:213-227 | Jobs may take their steps in any order; the loop ends with every job finished, in the state some schedule of the group leads to. |
| PassSkipping.PassManager.Apply | src/optim/function_pass.hpp:209-230 | After the group, whatever the interleaving, every clean bit is true, and if its passes are intraprocedural every definition holds the fold of the list over its old text. |
| PassSkipping.IdsIndexBits | src/optim/pass_skipping.hpp:78-116 | Skip ids and interprocedural ids are always in range of the bits of a function, which the source indexes unchecked. |
| PassSkipping.GroupSized | src/optim/pass_skipping.hpp:78-116 | In every interleaving of a group and after its end every function with bits has as many as there are ids. |
| PassSkipping.PassManager.DropInterprocedural | src/optim/pass_skipping.hpp:104-116 | Exactly the bits of the interprocedural passes go, on every function. |
| PassSkipping.SkipIsNoOp | src/optim/function_pass.hpp:141-146 | Where the bits are true, skipping an intraprocedural pass leaves what running it would leave. |
| PassSkipping.GroupInvariant | src/optim/function_pass.hpp:209-230 | In every interleaving of the jobs of a group the bits of intraprocedural passes stay true, and all bits stay true while nothing has changed. |
| PassSkipping.BitsTrueAtBoundary | src/optim/function_pass.hpp:227-230 | At every group boundary every clean bit, interprocedural ones included, tells the truth. |
| PassSkipping.GroupResult | src/optim/function_pass.hpp:209-230 | A finished group of intraprocedural passes has folded its list over every function, whatever the interleaving. |
| PassSkipping.SkippingPreservesResults | src/optim/pass_skipping.hpp:24-36 | With skipping on or off, under any two interleavings, a pipeline of deterministic intraprocedural passes ends in the same functions. |
| FuncOrder.DenserChain | src/mir/func_order.cpp:36-39 | Cross multiplication is a transitive order with transitive ties on clusters of positive size, so the sort is well defined. |
| FuncOrder.StableSort | src/mir/func_order.cpp:130-138 | A permutation ordered by density with ties in input order. |
| FuncOrder.SortedUnique | src/mir/func_order.cpp:130-138 | That list is unique, so the result is deterministic. |
| FuncOrder.CollectCalls | src/mir/func_order.cpp:52-82 | Heat and caller weights grow by exactly the weighted calls of this caller, self calls and unknown targets ignored. |
| FuncOrder.HeaviestCaller | src/mir/func_order.cpp:141-156 | In whatever order the callers are visited, the heaviest caller that is not cold, and the earliest of those; none exactly when all are cold. |
| FuncOrder.BestUnique | src/mir/func_order.cpp:141-156 | There is only one such caller. |
| FuncOrder.Merge | src/mir/func_order.cpp:157-170 | Appending one cluster to another keeps the partition, the sums, the cap, the head that names the cluster and the cold functions apart. |
| FuncOrder.MergeClusters | src/mir/func_order.cpp:140-171 | The result is the fold over the list of: append the cluster of the function to the cluster of its best caller, if it is another and they fit together. The clusters partition the definitions throughout. |
| FuncOrder.SectionsPermute | src/mir/func_order.cpp:173-207 | Hot clusters, warm and cold functions together hold every definition once. |
| FuncOrder.GetLoweringOrder | src/mir/func_order.cpp:98-208 | A permutation of the module, and the lowering order: from the counted calls, through the sorted functions and the fold of merges, to hot clusters by falling density, functions without calls, cold ones and declarations. |
| FuncOrder.OrderUnique | src/mir/func_order.cpp:97 | A module has one lowering order, so the result is deterministic however ties and hash tables are visited. |
| LegalizeBBForm.MFunc.MoveGap | src/mir/legalize_bb_form.hpp:43-65 | The gap goes to a new last block with the jump it needs, and the jump behind it is rewired. |
| LegalizeBBForm.MFunc.SplitBlock | src/mir/legalize_bb_form.hpp:23-69 | The inner loop computes the backward scan of the block. |
| LegalizeBBForm.MFunc.Apply | src/mir/legalize_bb_form.hpp:17-73 | When every block with jumps ends in one, afterwards no ordinary instruction follows a jump, ordinary instructions are conserved, and every old block is scanned into itself and its new blocks; the loop over the growing list ends. |
| LegalizeBBForm.ScanIsLegal | src/mir/legalize_bb_form.hpp:25-69 | The scan of any block gives legal blocks with the same ordinary instructions. |
| LegalizeBBForm.SplitRunsByEdges | src/mir/legalize_bb_form.hpp:43-65 | For every block that ends in its jumps, the split block and its new blocks do what the block does read edge by edge: behind the first jump every jump runs only its own moves, and only when it is taken; a return runs none. |
| LegalizeBBForm.StepMatches | src/mir/legalize_bb_form.hpp:43-65 | In every function one old block, read edge by edge, is one or two new ones with the same trace and the same way out. |
| LegalizeBBForm.RunsByEdges | src/mir/legalize_bb_form.hpp:17-73 | For every function and every behaviour of the conditions, the result of the pass reaches a configuration (returned, fallen off the end, or at the start of an old block, each with its trace) exactly when the function read edge by edge does. |
| LegalizeBBForm.BehaviourPreserved | src/mir/legalize_bb_form.hpp:10-14 | The same for a shaped function as it stands: it returns, falls off the end and enters its blocks with the same traces before and after the pass, runs that do not end included. |
| LegalizeBBForm.SafeIff | src/mir/legalize_bb_form.hpp:23-69 | For every block that ends in a jump or return, with conditional jumps only before: the split block does what the block did, under all conditions and traces, if and only if the conditional jumps stand together and a return behind them has no moves of its own. |
| LegalizeBBForm.OneGapSafeIff | src/mir/legalize_bb_form.hpp:49-65 | When the only gap is the one behind the last conditional jump, that means: the gap is not between a conditional jump and a return. |
| LegalizeBBForm.SecondJumpLosesMoves | src/mir/legalize_bb_form.hpp:54-65 | An instance of the other failing class: moves before a second conditional jump are not run when no condition holds. |
| Aggregate.CollectLeaves | src/llvm/llir_loader.cpp:160-181 | The leaves in order with their byte offsets, appended to the vector. |
| Aggregate.CountLeaves | src/llvm/llir_loader.cpp:183-195 | The number of leaves, multiplying for arrays. |
| Aggregate.CountIsExact | src/llvm/llir_loader.cpp:160-195 | The count is the length of the collected list. |
| Aggregate.LeafRange | src/llvm/llir_loader.cpp:198-214 | First leaf and leaf count of the member at the path. |
| Aggregate.ExtractCommutes | src/llvm/llir_loader.cpp:1876-1889 | The range of a path is the flat list of the member there. |
| Aggregate.InsertCommutes | src/llvm/llir_loader.cpp:1926-1943 | Replacing the range of a path is flattening after a nested update. |
| Aggregate.ExtractValue | src/llvm/llir_loader.cpp:1876-1889 | extractvalue on leaf lists is selection on nested values. |
| Aggregate.InsertValue | src/llvm/llir_loader.cpp:1926-1943 | insertvalue on leaf lists, leaf by leaf, is update on nested values. |
| Aggregate.LeavesDisjoint | src/llvm/llir_loader.cpp:160-181 | In a sane layout the byte ranges of the leaves are ordered, disjoint and inside the aggregate. |
| Aggregate.StoreLeaves | src/llvm/llir_loader.cpp:1286-1298 | Every leaf is in memory at its offset and no byte outside the leaves changed. |
| Aggregate.LoadLeaves | src/llvm/llir_loader.cpp:1347-1357 | The leaves read; after a store of the same type they are the ones stored. |
| ArenaModel.AllocIsSafe | src/utils/arena.cpp:159-187 | The new block is aligned, inside its region, and disjoint from all live ones; regions after end stay empty. |
| ArenaModel.RewindIsSafe | src/utils/arena.cpp:254-274 | Rewinding keeps the invariants, the early stop at end included. |
| ArenaModel.RewindRestores | src/utils/arena.cpp:254-274 | Rewinding to the snapshot of a state that has only grown restores it up to extra empty regions. |
| ArenaModel.Run | src/utils/arena.cpp:152-274 | Through every program of allocations and nested scopes the invariants hold and nothing older is given back. |
| ArenaModel.ScopeRestores | src/utils/arena.cpp:225-274 | Whatever runs inside a scope, nested scopes included, the allocation state after it is the one before. |
| Arena.Arena.Alloc | src/utils/arena.cpp:159-187 | The linked regions do what the model does, and the returned address is the new block. |
| Arena.Arena.Reset | src/utils/arena.cpp:240-252 | The linked regions do what the model does, stopping at end. |
| Arena.Arena.Rewind | src/utils/arena.cpp:254-274 | The linked regions do what the model does, also for the mark of an empty arena. |
| Arena.Arena.Snapshot | src/utils/arena.cpp:225-238 | The mark names end and its count, or nothing for an empty arena. |

## Left out

- ApIntOverflow.UmulOv: requires that twice the width still counts in 32 bits, as the source's own assertion in zext does; the same holds for SmulOv.
- ApInt.FromU64: widths for which bits + 63 wraps in 32 bits are excluded (the predicate Width), here and in every other operation.
- ApIntDiv.UdivremWide: returns both results; leaving one of them out, as callers of the source may, is not modelled.
- APInt's in-place operators, set_bit, from_words, low_bits and its like, popcount, ctz and hash: the operators are the value operations assigned back, the rest adds easy members.
- ApInt.Bitwise: the three source loops for and, or, xor are one method with the word operator as a parameter.
- Aggregate.CountLeaves: counts in unbounded integers; a type with more than 2^32 leaves, whose count wraps in the source, is not modelled.
- Aggregate types, data layout and values stand for LLVM's; vectors are scalars, volatile and atomic flags and the address arithmetic of the backend are not modelled, nor are the leaves of constants.
- Arena.Arena.Alloc: sizes near the end of the address range are not modelled; the place of a new region is a parameter with what malloc promises. arena_realloc, arena_free and arena_trim are left out.
- Scheduler.NoLostWakeup: atomics are sequentially consistent and a critical section under the queue lock is a few atomic steps; weaker memory orders, 32 bit wrap-around of work_epoch and pending, per-job notifiers and wait_for are not modelled.
- ParallelFor.ReturnedMeansAllCalled: the helpers are threads of their own; that the scheduler eventually runs a helper job is not needed, as the caller alone completes the loop.
- StableVec.NoSlotTwice: generations are unbounded, so the skip of generation zero after wrap-around is not modelled; the payload's constructor and destructor calls are left out. This is the checked build in which generations are kept.
- StableVec.RevivedIff: stated on what the slots lost to collections, which only the model keeps; GuardIsSafe and UnguardedRevives state the condition on the slot the collector visits.
- InternTable.InternTable.Intern: one call at a time, as the shard lock and the thread-local cache make them; a shard is assumed to hold fewer than 2^64 entries.
- PassSkipping.GroupResult: for interprocedural passes only the truth of the bits at group boundaries is stated, because what they read inside a group depends on the schedule; module passes and statistics are left out.
- ParallelMove.Emission.GenerateBBArgs: registers are whole and untyped, destinations are distinct; memory operands and poison values are not modelled.
- DefUse.Graph.RemoveArg: operand indices do not wrap at 16 bits; the locked use lists of functions and globals and parent links are not modelled.
- FuncOrder.GetLoweringOrder: calls and their loop depths are input; control flow graph, dominators and loops are not modelled. Heat and sizes are unbounded, and the library's stable sort is an insertion sort.
- LegalizeBBForm.RunsByEdges: ordinary instructions are an abstract trace and conditions depend on it, so a condition value computed among the moves of an edge is not told from a move.
- LegalizeBBForm.MFunc.Apply: requires that a block with jumps ends in one; for others the source reads past the end of the block.
- Optimization passes, analyses, register allocation, instruction selection patterns, encoding and ELF output, the parsers and the configuration: not part of this model.
