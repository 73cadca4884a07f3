# Verified model of an operating-system course repository

This project models seven self-contained parts of the repository and proves what each of them is for. Words are modelled as
integers with their width written out (`Bits`), memory that the program rewrites in place as classes, arrays and linked
nodes, and anything that several CPUs do at once as a state machine over atomic steps.

- **Rectangle packer** (`Skyline`, `RectPack`, `PackRects`, `PackLimits`): the skyline of `stb_rect_pack.h` is a function
  from columns to heights that stays at or above everything placed. From that follow disjointness and containment over any
  number of calls. Each rectangle goes to the best place that is left under the heuristic in force, and the skyline
  afterwards is stated exactly. The
  header promises that rounding widths up keeps the packer from running out of nodes; `PackLimits` proves exactly for which
  new targets some run breaks that promise.
- **64-bit division on 32-bit words** (`CompilerRt`, `SignedDiv`): every branch of `__udivmoddi4`, including the branch-free
  shift-subtract loop and its sign trick, yields the exact quotient and remainder; the signed functions follow.
- **Crash-consistent log** (`KvLog`, `Kvdb`): the recovery scan keeps the longest prefix of whole records, and reading the log
  backwards refines a map, over every run of puts, torn writes and reopenings.
- **Scheduler, semaphores, spinlocks** (`Sched`, `Contexts`, `Kmt`, `Spin`): an invariant over every run of traps, creations and semaphore
  calls says that no task is resumed while a CPU may still be on its stack; no wake-up is lost; waiters wake first-come
  first-served; a ready task is passed over fewer than 1024 times by each CPU. `Kmt` proves the code on the heap against
  those steps. `Spin` interleaves single memory accesses.
- **In-place merge sort** (`MergeSpec`, `CoreList`): `core_list_mergesort` returns exactly the nodes it was given, sorted and stable.
- **Fixed-point arithmetic** (`Fix16Mul`, `Fix16Div`, `Fix16Sqrt`, `Fix16Str`, `Fix16Text`): multiplication, division, root and
  parsing are correctly rounded on exactly the stated operands, with a witness outside of them; printing rounds correctly at
  every number of decimals, and printing with five and parsing again is the identity.
- **Allocator and address spaces** (`Pmm`, `Vme`): header lists against disjoint ordered blocks; page lists against the installed
  mapping.

Five statements of the repository turn out to hold only under a condition, and the condition is proved exact:

- `fix16_mul` (lines 124-165 of `fix16.c`): the middle sum of the partial products wraps; see `Fix16Mul.MulRight`.
- `fix16_div` (lines 306-311 of `fix16.c`): the kick-start drops bits that may carry; see `Fix16Div.DivRight`.
- `fix16_sqrt` (lines 53-64 of `fix16_sqrt.c`): the comment asks for a correction by half of the square of a half, which is a quarter;
  the code subtracts twice that; see `Fix16Sqrt.SqrtRight`.
- `fix16_from_str` (lines 80-112 of `fix16_str.c`): "-32768.5" is read as 32767.5, because the sum turns around, and "000001" as
  overflow, because leading zeros count as digits; see `Fix16Text.TextRead`. It also accepts trailing digits and spaces in
  any mixture, where its header speaks of spaces only; the model follows the code.
- `stbrp_init_target` (the promise in lines 132-133 of `stb_rect_pack.h`): under the default heuristic and alignment some run on a
  new target is refused a rectangle that has a place, for want of a node, if and only if there are fewer nodes than columns
  and the target is at least 2 high, or 1 high with room for one more aligned column beside a unit square for each node; see
  `PackLimits.RunsOutIff`.

`kalloc` is in the same position: when `size + BIAS` wraps, a successful call destroys the list (`Pmm.Heap.Kalloc`), and in all
other cases the list stays in order. Three calls rely on their callers, and it is proved for which arguments they keep the
invariant: `kmt_create` for tasks that are not in the table, `kmt_teardown` for tasks that are on no CPU and in no queue, and
`_protect` for any space but a current one that has pages.

## Model

| member | source | states |
|---|---|---|
| Bits.OrDisjoint | abstract-machine/libs/compiler-rt/udivmoddi4.c:117 | gluing disjoint bit ranges with `\|` is addition |
| Bits.PowerOfTwoTest | abstract-machine/libs/compiler-rt/udivmoddi4.c:88 | `(d & (d - 1)) == 0` recognises exactly the powers of two, with ctz as the exponent |
| CompilerRt.SignDecides | abstract-machine/libs/compiler-rt/udivmoddi4.c:223-225 | the sign of the wrapped `d - r - 1` decides `r >= d`, also where d has its top bit set, for every r the loop can reach |
| CompilerRt.RemainderBelow | abstract-machine/libs/compiler-rt/udivmoddi4.c:102-118 | the choice of sr keeps the shifted-out part below what the sign trick needs |
| CompilerRt.SubtractIfFits | abstract-machine/libs/compiler-rt/udivmoddi4.c:216-225 | the branch-free step subtracts d exactly when it fits and reports so in carry |
| CompilerRt.Iterate | abstract-machine/libs/compiler-rt/udivmoddi4.c:209-226 | one round keeps r:q consistent with the dividend |
| CompilerRt.ShiftSubtract | abstract-machine/libs/compiler-rt/udivmoddi4.c:208-230 | from consistently loaded words the loop ends with the exact quotient and remainder |
| CompilerRt.DivideByHigh | abstract-machine/libs/compiler-rt/udivmoddi4.c:57-118 | divisors whose low word is zero: exact in all four sub-cases |
| CompilerRt.DivideByLow | abstract-machine/libs/compiler-rt/udivmoddi4.c:119-168 | one-word divisors: exact, for powers of two and for each alignment of the shift |
| CompilerRt.DivideByBoth | abstract-machine/libs/compiler-rt/udivmoddi4.c:170-200 | two-word divisors: exact |
| CompilerRt.UDivModDi4 | abstract-machine/libs/compiler-rt/udivmoddi4.c:24-231 | a = quotient * b + remainder and remainder < b, for every 64-bit a and every b but 0 |
| SignedDiv.TruncatedUnique | abstract-machine/libs/compiler-rt/divdi3.c:17 | the clause of the C standard for `/` and `%` leaves one quotient and one remainder |
| SignedDiv.DivDi3 | abstract-machine/libs/compiler-rt/divdi3.c:20-29 | the quotient is truncated toward zero |
| SignedDiv.ModDi3 | abstract-machine/libs/compiler-rt/moddi3.c:20-30 | the remainder has the sign of the dividend and belongs to the truncated quotient |
| Skyline.StitchProper | abstract-machine/libs/imgui/include/stb_rect_pack.h:454-478 | cutting and re-stitching keeps x strictly increasing from 0 to the sentinel at the width |
| Skyline.StitchHeight | abstract-machine/libs/imgui/include/stb_rect_pack.h:454-478 | the new boundary is the rectangle's top over its columns and the old boundary elsewhere |
| Skyline.StaysAbove | abstract-machine/libs/imgui/include/stb_rect_pack.h:443-478 | what is under the old skyline is under the new one and does not overlap what rests on the old one |
| Skyline.PlaceKeepsPacked | abstract-machine/libs/imgui/include/stb_rect_pack.h:443-478 | a placement at or above the skyline keeps all rectangles inside, disjoint and covered |
| Skyline.TrappedExtends | abstract-machine/libs/imgui/include/stb_rect_pack.h:302-320 | the running waste total is the area between the resting height and the skyline, also when the height rises late |
| RectPack.Context.InitTarget | abstract-machine/libs/imgui/include/stb_rect_pack.h:244-274 | a new target is empty, flat and has every node in exactly one list |
| RectPack.Context.FindMinY | abstract-machine/libs/imgui/include/stb_rect_pack.h:277-325 | the least height at which the columns rest, and exactly the area that is wasted below |
| RectPack.Context.LowestLeft | abstract-machine/libs/imgui/include/stb_rect_pack.h:339-370 | bottom-left: no place at a node is lower, none further left is as low, and there is none only if the width does not fit |
| Skyline.LowestMeans | abstract-machine/libs/imgui/include/stb_rect_pack.h:302-306 | the greatest height over the columns is the least at which they rest |
| Skyline.ScanStep | abstract-machine/libs/imgui/include/stb_rect_pack.h:298-322 | one segment: maximum, wasted area and width seen stay right, the last for as long as the scan goes on |
| Skyline.BestOnGround | abstract-machine/libs/imgui/include/stb_rect_pack.h:344-426 | the best place never starts on the ground behind a node, so that only the last segment is ever at height 0 |
| RectPack.Context.BestFitLeft | abstract-machine/libs/imgui/include/stb_rect_pack.h:344-370 | best-fit, left-aligned places with vertical room: none is lower, or as low with less area wasted, or equal in both and further left |
| RectPack.Context.BestFitRight | abstract-machine/libs/imgui/include/stb_rect_pack.h:389-420 | best-fit, right-aligned places with room to spare: likewise by the area really wasted, and the choice never gets worse than the best left-aligned one |
| RectPack.Context.FindBestPos | abstract-machine/libs/imgui/include/stb_rect_pack.h:333-426 | the best place under the heuristic in force, with the link to insert at |
| RectPack.AlignUpIsMultiple | abstract-machine/libs/imgui/include/stb_rect_pack.h:339-342 | the rounded width is the least multiple of the alignment from the width on |
| RectPack.QuantumSpans | abstract-machine/libs/imgui/include/stb_rect_pack.h:234-241 | the alignment is the least for which num_nodes aligned columns span the width |
| RectPack.Context.LinkIn | abstract-machine/libs/imgui/include/stb_rect_pack.h:444-462 | a node leaves the free list and is linked in at the rectangle's left edge, everything else staying linked |
| RectPack.Context.Release | abstract-machine/libs/imgui/include/stb_rect_pack.h:464-472 | covered nodes move to the free list and nothing is lost or shared |
| RectPack.Context.InsertNode | abstract-machine/libs/imgui/include/stb_rect_pack.h:443-505 | the re-stitched list draws the stitched skyline and active plus free nodes are still num_nodes + 2 |
| RectPack.Context.PackRectangle | abstract-machine/libs/imgui/include/stb_rect_pack.h:428-508 | the rectangle goes to the best place and the skyline rises there; it is refused exactly for want of a place, of height or of nodes, and then nothing changes |
| RectPack.Context.SetupAllowOutOfMem | abstract-machine/libs/imgui/include/stb_rect_pack.h:224-242 | alignment 1 or the quantum, everything else kept |
| PackRects.UnsortRestores | abstract-machine/libs/imgui/include/stb_rect_pack.h:532-537 | sorting by the saved indices can only restore the caller's order |
| PackRects.TraceUnsorted | abstract-machine/libs/imgui/include/stb_rect_pack.h:557-579 | what the caller reads in its own order is what was decided in sorted order |
| PackRects.PackOne | abstract-machine/libs/imgui/include/stb_rect_pack.h:560-572 | one rectangle is served at the best place left, or refused |
| PackRects.PackSorted | abstract-machine/libs/imgui/include/stb_rect_pack.h:560-572 | the rectangles are served one after the other, each on what the one before left |
| PackRects.PackRects | abstract-machine/libs/imgui/include/stb_rect_pack.h:545-580 | the caller's fields and order are kept; flagged rectangles lie inside, apart from each other and from all earlier calls; all were served in the order of the sort, in which they get lower, or as high and narrower |
| PackRects.DeliveredApart | abstract-machine/libs/imgui/include/stb_rect_pack.h:80-89 | rectangles flagged as packed are inside the target and pairwise disjoint, also from earlier calls |
| PackRects.SortedDescends | abstract-machine/libs/imgui/include/stb_rect_pack.h:510-519 | the comparator allows only orders of falling height, and of falling width at the same height |
| PackRects.DescendingSorts | abstract-machine/libs/imgui/include/stb_rect_pack.h:510-519 | and all of them |
| PackLimits.NodesSuffice | abstract-machine/libs/imgui/include/stb_rect_pack.h:128-133 | with num_nodes >= width a node is always free |
| PackLimits.PackWithEnoughNodes | abstract-machine/libs/imgui/include/stb_rect_pack.h:128-133 | then a rectangle is refused exactly when the best place for it does not exist or is too high, and goes there otherwise |
| PackLimits.RunsOutIff | abstract-machine/libs/imgui/include/stb_rect_pack.h:128-133 | over all runs of rectangles on a new target: some run ends with a rectangle that has a place and finds no node, if and only if `num_nodes < width` and the height is at least 2, or 1 with `num_nodes + align <= width` |
| PackLimits.BestUnique | abstract-machine/libs/imgui/include/stb_rect_pack.h:344-370 | bottom-left leaves no choice of place |
| PackLimits.RunOut | abstract-machine/libs/imgui/include/stb_rect_pack.h:428-508 | the code on such a target: one unit square for each node is placed, and for one more the best place exists with room, the free list is empty and the square is refused |
| PackLimits.NewTargetRunsOut | abstract-machine/libs/imgui/include/stb_rect_pack.h:244-274 | likewise from stbrp_init_target on |
| KvLog.LastWholeIsLargest | libkvdb/kvdb.c:34-51 | what is kept is the longest prefix that ends with a whole line |
| KvLog.RecoverIdempotent | libkvdb/kvdb.c:27-54 | recovering twice, on any bytes, is recovering once |
| KvLog.RecoverExact | libkvdb/kvdb.c:27-54 | recovery of whole records followed by a torn one keeps exactly the whole records |
| KvLog.SurvivorsLargest | libkvdb/kvdb.c:27-54 | no longer run of records fits the prefix |
| KvLog.JournalTheorem | libkvdb/kvdb.c:27-54 | for every byte prefix of an encoding, recovery keeps the encoding of the longest run of whole records in it |
| KvLog.RunHolds | libkvdb/kvdb.c:95-106 | after any run of puts, crashes and reopenings the log is whole records and at most one torn one |
| KvLog.RunTraced | libkvdb/kvdb.c:95-155 | the log holds exactly the records of the surviving puts, oldest first |
| KvLog.LookupTheorem | libkvdb/kvdb.c:108-155 | a lookup finds the value of the last surviving put of the key, and nothing exactly when none survives |
| KvLog.LookupIsMap | libkvdb/kvdb.c:121-145 | the backward search reads the log as a map in which later records override earlier ones |
| Kvdb.Db.CheckJournal | libkvdb/kvdb.c:27-54 | on any bytes the scan terminates and truncates to the longest prefix that ends with a whole line |
| Kvdb.Db.PutRecord | libkvdb/kvdb.c:95-106 | recovery, then the record's line appended |
| Kvdb.Db.WordBack | libkvdb/kvdb.c:124-137 | the backward scan and the fscanf that follows read the word between two separators, also at the head of the file |
| Kvdb.Db.GetAfterRun | libkvdb/kvdb.c:108-155 | after any run of puts, crashes and reopenings, the call returns the value of the last surviving put of the key, and nothing exactly when none survives |
| Kvdb.Db.GetValue | libkvdb/kvdb.c:108-155 | the backward parse returns what the last record of the key holds, and leaves the recovered log |
| Sched.SavePlaced | kernel/src/kmt.c:14-32 | releasing the last task only after its CPU has saved keeps tasks on one CPU and run flags exact |
| Sched.SwitchPlaced | kernel/src/kmt.c:34-60 | so does handing out a task that does not run and does not sleep |
| Sched.CreateKeeps | kernel/src/kmt.c:81-110 | a task that is not in the table, new or torn down before, gets a free slot and its id whenever fewer than MAXTASK are counted |
| Sched.CreateOnlyUnused | kernel/src/kmt.c:100-107 | creating keeps the invariant exactly for tasks that are not in the table and no default |
| Sched.TeardownKeeps | kernel/src/kmt.c:112-121 | tearing down a task that no CPU and no queue refers to frees its slot and keeps everything else |
| Sched.TeardownOnlyDetached | kernel/src/kmt.c:112-121 | and exactly for those |
| Sched.WaitKeeps | kernel/src/kmt.c:225-241 | blocking keeps queues, sleep flags and counts in step |
| Sched.WakeKeeps | kernel/src/kmt.c:209-212 | so does clearing the oldest waiter's sleep flag |
| Sched.FinishKeeps | kernel/src/kmt.c:214-254 | so does the rest of a signal |
| Sched.SignalKeeps | kernel/src/kmt.c:243-254 | so does a whole sem_signal |
| Sched.RunInv | kernel/src/kmt.c:14-254 | every state of every run satisfies the invariant |
| Sched.OneCpuAtATime | kernel/src/kmt.c:14-60 | in every state of every run a task is current or last on one CPU at most, and then it is marked as running |
| Sched.ResumeIsSafe | kernel/src/kmt.c:34-60 | what a CPU is handed runs on no CPU and none is about to leave its stack |
| Sched.PickNearest | kernel/src/kmt.c:36-49 | a CPU is handed a ready task when there is one, and none has its slot nearer behind the current task's |
| Sched.PickDefault | kernel/src/kmt.c:50-52 | and its default otherwise |
| Sched.TrapEnds | kernel/src/kmt.c:14-60 | a trap leaves all other CPUs as they are, and what ran before it as the last task of its own |
| Sched.FreeNearest | kernel/src/kmt.c:102-105 | a new task gets the free slot nearest behind the random one |
| Sched.RunsIffOn | kernel/src/kmt.c:14-18 | a created task has its run flag set exactly when it is current or last on some CPU |
| Sched.AssertionsHold | kernel/src/kmt.c:24-27 | the kernel's own assertions hold |
| Sched.WakeIsNotLost | kernel/src/kmt.c:228-237 | a waiter that is signalled before it yields is awake, and ready once no CPU is on it |
| Sched.SemaphoreLaw | kernel/src/kmt.c:181-254 | in every state of every run: cnt_tasks = queue length = max(0, -count), initial value + signals = passes + max(count, 0), and waiters wake in the order in which they blocked |
| Sched.CountLaw | kernel/src/kmt.c:225-254 | in every state of every run: count = initial value + sem_signal calls - sem_wait calls; as many callers are queued as it is below zero, and all others have passed |
| Sched.FirstServed | kernel/src/kmt.c:209-254 | the n-th wake-up of a run wakes the task whose sem_wait was the n-th to find no positive count, and changes no other flag |
| Sched.WaitBlocks | kernel/src/kmt.c:225-241 | sem_wait sets its caller's sleep flag exactly when the count is not positive, and nobody else's |
| Sched.StepsPossible | kernel/src/kmt.c:14-254 | steps wait for locks and pending yields only |
| Sched.SleepsIffWaits | kernel/src/kmt.c:228-237 | in every state of every run a task has its sleep flag set exactly when it waits, and it waits in one place of one queue |
| Sched.TrapCloses | kernel/src/kmt.c:34-52 | a trap that passes over a ready task leaves that CPU strictly closer to it |
| Sched.Overtaking | kernel/src/kmt.c:34-60 | while a task stays ready each CPU traps fewer than MAXTASK times |
| Contexts.ResumesWhatWasSaved | kernel/src/kmt.c:14-60 | in every run, what a trap resumes it resumes with the context last saved for it: by the trap that took it off a CPU, by the first trap of the CPU whose default it is, or by its creation |
| Contexts.TrappedBefore | kernel/src/kmt.c:20-23 | notdefault says whether the CPU has trapped before |
| Kmt.Semaphore.ListAdd | kernel/src/kmt.c:189-207 | a new waiter is linked in front, the list staying doubly linked |
| Kmt.Semaphore.Oldest | kernel/src/kmt.c:209-211 | the walk ends at the oldest waiter |
| Kmt.Semaphore.Unlink | kernel/src/kmt.c:214-223 | the oldest waiter is unlinked, the rest staying as it was |
| Kmt.Kernel.constructor | kernel/src/kmt.c:62-79 | kmt_init makes an initial state |
| Kmt.Kernel.ContextSave | kernel/src/kmt.c:14-32 | the tables and flags after the call are those of the save step |
| Kmt.Kernel.FindRunnable | kernel/src/kmt.c:36-54 | the search finds the first runnable slot after the current task's, or the CPU's default |
| Kmt.Kernel.ContextSwitch | kernel/src/kmt.c:34-60 | the tables and flags after the call are those of the switch step |
| Kmt.Kernel.KmtCreate | kernel/src/kmt.c:81-110 | the create step for any task, and the result code of both failures |
| Kmt.Kernel.KmtTeardown | kernel/src/kmt.c:112-121 | the teardown step |
| Kmt.Kernel.SemWait | kernel/src/kmt.c:225-241 | the wait step, with the linked queue in step with it |
| Kmt.Kernel.SemSignal | kernel/src/kmt.c:243-254 | the two signal steps one after the other |
| Spin.StepKeeps | kernel/src/kmt.c:125-177 | every single access of every CPU keeps the invariant |
| Spin.MutualExclusion | kernel/src/kmt.c:155-177 | at most one CPU is between its successful exchange and its releasing store |
| Spin.AcquireReturns | kernel/src/kmt.c:155-166 | in every run, when spin_lock returns, its CPU holds that lock, which it did not before, and otherwise what it held; the lock is locked and names the CPU; interrupts are off, and cpuncli is one higher |
| Spin.ReleaseReturns | kernel/src/kmt.c:168-177 | when spin_unlock returns, its CPU no longer holds that lock, which it did before, and otherwise what it held; cpuncli is one lower |
| Spin.TryTakes | kernel/src/kmt.c:161-162 | the exchange loop ends exactly when the lock is free, and takes it |
| Spin.StoreFrees | kernel/src/kmt.c:170-174 | the releasing store leaves the lock unlocked and naming nobody |
| Spin.GoAdvances | kernel/src/kmt.c:155-177 | every access inside a call brings its end nearer, unless the exchange fails on a taken lock or an assertion fails |
| Spin.StepsPossible | kernel/src/kmt.c:155-177 | a CPU between calls can begin any, and one inside a call can go on |
| Spin.CpuFieldNamesOwner | kernel/src/kmt.c:141-147 | a lock whose cpu field names a CPU is owned by it and locked |
| Spin.ChecksAreExact | kernel/src/kmt.c:141-169 | the assertion of spin_unlock fails exactly for non-owners and that of spin_lock exactly for owners, although holding reads two fields at different times |
| Spin.DepthCountsLocks | kernel/src/kmt.c:125-139 | cpuncli counts the locks held or being taken or released, popcli never panics, and interrupts are off under any lock |
| Spin.FlagRestored | kernel/src/kmt.c:125-139 | once all locks are released, nested or interleaved, the interrupt flag is what it was before the first |
| MergeSpec.MergeSorts | abstract-machine/apps/coremark/src/core_list_join.c:453-480 | merging two sorted runs sorts, equal keys keeping their original order |
| MergeSpec.PassDoubles | abstract-machine/apps/coremark/src/core_list_join.c:432-491 | a pass turns sorted runs of insize into sorted runs of twice that |
| MergeSpec.PassTakes | abstract-machine/apps/coremark/src/core_list_join.c:439-482 | a pass takes every node exactly once |
| CoreList.StepAlong | abstract-machine/apps/coremark/src/core_list_join.c:441-448 | insize places along, or the end of the list |
| CoreList.Choose | abstract-machine/apps/coremark/src/core_list_join.c:456-469 | the next node of the merge, with all four cases |
| CoreList.MergeRun | abstract-machine/apps/coremark/src/core_list_join.c:453-482 | relinks two runs in merged order behind what has been merged, leaving the rest linked |
| CoreList.PassOver | abstract-machine/apps/coremark/src/core_list_join.c:432-484 | the list is relinked in the order of the pass, and at most one merge was counted exactly when the list was no longer than two runs |
| CoreList.MergeSort | abstract-machine/apps/coremark/src/core_list_join.c:426-492 | the result is an acyclic list of exactly the old nodes, ascending, equal ones in their old order |
| CoreList.Reverse | abstract-machine/apps/coremark/src/core_list_join.c:395-404 | the same nodes in the opposite order |
| CoreList.Remove | abstract-machine/apps/coremark/src/core_list_join.c:316-327 | the successor leaves the list with the item's key |
| CoreList.RemoveAndUndo | abstract-machine/apps/coremark/src/core_list_join.c:345-355 | undoing a removal restores nodes, order and keys |
| Fix16Mul.ProductWorth | abstract-machine/libs/fixmath/src/fix16.c:124-137 | the two words with their carry are worth the product, less what the middle sum has lost |
| Fix16Mul.FinishIs | abstract-machine/libs/fixmath/src/fix16.c:139-164 | the overflow test and the borrow round the words half away from zero or report overflow |
| Fix16Mul.MulExact | abstract-machine/libs/fixmath/src/fix16.c:113-166 | over all operands: the result is the rounded product or the overflow value if and only if the middle sum fits 32 bits or the product is large enough to overflow all the same |
| Fix16Mul.MulRight | abstract-machine/libs/fixmath/src/fix16.c:113-166 | the same in terms of the product alone: sign, half a unit at most, overflow exactly where the nearest integer does not fit |
| Fix16Mul.MulFails | abstract-machine/libs/fixmath/src/fix16.c:128 | operands on which it is wrong |
| Fix16Mul.MulSmall | abstract-machine/libs/fixmath/src/fix16.c:113-166 | below 2^30 in magnitude it is always right |
| Fix16Div.HalvedIsNearest | abstract-machine/libs/fixmath/src/fix16.c:341-346 | halving the doubled quotient with one added rounds to nearest, ties up |
| Fix16Div.DivExact | abstract-machine/libs/fixmath/src/fix16.c:290-360 | for every non-zero divisor: the result is the rounded quotient or the overflow value if and only if the bits dropped by the kick-start do not carry, or the doubled quotient is odd |
| Fix16Div.DivRight | abstract-machine/libs/fixmath/src/fix16.c:290-360 | the same in terms of the operands alone: sign of the quotient, half a unit off at most, overflow exactly where the nearest integer does not fit |
| Fix16Div.DivSmall | abstract-machine/libs/fixmath/src/fix16.c:290-360 | for divisors below 2^20 it is always right |
| Fix16Div.DivFails | abstract-machine/libs/fixmath/src/fix16.c:306-311 | operands on which it is wrong |
| Fix16Div.DigitTest | abstract-machine/libs/fixmath/src/fix16.c:333-335 | the mask test finds exactly the digits that do not fit when shifted back |
| Fix16Div.NotTheLargest | abstract-machine/libs/fixmath/src/fix16.c:341-346 | the increment before the last shift cannot wrap |
| Fix16Div.Digits | abstract-machine/libs/fixmath/src/fix16.c:320-339 | the loop ends with the exact quotient, and reports overflow exactly when it needs more than 32 bits |
| Fix16Div.Div | abstract-machine/libs/fixmath/src/fix16.c:290-360 | the 32-bit steps compute the signed, rounded or saturated result, the overflow value for a zero divisor, and the nearest quotient with its sign exactly on the operands of DivRight |
| Fix16Sqrt.NearestRounds | abstract-machine/libs/fixmath/src/fix16_sqrt.c:75-81 | the reference value is the root to the nearest integer |
| Fix16Sqrt.SqrtExact | abstract-machine/libs/fixmath/src/fix16_sqrt.c:12-84 | correct rounding if and only if the first remainder is below 2^16 or the root is not just above a half |
| Fix16Sqrt.SqrtRight | abstract-machine/libs/fixmath/src/fix16_sqrt.c:12-84 | the same in terms of squares alone |
| Fix16Sqrt.SqrtSmall | abstract-machine/libs/fixmath/src/fix16_sqrt.c:12-84 | below 2^30 the rounding is always right |
| Fix16Sqrt.SqrtClose | abstract-machine/libs/fixmath/src/fix16_sqrt.c:12-84 | the result is always less than one unit off |
| Fix16Sqrt.SqrtFails | abstract-machine/libs/fixmath/src/fix16_sqrt.c:53-64 | an operand that is rounded the wrong way |
| Fix16Sqrt.Digit | abstract-machine/libs/fixmath/src/fix16_sqrt.c:36-48 | one digit of the root, with no word overflowing |
| Fix16Sqrt.Rescale | abstract-machine/libs/fixmath/src/fix16_sqrt.c:50-72 | between the passes remainder and root move up by 16 bits without overflowing |
| Fix16Sqrt.Sqrt | abstract-machine/libs/fixmath/src/fix16_sqrt.c:12-84 | the two passes compute the rounded root of the corrected operand, which is the nearest one exactly on the operands of SqrtRight; negative operands give the negated root |
| Fix16Str.ItoaDenotes | abstract-machine/libs/fixmath/src/fix16_str.c:10-26 | the digits printed denote the value, and their number is bounded, or exact without skipping |
| Fix16Str.NoLeadingZero | abstract-machine/libs/fixmath/src/fix16_str.c:16-21 | skipping leaves no zero in front, but for the number zero |
| Fix16Str.SeparateRounds | abstract-machine/libs/fixmath/src/fix16_str.c:34-45 | integer part and decimals are the value rounded to the scale, the carry included |
| Fix16Text.RoundingsCancel | abstract-machine/libs/fixmath/src/fix16_str.c:6-7 | five decimals are enough: at a scale above 2^16 the nearest raw unit to the rounded decimals is the number itself |
| Fix16Str.DecimalPartNearest | abstract-machine/libs/fixmath/src/fix16_str.c:91-100 | up to five decimals are read to the nearest raw unit, ties up |
| Fix16Text.RoundTrip | abstract-machine/libs/fixmath/src/fix16_str.c:28-113 | parsing the text with five decimals gives back every number but INT_MIN |
| Fix16Str.ToStrFits | abstract-machine/libs/fixmath/include/fix16.h:223-226 | thirteen bytes are enough |
| Fix16Str.ItoaLoop | abstract-machine/libs/fixmath/src/fix16_str.c:10-26 | writes exactly these digits and nothing else, and returns where it stopped |
| Fix16Str.Format | abstract-machine/libs/fixmath/src/fix16_str.c:28-58 | writes exactly the text and a zero byte |
| Fix16Str.ReadWhole | abstract-machine/libs/fixmath/src/fix16_str.c:70-78 | the integer part is right unless there are more than five digits, whatever wraps |
| Fix16Str.ReadDecimals | abstract-machine/libs/fixmath/src/fix16_str.c:91-98 | at most five decimals and their scale |
| Fix16Str.Parse | abstract-machine/libs/fixmath/src/fix16_str.c:60-113 | computes FromStr, whose meaning `Fix16Text.TextRead` states, of the text before the zero byte |
| Fix16Text.TextRead | abstract-machine/libs/fixmath/include/fix16.h:228-232 | over all texts of spaces, sign, digits, and a point with at most five decimals: FromStr is the value rounded to the nearest raw unit, or overflow where it does not fit, if and only if there are at most five digits in front of the point and not both -32768 and decimals that do not round to 0, or more digits and a value that overflows |
| Fix16Text.ReadIsText | abstract-machine/libs/fixmath/src/fix16_str.c:103-110 | whatever else the string is, FromStr is the overflow value |
| Fix16Text.NearestMeans | abstract-machine/libs/fixmath/src/fix16_str.c:91-100 | the reference value is the nearest raw unit, ties up in magnitude |
| Fix16Text.FractionTurnsAround | abstract-machine/libs/fixmath/src/fix16_str.c:100-112 | "-32768.5" is read as 32767.5 |
| Fix16Text.ZeroesCount | abstract-machine/libs/fixmath/src/fix16_str.c:80-82 | "000001" is read as overflow |
| Fix16Text.MixtureIsRead | abstract-machine/libs/fixmath/src/fix16_str.c:103-110 | "1 2" is read as 1 |
| Fix16Text.PrintedText | abstract-machine/libs/fixmath/src/fix16_str.c:28-58 | at any number of decimals the text printed has as many, five at most, and denotes the value rounded to them, half up in magnitude; a minus sign for negative values, no blanks, no leading zeros, a point exactly before decimals |
| Fix16Text.ScalePlaces | abstract-machine/libs/fixmath/src/fix16_str.c:5-8 | the table holds the powers of ten, and the fifth for all larger numbers of decimals |
| Fix16Text.FormatAndParse | abstract-machine/libs/fixmath/src/fix16_str.c:28-113 | the round trip through a buffer |
| Pmm.BlocksDisjoint | kernel/src/pmm.c:58-111 | headers and payloads of different blocks are disjoint and inside the heap |
| Pmm.FirstFit | kernel/src/pmm.c:77-87 | the lowest gap that is large enough, or none if none is |
| Pmm.AllocatedOrdered | kernel/src/pmm.c:21-31 | an allocation keeps blocks in address order and apart |
| Pmm.PayloadIsOwn | kernel/src/pmm.c:21-31 | no byte of the returned payload belongs to another block or header |
| Pmm.FreeUndoesAlloc | kernel/src/pmm.c:33-36 | freeing what was just allocated undoes the allocation |
| Pmm.FreeingAllRestores | kernel/src/pmm.c:98-111 | freeing all live blocks, in any order, leaves the initial list |
| Pmm.RunOrdered | kernel/src/pmm.c:58-111 | in every run of allocations and frees blocks stay disjoint, ordered and inside the heap |
| Pmm.HandedLowest | kernel/src/pmm.c:77-87 | kalloc returns the start of the lowest gap that holds header and size, behind the header, and null exactly when no gap does |
| Pmm.LentApart | kernel/src/pmm.c:58-111 | in every run, everything handed out and not freed lies inside the heap, as long as was asked for, apart from all other such payloads and headers |
| Pmm.BlocksLent | kernel/src/pmm.c:58-111 | and nothing else is taken |
| Pmm.Heap.constructor | kernel/src/pmm.c:7-18 | list_init links the two bounding headers |
| Pmm.AddedHeaders | kernel/src/pmm.c:21-31 | adding a node leaves next and pre mutually inverse along the new list |
| Pmm.DeletedHeaders | kernel/src/pmm.c:33-36 | so does deleting one |
| Pmm.WrapBreaks | kernel/src/pmm.c:79-80 | when size + BIAS wraps, every list from head runs into a header longer than its block |
| Pmm.Heap.Kalloc | kernel/src/pmm.c:58-96 | lowest fitting gap; null exactly when no gap holds the (possibly wrapped) size + BIAS; the list stays in order if and only if that does not wrap or null is returned |
| Pmm.Heap.Kfree | kernel/src/pmm.c:98-111 | a live block is removed and everything else stays |
| Vme.ViewPrepend | abstract-machine/am/src/native/vme.c:85-88 | a new page in front of a list adds to its mapping |
| Vme.ViewDrop | abstract-machine/am/src/native/vme.c:54-60 | unmapping the first page of a list leaves the mapping of the rest |
| Vme.Mmu.Protect | abstract-machine/am/src/native/vme.c:30-34 | the space maps nothing, all others kept; the invariant is kept exactly when it is not the current one or had no pages |
| Vme.Mmu.Map | abstract-machine/am/src/native/vme.c:71-101 | the space maps the page in addition, unless it is mapped elsewhere; what is installed follows the current space |
| Vme.Mmu.Switch | abstract-machine/am/src/native/vme.c:46-69 | afterwards exactly the mapping of the new space is installed and exactly its nodes are marked |

## Left out

- Machine contexts, stacks, inline assembly, memory fences, timers: contexts are opaque values, kept beside the steps in `Contexts` and not on the heap of `Kmt`; `xchg` is one step, `rand()` is a parameter.
- Sched.TeardownKeeps: only for tasks that are on no CPU and in no queue; tearing down any other leaves dangling references, which the code does not prevent (`Sched.TeardownOnlyDetached`).
- Sched.CreateKeeps: only for tasks that are not in the table and no default, which the code does not check either (`Sched.CreateOnlyUnused`).
- `kmt_create`: its check of the count and its insertion are one step; two racing calls may both pass the check.
- `os_on_irq`: the pair save-then-switch is taken as registered, and a trap is one step because `os_trap` holds `lock_os`.
- Sched.Overtaking: counts the traps of one CPU while the task stays ready, and says nothing about a CPU that stops trapping.
- Semaphore steps are atomic: a wait up to its yield because its lock is held with interrupts off, a signal in two steps because it clears a sleep flag before it unlinks. A signal's second step follows without naming the CPU that runs it.
- Kmt.Kernel.SemSignal: both steps in one call; interleavings of other CPUs between them are in `Sched` only.
- Kmt.Semaphore.ListAdd: allocation of queue nodes does not fail, and freed nodes are not reused.
- Spin.Access: a CPU is the unit of interleaving; an interrupt between reading and clearing the flag in `pushcli` is not modelled.
- kvdb: stdio buffering, `flock`, mutexes, error returns and durability of `fsync`; calls are serialised and a crash keeps a byte prefix.
- Kvdb.Db.GetValue: stated for logs that hold whole records and at most one torn one; on other bytes only the recovery is covered.
- The packer on a target of width 0, where the alignment divides by zero when the first rectangle is packed; `STBRP_LARGE_RECTS`.
- RectPack.Context.FindMinY: the wasted area is an unbounded integer.
- RectPack.Context.BestFitRight: the best-fit heuristic is covered only for widths that fit the target, beyond which the code walks off the list.
- PackRects.PackRects: the library sort is a parameter, any order the comparator allows and the order that undoes it.
- CompilerRt.UDivModDi4: a divisor of 0 (undefined) and a null remainder pointer.
- SignedDiv.DivDi3: INT64_MIN as an operand, whose negation is undefined.
- SignedDiv.ModDi3: likewise.
- Fix16Div.Div: INT_MIN as an operand, whose negation is undefined; likewise for the root and for printing.
- Fix16Mul.MulExact: reads the final increment as wrapping, where C leaves the overflow of a signed word undefined.
- Fix16Str.Parse: reads the conversion of 2^31 to a signed word and the negation of -2^31 as wrapping; C leaves the first to the implementation and the second undefined. Only texts with -32768 in front of the point come there.
- Fix16Text.TextRead: decimals after the fifth are among the trailing digits that the code ignores; it says nothing of what they would add.
- CoreList.MergeSort: insize is unbounded; the loop keeps it below twice the length of the list. The comparator is pure and total.
- Pmm: debug output, the lock, and the `CORRECTNESS_FIRST` variant; memory is seen through the headers written to it.
- Pmm.WrapBreaks: a new header in a gap of less than 16 bytes overwrites part of the next one, which a map from addresses to whole headers cannot represent.
- Vme: `shm_mmap` and `shm_munmap` update a ghost mapping; `_ucontext`, `_unprotect` and protection bits.
- The NES emulator, imgui, games, drawing, pstree, sperf, crepl, frecov, libco, drivers and benchmarks: I/O, foreign code or easy members.
- ext2 and `int64.h` emulation: their code does not keep the laws one would state.
