# AIWC in Dafny: the workload-characterisation plugin of Oclgrind

Oclgrind simulates OpenCL kernels one work-group at a time. Its plugin
`WorkloadCharacterisation` (AIWC, Architecture-Independent Workload
Characterisation) watches every simulated event and, at the end of each kernel,
prints figures that do not depend on any particular device. Those figures are:

- how many opcodes cover 90% of the dynamic instructions;
- the instructions between barriers and per work-item;
- the SIMD widths;
- the memory footprint;
- the distribution over address spaces;
- how many branch locations cover 90% of the branches, and how predictable the branches are.

The plugin also logs every host-to-device and device-to-host copy under the name of the kernel it belongs to.

This project models that plugin and proves properties of the model, in four parts:

1. **The per-work-group accumulator** (`worker.dfy`, module `Worker`).
   - The class `WorkerState` is the plugin's thread-local `m_state`.
   - Its methods are the hooks the simulator calls: `instructionExecuted`, the memory-access hooks, the work-item and barrier hooks, and `workGroupBegin`.
   - What a hook reads from LLVM arrives as an `Instruction` value: the opcode, the pointer's address space and name, the block label, the branch operands, the debug line and the result width.
   - The class invariant `Valid` says:
     - the barrier-distance log has one entry per barrier and per completed work-item;
     - the per-work-item log has one entry per completed work-item;
     - every load/store gap is at least 1 and matches one counted pointer label;
     - the SIMD-width histogram counts exactly the counted opcodes.
2. **The reducer** (`plugin.dfy`, class `Plugin.WorkloadCharacterisation`).
   - `WorkGroupComplete` folds a group's state into the kernel-global counters:
     - histograms are added key by key (`Histogram.Merge`);
     - scalar counters are summed;
     - logs are appended in order;
     - the group's address log is emptied.
   - Merging preserves the class invariant.
   - Merging histograms loses and duplicates nothing (`Histogram.TotalMerge`).
   - For the histograms and the scalar counters, the order in which work-groups complete does not matter (`Histogram.MergeCommutes`).
   - For the branch outcomes it does. Each location's outcomes are concatenated in completion order, and a history window can span the seam between two groups.
     - The number of windows is the same in either order (`Plugin.WindowCountsOrderFree`).
     - Their linear-entropy numerator is not: `Plugin.BranchEntropyDependsOnOrder` exhibits two groups whose average linear entropy is 1 in one order and 15/16 in the other.
3. **The integer part of the kernel summary** (`stats.dfy`, `footprint.dfy`, `branches.dfy`, `sorting.dfy`, and `Plugin.Summarise`).
   - The 90% coverage cutoff, used for opcodes, addresses and branch locations.
     - It is the least prefix of the descending counts that reaches ⌈0.9·total⌉.
     - It never exceeds the number of keys and is zero exactly when nothing was counted.
     - It depends only on the multiset of counts, so neither the `unordered_map` iteration order nor the tie order of the sort matters.
   - Min, max and median of the barrier and per-work-item logs.
   - The SIMD operand sum and count. The mean width lies between the extreme widths.
   - The eleven shifted-address histograms.
     - Every access is counted once at every shift.
     - Coarser shifts never have more distinct addresses.
   - The 16-outcome branch-history windows.
     - A location with L ≥ 16 outcomes gives L − 15 windows; a shorter one gives none.
     - Every pattern has 16 bits.
     - The average linear entropy lies between 0 and 1, and is 0 for a branch that always goes the same way.
   - The ratios among the floating-point figures are represented by their integer numerators and denominators. These are the SIMD mean, freedom to reorder, resource pressure, granularity, barriers per instruction, instructions per operand and the memory-type percentages. The Shannon and Yokota entropies and the SIMD standard deviation are not represented at all.
4. **The host-transfer log** (`Plugin.WorkloadCharacterisation`).
   - Host loads and stores append the last kernel's name.
   - `kernelBegin` renames the pending host-to-device entries to the new kernel; the invariant `pending <= |hostToDevice|` keeps that rename in bounds.
   - The per-kernel transfer counts the destructor prints are modelled too.

`histogram.dfy` models a C++ `unordered_map` from a key to a count as a `map<K, nat>`. It provides:

- `operator[]` semantics: an absent key reads as 0;
- order-free sums;
- *listings*: one iteration order each, with lemmas showing that every listing gives the same sums and the same multiset of counts.

### Quirks of the source that the model keeps

- **The reset after `kernelEnd` is partial.** `kernelEnd` (`src/plugins/WorkloadCharacterisation.cpp:673-682`) does not clear:
  - the SIMD-width histogram;
  - the barrier count;
  - the three address-space counters.

  The model keeps them too (`Plugin.AfterKernel`), so the invariant ties the opcode total to the width total only as an inequality. `kernelBegin` does clear all of them.
- **The load/store gap is incremented before it is pushed.** So every recorded gap is at least 1, and the counter is 0 afterwards.
- **Addresses and space counters are recorded by different hooks.**
  - The address is logged by the memory hooks.
  - The address-space counter is incremented by `instructionExecuted`.
  - The atomic hooks test the address space against the literal 0, which is the number of the private space.
- **The median is an integer.** The sum of the two middle values is halved in integer arithmetic, so the model's median is the floor of their average. That sum is `unsigned` and can wrap. The report uses the corrected median, which does not wrap; `Stats.MedianAsWritten` models the wrap (see Findings).
- **Divisions by zero are not guarded.** Freedom to reorder, resource pressure and granularity are divided without a guard. Only the average linear branch entropy maps its NaN to 0. The model keeps numerators and denominators.
- **"Taken" is the first printed successor.** A branch counts as taken when the next block matches the first successor the source prints, which is operand 1 of the `br`. The model records exactly that.

## Model

| member | source | states |
|---|---|---|
| Histogram.Add | src/plugins/WorkloadCharacterisation.cpp:731 | `m[k] += n` through `operator[]`: the key is created if absent, its count grows by `n`, every other key is unchanged |
| Histogram.TotalMerge | src/plugins/WorkloadCharacterisation.cpp:730-731 | the total of a key-by-key merge is the sum of the two totals: no occurrence lost or counted twice |
| Histogram.MergeCommutes | src/plugins/WorkloadCharacterisation.cpp:727-731 | merging histograms is commutative: the order in which work-groups complete does not change the merged histograms (the branch outcomes are another matter, see `Plugin.BranchEntropyDependsOnOrder`) |
| Histogram.MergeAssociates | src/plugins/WorkloadCharacterisation.cpp:727-731 | merging histograms is associative: folding groups one at a time equals merging them first |
| Histogram.AddCounts | src/plugins/WorkloadCharacterisation.cpp:730-731 | the merge loop leaves every key of the group at global + group, every other key unchanged, i.e. `Merge(acc, group)` |
| Histogram.SumCounts | src/plugins/WorkloadCharacterisation.cpp:314-316 | the running sum over an `unordered_map` in its iteration order equals the order-free total |
| Histogram.Entries | src/plugins/WorkloadCharacterisation.cpp:301-302 | iterating an `unordered_map` visits every entry exactly once, in an order the map does not fix |
| Histogram.ListingSum | src/plugins/WorkloadCharacterisation.cpp:314-316 | a sum along any iteration order equals the order-free sum |
| Histogram.ListingsAgree | src/plugins/WorkloadCharacterisation.cpp:301-304 | two iteration orders of one map yield the same multiset of counts |
| Histogram.KeysAtMostTotal | src/plugins/WorkloadCharacterisation.cpp:463 | a histogram with positive counts has no more keys than occurrences |
| Sorting.SortAsc | src/plugins/WorkloadCharacterisation.cpp:374-375 | `std::sort`: the copy is ascending and a permutation of the input, with the same length and sum |
| Sorting.SortDesc | src/plugins/WorkloadCharacterisation.cpp:301-304 | the comparator `left.second > right.second`: the counts in descending order, a permutation of the input |
| Sorting.SortedUnique | src/plugins/WorkloadCharacterisation.cpp:301-304 | two ascending permutations of one multiset are equal: any correct sort gives the same sequence |
| Sorting.SortDescOfPermutation | src/plugins/WorkloadCharacterisation.cpp:301-304 | permuted inputs sort to the same descending sequence and have the same sum |
| Sorting.Min | src/plugins/WorkloadCharacterisation.cpp:370 | `std::min_element`: an element of the sequence no larger than any element |
| Sorting.Max | src/plugins/WorkloadCharacterisation.cpp:371 | `std::max_element`: an element of the sequence no smaller than any element |
| Sorting.SortedEnds | src/plugins/WorkloadCharacterisation.cpp:370-375 | the first and last of the sorted copy are the minimum and maximum of the original |
| Stats.Target | src/plugins/WorkloadCharacterisation.cpp:317 | `ceil(count * 0.9)`: the least integer at least nine tenths of the total, never above the total |
| Stats.LeastPrefix | src/plugins/WorkloadCharacterisation.cpp:323-329 | the shortest prefix whose sum reaches the target: it reaches it and every shorter prefix stays below |
| Stats.LeastPrefixUnique | src/plugins/WorkloadCharacterisation.cpp:323-329 | a prefix length that reaches the target while every shorter one does not is that shortest prefix |
| Stats.CoverageReaches | src/plugins/WorkloadCharacterisation.cpp:314-329 | the keys taken cover at least 90% of all occurrences and one key fewer does not |
| Stats.CoverageZero | src/plugins/WorkloadCharacterisation.cpp:323 | no key is needed exactly when nothing was counted |
| Stats.CoverageDependsOnMultiset | src/plugins/WorkloadCharacterisation.cpp:301-304 | the cutoff depends only on the multiset of counts, not on how ties are ordered |
| Stats.SumInOrder | src/plugins/WorkloadCharacterisation.cpp:344 | `std::accumulate` over a log gives its sum |
| Stats.TakeUntil | src/plugins/WorkloadCharacterisation.cpp:323-329 | the loop `while (acc < target) acc += s[k++]` stops at the shortest prefix reaching the target, in bounds |
| Stats.CoverageCutoff | src/plugins/WorkloadCharacterisation.cpp:314-329 | sort, sum, take until 90%: the result is the coverage, at most the number of keys, 0 iff the total is 0 |
| Stats.CoverageOfListing | src/plugins/WorkloadCharacterisation.cpp:301-304 | every iteration order of a histogram gives the same coverage |
| Stats.CoverageOfBounds | src/plugins/WorkloadCharacterisation.cpp:314-333 | a histogram's coverage counts at most its keys and is zero exactly when it recorded nothing |
| Stats.HistogramCoverage | src/plugins/WorkloadCharacterisation.cpp:301-333 | the cutoff run over a histogram in its own iteration order is its order-free coverage, at most its keys, 0 iff empty total |
| Stats.MedianAsWritten | src/plugins/WorkloadCharacterisation.cpp:377-382 | the median as written: middle element, or the two middle `unsigned` values added modulo 2^32 and halved |
| Stats.MedianAsWrittenWraps | src/plugins/WorkloadCharacterisation.cpp:379 | on `[2^31, 2^31]` the median as written is 0, below the minimum |
| Stats.MedianAsWrittenNoWrap | src/plugins/WorkloadCharacterisation.cpp:399-404 | without wrap-around the median as written is the floor of the middle average |
| Stats.Median | src/plugins/WorkloadCharacterisation.cpp:377-382 | odd length: the middle element; even length: floor of the average of the two middle elements; always between them |
| Stats.SpreadOf | src/plugins/WorkloadCharacterisation.cpp:370-382 | min and max are elements bounding every element; the median is the middle of the sorted copy, or the floor average of its two middle elements, between min and max; an empty log has no spread |
| Stats.SpreadOfPermutation | src/plugins/WorkloadCharacterisation.cpp:392-404 | min, max and median do not depend on the order in which work-groups appended their counts |
| Stats.OperandSumBounds | src/plugins/WorkloadCharacterisation.cpp:416-421 | with every width in [lo, hi], `simd_sum` lies between lo and hi times `simd_num` |
| Stats.SimdStats | src/plugins/WorkloadCharacterisation.cpp:413-421 | the extreme widths are keys bounding every key; `simd_sum` is Σ width·count and `simd_num` the instruction total; no result for an empty histogram |
| Stats.SimdMeanBetween | src/plugins/WorkloadCharacterisation.cpp:422 | the mean SIMD width lies between the smallest and the largest width |
| Footprint.ShrStep | src/plugins/WorkloadCharacterisation.cpp:445 | one more shift halves the shifted address |
| Footprint.ShiftedTotal | src/plugins/WorkloadCharacterisation.cpp:442-448 | at every shift, the histogram counts every logged access exactly once |
| Footprint.ShiftedKeys | src/plugins/WorkloadCharacterisation.cpp:442-448 | the keys at a shift are exactly the shifted addresses, each counted at least once |
| Footprint.FootprintAtMostAccesses | src/plugins/WorkloadCharacterisation.cpp:455-463 | the footprint (distinct addresses) never exceeds the number of accesses |
| Footprint.ShiftedKeysHalve | src/plugins/WorkloadCharacterisation.cpp:444-446 | the keys one shift further are the halved keys |
| Footprint.CoarserFewer | src/plugins/WorkloadCharacterisation.cpp:502-508 | dropping one more low bit never increases the number of distinct addresses |
| Footprint.AddressHistograms | src/plugins/WorkloadCharacterisation.cpp:442-448 | eleven histograms; the one at shift s counts `address >> s` over the whole log |
| BranchHistory.Pattern | src/plugins/WorkloadCharacterisation.cpp:582-586 | the pattern has one character per outcome, '1' for taken and '0' for not taken |
| BranchHistory.BinaryCounts | src/plugins/WorkloadCharacterisation.cpp:594-595 | in a pattern of ones and zeros, taken plus not-taken is the pattern length |
| BranchHistory.WindowsTotal | src/plugins/WorkloadCharacterisation.cpp:581-588 | the pattern counts of a location add up to its number of windows |
| BranchHistory.WindowWellFormed | src/plugins/WorkloadCharacterisation.cpp:583-586 | a window is 16 outcomes, each taken or not taken |
| BranchHistory.PatternIsWindow | src/plugins/WorkloadCharacterisation.cpp:581-588 | every counted pattern is one of the location's windows |
| BranchHistory.PatternsWellFormed | src/plugins/WorkloadCharacterisation.cpp:594-596 | every counted pattern has taken + not-taken = 16 |
| BranchHistory.PatternHistogram | src/plugins/WorkloadCharacterisation.cpp:576-588 | a location with fewer than 16 outcomes gives nothing; otherwise each of its L−15 windows is spelled and counted |
| BranchHistory.BalanceAtMostHalf | src/plugins/WorkloadCharacterisation.cpp:596-604 | `min(taken, not_taken)` of a 16-outcome pattern is at most 8: linear entropy is at most 1 |
| BranchHistory.ConstantBranchNoEntropy | src/plugins/WorkloadCharacterisation.cpp:596-605 | a branch that always goes the same way contributes no linear entropy |
| BranchHistory.PatternTally | src/plugins/WorkloadCharacterisation.cpp:590-607 | per location, `N` grows by the pattern total and the linear numerator by Σ occurrences·min(taken, not taken), at most 8 per window |
| BranchHistory.LinearAtMostCount | src/plugins/WorkloadCharacterisation.cpp:604-605 | the linear numerator of a pattern histogram is at most 8 per counted window |
| BranchHistory.LinearAtMostWindows | src/plugins/WorkloadCharacterisation.cpp:574-609 | over all locations the linear numerator is at most 8 per window: the average is at most 1 |
| BranchHistory.BranchWindows | src/plugins/WorkloadCharacterisation.cpp:574-608 | `N` is the number of windows of all locations and the numerator their summed balance, at most 8·N |
| BranchHistory.AverageLinearEntropy | src/plugins/WorkloadCharacterisation.cpp:609-612 | `average_entropy / N` as a ratio in [0, 1]; without windows the NaN is reported as 0 |
| Worker.Record | src/plugins/WorkloadCharacterisation.cpp:202-204 | `branchOps[loc].push_back(taken)`: the location's outcomes grow by one, other locations unchanged |
| Worker.Armed | src/plugins/WorkloadCharacterisation.cpp:213-227 | a branch is pending afterwards exactly when the instruction is a 3-operand `br` with two label operands |
| Worker.WorkerState.ClearedValid | src/plugins/WorkloadCharacterisation.cpp:699-722 | a cleared group state satisfies the hooks' invariant |
| Worker.WorkerState.constructor | src/plugins/WorkloadCharacterisation.cpp:687-698 | a fresh state: every container empty, every counter zero, no branch pending, invariant holds |
| Worker.WorkerState.ClearLogs | src/plugins/WorkloadCharacterisation.cpp:699-705 | the address, barrier, per-work-item and gap logs are emptied |
| Worker.WorkerState.ClearHistograms | src/plugins/WorkloadCharacterisation.cpp:700-707 | the opcode, branch, width and label histograms are emptied |
| Worker.WorkerState.ClearCounters | src/plugins/WorkloadCharacterisation.cpp:709-722 | the scalar counters are zeroed and no branch is pending |
| Worker.WorkerState.WorkGroupBegin | src/plugins/WorkloadCharacterisation.cpp:685-723 | everything cleared, the invariant re-established; the per-work-item count and the gap counter are left as they were |
| Worker.WorkerState.MemoryAccess | src/plugins/WorkloadCharacterisation.cpp:114-136 | the address is appended to the log exactly when the memory is not private |
| Worker.WorkerState.CountOpcode | src/plugins/WorkloadCharacterisation.cpp:142-177 | the opcode's count grows by one; a load or store bumps exactly the counter of its local, global or constant space |
| Worker.WorkerState.TrackLoadStore | src/plugins/WorkloadCharacterisation.cpp:180-193 | a load or store counts its pointer label and pushes the incremented gap (≥ 1), then the gap is 0; other instructions only widen the gap |
| Worker.WorkerState.ResolveBranch | src/plugins/WorkloadCharacterisation.cpp:196-210 | with a branch pending, the first target records `true`, the second `false`, at the branch line, and the flag clears; any other block is the error |
| Worker.WorkerState.ArmBranch | src/plugins/WorkloadCharacterisation.cpp:212-227 | a conditional branch stores its two targets and its line and becomes pending |
| Worker.WorkerState.CountInstruction | src/plugins/WorkloadCharacterisation.cpp:230-235 | both instruction counters grow by one and the result width is counted once |
| Worker.WorkerState.CountOperation | src/plugins/WorkloadCharacterisation.cpp:142-193 | opcode, space and load/store bookkeeping of one instruction, preserving the gap invariant |
| Worker.WorkerState.CountControl | src/plugins/WorkloadCharacterisation.cpp:196-235 | the branch is resolved and re-armed and the counters advance, unless the block matches neither target |
| Worker.WorkerState.InstructionExecuted | src/plugins/WorkloadCharacterisation.cpp:138-238 | the whole hook: every per-instruction update, the error exactly when a pending branch is unresolved, the invariant kept |
| Worker.WorkerState.WorkItemBegin | src/plugins/WorkloadCharacterisation.cpp:250-255 | one more work-item; the instruction counters and the gap counter restart |
| Worker.WorkerState.WorkItemBarrier | src/plugins/WorkloadCharacterisation.cpp:240-244 | the distance since the last barrier is pushed, the counter zeroed and the barrier counted; one log entry per barrier |
| Worker.WorkerState.WorkItemClearBarrier | src/plugins/WorkloadCharacterisation.cpp:246-248 | the distance restarts without a log entry |
| Worker.WorkerState.WorkItemComplete | src/plugins/WorkloadCharacterisation.cpp:257-260 | both logs grow by one entry; barrier log = barriers + completed work-items, per-work-item log = completed work-items |
| Plugin.Lengths | src/plugins/WorkloadCharacterisation.cpp:546-547 | each branch location's outcome count, `x.second.size()` |
| Plugin.MergeOutcomes | src/plugins/WorkloadCharacterisation.cpp:738-740 | the merged outcome map has the locations of both |
| Plugin.LengthsMerge | src/plugins/WorkloadCharacterisation.cpp:738-740 | appending outcomes adds the per-location counts, so the branch total is the sum of both |
| Plugin.WindowCountsOrderFree | src/plugins/WorkloadCharacterisation.cpp:738-740 | the number of history windows per location does not depend on the order in which two groups' outcomes are merged |
| Plugin.BranchEntropyDependsOnOrder | src/plugins/WorkloadCharacterisation.cpp:738-740 | groups logging T⁸F⁸ and T at one location give 2 windows in either order but a linear numerator of 16 in one order and 15 in the other |
| Plugin.AppendAll | src/plugins/WorkloadCharacterisation.cpp:746-747 | pushing every item in order leaves `acc + items` |
| Plugin.AppendOutcomes | src/plugins/WorkloadCharacterisation.cpp:738-740 | each location's outcomes become global ++ group, whatever the iteration order |
| Plugin.Backfilled | src/plugins/WorkloadCharacterisation.cpp:266-269 | the renamed log keeps its length and earlier entries; exactly the last `p` entries carry the new name |
| Plugin.CountOf | src/plugins/WorkloadCharacterisation.cpp:72 | `std::count`: at most the length, positive exactly when the name occurs |
| Plugin.UniqueConsecutive | src/plugins/WorkloadCharacterisation.cpp:61-62 | `std::unique` as written: the same names, starting with the first, no two adjacent entries equal, never longer than the log |
| Plugin.UniqueConsecutiveSnoc | src/plugins/WorkloadCharacterisation.cpp:61-62 | one more name is dropped exactly when it repeats the last one: every entry equal to its predecessor is removed, the rest kept in order |
| Plugin.UniqueConsecutiveRepeats | src/plugins/WorkloadCharacterisation.cpp:65-73 | on the log `a, b, a` the name `a` is listed twice and the printed counts add up to 5 for 3 transfers |
| Plugin.DistinctInOrder | src/plugins/WorkloadCharacterisation.cpp:61-68 | each name of the log exactly once |
| Plugin.CountOfSnoc | src/plugins/WorkloadCharacterisation.cpp:105 | one more transfer raises the count of its name by one and no other |
| Plugin.ReportedTotalSnoc | src/plugins/WorkloadCharacterisation.cpp:70-73 | over distinct names, one more transfer grows the printed counts by one exactly when its name is listed |
| Plugin.DistinctCountsEveryTransfer | src/plugins/WorkloadCharacterisation.cpp:70-77 | with each name listed once, the printed counts account for every transfer exactly once |
| Plugin.TransferCounts | src/plugins/WorkloadCharacterisation.cpp:70-77 | one row per kernel that copied, with its positive transfer count; every logged name has a row |
| Plugin.ClearedConsistent | src/plugins/WorkloadCharacterisation.cpp:272-285 | cleared kernel counters satisfy the kernel invariant |
| Plugin.AfterKernel | src/plugins/WorkloadCharacterisation.cpp:673-682 | the reset empties the address, opcode, outcome, barrier, per-work-item, gap and label containers and zeroes the work-items; it keeps the widths, the barrier count and the three space counters, and the invariant |
| Plugin.SummaryBounds | src/plugins/WorkloadCharacterisation.cpp:314-612 | 90% figures ≤ keys, footprint90 ≤ footprint ≤ accesses, linear entropy ≤ 1, SIMD mean between extremes, label accesses = gaps ≤ gap sum |
| Plugin.Summarise | src/plugins/WorkloadCharacterisation.cpp:301-612 | every integer figure of the summary, each equal to its definition over the kernel counters |
| Plugin.WorkloadCharacterisation.constructor | src/plugins/WorkloadCharacterisation.cpp:45-48 | no pending transfer, no kernel name, empty logs, cleared counters, invariant holds |
| Plugin.WorkloadCharacterisation.ClearKernel | src/plugins/WorkloadCharacterisation.cpp:272-285 | every kernel counter empty or zero, and the kernel invariant holds |
| Plugin.WorkloadCharacterisation.HostMemoryLoad | src/plugins/WorkloadCharacterisation.cpp:103-106 | the device-to-host log grows by the last kernel's name |
| Plugin.WorkloadCharacterisation.HostMemoryStore | src/plugins/WorkloadCharacterisation.cpp:108-112 | the host-to-device log grows by the last kernel's name and one more copy is pending; pending ≤ log length kept |
| Plugin.WorkloadCharacterisation.BackFill | src/plugins/WorkloadCharacterisation.cpp:264-270 | exactly the last `pending` entries renamed, length and earlier entries kept, pending reset to 0 |
| Plugin.WorkloadCharacterisation.KernelBegin | src/plugins/WorkloadCharacterisation.cpp:262-286 | the back-fill, the new kernel name, then every kernel counter cleared; invariant holds |
| Plugin.WorkloadCharacterisation.MergeCompute | src/plugins/WorkloadCharacterisation.cpp:730-731 | opcode and width histograms merged key by key; opcode total stays ≤ width total |
| Plugin.WorkloadCharacterisation.MergeLoadStore | src/plugins/WorkloadCharacterisation.cpp:760-767 | gaps appended, label histograms merged; every gap ≥ 1 and one label per gap kept |
| Plugin.WorkloadCharacterisation.MergeBranchesAndBarriers | src/plugins/WorkloadCharacterisation.cpp:738-757 | outcomes appended per location, barrier and per-work-item logs appended, work-items and barriers summed; barrier-log bound kept |
| Plugin.WorkloadCharacterisation.MergeMemory | src/plugins/WorkloadCharacterisation.cpp:734-735 | the group's address log appended to the global log and emptied; the space counters summed (770-772) |
| Plugin.WorkloadCharacterisation.MergeCounts | src/plugins/WorkloadCharacterisation.cpp:752-767 | the histograms and gaps of the group added in, both invariants kept |
| Plugin.WorkloadCharacterisation.MergeLogs | src/plugins/WorkloadCharacterisation.cpp:734-757 | the logs of the group appended and its counters summed |
| Plugin.WorkloadCharacterisation.WorkGroupComplete | src/plugins/WorkloadCharacterisation.cpp:725-773 | every histogram is global + group per key, every counter summed, every log old ++ group, the group address log emptied, invariant kept |
| Plugin.WorkloadCharacterisation.ResetAfterKernel | src/plugins/WorkloadCharacterisation.cpp:673-682 | the partial reset, keeping the invariant |
| Plugin.WorkloadCharacterisation.KernelEnd | src/plugins/WorkloadCharacterisation.cpp:288-683 | the report summarises the counters as they were, then the partial reset; invariant kept |

## Left out

- Floating-point figures are not computed. These are:
  - the Shannon memory entropy and the local entropies (485-510);
  - the Yokota entropies (598-602);
  - the SIMD mean and standard deviation (422-426);
  - freedom to reorder, resource pressure, granularity, barriers per instruction and instructions per operand;
  - the memory-type percentages (525-527).

  For the ratios among them, the report keeps the integer numerators and denominators. The average linear entropy is an exact ratio rather than a float accumulation. The Shannon and Yokota entropies and the SIMD standard deviation have no counterpart in the report.
- Stats.Target: `ceil(count * 0.9)` is modelled as the exact integer ceiling `(9·t + 9) / 10`. Rounding of the `double` product is not modelled.
- Output is not modelled: console tables, `setw`/`setprecision`, locale handling, and the CSV files with their name-probing loops (51-58, 79-100, 289-299, 622-671).
- LLVM queries (`getOpcodeName`, `printAsOperand`, `dyn_cast`, `getPointerAddressSpace`, `getDebugLoc`) are not modelled. Their results are fields of the `Instruction` value.
- Worker.WorkerState.CountOpcode: lines 150-157 cast a load to `StoreInst` and a store to `LoadInst` before calling `getPointerAddressSpace`, so the call reads the wrong operand. For a load that operand is out of range. The source's global, local and constant counters are therefore very probably wrong. The model counts the pointer's real address space, which is what the code evidently intends. The wrong-operand reading cannot be stated without modelling LLVM's instruction layout, which is not part of this model.
- Concurrency is not modelled: the `THREAD_LOCAL` worker state (42-43) and the mutex (727). The worker state is an explicit object and the merge is a sequential call.
- Worker.WorkerState.constructor: the lazy allocation of the worker's containers on a thread's first work-group (687-698) is modelled as an object whose containers start empty.
- Worker.WorkerState.InstructionExecuted: at an unresolvable branch the source raises `SIGINT`. The model returns `false` with the opcode and load/store updates already made, and does not model what a signal handler would do next.
- Stats.SpreadOf: `std::min_element` on an empty log gives an iterator that must not be read. The model returns `None` for an empty log.
- Stats.SimdStats: on an empty width histogram, lines 413-414 dereference the end iterators of `min_element`/`max_element`, which is undefined behaviour. The model returns `None`.
- Plugin.Summarise: the report's median is the corrected `Stats.Median`, not the source's wrapping `unsigned` sum (379, 401). For a barrier log `[2^31, 2^31]` the source prints 0 and the model reports 2^31. The wrapping version is `Stats.MedianAsWritten`.
- Plugin.Summarise: the per-opcode and per-branch tables are printed but not modelled. The model keeps their counts, the coverage and the totals.
- Plugin.WorkloadCharacterisation.KernelEnd: the report is returned, not printed. Fixed-width integers (`size_t`, `unsigned`) are unbounded in the model. The median's wrap-around is modelled only by `Stats.MedianAsWritten`, which the report does not use.
- Plugin.WorkloadCharacterisation: the fourteen kernel-global counters are grouped in one `Kernel` record field of the class rather than fourteen fields.
- The destructor's console and file output is not modelled. What it prints per kernel is modelled by `Plugin.TransferCounts` and, as written, `Plugin.UniqueConsecutive`.

## Findings

| source | as written | input that shows it | evidently intended | confidence | as-written member | corrected member |
|---|---|---|---|---|---|---|
| src/plugins/WorkloadCharacterisation.cpp:379 | the two middle `unsigned int` values are added in 32-bit arithmetic before halving | a sorted log `[2^31, 2^31]` gives median 0, below its minimum | the average of the two middle values, between them | not executed | Stats.MedianAsWrittenWraps | Stats.Median |
| src/plugins/WorkloadCharacterisation.cpp:61-67 | `std::unique` only drops a name equal to the one before it | a transfer log `a, b, a` lists `a` twice and reports 5 transfers for 3 | each kernel listed once with its count, the counts adding up to the transfers | not executed | Plugin.UniqueConsecutiveRepeats | Plugin.DistinctCountsEveryTransfer |
