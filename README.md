# Contiguous memory allocator and page-replacement steps, in Dafny

This project models two C programs.

- **allocator.c** is a contiguous memory allocator. Memory `[0, total)` is a doubly linked list of regions: unowned holes and process regions. The list starts at the head `*mem`. Beside it is a process table from pid to region. The model covers the routines that change the list and the table:
  - `request_reg`, which grows an existing region in place, or places a new one by first, best or worst fit;
  - `release_reg`, which frees a region and merges it with neighbouring holes;
  - `compact_regs`, which slides every process region down and gathers all free space into one hole at the end;
  - the helpers they call: `allocate`, `combine`, the three fit finders, `lookup`, `install` and `undef`;
  - `mem_init`, the initialiser `main` calls once to set up the single hole `[0, total)`;
  - `stat`, reduced to the list of `(first, last, owner)` lines it prints.
- **pager/pager.c** contains one simulation step each for FIFO, LRU and OPT page replacement over a fixed array of frames, plus `init_frames` and `find_page`.

The model has two layers.

- **Ledger layer.** The ledger is the region list read from the head, as a `seq<Region>`. Pure functions over it state what each public routine computes, and the lemmas prove the promises. The modules are:
  - `Regions`: the data and the ledger invariant;
  - `Placement`: the fit strategies;
  - `SplitMerge`: `allocate`'s carving and `combine`'s merging;
  - `Engine`: request and release;
  - `Compaction`: compaction;
  - `Report`: `stat`.
- **Imperative layer.** The class `Allocator.Memory` mirrors the C state:
  - an arena of nodes by handle, standing in for region pointers;
  - the chain order, which stands in for `prev`/`next` and the head;
  - the process table, a map from pid to handle.

  Each routine is a method that updates these fields in place. Its contract ties the new state to the ledger functions. Module `Arena` holds the list surgery (splicing a node in, unlinking one, sliding one) as functions on `(nodes, order)`, each with a lemma giving the ledger it leaves.

  In `pager.dfy` each C state record is a class over `array<int>`. The step methods are proved against the sequence functions `Place`, `Slot`, `OldestIn` and `OptVictim`.

The ledger invariant `LedgerInv` says that:
- the regions tile `[0, total)` without gaps or empty regions;
- holes carry pid 0;
- a pid owns at most one region;
- no two holes are neighbours.

`Memory.Valid()` adds two conditions:
- the chain is a duplicate-free list of allocated nodes;
- the table is coherent: every entry points at a listed process region that carries its pid, and every listed process region has its entry.

## Model

| member | source | states |
|---|---|---|
| Regions.Code | allocator.c:10-21 | error kinds are returned as the codes 1..10 of the enum |
| Regions.CodeInjective | allocator.c:10-21 | different error kinds have different codes |
| Regions.Status | allocator.c:238-333 | a routine returns 0 exactly on success and the error's code 1..10 exactly on failure |
| Regions.StatusDecides | allocator.c:238-333 | two outcomes with the same returned int are both successes or the same error |
| Regions.TilesSum | allocator.c:23-32 | a list tiling `[lo, hi)` has sizes summing to `hi - lo`, so tiling preserves the total |
| Regions.FindPid | allocator.c:69-75 | the first region owned by the pid, or None exactly when no region carries that pid |
| Regions.FindPidUnique | allocator.c:69-75 | with unique pids, the region found is the only one the pid owns |
| Placement.FirstFit | allocator.c:119-130 | the lowest position of a hole of at least `size`; None exactly when no hole fits |
| Placement.BestFitIn | allocator.c:131-148 | a fitting hole no larger than any fitting hole scanned, and strictly smaller than every earlier fitting hole, so ties go to the earliest; None exactly when nothing fits |
| Placement.WorstFitIn | allocator.c:149-166 | a fitting hole no smaller than any fitting hole scanned, earliest on ties; None exactly when nothing fits |
| Placement.Select | allocator.c:276-290 | `'F'`, `'B'`, `'W'` pick a fitting hole or None (None exactly when no hole fits); any other flag is E_FLAG |
| Placement.StrategiesAgreeOnNone | allocator.c:119-166 | the three strategies agree on whether any hole fits |
| SplitMerge.CarveShape | allocator.c:193-236 | allocate puts the new process region at the hole's start, moves the hole up by `size`, drops the hole when it is used up, and leaves every other region where it was |
| SplitMerge.CarvedUnique | allocator.c:193-236 | any list of that shape is the carved ledger |
| SplitMerge.CarveTiles | allocator.c:205-215 | carving keeps the tiling of the space |
| SplitMerge.CarveHoles | allocator.c:205-215 | carving keeps holes unowned |
| SplitMerge.CarveProcs | allocator.c:205-215 | carving adds exactly the claim `(pid, size)` in the hole's place |
| SplitMerge.MergeShape | allocator.c:182-188 | combine keeps the earlier region's start, adds the later region's size to it, and unlinks the later one |
| SplitMerge.MergedUnique | allocator.c:182-188 | any list of that shape is the merged ledger |
| SplitMerge.MergeTiles | allocator.c:182-188 | merging keeps the tiling |
| SplitMerge.MergeHoles | allocator.c:182-188 | merging two holes keeps every claim and the unowned holes |
| SplitMerge.Combine | allocator.c:167-191 | succeeds exactly for neighbours of the same kind and pid, in either order; otherwise E_KIND, then E_PID, then E_ADJ |
| SplitMerge.CombineSymmetric | allocator.c:173-180 | the argument order does not matter |
| Engine.GrowShape | allocator.c:251-274 | growing in place: the region keeps its start and gains `size`, and the following hole moves up by `size` and shrinks, or disappears |
| Engine.GrowKeepsInv | allocator.c:251-274 | growing a region into the hole after it keeps the ledger invariant |
| Engine.CarveKeepsInv | allocator.c:292-306 | carving a new region for a pid that owns none keeps the ledger invariant |
| Engine.RequestKeepsInv | allocator.c:238-310 | a successful request keeps the ledger invariant, and afterwards the pid owns a region |
| Engine.RequestExisting | allocator.c:251-274 | for a pid that owns a region the flag is ignored; the region grows into a following hole that fits, else E_MEM |
| Engine.RequestFresh | allocator.c:276-309 | for a new pid: a bad flag gives E_FLAG; no fitting hole gives E_MEM; otherwise the chosen hole is carved |
| Engine.ReleaseShape | allocator.c:311-333 | release turns the run made of the freed region and its neighbouring holes into one unowned hole over the same addresses |
| Engine.ReleaseKeepsInv | allocator.c:311-333 | release keeps the ledger invariant; in particular it leaves no two neighbouring holes |
| Engine.ReleaseForgets | allocator.c:311-333 | after release the pid owns nothing |
| Engine.ReleaseKeepsOthers | allocator.c:311-333 | release keeps every other claim, in order |
| Compaction.UniqueClaims | allocator.c:334-378 | unique pids give claims with distinct pids |
| Compaction.ClaimSpaceBound | allocator.c:334-378 | the claims take no more room than the whole space |
| Compaction.PackedTiles | allocator.c:352-355 | claims packed from `at` tile `[at, at + their total size)` |
| Compaction.PackedProcs | allocator.c:352-355 | packing loses no claim and reorders none |
| Compaction.PackedUnique | allocator.c:334-378 | a run of process regions tiling from `at` is exactly its claims packed from `at` |
| Compaction.CompactedKeepsInv | allocator.c:334-378 | the compacted ledger keeps the invariant and the total size |
| Compaction.CompactedKeepsProcs | allocator.c:334-378 | compaction keeps every claim (pid and size) in the same relative order |
| Compaction.CompactedHoleLast | allocator.c:366-375 | after compaction only the last region can be a hole |
| Compaction.CompactIdempotent | allocator.c:334-378 | a second compaction changes nothing |
| Compaction.CompactedUnique | allocator.c:334-378 | any ledger over the same space, with the same claims in order and a hole at most at the end, is the compacted ledger; this is what the bubbling loop establishes |
| Compaction.BubbleTiles | allocator.c:348-364 | one bubbling step keeps the tiling |
| Compaction.BubbleProcs | allocator.c:348-364 | one bubbling step keeps the claims in order and the holes unowned |
| Compaction.BubbleRunShape | allocator.c:348-364 | after bubbling from k to m, the regions before k and after m are untouched, each overtaken region moves down one place starting at the hole's start plus the sizes moved before it, and the hole sits at m |
| Compaction.BubbleRunSlides | allocator.c:352-355 | on a tiled ledger each overtaken region starts exactly the hole's size lower than before, and the hole ends where the last overtaken region ended |
| Report.ReportCovers | allocator.c:379-389 | the reported ranges are non-empty and consecutive, and cover exactly addresses 0 .. total-1 |
| Report.ReportFaithful | allocator.c:379-389 | each line gives back its region's size, and names the owner exactly for process regions |
| Report.ReportOwners | allocator.c:379-389 | the process lines name the claims' pids in address order |
| Arena.IndexOfAt | allocator.c:25-32 | in a duplicate-free chain, a node's position is where it sits |
| Arena.TableFinds | allocator.c:69-75 | with a coherent table, a pid has an entry exactly when a region carries it, and the entry is that region |
| Arena.AbsorbedView | allocator.c:182-188 | unlinking `b` after `a` grows yields the merged ledger and a well-formed chain |
| Arena.AbsorbedOwners | allocator.c:182-188 | only the unlinked node leaves the owner map |
| Arena.CarvedView | allocator.c:205-233 | splicing the new node before the hole yields the carved ledger; the hole is dropped when it is used up |
| Arena.CarvedOwners | allocator.c:205-233 | the new node is the only owner added |
| Arena.FreedView | allocator.c:322-324 | turning a node into a hole changes only that position of the ledger |
| Arena.SlidView | allocator.c:348-364 | relinking the hole after the process region gives one bubbling step of the ledger |
| Arena.SlidOwners | allocator.c:348-364 | relinking keeps the owner map |
| Arena.CoherentInstall | allocator.c:76-100 | pointing the pid's entry at the new node keeps the table coherent |
| Arena.CoherentRemove | allocator.c:101-118 | dropping the pid's entry, together with its region, keeps the table coherent |
| Allocator.Memory.constructor | allocator.c:42 | no list (`*mem == NULL`) and an empty table |
| Allocator.Memory.MemInit | allocator.c:45-67 | the list becomes one unowned hole `[0, size)` |
| Allocator.Memory.Lookup | allocator.c:69-75 | an entry is returned only for a region carrying the pid, and exactly when one exists |
| Allocator.Memory.Install | allocator.c:76-100 | the pid's entry now points at the region, replacing any earlier entry instead of adding a second |
| Allocator.Memory.Undef | allocator.c:101-118 | E_NOTDEF exactly when the pid has no entry; otherwise the entry is gone |
| Allocator.Memory.FindFirstFitHole | allocator.c:119-130 | returns the node at position `FirstFit` of the ledger, or none |
| Allocator.Memory.FindBestFitHole | allocator.c:131-148 | returns the node at position `BestFit`, or none |
| Allocator.Memory.FindWorstFitHole | allocator.c:149-166 | returns the node at position `WorstFit`, or none |
| Allocator.Memory.Allocate | allocator.c:193-236 | E_NULLREG, E_EMPTY, E_NOTHOLE, E_HOLETOOSMALL in the source's order, leaving the state untouched; otherwise the ledger is carved and the list respliced |
| Allocator.Memory.Combine | allocator.c:167-191 | the result is `SplitMerge.Combine` of the two positions; on success the later node is unlinked |
| Allocator.Memory.RequestReg | allocator.c:238-310 | the result and the new ledger are `Engine.Request`'s; the state stays valid and on success the pid has a table entry |
| Allocator.Memory.RequestGrow | allocator.c:251-274 | for a pid that already owns a region: E_MEM unless the next region is a hole big enough, else the ledger grows in place as `Engine.Request` says |
| Allocator.Memory.RequestFresh | allocator.c:276-309 | for a pid without a region: the strategy's hole is carved and the pid installed, or E_FLAG / E_MEM as `Engine.Request` says |
| Allocator.Memory.SelectHole | allocator.c:276-290 | dispatches on the flag to the fit finder; E_FLAG otherwise |
| Allocator.Memory.GrowInPlace | allocator.c:262-274 | the ledger becomes `Engine.Grow`; the table is unchanged |
| Allocator.Memory.CarveFresh | allocator.c:292-306 | the ledger becomes the carved ledger and the pid's entry points at the new node |
| Allocator.Memory.ReleaseReg | allocator.c:311-333 | the result and the new ledger are `Engine.Release`'s; the pid's entry is gone and the state stays valid |
| Allocator.Memory.FreeRegion | allocator.c:322-330 | the region becomes a hole merged with the holes beside it; only it leaves the owner map |
| Allocator.Memory.MergeNeighbours | allocator.c:326-330 | the hole absorbs the hole after it, then is absorbed by the hole before it, exactly as `Engine.ReleaseAt` orders the two merges |
| Allocator.Memory.AbsorbNextHole | allocator.c:327-330 | combine on two unowned holes cannot fail and unlinks the later node |
| Allocator.Memory.CompactRegs | allocator.c:334-378 | returns 0 and leaves exactly `Compaction.Compacted` of the old ledger, with the state valid and the table unchanged |
| Allocator.Memory.BubbleUp | allocator.c:346-364 | the old regions after the hole up to the stopping point are all process regions and the one after it is a hole or the end; the ledger left is exactly `Compaction.BubbleRun` of the old one, keeping the claims, the tiling and the owners |
| Allocator.Memory.BubbleStep | allocator.c:348-364 | one step swaps the hole with the process region after it, which takes the hole's start |
| Allocator.Memory.Stat | allocator.c:379-389 | the lines are `ReportOf` the ledger, in list order |
| Allocator.ReleaseCoherent | allocator.c:311-333 | the state release leaves is valid: the ledger is the released one and only the pid's entry is gone |
| Pager.Position | pager/pager.c:36-42 | the smallest index holding the value, or -1 exactly when no slot holds it |
| Pager.Slot | pager/pager.c:59-82 | the slot a step writes: the page's own slot on a hit, the lowest free slot on a miss when there is one, else the victim |
| Pager.PlaceHolds | pager/pager.c:59-178 | after a step the page is present; a hit changes nothing; a miss changes exactly one slot |
| Pager.PlaceKeepsDistinct | pager/pager.c:59-178 | if the loaded pages are pairwise different before a step, they are after it |
| Pager.OldestIn | pager/pager.c:108-117 | the LRU victim holds the smallest last-use time, and is the lowest such index |
| Pager.NextUseFrom | pager/pager.c:155-162 | the first later position holding the page, or -1 exactly when it does not recur |
| Pager.FarthestSound | pager/pager.c:149-174 | the scan stops at the first page never used again; until then it holds the frame whose next use is latest, earliest on ties |
| Pager.FarthestStays | pager/pager.c:164-168 | once a never-used page is found the choice no longer changes |
| Pager.OptVictim | pager/pager.c:149-174 | the first frame never referenced again after `pos`; if all recur, the one referenced latest, first on ties |
| Pager.InitFrames | pager/pager.c:29-33 | the first n slots become -1 and the rest are unchanged |
| Pager.FindPage | pager/pager.c:36-42 | the smallest index among the first n slots holding the page, or -1 |
| Pager.OptScan | pager/pager.c:149-174 | the scanning loop returns `OptVictim` of the frames |
| Pager.NextUseScan | pager/pager.c:155-162 | the inner search returns `NextUse`: the first later reference to the page, or -1 |
| Pager.LruScan | pager/pager.c:108-117 | the scanning loop returns `OldestIn` of the last-use times |
| Pager.FifoState.constructor | pager/pager.c:234-236 | `nframes` empty slots, `next` 0, no faults |
| Pager.FifoState.Step | pager/pager.c:59-83 | on a hit returns 0 with nothing changed; on a miss returns 1 with one more fault and the page in the lowest free slot, else in slot `next`, which moves on modulo `nframes` and stays in range |
| Pager.LruState.constructor | pager/pager.c:238-241 | `nframes` empty slots with last use -1, no faults |
| Pager.LruState.Step | pager/pager.c:85-123 | a hit only sets the slot's last use to `time`; a miss counts a fault and puts the page and `time` in the lowest free slot, else in the least recently used slot |
| Pager.OptState.constructor | pager/pager.c:243-244 | `nframes` empty slots, no faults |
| Pager.OptState.Step | pager/pager.c:125-179 | on a hit returns 0; on a miss returns 1 with one more fault and the page in the lowest free slot, else in the `OptVictim` slot; only that slot changes |

## Left out

- `main` of allocator.c (command reading and printing) and of pager.c (argument parsing, random reference strings, the table output); `print_column` and the `printf` in `stat`, which are output only.
- `hash` and the bucket chains of `proc_table`: the table is a map from pid to node handle, and the bucket a pid hashes to does not affect any result.
- `malloc` failure and the `-1` it makes `install` and `request_reg` return: the arena always has a fresh handle.
- `region_init` is the `Region` constructor; `prev`/`next` pointers are the `order` sequence of handles, and the head `*mem` is its first element (an empty sequence is a NULL head).
- Fixed-width `unsigned long` and `int` arithmetic: addresses, sizes, pids and fault counters are unbounded, so wrap-around of `start + size` or of `faults++` is not modelled.
- Error branches that cannot be taken under the invariant are proved unreachable instead of being modelled as returns: `allocate` failing inside `request_reg`, `undef` failing inside `release_reg`, `combine` failing inside `request_reg`, `release_reg` and `compact_regs`. This includes the restore of `*mem` after a failed allocate (allocator.c:299-304).
- Allocator.Memory.MemInit: requires an empty list and `size > 0`; main calls it once, on startup, with a positive size.
- Pager.FifoState.Step, Pager.LruState.Step, Pager.OptState.Step: require `1 <= nframes <= MAX_FRAMES`, which main checks before any step. FIFO also requires `0 <= next < nframes`, which holds from initialisation on and which the step keeps. With `nframes == 0` the C code computes `% 0`.
- Pager.OptState.Step: the reference string is a sequence `refs` whose length is `ref_len`, instead of an array plus a length.
