# Memory placement in TS3VASManager: a verified model

The repository injects a memory manager into a 32-bit game. It reserves one large arena, serves the
game's large requests from it, keeps a record of every block, redirects reservations into it, and runs a
second, growing set of zones for the script heap. Around that sit a lock-free once-only set, a heartbeat
that recognises world loads and exits, counter ids, and type statistics of mapped packages. This project
models that code in Dafny and proves what it relies on but never checks at run time.

## How it is organised

**The arena allocator.**

- `Granules`, `Spans`: rounding to granules; byte intervals, the address-sorted list, its one-pass
  coalescing, and the two placement searches.
- `ArenaModel`: each critical section of the allocator as a function on values. `ArenaInvariant`,
  `ArenaSteps`, `ArenaTheorems`: the callers' contract, the invariant, its preservation over every run, and
  what it means. `LiveSlots` restates it for the layers above; `Statistics` says what the counters count.
- `NodeBudget`, `PoolExhaustion`: how large the pool of list nodes must be, and the legal run in which a
  smaller one loses memory.
- `NodeLists`, `NodeHeap`, `HeapOps`, `NodeConservation`, `ProxyAllocator`: the linked lists. The class
  `ProxyAllocator` has the original's fields, an array of nodes with `next` indices for pointers, and its
  loops. Its `Allocate` and `Free` are proved to compute `ArenaModel.Allocate` and `ArenaModel.Free` on
  every input, so the theorems of the `Arena*` modules hold for the linked structure.

**Ownership above the arena.**

- `SlotOwnership`: any number of threads inside the hooks, one critical section, commit or decommit a step.
- `RedirectTable`: the flat arrays of redirected reservations. `RedirectExhaustion`: how they run full.
  `ArenaRelease`: how the game can release the whole arena, and what prevents it.
- `ManagerModel`, `MemoryManager`: records, the bytes of the process, reallocation.
- `CorralModel`, `CorralTheorems`, `CorralLimits`, `ScriptArena`: the growing script arena, and what its
  bounds mean; the class owns one `ProxyAllocator` object for each zone. `SpanCount` bounds disjoint zones by
  the address space.

**Companions.** `MarkOnce` and, from its callers' side, `MarkOnceCalls`; `PhaseMachine`, `FreeHistory`, `CounterIds`, `DbpfIndex`, `TypeTable`.

Where the source changes state in place there is a class whose methods are proved equal to functions of the
old state; where threads interleave there is a state machine with one atomic access or critical section a
step. Main results quantify over all inputs, all runs or all interleavings.

## What the proofs found

- The default configuration can lose memory. A pool of n nodes is enough for an arena of G granules,
  at least 83, exactly when 2n > G + 49 (`PoolExhaustion.LosesExactlyWhenSmall`). The one-megabyte pool has 87381 nodes, and the
  one-gigabyte arena at the default 4 KB granularity has 262144 granules; a release then drops its block for
  good, because `Free` ignores the failure of the insertion. From 8 KB on it never loses anything
  (`PoolExhaustion.DefaultArenaCanLose`). A single release loses its block exactly when no node is spare, a
  request only when it must drain the caches and no node is spare.
- A redirected reservation can be freed exactly when the table had room for it
  (`RedirectTable.RedirectThenRelease`), and the table can run full (`RedirectExhaustion.TableFillsUp`).
- A release that finds no entry goes to the system. At the base of the arena's reservation it succeeds and
  takes the pages of every slot (`SlotOwnership.PagesKeptExactly`). Without a shard at the base an ordinary
  release of a slot that the game holds does it, when the full table forgot that slot
  (`ArenaRelease.OrdinaryReleaseTakesArena`). With the first shard there, as the default start leaves
  it, releases of redirected addresses never do it (`ArenaRelease.ShardGuardsBase`).
- Reallocating through a pointer into the middle of a block copies from the block's base and does not free
  the block (`ManagerModel.ReallocCorrect`). A failed reallocation frees the old block. Reallocating a pointer
  to no block can free the block just made for it (`ManagerModel.StalePointerLosesNewBlock`).
- Growth of the script arena is enough for the request unless doubling the size overflows a word and the
  growth floor does not cover the request (`CorralTheorems.GrowthEnough`). Under its default cap no zone ever
  loses memory (`CorralLimits.ZonesLoseNothing`, `CorralLimits.DefaultCapSuffices`).
- The comment at ScriptScanDedup.cpp:10-13 expects a rare double count under table pressure. What the code
  does is sharper: a key counts once for ever, or, once its window is full, on every call
  (`MarkOnce.OnceOnly`); 64 other keys are enough for that and fewer are not (`MarkOnce.WindowFillsUp`,
  `MarkOnce.FewKeysNeverCrowd`).

## Model

| member | source | states |
|---|---|---|
| `Granules.AlignUp` | ProxyAllocator.cpp:80 | Rounding gives a multiple of the granularity in [v, v + a). |
| `Granules.AlignUpLeast` | ProxyAllocator.cpp:80 | It is the least multiple not below v. |
| `Granules.MaskIsAlignUp` | ProxyAllocator.cpp:80 | The mask formula on 32-bit words, written out on numbers digit by binary digit, is AlignUp for every power of two and every word, and zero exactly when the sum leaves the word. |
| `Spans.InsertAndCoalesceCorrect` | ProxyAllocator.cpp:127-140 | Inserting a disjoint block into a sorted list without touching blocks covers each byte as before plus the block's, adds its bytes, and gives such a list again: one pass of merging suffices. |
| `Spans.CoalesceCover` | ProxyAllocator.cpp:133-138 | Merging neither adds nor loses a byte. |
| `Spans.CoalesceGapped` | ProxyAllocator.cpp:133-138 | After one pass over a sorted disjoint list no two blocks touch. |
| `Spans.CoalesceFixpoint` | ProxyAllocator.cpp:133-138 | A list without touching blocks is left alone. |
| `Spans.InsertAtSorted` | ProxyAllocator.cpp:131-132 | The insertion point keeps the list sorted. |
| `Spans.GappedUnique` | ProxyAllocator.cpp:127-140 | The coalesced list is determined by the set of free bytes alone, whatever the order of releases. |
| `Spans.RunInOneSpan` | ProxyAllocator.cpp:147-156 | A run of free bytes never straddles two blocks of a coalesced list. |
| `Spans.TakeFitExact` | ProxyAllocator.cpp:149-154 | Carving takes exactly the rounded size: a block is taken whole only when nothing remains. |
| `Spans.TakeFitConserves` | ProxyAllocator.cpp:142-170 | Taken bytes and remaining bytes are the bytes there were, each in one place. |
| `Spans.TakeFitGapped` | ProxyAllocator.cpp:142-170 | The list stays sorted without touching blocks, from either end. |
| `Spans.TakeFitComplete` | ProxyAllocator.cpp:142-170 | The search fails exactly when no run of free bytes is long enough. |
| `Spans.TakeFitOptimal` | ProxyAllocator.cpp:145-167 | First fit finds the lowest run of free bytes, last fit the highest. |
| `Spans.GappedCount` | ProxyAllocator.cpp:127-140 | A list of granular blocks that do not touch has at most half the granules, rounded up. |
| `ArenaModel.PopIndex` | ProxyAllocator.cpp:173-184 | The class popped is the first of exactly this size that holds a block. |
| `ArenaModel.ClassIndex` | ProxyAllocator.cpp:206-216 | The class pushed to is the first of exactly this size, or a new one. |
| `ArenaSteps.InsertKeeps` | ProxyAllocator.cpp:127-140 | Insertion keeps list and node count; without a spare node it changes nothing. |
| `ArenaSteps.DrainLosesAtMostFirst` | ProxyAllocator.cpp:190-204 | With a spare node a drain of any number of cached blocks loses none; with an empty pool it loses exactly the first. |
| `ArenaSteps.DrainKeeps` | ProxyAllocator.cpp:190-204 | What a drain does not lose is free afterwards, byte for byte, and the list is coalesced. |
| `ArenaSteps.ReclaimKeeps` | ProxyAllocator.cpp:190-204 | Reclaiming keeps the tiling and leaves the caches empty. |
| `ArenaSteps.FitKeeps` | ProxyAllocator.cpp:142-170 | A fit moves its slot from the free list to the holder and keeps the tiling and the node count. |
| `ArenaSteps.ReuseKeeps` | ProxyAllocator.cpp:339-345 | Reusing a cached block moves it to the holder and keeps the tiling and the node count. |
| `ArenaSteps.GrantKeeps` | ProxyAllocator.cpp:336-356 | Cache hit, fit, or drain and retry: the grant is aligned, exact, disjoint from everything held, and nothing is lost beyond what the drain drops. |
| `ArenaSteps.RecycleKeeps` | ProxyAllocator.cpp:386-393 | A released block goes to its cache or the free list, or is lost when no node is spare; the rest stays tiled. |
| `ArenaTheorems.FreshInvariant` | ProxyAllocator.cpp:259-293 | A newly attached arena satisfies the invariant. |
| `ArenaTheorems.AllocStepKeeps` | ProxyAllocator.cpp:324-374 | Every request keeps the invariant: tiling, coalescing, class sizes and caps, counters, nodes. |
| `ArenaTheorems.ReleaseStepKeeps` | ProxyAllocator.cpp:380-400 | Every release of a held slot keeps it. |
| `ArenaTheorems.StepKeepsInvariant` | ProxyAllocator.cpp:324-400 | Every legal operation keeps it. |
| `ArenaTheorems.RunKeepsInvariant` | ProxyAllocator.cpp:324-400 | In every state of every legal run free list, caches, callers and losses tile the arena, and used + free + cached + lost bytes are its size, granted - freed is used, reused at most granted, band slots sum to granted with requested at most slot in each. |
| `ArenaTheorems.ReleaseNeverSaturates` | ProxyAllocator.cpp:394-397 | None of the guarded subtractions of a release ever saturates. |
| `ArenaTheorems.LiveSlotsDisjoint` | ProxyAllocator.cpp:324-400 | Slots in callers' hands lie in the arena and never overlap. |
| `ArenaTheorems.AllocateComplete` | ProxyAllocator.cpp:336-356 | A request fails exactly when no run of bytes that nobody holds is as long as the rounded size, cached blocks counted as free; with a spare node nothing is lost on the way. |
| `ArenaTheorems.ExactGrant` | ProxyAllocator.cpp:336-356 | Every grant has exactly the rounded size, so the size that Free recomputes at line 385 is the size granted. |
| `ArenaTheorems.PlacementOptimal` | ProxyAllocator.cpp:145-168 | On a cache miss that the free list can serve, a request gets the lowest run of free-list bytes that fits, a top-down request the highest. |
| `ArenaTheorems.PlacementAfterDrain` | ProxyAllocator.cpp:348-353 | When the caches are drained for a request, it gets the lowest run of bytes that nobody has and that fits, or the highest. |
| `ArenaTheorems.CachedExactly` | ProxyAllocator.cpp:206-223 | A release leaves the free list alone and adds the rounded size to the cached bytes if and only if a node is spare, fewer than 16 blocks of that size are cached, and the size has a class or fewer than 256 sizes have. |
| `ArenaTheorems.ChurnRoundTrip` | ProxyAllocator.cpp:339-345 | A slot released when its size can be cached is what the next request of that rounded size receives, with free list, nodes and used bytes as before. |
| `ArenaTheorems.HitExactly` | ProxyAllocator.cpp:173-184 | The caches serve a request exactly when a block of its rounded size is cached. |
| `Statistics.CountersExact` | ProxyAllocator.cpp:334-366 | Over every run the counters are what happened: the requests, those that got nothing, the bytes given back, the bytes served from the caches, and for each of the eight bands the bytes asked for and given. |
| `NodeBudget.FreeBlocksByGranules` | ProxyAllocator.cpp:127-140 | In every state the free list has at most (G + 1) / 2 blocks. |
| `NodeBudget.NodesInUse` | ProxyAllocator.cpp:99-123 | In every state free and cached blocks together are at most half the granules, rounded up, and 24: sixteen cached blocks of one granule and sixteen of two cost more nodes than the gaps between them save, all others do not. |
| `NodeBudget.SufficientMeansSpare` | ProxyAllocator.cpp:99-123 | With more nodes than that the pool is never empty. |
| `NodeBudget.LostStaysWhole` | ProxyAllocator.cpp:324-400 | Whatever a legal operation drops is a whole block, which the two rows above need to know of earlier losses. |
| `NodeBudget.SufficientRunLosesNothing` | ProxyAllocator.cpp:99-140 | With such a pool no legal run loses a byte. |
| `NodeBudget.ReleaseLosesExactly` | ProxyAllocator.cpp:386-393 | A release loses its block if and only if no node is spare. |
| `NodeBudget.AllocLosesExactly` | ProxyAllocator.cpp:348-353 | A request loses a block, the first cached one, if and only if it drains the caches and no node is spare. |
| `NodeBudget.GigabyteArena` | ProxyAllocator.cpp:7 | The one-megabyte pool has more nodes than that for the one-gigabyte arena exactly from 8 KB granularity. |
| `NodeBudget.FreeBlocksByOccupancy` | ProxyAllocator.cpp:127-140 | At any granularity free blocks are at most live, cached and lost ones plus one. |
| `NodeBudget.FewSlotsMeanSpare` | ProxyAllocator.cpp:99-123 | So the pool is not empty while the live slots leave room for full caches twice over. |
| `PoolExhaustion.IsolatedRelease` | ProxyAllocator.cpp:386-393 | Releasing a slot with no free byte beside it takes one node out of circulation. |
| `PoolExhaustion.SmallPoolLoses` | ProxyAllocator.cpp:118-129 | With no more nodes than that, a legal run from a fresh arena loses a block. |
| `PoolExhaustion.LosesExactlyWhenSmall` | ProxyAllocator.cpp:99-140 | For every arena of at least 83 granules: some legal run loses memory if and only if twice the nodes are at most the granules and 49. |
| `PoolExhaustion.DefaultArenaCanLose` | ProxyAllocator.cpp:386-393 | With the default pool the one-gigabyte arena can lose memory at 4 KB granularity and at no other the constructor accepts. |
| `NodeHeap.PoppedGood` | ProxyAllocator.cpp:118-123 | Taking a spare node leaves every other list as it was and the node in no list. |
| `NodeHeap.PushedGood` | ProxyAllocator.cpp:125 | Giving a node back makes it the head of the spare list and leaves the others. |
| `NodeHeap.LinkedSortedGood` | ProxyAllocator.cpp:131-132 | Relinking puts the node's block at its sorted position of the free list. |
| `NodeHeap.BypassedGood` | ProxyAllocator.cpp:153 | Unlinking a taken block removes it and nothing else. |
| `HeapOps.InsertedModel` | ProxyAllocator.cpp:127-140 | Insertion on linked nodes is the insertion of the model, node count included. |
| `HeapOps.FittedModel` | ProxyAllocator.cpp:142-170 | The fit on linked nodes is the fit of the model. |
| `HeapOps.ReusedModel` | ProxyAllocator.cpp:173-184 | Popping a cached node is reuse in the model. |
| `HeapOps.ReclaimedModel` | ProxyAllocator.cpp:190-204 | Flushing the caches node by node is the reclaim of the model. |
| `HeapOps.PushedBlockModel` | ProxyAllocator.cpp:206-224 | Caching a node, or refusing to, is the push of the model. |
| `NodeConservation.NodesConserved` | ProxyAllocator.cpp:99-125 | Spare nodes, free blocks and cached blocks add up to the whole pool. |
| `NodeConservation.NodesSeparate` | ProxyAllocator.cpp:99-125 | A node stands in one list at one position: spare, free, or one of the caches. |
| `ProxyAllocator.ProxyAllocator.constructor` | ProxyAllocator.cpp:22-33 | A new allocator is empty, without pool or arena, all counters zero. |
| `ProxyAllocator.ProxyAllocator.InitNodePool` | ProxyAllocator.cpp:99-110 | Builds a pool of 87381 nodes, all spare, once. |
| `ProxyAllocator.ProxyAllocator.AllocNode` | ProxyAllocator.cpp:118-123 | Takes the head of the spare list, null when it is empty. |
| `ProxyAllocator.ProxyAllocator.FreeNode` | ProxyAllocator.cpp:125 | Gives a node in hand back. |
| `ProxyAllocator.ProxyAllocator.FindInsertPoint` | ProxyAllocator.cpp:131-132 | Finds the node before the sorted position. |
| `ProxyAllocator.ProxyAllocator.LinkSorted` | ProxyAllocator.cpp:131-132 | Links the node there. |
| `ProxyAllocator.ProxyAllocator.CoalesceFreeList` | ProxyAllocator.cpp:133-138 | Merges every touching pair in one pass that ends at the list's end. |
| `ProxyAllocator.ProxyAllocator.InsertFreeSortedAndCoalesce` | ProxyAllocator.cpp:127-140 | Inserts and merges; fails, changing nothing, exactly when no node is spare. |
| `ProxyAllocator.ProxyAllocator.FindFirstFit` | ProxyAllocator.cpp:147-156 | Finds the first block that fits and the node before it. |
| `ProxyAllocator.ProxyAllocator.FindLastFit` | ProxyAllocator.cpp:160-162 | Finds the last block that fits and the node before it. |
| `ProxyAllocator.ProxyAllocator.TakeFreeFit` | ProxyAllocator.cpp:142-170 | Carves or takes the block the model's search chooses, and returns its node if taken whole. |
| `ProxyAllocator.ProxyAllocator.PopSizeClass` | ProxyAllocator.cpp:173-184 | Pops the first cached node of exactly this size. |
| `ProxyAllocator.ProxyAllocator.PushSizeClass` | ProxyAllocator.cpp:206-224 | Caches the block, opening a class if need be, unless a cap or the pool forbids. |
| `ProxyAllocator.ProxyAllocator.DrainClass` | ProxyAllocator.cpp:192-202 | Moves one class to the free list, each block inserted before its own node is freed. |
| `ProxyAllocator.ProxyAllocator.ReclaimCache` | ProxyAllocator.cpp:190-204 | Computes the model's reclaim. |
| `ProxyAllocator.ProxyAllocator.Initialize` | ProxyAllocator.cpp:259-275 | On success one free block over the rounded range; unchanged if already attached; nothing attached on failure. |
| `ProxyAllocator.ProxyAllocator.InitFromShared` | ProxyAllocator.cpp:277-293 | The same over a range the caller owns. |
| `ProxyAllocator.ProxyAllocator.Allocate` | ProxyAllocator.cpp:324-374 | Computes the model's Allocate on every input, null exactly when it grants nothing. |
| `ProxyAllocator.ProxyAllocator.Free` | ProxyAllocator.cpp:380-400 | Computes the model's Free on every input. |
| `ProxyAllocator.ProxyAllocator.RecycleBlock` | ProxyAllocator.cpp:386-393 | Caches the block or else coalesces it, ignoring a failure. |
| `ProxyAllocator.ProxyAllocator.IsProxyAddress` | ProxyAllocator.cpp:402-406 | True exactly for addresses in an attached arena. |
| `ProxyAllocator.ProxyAllocator.GetFreeStats` | ProxyAllocator.cpp:427-431 | The free bytes are the sum and the largest span the maximum over the free list. |
| `LiveSlots.AllocFacts` | ProxyAllocator.cpp:324-374 | A request adds its slot to what callers hold, or changes nothing they see. |
| `LiveSlots.ReleaseFacts` | ProxyAllocator.cpp:380-400 | A release removes the slot and returns its rounded bytes. |
| `LiveSlots.GrantIsNew` | ProxyAllocator.cpp:324-374 | A new slot shares no byte with a held one. |
| `LiveSlots.WithoutLive` | ProxyAllocator.cpp:380-400 | A slot is held once, so one release removes it. |
| `SlotOwnership.OwnershipKept` | MemoryManager.cpp:575-721 | Every step of every thread keeps each granted slot with exactly one of a record, a redirect entry, a shard, the forgotten ones, or a thread; and unless it releases the arena, the pages of the slot's requested bytes committed whenever its owner relies on them. |
| `SlotOwnership.InterleavingOwned` | MemoryManager.cpp:575-721 | Every interleaving of any number of threads keeps each granted slot with exactly one owner, whatever pointers are freed or released. |
| `SlotOwnership.PagesKeptExactly` | WorkingHooks.cpp:2653-2669 | From a state in which everybody has the pages they rely on, a step leads to another exactly if it is not an untracked release of the reserved arena's base while somebody relies on pages. |
| `SlotOwnership.PagesThroughout` | WorkingHooks.cpp:2378-2398 | So in every state of a run everybody has their pages if and only if the run makes no such release. |
| `SlotOwnership.StartedOwned` | MemoryManager.cpp:259-288 | The state after initialisation satisfies both. |
| `SlotOwnership.HandsBackLive` | MemoryManager.cpp:706-711 | A thread only frees slots the arena has granted. |
| `SlotOwnership.ThreadsApart` | MemoryManager.cpp:691-721 | Two threads never carry slots with a common byte. |
| `SlotOwnership.OneFreeTakes` | MemoryManager.cpp:691-721 | Of racing frees of one pointer, records and redirects mixed, exactly one takes an entry: under any interleaving, before a second free takes one the first thread has given the slot back and a slot there has been granted and published anew. |
| `SlotOwnership.DecommitSparesOthers` | MemoryManager.cpp:706-711 | A decommit leaves the pages of every slot with another owner alone. |
| `SlotOwnership.GivesBackClean` | MemoryManager.cpp:706-712 | Under every interleaving, when a published slot is handed back to the arena none of its pages is committed. |
| `SlotOwnership.GrantAvoidsHands` | MemoryManager.cpp:706-712 | No request is granted bytes that a thread is still decommitting, because the slot goes back last. |
| `SlotOwnership.QuiescentTables` | WorkingHooks.cpp:2481-2484 | With all threads idle each slot is in exactly one table. |
| `SlotOwnership.ForgottenForEver` | WorkingHooks.cpp:447-456 | Under any interleaving the forgotten slots are exactly those published to a full table; each stays granted for ever and no free takes it; its release does nothing, or at the arena's base, while the range is reserved, releases the arena. |
| `RedirectExhaustion.TableFillsUp` | WorkingHooks.cpp:447-456 | An interleaving from the start does fill the table, and the next redirected slot is forgotten. |
| `ArenaRelease.ShardGuardsBase` | WorkingHooks.cpp:1679-1692 | With a shard at the base, and releases of addresses that were handed out only, however often, no move of any run releases the arena, and everybody always has their pages. |
| `ArenaRelease.ShardedStart` | WorkingHooks.cpp:1679-1692 | The first carve of a fresh arena puts a shard there. |
| `ArenaRelease.OrdinaryReleaseTakesArena` | WorkingHooks.cpp:2653-2669 | Without a shard, in an arena of 8197 granules, a run from the start leads to a state in which the release of a slot that the game still holds, one the full table forgot, releases the arena and with it pages that others rely on. |
| `RedirectTable.TrackRefines` | WorkingHooks.cpp:447-456 | Tracking a new address is insertion into a finite map, until 8192 entries; then it is nothing. |
| `RedirectTable.UntrackRefines` | WorkingHooks.cpp:459-475 | Swap-with-last removal removes that one address, keeps every other entry, and returns the tracked size. |
| `RedirectTable.UntrackDropsOne` | WorkingHooks.cpp:459-475 | With any entries, even doubled ones, exactly one is removed and it is for that address. |
| `RedirectTable.RedirectThenRelease` | WorkingHooks.cpp:2653-2657 | Release after redirect restores table and arena if and only if fewer than 8192 entries were outstanding. |
| `RedirectTable.RedirectTable.Track` | WorkingHooks.cpp:447-456 | The arrays after the call are the function of the arrays before. |
| `RedirectTable.RedirectTable.Untrack` | WorkingHooks.cpp:459-475 | Likewise, with the entry's size, and found exactly when there is one. |
| `ManagerModel.CreateKeeps` | MemoryManager.cpp:575-657 | A creation records a new block apart from every held slot, its bytes there and zero unless they were there before and all others untouched; or it gives its slot back and leaves records, bytes and held slots as they were. |
| `ManagerModel.LargeAtTop` | MemoryManager.cpp:575 | With no block of its rounded size cached, a block from the size limit on is created beyond every free run of bytes that fits it, a smaller one before. |
| `ManagerModel.GuardsNeverFire` | MemoryManager.cpp:592-621 | The checks for foreign and misaligned slots never fail when granules are whole pages. |
| `ManagerModel.FreeKeeps` | MemoryManager.cpp:691-721 | A free by base removes record and slot, once, leaves no byte of the block committed and every other byte as it was; any other pointer changes nothing. |
| `ManagerModel.FreedReadsZero` | MemoryManager.cpp:706-709 | Whatever was in a block when it was freed, a block created over it next reads zero there. |
| `ManagerModel.BlocksApart` | MemoryManager.cpp:725-740 | Recorded blocks share no byte. |
| `ManagerModel.LookupUnambiguous` | MemoryManager.cpp:725-740 | A lookup by address has one answer at most, whatever the order of search. |
| `ManagerModel.ReallocCorrect` | WorkingHooks.cpp:2151-2175 | For every pointer, and every block of the system heap that is apart from the recorded ones. Into a recorded block: a new block preserves the first min(old, new) bytes, does not overlap the old one, and after them holds what was there or zeros; the old slot is released, once, and none of its bytes is left, exactly when the pointer is the block's base; no other byte or slot comes, goes or changes. Into none: nothing is copied or released, unless the pointer is where the arena puts the new block, which is then freed at once. |
| `ManagerModel.StalePointerLosesNewBlock` | WorkingHooks.cpp:2168 | That last case occurs: for a pointer just freed into its cache, which had room, and a size of the same rounding. |
| `MemoryManager.MemoryManager.CreateProxyAllocation` | MemoryManager.cpp:575-657 | Computes the model's creation on the real allocator object. |
| `MemoryManager.MemoryManager.FreeProxyAllocation` | MemoryManager.cpp:691-721 | Computes the model's free. |
| `MemoryManager.MemoryManager.FindRecordByAddress` | MemoryManager.cpp:725-740 | Finds the block that contains the address, or says there is none. |
| `MemoryManager.MemoryManager.CopyMemory` | WorkingHooks.cpp:2166 | Copies committed bytes between ranges that are apart or the same. |
| `MemoryManager.MemoryManager.ReallocateProxy` | WorkingHooks.cpp:2151-2175 | Computes the model's reallocation of any pointer, with the contents and slots ReallocCorrect gives. |
| `SpanCount.DisjointBytes` | MemoryManager.cpp:314 | Disjoint spans in a range have no more bytes than the range. |
| `CorralModel.TryGrants` | MemoryManager.cpp:363-366 | The segment search asks segments in order and stops at the first grant. |
| `CorralTheorems.SumFits` | MemoryManager.cpp:314-316 | When a zone was found, the word sum of the cap check is the true sum. |
| `CorralTheorems.GrowKeeps` | MemoryManager.cpp:311-338 | A segment is appended exactly if count, cap, system and pool allow; segments stay disjoint and the total is their sum, within the cap. |
| `CorralTheorems.GrowthEnough` | MemoryManager.cpp:367-375 | A zone grown for a request grants it if and only if doubling did not overflow or the floor covers it. |
| `CorralTheorems.TryKeeps` | MemoryManager.cpp:363-366 | The search keeps zones and sum, and either adds one new slot or none. |
| `CorralTheorems.ReserveKeeps` | MemoryManager.cpp:355-403 | A reserve keeps the invariant: on success a slot nobody had is listed and the peak is updated; otherwise map, peak and use are as before. |
| `CorralTheorems.TakeKeeps` | MemoryManager.cpp:409-422 | Erasing an entry moves its slot from the map to one thread, and succeeds exactly for listed addresses. |
| `CorralTheorems.GiveBackKeeps` | MemoryManager.cpp:423-426 | A taken slot is handed back to the segment that granted it. |
| `CorralTheorems.OwnerIsGranter` | MemoryManager.cpp:414-420 | The range search finds exactly the granting segment. |
| `CorralTheorems.OutApart` | MemoryManager.cpp:355-427 | Outstanding slots of any segments share no byte. |
| `CorralTheorems.StepKeeps` | MemoryManager.cpp:311-427 | Every critical section keeps the invariant, only appends segments, never closes the corral and never lowers the peak. |
| `CorralTheorems.RunKeeps` | MemoryManager.cpp:311-427 | So does every interleaving of them. |
| `CorralTheorems.EveryRun` | MemoryManager.cpp:311-427 | In every run of a corral from its start the reservation is the sum of disjoint segments within the cap, and every slot in the map or in a thread's hands is recognised and can go back to the segment that its address leads to. |
| `CorralTheorems.RecognisedForEver` | MemoryManager.cpp:429-440 | Once out, a slot is recognised by every later lock-free reader, whatever segment count it sees, the ready flag included, and as its own segment's. |
| `CorralTheorems.RecognisedExactly` | MemoryManager.cpp:429-440 | A reader takes an address for the script heap's exactly when the corral is open, the address is not null, and it lies in a zone the reader sees. |
| `CorralTheorems.PeakIsMaximum` | MemoryManager.cpp:391-401 | With reserves one after another, the recorded peak is the largest number of bytes in use at any moment of the run. |
| `CorralTheorems.SumWhileFreeing` | MemoryManager.cpp:391-394 | While other threads hand slots back during the sum, it lies between what is in use when it ends and what was in use when it began. |
| `CorralTheorems.SecondFreeFindsNothing` | MemoryManager.cpp:409-424 | While a thread holds a slot it took, no free finds it and no reserve returns it. |
| `CorralLimits.ReserveFailsExactly` | MemoryManager.cpp:355-389 | A reserve fails if and only if the corral is closed, nothing is asked for, the commit fails, or no zone has a run of bytes that nobody has and that is long enough, and none that is large enough can be added. |
| `CorralLimits.ReserveAddsRightZone` | MemoryManager.cpp:367-375 | A reserve adds a zone only if none has room, and then one of the larger of the growth floor and twice the size in 32-bit words; the total grows by exactly that. |
| `CorralLimits.SecondNeedsNoZone` | MemoryManager.cpp:367-375 | After a reserve that added a zone, a second one of the same size, in whole granules, is served without a new zone. |
| `CorralLimits.ZonesLoseNothing` | MemoryManager.cpp:311-335 | In every run, under a cap that the node pool suffices for, no zone ever loses a byte; without a cap the pool must suffice for the address space. |
| `CorralLimits.DefaultCapSuffices` | MemoryManager.cpp:343 | The default cap of 512 megabytes is within that bound at every granularity; no cap at all is exactly from 32 KB on. |
| `ScriptArena.ScriptArena.AddCorralSegment` | MemoryManager.cpp:311-338 | Computes the model's growth with a new allocator object. |
| `ScriptArena.ScriptArena.TrySegments` | MemoryManager.cpp:363-366 | Computes the model's search over the allocator objects. |
| `ScriptArena.ScriptArena.SecureSlot` | MemoryManager.cpp:362-376 | Computes search and growth. |
| `ScriptArena.ScriptArena.UsedBytes` | MemoryManager.cpp:466-475 | Adds up the bytes in use over all segments. |
| `ScriptArena.ScriptArena.CorralReserve` | MemoryManager.cpp:355-403 | Computes the model's reserve on every input. |
| `ScriptArena.ScriptArena.TakeEntry` | MemoryManager.cpp:409-422 | Computes the critical section of a free. |
| `ScriptArena.ScriptArena.GiveBackTo` | MemoryManager.cpp:425 | Computes the hand-back and keeps the invariant. |
| `ScriptArena.ScriptArena.CorralFree` | MemoryManager.cpp:405-427 | Alone, a free succeeds exactly for listed addresses, removes that entry, and keeps the invariant. |
| `ScriptArena.ScriptArena.FindOwner` | MemoryManager.cpp:414-420 | Finds the first segment that spans the address. |
| `ScriptArena.ScriptArena.IsCorralAddress` | MemoryManager.cpp:429-440 | True exactly when some segment spans the address. |
| `ScriptArena.ScriptArena.InitScriptArena` | MemoryManager.cpp:340-353 | Sets the limits and opens the first segment, or leaves the corral closed. |
| `MarkOnce.KeyOnce` | ScriptScanDedup.cpp:43-58 | A key is in the table at most once. |
| `MarkOnce.ClaimKeeps` | ScriptScanDedup.cpp:50-52 | A claim keeps every key where its search ends and overwrites nothing. |
| `MarkOnce.StepKeeps` | ScriptScanDedup.cpp:43-58 | Every atomic access of every thread keeps the invariant and writes a word once at most. |
| `MarkOnce.RunKeeps` | ScriptScanDedup.cpp:43-58 | So does every interleaving; answers are never revised. |
| `MarkOnce.OnceOnly` | ScriptScanDedup.cpp:43-58 | For every key under every interleaving: one answer is new and all later ones seen, for ever; or its window is full of other keys for ever and every answer is new. |
| `MarkOnce.FewKeysNeverCrowd` | ScriptScanDedup.cpp:10-13 | With fewer than 64 other keys whose homes are less than 64 places away, however many elsewhere, a key is never crowded out, so it is new once. |
| `MarkOnce.WindowFillsUp` | ScriptScanDedup.cpp:57 | The other case does occur, for every key, and 64 is exact: calls about 64 other keys crowd it out, and two calls about it are then both answered as new. |
| `MarkOnce.LoneCallClaims` | ScriptScanDedup.cpp:50-52 | Step by step, an undisturbed call claims the first place that other keys left free. |
| `MarkOnce.LoneCallFinds` | ScriptScanDedup.cpp:49 | One about a recorded key finds it. |
| `MarkOnce.LoneCallFails` | ScriptScanDedup.cpp:57 | One about a crowded key runs out of probes. |
| `MarkOnce.LoneCallAnswers` | ScriptScanDedup.cpp:43-58 | From every state that threads can reach, an undisturbed call comes to its end and does to the table what the method does alone; it answers seen exactly when an earlier answer was about the key and the key is not crowded out. |
| `MarkOnce.WaitFree` | ScriptScanDedup.cpp:46-57 | A call ends within 128 accesses of its own, whatever other threads do. |
| `MarkOnceCalls.AnswersOwnCall` | ScriptScanDedup.cpp:43-58 | Under every interleaving each answer is to the latest call of its thread and about the key of that call, or about one if that was zero. |
| `MarkOnceCalls.SeenExactly` | ScriptScanDedup.cpp:43-58 | A call is answered seen exactly when a call about the same key was answered before it and the key's 64 places are not all taken by others. |
| `MarkOnceCalls.CallsOnceOrAlways` | ScriptScanDedup.cpp:43-58 | So for every key of every run: the first call answered is told new and all later ones seen; or every call is told new. |
| `MarkOnce.DedupTable.MarkOnce` | ScriptScanDedup.cpp:43-58 | Alone, a call answers whether its key was recorded, records it in its first free place unless crowded out, and neither adds nor removes any other key. |
| `PhaseMachine.QuietStreak` | HeartbeatMonitor.cpp:1028-1035 | The quiet counter counts beats just past that mapped no package. |
| `PhaseMachine.StableStreak` | HeartbeatMonitor.cpp:1040-1042 | The stable counter counts beats just past that were stable and in this phase. |
| `PhaseMachine.StableTransition` | HeartbeatMonitor.cpp:1054-1079 | A stable phase is entered only after three stable beats since the last change of phase. |
| `PhaseMachine.LoadExactly` | HeartbeatMonitor.cpp:1063-1070 | From the menu a load is seen if and only if free memory is 200 MB or more below the last reading, the one before or the snapshot of a phase change. |
| `PhaseMachine.StableExactly` | HeartbeatMonitor.cpp:1041-1079 | A phase of waiting ends, in the stable phase that belongs to it, if and only if three beats in a row since it began each moved free memory by less than 50 MB. |
| `PhaseMachine.MenuBeat` | HeartbeatMonitor.cpp:1054-1062 | The menu is entered on three such beats, so a session sees no load before. |
| `PhaseMachine.ExitExactly` | HeartbeatMonitor.cpp:1084-1128 | In the stable world an exit is seen if and only if 45000 ms have passed since its first beat and the last three beats mapped no package. |
| `PhaseMachine.BaselineFollows` | HeartbeatMonitor.cpp:1130-1146 | The baseline for drift is the snapshot of the latest phase change; in the stable world it rises to every reading 150 MB or more above it. |
| `PhaseMachine.SnapInWorld` | HeartbeatMonitor.cpp:1080-1093 | The entry snapshot is held only in the stable world. |
| `PhaseMachine.ExitJustified` | HeartbeatMonitor.cpp:1084-1128 | Every exit follows a load, an entry snapshot after it at least 45000 ms before, and three quiet beats, with no other load or exit between. |
| `PhaseMachine.Alternate` | HeartbeatMonitor.cpp:1063-1128 | Loads and exits strictly alternate over all beat sequences. |
| `PhaseMachine.ExitsFarApart` | HeartbeatMonitor.cpp:1100-1128 | Two exits are at least 45000 ms apart. |
| `PhaseMachine.Heartbeat.Beat` | HeartbeatMonitor.cpp:1028-1169 | One beat of the thread is one step of the machine. |
| `FreeHistory.RecentIsWindow` | HeartbeatMonitor.cpp:875-884 | At most 21 samples are in the ten-minute window, and they are the latest ones. |
| `FreeHistory.ChangesTelescope` | HeartbeatMonitor.cpp:871-873 | The changes add up to the net change since the oldest sample of the window. |
| `FreeHistory.PushHolds` | HeartbeatMonitor.cpp:766-774 | The ring keeps the latest eighty samples. |
| `FreeHistory.FreeHistory.Record` | HeartbeatMonitor.cpp:762-775 | Takes a sample after the warm-up if the last is half a minute old. |
| `FreeHistory.FreeHistory.TenMinutes` | HeartbeatMonitor.cpp:874-888 | Counts all samples of the window ever taken, none of them overwritten, and takes the oldest as the baseline. |
| `CounterIds.CacheAgrees` | Analytics.cpp:33-50 | A cache hit is the answer of the table search; a miss means no entry has the name. |
| `CounterIds.StepKeeps` | Analytics.cpp:131-166 | Every step of every thread keeps names unique, ids stable and caches true. |
| `CounterIds.OneNameOneId` | Analytics.cpp:131-166 | Under every interleaving all answers about a name are the same, and an id answered stays the place of the name. |
| `CounterIds.RepliesOwnCall` | Analytics.cpp:131-166 | Every reply is to the latest call of its thread and about the name of that call. |
| `CounterIds.CacheHoldsLatest` | Analytics.cpp:43-50 | A cache holds the latest 64 names stored in it and nothing else. |
| `CounterIds.Analytics.FindCounterIdNoLock` | Analytics.cpp:87-95 | Finds the name's place, or none. |
| `CounterIds.Analytics.GetCounterId` | Analytics.cpp:131-166 | Alone, a call answers the name's place, appending it if it is new and there is room. |
| `CounterIds.NameCache.Lookup` | Analytics.cpp:33-41 | Answers from the first matching entry. |
| `CounterIds.NameCache.Store` | Analytics.cpp:43-50 | Overwrites the entry at the cursor and moves on. |
| `DbpfIndex.CountEntries` | WorkingHooks.cpp:1044-1059 | Accepts exactly the views with a version-two header and counts the entries that fit in the view. |
| `DbpfIndex.DescribedIsIndex` | WorkingHooks.cpp:1047-1068 | A view that, byte by byte, has the header of a package and lays out a list of entries, or as many of them as fit, has exactly that list as its index. |
| `DbpfIndex.IndexIsDescribed` | WorkingHooks.cpp:1047-1068 | And a view with an index lays it out in that way. |
| `DbpfIndex.RoundTrip` | WorkingHooks.cpp:1012-1039 | Writing entries as the bytes of a package and reading the index gives the entries back. |
| `DbpfIndex.TallyStep` | WorkingHooks.cpp:1065-1089 | Counting one entry keeps the tally exact. |
| `DbpfIndex.ScanDbpfIndex` | WorkingHooks.cpp:1041-1092 | Fills in the first outCap distinct types, each with its exact number of entries and bytes, reading only inside the view. |
| `TypeTable.ProbeFinds` | MapViewTypeTracker.cpp:335-353 | A probe finds a type exactly if the table has it, and fails exactly if the table is full of others. |
| `TypeTable.AddRefines` | MapViewTypeTracker.cpp:167-182 | Adding to the table is accumulation in a map, on every input. |
| `TypeTable.SumsExact` | MapViewTypeTracker.cpp:167-182 | While the types fit, each has exactly the sum of its entries, the sum of its bytes and the number of its views. |
| `TypeTable.CountedExactlyWhenFew` | MapViewTypeTracker.cpp:352 | Over any session every type is counted exactly if and only if at most 256 types came. |
| `TypeTable.FirstTypesCounted` | MapViewTypeTracker.cpp:335-353 | Over any session the types counted are the first 256 that came, and each of them is counted exactly. |
| `TypeTable.TypeTracker.FindOrInsertType` | MapViewTypeTracker.cpp:335-353 | Returns the type's place, made for it if need be; none for type zero or a full table. |
| `TypeTable.TypeTracker.RecordDbpfTypes` | MapViewTypeTracker.cpp:167-182 | Accumulates all the stats. |

## Left out

- PoolExhaustion.LosesExactlyWhenSmall: for arenas of fewer than 83 granules, which have no room for full caches between free blocks, only one half is shown, that a larger pool is enough (NodeBudget.SufficientRunLosesNothing).
- Granules.AlignUp: on unbounded numbers; requests of size zero and sizes that wrap (Granules.MaskIsAlignUp) are ruled out, as are arena bases that are not granule multiples.
- ProxyAllocator.ProxyAllocator.Initialize: finding an address range (ProxyAllocator.cpp:226-257) is a parameter, null for none, and so is memory for the node pool.
- ProxyAllocator.ProxyAllocator.Free: the overload at ProxyAllocator.cpp:376 only supplies one granule as the size.
- ProxyAllocator.ProxyAllocator.GetFreeStats: the other statistics are copies of counters.
- Shutdown and restarting an allocator: Shutdown keeps the caches but not the pool, so no invariant survives it.
- The flag for a free since the start, trace marks and thread-local depth of the allocator: nothing reads them for placement.
- Counters of bytes and calls are unbounded numbers; the original's 64-bit sums do not reach their limit.
- SlotOwnership.ForgottenForEver: dropped slots stay granted; nothing in the original reclaims them.
- SlotOwnership.OwnershipKept: threads that die inside a hook, and the heaps inside the shards, are not modelled; a shard is a slot taken for good.
- SlotOwnership.PagesKeptExactly: the game's own decommits of pages in its redirected reservations, which its owner then no longer relies on, are not steps; releases with a nonzero size fail in the system and are not either. After the arena is released the system may hand its range to others; here it only stops committing pages in it.
- ManagerModel.ReallocCorrect: the system heap is a parameter that returns a range in no recorded block; what the heap's own growth takes from the arena meanwhile is a step of another kind, in SlotOwnership.
- ManagerModel.CreateKeeps: a commit adds exactly the bytes asked for, where the system commits whole pages; protection flags are not kept; bytes that a block of the system heap adds read as zero, too.
- MemoryManager.MemoryManager.CreateProxyAllocation: the caller test and size cap before the carve are one parameter.
- CorralTheorems.PeakIsMaximum: a reserve is one step, the addition of used bytes included; what other threads can do to the sum while it goes on is in SumWhileFreeing, after which the recorded peak may be lower than the largest use.
- CorralTheorems.GrowthEnough: for sizes whose rounding fits in a word.
- CorralLimits.ReserveFailsExactly: for sizes whose rounding fits in a word.
- CorralTheorems.GrowKeeps: zones handed out by the system are assumed granule-aligned and free.
- ScriptArena.ScriptArena.CorralFree: for a free without other threads; TakeEntry and GiveBackTo are the two steps that interleave.
- MarkOnce.StepKeeps: keys are arbitrary numbers; that two file names never share a hash is not claimed.
- PhaseMachine.Heartbeat.Beat: the clock is read by the caller and assumed not to run backwards; logs and reports are left out, and so is the passive mode, in which the machine does not run.
- FreeHistory.FreeHistory.Record: the clock is assumed positive, since zero marks that no sample was taken; the floating-point rate is left out.
- CounterIds.OneNameOneId: for names of up to 63 characters; longer ones end the program in the original. Timing ids use the same code and are not repeated.
- DbpfIndex.ScanDbpfIndex: a page that cannot be read, which the original catches with an exception handler, is not modelled.
- Caller classification, environment settings, containment lanes, pressure thresholds, file-name statistics and all reporting: one-branch code.
- Hooks other than allocation, free and reallocation; the in-hook flags; the caller-tracking table, which does not re-check a key after losing a race.
