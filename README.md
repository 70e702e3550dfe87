# Region allocator of the Mercury runtime, modelled in Dafny

This project models the region-based memory manager of the Mercury runtime
(`runtime/mercury_region.c`). The manager hands out memory in regions. A
region is a chain of fixed-size pages. Its control block sits at the start
of its first page, so the first page names the region. The allocator keeps
three pieces of process-wide state:

- a free-page list, refilled from the system allocator in batches;
- a doubly-linked list of live regions, newest first;
- a sequence counter that numbers regions in creation order.

On that state the model covers:

- taking a page from the pool;
- creating, extending and allocating in a region;
- destroying a region: clearing its slots in the commit frames, unlinking
  it from the live list and returning its pages to the free list;
- the three removal policies, which destroy a region or only mark it
  logically removed, depending on the if-then-else, disjunction and
  commit frames that protect it;
- the two sweeps a commit runs: one over the regions created inside the
  committed scope, one over the older regions the commit frame saved.

## Structure

- `wrappers.dfy`: `Wrappers`, the `Option` type.
- `pages.dfy`: `Pages`. Page identifiers, the configuration constants, and
  the chaining of a fresh batch of pages.
- `frames.dfy`: `Frames`. The ite, disj and commit frames as a class with
  a prev link, an entry count and a slot array. It holds the scans that
  clear a region's slot in one frame and along a commit chain, and the
  `ClearFirst` function that specifies them.
- `registry.dfy`: `Registry`. The control block as a value (`Region`), the
  allocator's invariant (`Consistent`), and the value-level functions the
  methods are proved against: `Pushed` for creation, `Unlinked` for
  destruction, `Filter` for the live list after removals. It also holds
  the lemmas showing that each change keeps the invariant.
- `allocator.dfy`: `RegionAllocator.Allocator`. A class whose fields are
  the free list, the list head, the control blocks, the counter and the
  page bound. Its methods change them in place, as the C functions change
  the globals.
- `findings.dfy`: `NewSweep`. One step of the new-region sweep as the
  source writes it, and the corrected step.

The invariant `Valid()` (`Registry.Consistent`) states five things:

- the ghost list `live` lists exactly the live regions, once each;
- each region's `prev`/`next` links name its neighbours in `live`;
- sequence numbers strictly decrease from head to tail;
- every control block describes its region (page chain, cursor on the
  last page, available words, header clearance on the first page,
  well-formed frames);
- the free list repeats no page, no free page belongs to a region, each
  page in use belongs to exactly one region, and every free or used page
  lies below the bound of pages obtained from the system. The invariant
  does not say that every page below the bound is free or in use. The
  sweeps state separately that the pages they destroy reach the free list
  (`Released`).

## Model

| member | source | states |
|---|---|---|
| Pages.ChainBatch | runtime/mercury_region.c:73-96 | The batch list runs from the last page of the batch down to the first page, which ends the list. It holds exactly NUM_PAGES_TO_REQUEST pages (`BatchFrom`). |
| Pages.BatchFresh | runtime/mercury_region.c:80-89 | A batch repeats no page and holds only pages numbered from its base, which is fresh memory. |
| RegionAllocator.Allocator.RequestPages | runtime/mercury_region.c:73-96 | Returns the chained batch starting at the first page never handed out. Advances that bound by exactly one batch. |
| RegionAllocator.Allocator.GetFreePage | runtime/mercury_region.c:98-117 | The page returned is the head of the free list, or the head of a fresh batch when the list was empty. The free list loses exactly that page. The page is detached: in no region and not free. The invariant is kept. |
| Registry.TakenPageIsUnowned | runtime/mercury_region.c:103-110 | A page taken from an accounted pool belongs to no region and is no longer on the free list. The rest of the pool stays accounted. |
| RegionAllocator.Allocator.constructor | runtime/mercury_region.c:22-29 | The initial state: free list and live list empty, counter at 1, invariant established. |
| RegionAllocator.Allocator.CreateRegion | runtime/mercury_region.c:130-175 | The new region is on a page taken from the pool. It gets the fresh block `FreshBlock`: cursor after the header, PAGE_SPACE_SIZE - REGION_HEADER_SIZE words available, removal counter 1, the old counter as its number, no frames, flags clear. It becomes the head, and the old head links back to it (`Pushed`). The counter grows by one. The invariant is kept. |
| Registry.PushedKeepsRecords | runtime/mercury_region.c:157-163 | Creation adds exactly the new record. It changes no other record except the old head's previous link, which points to the new region. |
| Registry.PushedKeepsNewestFirst | runtime/mercury_region.c:150-163 | A region numbered above every live one and pushed at the head keeps the numbers strictly decreasing from head to tail. |
| Registry.CreateKeepsConsistent | runtime/mercury_region.c:130-175 | Creating a region on a detached page keeps the whole invariant. The page cannot already name a live region. |
| RegionAllocator.Allocator.ExtendRegion | runtime/mercury_region.c:373-385 | Appends exactly one page from the pool to the region's page chain, which makes it the last page. Puts the cursor at the start of that page with PAGE_SPACE_SIZE words available. No other region changes. |
| Registry.ExtendKeepsConsistent | runtime/mercury_region.c:373-385 | Giving a region a detached page as its new last page keeps the invariant. |
| RegionAllocator.Allocator.Alloc | runtime/mercury_region.c:352-371 | If enough words are available, the cell is the old cursor; the cursor advances and `available` drops by `words`. Otherwise the region is first extended by one page and the cell starts that page. The cell always lies within one page, on the last page, and clear of the header on the first page. No other region changes. |
| Registry.BumpKeepsConsistent | runtime/mercury_region.c:361-364 | Advancing the cursor over available words keeps the invariant. |
| Frames.FindSlotFrom | runtime/mercury_region.c:203-210 | Returns the first slot before the entry count that names the region, or none when no slot does. |
| Frames.NullifyInFrame | runtime/mercury_region.c:189-211 | Scans at most the entry count. The slots afterwards are `ClearFirst` of the old slots: the first slot naming the region is emptied, and nothing changes when there is none. |
| RegionAllocator.Allocator.NullifyInIteFrame | runtime/mercury_region.c:213-238 | The region's ite frame has its slots replaced by `ClearFirst` of the old ones, over the frame's entry count. |
| Frames.ClearFirstRemovesOne | runtime/mercury_region.c:203-210 | Clearing removes exactly one reference to the region when there is one. It keeps the references to every other region and every slot past the entry count. |
| Frames.ClearFirstLeavesNone | runtime/mercury_region.c:203-210 | A frame that named the region at most once names it nowhere after clearing. |
| Frames.NullifyEntriesInCommitStack | runtime/mercury_region.c:177-187 | Every commit frame reached from the region's commit frame by prev links has its slots replaced by `ClearFirst` of the old ones. |
| Frames.ChainSuffix | runtime/mercury_region.c:183-186 | Following a frame's prev link gives the next frame of the chain. The walk from any frame is the rest of the chain. |
| RegionAllocator.Allocator.DestroyRegion | runtime/mercury_region.c:240-269 | The region's slots in its commit chain are cleared. It leaves the live list with every other region in order (`Filter`). The records become `Unlinked`: only the neighbours' links change. The head moves on when the region was the head. Its pages, first through last, go in front of the free list. The invariant is kept. |
| RegionAllocator.Allocator.DetachRegion | runtime/mercury_region.c:249-265 | Cuts the region out of the list at its position, in the head, middle and tail cases. Returns its pages to the free list. The invariant is kept. |
| Registry.UnlinkedIsRewired | runtime/mercury_region.c:250-261 | The head, middle and tail unlinking rewires exactly the neighbours' links and leaves every other record as it was. |
| Registry.UnlinkKeepsRegistry | runtime/mercury_region.c:249-261 | After the rewiring, the list without the region is still well linked from the new head. |
| Registry.DestroyKeepsConsistent | runtime/mercury_region.c:249-265 | Unlinking a region and freeing its pages keeps the whole invariant, with the region's pages no longer owned. |
| Registry.ReleaseKeepsAccounts | runtime/mercury_region.c:263-265 | The freed pages join the free list without repeats. No region holds them afterwards. |
| Registry.FilterAt | runtime/mercury_region.c:249-261 | In a list without repeats, filtering out one member is cutting it out at its position. |
| Registry.FilterMembers | runtime/mercury_region.c:249-261 | The filtered list holds exactly the members outside the removed set. |
| Registry.FilterTwice | runtime/mercury_region.c:395-412 | Removing one set of regions and then another removes their union. |
| RegionAllocator.Allocator.RemoveRegion | runtime/mercury_region.c:316-350 | Destroys the region iff neither an if-then-else nor a disjunction protects it. Otherwise the region becomes logically removed and is flagged for destruction at the commit iff a commit frame saved it. In that case the list, the free list, the frames and every other record stay as they were. |
| RegionAllocator.Allocator.RemoveIteThenSemidet | runtime/mercury_region.c:277-290 | Destroys the region iff no disjunction protects it. Otherwise only the logical-removal flag is set. |
| RegionAllocator.Allocator.RemoveIteThenNondet | runtime/mercury_region.c:299-314 | As the semidet case, except that before destroying, the region's slot in its ite frame is cleared. |
| Registry.RecordChangeKeepsConsistent | runtime/mercury_region.c:284-343 | Setting the removal flags of a live region keeps the invariant. |
| RegionAllocator.Allocator.DestroyMarkedNewRegionsAtCommit | runtime/mercury_region.c:433-449 | Afterwards the live list is the old one without the regions numbered above the saved number that are flagged for the commit (`NewDoomed`). Exactly those regions are gone. The free list holds exactly the old free pages and the pages of those regions (`Released`). Every survivor keeps its record apart from its links. |
| RegionAllocator.Allocator.SweepNewAt | runtime/mercury_region.c:443-447 | One visit of the sweep, to a region numbered above the saved number. The region is destroyed when it is flagged for the commit and kept otherwise. Either way the sweep's state (`SweptNewTo`) moves on by one position: the live list is the starting list with the doomed regions visited so far filtered out, the free list holds their pages in front of the starting free list, and the surviving records are unchanged apart from their links. |
| Registry.FreedStep | runtime/mercury_region.c:443-444 | Each destruction in the walk puts the pages of the region at the walk's position in front of the pages freed so far. |
| Registry.FreedReleased | runtime/mercury_region.c:263-265 | When the walked list holds every doomed region, the pages freed along it are exactly the pages of the doomed regions. |
| Registry.SweepStopsAt | runtime/mercury_region.c:440-441 | Once the walk reaches a region numbered at or below the saved number, no later region is one to destroy, because the list is newest first. Every doomed region lies before that point. |
| Registry.SweepDestroysAt | runtime/mercury_region.c:443-444 | Destroying the doomed region at the walk's position extends the filtered prefix by that position. |
| Registry.SweepKeepsAt | runtime/mercury_region.c:445-446 | Passing over an unflagged region extends the filtered prefix by that position. |
| Registry.SweepEndsAt | runtime/mercury_region.c:440-448 | When nothing from the stopping position on is doomed, the live list is the whole list filtered. |
| RegionAllocator.Allocator.DestroyMarkedOldRegionsAtCommit | runtime/mercury_region.c:387-431 | Reads the first `count` saved entries at the entry stride and destroys each region they name. It reports `Swept` when every saved region was flagged for the commit. At the first saved region that was not flagged it stops and reports `Fatal` with that entry's index, when the entries before it were all flagged. Afterwards the live list is the old one without the regions handled so far (`SavedRegions`). The free list holds exactly the old free pages and the pages of those regions (`Released`). |
| Registry.ReleasedStep | runtime/mercury_region.c:263-265 | Putting one more destroyed region's pages in front of the free list adds exactly that region to the released ones. |
| Registry.SavedEntryIsNew | runtime/mercury_region.c:395-398 | When no region is saved twice, the region named by an entry is not among those named by earlier entries. |
| Registry.SavedStillLive | runtime/mercury_region.c:398-407 | A region the sweep reaches has not been destroyed by an earlier entry, so it is still live. |
| NewSweep.StepAsWritten | runtime/mercury_region.c:439-448 | One pass of the loop body as written: a flagged region is removed from the records, an unflagged one is kept. |
| NewSweep.AsWrittenRevisitsDestroyed | runtime/mercury_region.c:443-444 | As written, after a flagged region is destroyed the cursor still names it, though it is no longer live. |
| NewSweep.AsWrittenCounterexample | runtime/mercury_region.c:439-448 | The concrete input is one live region on page 7, numbered 5 and flagged, swept with saved number 0. After one step the cursor is still page 7, which is no longer a region. |
| NewSweep.StepIntended | runtime/mercury_region.c:439-448 | The corrected step reads the successor before destroying, so the cursor moves to the region's old next link. |
| NewSweep.IntendedCursorLive | runtime/mercury_region.c:439-448 | On a well-linked list, the corrected step moves the cursor to the next listed region, which is still live, or to the end exactly at the tail. |

## Left out

- Profiling counters, debug printing and the frame-number helpers are left out. They only update statistics or print, and change no allocator state.
- The snapshot and restore code compiled out under `#if 0` is left out, because it is never built.
- Failure of the system allocator (`MR_malloc` returning NULL, a fatal error) is not modelled. A batch is always a run of fresh page identifiers above `nextFresh`.
- The raw frame layout, with its offsets of the entry count and of the first entry, is not modelled. The offsets are defined in `mercury_region.h`, which is not part of this model. A frame is its prev link, entry count and slot array.
- The ite, disj and commit stack pointers `MR_region_ite_sp`, `MR_region_disj_sp` and `MR_region_commit_sp` are left out. Nothing in the modelled functions reads them.
- The commented-out "ite-unprotect" branch of the removal function is left out, because it is not code.
- The constants `MR_REGION_PAGE_SPACE_SIZE`, `MR_REGION_NUM_PAGES_TO_REQUEST` and `MR_REGION_COMMIT_ENTRY_SIZE`, and the size of the control block, are defined in `mercury_region.h`, which is not part of this model. They are fixed here at 256, 100, 1 and 12 words, with the header smaller than a page as the source requires. The contracts and lemmas are stated in terms of the constants' names, not their values.
- `MR_region_return_page_list` is defined in `mercury_region.h`, which is not part of this model. It is modelled as its call site describes: the region's pages, first through last, are put in front of the free list.
- Addresses are a page and a word offset. Pointer arithmetic across pages and the pages' own `next` fields are not modelled; the page lists are sequences.
- RegionAllocator.Allocator.CreateRegion numbers regions with an unbounded counter (`seqCounter`, a `nat`). In the source, `MR_region_sequence_number` is a machine word (runtime/mercury_region.c:29), incremented without bound at runtime/mercury_region.c:150, so it wraps around; the wrap is not modelled. The newest-first order (`NewestFirst`), and with it the stopping test of the new-region sweep (runtime/mercury_region.c:440-441, `SweepStopsAt`), holds only until the counter wraps.
- RegionAllocator.Allocator.DetachRegion models the stale link as the source leaves it. When the head is destroyed, the new head's previous link still names the freed region (`Unlinked` in the head case). What is left out is any constraint on the head's previous link: the invariant does not state one, because nothing reads that link.
- RegionAllocator.Allocator.DestroyMarkedOldRegionsAtCommit reads the saved entries as a value passed in, not from the commit frame's own slots. In the source, destroying a region clears its slots in the commit chain, and the sweep's saved area may be one of those slots. The model requires no region to be saved twice, so a cleared entry is never read again and the two readings agree. Its ensures does not restate the effect on the frame slots.
- RegionAllocator.Allocator.DestroyMarkedNewRegionsAtCommit states the live list, the surviving records, the free list and the counters afterwards. It does not state the effect on the commit frames' slots, which each destruction clears as `DestroyRegion` states.
- RegionAllocator.Allocator.DestroyRegion and the removal methods take the ghost parameter `commits`. It names the frames of the region's commit chain, so that their contracts can speak of each frame's slots.
- RegionAllocator.Allocator.RemoveIteThenNondet requires that a region with no disjunction protecting it has an ite frame. The source dereferences the ite frame unconditionally on that path.
- RegionAllocator.Allocator.Alloc requires `words <= PAGE_SPACE_SIZE`. A larger request would leave the unsigned available count wrapped in the source; the allocator's callers never make one.
- RegionAllocator.Allocator.DestroyMarkedNewRegionsAtCommit follows the evidently intended walk, not the loop as written. The comment at runtime/mercury_region.c:433 promises to destroy every marked region allocated since scope entry. The loop at runtime/mercury_region.c:440-448 advances only past regions it keeps. The model reads the successor before destroying, so it keeps walking after a destruction (see Findings).

## Findings

| source | as written | input that shows it | evidently intended | confidence | as-written member | corrected member |
|---|---|---|---|---|---|---|
| runtime/mercury_region.c:440-448 | After destroying a flagged region, the loop leaves `region` pointing at it. The next test reads the control block of a destroyed region whose flag is still set, so the same region would be destroyed again. | One live region on page 7, numbered 5 and flagged for destruction at the commit, swept with saved number 0. | Read the next region before destroying the current one, and continue from it. | not executed | NewSweep.AsWrittenCounterexample | RegionAllocator.Allocator.DestroyMarkedNewRegionsAtCommit |
