/**
 * The region allocator: the free-page list, the live-region list and the
 * sequence counter, and the operations on them that create, extend,
 * allocate in, remove and destroy regions, and the two sweeps run at a
 * commit.
 */
module RegionAllocator {
  import opened Wrappers
  import opened Pages
  import opened Frames
  import opened Registry

  /** Where a region is in its life. */
  datatype Phase = Live | LogicallyRemoved | Destroyed

  /** How the sweep of old regions ended: all saved regions handled, or the fatal error at an entry. */
  datatype SweepOutcome = Swept | Fatal(index: nat)

  class Allocator {
    /** The free-page list, head first (MR_region_free_page_list). */
    var freePages: seq<PageId>
    /** The newest live region (MR_live_region_list). */
    var head: Option<PageId>
    /** The control blocks of the live regions, by first page. */
    var regions: map<PageId, Region>
    /** The number the next region gets (MR_region_sequence_number). */
    var seqCounter: nat
    /** Pages numbered from here on have not been obtained from the system allocator. */
    var nextFresh: PageId
    /** The live-region list read from the head, newest first. */
    ghost var live: seq<PageId>
    /** The region that holds each page in use. */
    ghost var owner: map<PageId, PageId>

    /** The allocator's invariant over its state. */
    ghost predicate Valid()
      reads this
    {
      Consistent(freePages, head, live, regions, seqCounter, owner, nextFresh)
    }

    /** The phase of the region named `r`. */
    function PhaseOf(r: PageId): (phase: Phase)
      reads this
    {
      if r !in regions then Destroyed
      else if regions[r].logicalRemoved then LogicallyRemoved
      else Live
    }

    /** The allocator before any region exists: no pages, no regions, numbering from 1. */
    constructor ()
      ensures Valid()
      ensures freePages == [] && head == None && live == [] && regions == map[] && seqCounter == 1
    {
      freePages := [];
      head := None;
      regions := map[];
      seqCounter := 1;
      nextFresh := 0;
      live := [];
      owner := map[];
    }

    /** Obtains a batch of fresh pages from the system allocator, chained into a list. */
    method RequestPages() returns (batch: seq<PageId>)
      modifies this`nextFresh
      ensures batch == BatchFrom(old(nextFresh))
      ensures nextFresh == old(nextFresh) + NUM_PAGES_TO_REQUEST
    {
      batch := ChainBatch(nextFresh);
      nextFresh := nextFresh + NUM_PAGES_TO_REQUEST;
    }

    /**
     * Takes the first page off the free list, requesting a batch first when
     * the list is empty. The page is detached: in no region and not free.
     */
    method GetFreePage() returns (page: PageId)
      requires Valid()
      modifies this`freePages, this`nextFresh
      ensures Valid()
      ensures TakesPage(old(freePages), old(nextFresh), page, freePages, nextFresh)
      ensures page !in owner && page !in freePages && page < nextFresh
      ensures |freePages| == (if old(freePages) == [] then NUM_PAGES_TO_REQUEST else |old(freePages)|) - 1
    {
      ghost var free0, bound0 := freePages, nextFresh;
      if freePages == [] {
        freePages := RequestPages();
      }
      page := freePages[0];
      freePages := freePages[1..];
      TakenPageIsUnowned(free0, regions, owner, bound0, page, freePages, nextFresh);
    }

    /**
     * Creates a region on a page from the pool: its control block fills the
     * start of the page, it gets the next sequence number, no frame refers
     * to it, and it is linked in at the head of the live-region list.
     */
    method CreateRegion() returns (r: PageId)
      requires Valid()
      modifies this
      ensures Valid()
      ensures TakesPage(old(freePages), old(nextFresh), r, freePages, nextFresh) && r !in old(owner)
      ensures r !in old(regions) && regions == Pushed(old(regions), old(head), r, old(seqCounter))
      ensures seqCounter == old(seqCounter) + 1
      ensures head == Some(r) && live == [r] + old(live)
    {
      var page := GetFreePage();
      r := page;
      var pushed := Pushed(regions, head, r, seqCounter);
      CreateKeepsConsistent(freePages, head, live, regions, seqCounter, owner, nextFresh, r, pushed);
      regions, head, live, owner, seqCounter := pushed, Some(r), [r] + live, owner[page := r], seqCounter + 1;
    }

    /**
     * Appends a page from the pool to the tail of region `r` and moves the
     * cursor to the start of that page, with the whole page available.
     */
    method ExtendRegion(r: PageId)
      requires Valid() && r in regions
      modifies this
      ensures Valid()
      ensures head == old(head) && live == old(live) && seqCounter == old(seqCounter)
      ensures regions.Keys == old(regions).Keys
      ensures forall q :: q in regions && q != r ==> regions[q] == old(regions)[q]
      ensures |regions[r].pages| == |old(regions)[r].pages| + 1
      ensures var page := regions[r].pages[|regions[r].pages| - 1];
        TakesPage(old(freePages), old(nextFresh), page, freePages, nextFresh) && page !in old(owner) &&
        regions[r] == old(regions)[r].(pages := old(regions)[r].pages + [page],
                                       cursor := Addr(page, 0), available := PAGE_SPACE_SIZE)
    {
      ghost var regions0, owner0 := regions, owner;
      var page := GetFreePage();
      var block := regions[r];
      var block' := block.(pages := block.pages + [page], cursor := Addr(page, 0), available := PAGE_SPACE_SIZE);
      ExtendKeepsConsistent(freePages, head, live, regions, seqCounter, owner, nextFresh, r, page, block');
      regions := regions[r := block'];
      owner := owner[page := r];
    }

    /**
     * Allocates `words` words in region `r`: when the last page has too few
     * words left the region is extended first; the cell starts at the cursor,
     * which then moves past it. The cell lies within one page and, on the
     * first page, after the control block.
     */
    method Alloc(r: PageId, words: nat) returns (cell: Addr)
      requires Valid() && r in regions
      requires words <= PAGE_SPACE_SIZE
      modifies this
      ensures Valid()
      ensures head == old(head) && live == old(live) && seqCounter == old(seqCounter)
      ensures regions.Keys == old(regions).Keys
      ensures forall q :: q in regions && q != r ==> regions[q] == old(regions)[q]
      ensures words <= old(regions)[r].available ==>
        cell == old(regions)[r].cursor && freePages == old(freePages) && nextFresh == old(nextFresh) &&
        regions[r] == old(regions)[r].(cursor := Addr(cell.page, cell.offset + words),
                                       available := old(regions)[r].available - words)
      ensures old(regions)[r].available < words ==>
        TakesPage(old(freePages), old(nextFresh), cell.page, freePages, nextFresh) &&
        cell.page !in old(owner) && cell.offset == 0 &&
        regions[r] == old(regions)[r].(pages := old(regions)[r].pages + [cell.page],
                                       cursor := Addr(cell.page, words), available := PAGE_SPACE_SIZE - words)
      ensures WellShaped(r, regions[r]) && cell.page == regions[r].LastPage()
      ensures cell.offset + words <= PAGE_SPACE_SIZE
      ensures cell.page == r ==> REGION_HEADER_SIZE <= cell.offset
    {
      if regions[r].available < words {
        ExtendRegion(r);
      }
      var block := regions[r];
      cell := block.cursor;
      assert WellShaped(r, block);
      var block' := block.(cursor := Addr(cell.page, cell.offset + words), available := block.available - words);
      BumpKeepsConsistent(freePages, head, live, regions, seqCounter, owner, nextFresh, r, words, block');
      regions := regions[r := block'];
    }

    /** Clears the region's slot in the if-then-else frame that protects it. */
    method NullifyInIteFrame(r: PageId)
      requires Valid() && r in regions && regions[r].ite != null
      modifies regions[r].ite.slots
      ensures FrameOk(regions[r].ite) &&
        regions[r].ite.slots[..] == ClearFirst(old(regions[r].ite.slots[..]), regions[r].ite.count, r)
    {
      assert WellShaped(r, regions[r]);
      NullifyInFrame(regions[r].ite, r);
    }

    /**
     * Destroys a region: clears its slots in the commit frames, then cuts it
     * out of the live-region list and puts its pages back in front of the
     * free list.
     */
    method DestroyRegion(r: PageId, ghost commits: seq<Frame>)
      requires Valid() && r in regions
      requires ChainOk(regions[r].commit) && commits == Chain(regions[r].commit)
      modifies this, ChainSlots(regions[r].commit)
      ensures Valid()
      ensures live == Filter(old(live), {r})
      ensures regions == Unlinked(old(regions), old(head), r)
      ensures regions.Keys == old(regions).Keys - {r}
      ensures forall q :: q in regions ==> regions[q].WithoutLinks() == old(regions)[q].WithoutLinks()
      ensures head == if old(head) == Some(r) then old(regions)[r].next else old(head)
      ensures freePages == old(regions)[r].pages + old(freePages)
      ensures seqCounter == old(seqCounter) && nextFresh == old(nextFresh)
      ensures forall j :: 0 <= j < |commits| ==>
        commits[j].slots[..] == ClearFirst(old(commits[j].slots[..]), commits[j].count, r)
    {
      if regions[r].commit != null {
        NullifyEntriesInCommitStack(regions[r].commit, r, commits);
      }
      ghost var before, records, top := live, regions, head;
      ghost var i := DetachRegion(r);
      FilterAt(before, i);
      UnlinkedKeepsRecords(records, top, r);
    }

    /** Cuts a region out of the live-region list and puts its pages back in front of the free list. */
    method DetachRegion(r: PageId) returns (ghost i: nat)
      requires Valid() && r in regions
      modifies this
      ensures Valid()
      ensures i < |old(live)| && old(live)[i] == r && live == old(live)[..i] + old(live)[i + 1..]
      ensures regions == Unlinked(old(regions), old(head), r)
      ensures head == if old(head) == Some(r) then old(regions)[r].next else old(head)
      ensures freePages == old(regions)[r].pages + old(freePages)
      ensures seqCounter == old(seqCounter) && nextFresh == old(nextFresh)
    {
      var block := regions[r];
      i := IndexOfLive(head, live, regions, r);
      LinkAt(live, regions, i);
      var newHead := head;
      var relinked := regions;
      if head == Some(r) {
        newHead := block.next;
      } else {
        assert 0 < i by {
          assert live[0] != r;
        }
        LinkAt(live, regions, i - 1);
        var p := block.prev.value;
        relinked := relinked[p := relinked[p].(next := block.next)];
        if block.next.Some? {
          var n := block.next.value;
          relinked := relinked[n := relinked[n].(prev := block.prev)];
        }
      }
      assert relinked - {r} == Unlinked(regions, head, r);
      var freed := block.pages + freePages;
      ghost var owner' := map p | p in owner && owner[p] != r :: owner[p];
      assert Consistent(freed, newHead, live[..i] + live[i + 1..], relinked - {r}, seqCounter, owner', nextFresh) by {
        DestroyKeepsConsistent(freePages, head, live, regions, seqCounter, owner, nextFresh, i, newHead, relinked - {r});
      }
      head, regions, freePages, live, owner := newHead, relinked - {r}, freed, live[..i] + live[i + 1..], owner';
    }
    /**
     * Removes a region that nothing protects: a region protected by neither
     * an if-then-else nor a disjunction is destroyed; otherwise it is only
     * marked logically removed, and also marked for destruction at the commit
     * when a commit frame has saved it.
     */
    method RemoveRegion(r: PageId, ghost commits: seq<Frame>)
      requires Valid() && r in regions
      requires ChainOk(regions[r].commit) && commits == Chain(regions[r].commit)
      modifies this, ChainSlots(regions[r].commit)
      ensures Valid()
      ensures old(regions)[r].ite == null && old(regions)[r].disj == null ==>
        PhaseOf(r) == Destroyed && live == Filter(old(live), {r}) &&
        regions == Unlinked(old(regions), old(head), r) && freePages == old(regions)[r].pages + old(freePages) &&
        forall j :: 0 <= j < |commits| ==>
          commits[j].slots[..] == ClearFirst(old(commits[j].slots[..]), commits[j].count, r)
      ensures old(regions)[r].ite != null || old(regions)[r].disj != null ==>
        PhaseOf(r) == LogicallyRemoved && live == old(live) && head == old(head) && freePages == old(freePages) &&
        regions == old(regions)[r := old(regions)[r].(logicalRemoved := true,
          destroyAtCommit := old(regions)[r].destroyAtCommit || old(regions)[r].commit != null)] &&
        forall j :: 0 <= j < |commits| ==> commits[j].slots[..] == old(commits[j].slots[..])
      ensures seqCounter == old(seqCounter) && nextFresh == old(nextFresh)
    {
      var block := regions[r];
      if block.ite == null && block.disj == null {
        DestroyRegion(r, commits);
      } else {
        block := block.(logicalRemoved := true);
        if block.commit != null {
          block := block.(destroyAtCommit := true);
        }
        assert WellShaped(r, regions[r]);
        RecordChangeKeepsConsistent(freePages, head, live, regions, seqCounter, owner, nextFresh, r, block);
        regions := regions[r := block];
      }
    }

    /**
     * Removal at the start of the then-branch of an if-then-else with a
     * semidet condition: the region is destroyed unless a disjunction
     * protects it, in which case it is only marked logically removed.
     */
    method RemoveIteThenSemidet(r: PageId, ghost commits: seq<Frame>)
      requires Valid() && r in regions
      requires ChainOk(regions[r].commit) && commits == Chain(regions[r].commit)
      modifies this, ChainSlots(regions[r].commit)
      ensures Valid()
      ensures old(regions)[r].disj == null ==>
        PhaseOf(r) == Destroyed && live == Filter(old(live), {r}) &&
        regions == Unlinked(old(regions), old(head), r) && freePages == old(regions)[r].pages + old(freePages) &&
        forall j :: 0 <= j < |commits| ==>
          commits[j].slots[..] == ClearFirst(old(commits[j].slots[..]), commits[j].count, r)
      ensures old(regions)[r].disj != null ==>
        PhaseOf(r) == LogicallyRemoved && live == old(live) && head == old(head) && freePages == old(freePages) &&
        regions == old(regions)[r := old(regions)[r].(logicalRemoved := true)] &&
        forall j :: 0 <= j < |commits| ==> commits[j].slots[..] == old(commits[j].slots[..])
      ensures seqCounter == old(seqCounter) && nextFresh == old(nextFresh)
    {
      if regions[r].disj == null {
        DestroyRegion(r, commits);
      } else {
        var block := regions[r].(logicalRemoved := true);
        assert WellShaped(r, regions[r]);
        RecordChangeKeepsConsistent(freePages, head, live, regions, seqCounter, owner, nextFresh, r, block);
        regions := regions[r := block];
      }
    }

    /**
     * Removal at the start of the then-branch of an if-then-else with a
     * nondet condition: as in the semidet case, but before destroying the
     * region its slot in the protecting if-then-else frame is cleared.
     */
    method RemoveIteThenNondet(r: PageId, ghost commits: seq<Frame>)
      requires Valid() && r in regions
      requires regions[r].disj == null ==> regions[r].ite != null
      requires ChainOk(regions[r].commit) && commits == Chain(regions[r].commit)
      modifies this, ChainSlots(regions[r].commit), if regions[r].ite != null then {regions[r].ite.slots} else {}
      ensures Valid()
      ensures old(regions)[r].disj == null ==>
        PhaseOf(r) == Destroyed && live == Filter(old(live), {r}) &&
        regions == Unlinked(old(regions), old(head), r) && freePages == old(regions)[r].pages + old(freePages) &&
        FrameOk(old(regions)[r].ite) &&
        old(regions)[r].ite.slots[..] == ClearFirst(old(regions[r].ite.slots[..]), old(regions)[r].ite.count, r) &&
        forall j :: 0 <= j < |commits| ==>
          commits[j].slots[..] == ClearFirst(old(commits[j].slots[..]), commits[j].count, r)
      ensures old(regions)[r].disj != null ==>
        PhaseOf(r) == LogicallyRemoved && live == old(live) && head == old(head) && freePages == old(freePages) &&
        regions == old(regions)[r := old(regions)[r].(logicalRemoved := true)] &&
        forall j :: 0 <= j < |commits| ==> commits[j].slots[..] == old(commits[j].slots[..])
      ensures seqCounter == old(seqCounter) && nextFresh == old(nextFresh)
    {
      if regions[r].disj == null {
        assert WellShaped(r, regions[r]);
        NullifyInIteFrame(r);
        DestroyRegion(r, commits);
      } else {
        var block := regions[r].(logicalRemoved := true);
        assert WellShaped(r, regions[r]);
        RecordChangeKeepsConsistent(freePages, head, live, regions, seqCounter, owner, nextFresh, r, block);
        regions := regions[r := block];
      }
    }

    /**
     * Destroys, at a commit, every region created since the commit's scope
     * was entered (numbered above `savedSeq`) that a removal flagged for
     * destruction at the commit. Such regions form a prefix of the
     * newest-first list; the sweep walks that prefix and stops at the first
     * older region. The next region is read before the current one is
     * destroyed; the loop in the source does not step past a region it
     * destroys (see `NewSweep.StepAsWritten`), and this method states the
     * intended walk instead.
     */
    method DestroyMarkedNewRegionsAtCommit(savedSeq: nat)
      requires Valid()
      modifies this, AllCommitSlots(regions)
      ensures Valid()
      ensures live == Filter(old(live), NewDoomed(old(regions), savedSeq))
      ensures regions.Keys == old(regions).Keys - NewDoomed(old(regions), savedSeq)
      ensures forall q :: q in regions ==> regions[q].WithoutLinks() == old(regions)[q].WithoutLinks()
      ensures Released(freePages, old(freePages), old(regions), NewDoomed(old(regions), savedSeq))
      ensures seqCounter == old(seqCounter) && nextFresh == old(nextFresh)
    {
      ghost var all, regions0, free0 := live, regions, freePages;
      ghost var doomed := NewDoomed(regions, savedSeq);
      var cur := head;
      ghost var k := 0;
      while cur.Some? && regions[cur.value].seqNo > savedSeq
        invariant SweptNewTo(all, regions0, free0, doomed, k)
        invariant cur == if k < |all| then Some(all[k]) else None
        invariant cur.Some? ==> cur.value in regions
        invariant seqCounter == old(seqCounter) && nextFresh == old(nextFresh)
        decreases |all| - k
      {
        var q := cur.value;
        SweepPosition(all, k, doomed, live, regions);
        var next := regions[q].next;
        SweepNewAt(q, savedSeq, all, regions0, free0, k);
        cur := next;
        k := k + 1;
        if k < |all| {
          SweepPosition(all, k, doomed, live, regions);
        }
      }
      SweepStopsAt(all, regions0, k, savedSeq);
      SweepEndsAt(all, k, doomed);
      SweptKeys(all, regions0, doomed, live, regions);
      FreedReleased(regions0, all[..k], doomed, free0);
    }

    /**
     * The state of the new-region sweep after it has visited the first `k`
     * regions of `all`, the live list when it began: those of them in
     * `doomed` are gone, with their pages, as they were freed, in front of
     * the free list `free0` it began with; every remaining record is the one
     * in `regions0` apart from its links.
     */
    ghost predicate SweptNewTo(all: seq<PageId>, regions0: map<PageId, Region>, free0: seq<PageId>,
                               doomed: set<PageId>, k: nat)
      reads this
    {
      Valid() && NoDup(all) && k <= |all| &&
      live == Filter(all[..k], doomed) + all[k..] &&
      (forall q :: q in regions ==> q in regions0 && regions[q].WithoutLinks() == regions0[q].WithoutLinks()) &&
      freePages == Freed(regions0, all[..k], doomed) + free0
    }

    /**
     * One visit of the new-region sweep: the region `q` at position `k`,
     * numbered above `savedSeq`, is destroyed when it is flagged for
     * destruction at the commit and kept otherwise.
     */
    method SweepNewAt(q: PageId, savedSeq: nat, ghost all: seq<PageId>, ghost regions0: map<PageId, Region>,
                      ghost free0: seq<PageId>, ghost k: nat)
      requires SweptNewTo(all, regions0, free0, NewDoomed(regions0, savedSeq), k)
      requires k < |all| && q == all[k] && q in regions && regions[q].seqNo > savedSeq
      modifies this, AllCommitSlots(regions0)
      ensures SweptNewTo(all, regions0, free0, NewDoomed(regions0, savedSeq), k + 1)
      ensures seqCounter == old(seqCounter) && nextFresh == old(nextFresh)
    {
      ghost var doomed := NewDoomed(regions0, savedSeq);
      assert regions[q].WithoutLinks() == regions0[q].WithoutLinks();
      FreedStep(regions0, all, k, doomed);
      if regions[q].destroyAtCommit {
        assert q in doomed;
        assert WellShaped(q, regions[q]);
        CommitSlotsWithin(regions0, q);
        FreedInFront(regions0[q].pages, Freed(regions0, all[..k], doomed), free0);
        DestroyRegion(q, Chain(regions[q].commit));
        SweepDestroysAt(all, k, doomed);
      } else {
        assert q !in doomed;
        SweepKeepsAt(all, k, doomed);
      }
    }

    /**
     * Destroys, at a commit, the regions that existed before the commit's
     * scope was entered and that its commit frame saved: the first `count`
     * entries of `saved`, read at the entry stride, each empty or naming a
     * live region, no region twice. A saved region that no removal flagged
     * for destruction at the commit is a fatal error; the sweep stops there
     * and reports the entry.
     */
    method DestroyMarkedOldRegionsAtCommit(count: nat, saved: seq<Option<PageId>>) returns (outcome: SweepOutcome)
      requires Valid()
      requires count * COMMIT_ENTRY_SIZE <= |saved|
      requires SavedLive(saved, count, regions)
      requires SavedDistinct(saved, count)
      modifies this, AllCommitSlots(regions)
      ensures Valid()
      ensures outcome.Swept? ==> SavedFlagged(saved, count, old(regions))
      ensures outcome.Fatal? ==>
        outcome.index < count && SavedEntry(saved, outcome.index).Some? &&
        SavedEntry(saved, outcome.index).value in old(regions) &&
        !old(regions)[SavedEntry(saved, outcome.index).value].destroyAtCommit &&
        SavedFlagged(saved, outcome.index, old(regions))
      ensures outcome.Swept? ==>
        live == Filter(old(live), SavedRegions(saved, count)) && regions.Keys == old(regions).Keys - SavedRegions(saved, count)
      ensures outcome.Fatal? ==>
        live == Filter(old(live), SavedRegions(saved, outcome.index)) &&
        regions.Keys == old(regions).Keys - SavedRegions(saved, outcome.index)
      ensures Released(freePages, old(freePages), old(regions),
                       SavedRegions(saved, if outcome.Fatal? then outcome.index else count))
      ensures forall q :: q in regions ==> regions[q].WithoutLinks() == old(regions)[q].WithoutLinks()
      ensures seqCounter == old(seqCounter) && nextFresh == old(nextFresh)
    {
      ghost var all, regions0, free0 := live, regions, freePages;
      ReleasedStart(free0, regions0);
      assert SavedRegions(saved, 0) == {};
      FilterNone(all, {});
      var i := 0;
      ghost var handled: set<PageId> := {};
      while i < count
        invariant Valid()
        invariant i <= count
        invariant SavedFlagged(saved, i, regions0)
        invariant handled == SavedRegions(saved, i)
        invariant live == Filter(all, handled)
        invariant Released(freePages, free0, regions0, handled)
        invariant forall q :: q in regions ==> q in regions0 && regions[q].WithoutLinks() == regions0[q].WithoutLinks()
        invariant seqCounter == old(seqCounter) && nextFresh == old(nextFresh)
      {
        var entry := SavedEntry(saved, i);
        if entry.Some? {
          var q := entry.value;
          SavedStillLive(all, regions0, saved, count, i, live, regions);
          SavedRegionsStep(saved, i);
          ghost var handled' := handled + {q};
          assert handled' == SavedRegions(saved, i + 1);
          if regions[q].destroyAtCommit {
            assert WellShaped(q, regions[q]);
            CommitSlotsWithin(regions0, q);
            ghost var free1, pages := freePages, regions[q].pages;
            assert pages == regions0[q].pages by {
              assert regions[q].WithoutLinks() == regions0[q].WithoutLinks();
            }
            DestroyRegion(q, Chain(regions[q].commit));
            FilterTwice(all, handled, {q});
            ReleasedStep(free1, free0, regions0, handled, q, pages);
            handled := handled';
            SavedFlaggedStep(saved, i, regions0);
          } else {
            SweptKeys(all, regions0, SavedRegions(saved, i), live, regions);
            return Fatal(i);
          }
        } else {
          SavedRegionsStep(saved, i);
          SavedFlaggedStep(saved, i, regions0);
        }
        i := i + 1;
      }
      SweptKeys(all, regions0, SavedRegions(saved, count), live, regions);
      return Swept;
    }
  }
}
