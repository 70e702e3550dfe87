/**
 * One step of the new-region sweep exactly as its loop is written: the
 * destroy branch leaves the cursor on the region it has just destroyed.
 * The allocator's `DestroyMarkedNewRegionsAtCommit` is the corrected walk.
 */
module NewSweep {
  import opened Wrappers
  import opened Pages
  import opened Registry

  /**
   * The records and the cursor after one pass of the loop body on region
   * `cur`: a flagged region is unlinked and dropped, an unflagged one is
   * stepped over.
   */
  function StepAsWritten(regions: map<PageId, Region>, head: Option<PageId>, cur: PageId)
    : (res: (map<PageId, Region>, Option<PageId>))
    requires cur in regions
    ensures cur in res.0 <==> !regions[cur].destroyAtCommit
    ensures res.0.Keys == (if regions[cur].destroyAtCommit then regions.Keys - {cur} else regions.Keys)
  {
    if regions[cur].destroyAtCommit then (Unlinked(regions, head, cur), Some(cur))
    else (regions, regions[cur].next)
  }

  /**
   * The step the corrected sweep takes: the successor is read before the
   * region is destroyed, so the cursor never names a destroyed region.
   */
  function StepIntended(regions: map<PageId, Region>, head: Option<PageId>, cur: PageId)
    : (res: (map<PageId, Region>, Option<PageId>))
    requires cur in regions
    ensures cur in res.0 <==> !regions[cur].destroyAtCommit
    ensures res.1 == regions[cur].next
  {
    if regions[cur].destroyAtCommit then (Unlinked(regions, head, cur), regions[cur].next)
    else (regions, regions[cur].next)
  }

  /**
   * As written, destroying a flagged region leaves the cursor on it: the
   * next test of the loop reads the control block of a region that is no
   * longer live, whose flag is still set, so it would be destroyed again.
   */
  lemma AsWrittenRevisitsDestroyed(regions: map<PageId, Region>, head: Option<PageId>, cur: PageId)
    requires cur in regions && regions[cur].destroyAtCommit
    ensures StepAsWritten(regions, head, cur).1 == Some(cur)
    ensures cur !in StepAsWritten(regions, head, cur).0
  {
  }

  /**
   * The corrected step never leaves the cursor on a dead region: on a
   * well-linked list it moves to a region that is still live, or to the end.
   */
  lemma {:induction false} IntendedCursorLive(head: Option<PageId>, live: seq<PageId>,
                                              regions: map<PageId, Region>, i: nat)
    requires Registered(head, live, regions) && i < |live|
    ensures var res := StepIntended(regions, head, live[i]);
      (res.1 == None <==> i + 1 == |live|) &&
      (res.1.Some? ==> res.1 == Some(live[i + 1]) && live[i + 1] in res.0)
  {
    LinkAt(live, regions, i);
    UnlinkedKeepsRecords(regions, head, live[i]);
    if i + 1 < |live| {
      assert live[i + 1] in regions by { assert live[i + 1] in live; }
      assert live[i + 1] != live[i];
    }
  }

  /**
   * The concrete input: one live region, page 7, numbered 5, flagged for
   * destruction at the commit, swept with saved sequence number 0. After
   * one step the cursor is still page 7, which is no longer a region.
   */
  lemma AsWrittenCounterexample()
    ensures var block := FreshBlock(7, 5, None).(destroyAtCommit := true);
      var regions := map[7 := block];
      var res := StepAsWritten(regions, Some(7), 7);
      block.seqNo > 0 && res.1 == Some(7) && res.1.value !in res.0
  {
    var block := FreshBlock(7, 5, None).(destroyAtCommit := true);
    AsWrittenRevisitsDestroyed(map[7 := block], Some(7), 7);
  }
}
