/**
 * Pages of the region allocator: their identity, the configuration constants
 * that size them, and the batch in which they are requested from the system.
 */
module Pages {
  /** A page, named by an identifier; fresh identifiers stand for fresh memory. */
  type PageId = nat

  /** Words of payload in one page (MR_REGION_PAGE_SPACE_SIZE). */
  const PAGE_SPACE_SIZE: nat := 256

  /**
   * Words taken by a region's control block at the start of its first page
   * (word_sizeof(MR_Region)): one word per field of the block.
   */
  const REGION_HEADER_SIZE: nat := 12

  /** Pages obtained from the system allocator in one request. */
  const NUM_PAGES_TO_REQUEST: nat := 100

  /** Words per entry of the saved-region area of a commit frame. */
  const COMMIT_ENTRY_SIZE: nat := 1

  /** A word address: a page and a word offset into its payload. */
  datatype Addr = Addr(page: PageId, offset: nat)

  /** No page is listed twice. */
  predicate NoDup(s: seq<PageId>)
  {
    forall i, j :: 0 <= i < j < |s| ==> s[i] != s[j]
  }

  /**
   * A freshly requested batch of pages numbered from `base`, read as a linked
   * list from its head: the last page of the batch comes first, each page
   * links to the one before it in memory, and the first page ends the list.
   */
  function BatchFrom(base: PageId): (batch: seq<PageId>)
    ensures |batch| == NUM_PAGES_TO_REQUEST
  {
    seq(NUM_PAGES_TO_REQUEST, k => base + (NUM_PAGES_TO_REQUEST - 1 - k))
  }

  /** A batch holds each of its pages once, and only pages numbered from `base`. */
  lemma BatchFresh(base: PageId)
    ensures NoDup(BatchFrom(base))
    ensures forall k :: 0 <= k < NUM_PAGES_TO_REQUEST ==>
      base <= BatchFrom(base)[k] < base + NUM_PAGES_TO_REQUEST
  {
  }

  /**
   * Chains the pages of a new batch: page 0 ends the list and every later
   * page is linked in front of its predecessor, so the list runs from the
   * last page down to the first.
   */
  method ChainBatch(base: PageId) returns (chain: seq<PageId>)
    ensures chain == BatchFrom(base)
    ensures chain[0] == base + NUM_PAGES_TO_REQUEST - 1
    ensures chain[NUM_PAGES_TO_REQUEST - 1] == base
  {
    chain := [base];
    var i := 1;
    while i < NUM_PAGES_TO_REQUEST
      invariant 1 <= i <= NUM_PAGES_TO_REQUEST
      invariant |chain| == i
      invariant forall k :: 0 <= k < i ==> chain[k] == base + (i - 1 - k)
    {
      chain := [base + i] + chain;
      i := i + 1;
    }
  }
}
