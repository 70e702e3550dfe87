/**
 * The region control block and the live-region list, stated over values:
 * the invariants the allocator keeps and the facts that linking a region at
 * the head and unlinking one anywhere preserve them.
 */
module Registry {
  import opened Wrappers
  import opened Pages
  import opened Frames

  /**
   * The control block of a live region, stored at the start of its first
   * page. The region is named by that first page.
   */
  datatype Region = Region(
    pages: seq<PageId>,         // the page chain, first page through last page
    cursor: Addr,               // next available word
    available: nat,             // words left on the last page
    removalCounter: nat,
    seqNo: nat,                 // creation ordinal
    logicalRemoved: bool,
    ite: Frame?,                // ite frame protecting the region
    disj: Frame?,               // disj frame protecting the region
    commit: Frame?,             // commit frame saving the region
    destroyAtCommit: bool,
    prev: Option<PageId>,       // newer neighbour in the live-region list
    next: Option<PageId>)       // older neighbour in the live-region list
  {
    /** The tail page, where allocation happens. */
    function LastPage(): (page: PageId)
      requires pages != []
    {
      pages[|pages| - 1]
    }

    /** The block with its list links blanked: everything the list surgery must not touch. */
    function WithoutLinks(): (rec: Region)
    {
      this.(prev := None, next := None)
    }
  }

  /** The elements of `s` that are not in `d`, in their order. */
  function Filter(s: seq<PageId>, d: set<PageId>): (t: seq<PageId>)
    ensures |t| <= |s|
  {
    if s == [] then []
    else if s[0] in d then Filter(s[1..], d)
    else [s[0]] + Filter(s[1..], d)
  }

  /** Filtering keeps exactly the members outside `d`. */
  lemma {:induction false} FilterMembers(s: seq<PageId>, d: set<PageId>)
    ensures forall x :: x in Filter(s, d) <==> x in s && x !in d
  {
    if s != [] {
      FilterMembers(s[1..], d);
      assert s == [s[0]] + s[1..];
    }
  }

  /** Filtering a concatenation filters each part. */
  lemma {:induction false} FilterConcat(a: seq<PageId>, b: seq<PageId>, d: set<PageId>)
    ensures Filter(a + b, d) == Filter(a, d) + Filter(b, d)
  {
    if a == [] {
      assert a + b == b;
    } else {
      assert (a + b)[1..] == a[1..] + b;
      FilterConcat(a[1..], b, d);
    }
  }

  /** Filtering by a set that holds none of the elements changes nothing. */
  lemma {:induction false} FilterNone(s: seq<PageId>, d: set<PageId>)
    requires forall i :: 0 <= i < |s| ==> s[i] !in d
    ensures Filter(s, d) == s
  {
    if s != [] {
      FilterNone(s[1..], d);
    }
  }

  /** Removing members of `d` and then of `e` removes the members of both. */
  lemma {:induction false} FilterTwice(s: seq<PageId>, d: set<PageId>, e: set<PageId>)
    ensures Filter(Filter(s, d), e) == Filter(s, d + e)
  {
    if s != [] {
      FilterTwice(s[1..], d, e);
    }
  }

  /** In a list without repetitions, filtering out one member cuts it out at its position. */
  lemma {:induction false} FilterAt(s: seq<PageId>, i: nat)
    requires NoDup(s) && i < |s|
    ensures Filter(s, {s[i]}) == s[..i] + s[i + 1..]
  {
    var x := s[i];
    if i == 0 {
      forall k | 0 <= k < |s[1..]|
        ensures s[1..][k] !in {x}
      {
        assert s[1..][k] == s[k + 1];
      }
      FilterNone(s[1..], {x});
    } else {
      assert s[0] != x;
      var t := s[1..];
      assert NoDup(t) by {
        forall a, b | 0 <= a < b < |t|
          ensures t[a] != t[b]
        {
          assert t[a] == s[a + 1] && t[b] == s[b + 1];
        }
      }
      assert t[i - 1] == x;
      FilterAt(t, i - 1);
      assert [s[0]] + t[..i - 1] == s[..i];
      assert t[i..] == s[i + 1..];
    }
  }

  /** Every listed region is live, every live region is listed, and none twice. */
  ghost predicate ListsLive(live: seq<PageId>, regions: map<PageId, Region>)
  {
    NoDup(live) && (forall r {:trigger r in live} :: r in regions <==> r in live)
  }

  /** The record at position `i` of the list is live and its links name its neighbours there. */
  ghost predicate LinkOk(live: seq<PageId>, regions: map<PageId, Region>, i: nat)
    requires i < |live|
  {
    live[i] in regions &&
    regions[live[i]].next == (if i + 1 < |live| then Some(live[i + 1]) else None) &&
    (0 < i ==> regions[live[i]].prev == Some(live[i - 1]))
  }

  /** Each listed record's links name its neighbours; the head's previous link is left free. */
  ghost predicate LinksAgree(live: seq<PageId>, regions: map<PageId, Region>)
  {
    (forall i :: 0 <= i < |live| ==> live[i] in regions) &&
    (forall i {:trigger LinkOk(live, regions, i)} :: 0 <= i < |live| ==> LinkOk(live, regions, i))
  }


  /**
   * The live-region list, newest first: `head` names its first region, the
   * list holds exactly the live regions, and each record's links name its
   * neighbours. The head's previous link is left free: unlinking the head
   * does not reset it, and nothing reads it.
   */
  ghost predicate Registered(head: Option<PageId>, live: seq<PageId>, regions: map<PageId, Region>)
  {
    ListsLive(live, regions) &&
    head == (if live == [] then None else Some(live[0])) &&
    LinksAgree(live, regions)
  }

  /** Sequence numbers strictly decrease from the head of the list to its tail. */
  ghost predicate NewestFirst(live: seq<PageId>, regions: map<PageId, Region>)
  {
    forall i, j :: 0 <= i < j < |live| && live[i] in regions && live[j] in regions ==>
      regions[live[i]].seqNo > regions[live[j]].seqNo
  }

  /**
   * A control block that describes its region: its page chain starts with
   * the region's own first page and repeats no page, the cursor sits on the
   * last page with exactly `available` words after it, on the first page the
   * cursor stays clear of the control block, and the frames it refers to are
   * well formed, with the ite and disj frames separate from the commit chain.
   */
  ghost predicate WellShaped(r: PageId, rec: Region)
  {
    rec.pages != [] && rec.pages[0] == r && NoDup(rec.pages) &&
    rec.cursor.page == rec.LastPage() &&
    rec.cursor.offset + rec.available == PAGE_SPACE_SIZE &&
    (|rec.pages| == 1 ==> REGION_HEADER_SIZE <= rec.cursor.offset) &&
    FrameOk(rec.ite) && FrameOk(rec.disj) && ChainOk(rec.commit) &&
    (rec.ite != null ==> rec.ite.slots !in ChainSlots(rec.commit))
  }

  /**
   * Page accounting: the free list repeats no page and holds no page of a
   * region, every page of a region is owned by that region alone, and every
   * page in use was handed out by the system allocator (is below `bound`).
   */
  ghost predicate PagesAccounted(free: seq<PageId>, regions: map<PageId, Region>,
                                 owner: map<PageId, PageId>, bound: nat)
  {
    NoDup(free) &&
    (forall i :: 0 <= i < |free| ==> free[i] !in owner && free[i] < bound) &&
    (forall r, i :: r in regions && 0 <= i < |regions[r].pages| ==>
      regions[r].pages[i] in owner && owner[regions[r].pages[i]] == r) &&
    (forall p :: p in owner ==> p < bound)
  }

  /**
   * Taking a page from the pool: the head of the free list when there is
   * one; otherwise the head of a fresh batch, whose other pages become the
   * free list.
   */
  ghost predicate TakesPage(free: seq<PageId>, bound: nat, page: PageId, free': seq<PageId>, bound': nat)
  {
    if free != [] then
      page == free[0] && free' == free[1..] && bound' == bound
    else
      page == BatchFrom(bound)[0] && free' == BatchFrom(bound)[1..] &&
      bound' == bound + NUM_PAGES_TO_REQUEST
  }

  /** A page taken from an accounted pool is in no region and no longer free. */
  lemma TakenPageIsUnowned(free: seq<PageId>, regions: map<PageId, Region>, owner: map<PageId, PageId>,
                           bound: nat, page: PageId, free': seq<PageId>, bound': nat)
    requires PagesAccounted(free, regions, owner, bound)
    requires TakesPage(free, bound, page, free', bound')
    ensures page !in owner && page < bound' && page !in free'
    ensures PagesAccounted(free', regions, owner, bound')
  {
    if free == [] {
      BatchFresh(bound);
      var b := BatchFrom(bound);
      assert page == b[0];
      forall i | 0 <= i < |free'|
        ensures free'[i] !in owner && free'[i] < bound'
      {
        assert free'[i] == b[i + 1];
      }
    }
  }

  /** The live region at position `i` of the list, located from a live handle. */
  lemma IndexOfLive(head: Option<PageId>, live: seq<PageId>, regions: map<PageId, Region>, r: PageId)
    returns (i: nat)
    requires Registered(head, live, regions) && r in regions
    ensures i < |live| && live[i] == r
  {
    assert r in live;
    i :| 0 <= i < |live| && live[i] == r;
  }

  /**
   * Linking a new region in front of the list: the new record's next link is
   * the old head, the old head's previous link is the new region, and no
   * other link changes. The result is the list with the region in front.
   */
  lemma PushKeepsRegistry(head: Option<PageId>, live: seq<PageId>, regions: map<PageId, Region>,
                          r: PageId, regions': map<PageId, Region>)
    requires Registered(head, live, regions) && r !in regions
    requires regions'.Keys == regions.Keys + {r}
    requires regions'[r].next == head
    requires head.Some? ==> regions'[head.value].prev == Some(r)
    requires forall q :: q in regions ==> regions'[q].next == regions[q].next
    requires forall q :: q in regions && Some(q) != head ==> regions'[q].prev == regions[q].prev
    ensures Registered(Some(r), [r] + live, regions')
  {
    var live' := [r] + live;
    assert ListsLive(live', regions') by {
      forall a, b | 0 <= a < b < |live'|
        ensures live'[a] != live'[b]
      {
        assert live'[b] == live[b - 1];
        if a > 0 {
          assert live'[a] == live[a - 1];
        } else {
          assert live[b - 1] in regions;
        }
      }
      forall q
        ensures q in regions' <==> q in live'
      {
        assert q in regions' <==> q in regions || q == r;
        assert q in live' <==> q in live || q == r;
      }
    }
    assert LinksAgree(live', regions') by {
      forall i | 0 <= i < |live'|
        ensures live'[i] in regions' && LinkOk(live', regions', i)
      {
        if i > 0 {
          LinkAt(live, regions, i - 1);
          assert live'[i] == live[i - 1];
          if i > 1 {
            assert live[i - 1] != live[0];
            assert Some(live[i - 1]) != head;
          }
        } else if live != [] {
          assert live'[1] == live[0];
        }
      }
    }
  }

  /** Cutting position `i` out of a list shifts the later elements down by one. */
  lemma CutAt(s: seq<PageId>, i: nat)
    requires i < |s|
    ensures |s[..i] + s[i + 1..]| == |s| - 1
    ensures forall k :: 0 <= k < |s| - 1 ==> (s[..i] + s[i + 1..])[k] == (if k < i then s[k] else s[k + 1])
  {
  }

  /** Cutting a live region out of the list leaves exactly the other live regions, once each. */
  lemma CutKeepsListsLive(live: seq<PageId>, regions: map<PageId, Region>, i: nat, regions': map<PageId, Region>)
    requires ListsLive(live, regions) && i < |live|
    requires regions'.Keys == regions.Keys - {live[i]}
    ensures ListsLive(live[..i] + live[i + 1..], regions')
  {
    var live' := live[..i] + live[i + 1..];
    CutAt(live, i);
    forall a, b | 0 <= a < b < |live'|
      ensures live'[a] != live'[b]
    {
      var a0 := if a < i then a else a + 1;
      var b0 := if b < i then b else b + 1;
      assert live'[a] == live[a0] && live'[b] == live[b0];
    }
    forall q
      ensures q in regions' <==> q in live'
    {
      if q in live' {
        var k :| 0 <= k < |live'| && live'[k] == q;
        var k0 := if k < i then k else k + 1;
        assert q == live[k0] && k0 != i;
        assert q in live && q != live[i];
      }
      if q in regions' {
        assert q in live;
        var k :| 0 <= k < |live| && live[k] == q;
        assert k != i;
        assert q == live'[if k < i then k else k - 1];
      }
    }
  }

  /** The rewiring of links that unlinking the region at position `i` performs. */
  ghost predicate Rewired(live: seq<PageId>, regions: map<PageId, Region>, i: nat, regions': map<PageId, Region>)
    requires i < |live| && live[i] in regions
  {
    regions'.Keys == regions.Keys - {live[i]} &&
    (0 < i ==> live[i - 1] in regions' && regions'[live[i - 1]].next == regions[live[i]].next) &&
    (0 < i && i + 1 < |live| ==> live[i + 1] in regions' && regions'[live[i + 1]].prev == regions[live[i]].prev) &&
    (forall q :: q in regions' && (i == 0 || q != live[i - 1]) ==> regions'[q].next == regions[q].next) &&
    (forall q :: q in regions' && (i == 0 || i + 1 == |live| || q != live[i + 1]) ==>
      regions'[q].prev == regions[q].prev)
  }

  /** The links of the region at position `k` of the list. */
  lemma LinkAt(live: seq<PageId>, regions: map<PageId, Region>, k: nat)
    requires LinksAgree(live, regions) && k < |live|
    ensures live[k] in regions
    ensures regions[live[k]].next == (if k + 1 < |live| then Some(live[k + 1]) else None)
    ensures 0 < k ==> regions[live[k]].prev == Some(live[k - 1])
  {
    assert LinkOk(live, regions, k);
  }

  /** After the rewiring, the region at position `k` of the cut list links forward to its new neighbour. */
  lemma RewiredNextAt(live: seq<PageId>, regions: map<PageId, Region>, i: nat, regions': map<PageId, Region>, k: nat)
    requires ListsLive(live, regions) && LinksAgree(live, regions) && i < |live|
    requires Rewired(live, regions, i, regions')
    requires k < |live| - 1
    ensures var live' := live[..i] + live[i + 1..];
      live'[k] in regions' &&
      regions'[live'[k]].next == (if k + 1 < |live'| then Some(live'[k + 1]) else None)
  {
    var live' := live[..i] + live[i + 1..];
    CutAt(live, i);
    var k0 := if k < i then k else k + 1;
    assert live'[k] == live[k0] && k0 != i && live[k0] != live[i];
    assert live[k0] in regions;
    if k + 1 < |live'| {
      assert live'[k + 1] == live[if k + 1 < i then k + 1 else k + 2];
    }
    if 0 < i && k0 == i - 1 {
      LinkAt(live, regions, i);
      assert regions'[live'[k]].next == regions[live[i]].next;
    } else {
      assert i == 0 || live[k0] != live[i - 1];
      assert regions'[live'[k]].next == regions[live[k0]].next;
      LinkAt(live, regions, k0);
      assert k0 + 1 < |live| <==> k + 1 < |live'|;
      if k + 1 < |live'| {
        assert k0 + 1 != i;
        assert live'[k + 1] == live[k0 + 1];
      }
    }
  }

  /** After the rewiring, the region at position `k > 0` of the cut list links back to its new neighbour. */
  lemma RewiredPrevAt(live: seq<PageId>, regions: map<PageId, Region>, i: nat, regions': map<PageId, Region>, k: nat)
    requires ListsLive(live, regions) && LinksAgree(live, regions) && i < |live|
    requires Rewired(live, regions, i, regions')
    requires 0 < k < |live| - 1
    ensures var live' := live[..i] + live[i + 1..];
      live'[k] in regions' && regions'[live'[k]].prev == Some(live'[k - 1])
  {
    var live' := live[..i] + live[i + 1..];
    CutAt(live, i);
    var k0 := if k < i then k else k + 1;
    assert live'[k] == live[k0] && k0 != i && live[k0] != live[i];
    assert live[k0] in regions;
    assert live'[k - 1] == live[if k - 1 < i then k - 1 else k];
    if 0 < i && k0 == i + 1 {
      LinkAt(live, regions, i);
      assert regions'[live'[k]].prev == regions[live[i]].prev;
    } else {
      LinkAt(live, regions, k0);
      assert i == 0 || i + 1 == |live| || live[k0] != live[i + 1];
      assert regions'[live'[k]].prev == regions[live[k0]].prev;
    }
  }

  /**
   * Unlinking the region at position `i`: at the head the list head moves
   * to its next region; elsewhere its previous region's next link skips it
   * and, unless it is the tail, its next region's previous link skips it
   * back. No other link changes and the region's record goes away. The
   * result is the list without it, in the same order.
   */
  lemma UnlinkKeepsRegistry(head: Option<PageId>, live: seq<PageId>, regions: map<PageId, Region>,
                            i: nat, head': Option<PageId>, regions': map<PageId, Region>)
    requires Registered(head, live, regions) && i < |live|
    requires Rewired(live, regions, i, regions')
    requires head' == if i == 0 then regions[live[i]].next else head
    ensures Registered(head', live[..i] + live[i + 1..], regions')
  {
    var live' := live[..i] + live[i + 1..];
    CutKeepsListsLive(live, regions, i, regions');
    assert LinksAgree(live', regions') by {
      CutAt(live, i);
      forall k | 0 <= k < |live'|
        ensures live'[k] in regions' && LinkOk(live', regions', k)
      {
        RewiredNextAt(live, regions, i, regions', k);
        if 0 < k {
          RewiredPrevAt(live, regions, i, regions', k);
        }
      }
    }
    assert head' == (if live' == [] then None else Some(live'[0])) by {
      CutAt(live, i);
      LinkAt(live, regions, i);
      if i == 0 && |live| > 1 {
        assert live'[0] == live[1];
      } else if i > 0 {
        assert live'[0] == live[0];
      }
    }
  }

  /** Dropping regions from a newest-first list keeps it newest first, given the survivors keep their numbers. */
  lemma NewestFirstSublist(live: seq<PageId>, regions: map<PageId, Region>, i: nat, regions': map<PageId, Region>)
    requires NewestFirst(live, regions) && i < |live|
    requires forall q :: q in regions' ==> q in regions && regions'[q].seqNo == regions[q].seqNo
    ensures NewestFirst(live[..i] + live[i + 1..], regions')
  {
    var live' := live[..i] + live[i + 1..];
    forall a, b | 0 <= a < b < |live'| && live'[a] in regions' && live'[b] in regions'
      ensures regions'[live'[a]].seqNo > regions'[live'[b]].seqNo
    {
      var a0 := if a < i then a else a + 1;
      var b0 := if b < i then b else b + 1;
      assert live'[a] == live[a0] && live'[b] == live[b0];
    }
  }

  /** A new region at the head with the highest number keeps the list newest first. */
  lemma PushKeepsNewestFirst(live: seq<PageId>, regions: map<PageId, Region>, r: PageId,
                             regions': map<PageId, Region>, counter: nat)
    requires NewestFirst(live, regions)
    requires forall q :: q in regions ==> regions[q].seqNo < counter
    requires forall j :: 0 <= j < |live| ==> live[j] in regions && live[j] != r
    requires r in regions' && regions'[r].seqNo == counter
    requires forall q :: q in regions && q in regions' ==> regions'[q].seqNo == regions[q].seqNo
    requires forall q :: q in regions' && q != r ==> q in regions
    ensures NewestFirst([r] + live, regions')
  {
    var live' := [r] + live;
    forall a, b | 0 <= a < b < |live'| && live'[a] in regions' && live'[b] in regions'
      ensures regions'[live'[a]].seqNo > regions'[live'[b]].seqNo
    {
      assert live'[b] == live[b - 1];
      if a > 0 {
        assert live'[a] == live[a - 1];
      }
    }
  }

  /** Giving page `page`, which nobody holds, to region `r` as its new last page keeps the accounts. */
  lemma AddPageKeepsAccounts(free: seq<PageId>, regions: map<PageId, Region>, owner: map<PageId, PageId>,
                             bound: nat, r: PageId, page: PageId, regions': map<PageId, Region>)
    requires PagesAccounted(free, regions, owner, bound)
    requires page !in owner && page < bound && page !in free
    requires regions'.Keys == regions.Keys + {r}
    requires forall q :: q in regions' && q != r ==> regions'[q].pages == regions[q].pages
    requires regions'[r].pages == (if r in regions then regions[r].pages else []) + [page]
    ensures PagesAccounted(free, regions', owner[page := r], bound)
  {
    var owner' := owner[page := r];
    forall q, i | q in regions' && 0 <= i < |regions'[q].pages|
      ensures regions'[q].pages[i] in owner' && owner'[regions'[q].pages[i]] == q
    {
      if q == r && i == |regions'[q].pages| - 1 {
        assert regions'[q].pages[i] == page;
      } else {
        assert regions'[q].pages[i] == regions[q].pages[i];
      }
    }
  }

  /** Returning region `r`'s pages to the front of the free list and dropping it keeps the accounts. */
  lemma ReleaseKeepsAccounts(free: seq<PageId>, regions: map<PageId, Region>, owner: map<PageId, PageId>,
                             bound: nat, r: PageId, regions': map<PageId, Region>)
    requires PagesAccounted(free, regions, owner, bound) && r in regions && NoDup(regions[r].pages)
    requires regions'.Keys == regions.Keys - {r}
    requires forall q :: q in regions' ==> regions'[q].pages == regions[q].pages
    ensures PagesAccounted(regions[r].pages + free, regions',
                           map p | p in owner && owner[p] != r :: owner[p], bound)
  {
    var owner' := map p | p in owner && owner[p] != r :: owner[p];
    var pages := regions[r].pages;
    var free' := pages + free;
    forall a, b | 0 <= a < b < |free'|
      ensures free'[a] != free'[b]
    {
      if b < |pages| {
      } else if a < |pages| {
        assert free'[a] == pages[a] && free'[a] in owner;
        assert free'[b] == free[b - |pages|];
      } else {
        assert free'[a] == free[a - |pages|] && free'[b] == free[b - |pages|];
      }
    }
    forall i | 0 <= i < |free'|
      ensures free'[i] !in owner' && free'[i] < bound
    {
      if i < |pages| {
        assert free'[i] == pages[i] && owner[pages[i]] == r;
      } else {
        assert free'[i] == free[i - |pages|];
      }
    }
    forall q, i | q in regions' && 0 <= i < |regions'[q].pages|
      ensures regions'[q].pages[i] in owner' && owner'[regions'[q].pages[i]] == q
    {
      assert regions'[q].pages[i] == regions[q].pages[i];
    }
  }

  /** Every control block describes its region and has a number below `counter`. */
  ghost predicate ShapesOk(regions: map<PageId, Region>, counter: nat)
  {
    (forall r :: r in regions ==> regions[r].seqNo < counter) &&
    (forall r {:trigger WellShaped(r, regions[r])} :: r in regions ==> WellShaped(r, regions[r]))
  }

  /**
   * The allocator's invariant over its state: the free list `free`, the
   * list head `head`, the live list `live`, the control blocks `regions`,
   * the sequence counter `counter`, the page owners `owner` and the first
   * page `bound` not yet obtained from the system.
   */
  ghost predicate Consistent(free: seq<PageId>, head: Option<PageId>, live: seq<PageId>,
                             regions: map<PageId, Region>, counter: nat,
                             owner: map<PageId, PageId>, bound: nat)
  {
    Registered(head, live, regions) &&
    NewestFirst(live, regions) &&
    ShapesOk(regions, counter) &&
    PagesAccounted(free, regions, owner, bound)
  }

  /** A live region's own first page is a page in use, never free. */
  lemma HandleIsOwned(free: seq<PageId>, regions: map<PageId, Region>, counter: nat,
                      owner: map<PageId, PageId>, bound: nat, r: PageId)
    requires ShapesOk(regions, counter) && PagesAccounted(free, regions, owner, bound) && r in regions
    ensures r in owner && owner[r] == r
  {
    assert WellShaped(r, regions[r]);
    assert regions[r].pages[0] == r;
  }

  /** Changing one record in place, links aside, keeps the list. */
  lemma RecordChangeKeepsRegistry(head: Option<PageId>, live: seq<PageId>, regions: map<PageId, Region>,
                                  r: PageId, regions': map<PageId, Region>)
    requires Registered(head, live, regions) && r in regions
    requires regions'.Keys == regions.Keys
    requires regions'[r].prev == regions[r].prev && regions'[r].next == regions[r].next
    requires forall q :: q in regions && q != r ==> regions'[q] == regions[q]
    ensures Registered(head, live, regions')
  {
    forall i | 0 <= i < |live|
      ensures live[i] in regions'
      ensures regions'[live[i]].next == (if i + 1 < |live| then Some(live[i + 1]) else None)
      ensures 0 < i ==> regions'[live[i]].prev == Some(live[i - 1])
    {
      LinkAt(live, regions, i);
    }
  }

  /** Changing one record in place, its number aside, keeps the list newest first. */
  lemma RecordChangeKeepsNewestFirst(live: seq<PageId>, regions: map<PageId, Region>,
                                     r: PageId, regions': map<PageId, Region>)
    requires NewestFirst(live, regions) && r in regions
    requires regions'.Keys == regions.Keys && regions'[r].seqNo == regions[r].seqNo
    requires forall q :: q in regions && q != r ==> regions'[q] == regions[q]
    ensures NewestFirst(live, regions')
  {
  }

  /** Changing one record in place, its pages aside, keeps the page accounts. */
  lemma RecordChangeKeepsAccounts(free: seq<PageId>, regions: map<PageId, Region>, owner: map<PageId, PageId>,
                                  bound: nat, r: PageId, regions': map<PageId, Region>)
    requires PagesAccounted(free, regions, owner, bound) && r in regions
    requires regions'.Keys == regions.Keys && regions'[r].pages == regions[r].pages
    requires forall q :: q in regions && q != r ==> regions'[q] == regions[q]
    ensures PagesAccounted(free, regions', owner, bound)
  {
    forall q, i | q in regions' && 0 <= i < |regions'[q].pages|
      ensures regions'[q].pages[i] in owner && owner[regions'[q].pages[i]] == q
    {
      assert regions'[q].pages == regions[q].pages;
    }
  }

  /** Changing one record in place, with a shape that still fits, keeps all shapes. */
  lemma RecordChangeKeepsShapes(regions: map<PageId, Region>, counter: nat, r: PageId, regions': map<PageId, Region>)
    requires ShapesOk(regions, counter) && r in regions
    requires regions'.Keys == regions.Keys
    requires regions'[r].seqNo < counter && WellShaped(r, regions'[r])
    requires forall q :: q in regions && q != r ==> regions'[q] == regions[q]
    ensures ShapesOk(regions', counter)
  {
  }

  /** Changing one record in place, links, number and pages aside, keeps the invariant. */
  lemma RecordChangeKeepsConsistent(free: seq<PageId>, head: Option<PageId>, live: seq<PageId>,
                                    regions: map<PageId, Region>, counter: nat, owner: map<PageId, PageId>, bound: nat,
                                    r: PageId, block: Region)
    requires Consistent(free, head, live, regions, counter, owner, bound) && r in regions
    requires block.prev == regions[r].prev && block.next == regions[r].next
    requires block.seqNo == regions[r].seqNo && block.pages == regions[r].pages
    requires WellShaped(r, block)
    ensures Consistent(free, head, live, regions[r := block], counter, owner, bound)
  {
    var regions' := regions[r := block];
    RecordChangeKeepsRegistry(head, live, regions, r, regions');
    RecordChangeKeepsNewestFirst(live, regions, r, regions');
    RecordChangeKeepsAccounts(free, regions, owner, bound, r, regions');
    RecordChangeKeepsShapes(regions, counter, r, regions');
  }

  /** Moving region `r`'s cursor forward by `words` that fit on the last page keeps the invariant. */
  lemma BumpKeepsConsistent(free: seq<PageId>, head: Option<PageId>, live: seq<PageId>,
                            regions: map<PageId, Region>, counter: nat, owner: map<PageId, PageId>, bound: nat,
                            r: PageId, words: nat, block': Region)
    requires Consistent(free, head, live, regions, counter, owner, bound) && r in regions
    requires words <= regions[r].available
    requires block' == regions[r].(cursor := Addr(regions[r].cursor.page, regions[r].cursor.offset + words),
                                   available := regions[r].available - words)
    ensures Consistent(free, head, live, regions[r := block'], counter, owner, bound)
  {
    var block := regions[r];
    assert WellShaped(r, block);
    BumpKeepsShape(r, block, words);
    RecordChangeKeepsConsistent(free, head, live, regions, counter, owner, bound, r, block');
  }

  /** Moving the cursor forward over words that are available keeps a block's shape. */
  lemma BumpKeepsShape(r: PageId, block: Region, words: nat)
    requires WellShaped(r, block) && words <= block.available
    ensures WellShaped(r, block.(cursor := Addr(block.cursor.page, block.cursor.offset + words),
                                 available := block.available - words))
  {
  }

  /** Giving region `r` a detached page as its new last page, with the cursor at its start, keeps the invariant. */
  lemma ExtendKeepsConsistent(free: seq<PageId>, head: Option<PageId>, live: seq<PageId>,
                              regions: map<PageId, Region>, counter: nat, owner: map<PageId, PageId>, bound: nat,
                              r: PageId, page: PageId, block': Region)
    requires Consistent(free, head, live, regions, counter, owner, bound) && r in regions
    requires page !in owner && page < bound && page !in free
    requires block' == regions[r].(pages := regions[r].pages + [page], cursor := Addr(page, 0),
                                   available := PAGE_SPACE_SIZE)
    ensures Consistent(free, head, live, regions[r := block'], counter, owner[page := r], bound)
  {
    var block := regions[r];
    var regions' := regions[r := block'];
    assert WellShaped(r, block);
    assert WellShaped(r, block') by {
      forall a, b | 0 <= a < b < |block'.pages|
        ensures block'.pages[a] != block'.pages[b]
      {
        if b == |block.pages| {
          assert block'.pages[a] == block.pages[a] && block.pages[a] in owner;
        } else {
          assert block'.pages[a] == block.pages[a] && block'.pages[b] == block.pages[b];
        }
      }
    }
    RecordChangeKeepsRegistry(head, live, regions, r, regions');
    RecordChangeKeepsNewestFirst(live, regions, r, regions');
    RecordChangeKeepsShapes(regions, counter, r, regions');
    AddPageKeepsAccounts(free, regions, owner, bound, r, page, regions');
  }

  /** The control block of a region just created on page `r`, numbered `seqNo`, in front of `next`. */
  function FreshBlock(r: PageId, seqNo: nat, next: Option<PageId>): (block: Region)
  {
    Region([r], Addr(r, REGION_HEADER_SIZE), PAGE_SPACE_SIZE - REGION_HEADER_SIZE,
           1, seqNo, false, null, null, null, false, None, next)
  }

  /** The records after a creation: the old head points back to `r`, and `r` has a fresh block. */
  function Pushed(regions: map<PageId, Region>, head: Option<PageId>, r: PageId, counter: nat): (regions': map<PageId, Region>)
  {
    var relinked := if head.Some? && head.value in regions
                    then regions[head.value := regions[head.value].(prev := Some(r))]
                    else regions;
    relinked[r := FreshBlock(r, counter, head)]
  }

  /** Pushing a fresh block onto the list keeps it a well-linked list with the block in front. */
  lemma PushedKeepsRegistry(head: Option<PageId>, live: seq<PageId>, regions: map<PageId, Region>,
                            r: PageId, counter: nat)
    requires Registered(head, live, regions) && r !in regions
    ensures Registered(Some(r), [r] + live, Pushed(regions, head, r, counter))
  {
    var regions' := Pushed(regions, head, r, counter);
    if head.Some? {
      assert live[0] in regions;
    }
    assert regions'.Keys == regions.Keys + {r};
    PushKeepsRegistry(head, live, regions, r, regions');
  }

  /** Pushing a fresh block changes nothing in the other records but links. */
  lemma PushedKeepsRecords(regions: map<PageId, Region>, head: Option<PageId>, r: PageId, counter: nat)
    requires r !in regions
    ensures Pushed(regions, head, r, counter).Keys == regions.Keys + {r}
    ensures forall q :: q in regions ==>
      Pushed(regions, head, r, counter)[q].WithoutLinks() == regions[q].WithoutLinks()
    ensures Pushed(regions, head, r, counter)[r] == FreshBlock(r, counter, head)
    ensures forall q :: q in regions ==> Pushed(regions, head, r, counter)[q].next == regions[q].next
    ensures forall q :: q in regions && Some(q) != head ==> Pushed(regions, head, r, counter)[q].prev == regions[q].prev
    ensures head.Some? && head.value in regions ==> Pushed(regions, head, r, counter)[head.value].prev == Some(r)
  {
  }

  /** Relinking records and adding a new block numbered `counter` keeps all shapes under the next counter. */
  lemma CreateKeepsShapes(regions: map<PageId, Region>, counter: nat, r: PageId, regions': map<PageId, Region>)
    requires ShapesOk(regions, counter)
    requires regions'.Keys == regions.Keys + {r} && r !in regions
    requires forall q :: q in regions ==> regions'[q].WithoutLinks() == regions[q].WithoutLinks()
    requires regions'[r].seqNo == counter && WellShaped(r, regions'[r])
    ensures ShapesOk(regions', counter + 1)
  {
    forall q | q in regions'
      ensures regions'[q].seqNo < counter + 1 && WellShaped(q, regions'[q])
    {
      if q != r {
        assert regions'[q].WithoutLinks() == regions[q].WithoutLinks();
        assert WellShaped(q, regions[q]);
      }
    }
  }

  /** Pushing a fresh block numbered above every other keeps the list newest first. */
  lemma PushedKeepsNewestFirst(head: Option<PageId>, live: seq<PageId>, regions: map<PageId, Region>,
                               r: PageId, counter: nat)
    requires ListsLive(live, regions) && NewestFirst(live, regions) && ShapesOk(regions, counter)
    requires r !in regions
    ensures NewestFirst([r] + live, Pushed(regions, head, r, counter))
  {
    var regions' := Pushed(regions, head, r, counter);
    PushedKeepsRecords(regions, head, r, counter);
    forall q | q in regions && q in regions'
      ensures regions'[q].seqNo == regions[q].seqNo
    {
      assert regions'[q].WithoutLinks() == regions[q].WithoutLinks();
    }
    forall j | 0 <= j < |live|
      ensures live[j] in regions && live[j] != r
    {
      assert live[j] in live;
    }
    PushKeepsNewestFirst(live, regions, r, regions', counter);
  }

  /** Pushing a fresh block keeps every shape, under the next counter. */
  lemma PushedKeepsShapes(head: Option<PageId>, regions: map<PageId, Region>, r: PageId, counter: nat)
    requires ShapesOk(regions, counter) && r !in regions
    ensures ShapesOk(Pushed(regions, head, r, counter), counter + 1)
  {
    PushedKeepsRecords(regions, head, r, counter);
    assert WellShaped(r, FreshBlock(r, counter, head));
    CreateKeepsShapes(regions, counter, r, Pushed(regions, head, r, counter));
  }

  /** Pushing a fresh block on a page nobody holds gives that page to the new region. */
  lemma PushedKeepsAccounts(free: seq<PageId>, head: Option<PageId>, regions: map<PageId, Region>,
                            owner: map<PageId, PageId>, bound: nat, r: PageId, counter: nat)
    requires PagesAccounted(free, regions, owner, bound) && r !in regions
    requires r !in owner && r < bound && r !in free
    ensures PagesAccounted(free, Pushed(regions, head, r, counter), owner[r := r], bound)
  {
    PushedKeepsRecords(regions, head, r, counter);
    var regions' := Pushed(regions, head, r, counter);
    forall q | q in regions' && q != r
      ensures regions'[q].pages == regions[q].pages
    {
      assert regions'[q].WithoutLinks() == regions[q].WithoutLinks();
    }
    AddPageKeepsAccounts(free, regions, owner, bound, r, r, regions');
  }

  /** Creating a region on a detached page keeps the invariant. */
  lemma CreateKeepsConsistent(free: seq<PageId>, head: Option<PageId>, live: seq<PageId>,
                              regions: map<PageId, Region>, counter: nat, owner: map<PageId, PageId>, bound: nat,
                              r: PageId, regions': map<PageId, Region>)
    requires Consistent(free, head, live, regions, counter, owner, bound)
    requires r !in owner && r < bound && r !in free
    requires regions' == Pushed(regions, head, r, counter)
    ensures r !in regions
    ensures Consistent(free, Some(r), [r] + live, regions', counter + 1, owner[r := r], bound)
  {
    assert r !in regions by {
      if r in regions {
        HandleIsOwned(free, regions, counter, owner, bound, r);
      }
    }
    PushedKeepsRegistry(head, live, regions, r, counter);
    PushedKeepsNewestFirst(head, live, regions, r, counter);
    PushedKeepsShapes(head, regions, r, counter);
    PushedKeepsAccounts(free, head, regions, owner, bound, r, counter);
  }

  /**
   * The records after unlinking region `r`: unless it is the head, its
   * previous region's next link skips it and its next region's previous
   * link skips it back; then its record goes away.
   */
  function Unlinked(regions: map<PageId, Region>, head: Option<PageId>, r: PageId): (regions': map<PageId, Region>)
    requires r in regions
  {
    var block := regions[r];
    var relinked :=
      if head == Some(r) then regions
      else
        var skipped := if block.prev.Some? && block.prev.value in regions
                       then regions[block.prev.value := regions[block.prev.value].(next := block.next)]
                       else regions;
        if block.next.Some? && block.next.value in skipped
        then skipped[block.next.value := skipped[block.next.value].(prev := block.prev)]
        else skipped;
    relinked - {r}
  }

  /** Unlinking the region at position `i` of the list performs exactly the unlink rewiring. */
  lemma UnlinkedIsRewired(head: Option<PageId>, live: seq<PageId>, regions: map<PageId, Region>, i: nat)
    requires Registered(head, live, regions) && i < |live|
    ensures Rewired(live, regions, i, Unlinked(regions, head, live[i]))
    ensures forall q :: q in Unlinked(regions, head, live[i]) ==>
      q in regions && Unlinked(regions, head, live[i])[q].WithoutLinks() == regions[q].WithoutLinks()
  {
    var r := live[i];
    LinkAt(live, regions, i);
    if 0 < i {
      LinkAt(live, regions, i - 1);
      assert live[i - 1] != r && live[i - 1] in regions;
      assert head != Some(r) by {
        assert live[0] != live[i];
      }
      if i + 1 < |live| {
        assert live[i + 1] != r && live[i + 1] != live[i - 1];
      }
    }
  }

  /** Dropping records whose other contents are kept keeps every survivor's shape. */
  lemma DropKeepsShapes(regions: map<PageId, Region>, counter: nat, regions': map<PageId, Region>)
    requires ShapesOk(regions, counter)
    requires forall q :: q in regions' ==> q in regions && regions'[q].WithoutLinks() == regions[q].WithoutLinks()
    ensures ShapesOk(regions', counter)
  {
    forall q | q in regions'
      ensures regions'[q].seqNo < counter && WellShaped(q, regions'[q])
    {
      assert regions'[q].WithoutLinks() == regions[q].WithoutLinks();
      assert WellShaped(q, regions[q]);
    }
  }

  /** Dropping records whose numbers are kept keeps the list newest first. */
  lemma DropKeepsNewestFirst(live: seq<PageId>, regions: map<PageId, Region>, i: nat, regions': map<PageId, Region>)
    requires NewestFirst(live, regions) && i < |live|
    requires forall q :: q in regions' ==> q in regions && regions'[q].WithoutLinks() == regions[q].WithoutLinks()
    ensures NewestFirst(live[..i] + live[i + 1..], regions')
  {
    forall q | q in regions'
      ensures q in regions && regions'[q].seqNo == regions[q].seqNo
    {
      assert regions'[q].WithoutLinks() == regions[q].WithoutLinks();
    }
    NewestFirstSublist(live, regions, i, regions');
  }

  /** Dropping records whose pages are kept keeps the page accounts, with the dropped region's pages freed. */
  lemma DropKeepsAccounts(free: seq<PageId>, regions: map<PageId, Region>, owner: map<PageId, PageId>,
                          bound: nat, counter: nat, r: PageId, regions': map<PageId, Region>)
    requires PagesAccounted(free, regions, owner, bound) && ShapesOk(regions, counter) && r in regions
    requires regions'.Keys == regions.Keys - {r}
    requires forall q :: q in regions' ==> q in regions && regions'[q].WithoutLinks() == regions[q].WithoutLinks()
    ensures PagesAccounted(regions[r].pages + free, regions',
                           map p | p in owner && owner[p] != r :: owner[p], bound)
  {
    assert WellShaped(r, regions[r]);
    forall q | q in regions'
      ensures regions'[q].pages == regions[q].pages
    {
      assert regions'[q].WithoutLinks() == regions[q].WithoutLinks();
    }
    ReleaseKeepsAccounts(free, regions, owner, bound, r, regions');
  }

  /**
   * Destroying the region at position `i`: unlinking it, returning its pages
   * to the front of the free list and forgetting who held them keeps the
   * invariant, with the region cut out of the list.
   */
  lemma DestroyKeepsConsistent(free: seq<PageId>, head: Option<PageId>, live: seq<PageId>,
                               regions: map<PageId, Region>, counter: nat, owner: map<PageId, PageId>, bound: nat,
                               i: nat, head': Option<PageId>, regions': map<PageId, Region>)
    requires Consistent(free, head, live, regions, counter, owner, bound) && i < |live|
    requires head' == (if i == 0 then regions[live[i]].next else head)
    requires regions' == Unlinked(regions, head, live[i])
    ensures Consistent(regions[live[i]].pages + free, head', live[..i] + live[i + 1..], regions', counter,
                       map p | p in owner && owner[p] != live[i] :: owner[p], bound)
  {
    UnlinkedIsRewired(head, live, regions, i);
    UnlinkKeepsRegistry(head, live, regions, i, head', regions');
    DropKeepsNewestFirst(live, regions, i, regions');
    DropKeepsShapes(regions, counter, regions');
    DropKeepsAccounts(free, regions, owner, bound, counter, live[i], regions');
  }

  /** The slot arrays of the commit frames that a block's commit chain reaches. */
  ghost function CommitSlots(rec: Region): (slots: set<array<Option<PageId>>>)
  {
    if Descends(rec.commit) then ChainSlots(rec.commit) else {}
  }

  /** Unlinking removes exactly the region and changes nothing in any other record but its links. */
  lemma UnlinkedKeepsRecords(regions: map<PageId, Region>, head: Option<PageId>, r: PageId)
    requires r in regions
    ensures Unlinked(regions, head, r).Keys == regions.Keys - {r}
    ensures forall q :: q in Unlinked(regions, head, r) ==>
      Unlinked(regions, head, r)[q].WithoutLinks() == regions[q].WithoutLinks()
  {
  }

  /** The slot arrays of every commit chain reached from a live region. */
  ghost function AllCommitSlots(regions: map<PageId, Region>): (slots: set<array<Option<PageId>>>)
  {
    set q, a | q in regions && a in CommitSlots(regions[q]) :: a
  }

  /** The commit slots reached from one region are among those reached from all of them. */
  lemma CommitSlotsWithin(regions: map<PageId, Region>, q: PageId)
    requires q in regions && Descends(regions[q].commit)
    ensures ChainSlots(regions[q].commit) <= AllCommitSlots(regions)
  {
    forall a | a in ChainSlots(regions[q].commit)
      ensures a in AllCommitSlots(regions)
    {
      assert a in CommitSlots(regions[q]);
    }
  }

  /** The regions the sweep of new regions destroys: those numbered above `savedSeq` and flagged for the commit. */
  ghost function NewDoomed(regions: map<PageId, Region>, savedSeq: nat): (doomed: set<PageId>)
  {
    set q | q in regions && regions[q].seqNo > savedSeq && regions[q].destroyAtCommit
  }

  /** Filtering out a value the list does not hold changes nothing. */
  lemma FilterAbsent(s: seq<PageId>, q: PageId)
    requires q !in s
    ensures Filter(s, {q}) == s
  {
    forall i | 0 <= i < |s|
      ensures s[i] !in {q}
    {
      assert s[i] in s;
    }
    FilterNone(s, {q});
  }

  /** Destroying the flagged region at the sweep's position `k` extends the filtered prefix. */
  lemma SweepDestroysAt(live: seq<PageId>, k: nat, d: set<PageId>)
    requires NoDup(live) && k < |live| && live[k] in d
    ensures Filter(Filter(live[..k], d) + live[k..], {live[k]}) == Filter(live[..k + 1], d) + live[k + 1..]
  {
    var q := live[k];
    var before := Filter(live[..k], d);
    var after := live[k + 1..];
    assert Filter(live[..k + 1], d) == before by {
      assert live[..k + 1] == live[..k] + [q];
      FilterConcat(live[..k], [q], d);
      assert Filter([q], d) == [];
    }
    assert Filter(before, {q}) == before by {
      assert q !in live[..k] by {
        assert forall j :: 0 <= j < k ==> live[..k][j] == live[j] != q;
      }
      FilterMembers(live[..k], d);
      FilterAbsent(before, q);
    }
    assert Filter(after, {q}) == after by {
      assert q !in after by {
        assert forall j :: 0 <= j < |after| ==> after[j] == live[k + 1 + j] != q;
      }
      FilterAbsent(after, q);
    }
    assert live[k..] == [q] + after;
    FilterSplice(before, q, after);
  }

  /** Filtering `q` out of `a + [q] + b`, where neither side holds it, leaves the two sides. */
  lemma FilterSplice(a: seq<PageId>, q: PageId, b: seq<PageId>)
    requires Filter(a, {q}) == a && Filter(b, {q}) == b
    ensures Filter(a + ([q] + b), {q}) == a + b
  {
    FilterConcat(a, [q] + b, {q});
    FilterConcat([q], b, {q});
    assert Filter([q], {q}) == [];
  }

  /** Passing over an unflagged region at the sweep's position `k` extends the filtered prefix. */
  lemma SweepKeepsAt(live: seq<PageId>, k: nat, d: set<PageId>)
    requires k < |live| && live[k] !in d
    ensures Filter(live[..k], d) + live[k..] == Filter(live[..k + 1], d) + live[k + 1..]
  {
    assert live[..k + 1] == live[..k] + [live[k]];
    FilterConcat(live[..k], [live[k]], d);
    assert Filter([live[k]], d) == [live[k]];
    assert live[k..] == [live[k]] + live[k + 1..];
  }

  /** When no region from position `k` on is doomed, the filtered prefix and the rest make the filtered list. */
  lemma SweepEndsAt(live: seq<PageId>, k: nat, d: set<PageId>)
    requires k <= |live|
    requires forall j :: k <= j < |live| ==> live[j] !in d
    ensures Filter(live[..k], d) + live[k..] == Filter(live, d)
  {
    forall j | 0 <= j < |live[k..]|
      ensures live[k..][j] !in d
    {
      assert live[k..][j] == live[k + j];
    }
    FilterNone(live[k..], d);
    FilterConcat(live[..k], live[k..], d);
    assert live[..k] + live[k..] == live;
  }

  /** The entry `j` of a commit frame's saved-region area, read at the entry stride; none past its end. */
  function SavedEntry(saved: seq<Option<PageId>>, j: nat): (entry: Option<PageId>)
  {
    if j * COMMIT_ENTRY_SIZE < |saved| then saved[j * COMMIT_ENTRY_SIZE] else None
  }

  /** The regions named by the first `n` saved entries. */
  ghost function SavedRegions(saved: seq<Option<PageId>>, n: nat): (handled: set<PageId>)
  {
    if n == 0 then {}
    else SavedRegions(saved, n - 1) + (if SavedEntry(saved, n - 1).Some? then {SavedEntry(saved, n - 1).value} else {})
  }

  /** In the sweep's list, the region at the sweep's position `k` is live and links forward to the next one. */
  lemma SweepPosition(all: seq<PageId>, k: nat, d: set<PageId>, live: seq<PageId>, regions: map<PageId, Region>)
    requires k < |all| && live == Filter(all[..k], d) + all[k..] && LinksAgree(live, regions)
    ensures all[k] in regions
    ensures regions[all[k]].next == if k + 1 < |all| then Some(all[k + 1]) else None
  {
    var m := |Filter(all[..k], d)|;
    assert live[m] == all[k];
    LinkAt(live, regions, m);
    if k + 1 < |all| {
      assert live[m + 1] == all[k + 1];
    }
  }

  /**
   * Where the sweep of new regions stops, no region further down the list is
   * doomed, because numbers only fall along the list; so every doomed region
   * lies before the stopping point.
   */
  lemma SweepStopsAt(all: seq<PageId>, regions: map<PageId, Region>, k: nat, savedSeq: nat)
    requires ListsLive(all, regions) && NewestFirst(all, regions) && k <= |all|
    requires k < |all| ==> all[k] in regions && regions[all[k]].seqNo <= savedSeq
    ensures forall j :: k <= j < |all| ==> all[j] !in NewDoomed(regions, savedSeq)
    ensures forall q :: q in NewDoomed(regions, savedSeq) ==> q in all[..k]
  {
    forall j | k <= j < |all|
      ensures all[j] !in NewDoomed(regions, savedSeq)
    {
      assert all[j] in all && all[k] in all;
      if j > k {
        assert regions[all[k]].seqNo > regions[all[j]].seqNo;
      }
    }
    forall q | q in NewDoomed(regions, savedSeq)
      ensures q in all[..k]
    {
      assert q in all;
      var j :| 0 <= j < |all| && all[j] == q;
      assert all[..k][j] == q;
    }
  }

  /** After a sweep leaves the filtered list, the live regions are the old ones less the filtered ones. */
  lemma SweptKeys(all: seq<PageId>, regions0: map<PageId, Region>, d: set<PageId>,
                  live: seq<PageId>, regions: map<PageId, Region>)
    requires ListsLive(all, regions0) && ListsLive(live, regions) && live == Filter(all, d)
    ensures regions.Keys == regions0.Keys - d
  {
    FilterMembers(all, d);
    forall q
      ensures q in regions <==> q in regions0 && q !in d
    {
      assert q in live <==> q in all && q !in d;
    }
  }

  /** The pages that the control blocks in `regions` of the regions in `d` list. */
  ghost function PagesOf(regions: map<PageId, Region>, d: set<PageId>): (ps: set<PageId>)
  {
    set q, p | q in d && q in regions && p in regions[q].pages :: p
  }

  /**
   * The free list `free` holds exactly the pages of the earlier free list
   * `free0` and the pages that the regions `gone` had in `regions0`.
   */
  ghost predicate Released(free: seq<PageId>, free0: seq<PageId>, regions0: map<PageId, Region>, gone: set<PageId>)
  {
    forall p :: p in free <==> p in free0 || p in PagesOf(regions0, gone)
  }

  /** Before any region goes, the free list is the one the sweep started with. */
  lemma ReleasedStart(free: seq<PageId>, regions0: map<PageId, Region>)
    ensures Released(free, free, regions0, {})
  {
    assert PagesOf(regions0, {}) == {};
  }

  /** Putting the pages of one more region in front of the free list releases that region too. */
  lemma ReleasedStep(free: seq<PageId>, free0: seq<PageId>, regions0: map<PageId, Region>, gone: set<PageId>,
                     q: PageId, pages: seq<PageId>)
    requires Released(free, free0, regions0, gone)
    requires q in regions0 && pages == regions0[q].pages
    ensures Released(pages + free, free0, regions0, gone + {q})
  {
    forall p
      ensures p in pages + free <==> p in free0 || p in PagesOf(regions0, gone + {q})
    {
      if p in pages {
        assert p in PagesOf(regions0, gone + {q});
      } else if p in PagesOf(regions0, gone + {q}) {
        var q' :| q' in gone + {q} && q' in regions0 && p in regions0[q'].pages;
        assert q' != q;
        assert p in PagesOf(regions0, gone);
      }
    }
  }

  /**
   * The pages that destroying, in the order of `s`, the regions of `s` that
   * are in `d` puts in front of the free list: the last one destroyed first.
   */
  ghost function Freed(regions: map<PageId, Region>, s: seq<PageId>, d: set<PageId>): (ps: seq<PageId>)
  {
    if s == [] then []
    else
      var q := s[|s| - 1];
      (if q in d && q in regions then regions[q].pages else []) + Freed(regions, s[..|s| - 1], d)
  }

  /** Taking one more position of the list frees its region's pages first when it is in `d`. */
  lemma FreedStep(regions: map<PageId, Region>, s: seq<PageId>, k: nat, d: set<PageId>)
    requires k < |s|
    ensures Freed(regions, s[..k + 1], d) ==
      (if s[k] in d && s[k] in regions then regions[s[k]].pages else []) + Freed(regions, s[..k], d)
  {
    assert s[..k + 1][..k] == s[..k];
  }

  /** Putting pages in front of the freed ones and then the earlier free list is one list either way. */
  lemma FreedInFront(pages: seq<PageId>, freed: seq<PageId>, free0: seq<PageId>)
    ensures pages + (freed + free0) == (pages + freed) + free0
  {
  }

  /** A page is freed exactly when it belongs to a region of `d` that the list holds. */
  lemma {:induction false} FreedMembers(regions: map<PageId, Region>, s: seq<PageId>, d: set<PageId>, p: PageId)
    ensures p in Freed(regions, s, d) <==> exists q :: q in s && q in d && q in regions && p in regions[q].pages
  {
    if s != [] {
      var t, q := s[..|s| - 1], s[|s| - 1];
      FreedMembers(regions, t, d, p);
      assert s == t + [q];
      if p in Freed(regions, s, d) && !(q in d && q in regions && p in regions[q].pages) {
        var q' :| q' in t && q' in d && q' in regions && p in regions[q'].pages;
        assert q' in s;
      }
    }
  }

  /** A list holding every region of `d` frees exactly the pages of `d`. */
  lemma FreedReleased(regions: map<PageId, Region>, s: seq<PageId>, d: set<PageId>, free0: seq<PageId>)
    requires forall q :: q in d ==> q in s
    ensures Released(Freed(regions, s, d) + free0, free0, regions, d)
  {
    forall p
      ensures p in Freed(regions, s, d) + free0 <==> p in free0 || p in PagesOf(regions, d)
    {
      FreedMembers(regions, s, d, p);
      if p in PagesOf(regions, d) {
        var q :| q in d && q in regions && p in regions[q].pages;
        assert q in s;
      }
    }
  }

  /** One more entry adds the region it names, if any, to the regions of the entries before it. */
  lemma SavedRegionsStep(saved: seq<Option<PageId>>, n: nat)
    ensures SavedRegions(saved, n + 1) ==
      SavedRegions(saved, n) + (if SavedEntry(saved, n).Some? then {SavedEntry(saved, n).value} else {})
  {
  }

  /** With no region saved twice, the region of entry `i` is not among those of the first `n` entries, `n <= i`. */
  lemma {:induction false} SavedEntryIsNew(saved: seq<Option<PageId>>, count: nat, i: nat, n: nat)
    requires n <= i < count
    requires SavedDistinct(saved, count)
    requires SavedEntry(saved, i).Some?
    ensures SavedEntry(saved, i).value !in SavedRegions(saved, n)
  {
    if n > 0 {
      SavedEntryIsNew(saved, count, i, n - 1);
      assert SavedEntry(saved, n - 1).None? || SavedEntry(saved, n - 1) != SavedEntry(saved, i);
    }
  }

  /** No region is named by two of the first `count` saved entries. */
  ghost predicate SavedDistinct(saved: seq<Option<PageId>>, count: nat)
  {
    forall j, k :: 0 <= j < k < count && SavedEntry(saved, j).Some? ==> SavedEntry(saved, j) != SavedEntry(saved, k)
  }

  /** Every region named by the first `count` saved entries is live. */
  ghost predicate SavedLive(saved: seq<Option<PageId>>, count: nat, regions: map<PageId, Region>)
  {
    forall j :: 0 <= j < count && SavedEntry(saved, j).Some? ==> SavedEntry(saved, j).value in regions
  }

  /** Every region named by the first `n` saved entries is live and flagged for destruction at the commit. */
  ghost predicate SavedFlagged(saved: seq<Option<PageId>>, n: nat, regions: map<PageId, Region>)
  {
    forall j :: 0 <= j < n && SavedEntry(saved, j).Some? ==>
      SavedEntry(saved, j).value in regions && regions[SavedEntry(saved, j).value].destroyAtCommit
  }

  /** A flagged or empty entry extends the flagged prefix by one. */
  lemma SavedFlaggedStep(saved: seq<Option<PageId>>, n: nat, regions: map<PageId, Region>)
    requires SavedFlagged(saved, n, regions)
    requires SavedEntry(saved, n).Some? ==>
      SavedEntry(saved, n).value in regions && regions[SavedEntry(saved, n).value].destroyAtCommit
    ensures SavedFlagged(saved, n + 1, regions)
  {
  }

  /** A region saved at entry `i` and not saved before is still live while the sweep of old regions reaches it. */
  lemma SavedStillLive(all: seq<PageId>, regions0: map<PageId, Region>, saved: seq<Option<PageId>>, count: nat, i: nat,
                       live: seq<PageId>, regions: map<PageId, Region>)
    requires i < count
    requires SavedLive(saved, count, regions0) && SavedDistinct(saved, count) && SavedEntry(saved, i).Some?
    requires ListsLive(all, regions0) && ListsLive(live, regions) && live == Filter(all, SavedRegions(saved, i))
    ensures SavedEntry(saved, i).value in regions
  {
    var q := SavedEntry(saved, i).value;
    SavedEntryIsNew(saved, count, i, i);
    FilterMembers(all, SavedRegions(saved, i));
    assert q in all;
    assert q in live;
  }
}
