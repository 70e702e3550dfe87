/**
 * The ite, disj and commit frames that the execution engine keeps on its
 * stacks, as the region allocator sees them: a link to the previous frame of
 * the same kind, a number of entries, and the entry slots, each empty or
 * naming a region by its first page.
 */
module Frames {
  import opened Wrappers
  import opened Pages

  class Frame {
    /** The previous frame of the same kind, or null at the bottom. */
    const prev: Frame?
    /** Height of the frame on its stack; it orders the prev links. */
    ghost const depth: nat
    /** Number of entries the frame records. */
    const count: nat
    /** The entries; only the first `count` slots are in use. */
    const slots: array<Option<PageId>>

    /** A frame pushed on top of `prev` with `count` empty entries. */
    constructor (prev: Frame?, count: nat)
      ensures this.prev == prev && this.count == count
      ensures fresh(slots) && slots.Length == count
      ensures forall i :: 0 <= i < count ==> slots[i] == None
      ensures prev != null ==> prev.depth < depth
    {
      this.prev := prev;
      this.depth := if prev == null then 0 else prev.depth + 1;
      this.count := count;
      this.slots := new Option<PageId>[count](_ => None);
    }
  }

  /** The entry count stays within the slots the frame has. */
  predicate FrameOk(f: Frame?)
  {
    f == null || f.count <= f.slots.Length
  }

  /** Following prev links from `f` goes down the stack and ends. */
  ghost predicate Descends(f: Frame?)
    decreases if f == null then 0 else f.depth + 1
  {
    f == null || f.prev == null || (f.prev.depth < f.depth && Descends(f.prev))
  }

  /** The frames reached from `f` by prev links, `f` first. */
  ghost function Chain(f: Frame?): (c: seq<Frame>)
    requires Descends(f)
    decreases if f == null then 0 else f.depth + 1
    ensures f == null <==> c == []
    ensures f != null ==> c[0] == f
  {
    if f == null then [] else [f] + Chain(f.prev)
  }

  /** Every frame of a chain starts the rest of it, so its prev link is the next frame. */
  lemma {:induction false} ChainSuffix(f: Frame?, i: nat)
    requires Descends(f) && i < |Chain(f)|
    ensures Descends(Chain(f)[i]) && Chain(Chain(f)[i]) == Chain(f)[i..]
    ensures Chain(f)[i].prev == if i + 1 < |Chain(f)| then Chain(f)[i + 1] else null
    decreases i
  {
    if i > 0 {
      ChainSuffix(f.prev, i - 1);
    }
  }

  /** A chain whose frames are well formed and whose slot arrays are all distinct. */
  ghost predicate ChainOk(f: Frame?)
  {
    Descends(f) &&
    var c := Chain(f);
    (forall i :: 0 <= i < |c| ==> FrameOk(c[i])) &&
    (forall i, j :: 0 <= i < j < |c| ==> c[i].slots != c[j].slots)
  }

  /** The slot arrays of the frames of a chain. */
  ghost function ChainSlots(f: Frame?): (slots: set<array<Option<PageId>>>)
    requires Descends(f)
  {
    set i | 0 <= i < |Chain(f)| :: Chain(f)[i].slots
  }

  /** The first slot at or after `i` and before `n` that names region `r`, if any. */
  function FindSlotFrom(s: seq<Option<PageId>>, n: nat, r: PageId, i: nat): (k: Option<nat>)
    requires i <= n <= |s|
    ensures k.Some? ==> i <= k.value < n && s[k.value] == Some(r)
    ensures k.Some? ==> forall j :: i <= j < k.value ==> s[j] != Some(r)
    ensures k.None? ==> forall j :: i <= j < n ==> s[j] != Some(r)
    decreases n - i
  {
    if i == n then None
    else if s[i] == Some(r) then Some(i)
    else FindSlotFrom(s, n, r, i + 1)
  }

  /** The slots after the first of the first `n` that names `r` is emptied. */
  function ClearFirst(s: seq<Option<PageId>>, n: nat, r: PageId): (t: seq<Option<PageId>>)
    requires n <= |s|
    ensures |t| == |s|
  {
    match FindSlotFrom(s, n, r, 0)
    case Some(k) => s[k := None]
    case None => s
  }

  /** How many of the first `n` slots name region `r`. */
  function Occurrences(s: seq<Option<PageId>>, n: nat, r: PageId): (c: nat)
    requires n <= |s|
  {
    if n == 0 then 0
    else Occurrences(s, n - 1, r) + (if s[n - 1] == Some(r) then 1 else 0)
  }

  /** Overwriting one counted slot changes the count only by that slot. */
  lemma {:induction false} OccurrencesUpdate(s: seq<Option<PageId>>, n: nat, k: nat, v: Option<PageId>, r: PageId)
    requires k < n <= |s|
    ensures Occurrences(s[k := v], n, r) ==
      Occurrences(s, n, r) - (if s[k] == Some(r) then 1 else 0) + (if v == Some(r) then 1 else 0)
  {
    if n - 1 != k {
      OccurrencesUpdate(s, n - 1, k, v, r);
    } else {
      OccurrencesUnchanged(s, s[k := v], n - 1, r);
    }
  }

  /** Sequences that agree on the first `n` slots have the same count. */
  lemma {:induction false} OccurrencesUnchanged(s: seq<Option<PageId>>, t: seq<Option<PageId>>, n: nat, r: PageId)
    requires n <= |s| && n <= |t|
    requires forall j :: 0 <= j < n ==> s[j] == t[j]
    ensures Occurrences(s, n, r) == Occurrences(t, n, r)
  {
    if n > 0 {
      OccurrencesUnchanged(s, t, n - 1, r);
    }
  }

  /** A region named in none of the first `n` slots has count zero. */
  lemma {:induction false} OccurrencesNone(s: seq<Option<PageId>>, n: nat, r: PageId)
    requires n <= |s|
    requires forall j :: 0 <= j < n ==> s[j] != Some(r)
    ensures Occurrences(s, n, r) == 0
  {
    if n > 0 {
      OccurrencesNone(s, n - 1, r);
    }
  }

  /**
   * Clearing in a frame removes exactly one reference to `r` when there is
   * one, and leaves the references to every other region and every slot
   * beyond the entry count as they were.
   */
  lemma ClearFirstRemovesOne(s: seq<Option<PageId>>, n: nat, r: PageId)
    requires n <= |s|
    ensures Occurrences(ClearFirst(s, n, r), n, r) ==
      if Occurrences(s, n, r) == 0 then 0 else Occurrences(s, n, r) - 1
    ensures forall q :: q != r ==> Occurrences(ClearFirst(s, n, r), n, q) == Occurrences(s, n, q)
    ensures ClearFirst(s, n, r)[n..] == s[n..]
  {
    match FindSlotFrom(s, n, r, 0)
    case Some(k) =>
      OccurrencesUpdate(s, n, k, None, r);
      forall q | q != r
        ensures Occurrences(ClearFirst(s, n, r), n, q) == Occurrences(s, n, q)
      {
        OccurrencesUpdate(s, n, k, None, q);
      }
    case None =>
      OccurrencesNone(s, n, r);
  }

  /** A frame that named `r` at most once names it nowhere after clearing. */
  lemma ClearFirstLeavesNone(s: seq<Option<PageId>>, n: nat, r: PageId)
    requires n <= |s| && Occurrences(s, n, r) <= 1
    ensures forall j :: 0 <= j < n ==> ClearFirst(s, n, r)[j] != Some(r)
  {
    ClearFirstRemovesOne(s, n, r);
    var t := ClearFirst(s, n, r);
    forall j | 0 <= j < n
      ensures t[j] != Some(r)
    {
      if t[j] == Some(r) {
        OccurrencesPositive(t, n, j, r);
      }
    }
  }

  /** A slot naming `r` among the first `n` makes the count positive. */
  lemma {:induction false} OccurrencesPositive(s: seq<Option<PageId>>, n: nat, j: nat, r: PageId)
    requires j < n <= |s| && s[j] == Some(r)
    ensures Occurrences(s, n, r) > 0
  {
    if j < n - 1 {
      OccurrencesPositive(s, n - 1, j, r);
    }
  }

  /**
   * Scans the first `count` entries of a frame and empties the first one that
   * names region `r`; the frame is unchanged when none does.
   */
  method NullifyInFrame(f: Frame, r: PageId)
    requires FrameOk(f)
    modifies f.slots
    ensures f.slots[..] == ClearFirst(old(f.slots[..]), f.count, r)
  {
    var i := 0;
    while i < f.count
      invariant i <= f.count
      invariant f.slots[..] == old(f.slots[..])
      invariant forall j :: 0 <= j < i ==> f.slots[j] != Some(r)
    {
      if f.slots[i] == Some(r) {
        f.slots[i] := None;
        return;
      }
      i := i + 1;
    }
  }

  /**
   * Clears the region's slot in every commit frame reached from `top`
   * through the previous-frame links. `commits` names those frames, newest
   * first.
   */
  method NullifyEntriesInCommitStack(top: Frame?, r: PageId, ghost commits: seq<Frame>)
    requires ChainOk(top) && commits == Chain(top)
    modifies ChainSlots(top)
    ensures forall j :: 0 <= j < |commits| ==>
      commits[j].slots[..] == ClearFirst(old(commits[j].slots[..]), commits[j].count, r)
  {
    var frame := top;
    ghost var k := 0;
    while frame != null
      invariant k <= |commits|
      invariant frame == if k < |commits| then commits[k] else null
      invariant forall j :: 0 <= j < k ==>
        commits[j].slots[..] == ClearFirst(old(commits[j].slots[..]), commits[j].count, r)
      invariant forall j :: k <= j < |commits| ==> commits[j].slots[..] == old(commits[j].slots[..])
      decreases |commits| - k
    {
      ChainSuffix(top, k);
      assert FrameOk(commits[k]);
      NullifyInFrame(frame, r);
      frame := frame.prev;
      k := k + 1;
    }
  }
}
