/** The PMM diagnostic, kernel/core/selftest.c, as a client of the allocator. */
module SelfTest {
  import opened Machine
  import opened Frames
  import P = Pmm

  const MAX_PAGES := 256

  /** Frames that `boot` leaves free, in ascending order. */
  ghost predicate Batch(boot: seq<bool>, frames: seq<nat>) {
    && (forall i :: 0 <= i < |frames| ==> 0 < frames[i] < |boot| && !boot[frames[i]])
    && (forall i, j :: 0 <= i < j < |frames| ==> frames[i] < frames[j])
  }

  /** Nothing free lies between the frames: they are the lowest ones. */
  ghost predicate Lowest(boot: seq<bool>, frames: seq<nat>)
    requires Batch(boot, frames)
  {
    forall i, f :: 0 <= i < |frames| && 0 <= f < frames[i] && !boot[f] ==> f in frames[..i]
  }

  /** The frame map is `boot` plus the batch members that are live. */
  ghost predicate Holding(used: seq<bool>, boot: seq<bool>, frames: seq<nat>, live: seq<bool>) {
    && |used| == |boot| && |live| == |frames|
    && (forall j :: 0 <= j < |frames| ==> frames[j] < |boot| && used[frames[j]] == live[j])
    && (forall f :: 0 <= f < |boot| && f !in frames ==> used[f] == boot[f])
  }

  /** `pages[j]` is the address of batch member `j` while it is live, else null. */
  ghost predicate Listed(pages: seq<nat>, frames: seq<nat>, live: seq<bool>) {
    && |live| == |frames| <= |pages|
    && (forall j :: 0 <= j < |frames| ==> pages[j] == if live[j] then frames[j] * PAGE_SIZE else 0)
  }

  function PagesToTest(freePages: nat): (n: nat)
    ensures n <= freePages && n <= MAX_PAGES
    ensures n == 0 <==> freePages == 0
    ensures n == if freePages < 8 then freePages
                 else if freePages < 64 then 8
                 else if freePages < 2056 then freePages / 8
                 else 256
  {
    var eighth := freePages / 8;
    var n := if eighth > MAX_PAGES then MAX_PAGES else eighth;
    if n < 8 then (if freePages >= 8 then 8 else freePages) else n
  }

  lemma BatchGrows(boot: seq<bool>, frames: seq<nat>, live: seq<bool>, used: seq<bool>, f: nat)
    requires Batch(boot, frames) && Lowest(boot, frames) && Holding(used, boot, frames, live)
    requires forall j :: 0 <= j < |live| ==> live[j]
    requires 0 < f < |used| && !used[f] && (forall g :: 0 <= g < f ==> used[g])
    ensures Batch(boot, frames + [f]) && Lowest(boot, frames + [f])
    ensures Holding(used[f := true], boot, frames + [f], live + [true])
  {
    var longer := frames + [f];
    assert f !in frames;
    forall j | 0 <= j < |frames|
      ensures frames[j] < f
    {
      assert used[frames[j]];
    }
    forall i, g | 0 <= i < |longer| && 0 <= g < longer[i] && !boot[g]
      ensures g in longer[..i]
    {
      if i < |frames| {
        assert longer[..i] == frames[..i];
      } else {
        assert longer[..i] == frames;
      }
    }
  }

  /** Freeing one live member of the batch. */
  lemma Drop(boot: seq<bool>, frames: seq<nat>, live: seq<bool>, used: seq<bool>, i: nat)
    requires Batch(boot, frames) && Holding(used, boot, frames, live)
    requires i < |frames|
    ensures Holding(used[frames[i] := false], boot, frames, live[i := false])
  {
  }

  /** First-fit gives back the lowest missing member of the batch. */
  lemma Refill(boot: seq<bool>, frames: seq<nat>, live: seq<bool>, used: seq<bool>, i: nat)
    requires Batch(boot, frames) && Lowest(boot, frames) && Holding(used, boot, frames, live)
    requires i < |frames| && !live[i] && (forall j :: 0 <= j < i ==> live[j])
    ensures frames[i] == FirstFree(used, 0, |used|)
    ensures Holding(used[frames[i] := true], boot, frames, live[i := true])
  {
    forall g | 0 <= g < frames[i]
      ensures used[g]
    {
      if !boot[g] {
        var j :| 0 <= j < i && frames[..i][j] == g;
        assert used[frames[j]];
      }
    }
    FirstFreeUnique(used, 0, |used|, frames[i]);
  }

  /** Step 1: allocate the batch; no allocation fails. */
  method AllocateBatch(pmm: P.FrameAllocator, pages: array<nat>, n: nat)
      returns (ghost frames: seq<nat>, ghost live: seq<bool>)
    requires pmm.Valid() && n <= pages.Length && n <= FreeBelow(pmm.used, pmm.totalBlocks)
    modifies pmm, pmm.bitmap, pages
    ensures pmm.Valid() && |frames| == n && Batch(old(pmm.used), frames) && Lowest(old(pmm.used), frames)
    ensures Holding(pmm.used, old(pmm.used), frames, live) && Listed(pages[..], frames, live)
    ensures forall j :: 0 <= j < n ==> live[j]
  {
    frames, live := [], [];
    ghost var boot := pmm.used;
    assert Batch(boot, []) && Lowest(boot, []) && Holding(boot, boot, [], []);
    hide Batch, Lowest, Holding;
    for i := 0 to n
      invariant pmm.Valid() && |frames| == i
      invariant FreeBelow(pmm.used, pmm.totalBlocks) == FreeBelow(boot, pmm.totalBlocks) - i
      invariant Batch(boot, frames) && Lowest(boot, frames)
      invariant Holding(pmm.used, boot, frames, live) && Listed(pages[..], frames, live)
      invariant forall j :: 0 <= j < i ==> live[j]
    {
      FreeBelowZero(pmm.used, pmm.totalBlocks);
      FirstFreeSpec(pmm.used, 0, pmm.totalBlocks);
      ghost var f := FirstFree(pmm.used, 0, pmm.totalBlocks);
      BatchGrows(boot, frames, live, pmm.used, f);
      FreeBelowUpdate(pmm.used, pmm.totalBlocks, f, true);
      var page := pmm.AllocPage();
      pages[i] := page;
      if page == 0 {
        assert false;
      }
      frames, live := frames + [f], live + [true];
    }
  }

  /** Frees one page of the table; the free does not panic. */
  method FreeMember(pmm: P.FrameAllocator, pages: array<nat>, i: nat, ghost boot: seq<bool>,
                    ghost frames: seq<nat>, ghost live: seq<bool>)
    requires pmm.Valid() && Batch(boot, frames)
    requires Holding(pmm.used, boot, frames, live) && Listed(pages[..], frames, live)
    requires i < |frames| && live[i]
    modifies pmm, pmm.bitmap, pages
    ensures pmm.Valid() && Holding(pmm.used, boot, frames, live[i := false])
    ensures Listed(pages[..], frames, live[i := false])
  {
    Drop(boot, frames, live, pmm.used, i);
    var o := pmm.FreePage(pages[i]);
    if o.Panic? {
      assert false;
    }
    pages[i] := 0;
  }

  /** Allocates into the lowest gap of the table; the allocation does not fail. */
  method RefillMember(pmm: P.FrameAllocator, pages: array<nat>, i: nat, ghost boot: seq<bool>,
                      ghost frames: seq<nat>, ghost live: seq<bool>)
    requires pmm.Valid() && Batch(boot, frames) && Lowest(boot, frames)
    requires Holding(pmm.used, boot, frames, live) && Listed(pages[..], frames, live)
    requires i < |frames| && !live[i] && (forall j :: 0 <= j < i ==> live[j])
    modifies pmm, pmm.bitmap, pages
    ensures pmm.Valid() && Holding(pmm.used, boot, frames, live[i := true])
    ensures Listed(pages[..], frames, live[i := true])
  {
    Refill(boot, frames, live, pmm.used, i);
    var page := pmm.AllocPage();
    pages[i] := page;
    if page == 0 {
      assert false;
    }
  }

  /** Step 2: free every other page; no free panics. */
  method FreeEveryOther(pmm: P.FrameAllocator, pages: array<nat>, n: nat, ghost boot: seq<bool>,
                        ghost frames: seq<nat>, ghost live0: seq<bool>)
      returns (ghost live: seq<bool>)
    requires pmm.Valid() && |frames| == n && Batch(boot, frames)
    requires Holding(pmm.used, boot, frames, live0) && Listed(pages[..], frames, live0)
    requires forall j :: 0 <= j < n ==> live0[j]
    modifies pmm, pmm.bitmap, pages
    ensures pmm.Valid() && Holding(pmm.used, boot, frames, live) && Listed(pages[..], frames, live)
    ensures forall j :: 0 <= j < n ==> live[j] == (j % 2 == 1)
  {
    assert |live0| == n;
    hide P.FrameAllocator.Valid, Holding, Listed, Batch, Lowest;
    live := live0;
    var i := 0;
    while i < n
      invariant pmm.Valid() && i % 2 == 0 && |live| == n
      invariant Holding(pmm.used, boot, frames, live) && Listed(pages[..], frames, live)
      invariant forall j :: 0 <= j < n ==> live[j] == (j % 2 == 1 || j >= i)
    {
      FreeMember(pmm, pages, i, boot, frames, live);
      live := live[i := false];
      i := i + 2;
    }
  }

  /** The members in the table while the gaps are refilled: the odd ones and all below `i`. */
  predicate OddOrBelow(live: seq<bool>, i: nat) {
    forall j :: 0 <= j < |live| ==> live[j] == (j % 2 == 1 || j < i)
  }

  lemma NextGap(live: seq<bool>, i: nat)
    requires i < |live| && i % 2 == 0 && OddOrBelow(live, i)
    ensures !live[i] && (forall j :: 0 <= j < i ==> live[j]) && OddOrBelow(live[i := true], i + 2)
  {
  }

  lemma NoGap(live: seq<bool>, i: nat)
    requires |live| <= i && OddOrBelow(live, i)
    ensures forall j :: 0 <= j < |live| ==> live[j]
  {
  }

  /** Step 3: the refill puts the same frames back at the same indices. */
  method RefillGaps(pmm: P.FrameAllocator, pages: array<nat>, n: nat, ghost boot: seq<bool>,
                    ghost frames: seq<nat>, ghost live0: seq<bool>)
      returns (ghost live: seq<bool>)
    requires pmm.Valid() && |frames| == n && Batch(boot, frames) && Lowest(boot, frames)
    requires Holding(pmm.used, boot, frames, live0) && Listed(pages[..], frames, live0)
    requires forall j :: 0 <= j < n ==> live0[j] == (j % 2 == 1)
    modifies pmm, pmm.bitmap, pages
    ensures pmm.Valid() && Holding(pmm.used, boot, frames, live) && Listed(pages[..], frames, live)
    ensures forall j :: 0 <= j < n ==> live[j]
  {
    assert |live0| == n && OddOrBelow(live0, 0);
    hide P.FrameAllocator.Valid, Holding, Listed, Batch, Lowest, OddOrBelow;
    live := live0;
    var i := 0;
    while i < n
      invariant pmm.Valid() && i % 2 == 0 && |live| == n
      invariant Holding(pmm.used, boot, frames, live) && Listed(pages[..], frames, live)
      invariant OddOrBelow(live, i)
    {
      NextGap(live, i);
      RefillMember(pmm, pages, i, boot, frames, live);
      live := live[i := true];
      i := i + 2;
    }
    NoGap(live, i);
  }

  /** Cleanup: every page goes back; no free panics. */
  method FreeAll(pmm: P.FrameAllocator, pages: array<nat>, n: nat, ghost boot: seq<bool>,
                 ghost frames: seq<nat>, ghost live0: seq<bool>)
    requires pmm.Valid() && |frames| == n && Batch(boot, frames)
    requires Holding(pmm.used, boot, frames, live0) && Listed(pages[..], frames, live0)
    modifies pmm, pmm.bitmap, pages
    ensures pmm.Valid() && pmm.used == boot
  {
    ghost var live := live0;
    for i := 0 to n
      invariant pmm.Valid()
      invariant Holding(pmm.used, boot, frames, live) && Listed(pages[..], frames, live)
      invariant forall j :: 0 <= j < i ==> !live[j]
    {
      if pages[i] != 0 {
        FreeMember(pmm, pages, i, boot, frames, live);
        live := live[i := false];
      }
    }
    forall f | 0 <= f < |boot|
      ensures pmm.used[f] == boot[f]
    {
      if f in frames {
        var j :| 0 <= j < n && frames[j] == f;
      }
    }
  }

  /**
    `selftest_pmm`: from every valid state it returns 0 when a page is free and 1
    when none is, and it leaves the frame map as it found it.
   */
  method SelftestPmm(pmm: P.FrameAllocator, pages: array<nat>) returns (rc: int)
    requires pmm.Valid() && pages.Length == MAX_PAGES
    modifies pmm, pmm.bitmap, pages
    ensures pmm.Valid() && pmm.used == old(pmm.used)
    ensures rc == if FreeBelow(old(pmm.used), pmm.totalBlocks) > 0 then 0 else 1
  {
    ghost var boot := pmm.used;
    var freeBefore := pmm.GetFreeMemory();
    var n := PagesToTest(freeBefore / PAGE_SIZE);
    if n == 0 {
      return 1;
    }
    for i := 0 to n
      invariant pmm.Valid() && pmm.used == boot
    {
      pages[i] := 0;
    }
    ghost var frames, live := AllocateBatch(pmm, pages, n);
    live := FreeEveryOther(pmm, pages, n, boot, frames, live);
    live := RefillGaps(pmm, pages, n, boot, frames, live);
    FreeAll(pmm, pages, n, boot, frames, live);
    var freeAfter := pmm.GetFreeMemory();
    return if freeAfter == freeBefore then 0 else 2;
  }
}
