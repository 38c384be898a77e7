/**
  How many page allocations succeed in a row. `pmm_alloc_page` answers with a 32-bit
  address, which is null for a frame whose number is a multiple of 2^20, so on memory
  above 4 GiB the allocations of `heap_init` can fail before memory is full.
 */
module Supply {
  import opened Frames
  import P = Pmm
  import V = Vmm

  /** Frame 0 is never free. */
  predicate ZeroUsed(used: seq<bool>) { |used| > 0 ==> used[0] }

  /** The lowest free frame from `f` on whose address is null, or the end of memory. */
  function NullFrame(used: seq<bool>, f: nat): (m: nat)
    requires f <= |used|
    ensures f <= m <= |used|
    decreases |used| - f
  {
    if f == |used| || (!used[f] && f % P.MAX_FRAMES == 0) then f else NullFrame(used, f + 1)
  }

  lemma {:induction false} NullFrameSpec(used: seq<bool>, f: nat)
    requires f <= |used|
    ensures var m := NullFrame(used, f);
            && (m < |used| ==> !used[m] && m % P.MAX_FRAMES == 0)
            && (forall g :: f <= g < m ==> used[g] || g % P.MAX_FRAMES != 0)
    decreases |used| - f
  {
    if f < |used| && (used[f] || f % P.MAX_FRAMES != 0) {
      NullFrameSpec(used, f + 1);
    }
  }

  /** Using a frame below the null frame leaves the null frame where it is. */
  lemma {:induction false} NullFrameKept(used: seq<bool>, f: nat, g: nat)
    requires f <= |used| && g < NullFrame(used, f)
    ensures NullFrame(used[g := true], f) == NullFrame(used, f)
    decreases |used| - f
  {
    if f < |used| && (used[f] || f % P.MAX_FRAMES != 0) {
      NullFrameKept(used, f + 1, g);
    }
  }

  /** The number of page allocations that succeed in a row. */
  function SupplyOf(used: seq<bool>): nat { FreeBelow(used, NullFrame(used, 0)) }

  /** Any frame below the null frame that is put to use costs one allocation. */
  lemma SupplyCosts(used: seq<bool>, g: nat)
    requires g < NullFrame(used, 0) && !used[g]
    ensures SupplyOf(used) > 0 && SupplyOf(used[g := true]) == SupplyOf(used) - 1
  {
    NullFrameKept(used, 0, g);
    FreeBelowUpdate(used, NullFrame(used, 0), g, true);
  }

  /** An allocation succeeds exactly while there is supply, and takes one of it. */
  lemma SupplyStep(used: seq<bool>)
    ensures P.AllocAddress(used) != 0 <==> SupplyOf(used) > 0
    ensures SupplyOf(used) > 0 ==> SupplyOf(AfterPage(used)) == SupplyOf(used) - 1
  {
    var m := NullFrame(used, 0);
    NullFrameSpec(used, 0);
    FirstFreeSpec(used, 0, |used|);
    FreeBelowZero(used, m);
    FirstFreeSpec(used, 0, m);
    var f := FirstFree(used, 0, |used|);
    if f != -1 {
      P.NullAddress(f);
      if f < m {
        FirstFreeUnique(used, 0, m, f);
        SupplyCosts(used, f);
      }
    }
  }

  /** Every free frame below 4 GiB is supply; on memory that ends there, nothing else is. */
  lemma SupplyReaches(used: seq<bool>, n: nat)
    requires ZeroUsed(used) && n <= |used| && n <= P.MAX_FRAMES
    ensures n <= NullFrame(used, 0) && FreeBelow(used, n) <= SupplyOf(used)
    ensures |used| <= P.MAX_FRAMES ==> SupplyOf(used) == FreeBelow(used, |used|)
  {
    NullFrameSpec(used, 0);
    var m := NullFrame(used, 0);
    assert m < |used| ==> m != 0 && m >= P.MAX_FRAMES;
    FreeBelowMonotone(used, n, m);
  }

  /** After a page allocation a page table can be had exactly when two low frames were free. */
  lemma TableAfterPage(used: seq<bool>)
    requires FirstFree(used, 0, |used|) != -1
    ensures var u := AfterPage(used);
            var t := V.LowFree(u);
            && (t == -1 <==> FreeBelow(used, V.LowFrames(used)) < 2)
            && (t != -1 ==> t < V.LowFrames(used) && !u[t])
  {
    var low := V.LowFrames(used);
    var f := FirstFree(used, 0, |used|);
    FirstFreeSpec(used, 0, |used|);
    FreeBelowUpdate(used, low, f, true);
    FreeBelowZero(used, low);
    FreeBelowZero(used[f := true], low);
    FirstFreeSpec(used, 0, low);
    FirstFreeSpec(used[f := true], 0, low);
  }
}
