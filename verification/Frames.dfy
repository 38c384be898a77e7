/**
  The abstract frame map: which physical frames are in use.
  Plain first-fit over this map is the specification that the two next-fit
  cursors of kernel/core/pmm.c are measured against.
 */
module Frames {

  /** Lowest free frame in [lo, hi), or -1 when there is none. */
  function FirstFree(used: seq<bool>, lo: nat, hi: nat): (r: int)
    requires hi <= |used|
    ensures r == -1 || lo <= r < hi
    decreases hi - lo
  {
    if lo >= hi then -1
    else if !used[lo] then lo
    else FirstFree(used, lo + 1, hi)
  }

  lemma {:induction false} FirstFreeSpec(used: seq<bool>, lo: nat, hi: nat)
    requires hi <= |used|
    ensures var r := FirstFree(used, lo, hi);
            && (r == -1 ==> forall f :: lo <= f < hi ==> used[f])
            && (r != -1 ==> !used[r] && forall f :: lo <= f < r ==> used[f])
    decreases hi - lo
  {
    if lo < hi && used[lo] {
      FirstFreeSpec(used, lo + 1, hi);
    }
  }

  /** FirstFree is the only function with that property. */
  lemma FirstFreeUnique(used: seq<bool>, lo: nat, hi: nat, r: int)
    requires hi <= |used|
    requires r == -1 ==> forall f :: lo <= f < hi ==> used[f]
    requires r != -1 ==> lo <= r < hi && !used[r] && forall f :: lo <= f < r ==> used[f]
    ensures r == FirstFree(used, lo, hi)
  {
    FirstFreeSpec(used, lo, hi);
  }

  /** The frame map after one page allocation. */
  function AfterPage(used: seq<bool>): (used': seq<bool>)
    ensures |used'| == |used|
  {
    var f := FirstFree(used, 0, |used|);
    if f == -1 then used else used[f := true]
  }

  /** Number of free frames below `n`. */
  function FreeBelow(used: seq<bool>, n: nat): (c: nat)
    requires n <= |used|
    ensures c <= n
  {
    if n == 0 then 0
    else FreeBelow(used, n - 1) + if used[n - 1] then 0 else 1
  }

  /** It is the number of free frames. */
  lemma {:induction false} FreeBelowCounts(used: seq<bool>, n: nat)
    requires n <= |used|
    ensures FreeBelow(used, n) == |set f: nat | f < n && !used[f]|
  {
    if n != 0 {
      FreeBelowCounts(used, n - 1);
      var fewer, more := set f: nat | f < n - 1 && !used[f], set f: nat | f < n && !used[f];
      assert more == if used[n - 1] then fewer else fewer + {n - 1};
    }
  }

  lemma {:induction false} FreeBelowUpdate(used: seq<bool>, n: nat, f: nat, v: bool)
    requires n <= |used| && f < |used|
    ensures FreeBelow(used[f := v], n) ==
            FreeBelow(used, n) + if f >= n || used[f] == v then 0 else if v then -1 else 1
  {
    if n != 0 {
      FreeBelowUpdate(used, n - 1, f, v);
    }
  }

  lemma {:induction false} FreeBelowMonotone(used: seq<bool>, m: nat, n: nat)
    requires m <= n <= |used|
    ensures FreeBelow(used, m) <= FreeBelow(used, n)
    ensures FreeBelow(used, n) - FreeBelow(used, m) <= n - m
  {
    if m < n {
      FreeBelowMonotone(used, m, n - 1);
    }
  }

  /** There is a free frame below `n` exactly when the count is positive. */
  lemma {:induction false} FreeBelowZero(used: seq<bool>, n: nat)
    requires n <= |used|
    ensures FreeBelow(used, n) == 0 <==> FirstFree(used, 0, n) == -1
  {
    if n != 0 {
      FreeBelowZero(used, n - 1);
      FirstFreeSpec(used, 0, n - 1);
      var r := FirstFree(used, 0, n - 1);
      FirstFreeUnique(used, 0, n, if r != -1 then r else if used[n - 1] then -1 else n - 1);
    }
  }

  lemma {:induction false} FreeBelowAllUsed(used: seq<bool>, n: nat)
    requires n <= |used|
    requires forall f :: 0 <= f < n ==> used[f]
    ensures FreeBelow(used, n) == 0
  {
    if n != 0 {
      FreeBelowAllUsed(used, n - 1);
    }
  }
}
