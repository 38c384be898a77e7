/** Allocation and release on the abstract block list. */
module HeapOps {
  import opened HeapSpec

  function Align4(n: nat): (m: nat)
    ensures n <= m < n + 4 && m % 4 == 0
  {
    if n % 4 != 0 then n + 4 - n % 4 else n
  }

  // ----- allocation -----------------------------------------------------------------

  predicate Fits(b: Block, n: nat) { b.free && b.size >= n }

  /** Lowest block at or after `from` that is free and large enough, or -1. */
  function FirstFit(bs: seq<Block>, n: nat, from: nat): (r: int)
    ensures r == -1 || from <= r < |bs|
    ensures r == -1 ==> forall k :: from <= k < |bs| ==> !Fits(bs[k], n)
    ensures r != -1 ==> Fits(bs[r], n) && forall k :: from <= k < r ==> !Fits(bs[k], n)
    decreases |bs| - from
  {
    if from >= |bs| then -1
    else if Fits(bs[from], n) then from
    else FirstFit(bs, n, from + 1)
  }

  /** What a chosen free block becomes: split when more than 4 bytes would remain. */
  function Carve(b: Block, n: nat): seq<Block>
    requires b.size >= n
  {
    if b.size > n + HEADER + 4
    then [Block(n, false), Block(b.size - n - HEADER, true)]
    else [Block(b.size, false)]
  }

  function Grab(bs: seq<Block>, i: nat, n: nat): seq<Block>
    requires i < |bs| && bs[i].size >= n
  {
    Splice(bs, i, i + 1, Carve(bs[i], n))
  }

  /** Carving a block keeps the address of everything after it. */
  lemma CarveExtent(bs: seq<Block>, i: nat, n: nat)
    requires i < |bs| && bs[i].size >= n
    ensures Addr(Grab(bs, i, n), i) == Addr(bs, i)
    ensures Addr(Grab(bs, i, n), i + |Carve(bs[i], n)|) == Addr(bs, i + 1)
  {
    var mid := Carve(bs[i], n);
    var cs := Grab(bs, i, n);
    AddrPrefix(cs, bs, i);
    assert cs[i] == mid[0];
    assert Addr(cs, i + 1) == Addr(cs, i) + HEADER + mid[0].size;
    if |mid| == 2 {
      assert cs[i + 1] == mid[1];
      assert Addr(cs, i + 2) == Addr(cs, i + 1) + HEADER + mid[1].size;
    }
  }

  /** An allocation keeps the list well formed and adds exactly its grant. */
  lemma GrabKeeps(bs: seq<Block>, i: nat, n: nat)
    requires WellFormed(bs) && i < |bs| && Fits(bs[i], n) && GoodSize(n)
    ensures var cs := Grab(bs, i, n);
            && i < |cs| && WellFormed(cs)
            && n <= cs[i].size <= n + HEADER + 4
            && Live(cs) == Live(bs) + {(Addr(bs, i), cs[i].size)}
            && (forall s :: (Addr(bs, i), s) !in Live(bs))
  {
    var mid := Carve(bs[i], n);
    var cs := Grab(bs, i, n);
    CarveExtent(bs, i, n);
    SpliceLive(bs, i, i + 1, mid);
    LiveParts(bs, i, i + 1);
    assert LiveIn(bs, i, i + 1) == {};
    GrabbedRun(bs, cs, i, n);
    GrabNoPairs(bs, i, n);
    CarveGood(bs[i], n);
    SpliceAligned(bs, i, i + 1, mid);
    assert cs[i] == mid[0];
    FreeNotLive(bs, i);
  }

  lemma FreeNotLive(bs: seq<Block>, i: nat)
    requires i < |bs| && bs[i].free
    ensures forall s :: (Addr(bs, i), s) !in Live(bs)
  {
    forall s
      ensures (Addr(bs, i), s) !in Live(bs)
    {
      if (Addr(bs, i), s) in Live(bs) {
        var k := LiveWitness(bs, 0, |bs|, (Addr(bs, i), s));
        AddrInjective(bs, k, i);
      }
    }
  }

  lemma LiveOne(bs: seq<Block>, i: nat)
    requires i < |bs| && !bs[i].free
    ensures LiveIn(bs, i, i + 1) == {(Addr(bs, i), bs[i].size)}
  {
    assert LiveIn(bs, i, i) == {};
  }

  lemma LiveOneMore(bs: seq<Block>, i: nat, j: nat)
    requires i <= j < |bs| && bs[j].free
    ensures LiveIn(bs, i, j + 1) == LiveIn(bs, i, j)
  {
  }

  lemma GrabbedRun(bs: seq<Block>, cs: seq<Block>, i: nat, n: nat)
    requires i < |bs| && bs[i].size >= n && cs == Grab(bs, i, n)
    requires Addr(cs, i) == Addr(bs, i)
    ensures LiveIn(cs, i, i + |Carve(bs[i], n)|) == {(Addr(bs, i), cs[i].size)}
  {
    hide LiveIn, Addr;
    var mid := Carve(bs[i], n);
    assert cs[i] == mid[0];
    LiveOne(cs, i);
    if |mid| == 2 {
      assert cs[i + 1] == mid[1];
      LiveOneMore(cs, i, i + 1);
    }
  }

  lemma CarveGood(b: Block, n: nat)
    requires GoodSize(b.size) && GoodSize(n) && b.size >= n
    ensures Aligned(Carve(b, n))
  {
  }

  lemma GrabNoPairs(bs: seq<Block>, i: nat, n: nat)
    requires i < |bs| && bs[i].free && bs[i].size >= n && (forall k :: !FreePair(bs, k))
    ensures forall k :: !FreePair(Grab(bs, i, n), k)
  {
    var mid := Carve(bs[i], n);
    var cs := Grab(bs, i, n);
    forall k
      ensures !FreePair(cs, k)
    {
      assert !FreePair(bs, k) && !FreePair(bs, k - |mid| + 1);
      assert !FreePair(bs, i);
    }
  }

  // ----- release ----------------------------------------------------------------------

  /** First block of the run that releasing `i` merges. */
  function MergeFrom(bs: seq<Block>, i: nat): nat
    requires i < |bs|
  {
    if i > 0 && bs[i - 1].free then i - 1 else i
  }

  /** One past the last block of that run. */
  function MergeTo(bs: seq<Block>, i: nat): nat
    requires i < |bs|
  {
    if i + 1 < |bs| && bs[i + 1].free then i + 2 else i + 1
  }

  function MergedSize(bs: seq<Block>, i: nat): (n: nat)
    requires i < |bs|
    ensures Addr(bs, MergeTo(bs, i)) == Addr(bs, MergeFrom(bs, i)) + HEADER + n
  {
    assert Addr(bs, i + 1) == Addr(bs, i) + HEADER + bs[i].size;
    bs[i].size
    + (if i > 0 && bs[i - 1].free then HEADER + bs[i - 1].size else 0)
    + (if i + 1 < |bs| && bs[i + 1].free then HEADER + bs[i + 1].size else 0)
  }

  function Release(bs: seq<Block>, i: nat): seq<Block>
    requires i < |bs|
  {
    Splice(bs, MergeFrom(bs, i), MergeTo(bs, i), [Block(MergedSize(bs, i), true)])
  }

  lemma ReleaseExtent(bs: seq<Block>, i: nat)
    requires i < |bs|
    ensures Addr(Release(bs, i), MergeFrom(bs, i)) == Addr(bs, MergeFrom(bs, i))
    ensures Addr(Release(bs, i), MergeFrom(bs, i) + 1) == Addr(bs, MergeTo(bs, i))
  {
    AddrPrefix(Release(bs, i), bs, MergeFrom(bs, i));
  }

  lemma ReleaseNoPairs(bs: seq<Block>, i: nat)
    requires i < |bs| && (forall k :: !FreePair(bs, k))
    ensures forall k :: !FreePair(Release(bs, i), k)
  {
    var lo, hi := MergeFrom(bs, i), MergeTo(bs, i);
    var cs := Release(bs, i);
    forall k
      ensures !FreePair(cs, k)
    {
      assert !FreePair(bs, k) && !FreePair(bs, k + hi - lo - 1);
      assert !FreePair(bs, i - 2) && !FreePair(bs, i + 1);
    }
  }

  /** The merged run holds one live block, the released one. */
  lemma ReleasedRun(bs: seq<Block>, i: nat)
    requires i < |bs| && !bs[i].free
    ensures LiveIn(bs, MergeFrom(bs, i), MergeTo(bs, i)) == {(Addr(bs, i), bs[i].size)}
  {
    var lo, hi := MergeFrom(bs, i), MergeTo(bs, i);
    LiveSplit(bs, lo, i, hi);
    LiveSplit(bs, i, i + 1, hi);
  }

  lemma ElsewhereNotLive(bs: seq<Block>, i: nat, lo: nat, hi: nat)
    requires lo <= hi <= |bs| && i < |bs| && !(lo <= i < hi)
    ensures (Addr(bs, i), bs[i].size) !in LiveIn(bs, lo, hi)
  {
    if (Addr(bs, i), bs[i].size) in LiveIn(bs, lo, hi) {
      var k := LiveWitness(bs, lo, hi, (Addr(bs, i), bs[i].size));
      AddrInjective(bs, k, i);
    }
  }

  lemma ReleaseLive(bs: seq<Block>, i: nat)
    requires i < |bs| && !bs[i].free
    ensures var cs := Release(bs, i);
            && Addr(cs, |cs|) == Addr(bs, |bs|)
            && Live(cs) == Live(bs) - {(Addr(bs, i), bs[i].size)}
  {
    var lo, hi := MergeFrom(bs, i), MergeTo(bs, i);
    var cs := Release(bs, i);
    ReleaseExtent(bs, i);
    SpliceLive(bs, lo, hi, [Block(MergedSize(bs, i), true)]);
    assert LiveIn(cs, lo, lo + 1) == {};
    LiveParts(bs, lo, hi);
    ReleasedRun(bs, i);
    ElsewhereNotLive(bs, i, 0, lo);
    ElsewhereNotLive(bs, i, hi, |bs|);
  }

  lemma MergedGood(bs: seq<Block>, i: nat)
    requires Aligned(bs) && i < |bs|
    ensures GoodSize(MergedSize(bs, i))
  {
    assert GoodSize(bs[i].size);
    assert i > 0 ==> GoodSize(bs[i - 1].size);
    assert i + 1 < |bs| ==> GoodSize(bs[i + 1].size);
  }

  /** A release keeps the list well formed and removes exactly its block. */
  lemma ReleaseKeeps(bs: seq<Block>, i: nat)
    requires WellFormed(bs) && i < |bs| && !bs[i].free
    ensures WellFormed(Release(bs, i))
    ensures Live(Release(bs, i)) == Live(bs) - {(Addr(bs, i), bs[i].size)}
  {
    ReleaseLive(bs, i);
    ReleaseNoPairs(bs, i);
    MergedGood(bs, i);
    SpliceAligned(bs, MergeFrom(bs, i), MergeTo(bs, i), [Block(MergedSize(bs, i), true)]);
  }
}
