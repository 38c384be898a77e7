/**
  Block headers at their addresses, linked in both directions, and what the list
  edits of kernel/core/heap.c do to them.
 */
module HeapLinks {
  import opened HeapSpec
  import opened HeapOps

  const HEAP_MAGIC := 0xDEAD_BEEF

  datatype Header = Header(size: nat, isFree: bool, magic: nat, next: nat, prev: nat)

  type Headers = map<nat, Header>

  function NextAddr(bs: seq<Block>, i: nat): nat
    requires i < |bs|
  {
    if i + 1 < |bs| then Addr(bs, i + 1) else NULL
  }

  function PrevAddr(bs: seq<Block>, i: nat): nat
    requires i < |bs|
  {
    if i > 0 then Addr(bs, i - 1) else NULL
  }

  /** The header at block `i` describes it and points at both neighbours. */
  predicate LinkedAt(h: Headers, bs: seq<Block>, i: nat)
    requires i < |bs|
  {
    && Addr(bs, i) in h
    && h[Addr(bs, i)] == Header(bs[i].size, bs[i].free, HEAP_MAGIC, NextAddr(bs, i), PrevAddr(bs, i))
  }

  /** Stale headers left behind by merges may remain; the list walk never reaches them. */
  ghost predicate Linked(h: Headers, bs: seq<Block>) {
    forall i :: 0 <= i < |bs| ==> LinkedAt(h, bs, i)
  }

  // ----- the two list edits -----------------------------------------------------------

  /** Header stores of a split: a new block of the remaining bytes after `a`. */
  function SplitHeaders(h: Headers, a: nat, n: nat): Headers
    requires a in h && h[a].size >= n + HEADER && (h[a].next != NULL ==> h[a].next in h)
  {
    var newBlock := a + HEADER + n;
    var next := h[a].next;
    var h1 := h[newBlock := Header(h[a].size - n - HEADER, true, HEAP_MAGIC, next, a)];
    var h2 := if next != NULL then h1[next := h1[next].(prev := newBlock)] else h1;
    h2[a := h2[a].(next := newBlock, size := n)]
  }

  /** Header stores of a merge of the block at `a` with the one after it. */
  function MergeHeaders(h: Headers, a: nat): Headers
    requires a in h && h[a].next in h && (h[h[a].next].next != NULL ==> h[h[a].next].next in h)
  {
    var right := h[h[a].next];
    var h1 := h[a := h[a].(size := h[a].size + HEADER + right.size, next := right.next)];
    if right.next != NULL then h1[right.next := h1[right.next].(prev := a)] else h1
  }

  /** Block list of a split, before the left part is marked used. */
  function SplitBlocks(bs: seq<Block>, i: nat, n: nat): seq<Block>
    requires i < |bs| && bs[i].size >= n + HEADER
  {
    Splice(bs, i, i + 1, [Block(n, bs[i].free), Block(bs[i].size - n - HEADER, true)])
  }

  function MergeBlocks(bs: seq<Block>, i: nat): seq<Block>
    requires i + 1 < |bs|
  {
    Splice(bs, i, i + 2, [Block(bs[i].size + HEADER + bs[i + 1].size, bs[i].free)])
  }

  lemma SplitAddr(bs: seq<Block>, i: nat, n: nat, k: nat)
    requires i < |bs| && bs[i].size >= n + HEADER && k <= |bs| + 1
    ensures var cs := SplitBlocks(bs, i, n);
            && |cs| == |bs| + 1
            && (k <= i ==> Addr(cs, k) == Addr(bs, k))
            && (k == i + 1 ==> Addr(cs, k) == Addr(bs, i) + HEADER + n)
            && (k > i + 1 ==> Addr(cs, k) == Addr(bs, k - 1))
  {
    var mid := [Block(n, bs[i].free), Block(bs[i].size - n - HEADER, true)];
    var cs := SplitBlocks(bs, i, n);
    AddrPrefix(cs, bs, i);
    assert cs[i] == mid[0] && cs[i + 1] == mid[1];
    assert Addr(cs, i + 1) == Addr(cs, i) + HEADER + n;
    assert Addr(cs, i + 2) == Addr(bs, i + 1);
    if k <= i {
      SpliceAddr(bs, i, i + 1, mid, k);
    } else if k > i + 1 {
      SpliceAddr(bs, i, i + 1, mid, k - 1);
    }
  }

  lemma MergeAddr(bs: seq<Block>, i: nat, k: nat)
    requires i + 1 < |bs| && k < |bs|
    ensures var cs := MergeBlocks(bs, i);
            && |cs| == |bs| - 1
            && Addr(cs, k) == if k <= i then Addr(bs, k) else Addr(bs, k + 1)
  {
    var mid := [Block(bs[i].size + HEADER + bs[i + 1].size, bs[i].free)];
    var cs := MergeBlocks(bs, i);
    AddrPrefix(cs, bs, i);
    assert cs[i] == mid[0];
    assert Addr(cs, i + 1) == Addr(bs, i + 2);
    if k <= i {
      SpliceAddr(bs, i, i + 2, mid, k);
    } else {
      SpliceAddr(bs, i, i + 2, mid, k + 1);
    }
  }

  /** The split stores turn a linked list into the linked split list. */
  lemma SplitLinked(h: Headers, bs: seq<Block>, i: nat, n: nat)
    requires Linked(h, bs) && i < |bs| && bs[i].size >= n + HEADER
    ensures LinkedAt(h, bs, i) && (h[Addr(bs, i)].next != NULL ==> h[Addr(bs, i)].next in h)
    ensures Linked(SplitHeaders(h, Addr(bs, i), n), SplitBlocks(bs, i, n))
  {
    assert LinkedAt(h, bs, i);
    assert i + 1 < |bs| ==> LinkedAt(h, bs, i + 1);
    var cs := SplitBlocks(bs, i, n);
    var h' := SplitHeaders(h, Addr(bs, i), n);
    forall k | 0 <= k < |cs|
      ensures LinkedAt(h', cs, k)
    {
      SplitLinkedAt(h, bs, i, n, k);
    }
  }

  /** What the header at `x` holds after the split stores. */
  predicate SplitStore(h: Headers, h': Headers, a: nat, n: nat, x: nat)
    requires a in h && h[a].size >= n + HEADER && (h[a].next != NULL ==> h[a].next in h)
  {
    var newBlock := a + HEADER + n;
    && (x == a ==> x in h' && h'[x] == h[a].(next := newBlock, size := n))
    && (x == newBlock ==> x in h' && h'[x] == Header(h[a].size - n - HEADER, true, HEAP_MAGIC, h[a].next, a))
    && (x == h[a].next != NULL ==> x in h' && h'[x] == h[x].(prev := newBlock))
    && (x != a && x != newBlock && x != h[a].next && x in h ==> x in h' && h'[x] == h[x])
  }

  lemma SplitLookup(h: Headers, a: nat, n: nat, x: nat)
    requires a in h && h[a].size >= n + HEADER && (h[a].next != NULL ==> h[a].next in h)
    requires h[a].next != a && h[a].next != a + HEADER + n
    ensures SplitStore(h, SplitHeaders(h, a, n), a, n, x)
  {
  }

  /** Block `k` of the split list, its address and its neighbours' addresses. */
  predicate SplitShape(bs: seq<Block>, cs: seq<Block>, i: nat, n: nat, k: nat)
    requires i < |bs| && bs[i].size >= n + HEADER && k < |cs| == |bs| + 1
  {
    var newBlock := Addr(bs, i) + HEADER + n;
    var b := if k <= i then k else k - 1;
    && Addr(cs, k) == (if k == i + 1 then newBlock else Addr(bs, b))
    && cs[k] == (if k == i then Block(n, bs[i].free)
                 else if k == i + 1 then Block(bs[i].size - n - HEADER, true)
                 else bs[b])
    && NextAddr(cs, k) == (if k == i then newBlock else NextAddr(bs, b))
    && PrevAddr(cs, k) == (if k == i + 1 then Addr(bs, i) else if k == i + 2 then newBlock else PrevAddr(bs, b))
  }

  lemma SplitNeighbours(bs: seq<Block>, i: nat, n: nat, k: nat)
    requires i < |bs| && bs[i].size >= n + HEADER && k <= |bs|
    ensures |SplitBlocks(bs, i, n)| == |bs| + 1 && SplitShape(bs, SplitBlocks(bs, i, n), i, n, k)
  {
    SplitAddr(bs, i, n, k);
    SplitAddr(bs, i, n, k + 1);
    if k > 0 {
      SplitAddr(bs, i, n, k - 1);
    }
  }

  lemma SplitLinkedAt(h: Headers, bs: seq<Block>, i: nat, n: nat, k: nat)
    requires Linked(h, bs) && i < |bs| && bs[i].size >= n + HEADER
    requires LinkedAt(h, bs, i) && (h[Addr(bs, i)].next != NULL ==> h[Addr(bs, i)].next in h)
    requires k <= |bs|
    ensures k < |SplitBlocks(bs, i, n)| && LinkedAt(SplitHeaders(h, Addr(bs, i), n), SplitBlocks(bs, i, n), k)
  {
    SplitNeighbours(bs, i, n, k);
    SplitApart(bs, i, n, k);
    SplitLookup(h, Addr(bs, i), n, Addr(SplitBlocks(bs, i, n), k));
    SplitConclude(h, SplitHeaders(h, Addr(bs, i), n), bs, SplitBlocks(bs, i, n), i, n, k);
  }

  /** The addresses the split writes to are apart from each other and from block `k`. */
  lemma SplitApart(bs: seq<Block>, i: nat, n: nat, k: nat)
    requires i < |bs| && bs[i].size >= n + HEADER && k <= |bs|
    ensures var cs := SplitBlocks(bs, i, n);
            var newBlock := Addr(bs, i) + HEADER + n;
            && |cs| == |bs| + 1
            && NextAddr(bs, i) != Addr(bs, i) && NextAddr(bs, i) != newBlock
            && (k != i ==> Addr(cs, k) != Addr(bs, i))
            && (k != i + 1 ==> Addr(cs, k) != newBlock)
            && (k != i + 2 ==> Addr(cs, k) != NextAddr(bs, i))
  {
    var cs := SplitBlocks(bs, i, n);
    SplitAddr(bs, i, n, i);
    SplitAddr(bs, i, n, i + 1);
    SplitAddr(bs, i, n, i + 2);
    Separate(cs, k, i);
    Separate(cs, k, i + 1);
    Separate(cs, k, i + 2);
    Separate(cs, i, i + 2);
    Separate(cs, i + 1, i + 2);
  }

  lemma SplitConclude(h: Headers, h': Headers, bs: seq<Block>, cs: seq<Block>, i: nat, n: nat, k: nat)
    requires Linked(h, bs) && i < |bs| && bs[i].size >= n + HEADER && k < |cs| == |bs| + 1
    requires LinkedAt(h, bs, i) && (h[Addr(bs, i)].next != NULL ==> h[Addr(bs, i)].next in h)
    requires SplitShape(bs, cs, i, n, k)
    requires SplitStore(h, h', Addr(bs, i), n, Addr(cs, k))
    requires k != i ==> Addr(cs, k) != Addr(bs, i)
    requires k != i + 1 ==> Addr(cs, k) != Addr(bs, i) + HEADER + n
    requires k != i + 2 ==> Addr(cs, k) != NextAddr(bs, i)
    ensures LinkedAt(h', cs, k)
  {
    if k <= i {
      assert LinkedAt(h, bs, k);
    } else {
      assert LinkedAt(h, bs, k - 1);
    }
  }

  lemma Separate(bs: seq<Block>, i: nat, j: nat)
    requires i <= |bs| && j <= |bs|
    ensures i != j ==> Addr(bs, i) != Addr(bs, j)
  {
    if Addr(bs, i) == Addr(bs, j) {
      AddrInjective(bs, i, j);
    }
  }

  // ----- merging ------------------------------------------------------------------

  predicate Mergeable(h: Headers, a: nat) {
    a in h && h[a].next in h && (h[h[a].next].next != NULL ==> h[h[a].next].next in h)
  }

  predicate MergeStore(h: Headers, h': Headers, a: nat, x: nat)
    requires Mergeable(h, a)
  {
    var right := h[h[a].next];
    && (x == a ==> x in h' && h'[x] == h[a].(size := h[a].size + HEADER + right.size, next := right.next))
    && (x == right.next != NULL ==> x in h' && h'[x] == h[x].(prev := a))
    && (x != a && x != right.next && x in h ==> x in h' && h'[x] == h[x])
  }

  lemma MergeLookup(h: Headers, a: nat, x: nat)
    requires Mergeable(h, a) && h[h[a].next].next != a
    ensures MergeStore(h, MergeHeaders(h, a), a, x)
  {
  }

  predicate MergeShape(bs: seq<Block>, cs: seq<Block>, i: nat, k: nat)
    requires i + 1 < |bs| && k < |cs| == |bs| - 1
  {
    var b := if k <= i then k else k + 1;
    && Addr(cs, k) == Addr(bs, b)
    && cs[k] == (if k == i then Block(bs[i].size + HEADER + bs[i + 1].size, bs[i].free) else bs[b])
    && NextAddr(cs, k) == NextAddr(bs, if k == i then i + 1 else b)
    && PrevAddr(cs, k) == (if k == i + 1 then Addr(bs, i) else PrevAddr(bs, b))
  }

  lemma MergeNeighbours(bs: seq<Block>, i: nat, k: nat)
    requires i + 1 < |bs| && k < |bs| - 1
    ensures |MergeBlocks(bs, i)| == |bs| - 1 && MergeShape(bs, MergeBlocks(bs, i), i, k)
  {
    MergeAddr(bs, i, k);
    MergeAddr(bs, i, k + 1);
    if k > 0 {
      MergeAddr(bs, i, k - 1);
    }
  }

  lemma MergeApart(bs: seq<Block>, i: nat, k: nat)
    requires i + 1 < |bs| && k < |bs| - 1
    ensures var cs := MergeBlocks(bs, i);
            && |cs| == |bs| - 1
            && NextAddr(bs, i + 1) != Addr(bs, i)
            && (k != i ==> Addr(cs, k) != Addr(bs, i))
            && (k != i + 1 ==> Addr(cs, k) != NextAddr(bs, i + 1))
  {
    var cs := MergeBlocks(bs, i);
    MergeAddr(bs, i, k);
    MergeAddr(bs, i, i);
    MergeAddr(bs, i, i + 1);
    Separate(cs, k, i);
    Separate(cs, k, i + 1);
    Separate(cs, i, i + 1);
  }

  lemma MergeConclude(h: Headers, h': Headers, bs: seq<Block>, cs: seq<Block>, i: nat, k: nat)
    requires Linked(h, bs) && i + 1 < |bs| && k < |cs| == |bs| - 1
    requires LinkedAt(h, bs, i) && LinkedAt(h, bs, i + 1) && Mergeable(h, Addr(bs, i))
    requires MergeShape(bs, cs, i, k)
    requires MergeStore(h, h', Addr(bs, i), Addr(cs, k))
    requires k != i ==> Addr(cs, k) != Addr(bs, i)
    requires k != i + 1 ==> Addr(cs, k) != NextAddr(bs, i + 1)
    ensures LinkedAt(h', cs, k)
  {
    if k <= i {
      assert LinkedAt(h, bs, k);
    } else {
      assert LinkedAt(h, bs, k + 1);
    }
  }

  /** The merge stores turn a linked list into the linked merged list. */
  lemma MergeLinked(h: Headers, bs: seq<Block>, i: nat)
    requires Linked(h, bs) && i + 1 < |bs|
    ensures Mergeable(h, Addr(bs, i))
    ensures Linked(MergeHeaders(h, Addr(bs, i)), MergeBlocks(bs, i))
  {
    assert LinkedAt(h, bs, i) && LinkedAt(h, bs, i + 1);
    assert i + 2 < |bs| ==> LinkedAt(h, bs, i + 2);
    var cs := MergeBlocks(bs, i);
    var h' := MergeHeaders(h, Addr(bs, i));
    forall k | 0 <= k < |cs|
      ensures LinkedAt(h', cs, k)
    {
      MergeNeighbours(bs, i, k);
      MergeApart(bs, i, k);
      MergeLookup(h, Addr(bs, i), Addr(cs, k));
      MergeConclude(h, h', bs, cs, i, k);
    }
  }

  /** Setting the flag of one header sets the flag of one block. */
  lemma MarkLinked(h: Headers, bs: seq<Block>, i: nat, free: bool)
    requires Linked(h, bs) && i < |bs|
    ensures LinkedAt(h, bs, i)
    ensures Linked(h[Addr(bs, i) := h[Addr(bs, i)].(isFree := free)], bs[i := bs[i].(free := free)])
  {
    assert LinkedAt(h, bs, i);
    var cs := bs[i := bs[i].(free := free)];
    var h' := h[Addr(bs, i) := h[Addr(bs, i)].(isFree := free)];
    forall k | 0 <= k < |cs|
      ensures LinkedAt(h', cs, k)
    {
      assert LinkedAt(h, bs, k);
      MarkAddr(bs, i, free, k);
      MarkAddr(bs, i, free, k + 1);
      if k > 0 {
        MarkAddr(bs, i, free, k - 1);
      }
      Separate(bs, i, k);
    }
  }

  lemma MarkAddr(bs: seq<Block>, i: nat, free: bool, k: nat)
    requires i < |bs| && k <= |bs|
    ensures Addr(bs[i := bs[i].(free := free)], k) == Addr(bs, k)
  {
    AddrPrefix(bs[i := bs[i].(free := free)], bs, k);
  }

  /** The stepwise edits of `kmalloc` add up to the abstract allocation. */
  lemma GrabInSteps(bs: seq<Block>, i: nat, n: nat)
    requires i < |bs| && bs[i].size >= n
    ensures bs[i].size > n + HEADER + 4 ==>
              |SplitBlocks(bs, i, n)| > i &&
              SplitBlocks(bs, i, n)[i := SplitBlocks(bs, i, n)[i].(free := false)] == Grab(bs, i, n)
    ensures bs[i].size <= n + HEADER + 4 ==> bs[i := bs[i].(free := false)] == Grab(bs, i, n)
  {
  }

  /** The stepwise edits of `kfree`: mark, merge right, merge left. */
  function ReleaseInSteps(bs: seq<Block>, i: nat): seq<Block>
    requires i < |bs|
  {
    var marked := bs[i := bs[i].(free := true)];
    var right := if i + 1 < |marked| && marked[i + 1].free then MergeBlocks(marked, i) else marked;
    if i > 0 && right[i - 1].free then MergeBlocks(right, i - 1) else right
  }

  lemma ReleaseSteps(bs: seq<Block>, i: nat)
    requires i < |bs|
    ensures ReleaseInSteps(bs, i) == Release(bs, i)
  {
    var b := Block(bs[i].size + RightPart(bs, i), true);
    RightMerged(bs, i);
    if i > 0 {
      assert Splice(bs, i, MergeTo(bs, i), [b])[i - 1] == bs[i - 1];
      if bs[i - 1].free {
        MergedLeft(bs, i, MergeTo(bs, i), b);
      }
    }
  }

  /** Bytes that a free right neighbour brings into the merged block. */
  function RightPart(bs: seq<Block>, i: nat): nat
    requires i < |bs|
  {
    if i + 1 < |bs| && bs[i + 1].free then HEADER + bs[i + 1].size else 0
  }

  /** The list after marking and merging right. */
  lemma RightMerged(bs: seq<Block>, i: nat)
    requires i < |bs|
    ensures var marked := bs[i := bs[i].(free := true)];
            (if i + 1 < |marked| && marked[i + 1].free then MergeBlocks(marked, i) else marked) ==
            Splice(bs, i, MergeTo(bs, i), [Block(bs[i].size + RightPart(bs, i), true)])
  {
  }

  lemma MergedLeft(bs: seq<Block>, i: nat, j: nat, b: Block)
    requires i < j <= |bs| && b.free
    ensures i > 0 && bs[i - 1].free ==>
              MergeBlocks(Splice(bs, i, j, [b]), i - 1) ==
              Splice(bs, i - 1, j, [Block(bs[i - 1].size + HEADER + b.size, true)])
  {
  }
}
