/**
  The kernel heap as the source keeps it: headers at their addresses, linked in
  both directions and rewritten in place (kernel/core/heap.c).
 */
module Heap {
  import opened Machine
  import opened HeapSpec
  import opened HeapOps
  import opened HeapRuns
  import opened HeapLinks
  import opened HeapWords

  class KernelHeap {
    var startHeader: nat
    var mem: Words

    /** The block list and the headers that memory holds. */
    ghost var blocks: seq<Block>
    ghost var headers: Headers

    /** Header addresses, present and former, that `kfree`'s tests judge rightly. */
    ghost var trusted: set<nat>

    /** Either `heap_init` has not run, or the headers form a well-formed list. */
    ghost predicate Valid()
      reads this
    {
      startHeader == NULL || Ready()
    }

    ghost predicate Ready()
      reads this
    {
      startHeader == HEAP_START && WellFormed(blocks) && Judged(mem, headers, blocks, trusted)
    }

    /** Memory at boot is arbitrary. */
    constructor (mem: Words)
      ensures Valid() && startHeader == NULL && this.mem == mem
    {
      startHeader := NULL;
      this.mem := mem;
      blocks, headers, trusted := [], map[], {};
    }

    /** The second half of `heap_init`: one free block spans the region. */
    method InitList()
      modifies this
      ensures Ready() && blocks == INITIAL && trusted == {HEAP_START}
      ensures mem == StoreHeader(old(mem), HEAP_START, HEAP_SIZE - HEADER, NULL, NULL)
    {
      startHeader := HEAP_START;
      StoreFields(HEAP_START, HEAP_SIZE - HEADER, NULL, NULL);
      blocks := INITIAL;
      headers := map[HEAP_START := Header(HEAP_SIZE - HEADER, true, HEAP_MAGIC, NULL, NULL)];
      trusted := {HEAP_START};
      InitialWellFormed();
      InitialJudged(old(mem));
    }

    /** The five field stores of a new free block. */
    method StoreFields(b: nat, size: nat, next: nat, prev: nat)
      modifies this`mem
      ensures mem == StoreHeader(old(mem), b, size, next, prev)
    {
      mem := mem[b := size];
      mem := mem[b + FLAG := FlagWord(Peek(mem, b + FLAG), true)];
      mem := mem[b + MAGIC := HEAP_MAGIC];
      mem := mem[b + NEXT := next];
      mem := mem[b + PREV := prev];
    }

    /**
      `kmalloc`: takes the lowest free block that fits. It panics only before
      `heap_init`; the corruption and out-of-bounds panics are unreachable.
     */
    method Kmalloc(size: nat) returns (o: Outcome<nat>)
      requires Valid()
      modifies this
      ensures Valid() && startHeader == old(startHeader)
      ensures o.Panic? <==> old(startHeader) == NULL
      ensures o.Done? ==>
                && Ready() && blocks == Malloc(old(blocks), size)
                && o.value == (if MallocIndex(old(blocks), size) == -1 then NULL
                               else Addr(old(blocks), MallocIndex(old(blocks), size)) + HEADER)
                && trusted == Trust(old(trusted), blocks)
                && SameOutside(old(mem), mem, Heads(blocks)) && MissesBlindSpots(old(mem), mem, old(trusted), blocks)
                && mem == if o.value == NULL then old(mem) else TakeStores(old(mem), o.value - HEADER, Align4(size))
    {
      hide Judged, Trust, SameOutside, Heads, TakeStores, MissesBlindSpots, Grab;
      if startHeader == NULL {
        return Panic;
      }
      assert |blocks| > 0 && Addr(blocks, 0) == HEAP_START;
      hide WellFormed, Addr;
      if size == 0 {
        TrustStays(mem, headers, blocks, trusted);
        return Done(NULL);
      }
      if size > HEAP_SIZE - HEADER {
        TrustStays(mem, headers, blocks, trusted);
        return Done(NULL);
      }
      var n := size;
      if n % 4 != 0 {
        n := n + 4 - n % 4;
      }
      assert n == Align4(size);
      var current := startHeader;
      ghost var k := 0;
      while current != NULL
        invariant 0 <= k <= |blocks|
        invariant current == if k < |blocks| then Addr(blocks, k) else NULL
        invariant FirstFit(blocks, n, 0) == FirstFit(blocks, n, k)
        invariant Ready() && blocks == old(blocks) && mem == old(mem) && trusted == old(trusted)
        decreases |blocks| - k
      {
        HeadJudged(mem, headers, blocks, trusted, k);
        if Peek(mem, current + MAGIC) != HEAP_MAGIC {
          assert false;
        }
        if FlagSet(mem, current) && Peek(mem, current) >= n {
          TakeBlock(current, n, k);
          return Done(current + HEADER);
        }
        current := Peek(mem, current + NEXT);
        k := k + 1;
      }
      TrustStays(mem, headers, blocks, trusted);
      return Done(NULL);
    }

    /** Split if worthwhile, then mark used; the bounds panic is unreachable. */
    method TakeBlock(current: nat, n: nat, ghost k: nat)
      requires Ready() && k < |blocks| && Fits(blocks[k], n) && GoodSize(n) && current == Addr(blocks, k)
      modifies this`mem, this`headers, this`blocks, this`trusted
      ensures Ready() && blocks == Grab(old(blocks), k, n)
      ensures mem == TakeStores(old(mem), current, n) && SameOutside(old(mem), mem, Heads(blocks))
      ensures trusted == Trust(old(trusted), blocks) && MissesBlindSpots(old(mem), mem, old(trusted), blocks)
    {
      hide Heads, BlindSpot, Mirrors, AllSettled, SameOutside, FlagWord, SplitStores, Trust, MissesBlindSpots;
      GrabKeeps(blocks, k, n);
      GrabInSteps(blocks, k, n);
      HeadLinked(mem, headers, blocks, k);
      ghost var m0, h0, bs0 := mem, headers, blocks;
      if Peek(mem, current) > n + HEADER + 4 {
        SplitHeads(blocks, k, n);
        SplitBlock(current, n, k);
      } else {
        assert SameOutside(m0, mem, Heads(blocks)) by { NothingOutside(m0, Heads(blocks)); }
      }
      ghost var m1, heads := mem, Heads(blocks);
      MarkSits(mem, headers, blocks, k, false, trusted);
      MarkHeads(blocks, k, false);
      mem := mem[current + FLAG := FlagWord(Peek(mem, current + FLAG), false)];
      headers := headers[current := headers[current].(isFree := false)];
      blocks := blocks[k := blocks[k].(free := false)];
      OutsideChain(m0, m1, mem, heads);
      TrustJudged(mem, headers, blocks, trusted);
      OutsideWider(m0, mem, heads, Heads(bs0) + Heads(blocks));
      MissedIff(m0, mem, h0, headers, trusted, bs0, blocks);
      trusted := Trust(trusted, blocks);
    }

    method SplitBlock(current: nat, n: nat, ghost k: nat)
      requires Sits(mem, headers, blocks, trusted) && k < |blocks| && current == Addr(blocks, k)
      requires blocks[k].size > n + HEADER + 4 && GoodSize(n)
      modifies this`mem, this`headers, this`blocks
      ensures blocks == SplitBlocks(old(blocks), k, n) && Peek(old(mem), current) >= n + HEADER
      ensures mem == SplitStores(old(mem), current, n) && SameOutside(old(mem), mem, Heads(blocks))
      ensures Sits(mem, headers, blocks, trusted) && Addr(blocks, k) == current
    {
      hide Heads, BlindSpot, Mirrors, AllSettled, SameOutside, Linked, StoreHeader, SplitHeaders, SplitBlocks, Addr,
        Aligned;
      SplitSits(mem, headers, blocks, k, n, trusted);
      SplitAddr(blocks, k, n, k);
      ghost var m := mem;
      var newBlock := current + HEADER + n;
      if newBlock >= HEAP_END {
        AddrMonotone(blocks, k, |blocks|);
        assert false;
      }
      var next := Peek(mem, current + NEXT);
      StoreFields(newBlock, Peek(mem, current) - n - HEADER, next, current);
      if next != NULL {
        mem := mem[next + PREV := newBlock];
      }
      mem := mem[current + NEXT := newBlock];
      mem := mem[current := n];
      assert mem == SplitStores(m, current, n);
      headers := SplitHeaders(headers, current, n);
      blocks := SplitBlocks(blocks, k, n);
    }

    /** The address whose 20 bytes `kfree(ptr)` takes for a header. */
    function HeaderOf(ptr: nat): nat {
      if ptr >= HEADER then ptr - HEADER else ptr + U32 - HEADER
    }

    /** `ptr` is the payload address of a block in use. */
    ghost predicate LivePayload(ptr: nat)
      reads this
    {
      ptr >= HEADER && LiveAt(blocks, ptr - HEADER)
    }

    /**
      `kfree`: a live block is released and merged with its free neighbours, null is
      ignored, and every other trusted pointer, and every stray one whose bytes fail a
      test, ends in a panic before anything is changed.
     */
    method Kfree(ptr: nat) returns (o: Outcome<()>)
      requires Valid()
      requires ptr == NULL || startHeader == NULL || HeaderOf(ptr) in trusted ||
               (ptr % 4 == 0 && Refused(mem, HeaderOf(ptr)))
      modifies this
      ensures Valid() && startHeader == old(startHeader)
      ensures o.Done? <==> ptr == NULL || (old(startHeader) != NULL && old(LivePayload(ptr)))
      ensures o.Panic? || ptr == NULL ==> blocks == old(blocks) && mem == old(mem) && trusted == old(trusted)
      ensures o.Done? && ptr != NULL ==>
                && Ready() && blocks == Free(old(blocks), ptr - HEADER)
                && trusted == Trust(old(trusted), blocks)
                && SameOutside(old(mem), mem, Heads(old(blocks)))
                && MissesBlindSpots(old(mem), mem, old(trusted), blocks)
                && mem == FreeStores(old(mem), ptr - HEADER)
    {
      hide Judged;
      if ptr == NULL {
        return Done(());
      }
      if startHeader == NULL {
        return Panic;
      }
      var header := HeaderOf(ptr);
      TestsDecide(mem, headers, blocks, trusted, header);
      if LiveAt(blocks, header) {
        HeaderInRegion(blocks, header);
      }
      if Peek(mem, header + MAGIC) != HEAP_MAGIC {
        return Panic;
      }
      if FlagSet(mem, header) {
        return Panic;
      }
      GiveBack(header, IndexOf(blocks, header));
      return Done(());
    }

    /** Mark free, merge right, merge left. */
    method GiveBack(header: nat, ghost k: nat)
      requires Ready() && k < |blocks| && !blocks[k].free && header == Addr(blocks, k)
      modifies this`mem, this`headers, this`blocks, this`trusted
      ensures Ready() && blocks == Release(old(blocks), k)
      ensures mem == FreeStores(old(mem), header) && SameOutside(old(mem), mem, Heads(old(blocks)))
      ensures trusted == Trust(old(trusted), blocks) && MissesBlindSpots(old(mem), mem, old(trusted), blocks)
    {
      hide Heads, BlindSpot, Mirrors, AllSettled, SameOutside, FlagWord, RightStores, LeftStores, WellFormed, Addr,
        Trust, MissesBlindSpots;
      ghost var bs, m0, h0 := blocks, mem, headers;
      ReleaseKeeps(blocks, k);
      ReleaseSteps(blocks, k);
      MarkSits(mem, headers, blocks, k, true, trusted);
      MarkHeads(blocks, k, true);
      MarkSeen(blocks, k, trusted);
      mem := mem[header + FLAG := FlagWord(Peek(mem, header + FLAG), true)];
      headers := headers[header := headers[header].(isFree := true)];
      blocks := blocks[k := blocks[k].(free := true)];
      ghost var m1 := mem;
      MergeRight(header, k);
      ghost var m2, heads := mem, Heads(blocks);
      OutsideChain(m0, m1, m2, Heads(bs));
      MergeLeft(header, k);
      OutsideWider(m2, mem, heads, Heads(bs));
      OutsideChain(m0, m2, mem, Heads(bs));
      TrustJudged(mem, headers, blocks, trusted);
      OutsideWider(m0, mem, Heads(bs), Heads(bs) + Heads(blocks));
      MissedIff(m0, mem, h0, headers, trusted, bs, blocks);
      trusted := Trust(trusted, blocks);
    }

    method MergeRight(header: nat, ghost k: nat)
      requires Sits(mem, headers, blocks, trusted) && k < |blocks| && header == Addr(blocks, k)
      requires Seen(blocks, k, trusted) && Seen(blocks, k + 1, trusted)
      modifies this`mem, this`headers, this`blocks
      ensures Sits(mem, headers, blocks, trusted)
      ensures blocks == if k + 1 < |old(blocks)| && old(blocks)[k + 1].free then MergeBlocks(old(blocks), k)
                        else old(blocks)
      ensures k < |blocks| && header == Addr(blocks, k) && Seen(blocks, k, trusted)
      ensures mem == RightStores(old(mem), header)
      ensures SameOutside(old(mem), mem, Heads(old(blocks))) && Heads(blocks) <= Heads(old(blocks))
    {
      hide Heads, Mirrors, AllSettled, SameOutside, Linked, Tiled, Addr, MergeHeaders, MergeBlocks, MergeStores;
      HeadLinked(mem, headers, blocks, k);
      NothingOutside(mem, Heads(blocks));
      if k + 1 < |blocks| {
        HeadLinked(mem, headers, blocks, k + 1);
        AddrMonotone(blocks, k, k + 1);
      }
      var right := Peek(mem, header + NEXT);
      if right != NULL && FlagSet(mem, right) {
        MergeSits(mem, headers, blocks, k, trusted);
        MergeHeads(blocks, k);
        MergeSeen(blocks, k, trusted);
        ghost var m := mem;
        StoreRightMerge(header, right);
        OutsideWider(m, mem, Heads(MergeBlocks(blocks, k)), Heads(blocks));
        headers := MergeHeaders(headers, header);
        blocks := MergeBlocks(blocks, k);
      }
    }

    /** The stores that take the right neighbour into the block at `header`. */
    method StoreRightMerge(header: nat, right: nat)
      requires Peek(mem, header + NEXT) == right && header + HEADER <= right
      modifies this`mem
      ensures mem == MergeStores(old(mem), header)
    {
      mem := mem[header := Peek(mem, header) + HEADER + Peek(mem, right)];
      mem := mem[header + NEXT := Peek(mem, right + NEXT)];
      var next := Peek(mem, header + NEXT);
      if next != NULL {
        mem := mem[next + PREV := header];
      }
    }

    /** The stores that give the block at `header` to its left neighbour. */
    method StoreLeftMerge(header: nat, left: nat)
      requires Peek(mem, header + PREV) == left && Peek(mem, left + NEXT) == header && left + HEADER <= header
      modifies this`mem
      ensures mem == MergeStores(old(mem), left)
    {
      mem := mem[left := Peek(mem, left) + HEADER + Peek(mem, header)];
      mem := mem[left + NEXT := Peek(mem, header + NEXT)];
      var next := Peek(mem, header + NEXT);
      if next != NULL {
        mem := mem[next + PREV := Peek(mem, header + PREV)];
      }
    }

    method MergeLeft(header: nat, ghost k: nat)
      requires Sits(mem, headers, blocks, trusted) && k < |blocks| && header == Addr(blocks, k)
      requires Seen(blocks, k, trusted) && blocks[k].free
      modifies this`mem, this`headers, this`blocks
      ensures Sits(mem, headers, blocks, trusted)
      ensures blocks == if k > 0 && old(blocks)[k - 1].free then MergeBlocks(old(blocks), k - 1) else old(blocks)
      ensures mem == LeftStores(old(mem), header)
      ensures SameOutside(old(mem), mem, Heads(old(blocks))) && Heads(blocks) <= Heads(old(blocks))
    {
      hide Heads, Mirrors, AllSettled, SameOutside, Linked, Tiled, Addr, MergeHeaders, MergeBlocks, MergeStores;
      HeadLinked(mem, headers, blocks, k);
      NothingOutside(mem, Heads(blocks));
      if k > 0 {
        HeadLinked(mem, headers, blocks, k - 1);
        AddrMonotone(blocks, k - 1, k);
      }
      var left := Peek(mem, header + PREV);
      if left != NULL && FlagSet(mem, left) {
        MergeSits(mem, headers, blocks, k - 1, trusted);
        MergeHeads(blocks, k - 1);
        ghost var m := mem;
        StoreLeftMerge(header, left);
        OutsideWider(m, mem, Heads(MergeBlocks(blocks, k - 1)), Heads(blocks));
        headers := MergeHeaders(headers, left);
        blocks := MergeBlocks(blocks, k - 1);
      }
    }

    /** A client stores a word into the payload of a block in use. */
    method Put(x: nat, v: nat)
      requires Ready() && InPayload(blocks, x)
      modifies this`mem, this`trusted
      ensures Ready() && mem == old(mem)[x := v]
      ensures trusted == Untouched(old(trusted), x)
    {
      PayloadOutside(blocks, x);
      PutJudged(mem, headers, blocks, trusted, x, v);
      mem := mem[x := v];
      trusted := Untouched(trusted, x);
    }
  }
}
