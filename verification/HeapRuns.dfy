/** Whole runs of the heap: what every `kmalloc`/`kfree` keeps, and canonical form. */
module HeapRuns {
  import opened HeapSpec
  import opened HeapOps

  /** The block that `kmalloc(n)` takes, or -1 when it returns null. */
  function MallocIndex(bs: seq<Block>, n: nat): int {
    if n == 0 || n > HEAP_SIZE - HEADER then -1 else FirstFit(bs, Align4(n), 0)
  }

  /** `kmalloc(n)` succeeds on `bs`. */
  predicate Room(bs: seq<Block>, n: nat) { MallocIndex(bs, n) != -1 }

  function Malloc(bs: seq<Block>, n: nat): seq<Block> {
    var i := MallocIndex(bs, n);
    if i == -1 then bs else Grab(bs, i, Align4(n))
  }

  /** `a` is the header address of a live block. */
  ghost predicate LiveAt(bs: seq<Block>, a: nat) {
    exists i :: 0 <= i < |bs| && !bs[i].free && Addr(bs, i) == a
  }

  ghost function IndexOf(bs: seq<Block>, a: nat): (i: nat)
    requires LiveAt(bs, a)
    ensures i < |bs| && !bs[i].free && Addr(bs, i) == a
  {
    var i :| 0 <= i < |bs| && !bs[i].free && Addr(bs, i) == a;
    i
  }

  /** `kfree` of the payload behind the live header at `a`. */
  ghost function Free(bs: seq<Block>, a: nat): seq<Block>
    requires LiveAt(bs, a)
  {
    Release(bs, IndexOf(bs, a))
  }

  lemma LiveAtMember(bs: seq<Block>, a: nat, s: nat)
    requires (a, s) in Live(bs)
    ensures LiveAt(bs, a) && bs[IndexOf(bs, a)].size == s
  {
    var k := LiveWitness(bs, 0, |bs|, (a, s));
    AddrInjective(bs, k, IndexOf(bs, a));
  }

  lemma FreeKeeps(bs: seq<Block>, a: nat)
    requires WellFormed(bs) && LiveAt(bs, a)
    ensures WellFormed(Free(bs, a))
    ensures Live(Free(bs, a)) == Live(bs) - {(a, bs[IndexOf(bs, a)].size)}
    ensures (a, bs[IndexOf(bs, a)].size) in Live(bs)
  {
    ReleaseKeeps(bs, IndexOf(bs, a));
    LiveMember(bs, 0, |bs|, IndexOf(bs, a));
  }

  lemma MallocKeeps(bs: seq<Block>, n: nat)
    requires WellFormed(bs)
    ensures WellFormed(Malloc(bs, n))
  {
    var i := MallocIndex(bs, n);
    if i != -1 {
      GrabKeeps(bs, i, Align4(n));
    }
  }

  /**
    `kmalloc(n)` returns null exactly when `n` is 0 or no free block holds `n` bytes;
    otherwise it grants the lowest such block, trimmed to at most 24 bytes of slack.
   */
  lemma MallocGrant(bs: seq<Block>, n: nat)
    requires WellFormed(bs)
    ensures var i := MallocIndex(bs, n);
            && (i == -1 <==> n == 0 || forall k :: 0 <= k < |bs| ==> !Fits(bs[k], n))
            && (i != -1 ==>
                  && Fits(bs[i], n) && (forall k :: 0 <= k < i ==> !Fits(bs[k], n))
                  && i < |Malloc(bs, n)| && !Malloc(bs, n)[i].free
                  && Align4(n) <= Malloc(bs, n)[i].size <= Align4(n) + HEADER + 4
                  && Malloc(bs, n)[i].size == if bs[i].size > Align4(n) + 24 then Align4(n) else bs[i].size)
  {
    hide Live;
    forall k | 0 <= k < |bs|
      ensures Fits(bs[k], n) == Fits(bs[k], Align4(n))
      ensures Fits(bs[k], n) ==> n <= HEAP_SIZE - HEADER
    {
      assert GoodSize(bs[k].size);
      AddrMonotone(bs, k, |bs|);
    }
    var i := MallocIndex(bs, n);
    if i != -1 {
      GrabKeeps(bs, i, Align4(n));
      assert Malloc(bs, n)[i] == Carve(bs[i], Align4(n))[0];
    }
  }

  // ----- order of frees, and round trips ----------------------------------------------

  /** Freeing two live blocks in either order gives the same list. */
  lemma FreesCommute(bs: seq<Block>, p: nat, q: nat)
    requires WellFormed(bs) && p != q && LiveAt(bs, p) && LiveAt(bs, q)
    ensures LiveAt(Free(bs, p), q) && LiveAt(Free(bs, q), p)
    ensures Free(Free(bs, p), q) == Free(Free(bs, q), p)
  {
    var sp, sq := bs[IndexOf(bs, p)].size, bs[IndexOf(bs, q)].size;
    FreeKeeps(bs, p);
    FreeKeeps(bs, q);
    LiveAtMember(Free(bs, p), q, sq);
    LiveAtMember(Free(bs, q), p, sp);
    FreeKeeps(Free(bs, p), q);
    FreeKeeps(Free(bs, q), p);
    Canonical(Free(Free(bs, p), q), Free(Free(bs, q), p));
  }

  /** `kmalloc` followed by `kfree` of its result restores the exact list. */
  lemma MallocFreeRoundTrip(bs: seq<Block>, n: nat)
    requires WellFormed(bs) && MallocIndex(bs, n) != -1
    ensures var a := Addr(bs, MallocIndex(bs, n));
            LiveAt(Malloc(bs, n), a) && Free(Malloc(bs, n), a) == bs
  {
    var i := MallocIndex(bs, n);
    var cs := Malloc(bs, n);
    var a := Addr(bs, i);
    GrabKeeps(bs, i, Align4(n));
    LiveAtMember(cs, a, cs[i].size);
    FreeKeeps(cs, a);
    Canonical(Free(cs, a), bs);
  }

  // ----- runs -----------------------------------------------------------------------

  /** `kmalloc`, `kfree`, or a client's store of a word into memory it was granted. */
  datatype Op = Alloc(n: nat) | Dealloc(a: nat) | Put(x: nat, v: nat)

  /** `x` is a word of the payload of a block in use. */
  ghost predicate InPayload(bs: seq<Block>, x: nat) {
    x % 4 == 0 &&
    exists k :: 0 <= k < |bs| && !bs[k].free && Addr(bs, k) + HEADER <= x < Addr(bs, k) + HEADER + bs[k].size
  }

  /** Clients free only what is live and store only into what they were granted. */
  ghost predicate Honest(bs: seq<Block>, op: Op) {
    match op
    case Alloc(_) => true
    case Dealloc(a) => LiveAt(bs, a)
    case Put(x, _) => InPayload(bs, x)
  }

  ghost predicate HonestRun(bs: seq<Block>, ops: seq<Op>)
    decreases |ops|
  {
    ops == [] || (Honest(bs, ops[0]) && HonestRun(Step(bs, ops[0]), ops[1..]))
  }

  ghost function Step(bs: seq<Block>, op: Op): seq<Block>
    requires Honest(bs, op)
  {
    match op
    case Alloc(n) => Malloc(bs, n)
    case Dealloc(a) => Free(bs, a)
    case Put(_, _) => bs
  }

  ghost function Run(bs: seq<Block>, ops: seq<Op>): seq<Block>
    requires HonestRun(bs, ops)
    decreases |ops|
  {
    if ops == [] then bs else Run(Step(bs, ops[0]), ops[1..])
  }

  /** Every run keeps the blocks tiling the region, with no two free neighbours. */
  lemma {:induction false} RunKeepsWellFormed(bs: seq<Block>, ops: seq<Op>)
    requires WellFormed(bs) && HonestRun(bs, ops)
    ensures WellFormed(Run(bs, ops))
    decreases |ops|
  {
    if ops != [] {
      match ops[0] {
        case Alloc(n) => MallocKeeps(bs, n);
        case Dealloc(a) => FreeKeeps(bs, a);
        case Put(_, _) =>
      }
      RunKeepsWellFormed(Step(bs, ops[0]), ops[1..]);
    }
  }

  lemma InitialWellFormed()
    ensures WellFormed(INITIAL) && Live(INITIAL) == {}
  {
    assert Addr(INITIAL, 1) == Addr(INITIAL, 0) + HEADER + INITIAL[0].size;
    assert LiveIn(INITIAL, 0, 1) == LiveIn(INITIAL, 0, 0);
  }

  /** Two runs that leave the same allocations live leave the same block list. */
  lemma RunsAgree(first: seq<Op>, second: seq<Op>)
    requires HonestRun(INITIAL, first) && HonestRun(INITIAL, second)
    requires Live(Run(INITIAL, first)) == Live(Run(INITIAL, second))
    ensures Run(INITIAL, first) == Run(INITIAL, second)
  {
    InitialWellFormed();
    RunKeepsWellFormed(INITIAL, first);
    RunKeepsWellFormed(INITIAL, second);
    Canonical(Run(INITIAL, first), Run(INITIAL, second));
  }

  /** A run that frees everything it allocated, in any order, ends where it began. */
  lemma FreeingAllRestores(bs: seq<Block>, ops: seq<Op>)
    requires WellFormed(bs) && HonestRun(bs, ops) && Live(Run(bs, ops)) == Live(bs)
    ensures Run(bs, ops) == bs
    ensures Live(bs) == {} ==> Run(bs, ops) == INITIAL
  {
    RunKeepsWellFormed(bs, ops);
    Canonical(Run(bs, ops), bs);
    InitialWellFormed();
    if Live(bs) == {} {
      Canonical(bs, INITIAL);
    }
  }

  // ----- layout ---------------------------------------------------------------------

  function SizesBelow(bs: seq<Block>, i: nat): nat
    requires i <= |bs|
  {
    if i == 0 then 0 else SizesBelow(bs, i - 1) + bs[i - 1].size
  }

  lemma {:induction false} AddrIsSum(bs: seq<Block>, i: nat)
    requires i <= |bs|
    ensures Addr(bs, i) == HEAP_START + SizesBelow(bs, i) + HEADER * i
  {
    if i > 0 {
      AddrIsSum(bs, i - 1);
    }
  }

  /** Payload bytes plus 20 bytes a header always make up the whole region. */
  lemma BytesConserved(bs: seq<Block>)
    requires WellFormed(bs)
    ensures SizesBelow(bs, |bs|) + HEADER * |bs| == HEAP_SIZE
  {
    AddrIsSum(bs, |bs|);
  }

  /**
    A payload byte of block `i` belongs to no header and to no other payload, and
    lies inside the region; so a client that writes inside its grant cannot damage
    the list.
   */
  lemma PayloadIsolated(bs: seq<Block>, i: nat, j: nat, x: nat)
    requires WellFormed(bs) && i < |bs| && j < |bs|
    requires Addr(bs, i) + HEADER <= x < Addr(bs, i) + HEADER + bs[i].size
    ensures !(Addr(bs, j) <= x < Addr(bs, j) + HEADER)
    ensures j != i ==> !(Addr(bs, j) + HEADER <= x < Addr(bs, j) + HEADER + bs[j].size)
    ensures HEAP_START + HEADER <= x < HEAP_END
  {
    AddrMonotone(bs, i, |bs|);
    if i < j {
      AddrMonotone(bs, i, j);
    } else if j < i {
      AddrMonotone(bs, j, i);
    }
  }
}
