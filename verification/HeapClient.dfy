/** The heap as its kernel clients see it: a set of live allocations. */
module HeapClient {
  import opened Machine
  import opened HeapSpec
  import opened HeapOps
  import opened HeapRuns
  import opened HeapLinks
  import opened HeapWords
  import opened Heap

  /** Header address and granted size of a live allocation. */
  type Grant = (nat, nat)

  /** No two live allocations share an address. */
  lemma LiveUnique(bs: seq<Block>, x: Grant, y: Grant)
    requires x in Live(bs) && y in Live(bs) && x.0 == y.0
    ensures x == y
  {
    var i := LiveWitness(bs, 0, |bs|, x);
    var j := LiveWitness(bs, 0, |bs|, y);
    AddrInjective(bs, i, j);
  }

  /**
    `kmalloc` by a client: null exactly when the heap has no room, and then nothing
    changes; success adds one grant at a new address.
   */
  method Take(heap: KernelHeap, n: nat) returns (ptr: nat, ghost x: Grant)
    requires heap.Ready()
    modifies heap
    ensures heap.Ready() && heap.blocks == Malloc(old(heap.blocks), n)
    ensures ptr == NULL <==> !Room(old(heap.blocks), n)
    ensures ptr == NULL ==> heap.blocks == old(heap.blocks)
    ensures ptr != NULL ==>
              && ptr == x.0 + HEADER && n <= x.1
              && Live(heap.blocks) == Live(old(heap.blocks)) + {x}
              && (forall s :: (x.0, s) !in Live(old(heap.blocks)))
  {
    ghost var bs := heap.blocks;
    var o := heap.Kmalloc(n);
    ptr := o.value;
    ghost var i := MallocIndex(bs, n);
    x := (0, 0);
    if i != -1 {
      GrabKeeps(bs, i, Align4(n));
      x := (Addr(bs, i), heap.blocks[i].size);
    }
  }

  /** `kfree` by the owner of a grant never panics. */
  method Give(heap: KernelHeap, ptr: nat, ghost x: Grant)
    requires heap.Ready() && x in Live(heap.blocks) && ptr == x.0 + HEADER
    modifies heap
    ensures heap.Ready()
    ensures Live(heap.blocks) == Live(old(heap.blocks)) - {x}
  {
    ghost var bs := heap.blocks;
    LiveAtMember(bs, x.0, x.1);
    FreeKeeps(bs, x.0);
    LiveTrusted(heap, x.0);
    var o := heap.Kfree(ptr);
    if o.Panic? {
      assert false;
    }
  }

  /** Frees the one grant that `bs` lacks: the block list is `bs` again. */
  method Undo(heap: KernelHeap, ptr: nat, ghost x: Grant, ghost bs: seq<Block>)
    requires heap.Ready() && WellFormed(bs) && x !in Live(bs) && Live(heap.blocks) == Live(bs) + {x}
    requires ptr == x.0 + HEADER
    modifies heap
    ensures heap.Ready() && heap.blocks == bs
  {
    Give(heap, ptr, x);
    assert Live(heap.blocks) == Live(bs);
    Canonical(heap.blocks, bs);
  }

  // ----- runs on the heap object ------------------------------------------------------

  /** What one call returns; only `kmalloc` returns a pointer. */
  function Answer(bs: seq<Block>, op: Op): nat {
    if op.Alloc? && MallocIndex(bs, op.n) != -1 then Addr(bs, MallocIndex(bs, op.n)) + HEADER else NULL
  }

  ghost function Answers(bs: seq<Block>, ops: seq<Op>): seq<nat>
    requires HonestRun(bs, ops)
    decreases |ops|
  {
    if ops == [] then [] else [Answer(bs, ops[0])] + Answers(Step(bs, ops[0]), ops[1..])
  }

  /** The header addresses that `kfree` still judges rightly after a call, and after a run. */
  ghost function TrustStep(trusted: set<nat>, bs: seq<Block>, op: Op): set<nat>
    requires Honest(bs, op)
  {
    if op.Put? then Untouched(trusted, op.x) else Trust(trusted, Step(bs, op))
  }

  ghost function TrustRun(trusted: set<nat>, bs: seq<Block>, ops: seq<Op>): set<nat>
    requires HonestRun(bs, ops)
    decreases |ops|
  {
    if ops == [] then trusted else TrustRun(TrustStep(trusted, bs, ops[0]), Step(bs, ops[0]), ops[1..])
  }

  /** The heap object at one moment of a run. */
  datatype Snapshot = Snapshot(mem: Words, headers: Headers, blocks: seq<Block>, trusted: set<nat>)

  ghost function SnapshotOf(heap: KernelHeap): Snapshot
    reads heap
  {
    Snapshot(heap.mem, heap.headers, heap.blocks, heap.trusted)
  }

  ghost predicate Coherent(s: Snapshot) {
    WellFormed(s.blocks) && Judged(s.mem, s.headers, s.blocks, s.trusted)
  }

  /** One call as memory shows it: a client's word, or headers that let through exactly the blind spots. */
  ghost predicate HeapStep(s: Snapshot, s': Snapshot, op: Op) {
    && Honest(s.blocks, op)
    && s'.blocks == Step(s.blocks, op)
    && s'.trusted == TrustStep(s.trusted, s.blocks, op)
    && if op.Put? then s'.mem == s.mem[op.x := op.v]
       else MissesBlindSpots(s.mem, s'.mem, s.trusted, s'.blocks)
  }

  ghost predicate History(history: seq<Snapshot>, ops: seq<Op>) {
    && |history| == |ops| + 1
    && (forall i :: 0 <= i < |history| ==> Coherent(history[i]))
    && (forall i :: 0 <= i < |ops| ==> HeapStepAt(history, ops, i))
  }

  ghost predicate HeapStepAt(history: seq<Snapshot>, ops: seq<Op>, i: nat)
    requires i < |ops| && i + 1 < |history|
  {
    HeapStep(history[i], history[i + 1], ops[i])
  }

  lemma StepUnfolds(s: Snapshot, s': Snapshot, op: Op)
    requires HeapStep(s, s', op)
    ensures Honest(s.blocks, op) && s'.blocks == Step(s.blocks, op) && s'.trusted == TrustStep(s.trusted, s.blocks, op)
  {
  }

  /** The block lists and the trust of a history are those of the abstract run. */
  lemma {:induction false} HistoryRuns(history: seq<Snapshot>, ops: seq<Op>)
    requires History(history, ops)
    ensures HonestRun(history[0].blocks, ops)
    ensures history[|ops|].blocks == Run(history[0].blocks, ops)
    ensures history[|ops|].trusted == TrustRun(history[0].trusted, history[0].blocks, ops)
    decreases |ops|
  {
    hide History, Step, TrustStep, Honest;
    HistoryTail(history, ops);
    if ops != [] {
      HistoryRuns(history[1..], ops[1..]);
      assert history[1..][|ops[1..]|] == history[|ops|];
    }
  }

  lemma HistoryOpens(heap: KernelHeap)
    requires heap.Ready()
    ensures History([SnapshotOf(heap)], [])
  {
  }

  lemma HistoryTail(history: seq<Snapshot>, ops: seq<Op>)
    requires History(history, ops)
    ensures |history| == |ops| + 1
    ensures ops != [] ==>
              && History(history[1..], ops[1..]) && Honest(history[0].blocks, ops[0])
              && history[1].blocks == Step(history[0].blocks, ops[0])
              && history[1].trusted == TrustStep(history[0].trusted, history[0].blocks, ops[0])
  {
    hide HeapStep, Coherent;
    if ops != [] {
      assert HeapStepAt(history, ops, 0);
      StepUnfolds(history[0], history[1], ops[0]);
      forall i | 0 <= i < |ops| - 1
        ensures HeapStepAt(history[1..], ops[1..], i)
      {
        assert HeapStepAt(history, ops, i + 1);
      }
    }
  }

  lemma HistoryGrows(history: seq<Snapshot>, ops: seq<Op>, s: Snapshot, op: Op)
    requires History(history, ops) && Coherent(s) && HeapStep(history[|ops|], s, op)
    ensures History(history + [s], ops + [op])
  {
    forall i | 0 <= i < |ops| + 1
      ensures HeapStepAt(history + [s], ops + [op], i)
    {
      if i < |ops| {
        assert HeapStepAt(history, ops, i);
      }
    }
  }

  /** One call on the heap object is one `Step`, and an honest free does not panic. */
  method Perform(heap: KernelHeap, op: Op) returns (ptr: nat)
    requires heap.Ready() && Honest(heap.blocks, op)
    modifies heap
    ensures heap.Ready() && heap.blocks == Step(old(heap.blocks), op)
    ensures ptr == Answer(old(heap.blocks), op)
    ensures Coherent(SnapshotOf(heap)) && HeapStep(old(SnapshotOf(heap)), SnapshotOf(heap), op)
  {
    hide WellFormed, Judged, Trust, Untouched, MallocIndex, Addr, MissesBlindSpots;
    ptr := NULL;
    match op {
      case Alloc(n) =>
        var o := heap.Kmalloc(n);
        ptr := o.value;
      case Dealloc(a) =>
        LiveTrusted(heap, a);
        var o := heap.Kfree(a + HEADER);
        if o.Panic? {
          assert false;
        }
      case Put(x, v) =>
        heap.Put(x, v);
    }
  }

  lemma LiveIsHead(bs: seq<Block>, a: nat)
    ensures LiveAt(bs, a) ==> a in Heads(bs)
  {
    if LiveAt(bs, a) {
      HeadMember(bs, IndexOf(bs, a));
    }
  }

  lemma LiveTrusted(heap: KernelHeap, a: nat)
    requires heap.Ready() && LiveAt(heap.blocks, a)
    ensures a in heap.trusted
  {
    LiveIsHead(heap.blocks, a);
  }

  /** The next call of a run, and the calls after it. */
  lemma RestOfRun(bs: seq<Block>, ops: seq<Op>, i: nat)
    requires i <= |ops| && HonestRun(bs, ops[i..])
    ensures i == |ops| ==> Answers(bs, ops[i..]) == []
    ensures i < |ops| ==>
              && Honest(bs, ops[i]) && HonestRun(Step(bs, ops[i]), ops[i + 1..])
              && Answers(bs, ops[i..]) == [Answer(bs, ops[i])] + Answers(Step(bs, ops[i]), ops[i + 1..])
  {
    if i < |ops| {
      assert ops[i..][0] == ops[i] && ops[i..][1..] == ops[i + 1..];
    }
  }

  /**
    A whole honest run on the heap object: no call panics, every pointer is the one
    that first-fit grants, and the block list ends as the abstract run's.
   */
  method PerformAll(heap: KernelHeap, ops: seq<Op>) returns (ptrs: seq<nat>, ghost history: seq<Snapshot>)
    requires heap.Ready() && HonestRun(heap.blocks, ops)
    modifies heap
    ensures heap.Ready() && heap.blocks == Run(old(heap.blocks), ops)
    ensures ptrs == Answers(old(heap.blocks), ops)
    ensures heap.trusted == TrustRun(old(heap.trusted), old(heap.blocks), ops)
    ensures History(history, ops) && history[0] == old(SnapshotOf(heap)) && history[|ops|] == SnapshotOf(heap)
  {
    hide KernelHeap.Ready, Step, Answer, Honest, Coherent, History, HeapStep, HonestRun, Answers, Run, TrustRun;
    HistoryOpens(heap);
    ghost var bs, first := heap.blocks, SnapshotOf(heap);
    assert ops[0..] == ops;
    ptrs, history := [], [SnapshotOf(heap)];
    assert ops[..0] == [];
    for i := 0 to |ops|
      invariant heap.Ready() && HonestRun(heap.blocks, ops[i..])
      invariant ptrs + Answers(heap.blocks, ops[i..]) == Answers(bs, ops)
      invariant |history| == i + 1 && History(history, ops[..i])
      invariant history[0] == first && history[i] == SnapshotOf(heap)
    {
      RestOfRun(heap.blocks, ops, i);
      var ptr := Perform(heap, ops[i]);
      ptrs := ptrs + [ptr];
      HistoryGrows(history, ops[..i], SnapshotOf(heap), ops[i]);
      assert ops[..i] + [ops[i]] == ops[..i + 1];
      history := history + [SnapshotOf(heap)];
    }
    RestOfRun(heap.blocks, ops, |ops|);
    assert ops[..|ops|] == ops;
    HistoryRuns(history, ops);
  }

  /**
    Nothing a run does takes the address `a` out of `kfree`'s judgement: no client stores
    over its flag or magic word, and no header is put 12 bytes before it whose
    predecessor's address is a multiple of 256.
   */
  ghost predicate Undisturbed(bs: seq<Block>, ops: seq<Op>, a: nat)
    requires HonestRun(bs, ops)
    decreases |ops|
  {
    ops == [] ||
    (&& (if ops[0].Put? then ops[0].x != a + FLAG && ops[0].x != a + MAGIC else !BlindSpot(Step(bs, ops[0]), a))
     && Undisturbed(Step(bs, ops[0]), ops[1..], a))
  }

  lemma {:induction false} StaysTrusted(trusted: set<nat>, bs: seq<Block>, ops: seq<Op>, a: nat)
    requires HonestRun(bs, ops) && a in trusted && Undisturbed(bs, ops, a)
    ensures a in TrustRun(trusted, bs, ops)
    decreases |ops|
  {
    if ops != [] {
      StaysTrusted(TrustStep(trusted, bs, ops[0]), Step(bs, ops[0]), ops[1..], a);
    }
  }

  /**
    Freeing a grant after any honest run that leaves its old header undisturbed: the
    call returns exactly when the address is that of a live block, and otherwise
    panics, however often the block was freed, merged, split and granted again.
   */
  method FreeLater(heap: KernelHeap, n: nat, ops: seq<Op>) returns (ptr: nat, o: Outcome<()>)
    requires heap.Ready() && HonestRun(Malloc(heap.blocks, n), ops)
    requires Room(heap.blocks, n) ==> Undisturbed(Malloc(heap.blocks, n), ops, Answer(heap.blocks, Alloc(n)) - HEADER)
    modifies heap
    ensures ptr == Answer(old(heap.blocks), Alloc(n))
    ensures heap.Valid()
    ensures ptr != NULL ==>
              var bs := Run(Malloc(old(heap.blocks), n), ops);
              && (o.Done? <==> LiveAt(bs, ptr - HEADER))
              && heap.blocks == if o.Done? then Free(bs, ptr - HEADER) else bs
  {
    hide WellFormed, MallocIndex, Trust, Addr, Undisturbed, TrustRun;
    if Room(heap.blocks, n) {
      MallocFreeRoundTrip(heap.blocks, n);
    }
    ptr := Perform(heap, Alloc(n));
    ghost var bs, trusted := heap.blocks, heap.trusted;
    if ptr != NULL {
      LiveTrusted(heap, ptr - HEADER);
    }
    var ptrs;
    ghost var history;
    ptrs, history := PerformAll(heap, ops);
    if ptr == NULL {
      return ptr, Done(());
    }
    StaysTrusted(trusted, bs, ops, ptr - HEADER);
    o := heap.Kfree(ptr);
  }

  /** No client stores over the flag or the magic word of `a`. */
  ghost predicate NotOverwritten(ops: seq<Op>, a: nat) {
    forall i :: 0 <= i < |ops| && ops[i].Put? ==> ops[i].x != a + FLAG && ops[i].x != a + MAGIC
  }

  /** The magic word at `a` is intact in every moment of the run. */
  ghost predicate MagicIntact(history: seq<Snapshot>, a: nat) {
    forall i :: 0 <= i < |history| ==> Peek(history[i].mem, a + MAGIC) == HEAP_MAGIC
  }

  /** In moment `s` the tests of `kfree` refuse `a` exactly when it heads no live block. */
  ghost predicate RightAbout(s: Snapshot, a: nat) {
    Refused(s.mem, a) <==> !LiveAt(s.blocks, a)
  }

  lemma {:induction false} TrustedUntil(history: seq<Snapshot>, ops: seq<Op>, a: nat, n: nat)
    requires History(history, ops) && NotOverwritten(ops, a) && a in history[0].trusted && n <= |ops|
    requires forall i :: 0 <= i <= n ==> !BlindSpot(history[i].blocks, a)
    ensures a in history[n].trusted
  {
    if n > 0 {
      TrustedUntil(history, ops, a, n - 1);
      assert HeapStepAt(history, ops, n - 1);
      var op := ops[n - 1];
      if !op.Put? {
        assert history[n].trusted == Trust(history[n - 1].trusted, history[n].blocks);
      }
    }
  }

  /** The first moment at which `a` is in a blind spot. */
  lemma {:induction false} FirstBlind(history: seq<Snapshot>, a: nat, n: nat) returns (i: nat)
    requires n < |history| && BlindSpot(history[n].blocks, a)
    ensures i <= n && BlindSpot(history[i].blocks, a) && (forall j :: 0 <= j < i ==> !BlindSpot(history[j].blocks, a))
  {
    if j :| 0 <= j < n && BlindSpot(history[j].blocks, a) {
      i := FirstBlind(history, a, j);
    } else {
      i := n;
    }
  }

  /** The call that first puts `a` in a blind spot leaves it passing for a live block. */
  lemma BlindIsMissed(history: seq<Snapshot>, ops: seq<Op>, a: nat, i: nat)
    requires History(history, ops) && NotOverwritten(ops, a) && MagicIntact(history, a) && a in history[0].trusted
    requires i <= |ops| && BlindSpot(history[i].blocks, a)
    requires forall j :: 0 <= j < i ==> !BlindSpot(history[j].blocks, a)
    ensures !RightAbout(history[i], a)
  {
    hide WellFormed, Addr;
    var s := history[i];
    LiveIsHead(s.blocks, a);
    assert Coherent(history[0]) && Coherent(s);
    assert i > 0;
    TrustedUntil(history, ops, a, i - 1);
    assert HeapStepAt(history, ops, i - 1);
    assert !ops[i - 1].Put?;
    if a in Heads(s.blocks) {
      HeadSeen(s.headers, s.blocks, a);
    }
  }

  /**
    Whole runs, both ways: while an old header's magic word stays intact, the tests of
    `kfree` are right about its address after every call of the run if and only if no
    call puts it in a blind spot.
   */
  lemma DetectedIff(history: seq<Snapshot>, ops: seq<Op>, a: nat)
    requires History(history, ops) && NotOverwritten(ops, a) && MagicIntact(history, a) && a in history[0].trusted
    ensures (forall i :: 0 <= i < |history| ==> RightAbout(history[i], a)) <==>
            (forall i :: 0 <= i < |history| ==> !BlindSpot(history[i].blocks, a))
  {
    hide RightAbout, BlindSpot, WellFormed;
    if n :| 0 <= n < |history| && BlindSpot(history[n].blocks, a) {
      var i := FirstBlind(history, a, n);
      BlindIsMissed(history, ops, a, i);
    } else {
      forall i | 0 <= i < |history|
        ensures RightAbout(history[i], a)
      {
        TrustedUntil(history, ops, a, i);
        RightIfTrusted(history[i], a);
      }
    }
  }

  lemma RightIfTrusted(s: Snapshot, a: nat)
    requires Coherent(s) && a in s.trusted
    ensures RightAbout(s, a)
  {
    hide WellFormed, Judged;
    TestsDecide(s.mem, s.headers, s.blocks, s.trusted, a);
  }

  // ----- the double free that is missed -----------------------------------------------

  /** Taking `n` bytes from a list that ends in one large free block, all before it being in use. */
  lemma TakeLast(bs: seq<Block>, n: nat)
    requires |bs| <= 2 && (|bs| == 2 ==> !bs[0].free)
    requires |bs| > 0 && bs[|bs| - 1].free && bs[|bs| - 1].size > n + HEADER + 4
    requires GoodSize(n) && n <= HEAP_SIZE - HEADER
    ensures MallocIndex(bs, n) == |bs| - 1
    ensures Malloc(bs, n) == bs[..|bs| - 1] + [Block(n, false), Block(bs[|bs| - 1].size - n - HEADER, true)]
  {
    assert FirstFit(bs, n, |bs| - 1) == |bs| - 1;
  }

  /** The block lists while 52 and 4 bytes are granted and freed again. */
  lemma ExampleLists()
    ensures var b1 := Malloc(INITIAL, 52);
            var b2 := Malloc(b1, 4);
            && MallocIndex(INITIAL, 52) == 0 && Addr(INITIAL, 0) == HEAP_START
            && |b1| == 2 && b1[1].free && Addr(b1, 0) == HEAP_START && Addr(b1, 1) == HEAP_START + 72
            && MallocIndex(b1, 4) == 1
            && LiveAt(b2, HEAP_START + 72) && Free(b2, HEAP_START + 72) == b1
            && LiveAt(b1, HEAP_START) && Free(b1, HEAP_START) == INITIAL
  {
    var b1 := Malloc(INITIAL, 52);
    InitialWellFormed();
    TakeLast(INITIAL, 52);
    MallocKeeps(INITIAL, 52);
    MallocFreeRoundTrip(INITIAL, 52);
    assert Addr(b1, 1) == Addr(b1, 0) + HEADER + 52;
    TakeLast(b1, 4);
    MallocFreeRoundTrip(b1, 4);
  }

  lemma LastList()
    ensures MallocIndex(INITIAL, 40) == 0 && Addr(INITIAL, 0) == HEAP_START
    ensures !LiveAt(Malloc(INITIAL, 40), HEAP_START + 72)
  {
    TakeLast(INITIAL, 40);
    assert Addr(Malloc(INITIAL, 40), 1) == HEAP_START + 60;
  }

  /** 52 and 4 bytes are granted and freed again: the region is one block, and an old header's magic stays. */
  method GrantAndFree(mem: Words) returns (heap: KernelHeap, ptr: nat)
    ensures heap.Ready() && heap.blocks == INITIAL && fresh(heap)
    ensures ptr == HEAP_START + 92 && Peek(heap.mem, ptr - HEADER + MAGIC) == HEAP_MAGIC
  {
    hide Malloc, MallocIndex, Free, WellFormed, Judged, Trust, FreeStores, TakeStores, SameOutside, MissesBlindSpots,
      Heads, Addr, LiveAt;
    ExampleLists();
    heap := new KernelHeap(mem);
    heap.InitList();
    ghost var b1 := Malloc(INITIAL, 52);
    var first := heap.Kmalloc(52);
    var second := heap.Kmalloc(4);
    ptr := second.value;
    LiveTrusted(heap, ptr - HEADER);
    var o := heap.Kfree(ptr);
    HeadJudged(heap.mem, heap.headers, b1, heap.trusted, 0);
    HeadJudged(heap.mem, heap.headers, b1, heap.trusted, 1);
    AbsorbKeepsMagic(heap.mem, HEAP_START, ptr - HEADER);
    LiveTrusted(heap, HEAP_START);
    o := heap.Kfree(first.value);
  }

  /**
    A run without a single client store after which `kfree` would free a pointer a second
    time. After the grants of 52 and 4 bytes are freed, 40 bytes are granted; the header
    of the rest is then stored 12 bytes before the old header of the 4 bytes, whose flag
    becomes the last byte of the heap's start address.
   */
  method MissedDoubleFree(mem: Words) returns (heap: KernelHeap, ptr: nat)
    ensures heap.Ready() && ptr == HEAP_START + 92
    ensures !heap.LivePayload(ptr) && !Refused(heap.mem, ptr - HEADER)
  {
    hide Malloc, MallocIndex, WellFormed, Judged, Trust, TakeStores, SameOutside, MissesBlindSpots, Heads, Addr, LiveAt;
    LastList();
    heap, ptr := GrantAndFree(mem);
    HeadJudged(heap.mem, heap.headers, INITIAL, heap.trusted, 0);
    SplitBlinds(heap.mem, HEAP_START, 40);
    var third := heap.Kmalloc(40);
  }
}
