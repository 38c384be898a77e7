/**
  Whole runs of the physical memory manager.

  The contracts of Pmm.FrameAllocator tie every call to plain first-fit on the
  frame map, so a run of calls is a run of `Step`. Clients may free only frames
  they hold.
 */
module PmmRuns {
  import opened Machine
  import opened Frames
  import P = Pmm

  datatype Op = Alloc | AllocLow(maxAddr: nat) | Free(frame: nat)

  datatype Client = Client(used: seq<bool>, held: set<nat>)

  /** Frames an operation may pick from. */
  function Reach(used: seq<bool>, op: Op): (n: nat)
    ensures n <= |used|
  {
    match op
    case AllocLow(maxAddr) => P.LowLimit(|used|, maxAddr)
    case _ => |used|
  }

  /** The frame an allocation hands out, or -1. */
  function Granted(c: Client, op: Op): int {
    if op.Free? then -1 else FirstFree(c.used, 0, Reach(c.used, op))
  }

  predicate Honest(c: Client, op: Op) {
    op.Free? ==> op.frame in c.held && op.frame < |c.used|
  }

  function Step(c: Client, op: Op): Client
    requires Honest(c, op)
  {
    if op.Free? then Client(c.used[op.frame := false], c.held - {op.frame})
    else
      var f := Granted(c, op);
      if f == -1 then c else Client(c.used[f := true], c.held + {f})
  }

  predicate HonestRun(c: Client, ops: seq<Op>)
    decreases |ops|
  {
    ops == [] || (Honest(c, ops[0]) && HonestRun(Step(c, ops[0]), ops[1..]))
  }

  function Run(c: Client, ops: seq<Op>): Client
    requires HonestRun(c, ops)
    decreases |ops|
  {
    if ops == [] then c else Run(Step(c, ops[0]), ops[1..])
  }

  /** Every call on the allocator object is one `Step`, and an honest free does not panic. */
  method Perform(pmm: P.FrameAllocator, op: Op, ghost held: set<nat>) returns (addr: nat, ghost c: Client)
    requires pmm.Valid() && Honest(Client(pmm.used, held), op) && (op.Free? ==> op.frame > 0 && pmm.used[op.frame])
    modifies pmm, pmm.bitmap
    ensures pmm.Valid()
    ensures c == Step(Client(old(pmm.used), held), op) && pmm.used == c.used
    ensures var f := Granted(Client(old(pmm.used), held), op); addr == if f == -1 then 0 else f * PAGE_SIZE
  {
    addr, c := 0, Step(Client(pmm.used, held), op);
    match op {
      case Alloc => addr := pmm.AllocPage();
      case AllocLow(maxAddr) => addr := pmm.AllocPageLow(maxAddr);
      case Free(frame) =>
        var o := pmm.FreePage(frame * PAGE_SIZE);
        if o.Panic? {
          assert false;
        }
    }
  }

  /** Every used frame is either reserved since boot or held, and never both. */
  predicate Accounted(boot: seq<bool>, c: Client) {
    && |c.used| == |boot|
    && (forall f :: 0 <= f < |boot| ==> (c.used[f] <==> boot[f] || f in c.held))
    && (forall f :: f in c.held ==> f < |boot| && !boot[f])
  }

  lemma {:induction false} RunKeepsAccounts(boot: seq<bool>, c: Client, ops: seq<Op>)
    requires Accounted(boot, c) && HonestRun(c, ops)
    ensures Accounted(boot, Run(c, ops))
    decreases |ops|
  {
    if ops != [] {
      StepKeepsAccounts(boot, c, ops[0]);
      RunKeepsAccounts(boot, Step(c, ops[0]), ops[1..]);
    }
  }

  /** One honest step keeps the accounts. */
  lemma StepKeepsAccounts(boot: seq<bool>, c: Client, op: Op)
    requires Accounted(boot, c) && Honest(c, op)
    ensures Accounted(boot, Step(c, op))
  {
    FirstFreeSpec(c.used, 0, Reach(c.used, op));
  }

  /** The addresses that a run's calls return; a free returns none, here 0. */
  function Answers(c: Client, ops: seq<Op>): seq<nat>
    requires HonestRun(c, ops)
    decreases |ops|
  {
    if ops == [] then []
    else
      var f := Granted(c, ops[0]);
      [if f < 0 then 0 else f * PAGE_SIZE] + Answers(Step(c, ops[0]), ops[1..])
  }

  /** The next call of a run, and the calls after it. */
  lemma RestOfRun(c: Client, ops: seq<Op>, i: nat)
    requires i <= |ops| && HonestRun(c, ops[i..])
    ensures i == |ops| ==> Run(c, ops[i..]) == c && Answers(c, ops[i..]) == []
    ensures i < |ops| ==>
              && Honest(c, ops[i]) && HonestRun(Step(c, ops[i]), ops[i + 1..])
              && Run(c, ops[i..]) == Run(Step(c, ops[i]), ops[i + 1..])
              && var f := Granted(c, ops[i]);
                 Answers(c, ops[i..]) == [if f == -1 then 0 else f * PAGE_SIZE] + Answers(Step(c, ops[i]), ops[i + 1..])
  {
    if i < |ops| {
      assert ops[i..][0] == ops[i] && ops[i..][1..] == ops[i + 1..];
      FirstFreeSpec(c.used, 0, Reach(c.used, ops[i]));
    }
  }

  lemma AccountsOpen(pmm: P.FrameAllocator)
    requires pmm.Valid()
    ensures Accounted(pmm.used, Client(pmm.used, {})) && (|pmm.used| > 0 ==> pmm.used[0])
  {
  }

  /** What a client frees is in use and is not frame 0. */
  lemma HonestFree(pmm: P.FrameAllocator, boot: seq<bool>, c: Client, op: Op)
    requires pmm.Valid() && pmm.used == c.used && Accounted(boot, c) && Honest(c, op) && (|boot| > 0 ==> boot[0])
    ensures op.Free? ==> 0 < op.frame < |c.used| && c.used[op.frame]
  {
  }

  /**
    A whole honest run on the allocator object: no call panics, every call returns
    what first-fit returns, and the frame map ends as the abstract run's.
   */
  method PerformAll(pmm: P.FrameAllocator, ops: seq<Op>) returns (addrs: seq<nat>)
    requires pmm.Valid() && HonestRun(Client(pmm.used, {}), ops)
    modifies pmm, pmm.bitmap
    ensures pmm.Valid()
    ensures pmm.used == Run(Client(old(pmm.used), {}), ops).used
    ensures addrs == Answers(Client(old(pmm.used), {}), ops)
  {
    hide FirstFree, Reach, Step, Granted, Honest, HonestRun, Run, Answers, Accounted, P.FrameAllocator.Valid;
    AccountsOpen(pmm);
    ghost var boot := pmm.used;
    ghost var c0 := Client(boot, {});
    ghost var c := c0;
    addrs := [];
    assert ops[0..] == ops;
    for i := 0 to |ops|
      invariant pmm.Valid() && c.used == pmm.used && Accounted(boot, c) && (|boot| > 0 ==> boot[0])
      invariant HonestRun(c, ops[i..])
      invariant Run(c, ops[i..]) == Run(c0, ops)
      invariant addrs + Answers(c, ops[i..]) == Answers(c0, ops)
    {
      RestOfRun(c, ops, i);
      StepKeepsAccounts(boot, c, ops[i]);
      HonestFree(pmm, boot, c, ops[i]);
      var addr;
      addr, c := Perform(pmm, ops[i], c.held);
      addrs := addrs + [addr];
    }
    RestOfRun(c, ops, |ops|);
  }

  /** What a run answers is null or the address of a frame that was free at boot. */
  lemma {:induction false} AnswersWereFree(boot: seq<bool>, c: Client, ops: seq<Op>, k: nat)
    requires Accounted(boot, c) && HonestRun(c, ops) && k < |ops|
    ensures |Answers(c, ops)| == |ops|
    ensures var a := Answers(c, ops)[k]; a % 4096 == 0 && (a != 0 ==> a / 4096 < |boot| && !boot[a / 4096])
    decreases |ops|
  {
    AnswersLength(c, ops);
    StepKeepsAccounts(boot, c, ops[0]);
    if k > 0 {
      AnswersWereFree(boot, Step(c, ops[0]), ops[1..], k - 1);
    } else {
      FirstFreeSpec(c.used, 0, Reach(c.used, ops[0]));
    }
  }

  lemma {:induction false} AnswersLength(c: Client, ops: seq<Op>)
    requires HonestRun(c, ops)
    ensures |Answers(c, ops)| == |ops|
    decreases |ops|
  {
    if ops != [] {
      AnswersLength(Step(c, ops[0]), ops[1..]);
    }
  }

  /**
    A whole honest run on the allocator as `pmm_init` leaves it: no page that it hands
    out has a byte of page 0, of the page of BootInfo and the E820 map, of the kernel or
    of the bitmap, and each has a byte of an entry of kind 1.
   */
  method PerformBooted(pmm: P.FrameAllocator, ops: seq<Op>, entries: seq<P.E820Entry>, kernelSize: nat)
      returns (addrs: seq<nat>)
    requires pmm.Valid() && HonestRun(Client(pmm.used, {}), ops)
    requires P.BootMap(pmm.used, entries, kernelSize, pmm.bitmap.Length)
    modifies pmm, pmm.bitmap
    ensures pmm.Valid() && |addrs| == |ops|
    ensures forall k, x: nat :: 0 <= k < |addrs| && addrs[k] != 0 && P.InPage(x, addrs[k]) ==>
              && 0x1000 <= x && !(0x5000 <= x < 0x6000)
              && !(0x1_0000 <= x < 0x1_0000 + kernelSize) && !(0x2_0000 <= x < 0x2_0000 + pmm.bitmap.Length)
    ensures forall k :: 0 <= k < |addrs| && addrs[k] != 0 ==>
              exists i :: 0 <= i < |entries| && entries[i].kind == 1 && entries[i].length > 0 &&
                          entries[i].base < addrs[k] + 4096 && addrs[k] < entries[i].base + entries[i].length
  {
    ghost var boot := pmm.used;
    P.BootMapBytes(boot, entries, kernelSize, pmm.bitmap.Length);
    AnswersLength(Client(boot, {}), ops);
    hide P.BootMap;
    addrs := PerformAll(pmm, ops);
    forall k | 0 <= k < |addrs|
      ensures addrs[k] % 4096 == 0 && (addrs[k] != 0 ==> addrs[k] / 4096 < |boot| && !boot[addrs[k] / 4096])
    {
      AnswersWereFree(boot, Client(boot, {}), ops, k);
    }
    forall k, x: nat | 0 <= k < |addrs| && addrs[k] != 0 && P.InPage(x, addrs[k])
      ensures !P.Kept(boot, x)
    {
      P.SameFrame(addrs[k], x);
    }
  }

  /**
    In every honest run from boot, an allocation never hands out a frame that is
    still held or that boot reserved; it fails only when nothing in reach is free;
    what it hands out is the lowest free frame.
   */
  lemma GrantsAreFresh(boot: seq<bool>, ops: seq<Op>, op: Op)
    requires !op.Free? && HonestRun(Client(boot, {}), ops)
    ensures var c := Run(Client(boot, {}), ops);
            var f := Granted(c, op);
            && |c.used| == |boot|
            && (f == -1 <==> forall g :: 0 <= g < Reach(boot, op) ==> boot[g] || g in c.held)
            && (f != -1 ==> f < Reach(boot, op) && !boot[f] && f !in c.held &&
                            (forall g :: 0 <= g < f ==> boot[g] || g in c.held))
  {
    RunKeepsAccounts(boot, Client(boot, {}), ops);
    var c := Run(Client(boot, {}), ops);
    FirstFreeSpec(c.used, 0, Reach(boot, op));
    assert Reach(c.used, op) == Reach(boot, op);
  }

  /**
    After `pmm_init` nothing with a byte of page 0, the BootInfo page, the kernel or the
    bitmap is ever handed out or held, so within 4 GiB null always means out of memory.
   */
  lemma ReservedNeverGranted(boot: seq<bool>, kernelSize: nat, bitmapSize: nat, ops: seq<Op>, op: Op)
    requires !op.Free? && HonestRun(Client(boot, {}), ops)
    requires forall x: nat ::
               (|| x < 0x1000 || 0x5000 <= x < 0x6000
                || 0x1_0000 <= x < 0x1_0000 + kernelSize || 0x2_0000 <= x < 0x2_0000 + bitmapSize) ==>
               P.Kept(boot, x)
    ensures var c := Run(Client(boot, {}), ops);
            var f := Granted(c, op);
            forall h: nat, x: nat :: (h == f || h in c.held) && P.InPage(x, h * 4096) ==>
              && 0x1000 <= x && !(0x5000 <= x < 0x6000)
              && !(0x1_0000 <= x < 0x1_0000 + kernelSize) && !(0x2_0000 <= x < 0x2_0000 + bitmapSize)
  {
    RunKeepsAccounts(boot, Client(boot, {}), ops);
    GrantsAreFresh(boot, ops, op);
    var c := Run(Client(boot, {}), ops);
    var f := Granted(c, op);
    forall h: nat, x: nat | (h == f || h in c.held) && P.InPage(x, h * 4096)
      ensures !P.Kept(boot, x)
    {
      P.SameFrame(h * 4096, x);
    }
  }

  /**
    Usable ranges are rounded outwards. Every frame an entry frees lies wholly
    inside it exactly when both ends of the entry are page-aligned; line 60 of the
    kernel's README.md asks for inward rounding, which this code does not do.
   */
  lemma RoundingConservativeIff(base: nat, length: nat)
    requires length > 0
    ensures (forall f: nat :: P.Touches(base, length, f) ==> P.Covers(base, length, f)) <==>
            base % PAGE_SIZE == 0 && (base + length) % PAGE_SIZE == 0
  {
    var first := base / PAGE_SIZE;
    var last := (base + length - 1) / PAGE_SIZE;
    assert P.Touches(base, length, first);
    assert P.Touches(base, length, last);
  }

  /** Byte `x` is usable memory. */
  ghost predicate UsableByte(entries: seq<P.E820Entry>, x: nat) {
    exists i :: 0 <= i < |entries| && entries[i].Usable() && entries[i].base <= x < entries[i].base + entries[i].length
  }

  /** Every byte of frame `f` is usable memory. */
  ghost predicate WhollyUsable(entries: seq<P.E820Entry>, f: nat) {
    forall x: nat :: f * PAGE_SIZE <= x < (f + 1) * PAGE_SIZE ==> UsableByte(entries, x)
  }

  /** Frame `f` is left in use, or its rounding did no harm. */
  ghost predicate Harmless(entries: seq<P.E820Entry>, f: nat, kernelSize: nat, bitmapSize: nat) {
    P.Locked(f, kernelSize, bitmapSize) || WhollyUsable(entries, f)
  }

  /** The frames that the unaligned ends of an entry fall into are harmless. */
  ghost predicate HarmlessEnds(entries: seq<P.E820Entry>, e: P.E820Entry, kernelSize: nat, bitmapSize: nat) {
    && (e.base % PAGE_SIZE != 0 ==> Harmless(entries, e.base / PAGE_SIZE, kernelSize, bitmapSize))
    && ((e.base + e.length) % PAGE_SIZE != 0 ==>
          Harmless(entries, (e.base + e.length) / PAGE_SIZE, kernelSize, bitmapSize))
  }

  /** An entry that touches a frame covers it, or has an unaligned end in it. */
  lemma TouchedOrEnd(e: P.E820Entry, f: nat)
    requires P.Touches(e.base, e.length, f)
    ensures || P.Covers(e.base, e.length, f)
            || (e.base % PAGE_SIZE != 0 && e.base / PAGE_SIZE == f)
            || ((e.base + e.length) % PAGE_SIZE != 0 && (e.base + e.length) / PAGE_SIZE == f)
  {
  }

  /** An unaligned end of a non-empty entry lies in a frame that the entry touches. */
  lemma EndTouches(e: P.E820Entry)
    requires e.length > 0
    ensures e.base % PAGE_SIZE != 0 ==> P.Touches(e.base, e.length, e.base / PAGE_SIZE)
    ensures (e.base + e.length) % PAGE_SIZE != 0 ==> P.Touches(e.base, e.length, (e.base + e.length) / PAGE_SIZE)
  {
  }

  lemma CoveredUsable(entries: seq<P.E820Entry>, i: nat, f: nat)
    requires i < |entries| && entries[i].Usable() && P.Covers(entries[i].base, entries[i].length, f)
    ensures WhollyUsable(entries, f)
  {
  }

  /**
    The map that `pmm_init` leaves frees only frames that consist of usable memory if and
    only if every unaligned end of a usable entry falls into a frame that is locked or
    wholly usable.
   */
  lemma BootConservativeIff(used: seq<bool>, entries: seq<P.E820Entry>, kernelSize: nat, bitmapSize: nat)
    requires P.BootMap(used, entries, kernelSize, bitmapSize)
    requires forall f: nat :: P.UsableTouches(entries, f) ==> f < |used|
    ensures (forall f: nat :: f < |used| && !used[f] ==> WhollyUsable(entries, f)) <==>
            (forall i :: 0 <= i < |entries| && entries[i].Usable() && entries[i].length > 0 ==>
                HarmlessEnds(entries, entries[i], kernelSize, bitmapSize))
  {
    hide P.Locked, P.Touches, P.Covers, WhollyUsable;
    if forall f: nat :: f < |used| && !used[f] ==> WhollyUsable(entries, f) {
      forall i | 0 <= i < |entries| && entries[i].Usable() && entries[i].length > 0
        ensures HarmlessEnds(entries, entries[i], kernelSize, bitmapSize)
      {
        EndTouches(entries[i]);
        var e := entries[i];
        assert e.base % PAGE_SIZE != 0 ==> P.UsableTouches(entries, e.base / PAGE_SIZE);
        assert (e.base + e.length) % PAGE_SIZE != 0 ==> P.UsableTouches(entries, (e.base + e.length) / PAGE_SIZE);
      }
    }
    if forall i :: 0 <= i < |entries| && entries[i].Usable() && entries[i].length > 0 ==>
         HarmlessEnds(entries, entries[i], kernelSize, bitmapSize) {
      forall f: nat | f < |used| && !used[f]
        ensures WhollyUsable(entries, f)
      {
        FreeIsWhole(entries, f, kernelSize, bitmapSize);
      }
    }
  }

  lemma FreeIsWhole(entries: seq<P.E820Entry>, f: nat, kernelSize: nat, bitmapSize: nat)
    requires P.UsableTouches(entries, f) && !P.Locked(f, kernelSize, bitmapSize)
    requires forall i :: 0 <= i < |entries| && entries[i].Usable() && entries[i].length > 0 ==>
               HarmlessEnds(entries, entries[i], kernelSize, bitmapSize)
    ensures WhollyUsable(entries, f)
  {
    hide P.Locked, P.Covers, WhollyUsable;
    var i :| 0 <= i < |entries| && entries[i].Usable() && P.Touches(entries[i].base, entries[i].length, f);
    TouchedOrEnd(entries[i], f);
    assert HarmlessEnds(entries, entries[i], kernelSize, bitmapSize);
    if P.Covers(entries[i].base, entries[i].length, f) {
      CoveredUsable(entries, i, f);
    }
  }

  /**
    A typical PC map, with usable memory up to 0x9FC00 and from 1 MiB on: `pmm_init`
    leaves frame 0x9F free, although its last kilobyte belongs to the BIOS.
   */
  lemma RoundingExample(used: seq<bool>, kernelSize: nat, top: nat)
    requires 0x10_0000 < top && kernelSize <= 0x8_F000
    requires |used| == (top + PAGE_SIZE - 1) / PAGE_SIZE < 0x20_0000
    requires P.BootMap(used, [P.E820Entry(0, 0x9_FC00, 1), P.E820Entry(0x10_0000, top - 0x10_0000, 1)], kernelSize,
                       (|used| + 7) / 8)
    ensures !used[0x9F]
    ensures !WhollyUsable([P.E820Entry(0, 0x9_FC00, 1), P.E820Entry(0x10_0000, top - 0x10_0000, 1)], 0x9F)
  {
    var entries := [P.E820Entry(0, 0x9_FC00, 1), P.E820Entry(0x10_0000, top - 0x10_0000, 1)];
    assert P.Touches(entries[0].base, entries[0].length, 0x9F);
    assert !P.Locked(0x9F, kernelSize, (|used| + 7) / 8);
    assert !UsableByte(entries, 0x9_FC00);
  }

  // ----- null and memory above 4 GiB --------------------------------------------------

  /** The frame map after `n` page allocations. */
  function AfterPages(used: seq<bool>, n: nat): (u: seq<bool>)
    ensures |u| == |used|
    decreases n
  {
    if n == 0 then used else AfterPages(AfterPage(used), n - 1)
  }

  /** In every sequence of page allocations a null answer means that no frame is free. */
  ghost predicate NullMeansFull(used: seq<bool>) {
    forall n: nat :: P.AllocAddress(AfterPages(used, n)) == 0 ==> FreeBelow(AfterPages(used, n), |used|) == 0
  }

  /** Page allocations take frames in ascending order, so each free frame is reached. */
  lemma {:induction false} Reached(used: seq<bool>, f: nat) returns (n: nat)
    requires f < |used| && !used[f]
    ensures FirstFree(AfterPages(used, n), 0, |used|) == f && !AfterPages(used, n)[f]
    decreases FreeBelow(used, |used|)
  {
    FirstFreeSpec(used, 0, |used|);
    var g := FirstFree(used, 0, |used|);
    if g == f {
      return 0;
    }
    FreeBelowUpdate(used, |used|, g, true);
    n := Reached(AfterPage(used), f);
    n := n + 1;
  }

  lemma {:induction false} StillFree(used: seq<bool>, n: nat, f: nat)
    requires f < |used| && !AfterPages(used, n)[f]
    ensures !used[f]
    decreases n
  {
    if n > 0 {
      StillFree(AfterPage(used), n - 1, f);
    }
  }

  /**
    `pmm_alloc_page` answers with a 32-bit address. A null answer always means that memory
    is full if and only if no free frame has a number divisible by 2^20.
   */
  lemma NullMeansFullIff(used: seq<bool>)
    ensures NullMeansFull(used) <==> forall f :: 0 <= f < |used| && !used[f] ==> f % P.MAX_FRAMES != 0
  {
    forall n: nat
      ensures FreeBelow(AfterPages(used, n), |used|) == 0 <==> FirstFree(AfterPages(used, n), 0, |used|) == -1
    {
      FreeBelowZero(AfterPages(used, n), |used|);
    }
    if NullMeansFull(used) {
      forall f | 0 <= f < |used| && !used[f]
        ensures f % P.MAX_FRAMES != 0
      {
        var n := Reached(used, f);
        P.NullAddress(f);
      }
    }
    if forall f :: 0 <= f < |used| && !used[f] ==> f % P.MAX_FRAMES != 0 {
      forall n: nat | P.AllocAddress(AfterPages(used, n)) == 0
        ensures FreeBelow(AfterPages(used, n), |used|) == 0
      {
        var u := AfterPages(used, n);
        FirstFreeSpec(u, 0, |used|);
        var f := FirstFree(u, 0, |used|);
        if f != -1 {
          StillFree(used, n, f);
          P.NullAddress(f);
        }
      }
    }
  }
}
