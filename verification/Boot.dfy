/** `heap_init` (kernel/core/heap.c) on top of the VMM, which runs on top of the PMM. */
module Boot {
  import opened Machine
  import opened Frames
  import opened Paging
  import opened Supply
  import V = Vmm
  import H = Heap
  import P = Pmm
  import HeapSpec
  import HeapWords

  const HEAP_PAGE := HeapSpec.HEAP_START / PAGE_SIZE
  const HEAP_PAGES := HeapSpec.HEAP_SIZE / PAGE_SIZE
  const HEAP_SLOT := HeapSpec.HEAP_START / V.LOWMEM_LIMIT

  /** Frames that a 32-bit address reaches. */
  function Reachable(used: seq<bool>): (n: nat)
    ensures n <= |used| && n <= FRAMES
  {
    if |used| < FRAMES then |used| else FRAMES
  }

  /** Free frames below 4 GiB. */
  function FreeFrames(used: seq<bool>): nat { FreeBelow(used, Reachable(used)) }

  /** Memory suffices: 256 heap pages and one page table, two of them in low memory. */
  predicate EnoughMemory(used: seq<bool>) {
    FreeFrames(used) >= HEAP_PAGES + 1 && FreeBelow(used, V.LowFrames(used)) >= 2
  }

  /** The same for the allocations to succeed at all, with frames above 4 GiB counted in. */
  predicate EnoughSupply(used: seq<bool>) {
    SupplyOf(used) >= HEAP_PAGES + 1 && FreeBelow(used, V.LowFrames(used)) >= 2
  }

  /** Enough below 4 GiB is enough; on memory that ends there it is the same. */
  lemma EnoughIsSupply(used: seq<bool>)
    requires ZeroUsed(used)
    ensures FreeFrames(used) <= SupplyOf(used)
    ensures |used| <= FRAMES ==> FreeFrames(used) == SupplyOf(used)
  {
    SupplyReaches(used, Reachable(used));
  }

  /** A page allocation takes the lowest free frame below 4 GiB while there is one. */
  lemma NextPage(used: seq<bool>)
    ensures FreeFrames(used) > 0 && ZeroUsed(used) ==>
              var f := FirstFree(used, 0, |used|);
              && 0 < f < Reachable(used) && !used[f] && P.AllocAddress(used) == f * PAGE_SIZE
              && AfterPage(used) == used[f := true]
              && FreeFrames(used[f := true]) == FreeFrames(used) - 1
  {
    var n := Reachable(used);
    FreeBelowZero(used, n);
    FirstFreeSpec(used, 0, n);
    var f := FirstFree(used, 0, n);
    if f != -1 {
      FirstFreeUnique(used, 0, |used|, f);
      FreeBelowUpdate(used, n, f, true);
    }
  }

  /** The first heap page takes the lowest frame; its table needs a second low one. */
  lemma FirstPage(used: seq<bool>)
    requires ZeroUsed(used)
    ensures FreeBelow(used, V.LowFrames(used)) <= FreeFrames(used)
    ensures FreeFrames(used) > 0 ==>
              var f := FirstFree(used, 0, |used|);
              var taken := AfterPage(used);
              var t := V.LowFree(taken);
              && (t == -1 <==> FreeBelow(used, V.LowFrames(used)) < 2)
              && (t != -1 ==> !used[t] && t != f && FreeFrames(taken[t := true]) == FreeFrames(used) - 2)
  {
    var low := V.LowFrames(used);
    FreeBelowMonotone(used, low, Reachable(used));
    NextPage(used);
    if FreeFrames(used) > 0 {
      TableAfterPage(used);
      var taken := AfterPage(used);
      var t := V.LowFree(taken);
      if t != -1 {
        FreeBelowUpdate(taken, Reachable(used), t, true);
      }
    }
  }

  /** The frames behind the heap pages: free at the start, in use now, all different. */
  ghost predicate Fresh(frames: seq<Frame>, before: seq<bool>, now: seq<bool>) {
    && |now| == |before|
    && (forall k :: 0 <= k < |frames| ==> frames[k] < |before| && !before[frames[k]] && now[frames[k]])
    && (forall j, k :: 0 <= j < k < |frames| ==> frames[j] != frames[k])
    && (forall f :: 0 <= f < |before| && before[f] ==> now[f])
  }

  lemma FreshGrows(frames: seq<Frame>, before: seq<bool>, now: seq<bool>, f: Frame)
    requires Fresh(frames, before, now) && f < |now| && !now[f]
    ensures Fresh(frames + [f], before, now[f := true])
  {
  }

  lemma FreshWider(frames: seq<Frame>, before: seq<bool>, now: seq<bool>, t: nat)
    requires Fresh(frames, before, now) && t < |now|
    ensures Fresh(frames, before, now[t := true])
  {
  }

  /** The translation with the first pages of the heap backed by `frames`. */
  ghost predicate Backed(mem: Memory, mem0: Memory, pd: Frame, frames: seq<Frame>) {
    forall page: Frame :: Walk(mem, pd, page) ==
      if HEAP_PAGE <= page < HEAP_PAGE + |frames| then Some(frames[page - HEAP_PAGE]) else Walk(mem0, pd, page)
  }

  /** State of the loop of `heap_init`; `t` is the heap's page table. */
  ghost predicate Progress(mem: Memory, pd: Frame, used: seq<bool>, mem0: Memory, used0: seq<bool>,
                           frames: seq<Frame>, t: Frame)
  {
    && |frames| <= HEAP_PAGES
    && Backed(mem, mem0, pd, frames)
    && Fresh(frames, used0, used)
    && if frames == [] then mem == mem0 && used == used0
       else
         && Tables(mem, pd) == Tables(mem0, pd)[HEAP_SLOT := Some(t)]
         && t < |used0| && !used0[t] && used[t] && t !in frames
         && FreeFrames(used) == FreeFrames(used0) - |frames| - 1
  }

  /** The effect of one successful `vmm_alloc_page` on a heap page. */
  ghost predicate PageAdded(mem: Memory, mem': Memory, pd: Frame, used: seq<bool>, used': seq<bool>,
                            page: Frame, f: Frame)
  {
    && ZeroUsed(used) && FreeFrames(used) > 0 && P.AllocAddress(used) == f * PAGE_SIZE
    && V.Remapped(mem, mem', pd, AfterPage(used), used', page, f)
  }

  lemma BackedGrows(mem: Memory, mem': Memory, mem0: Memory, pd: Frame, frames: seq<Frame>, f: Frame)
    requires |frames| < HEAP_PAGES && Backed(mem, mem0, pd, frames)
    requires Walk(mem', pd, HEAP_PAGE + |frames|) == Some(f)
    requires OnlyPage(mem, mem', pd, HEAP_PAGE + |frames|)
    ensures Backed(mem', mem0, pd, frames + [f])
  {
  }

  lemma SlotOfPage(k: nat)
    requires k < HEAP_PAGES
    ensures (HEAP_PAGE + k) / ENTRIES == HEAP_SLOT
  {
  }

  /** The first page also brings in the heap's page table. */
  lemma FirstProgress(mem': Memory, pd: Frame, used': seq<bool>, mem0: Memory, used0: seq<bool>, f: Frame, t: Frame)
    requires PageAdded(mem0, mem', pd, used0, used', HEAP_PAGE, f)
    requires Tables(mem0, pd)[HEAP_SLOT].None? && V.LowFree(AfterPage(used0)) == t
    ensures Progress(mem', pd, used', mem0, used0, [f], t)
  {
    NextPage(used0);
    FirstPage(used0);
    SlotOfPage(0);
    assert used' == used0[f := true][t := true];
    assert Backed(mem0, mem0, pd, []);
    BackedGrows(mem0, mem', mem0, pd, [], f);
    assert [] + [f] == [f];
    FreshGrows([], used0, used0, f);
    FreshWider([f], used0, used0[f := true], t);
  }

  lemma NextProgress(mem: Memory, mem': Memory, pd: Frame, used: seq<bool>, used': seq<bool>, mem0: Memory,
                     used0: seq<bool>, frames: seq<Frame>, t: Frame, f: Frame)
    requires Progress(mem, pd, used, mem0, used0, frames, t) && 0 < |frames| < HEAP_PAGES
    requires PageAdded(mem, mem', pd, used, used', HEAP_PAGE + |frames|, f)
    ensures Progress(mem', pd, used', mem0, used0, frames + [f], t)
  {
    NextPage(used);
    SlotOfPage(|frames|);
    assert Tables(mem, pd)[HEAP_SLOT].Some? && used' == used[f := true];
    BackedGrows(mem, mem', mem0, pd, frames, f);
    FreshGrows(frames, used0, used, f);
    assert Tables(mem', pd) == Tables(mem, pd);
  }

  /** The heap's page table once the next page is in. */
  ghost function TableAfter(used: seq<bool>, frames: seq<Frame>, t: Frame): int {
    if frames == [] then V.LowFree(AfterPage(used)) else t
  }

  lemma StepProgress(mem: Memory, mem': Memory, pd: Frame, used: seq<bool>, used': seq<bool>, mem0: Memory,
                     used0: seq<bool>, frames: seq<Frame>, t: Frame, f: Frame, t': Frame)
    requires Progress(mem, pd, used, mem0, used0, frames, t) && |frames| < HEAP_PAGES
    requires Tables(mem0, pd)[HEAP_SLOT].None? && t' == TableAfter(used, frames, t)
    requires PageAdded(mem, mem', pd, used, used', HEAP_PAGE + |frames|, f)
    ensures Progress(mem', pd, used', mem0, used0, frames + [f], t')
  {
    if frames == [] {
      FirstProgress(mem', pd, used', mem0, used0, f, t');
      assert frames + [f] == [f];
    } else {
      NextProgress(mem, mem', pd, used, used', mem0, used0, frames, t, f);
    }
  }

  // ----- when the loop succeeds ---------------------------------------------------------

  /** What the `k`-th turn of the loop needs. */
  predicate EnoughFor(used0: seq<bool>, k: nat) {
    if k == 0 then SupplyOf(used0) > 0 && FreeBelow(used0, V.LowFrames(used0)) >= 2
    else SupplyOf(used0) > k + 1
  }

  /** The supply left after `k` turns, the first of which also took the heap's page table. */
  predicate Counted(ts: Directory, used: seq<bool>, used0: seq<bool>, k: nat) {
    && ZeroUsed(used) && |used| == |used0|
    && if k == 0 then used == used0 && ts[HEAP_SLOT].None?
       else ts[HEAP_SLOT].Some? && SupplyOf(used) == SupplyOf(used0) - k - 1
  }

  /** A turn succeeds exactly when there is enough for it. */
  lemma TurnCounted(ts: Directory, used: seq<bool>, used0: seq<bool>, k: nat)
    requires Counted(ts, used, used0, k)
    ensures var u := AfterPage(used);
            var ts', used' := V.WithTable(ts, HEAP_SLOT, u), V.AfterTable(ts, HEAP_SLOT, u);
            && (EnoughFor(used0, k) <==> P.AllocAddress(used) != 0 && ts'[HEAP_SLOT].Some?)
            && (EnoughFor(used0, k) ==> Counted(ts', used', used0, k + 1))
  {
    SupplyStep(used);
    if k == 0 && SupplyOf(used) > 0 {
      FirstTurn(used);
    }
  }

  lemma FirstTurn(used: seq<bool>)
    requires ZeroUsed(used) && SupplyOf(used) > 0
    ensures var u := AfterPage(used);
            var t := V.LowFree(u);
            && (t == -1 <==> FreeBelow(used, V.LowFrames(used)) < 2)
            && (t != -1 ==> t < |u| && SupplyOf(u[t := true]) == SupplyOf(used) - 2)
  {
    SupplyStep(used);
    TableAfterPage(used);
    var u := AfterPage(used);
    var t := V.LowFree(u);
    if t != -1 {
      SupplyReaches(u, V.LowFrames(u));
      SupplyCosts(u, t);
    }
  }

  lemma ProgressSoFar(mem: Memory, pd: Frame, used: seq<bool>, mem0: Memory, used0: seq<bool>, frames: seq<Frame>,
                      t: Frame)
    requires Progress(mem, pd, used, mem0, used0, frames, t) && Tables(mem0, pd)[HEAP_SLOT].None?
    ensures |used| == |used0|
    ensures frames == [] ==> used == used0 && Tables(mem, pd)[HEAP_SLOT].None?
    ensures frames != [] ==> Tables(mem, pd)[HEAP_SLOT].Some? && FreeFrames(used) == FreeFrames(used0) - |frames| - 1
  {
  }

  lemma HeapAddress(k: nat)
    requires k < HEAP_PAGES
    ensures var vaddr: Dword := HeapSpec.HEAP_START + k * PAGE_SIZE;
            && vaddr % PAGE_SIZE == 0 && vaddr / PAGE_SIZE == HEAP_PAGE + k
            && V.Slot(vaddr) == HEAP_SLOT && vaddr >= V.LOWMEM_LIMIT
  {
  }

  /** `vmm_alloc_page` on a page of the heap. */
  method AllocHeapPage(vmm: V.AddressSpace, vaddr: Dword, ghost page: Frame) returns (ok: bool, ghost f: Frame)
    requires vmm.Valid() && vaddr % PAGE_SIZE == 0 && vaddr >= V.LOWMEM_LIMIT
    requires vaddr / PAGE_SIZE == page && V.Slot(vaddr) == HEAP_SLOT
    modifies vmm`mem, vmm.pmm, vmm.pmm.bitmap
    ensures ok <==>
            && P.AllocAddress(old(vmm.pmm.used)) != 0
            && V.WithTable(old(vmm.Directory()), HEAP_SLOT, AfterPage(old(vmm.pmm.used)))[HEAP_SLOT].Some?
    ensures ok ==> vmm.Valid() && f * PAGE_SIZE == P.AllocAddress(old(vmm.pmm.used))
    ensures ok ==> V.Remapped(old(vmm.mem), vmm.mem, vmm.Pd(), AfterPage(old(vmm.pmm.used)), vmm.pmm.used, page, f)
  {
    V.AddressOnPage(vmm.pmm.used);
    f := P.AllocAddress(vmm.pmm.used) / PAGE_SIZE;
    hide P.AllocAddress, V.Remapped, AfterPage, V.WithTable, Tables, Structure, LowIdentity;
    var o := vmm.AllocPage(vaddr);
    ok := o == Done(true);
  }

  /** One turn of the loop: it fails exactly when memory does not suffice for it. */
  method MapHeapPage(vmm: V.AddressSpace, k: nat, ghost mem0: Memory, ghost used0: seq<bool>,
                     ghost frames: seq<Frame>, ghost t0: Frame)
      returns (ok: bool, ghost f: Frame, ghost t: Frame)
    requires k == |frames| < HEAP_PAGES && vmm.Valid() && Tables(mem0, vmm.Pd())[HEAP_SLOT].None?
    requires Counted(vmm.Directory(), vmm.pmm.used, used0, k)
    requires EnoughMemory(used0) ==> Progress(vmm.mem, vmm.Pd(), vmm.pmm.used, mem0, used0, frames, t0)
    modifies vmm`mem, vmm.pmm, vmm.pmm.bitmap
    ensures ok <==> EnoughFor(used0, k)
    ensures ok ==> vmm.Valid() && Counted(vmm.Directory(), vmm.pmm.used, used0, k + 1)
    ensures ok && EnoughMemory(used0) ==>
              Progress(vmm.mem, vmm.Pd(), vmm.pmm.used, mem0, used0, frames + [f], t)
  {
    ghost var used, mem, ts := vmm.pmm.used, vmm.mem, vmm.Directory();
    TurnCounted(ts, used, used0, k);
    hide V.AddressSpace.Valid, Progress, Counted, EnoughFor, EnoughMemory, P.AllocAddress, AfterPage, Tables,
      V.WithTable, V.AfterTable;
    HeapAddress(k);
    ok, f := AllocHeapPage(vmm, HeapSpec.HEAP_START + k * PAGE_SIZE, HEAP_PAGE + k);
    t := t0;
    if ok {
      SlotOfPage(k);
      if EnoughMemory(used0) {
        t := TurnDone(mem, vmm.mem, vmm.Pd(), used, vmm.pmm.used, mem0, used0, frames, t0, f);
      }
    }
  }

  /** What a turn that the address space has made means for the pages of the heap. */
  lemma TurnDone(mem: Memory, mem': Memory, pd: Frame, used: seq<bool>, used': seq<bool>, mem0: Memory,
                 used0: seq<bool>, frames: seq<Frame>, t0: Frame, f: Frame) returns (t: Frame)
    requires EnoughMemory(used0) && ZeroUsed(used) && Tables(mem0, pd)[HEAP_SLOT].None?
    requires |frames| < HEAP_PAGES && Progress(mem, pd, used, mem0, used0, frames, t0)
    requires V.WithTable(Tables(mem, pd), HEAP_SLOT, AfterPage(used))[HEAP_SLOT].Some?
    requires f * PAGE_SIZE == P.AllocAddress(used)
    requires V.Remapped(mem, mem', pd, AfterPage(used), used', HEAP_PAGE + |frames|, f)
    ensures Progress(mem', pd, used', mem0, used0, frames + [f], t)
  {
    ProgressSoFar(mem, pd, used, mem0, used0, frames, t0);
    assert TableAfter(used, frames, t0) >= 0;
    hide Progress, V.Remapped, P.AllocAddress, FreeFrames, AfterPage, Tables, V.WithTable;
    t := TableAfter(used, frames, t0);
    assert PageAdded(mem, mem', pd, used, used', HEAP_PAGE + |frames|, f);
    StepProgress(mem, mem', pd, used, used', mem0, used0, frames, t0, f, t);
  }

  /**
    `heap_init`: from a state whose heap slot is unmapped it finishes without panic exactly
    when the supply suffices. When memory suffices below 4 GiB it takes exactly 257
    frames, and the heap pages are backed by distinct frames that were free, so by no
    table, directory or reserved frame.
   */
  method HeapInit(vmm: V.AddressSpace, heap: H.KernelHeap) returns (o: Outcome<()>, ghost frames: seq<Frame>)
    requires vmm.Valid() && vmm.Directory()[HEAP_SLOT].None? && heap.startHeader == HeapSpec.NULL
    modifies vmm`mem, vmm.pmm, vmm.pmm.bitmap, heap
    ensures o.Done? <==> EnoughSupply(old(vmm.pmm.used))
    ensures o.Done? ==> vmm.Valid() && heap.Ready() && heap.blocks == HeapSpec.INITIAL
    ensures EnoughMemory(old(vmm.pmm.used)) ==> o.Done?
    ensures EnoughMemory(old(vmm.pmm.used)) ==>
              && |frames| == HEAP_PAGES
              && Backed(vmm.mem, old(vmm.mem), vmm.Pd(), frames)
              && Fresh(frames, old(vmm.pmm.used), vmm.pmm.used)
              && vmm.Pd() !in frames
              && (forall i :: 0 <= i < ENTRIES && vmm.Directory()[i].Some? ==> vmm.Directory()[i].value !in frames)
              && FreeFrames(vmm.pmm.used) == FreeFrames(old(vmm.pmm.used)) - (HEAP_PAGES + 1)
  {
    ghost var used0, mem0, ts0 := vmm.pmm.used, vmm.mem, vmm.Directory();
    ghost var t: Frame := 0;
    ghost var f: Frame := 0;
    EnoughIsSupply(used0);
    hide SupplyOf, FreeFrames;
    frames := [];
    var k := 0;
    while k < HEAP_PAGES
      invariant k == |frames| <= HEAP_PAGES && vmm.Valid() && heap.startHeader == HeapSpec.NULL
      invariant Counted(vmm.Directory(), vmm.pmm.used, used0, k)
      invariant EnoughMemory(used0) ==> Progress(vmm.mem, vmm.Pd(), vmm.pmm.used, mem0, used0, frames, t)
      invariant k > 0 ==> EnoughFor(used0, 0) && EnoughFor(used0, k - 1)
    {
      var ok;
      ok, f, t := MapHeapPage(vmm, k, mem0, used0, frames, t);
      if !ok {
        return Panic, frames;
      }
      frames := frames + [f];
      k := k + 1;
    }
    heap.InitList();
    if EnoughMemory(used0) {
      NoTableInHeap(ts0, vmm.Pd(), used0, frames, vmm.pmm.used, t);
    }
    return Done(()), frames;
  }

  lemma NoTableInHeap(ts0: Directory, pd: Frame, used0: seq<bool>, frames: seq<Frame>, used: seq<bool>, t: Frame)
    requires Sound(ts0, pd, used0) && Fresh(frames, used0, used) && t !in frames
    ensures pd !in frames
    ensures var ts := ts0[HEAP_SLOT := Some(t)];
            forall i :: 0 <= i < ENTRIES && ts[i].Some? ==> ts[i].value !in frames
  {
  }

  lemma EmptySlot(t: Frame)
    ensures V.BootDirectory(t)[HEAP_SLOT] == None
  {
  }

  lemma HeapFramesUsable(boot: seq<bool>, used0: seq<bool>, used: seq<bool>, entries: seq<P.E820Entry>, kernelSize: nat,
                         frames: seq<Frame>)
    requires P.BootMap(boot, entries, kernelSize, (|boot| + 7) / 8) && Fresh(frames, used0, used)
    requires |used0| == |boot| && (forall f :: 0 <= f < |boot| && boot[f] ==> used0[f])
    ensures forall k :: 0 <= k < |frames| ==>
              P.UsableTouches(entries, frames[k]) && !P.Locked(frames[k], kernelSize, (|boot| + 7) / 8)
    ensures PagesClear(frames, kernelSize, (|boot| + 7) / 8)
  {
    P.BootMapBytes(boot, entries, kernelSize, (|boot| + 7) / 8);
    forall k, x: nat | 0 <= k < |frames| && P.InPage(x, PageStart(frames[k]))
      ensures !P.Kept(boot, x)
    {
      P.SameFrame(PageStart(frames[k]), x);
    }
  }

  function PageStart(f: nat): nat { f * 4096 }

  /** No page of `frames` has a byte of a range that boot reserves. */
  ghost predicate PagesClear(frames: seq<Frame>, kernelSize: nat, bitmapSize: nat) {
    forall k, x: nat :: 0 <= k < |frames| && P.InPage(x, PageStart(frames[k])) ==>
      && 0x1000 <= x && !(0x5000 <= x < 0x6000)
      && !(0x1_0000 <= x < 0x1_0000 + kernelSize) && !(0x2_0000 <= x < 0x2_0000 + bitmapSize)
  }

  /** The whole translation after boot: low memory onto itself, the heap onto `frames`, nothing else. */
  ghost predicate BootTranslation(vmm: V.AddressSpace, frames: seq<Frame>)
    requires |frames| == 256
    reads vmm
  {
    forall page: Frame :: vmm.Translate(page) ==
      if 0xD_0000 <= page < 0xD_0100 then Some(frames[page - 0xD_0000])
      else if page < 1024 then Some(page)
      else None
  }

  lemma BootTranslates(vmm: V.AddressSpace, mem0: Memory, frames: seq<Frame>)
    requires vmm.paging && |frames| == HEAP_PAGES && Backed(vmm.mem, mem0, vmm.Pd(), frames)
    requires forall page: Frame :: Walk(mem0, vmm.Pd(), page) == if page < LOW_FRAMES then Some(page) else None
    ensures BootTranslation(vmm, frames)
  {
    hide Walk;
    forall page: Frame
      ensures vmm.Translate(page) == Walk(vmm.mem, vmm.Pd(), page)
    {
    }
  }

  /** No frame of the heap holds the directory or a page table. */
  ghost predicate ApartFromTables(vmm: V.AddressSpace, frames: seq<Frame>)
    reads vmm
  {
    && vmm.Pd() !in frames
    && (forall i :: 0 <= i < ENTRIES && vmm.Directory()[i].Some? ==> vmm.Directory()[i].value !in frames)
  }

  /** What boot establishes about the heap's pages. */
  ghost predicate HeapMapped(vmm: V.AddressSpace, frames: seq<Frame>)
    reads vmm
  {
    && |frames| == HEAP_PAGES && (forall j, k :: 0 <= j < k < HEAP_PAGES ==> frames[j] != frames[k])
    && BootTranslation(vmm, frames) && ApartFromTables(vmm, frames)
  }

  /** What the three initialisers need: 259 frames below 4 GiB, four of them below 4 MiB. */
  predicate EnoughToBoot(boot: seq<bool>) {
    FreeFrames(boot) >= HEAP_PAGES + 3 && FreeBelow(boot, V.LowFrames(boot)) >= 4
  }

  /** The same for the initialisers to succeed at all, with frames above 4 GiB counted in. */
  predicate SupplyToBoot(boot: seq<bool>) {
    SupplyOf(boot) >= HEAP_PAGES + 3 && FreeBelow(boot, V.LowFrames(boot)) >= 4
  }

  lemma AfterVmmInit(boot: seq<bool>, used: seq<bool>, f: nat, g: nat)
    requires V.TwoTaken(boot, used, f, g) && ZeroUsed(boot)
    ensures SupplyOf(used) == SupplyOf(boot) - 2 && FreeFrames(boot) <= SupplyOf(boot)
    ensures |boot| <= FRAMES ==> FreeFrames(boot) == SupplyOf(boot)
    ensures FreeFrames(used) == FreeFrames(boot) - 2
    ensures FreeBelow(used, V.LowFrames(used)) == FreeBelow(boot, V.LowFrames(boot)) - 2
    ensures forall h :: 0 <= h < |boot| && boot[h] ==> used[h]
  {
    EnoughIsSupply(boot);
    SupplyReaches(boot, V.LowFrames(boot));
    SupplyCosts(boot, f);
    SupplyReaches(boot[f := true], V.LowFrames(boot));
    SupplyCosts(boot[f := true], g);
    FreeBelowUpdate(boot, Reachable(boot), f, true);
    FreeBelowUpdate(boot[f := true], Reachable(boot), g, true);
    FreeBelowUpdate(boot, V.LowFrames(boot), f, true);
    FreeBelowUpdate(boot[f := true], V.LowFrames(boot), g, true);
  }

  /**
    `pmm_init`, `vmm_init` and `heap_init` in the order of k_main: the three together
    succeed exactly when the memory map leaves a supply of 259 frames, four of them below
    4 MiB. When 259 frames are free below 4 GiB, every heap page translates to a usable
    frame of its own that overlaps no reserved range and holds no page table. `boot` is
    the map after `pmm_init`, `heapWords` what the heap's pages happen to hold.
   */
  method BootMemory(entries: seq<P.E820Entry>, kernelSize: nat, mem: Memory, heapWords: HeapWords.Words)
      returns (o: Outcome<H.KernelHeap>, vmm: V.AddressSpace, ghost boot: seq<bool>, ghost frames: seq<Frame>)
    requires P.MapSigned(entries)
    ensures P.Spans(entries, |boot|) && (forall f: nat :: P.UsableTouches(entries, f) ==> f < |boot|)
    ensures P.BootMap(boot, entries, kernelSize, (|boot| + 7) / 8)
    ensures o.Done? <==> SupplyToBoot(boot)
    ensures EnoughToBoot(boot) ==> o.Done?
    ensures |boot| <= FRAMES ==> (o.Done? <==> EnoughToBoot(boot))
    ensures o.Done? ==> vmm.Valid() && o.value.Ready() && o.value.blocks == HeapSpec.INITIAL
    ensures EnoughToBoot(boot) ==>
              && HeapMapped(vmm, frames)
              && FreeFrames(vmm.pmm.used) == FreeFrames(boot) - (HEAP_PAGES + 3)
              && (forall k :: 0 <= k < HEAP_PAGES ==>
                    P.UsableTouches(entries, frames[k]) && !P.Locked(frames[k], kernelSize, (|boot| + 7) / 8))
              && PagesClear(frames, kernelSize, (|boot| + 7) / 8)
  {
    hide Walk, Tables, Structure, LowIdentity, FreeBelow, SupplyOf, P.Locked, P.UsableTouches, P.BootMap, P.Spans,
      P.Kept, PagesClear;
    var pmm := new P.FrameAllocator.Init(entries, kernelSize);
    boot, frames := pmm.used, [];
    EnoughIsSupply(boot);
    vmm := new V.AddressSpace(pmm, mem);
    var v := vmm.Init();
    if v.Panic? {
      return Panic, vmm, boot, frames;
    }
    EmptySlot(vmm.Directory()[0].value);
    ghost var mem0, used0 := vmm.mem, vmm.pmm.used;
    AfterVmmInit(boot, used0, vmm.Pd(), vmm.Directory()[0].value);
    hide FreeFrames, V.TwoTaken, Backed, BootTranslation;
    assert forall page: Frame :: Walk(mem0, vmm.Pd(), page) == vmm.Translate(page);
    var heap := new H.KernelHeap(heapWords);
    var h;
    h, frames := HeapInit(vmm, heap);
    if h.Panic? {
      return Panic, vmm, boot, frames;
    }
    if EnoughToBoot(boot) {
      BootTranslates(vmm, mem0, frames);
      HeapFramesUsable(boot, used0, vmm.pmm.used, entries, kernelSize, frames);
    }
    return Done(heap), vmm, boot, frames;
  }

  // ----- the heap's words in physical memory --------------------------------------------

  predicate InHeap(x: nat) { x % 4 == 0 && HeapSpec.HEAP_START <= x < HeapSpec.HEAP_END }

  /** The place in physical memory of a word of the heap. */
  function HeapFrame(frames: seq<Frame>, x: nat): Frame
    requires |frames| == HEAP_PAGES && InHeap(x)
  {
    frames[x / PAGE_SIZE - HEAP_PAGE]
  }

  /** Physical memory, read through the heap's pages, holds `words`. */
  ghost predicate Holds(mem: Memory, frames: seq<Frame>, words: HeapWords.Words)
    requires |frames| == HEAP_PAGES
  {
    forall x: nat :: InHeap(x) ==> Word(mem, HeapFrame(frames, x), x % PAGE_SIZE / 4) == HeapWords.Peek(words, x)
  }

  /** Different words of the heap lie at different places. */
  lemma PlacesApart(frames: seq<Frame>, x: nat, y: nat)
    requires |frames| == HEAP_PAGES && (forall j, k :: 0 <= j < k < HEAP_PAGES ==> frames[j] != frames[k])
    requires InHeap(x) && InHeap(y) && x != y
    ensures HeapFrame(frames, x) != HeapFrame(frames, y) || x % PAGE_SIZE / 4 != y % PAGE_SIZE / 4
  {
    var i, j := x / PAGE_SIZE - HEAP_PAGE, y / PAGE_SIZE - HEAP_PAGE;
    if i == j {
      if x % PAGE_SIZE / 4 == y % PAGE_SIZE / 4 {
        SamePage(x, y);
      }
    } else {
      assert frames[i] != frames[j];
    }
  }

  lemma SamePage(x: nat, y: nat)
    requires x % 4 == 0 && y % 4 == 0 && x / PAGE_SIZE == y / PAGE_SIZE && x % PAGE_SIZE / 4 == y % PAGE_SIZE / 4
    ensures x == y
  {
    assert x == x / PAGE_SIZE * PAGE_SIZE + x % PAGE_SIZE;
    assert y == y / PAGE_SIZE * PAGE_SIZE + y % PAGE_SIZE;
    OnWord(x);
    OnWord(y);
  }

  lemma OnWord(x: nat)
    requires x % 4 == 0
    ensures x % PAGE_SIZE == x % PAGE_SIZE / 4 * 4
  {
  }

  lemma HoldsStore(mem: Memory, mem': Memory, frames: seq<Frame>, words: HeapWords.Words, x: nat, v: Dword)
    requires |frames| == HEAP_PAGES && (forall j, k :: 0 <= j < k < HEAP_PAGES ==> frames[j] != frames[k])
    requires InHeap(x) && Holds(mem, frames, words)
    requires mem' == Write(mem, HeapFrame(frames, x), x % PAGE_SIZE / 4, v)
    ensures Holds(mem', frames, words[x := v])
  {
    hide InHeap, HeapFrame, Write;
    forall y: nat | InHeap(y)
      ensures Word(mem', HeapFrame(frames, y), y % PAGE_SIZE / 4) == HeapWords.Peek(words[x := v], y)
    {
      if y != x {
        PlacesApart(frames, x, y);
      }
    }
  }

  lemma HeapTranslates(vmm: V.AddressSpace, frames: seq<Frame>, x: nat)
    requires HeapMapped(vmm, frames) && InHeap(x)
    ensures x < U32 && vmm.Translate(x / PAGE_SIZE) == Some(HeapFrame(frames, x))
    ensures DataFrame(vmm.mem, vmm.Pd(), HeapFrame(frames, x))
  {
    hide Walk, Tables;
    var f := HeapFrame(frames, x);
    assert f in frames;
    forall i | 0 <= i < ENTRIES
      ensures Tables(vmm.mem, vmm.Pd())[i] != Some(f)
    {
      assert vmm.Directory()[i] == Tables(vmm.mem, vmm.Pd())[i];
    }
  }

  /**
    A store of the heap, or of one of its clients, after boot: it changes the one word of
    physical memory that its address names, so memory still holds the heap's words, and
    it leaves every translation and the invariant of the address space alone.
   */
  method HeapStore(vmm: V.AddressSpace, ghost frames: seq<Frame>, ghost words: HeapWords.Words, x: nat, v: Dword)
    requires vmm.Valid() && HeapMapped(vmm, frames) && Holds(vmm.mem, frames, words) && InHeap(x)
    modifies vmm`mem
    ensures vmm.Valid() && HeapMapped(vmm, frames)
    ensures Holds(vmm.mem, frames, words[x := v])
  {
    ghost var mem0 := vmm.mem;
    HeapTranslates(vmm, frames, x);
    hide Walk, Tables, Holds, DataFrame;
    vmm.StoreData(x, v);
    HoldsStore(mem0, vmm.mem, frames, words, x, v);
  }

  /** A load from the heap after boot reads the heap's word. */
  method HeapLoad(vmm: V.AddressSpace, ghost frames: seq<Frame>, ghost words: HeapWords.Words, x: nat)
      returns (v: Dword)
    requires vmm.Valid() && HeapMapped(vmm, frames) && Holds(vmm.mem, frames, words) && InHeap(x)
    ensures v == HeapWords.Peek(words, x)
  {
    HeapTranslates(vmm, frames, x);
    assert Word(vmm.mem, HeapFrame(frames, x), x % PAGE_SIZE / 4) == HeapWords.Peek(words, x);
    hide Walk, Tables;
    v := vmm.Load(x);
  }
}
