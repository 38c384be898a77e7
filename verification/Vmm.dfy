/**
  The virtual memory manager, kernel/core/vmm.c.

  Once paging is on, the kernel reads and writes its page tables through virtual
  addresses, that is, through the very translation it is editing. Here `Load` and
  `Store` do the same, and every edit is proved to reach the intended frame.
 */
module Vmm {
  import opened Machine
  import opened Frames
  import opened Paging
  import P = Pmm

  const LOWMEM_LIMIT := 4 * 1024 * 1024

  function LowFrames(used: seq<bool>): (n: nat)
    ensures n <= |used|
  {
    if |used| < LOW_FRAMES then |used| else LOW_FRAMES
  }

  /** The frame a new page table gets, or -1. */
  function LowFree(used: seq<bool>): int {
    FirstFree(used, 0, LowFrames(used))
  }

  /** The directory slot of an address, `vaddr >> 22`. */
  function Slot(vaddr: Dword): (d: nat)
    ensures d < ENTRIES
  {
    vaddr / PAGE_SIZE / ENTRIES
  }

  /** The directory once slot `d` has a table, if one can be had. */
  function WithTable(ts: Directory, d: nat, used: seq<bool>): Directory
    requires d < ENTRIES
  {
    var t := LowFree(used);
    if ts[d].None? && t != -1 then ts[d := Some(t)] else ts
  }

  /** The frame map after that. */
  function AfterTable(ts: Directory, d: nat, used: seq<bool>): seq<bool>
    requires d < ENTRIES
  {
    var t := LowFree(used);
    if ts[d].None? && t != -1 then used[t := true] else used
  }

  /**
    The whole effect of mapping `page` to `f`: at most one new table, at most one
    new frame in use, and a change of translation for exactly one page.
   */
  ghost predicate Remapped(mem: Memory, mem': Memory, pd: Frame, used: seq<bool>, used': seq<bool>,
                           page: Frame, f: Frame)
  {
    && Tables(mem', pd) == WithTable(Tables(mem, pd), page / ENTRIES, used)
    && used' == AfterTable(Tables(mem, pd), page / ENTRIES, used)
    && Walk(mem', pd, page) == Some(f)
    && OnlyPage(mem, mem', pd, page)
  }

  class AddressSpace {
    const pmm: P.FrameAllocator
    var mem: Memory
    var directory: Dword
    var paging: bool

    /** The machine as the boot loader leaves it: paging off, memory arbitrary. */
    constructor (pmm: P.FrameAllocator, mem: Memory)
      ensures this.pmm == pmm && this.mem == mem && !paging
    {
      this.pmm := pmm;
      this.mem := mem;
      directory := 0;
      paging := false;
    }

    function Pd(): Frame
      reads this
    {
      directory / PAGE_SIZE
    }

    /** What the processor translates a page to. */
    function Translate(page: Frame): Option<Frame>
      reads this
    {
      if paging then Walk(mem, Pd(), page) else Some(page)
    }

    ghost predicate Valid()
      reads this, pmm, pmm.bitmap
    {
      && pmm.Sane()
      && paging
      && directory % PAGE_SIZE == 0
      && Structure(mem, Pd(), pmm.used)
      && LowIdentity(mem, Pd())
      && AllWritable(mem, Pd())
    }

    // ----- memory accesses through the translation --------------------------------

    method Load(vaddr: Dword) returns (v: Dword)
      requires vaddr % 4 == 0 && Translate(vaddr / PAGE_SIZE).Some?
      ensures v == Word(mem, Translate(vaddr / PAGE_SIZE).value, vaddr % PAGE_SIZE / 4)
    {
      v := Word(mem, Translate(vaddr / PAGE_SIZE).value, vaddr % PAGE_SIZE / 4);
    }

    method Store(vaddr: Dword, v: Dword)
      requires vaddr % 4 == 0 && Translate(vaddr / PAGE_SIZE).Some?
      modifies this`mem
      ensures mem == Write(old(mem), old(Translate(vaddr / PAGE_SIZE).value), vaddr % PAGE_SIZE / 4, v)
    {
      mem := Write(mem, Translate(vaddr / PAGE_SIZE).value, vaddr % PAGE_SIZE / 4, v);
    }

    /**
      A store that does not hit the directory or a table: every translation stays, and so
      does the invariant.
     */
    method StoreData(vaddr: Dword, v: Dword)
      requires Valid() && vaddr % 4 == 0 && Translate(vaddr / PAGE_SIZE).Some?
      requires DataFrame(mem, Pd(), Translate(vaddr / PAGE_SIZE).value)
      modifies this`mem
      ensures Valid() && Directory() == old(Directory())
      ensures forall page: Frame :: Translate(page) == old(Translate(page))
      ensures mem == Write(old(mem), Translate(vaddr / PAGE_SIZE).value, vaddr % PAGE_SIZE / 4, v)
    {
      ghost var mem0, f := mem, Translate(vaddr / PAGE_SIZE).value;
      Store(vaddr, v);
      DataEdit(mem0, mem, Pd(), f);
      DataWritable(mem0, mem, Pd(), f);
      hide Walk, Tables;
      assert SameWalks(mem0, mem, Pd());
    }

    /** Word `k` of a frame that is mapped onto itself, by its virtual address. */
    method LoadWord(t: Frame, k: nat) returns (v: Dword)
      requires k < ENTRIES && Translate(t) == Some(t)
      ensures v == Word(mem, t, k)
    {
      var vaddr := t * PAGE_SIZE + 4 * k;
      assert vaddr / PAGE_SIZE == t && vaddr % PAGE_SIZE / 4 == k;
      v := Load(vaddr);
    }

    method StoreWord(t: Frame, k: nat, v: Dword)
      requires k < ENTRIES && Translate(t) == Some(t)
      modifies this`mem
      ensures mem == Write(old(mem), t, k, v)
    {
      var vaddr := t * PAGE_SIZE + 4 * k;
      assert vaddr / PAGE_SIZE == t && vaddr % PAGE_SIZE / 4 == k;
      Store(vaddr, v);
    }

    /** `memset(table, 0, PAGE_SIZE)`, a word at a time, on a low frame `used` leaves free. */
    method ClearFrame(t: Frame, ghost used: seq<bool>)
      requires paging && Structure(mem, Pd(), used) && LowIdentity(mem, Pd())
      requires t < LOW_FRAMES && (t >= |used| || !used[t])
      modifies this`mem
      ensures SameOutside(old(mem), mem, t)
      ensures forall i :: 0 <= i < ENTRIES ==> Word(mem, t, i) == 0
    {
      ghost var mem0 := mem;
      for k := 0 to ENTRIES
        invariant SameOutside(mem0, mem, t)
        invariant forall i :: 0 <= i < k ==> Word(mem, t, i) == 0
      {
        LowFrameStaysMapped(mem0, mem, Pd(), used, t);
        ghost var before := mem;
        StoreWord(t, k, 0);
        OneMoreWord(mem0, before, mem, t, k);
      }
    }

    // ----- page tables ------------------------------------------------------------

    /** The directory as a list of tables. */
    function Directory(): Directory
      reads this
    {
      Tables(mem, Pd())
    }

    /** Clears a free low frame and enters it into the directory. */
    method InstallTable(d: nat, t: Frame, ghost used: seq<bool>)
      requires paging && Structure(mem, Pd(), used) && LowIdentity(mem, Pd()) && AllWritable(mem, Pd())
      requires d < ENTRIES && Directory()[d].None?
      requires t < LOW_FRAMES && t < |used| && !used[t]
      modifies this`mem
      ensures Structure(mem, Pd(), used[t := true])
      ensures SameWalks(old(mem), mem, Pd())
      ensures Directory() == old(Directory())[d := Some(t)]
      ensures AllWritable(mem, Pd()) && Word(mem, Pd(), d) == t * 4096 + 3
    {
      hide AllWritable;
      ghost var mem0 := mem;
      ClearFrame(t, used);
      OutsideEdit(mem0, mem, Pd(), used, t);
      DataWritable(mem0, mem, Pd(), t);
      AddTable(mem, Pd(), used, d, t);
      TableKeepsWritable(mem, Pd(), used, d, t);
      StoreWord(Pd(), d, MakeEntry(t));
    }

    /** The creating half of `vmm_get_page_table`. */
    method CreateTable(d: nat) returns (o: Outcome<Dword>)
      requires Valid() && d < ENTRIES && Directory()[d].None?
      modifies this`mem, pmm, pmm.bitmap
      ensures Valid()
      ensures o == var t := LowFree(old(pmm.used)); if t == -1 then Panic else Done(t * PAGE_SIZE)
      ensures o.Panic? ==> mem == old(mem)
      ensures o.Done? ==> Word(mem, Pd(), d) == o.value + 3
      ensures SameWalks(old(mem), mem, Pd())
      ensures Directory() == WithTable(old(Directory()), d, old(pmm.used))
      ensures pmm.used == AfterTable(old(Directory()), d, old(pmm.used))
    {
      ghost var used := pmm.used;
      FirstFreeSpec(used, 0, LowFrames(used));
      var newTable := pmm.AllocPageLow(LOWMEM_LIMIT);
      if newTable == 0 {
        return Panic;
      }
      InstallTable(d, newTable / PAGE_SIZE, used);
      return Done(newTable);
    }

    /** `vmm_get_page_table`: finds or creates the table; no translation changes. */
    method GetPageTable(vaddr: Dword, create: bool) returns (o: Outcome<Dword>)
      requires Valid()
      modifies this`mem, pmm, pmm.bitmap
      ensures Valid()
      ensures SameWalks(old(mem), mem, Pd())
      ensures var d := Slot(vaddr);
              if create then
                && Directory() == WithTable(old(Directory()), d, old(pmm.used))
                && pmm.used == AfterTable(old(Directory()), d, old(pmm.used))
                && o == if Directory()[d].None? then Panic else Done(Directory()[d].value * PAGE_SIZE)
              else
                && Directory() == old(Directory()) && pmm.used == old(pmm.used)
                && o == Done(if Directory()[d].None? then 0 else Directory()[d].value * PAGE_SIZE)
      ensures o.Panic? ==> mem == old(mem)
    {
      var pdIndex := vaddr / LOWMEM_LIMIT;
      assert pdIndex == Slot(vaddr);
      var pde := LoadWord(Pd(), pdIndex);
      if Present(pde) {
        return Done(EntryFrame(pde) * PAGE_SIZE);
      }
      if create {
        o := CreateTable(pdIndex);
        return;
      }
      return Done(0);
    }

    /**
      `vmm_map`: panics exactly on unaligned addresses or when no page table can be
      had; otherwise it changes the translation of exactly one page. The invariant
      survives exactly when the page lies above low memory or is mapped onto itself.
     */
    method Map(vaddr: Dword, paddr: Dword) returns (o: Outcome<()>)
      requires Valid()
      modifies this`mem, pmm, pmm.bitmap
      ensures pmm.Sane() && Structure(mem, Pd(), pmm.used)
      ensures var d := Slot(vaddr);
              o.Done? <==> vaddr % PAGE_SIZE == 0 && paddr % PAGE_SIZE == 0 &&
                           WithTable(old(Directory()), d, old(pmm.used))[d].Some?
      ensures o.Panic? ==> Valid() && mem == old(mem) && pmm.used == old(pmm.used)
      ensures o.Done? ==> Remapped(old(mem), mem, Pd(), old(pmm.used), pmm.used, vaddr / PAGE_SIZE, paddr / PAGE_SIZE)
      ensures o.Done? ==> (Valid() <==> vaddr >= LOWMEM_LIMIT || paddr == vaddr)
      ensures o.Done? ==>
                && AllWritable(mem, Pd()) && Directory()[vaddr / 0x40_0000].Some?
                && Word(mem, Directory()[vaddr / 0x40_0000].value, vaddr / 4096 % 1024) == paddr + 3
    {
      hide AllWritable, LowIdentity, Walk, Tables, Sound;
      if vaddr % PAGE_SIZE != 0 {
        return Panic;
      }
      if paddr % PAGE_SIZE != 0 {
        return Panic;
      }
      var page: Frame := vaddr / PAGE_SIZE;
      var table := GetPageTable(vaddr, true);
      if table.Panic? {
        return Panic;
      }
      assert table.value == Directory()[page / ENTRIES].value * PAGE_SIZE;
      var t: Frame := table.value / PAGE_SIZE;
      assert Directory()[page / ENTRIES].value == t;
      ghost var between := mem;
      EditEntry(page, paddr / PAGE_SIZE, t);
      ThenOnly(old(mem), between, mem, Pd(), page);
      return Done(());
    }

    /** Stores the table entry of a page through the table's own address. */
    method EditEntry(page: Frame, f: Frame, t: Frame)
      requires Valid() && Directory()[page / ENTRIES] == Some(t)
      modifies this`mem
      ensures Directory() == old(Directory())
      ensures Walk(mem, Pd(), page) == Some(f) && OnlyPage(old(mem), mem, Pd(), page)
      ensures Valid() <==> page >= LOW_FRAMES || f == page
      ensures AllWritable(mem, Pd()) && Word(mem, t, page % 1024) == f * 4096 + 3
    {
      hide AllWritable;
      SetEntry(mem, Pd(), pmm.used, page, f);
      EntryKeepsWritable(mem, Pd(), pmm.used, page, f);
      StoreWord(t, page % ENTRIES, MakeEntry(f));
      assert page < LOW_FRAMES && f != page ==> !LowIdentity(mem, Pd());
    }

    /**
      `vmm_alloc_page`: maps the frame that the address of the lowest free frame names,
      which within 4 GiB is that frame; false means that the address was null.
     */
    method AllocPage(vaddr: Dword) returns (o: Outcome<bool>)
      requires Valid()
      modifies this`mem, pmm, pmm.bitmap
      ensures pmm.Sane()
      ensures o == Done(false) <==> P.AllocAddress(old(pmm.used)) == 0
      ensures o == Done(false) ==> Valid() && mem == old(mem) && pmm.used == AfterPage(old(pmm.used))
      ensures var d := Slot(vaddr);
              o == Done(true) <==> && P.AllocAddress(old(pmm.used)) != 0
                                   && vaddr % PAGE_SIZE == 0
                                   && WithTable(old(Directory()), d, AfterPage(old(pmm.used)))[d].Some?
      ensures o == Done(true) ==>
                var f := P.AllocAddress(old(pmm.used)) / PAGE_SIZE;
                && f < FRAMES
                && Remapped(old(mem), mem, Pd(), AfterPage(old(pmm.used)), pmm.used, vaddr / PAGE_SIZE, f)
                && (Valid() <==> vaddr >= LOWMEM_LIMIT || f == vaddr / PAGE_SIZE)
    {
      ghost var used := pmm.used;
      var phys := pmm.AllocPage();
      StructureGrows(mem, Pd(), used);
      if phys == 0 {
        return Done(false);
      }
      ghost var taken, mem0 := pmm.used, mem;
      assert taken == AfterPage(used) && phys == P.AllocAddress(used);
      AddressOnPage(used);
      var m := Map(vaddr, phys);
      if m.Panic? {
        return Panic;
      }
      assert Remapped(mem0, mem, Pd(), taken, pmm.used, vaddr / PAGE_SIZE, phys / PAGE_SIZE);
      return Done(true);
    }

    // ----- initialisation -----------------------------------------------------------

    /** Fills a frame word by word while paging is still off. */
    method FillFrame(t: Frame, word: seq<Dword>)
      requires !paging && |word| == ENTRIES
      modifies this`mem
      ensures SameOutside(old(mem), mem, t)
      ensures forall i :: 0 <= i < ENTRIES ==> Word(mem, t, i) == word[i]
    {
      for k := 0 to ENTRIES
        invariant SameOutside(old(mem), mem, t)
        invariant forall i :: 0 <= i < k ==> Word(mem, t, i) == word[i]
      {
        StoreWord(t, k, word[k]);
      }
    }

    method AllocLow() returns (addr: Dword)
      requires pmm.Sane()
      modifies pmm, pmm.bitmap
      ensures pmm.Sane()
      ensures var f := LowFree(old(pmm.used));
              if f == -1 then addr == 0 && pmm.used == old(pmm.used)
              else addr == f * PAGE_SIZE > 0 && f < LOW_FRAMES && pmm.used == old(pmm.used)[f := true]
    {
      addr := pmm.AllocPageLow(LOWMEM_LIMIT);
    }

    /** Steps 3 to 6 of `vmm_init`. */
    method EnablePaging(t: Frame)
      requires !paging
      requires forall i :: 0 <= i < ENTRIES ==> Word(mem, Pd(), i) == 0
      requires Pd() != t && Pd() < LOW_FRAMES && t < LOW_FRAMES
      requires Pd() < |pmm.used| && pmm.used[Pd()] && t < |pmm.used| && pmm.used[t]
      modifies this`mem, this`paging
      ensures paging && Structure(mem, Pd(), pmm.used) && LowIdentity(mem, Pd()) && AllWritable(mem, Pd())
      ensures Directory() == BootDirectory(t)
      ensures forall page: Frame :: Translate(page) == if page < LOW_FRAMES then Some(page) else None
    {
      ghost var cleared := mem;
      FillFrame(t, seq(ENTRIES, i requires 0 <= i < ENTRIES => MakeEntry(i)));
      ghost var filled := mem;
      StoreWord(Pd(), 0, MakeEntry(t));
      BootTables(cleared, filled, Pd(), t, pmm.used);
      paging := true;
    }

    /**
      `vmm_init`: panics exactly when fewer than two low frames are free; otherwise
      low memory is mapped onto itself and nothing else is mapped.
     */
    method Init() returns (o: Outcome<()>)
      requires pmm.Sane() && !paging
      modifies this, pmm, pmm.bitmap
      ensures o.Panic? <==> FreeBelow(old(pmm.used), LowFrames(old(pmm.used))) < 2
      ensures o.Done? ==>
                && Valid()
                && Directory()[0].Some? && Directory() == BootDirectory(Directory()[0].value)
                && (forall page: Frame :: Translate(page) == if page < LOW_FRAMES then Some(page) else None)
                && FreeBelow(pmm.used, pmm.totalBlocks) == FreeBelow(old(pmm.used), pmm.totalBlocks) - 2
                && |pmm.used| == |old(pmm.used)|
                && FreeBelow(pmm.used, LowFrames(pmm.used)) == FreeBelow(old(pmm.used), LowFrames(old(pmm.used))) - 2
                && TwoTaken(old(pmm.used), pmm.used, Pd(), Directory()[0].value)
    {
      ghost var used := pmm.used;
      TwoLowFrames(used);
      directory := AllocLow();
      if directory == 0 {
        return Panic;
      }
      assert Pd() == LowFree(used);
      ghost var taken := used[Pd() := true];
      assert pmm.used == taken;
      FillFrame(Pd(), seq(ENTRIES, _ => 0));
      var firstTable := AllocLow();
      if firstTable == 0 {
        return Panic;
      }
      ghost var t := LowFree(taken);
      assert pmm.used == taken[t := true] && TwoTaken(used, pmm.used, Pd(), t);
      hide TwoTaken, FirstFree, FreeBelow, AllWritable, Structure, LowIdentity;
      EnablePaging(firstTable / PAGE_SIZE);
      return Done(());
    }
  }

  /** Two different free low frames were taken. */
  predicate TwoTaken(used: seq<bool>, used': seq<bool>, f: nat, g: nat) {
    && f < LowFrames(used) && g < LowFrames(used) && f != g && !used[f] && !used[g]
    && used' == used[f := true][g := true]
  }

  /** Two low allocations in a row succeed exactly when two low frames are free. */
  lemma TwoLowFrames(used: seq<bool>)
    ensures LowFree(used) == -1 <==> FreeBelow(used, LowFrames(used)) == 0
    ensures var f := LowFree(used);
            f != -1 ==> var taken := used[f := true];
              && LowFree(taken) != f
              && (LowFree(taken) == -1 <==> FreeBelow(used, LowFrames(used)) == 1)
              && FreeBelow(taken, |used|) == FreeBelow(used, |used|) - 1
              && FreeBelow(taken, LowFrames(used)) == FreeBelow(used, LowFrames(used)) - 1
              && (var g := LowFree(taken);
                  g != -1 ==>
                    && TwoTaken(used, taken[g := true], f, g)
                    && FreeBelow(taken[g := true], |used|) == FreeBelow(used, |used|) - 2
                    && FreeBelow(taken[g := true], LowFrames(used)) == FreeBelow(used, LowFrames(used)) - 2)
  {
    FreeBelowZero(used, LowFrames(used));
    FirstFreeSpec(used, 0, LowFrames(used));
    var f := LowFree(used);
    if f != -1 {
      var taken := used[f := true];
      FreeBelowUpdate(used, LowFrames(used), f, true);
      FreeBelowUpdate(used, |used|, f, true);
      FreeBelowZero(taken, LowFrames(taken));
      FirstFreeSpec(taken, 0, LowFrames(taken));
      var g := LowFree(taken);
      if g != -1 {
        FreeBelowUpdate(taken, |used|, g, true);
        FreeBelowUpdate(taken, LowFrames(used), g, true);
      }
    }
  }

  /** The directory that `vmm_init` leaves: one table, for low memory. */
  function BootDirectory(t: Frame): Directory {
    seq(ENTRIES, i => if i == 0 then Some(t) else None)
  }

  /** The tables that `vmm_init` builds. */
  lemma BootTables(cleared: Memory, filled: Memory, pd: Frame, t: Frame, used: seq<bool>)
    requires pd != t && pd < LOW_FRAMES && t < LOW_FRAMES
    requires pd < |used| && used[pd] && t < |used| && used[t]
    requires forall i :: 0 <= i < ENTRIES ==> Word(cleared, pd, i) == 0
    requires SameOutside(cleared, filled, t)
    requires forall i :: 0 <= i < ENTRIES ==> Word(filled, t, i) == MakeEntry(i)
    ensures var mem := Write(filled, pd, 0, MakeEntry(t));
            && Structure(mem, pd, used) && LowIdentity(mem, pd) && Tables(mem, pd) == BootDirectory(t)
            && AllWritable(mem, pd)
            && (forall page: Frame :: Walk(mem, pd, page) == if page < LOW_FRAMES then Some(page) else None)
  {
    var mem := Write(filled, pd, 0, MakeEntry(t));
    forall i | 0 <= i < ENTRIES
      ensures Tables(mem, pd)[i] == BootDirectory(t)[i]
    {
      assert i != 0 ==> Word(mem, pd, i) == Word(filled, pd, i) == Word(cleared, pd, i);
    }
    assert Tables(mem, pd) == BootDirectory(t);
    forall k | 0 <= k < ENTRIES
      ensures Word(mem, pd, k) % 4 != 1 && Word(mem, t, k) % 4 != 1
    {
      EntryWritable(t);
      EntryWritable(k);
      assert k != 0 ==> Word(mem, pd, k) == 0;
      assert Word(mem, t, k) == MakeEntry(k);
    }
    assert EntriesWritable(mem, pd) && EntriesWritable(mem, t);
    forall page: Frame
      ensures Walk(mem, pd, page) == if page < LOW_FRAMES then Some(page) else None
    {
      WalkByTable(mem, pd, page);
      assert Word(mem, t, page % ENTRIES) == Word(filled, t, page % ENTRIES);
    }
  }

  lemma StructureGrows(mem: Memory, pd: Frame, used: seq<bool>)
    requires Structure(mem, pd, used)
    ensures Structure(mem, pd, AfterPage(used))
  {
  }

  lemma AddressOnPage(used: seq<bool>)
    ensures P.AllocAddress(used) < U32 && P.AllocAddress(used) % PAGE_SIZE == 0
  {
  }

  lemma LowFrameStaysMapped(mem: Memory, mem': Memory, pd: Frame, used: seq<bool>, t: Frame)
    requires Structure(mem, pd, used) && LowIdentity(mem, pd) && SameOutside(mem, mem', t)
    requires t < LOW_FRAMES && (t >= |used| || !used[t])
    ensures Walk(mem', pd, t) == Some(t)
  {
    OutsideEdit(mem, mem', pd, used, t);
  }

  lemma OneMoreWord(mem0: Memory, mem: Memory, mem': Memory, t: Frame, k: nat)
    requires k < ENTRIES && SameOutside(mem0, mem, t) && mem' == Write(mem, t, k, 0)
    requires forall i :: 0 <= i < k ==> Word(mem, t, i) == 0
    ensures SameOutside(mem0, mem', t)
    ensures forall i :: 0 <= i <= k ==> Word(mem', t, i) == 0
  {
  }
}
