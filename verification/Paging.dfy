/**
  Two-level paging as the processor performs it (section 4.3, "32-Bit Paging",
  of the Intel SDM Volume 3A), over a physical memory of 32-bit words.
  Frames and pages are numbered; word `i` of frame `f` is `mem[f * 1024 + i]`.
 */
module Paging {
  import opened Machine

  const ENTRIES := 1024
  const LOW_FRAMES := 1024
  const FRAMES := 0x10_0000
  const MEMORY_WORDS := FRAMES * ENTRIES

  type Dword = x: nat | x < U32
  type Memory = mem: seq<Dword> | |mem| == MEMORY_WORDS
    witness seq(MEMORY_WORDS, _ => 0)

  type Frame = f: nat | f < FRAMES

  predicate Present(entry: Dword) { entry % 2 == 1 }
  function EntryFrame(entry: Dword): Frame { entry / PAGE_SIZE }

  /** `address | PRESENT | READ_WRITE` for a page-aligned address. */
  function MakeEntry(f: Frame): (e: Dword)
    ensures Present(e) && EntryFrame(e) == f
  {
    f * PAGE_SIZE + 3
  }

  function Word(mem: Memory, f: Frame, i: nat): Dword
    requires i < ENTRIES
  {
    mem[f * ENTRIES + i]
  }

  predicate HasTable(mem: Memory, pd: Frame, i: nat)
    requires i < ENTRIES
  {
    Present(Word(mem, pd, i))
  }

  function TableOf(mem: Memory, pd: Frame, i: nat): Frame
    requires i < ENTRIES
  {
    EntryFrame(Word(mem, pd, i))
  }

  /** The page walk: the frame that a page translates to, if any. */
  function Walk(mem: Memory, pd: Frame, page: Frame): Option<Frame> {
    if !HasTable(mem, pd, page / ENTRIES) then None
    else
      var pte := Word(mem, TableOf(mem, pd, page / ENTRIES), page % ENTRIES);
      if Present(pte) then Some(EntryFrame(pte)) else None
  }

  type Directory = ts: seq<Option<Frame>> | |ts| == ENTRIES witness seq(ENTRIES, _ => None)

  /** The directory read as a list of tables. */
  function Tables(mem: Memory, pd: Frame): Directory {
    seq(ENTRIES, i requires 0 <= i < ENTRIES => if HasTable(mem, pd, i) then Some(TableOf(mem, pd, i)) else None)
  }

  /** The directory and its tables are distinct frames in use, all in low memory. */
  ghost predicate Sound(ts: Directory, pd: Frame, used: seq<bool>) {
    && pd < LOW_FRAMES && pd < |used| && used[pd]
    && (forall i :: 0 <= i < ENTRIES && ts[i].Some? ==>
          ts[i].value < LOW_FRAMES && ts[i].value < |used| && used[ts[i].value] && ts[i].value != pd)
    && (forall i, j :: 0 <= i < j < ENTRIES && ts[i].Some? && ts[j].Some? ==> ts[i].value != ts[j].value)
  }

  ghost predicate Structure(mem: Memory, pd: Frame, used: seq<bool>) {
    Sound(Tables(mem, pd), pd, used)
  }

  /** Low memory is mapped onto itself, which is what makes tables editable. */
  ghost predicate LowIdentity(mem: Memory, pd: Frame) {
    forall page: Frame :: page < LOW_FRAMES ==> Walk(mem, pd, page) == Some(page)
  }

  /** No page but `page` translates differently. */
  ghost predicate OnlyPage(mem: Memory, mem': Memory, pd: Frame, page: Frame) {
    forall q: Frame :: q != page ==> Walk(mem', pd, q) == Walk(mem, pd, q)
  }

  /** Every page translates as before. */
  ghost predicate SameWalks(mem: Memory, mem': Memory, pd: Frame) {
    forall q: Frame :: Walk(mem', pd, q) == Walk(mem, pd, q)
  }

  lemma ThenOnly(mem: Memory, mem': Memory, mem'': Memory, pd: Frame, page: Frame)
    requires SameWalks(mem, mem', pd) && OnlyPage(mem', mem'', pd, page)
    ensures OnlyPage(mem, mem'', pd, page)
  {
  }

  /** Memories that agree outside frame `t`. */
  ghost predicate SameOutside(mem: Memory, mem': Memory, t: Frame) {
    forall f: Frame, i: nat :: f != t && i < ENTRIES ==> Word(mem', f, i) == Word(mem, f, i)
  }

  function Write(mem: Memory, f: Frame, i: nat, v: Dword): (mem': Memory)
    requires i < ENTRIES
    ensures Word(mem', f, i) == v
    ensures forall g: Frame, j: nat :: j < ENTRIES && (g != f || j != i) ==> Word(mem', g, j) == Word(mem, g, j)
  {
    mem[f * ENTRIES + i := v]
  }

  lemma SameDirectory(mem: Memory, mem': Memory, pd: Frame)
    requires forall i :: 0 <= i < ENTRIES ==> Word(mem', pd, i) == Word(mem, pd, i)
    ensures Tables(mem', pd) == Tables(mem, pd)
  {
  }

  /** The walk by way of the table list. */
  lemma WalkByTable(mem: Memory, pd: Frame, page: Frame)
    ensures var t := Tables(mem, pd)[page / ENTRIES];
            Walk(mem, pd, page) ==
            if t.None? then None
            else var pte := Word(mem, t.value, page % ENTRIES); if Present(pte) then Some(EntryFrame(pte)) else None
  {
  }

  /** `f` holds neither the directory nor a table. */
  ghost predicate DataFrame(mem: Memory, pd: Frame, f: Frame) {
    f != pd && (forall i :: 0 <= i < ENTRIES ==> Tables(mem, pd)[i] != Some(f))
  }

  /** A frame that is not in use, or is out of memory, is none of the tables. */
  lemma OutsideEdit(mem: Memory, mem': Memory, pd: Frame, used: seq<bool>, t: Frame)
    requires Structure(mem, pd, used) && SameOutside(mem, mem', t)
    requires t >= |used| || !used[t]
    ensures Tables(mem', pd) == Tables(mem, pd)
    ensures SameWalks(mem, mem', pd)
  {
    DataEdit(mem, mem', pd, t);
  }

  /** Editing a frame that is neither the directory nor a table changes no translation. */
  lemma DataEdit(mem: Memory, mem': Memory, pd: Frame, t: Frame)
    requires SameOutside(mem, mem', t) && DataFrame(mem, pd, t)
    ensures Tables(mem', pd) == Tables(mem, pd)
    ensures SameWalks(mem, mem', pd)
  {
    SameDirectory(mem, mem', pd);
    forall page: Frame
      ensures Walk(mem', pd, page) == Walk(mem, pd, page)
    {
      WalkByTable(mem, pd, page);
      WalkByTable(mem', pd, page);
    }
  }

  /** Entering an empty new table into the directory changes no translation. */
  lemma AddTable(mem: Memory, pd: Frame, used: seq<bool>, d: nat, t: Frame)
    requires Structure(mem, pd, used)
    requires d < ENTRIES && Tables(mem, pd)[d].None?
    requires t < LOW_FRAMES && t < |used| && !used[t]
    requires forall i :: 0 <= i < ENTRIES ==> Word(mem, t, i) == 0
    ensures var mem' := Write(mem, pd, d, MakeEntry(t));
            && Tables(mem', pd) == Tables(mem, pd)[d := Some(t)]
            && Structure(mem', pd, used[t := true])
            && SameWalks(mem, mem', pd)
  {
    var mem' := Write(mem, pd, d, MakeEntry(t));
    var ts := Tables(mem, pd);
    forall i | 0 <= i < ENTRIES
      ensures Tables(mem', pd)[i] == ts[d := Some(t)][i]
    {
      assert i != d ==> Word(mem', pd, i) == Word(mem, pd, i);
    }
    assert Tables(mem', pd) == ts[d := Some(t)];
    forall page: Frame
      ensures Walk(mem', pd, page) == Walk(mem, pd, page)
    {
      WalkByTable(mem, pd, page);
      WalkByTable(mem', pd, page);
    }
  }

  // ----- the write bit ------------------------------------------------------------------

  /** Every present entry among the words of frame `f` has bit 1, read/write, set. */
  ghost predicate EntriesWritable(mem: Memory, f: Frame) {
    forall k :: 0 <= k < ENTRIES ==> Word(mem, f, k) % 4 != 1
  }

  /** Every present directory slot and every present entry of every table is writable. */
  ghost predicate AllWritable(mem: Memory, pd: Frame) {
    && EntriesWritable(mem, pd)
    && (forall d :: 0 <= d < ENTRIES && Tables(mem, pd)[d].Some? ==> EntriesWritable(mem, Tables(mem, pd)[d].value))
  }

  lemma EntryWritable(f: Frame)
    ensures MakeEntry(f) % 4 == 3
  {
    FlagBits(1024 * (f as int));
  }

  lemma FlagBits(n: nat)
    ensures (4 * n + 3) % 4 == 3
  {
  }

  lemma SameFrameWritable(mem: Memory, mem': Memory, f: Frame)
    requires EntriesWritable(mem, f) && (forall k :: 0 <= k < ENTRIES ==> Word(mem', f, k) == Word(mem, f, k))
    ensures EntriesWritable(mem', f)
  {
  }

  lemma StoredWritable(mem: Memory, f: Frame, i: nat, g: Frame)
    requires EntriesWritable(mem, f) && i < ENTRIES
    ensures EntriesWritable(Write(mem, f, i, MakeEntry(g)), f)
  {
    EntryWritable(g);
  }

  /** A frame that holds no table may be overwritten. */
  lemma DataWritable(mem: Memory, mem': Memory, pd: Frame, t: Frame)
    requires AllWritable(mem, pd) && SameOutside(mem, mem', t) && DataFrame(mem, pd, t)
    ensures AllWritable(mem', pd)
  {
    DataEdit(mem, mem', pd, t);
    SameFrameWritable(mem, mem', pd);
    forall d | 0 <= d < ENTRIES && Tables(mem', pd)[d].Some?
      ensures EntriesWritable(mem', Tables(mem', pd)[d].value)
    {
      SameFrameWritable(mem, mem', Tables(mem, pd)[d].value);
    }
  }

  /** An entry stored into a table keeps all of them writable. */
  lemma EntryKeepsWritable(mem: Memory, pd: Frame, used: seq<bool>, page: Frame, f: Frame)
    requires Structure(mem, pd, used) && AllWritable(mem, pd) && Tables(mem, pd)[page / ENTRIES].Some?
    ensures AllWritable(Write(mem, Tables(mem, pd)[page / ENTRIES].value, page % ENTRIES, MakeEntry(f)), pd)
  {
    var ts := Tables(mem, pd);
    var t := ts[page / ENTRIES].value;
    var mem' := Write(mem, t, page % ENTRIES, MakeEntry(f));
    SetEntry(mem, pd, used, page, f);
    SameFrameWritable(mem, mem', pd);
    forall d | 0 <= d < ENTRIES && ts[d].Some?
      ensures EntriesWritable(mem', ts[d].value)
    {
      if ts[d].value == t {
        StoredWritable(mem, t, page % ENTRIES, f);
      } else {
        SameFrameWritable(mem, mem', ts[d].value);
      }
    }
  }

  /** So does an empty table entered into the directory. */
  lemma TableKeepsWritable(mem: Memory, pd: Frame, used: seq<bool>, d: nat, t: Frame)
    requires Structure(mem, pd, used) && AllWritable(mem, pd) && d < ENTRIES && Tables(mem, pd)[d].None?
    requires t < LOW_FRAMES && t < |used| && !used[t]
    requires forall i :: 0 <= i < ENTRIES ==> Word(mem, t, i) == 0
    ensures AllWritable(Write(mem, pd, d, MakeEntry(t)), pd)
  {
    var mem' := Write(mem, pd, d, MakeEntry(t));
    var ts := Tables(mem, pd);
    AddTable(mem, pd, used, d, t);
    StoredWritable(mem, pd, d, t);
    var ts' := ts[d := Some(t)];
    forall i | 0 <= i < ENTRIES && ts'[i].Some?
      ensures EntriesWritable(mem', ts'[i].value)
    {
      if i != d {
        SameFrameWritable(mem, mem', ts[i].value);
      }
    }
  }

  /** Writing one table entry changes the translation of exactly one page. */
  lemma SetEntry(mem: Memory, pd: Frame, used: seq<bool>, page: Frame, f: Frame)
    requires Structure(mem, pd, used) && Tables(mem, pd)[page / ENTRIES].Some?
    ensures var mem' := Write(mem, Tables(mem, pd)[page / ENTRIES].value, page % ENTRIES, MakeEntry(f));
            && Tables(mem', pd) == Tables(mem, pd)
            && Walk(mem', pd, page) == Some(f)
            && OnlyPage(mem, mem', pd, page)
  {
    var ts := Tables(mem, pd);
    var d := page / ENTRIES;
    var mem' := Write(mem, ts[d].value, page % ENTRIES, MakeEntry(f));
    SameDirectory(mem, mem', pd);
    WalkByTable(mem', pd, page);
    forall q: Frame | q != page
      ensures Walk(mem', pd, q) == Walk(mem, pd, q)
    {
      WalkByTable(mem, pd, q);
      WalkByTable(mem', pd, q);
      var e := q / ENTRIES;
      if ts[e].Some? && e != d {
        assert ts[e].value != ts[d].value;
      }
    }
  }
}
