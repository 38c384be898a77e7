/** The physical memory manager, kernel/core/pmm.c. */
module Pmm {
  import opened Machine
  import opened Bits
  import opened Frames

  const KERNEL_BASE := 0x10000
  const BITMAP_BASE := 0x20000
  const BOOT_INFO := 0x5000
  const WORD_BITS := 32
  const MAX_FRAMES := 0x10_0000
  const MAX_SIGNED := 0x8000_0000

  type Byte = b: Bits | |b| == 8 witness Zero(8)
  type Word = w: Bits | |w| == WORD_BITS witness Zero(WORD_BITS)

  datatype E820Entry = E820Entry(base: nat, length: nat, kind: nat) {
    predicate Usable() { kind == 1 }
  }

  /** Some byte of [base, base+length) lies in frame `f`. */
  predicate Touches(base: nat, length: nat, f: nat) {
    length > 0 && base < (f + 1) * PAGE_SIZE && f * PAGE_SIZE < base + length
  }

  /** Every byte of frame `f` lies in [base, base+length). */
  predicate Covers(base: nat, length: nat, f: nat) {
    base <= f * PAGE_SIZE && (f + 1) * PAGE_SIZE <= base + length
  }

  /** The ranges that `pmm_init` locks after freeing the usable memory. */
  predicate Locked(f: nat, kernelSize: nat, bitmapSize: nat) {
    || Touches(0, PAGE_SIZE, f)
    || Touches(KERNEL_BASE, kernelSize, f)
    || Touches(BITMAP_BASE, bitmapSize, f)
    || Touches(BOOT_INFO, PAGE_SIZE, f)
  }

  ghost predicate UsableTouches(entries: seq<E820Entry>, f: nat) {
    exists i :: 0 <= i < |entries| && entries[i].Usable() && Touches(entries[i].base, entries[i].length, f)
  }

  /** The frame that holds byte `x` is not free. */
  ghost predicate Kept(used: seq<bool>, x: nat) {
    x / 4096 < |used| ==> used[x / 4096]
  }

  /** Byte `x` lies in the page at `a`. */
  predicate InPage(x: nat, a: nat) { a <= x < a + 4096 }

  lemma SameFrame(a: nat, x: nat)
    requires a % 4096 == 0 && InPage(x, a)
    ensures x / 4096 == a / 4096
  {
  }

  /**
    The map of `pmm_init` in bytes. Page 0, the page of BootInfo and the E820 map, the
    kernel and the bitmap are in use; a frame is free exactly when an entry of kind 1
    has a byte in it and none of these ranges has.
   */
  lemma BootMapBytes(used: seq<bool>, entries: seq<E820Entry>, kernelSize: nat, bitmapSize: nat)
    requires BootMap(used, entries, kernelSize, bitmapSize)
    ensures forall x: nat ::
              (|| x < 0x1000 || 0x5000 <= x < 0x6000
               || 0x1_0000 <= x < 0x1_0000 + kernelSize || 0x2_0000 <= x < 0x2_0000 + bitmapSize) ==>
              Kept(used, x)
    ensures forall f: nat :: f < |used| ==>
              (!used[f] <==>
               && (exists i :: 0 <= i < |entries| && entries[i].kind == 1 && entries[i].length > 0 &&
                               entries[i].base < f * 4096 + 4096 && f * 4096 < entries[i].base + entries[i].length)
               && f != 0 && f != 5
               && (kernelSize == 0 || f * 4096 + 4096 <= 0x1_0000 || 0x1_0000 + kernelSize <= f * 4096)
               && (bitmapSize == 0 || f * 4096 + 4096 <= 0x2_0000 || 0x2_0000 + bitmapSize <= f * 4096))
  {
    LockedBytes(used, kernelSize, bitmapSize);
  }

  /** The locked ranges in bytes. */
  lemma LockedBytes(used: seq<bool>, kernelSize: nat, bitmapSize: nat)
    requires forall f: nat :: f < |used| && Locked(f, kernelSize, bitmapSize) ==> used[f]
    ensures forall x: nat ::
              (|| x < 0x1000 || 0x5000 <= x < 0x6000
               || 0x1_0000 <= x < 0x1_0000 + kernelSize || 0x2_0000 <= x < 0x2_0000 + bitmapSize) ==>
              Kept(used, x)
  {
    forall x: nat | || x < 0x1000 || 0x5000 <= x < 0x6000
                    || 0x1_0000 <= x < 0x1_0000 + kernelSize || 0x2_0000 <= x < 0x2_0000 + bitmapSize
      ensures Kept(used, x)
    {
      assert x / 4096 < |used| ==> Locked(x / 4096, kernelSize, bitmapSize);
    }
  }

  /** Usable memory ends at or below 4 GiB, the reach of a 32-bit frame address. */
  ghost predicate MapFits(entries: seq<E820Entry>) {
    forall i :: 0 <= i < |entries| && entries[i].Usable() ==>
      entries[i].base + entries[i].length <= U32
  }

  /** The frames that `pmm_init` leaves free. */
  ghost predicate BootMap(used: seq<bool>, entries: seq<E820Entry>, kernelSize: nat, bitmapSize: nat) {
    forall f: nat :: f < |used| ==>
      (!used[f] <==> UsableTouches(entries, f) && !Locked(f, kernelSize, bitmapSize))
  }

  /** Usable memory ends below 16 TiB, so that frame and bitmap counts fit 32 bits. */
  ghost predicate MapCounts(entries: seq<E820Entry>) {
    forall i :: 0 <= i < |entries| && entries[i].Usable() ==>
      entries[i].base + entries[i].length <= (U32 - 8) * PAGE_SIZE
  }

  /** Usable memory ends at or below 8 TiB, so that frame numbers fit 32 bits with a sign. */
  ghost predicate MapSigned(entries: seq<E820Entry>) {
    forall i :: 0 <= i < |entries| && entries[i].Usable() ==>
      entries[i].base + entries[i].length <= MAX_SIGNED * PAGE_SIZE
  }

  /** `n` is the smallest number of frames that reaches the end of every usable entry. */
  ghost predicate Spans(entries: seq<E820Entry>, n: nat) {
    && (forall i :: 0 <= i < |entries| && entries[i].Usable() ==>
          entries[i].base + entries[i].length <= n * PAGE_SIZE)
    && (n == 0 || exists i :: 0 <= i < |entries| && entries[i].Usable() &&
                              (n - 1) * PAGE_SIZE < entries[i].base + entries[i].length)
  }

  /** The 32-bit address that `frame * PMM_PAGE_SIZE` evaluates to. */
  function FrameAddress(frame: nat): nat {
    frame * PAGE_SIZE % U32
  }

  /** A frame has the null address exactly when its number is a multiple of 2^20. */
  lemma NullAddress(f: nat)
    ensures FrameAddress(f) == 0 <==> f % MAX_FRAMES == 0
  {
  }

  /**
    Frame addresses identify frames exactly while there are at most 2^20 of
    them; one frame more and its address is null.
   */
  lemma AddressesFaithfulIff(total: nat)
    ensures total <= MAX_FRAMES <==>
            forall f, g :: 0 <= f < total && 0 <= g < total && FrameAddress(f) == FrameAddress(g) ==> f == g
  {
    if total > MAX_FRAMES {
      assert FrameAddress(0) == FrameAddress(MAX_FRAMES);
    }
  }

  /** What `pmm_alloc_page` returns: the address of the lowest free frame, or null. */
  function AllocAddress(used: seq<bool>): nat {
    var f := FirstFree(used, 0, |used|);
    if f == -1 then 0 else FrameAddress(f)
  }

  /** Frames that an allocation limited to `maxAddr` may use, out of `total`. */
  function LowLimit(total: nat, maxAddr: nat): (n: nat)
    ensures n <= total
  {
    if maxAddr / PAGE_SIZE > total then total else maxAddr / PAGE_SIZE
  }

  lemma FrameInRange(frame: nat, maxAddr: nat)
    requires frame < MAX_FRAMES && frame < maxAddr / PAGE_SIZE
    ensures FrameAddress(frame) == frame * PAGE_SIZE < maxAddr
  {
  }

  /** `highest` is the largest end of a usable entry, or 0. */
  ghost predicate Highest(entries: seq<E820Entry>, highest: nat) {
    && (forall i :: 0 <= i < |entries| && entries[i].Usable() ==>
          entries[i].base + entries[i].length <= highest)
    && (highest == 0 ||
        exists i :: 0 <= i < |entries| && entries[i].Usable() && highest == entries[i].base + entries[i].length)
  }

  method HighestAddress(entries: seq<E820Entry>) returns (highest: nat)
    ensures Highest(entries, highest)
  {
    highest := 0;
    for k := 0 to |entries|
      invariant forall i :: 0 <= i < k && entries[i].Usable() ==>
                  entries[i].base + entries[i].length <= highest
      invariant highest == 0 ||
                (exists i :: 0 <= i < k && entries[i].Usable() && highest == entries[i].base + entries[i].length)
    {
      if entries[k].Usable() {
        var top := entries[k].base + entries[k].length;
        if top > highest {
          highest := top;
        }
      }
    }
  }

  /** `pmm_find_first_set_bit`: lowest set bit of a word, or -1. */
  method FindFirstSetBit(value: Word) returns (r: int)
    ensures r == -1 ==> forall k :: 0 <= k < WORD_BITS ==> !value[k]
    ensures r != -1 ==> 0 <= r < WORD_BITS && value[r] && forall k :: 0 <= k < r ==> !value[k]
  {
    for bit := 0 to WORD_BITS
      invariant forall k :: 0 <= k < bit ==> !value[k]
    {
      TestBit(value, bit);
      if And(value, ShiftLeft(One(WORD_BITS), bit)) != Zero(WORD_BITS) {
        return bit;
      }
    }
    return -1;
  }

  /**
    The edge masks of one step of `pmm_find_free_in_range`: they keep exactly
    the frames of [start, end).
   */
  method EdgeMask(start: nat, end: nat, wordIndex: nat) returns (mask: Word)
    requires start < end
    requires start / WORD_BITS <= wordIndex <= (end - 1) / WORD_BITS
    ensures forall k :: 0 <= k < WORD_BITS ==> mask[k] == (start <= wordIndex * WORD_BITS + k < end)
  {
    mask := Ones(WORD_BITS);
    if wordIndex == start / WORD_BITS {
      var startBit := start % WORD_BITS;
      if startBit != 0 {
        mask := And(mask, ShiftLeft(Ones(WORD_BITS), startBit));
      }
    }
    assert forall k :: 0 <= k < WORD_BITS ==> mask[k] == (start <= wordIndex * WORD_BITS + k);
    if wordIndex == (end - 1) / WORD_BITS {
      var endBit := (end - 1) % WORD_BITS;
      if endBit != WORD_BITS - 1 {
        LowMask(WORD_BITS, endBit);
        mask := And(mask, Decrement(ShiftLeft(One(WORD_BITS), endBit + 1)));
      }
    }
  }

  class FrameAllocator {
    const totalBlocks: nat
    const bitmap: array<Byte>
    var usedBlocks: nat
    var lastFree: nat
    var lastFreeLow: nat

    /** The abstract frame map the bitmap stands for. */
    ghost var used: seq<bool>

    ghost predicate Stored(f: nat)
      requires f / 8 < bitmap.Length
      reads bitmap
    {
      bitmap[f / 8][f % 8]
    }

    /** Frames past the end of memory count as used. */
    ghost predicate UsedAt(f: nat)
      reads this
    {
      f < |used| ==> used[f]
    }

    /**
      Bitmap, frame map and counter agree; the tail bits of the last byte and
      everything past it read as used.
     */
    ghost predicate Consistent()
      reads this, bitmap
    {
      && bitmap.Length == (totalBlocks + 7) / 8
      && |used| == totalBlocks
      && usedBlocks == totalBlocks - FreeBelow(used, totalBlocks)
      && (forall f: nat {:trigger Stored(f)} :: f / 8 < bitmap.Length ==> Stored(f) == UsedAt(f))
    }

    /** What every call after `pmm_init` keeps; frame numbers fit the source's signed results. */
    ghost predicate Sane()
      reads this, bitmap
    {
      && Consistent() && totalBlocks <= MAX_SIGNED
      && lastFree <= totalBlocks && (forall f :: 0 <= f < lastFree ==> used[f])
      && lastFreeLow <= totalBlocks && (forall f :: 0 <= f < lastFreeLow ==> used[f])
      && (totalBlocks > 0 ==> used[0])
    }

    /** The same on memory that 32-bit addresses reach. */
    ghost predicate Valid()
      reads this, bitmap
    {
      Sane() && totalBlocks <= MAX_FRAMES
    }

    // ----- bit helpers ------------------------------------------------------

    /** `pmm_set` */
    method Set(frame: nat) returns (o: Outcome<()>)
      requires Consistent()
      modifies this`usedBlocks, this`used, bitmap
      ensures Consistent()
      ensures o.Panic? <==> frame >= totalBlocks
      ensures o.Panic? ==> used == old(used)
      ensures o.Done? ==> used == old(used)[frame := true]
    {
      if frame >= totalBlocks {
        return Panic;
      }
      var idx := frame / 8;
      var off := frame % 8;
      TestBit(bitmap[idx], off);
      assert Stored(frame) == used[frame];
      if And(bitmap[idx], ShiftLeft(One(8), off)) == Zero(8) {
        SetBit(bitmap[idx], off);
        bitmap[idx] := Or(bitmap[idx], ShiftLeft(One(8), off));
        usedBlocks := usedBlocks + 1;
        FreeBelowUpdate(used, totalBlocks, frame, true);
        used := used[frame := true];
        forall f: nat | f / 8 < bitmap.Length
          ensures Stored(f) == UsedAt(f)
        {
          assert old(Stored(f)) == old(UsedAt(f));
        }
      } else {
        assert used == used[frame := true];
      }
      return Done(());
    }

    /** `pmm_unset`; the underflow panic is unreachable. */
    method Unset(frame: nat) returns (o: Outcome<()>)
      requires Consistent()
      modifies this`usedBlocks, this`used, bitmap
      ensures Consistent()
      ensures o.Panic? <==> frame >= totalBlocks
      ensures o.Panic? ==> used == old(used)
      ensures o.Done? ==> used == old(used)[frame := false]
    {
      if frame >= totalBlocks {
        return Panic;
      }
      var idx := frame / 8;
      var off := frame % 8;
      TestBit(bitmap[idx], off);
      assert Stored(frame) == used[frame];
      if And(bitmap[idx], ShiftLeft(One(8), off)) != Zero(8) {
        ClearBit(bitmap[idx], off);
        bitmap[idx] := And(bitmap[idx], Not(ShiftLeft(One(8), off)));
        FreeBelowUpdate(used, totalBlocks, frame, false);
        if usedBlocks == 0 {
          assert false;
        }
        usedBlocks := usedBlocks - 1;
        used := used[frame := false];
        forall f: nat | f / 8 < bitmap.Length
          ensures Stored(f) == UsedAt(f)
        {
          assert old(Stored(f)) == old(UsedAt(f));
        }
      } else {
        assert used == used[frame := false];
      }
      return Done(());
    }

    /** `pmm_test` */
    method Test(frame: nat) returns (b: bool)
      requires Consistent() && frame < totalBlocks
      ensures b == used[frame]
    {
      TestBit(bitmap[frame / 8], frame % 8);
      assert Stored(frame) == used[frame];
      b := And(bitmap[frame / 8], ShiftLeft(One(8), frame % 8)) != Zero(8);
    }

    // ----- word scan --------------------------------------------------------

    /** `pmm_bitmap_word`: bytes past the bitmap read as 0xFF. */
    method BitmapWord(wordIndex: nat) returns (w: Word)
      requires Consistent()
      ensures forall k :: 0 <= k < WORD_BITS ==> w[k] == UsedAt(wordIndex * WORD_BITS + k)
    {
      var byteIndex := wordIndex * 4;
      var full := Ones(8);
      var bytes := [full, full, full, full];
      for i := 0 to 4
        invariant |bytes| == 4
        invariant forall j :: 0 <= j < i ==>
                    bytes[j] == if byteIndex + j < bitmap.Length then bitmap[byteIndex + j] else full
        invariant forall j :: i <= j < 4 ==> bytes[j] == full
      {
        if byteIndex + i < bitmap.Length {
          bytes := bytes[i := bitmap[byteIndex + i]];
        }
      }
      w := LittleEndian(bytes[0], bytes[1], bytes[2], bytes[3]);
      forall k | 0 <= k < WORD_BITS
        ensures w[k] == UsedAt(wordIndex * WORD_BITS + k)
      {
        assert w[k] == bytes[k / 8][k % 8];
        ByteUsed(byteIndex + k / 8, k % 8, bytes[k / 8]);
      }
    }

    lemma ByteUsed(i: nat, k: nat, b: Byte)
      requires Consistent() && k < 8
      requires b == if i < bitmap.Length then bitmap[i] else Ones(8)
      ensures b[k] == UsedAt(8 * i + k)
    {
      if i < bitmap.Length {
        assert (8 * i + k) / 8 == i && (8 * i + k) % 8 == k;
        assert Stored(8 * i + k) == UsedAt(8 * i + k);
      }
    }

    /** `pmm_find_free_in_range`: lowest free frame of [start, end), or -1. */
    method FindFreeInRange(start: nat, end: nat) returns (r: int)
      requires Consistent()
      ensures r == -1 || start <= r < end
      ensures r == -1 ==> forall f :: start <= f < end ==> UsedAt(f)
      ensures r != -1 ==> !UsedAt(r) && forall f :: start <= f < r ==> UsedAt(f)
    {
      if start >= end {
        return -1;
      }
      var startWord := start / WORD_BITS;
      var endWord := (end - 1) / WORD_BITS;
      for wordIndex := startWord to endWord + 1
        invariant forall f :: start <= f < end && f < wordIndex * WORD_BITS ==> UsedAt(f)
      {
        var base := wordIndex * WORD_BITS;
        var word := BitmapWord(wordIndex);
        var mask := EdgeMask(start, end, wordIndex);
        var candidates := And(Not(word), mask);
        assert forall f :: start <= f < end && base <= f < base + WORD_BITS ==> candidates[f - base] == !UsedAt(f);
        if candidates != Zero(WORD_BITS) {
          var bit := FindFirstSetBit(candidates);
          if bit >= 0 {
            return base + bit;
          }
        }
      }
      return -1;
    }

    // ----- next-fit cursors ---------------------------------------------------

    /**
      `pmm_first_free_from`. The source passes the cursor by reference; here it
      is passed in and its new value is returned.
     */
    method FirstFreeFrom(cursor: nat, end: nat) returns (r: int, cursor': nat)
      requires Consistent() && end <= totalBlocks
      requires forall f :: 0 <= f < cursor ==> UsedAt(f)
      ensures r == FirstFree(used, 0, end)
      ensures cursor' == if cursor >= end then 0 else cursor
    {
      cursor' := cursor;
      if cursor' >= end {
        cursor' := 0;
      }
      r := FindFreeInRange(cursor', end);
      ghost var reach := if r == -1 then end else r;
      forall f | 0 <= f < reach
        ensures used[f]
      {
        assert UsedAt(f);
      }
      FirstFreeUnique(used, 0, end, r);
      if r >= 0 {
        return;
      }
      r := FindFreeInRange(0, cursor');
    }

    /** A full counter means no frame is free. */
    lemma FullMeansNone(end: nat)
      requires Consistent() && end <= totalBlocks
      requires usedBlocks >= totalBlocks
      ensures FirstFree(used, 0, end) == -1
    {
      FreeBelowZero(used, totalBlocks);
      FirstFreeSpec(used, 0, totalBlocks);
      FirstFreeUnique(used, 0, end, -1);
    }

    /** `pmm_first_free` */
    method NextFree() returns (r: int)
      requires Sane()
      modifies this`lastFree
      ensures Sane()
      ensures r == FirstFree(used, 0, totalBlocks)
    {
      if usedBlocks >= totalBlocks {
        FullMeansNone(totalBlocks);
        return -1;
      }
      r, lastFree := FirstFreeFrom(lastFree, totalBlocks);
    }

    /** `pmm_first_free_low` */
    method NextFreeLow(maxFrame: nat) returns (r: int)
      requires Sane() && maxFrame <= totalBlocks
      modifies this`lastFreeLow
      ensures Sane()
      ensures r == FirstFree(used, 0, maxFrame)
    {
      if usedBlocks >= totalBlocks {
        FullMeansNone(maxFrame);
        return -1;
      }
      r, lastFreeLow := FirstFreeFrom(lastFreeLow, maxFrame);
    }

    /** `pmm_alloc_page`: plain first-fit; within 4 GiB null means out of memory. */
    method AllocPage() returns (addr: nat)
      requires Sane()
      modifies this, bitmap
      ensures Sane()
      ensures addr == AllocAddress(old(used)) && used == AfterPage(old(used))
      ensures var f := FirstFree(old(used), 0, totalBlocks);
              totalBlocks <= MAX_FRAMES && f != -1 ==> addr == f * PAGE_SIZE && 0 < addr < U32
    {
      var frame := NextFree();
      FirstFreeSpec(used, 0, totalBlocks);
      if frame == -1 {
        return 0;
      }
      var o := Set(frame);
      assert o.Done?;
      lastFree := frame + 1;
      if lastFree >= totalBlocks {
        lastFree := 0;
      }
      return FrameAddress(frame);
    }

    /** `pmm_alloc_page_low`: plain first-fit below the limit. */
    method AllocPageLow(maxAddr: nat) returns (addr: nat)
      requires Sane()
      modifies this, bitmap
      ensures Sane()
      ensures var f := FirstFree(old(used), 0, LowLimit(totalBlocks, maxAddr));
              if f == -1 then addr == 0 && used == old(used)
              else addr == FrameAddress(f) && used == old(used)[f := true] &&
                   (f < MAX_FRAMES ==> addr == f * PAGE_SIZE && 0 < addr < U32 && addr < maxAddr)
    {
      var maxFrame := maxAddr / PAGE_SIZE;
      if maxFrame == 0 {
        return 0;
      }
      if maxFrame > totalBlocks {
        maxFrame := totalBlocks;
      }
      var frame := NextFreeLow(maxFrame);
      FirstFreeSpec(used, 0, maxFrame);
      if frame == -1 {
        return 0;
      }
      if frame < MAX_FRAMES {
        FrameInRange(frame, maxAddr);
      }
      var o := Set(frame);
      assert o.Done?;
      lastFreeLow := frame + 1;
      if lastFreeLow >= maxFrame {
        lastFreeLow := 0;
      }
      return FrameAddress(frame);
    }

    /** `pmm_free_page`: panics on exactly the pointers that are unaligned, out of range or of a free frame. */
    method FreePage(p: nat) returns (o: Outcome<()>)
      requires Sane()
      modifies this, bitmap
      ensures Sane()
      ensures o.Panic? <==> p % 4096 != 0 || (p != 0 && (p / 4096 >= |old(used)| || !old(used)[p / 4096]))
      ensures used == if o.Done? && p != 0 then old(used)[p / 4096 := false] else old(used)
    {
      if p == 0 {
        return Done(());
      }
      if p % PAGE_SIZE != 0 {
        return Panic;
      }
      var frame := p / PAGE_SIZE;
      if frame >= totalBlocks {
        return Panic;
      }
      var t := Test(frame);
      if !t {
        return Panic;
      }
      o := Unset(frame);
      if frame < lastFree {
        lastFree := frame;
      }
      if frame < lastFreeLow {
        lastFreeLow := frame;
      }
    }

    /** `pmm_get_free_memory`; within 4 GiB the 32-bit product does not wrap. */
    method GetFreeMemory() returns (bytes: nat)
      requires Sane()
      ensures bytes == FreeBelow(used, totalBlocks) * PAGE_SIZE % U32
      ensures totalBlocks <= MAX_FRAMES ==> bytes == FreeBelow(used, totalBlocks) * PAGE_SIZE
    {
      bytes := (totalBlocks - usedBlocks) * PAGE_SIZE % U32;
      if totalBlocks > 0 {
        FreeBelowMonotone(used, 1, totalBlocks);
      }
    }

    // ----- regions and initialisation -------------------------------------------

    /** `pmm_mark_region_used` */
    method MarkRegionUsed(base: nat, length: nat)
      requires Consistent()
      modifies this`usedBlocks, this`used, bitmap
      ensures Consistent()
      ensures forall f :: 0 <= f < totalBlocks ==> used[f] == (old(used[f]) || Touches(base, length, f))
    {
      if length == 0 {
        return;
      }
      var startFrame := base / PAGE_SIZE;
      var endFrame := (base + length + PAGE_SIZE - 1) / PAGE_SIZE;
      if endFrame > totalBlocks {
        endFrame := totalBlocks;
      }
      var frame := startFrame;
      while frame < endFrame
        invariant Consistent()
        invariant startFrame <= frame
        invariant forall f :: 0 <= f < totalBlocks ==> used[f] == (old(used[f]) || startFrame <= f < frame)
        invariant frame <= endFrame || frame == startFrame
      {
        var o := Set(frame);
        assert o.Done?;
        frame := frame + 1;
      }
    }

    /** `pmm_mark_region_free` */
    method MarkRegionFree(base: nat, length: nat)
      requires Consistent()
      modifies this`usedBlocks, this`used, bitmap
      ensures Consistent()
      ensures forall f :: 0 <= f < totalBlocks ==> used[f] == (old(used[f]) && !Touches(base, length, f))
    {
      if length == 0 {
        return;
      }
      var startFrame := base / PAGE_SIZE;
      var endFrame := (base + length + PAGE_SIZE - 1) / PAGE_SIZE;
      if endFrame > totalBlocks {
        endFrame := totalBlocks;
      }
      var frame := startFrame;
      while frame < endFrame
        invariant Consistent()
        invariant startFrame <= frame
        invariant forall f :: 0 <= f < totalBlocks ==> used[f] == (old(used[f]) && !(startFrame <= f < frame))
        invariant frame <= endFrame || frame == startFrame
      {
        var o := Unset(frame);
        assert o.Done?;
        frame := frame + 1;
      }
    }

    /** Step 4 of `pmm_init`. */
    method LockRegions(kernelSize: nat)
      requires Consistent()
      modifies this`usedBlocks, this`used, bitmap
      ensures Consistent()
      ensures forall f: nat :: f < totalBlocks ==> used[f] == (old(used[f]) || Locked(f, kernelSize, bitmap.Length))
      ensures forall x: nat ::
                (|| x < 0x1000 || 0x5000 <= x < 0x6000
                 || 0x1_0000 <= x < 0x1_0000 + kernelSize || 0x2_0000 <= x < 0x2_0000 + bitmap.Length) ==>
                Kept(used, x)
    {
      MarkRegionUsed(0, PAGE_SIZE);
      MarkRegionUsed(KERNEL_BASE, kernelSize);
      MarkRegionUsed(BITMAP_BASE, bitmap.Length);
      MarkRegionUsed(BOOT_INFO, PAGE_SIZE);
      LockedBytes(used, kernelSize, bitmap.Length);
    }

    /** Step 3 of `pmm_init`. */
    method FreeUsable(entries: seq<E820Entry>)
      requires Consistent() && (forall f :: 0 <= f < totalBlocks ==> used[f])
      modifies this`usedBlocks, this`used, bitmap
      ensures Consistent()
      ensures forall f: nat :: f < totalBlocks ==> (!used[f] <==> UsableTouches(entries, f))
      ensures forall f: nat :: f < totalBlocks ==>
                (!used[f] <==>
                 exists i :: 0 <= i < |entries| && entries[i].kind == 1 && entries[i].length > 0 &&
                             entries[i].base < f * 4096 + 4096 && f * 4096 < entries[i].base + entries[i].length)
    {
      for k := 0 to |entries|
        invariant Consistent()
        invariant forall f: nat :: f < totalBlocks ==> (!used[f] <==> UsableTouches(entries[..k], f))
      {
        if entries[k].Usable() {
          MarkRegionFree(entries[k].base, entries[k].length);
        }
        forall f: nat | f < totalBlocks
          ensures !used[f] <==> UsableTouches(entries[..k + 1], f)
        {
          ExtendMap(entries, k, f);
        }
      }
      assert entries[..|entries|] == entries;
    }

    /**
      `pmm_init`: frees exactly the frames that usable memory touches and no locked
      range does. The result meets the invariant of the other calls exactly when
      usable memory ends at or below 8 TiB, and every frame has an address of its own
      exactly when it ends at or below 4 GiB.
     */
    constructor Init(entries: seq<E820Entry>, kernelSize: nat)
      requires MapCounts(entries)
      ensures Consistent() && fresh(bitmap) && Spans(entries, totalBlocks)
      ensures Sane() <==> MapSigned(entries)
      ensures Valid() <==> MapFits(entries)
      ensures BootMap(used, entries, kernelSize, bitmap.Length)
      ensures forall f: nat :: UsableTouches(entries, f) ==> f < totalBlocks
      ensures forall x: nat ::
                (|| x < 0x1000 || 0x5000 <= x < 0x6000
                 || 0x1_0000 <= x < 0x1_0000 + kernelSize || 0x2_0000 <= x < 0x2_0000 + bitmap.Length) ==>
                Kept(used, x)
      ensures forall f: nat :: f < totalBlocks && !used[f] ==>
                exists i :: 0 <= i < |entries| && entries[i].kind == 1 && entries[i].length > 0 &&
                            entries[i].base < f * 4096 + 4096 && f * 4096 < entries[i].base + entries[i].length
    {
      hide UsableTouches, MapFits, MapSigned, MapCounts, Spans, Highest, Kept, BootMap, Locked;
      var highest := HighestAddress(entries);
      var total := (highest + PAGE_SIZE - 1) / PAGE_SIZE % U32;
      FrameCount(entries, highest);
      assert total <= U32 - 8 && Spans(entries, total);
      assert (MapFits(entries) <==> total <= MAX_FRAMES) && (MapSigned(entries) <==> total <= MAX_SIGNED);
      var full: Byte := Ones(8);
      totalBlocks := total;
      bitmap := new Byte[(total + 7) % U32 / 8](_ => full);
      usedBlocks := total;
      lastFree := 0;
      lastFreeLow := 0;
      used := seq(total, _ => true);
      new;
      assert bitmap.Length == (totalBlocks + 7) / 8;
      FreeBelowAllUsed(used, totalBlocks);
      FreeUsable(entries);
      ghost var freed := used;
      LockRegions(kernelSize);
      FreedAndLocked(freed, used, entries, kernelSize, bitmap.Length);
      BootMapBytes(used, entries, kernelSize, bitmap.Length);
    }
  }

  lemma FreedAndLocked(freed: seq<bool>, used: seq<bool>, entries: seq<E820Entry>, kernelSize: nat, bitmapSize: nat)
    requires |freed| == |used| && (forall f: nat :: f < |used| ==> (!freed[f] <==> UsableTouches(entries, f)))
    requires forall f: nat :: f < |used| ==> used[f] == (freed[f] || Locked(f, kernelSize, bitmapSize))
    ensures BootMap(used, entries, kernelSize, bitmapSize)
  {
  }

  lemma RoundUp(highest: nat)
    requires highest <= (U32 - 8) * PAGE_SIZE
    ensures var n := (highest + PAGE_SIZE - 1) / PAGE_SIZE;
            && n <= U32 - 8 && highest <= n * PAGE_SIZE && (n > 0 ==> (n - 1) * PAGE_SIZE < highest)
            && (n <= MAX_FRAMES <==> highest <= U32) && (n <= MAX_SIGNED <==> highest <= MAX_SIGNED * PAGE_SIZE)
  {
  }

  /** The frame count that `pmm_init` derives from the highest address. */
  lemma FrameCount(entries: seq<E820Entry>, highest: nat)
    requires MapCounts(entries) && Highest(entries, highest)
    ensures var n := (highest + PAGE_SIZE - 1) / PAGE_SIZE;
            && n <= U32 - 8 && Spans(entries, n)
            && (MapFits(entries) <==> n <= MAX_FRAMES) && (MapSigned(entries) <==> n <= MAX_SIGNED)
            && (forall f: nat :: UsableTouches(entries, f) ==> f < n)
  {
    RoundUp(highest);
  }

  lemma ExtendMap(entries: seq<E820Entry>, k: nat, f: nat)
    requires k < |entries|
    ensures UsableTouches(entries[..k + 1], f) <==>
            UsableTouches(entries[..k], f) || (entries[k].Usable() && Touches(entries[k].base, entries[k].length, f))
  {
  }
}
