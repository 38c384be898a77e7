/**
  The two memory loops of the second-stage loader that place the kernel and check
  it (boot/src/legacy/stage2.asm): `read_kernel_robust` and `kernel_checksum_sum32`.
  Registers are 16 or 32 bits wide and wrap as the processor's do.
 */
module Loader {
  import opened Machine
  import opened Blocks

  const U16 := 0x1_0000
  const LOAD_SEGMENT := 0x1000
  const LOAD_ADDRESS := 0x1_0000
  const MEGABYTE := 0x10_0000
  const BATCH := 18
  const SECTORS_PER_SEGMENT := 128

  type Disk = nat -> Sector

  /** One BIOS read: `count` sectors from `lba` to `segment:offset`. */
  datatype Request = Request(lba: nat, count: nat, segment: nat, offset: nat)

  function Linear(segment: nat, offset: nat): nat { segment * 16 + offset }

  /** The transfer stays inside its 64 KiB segment and inside one batch. */
  predicate Legal(r: Request) {
    0 < r.count <= BATCH && r.offset + r.count * SECTOR <= U16
  }

  /** The first `n` sectors of the kernel body, which starts at sector `first`, are in place. */
  ghost predicate Placed(mem: seq<Byte>, disk: Disk, first: nat, n: nat) {
    && |mem| == MEGABYTE && LOAD_ADDRESS + n * SECTOR <= MEGABYTE
    && (forall x :: 0 <= x < n * SECTOR ==> mem[LOAD_ADDRESS + x] == disk(first + x / SECTOR)[x % SECTOR])
  }

  /** The BIOS transfer itself, as a copy; only legal requests can be made. */
  method Transfer(r: Request, disk: Disk, mem: array<Byte>)
    requires Legal(r)
    requires mem.Length == MEGABYTE && Linear(r.segment, r.offset) + r.count * SECTOR <= MEGABYTE
    modifies mem
    ensures forall x :: 0 <= x < MEGABYTE ==>
              mem[x] == var base := Linear(r.segment, r.offset);
                if base <= x < base + r.count * SECTOR then disk(r.lba + (x - base) / SECTOR)[(x - base) % SECTOR]
                else old(mem[x])
  {
    var base := Linear(r.segment, r.offset);
    for k := 0 to r.count * SECTOR
      invariant forall x :: 0 <= x < MEGABYTE ==>
                  mem[x] == if base <= x < base + k then disk(r.lba + (x - base) / SECTOR)[(x - base) % SECTOR]
                            else old(mem[x])
    {
      mem[base + k] := disk(r.lba + k / SECTOR)[k % SECTOR];
    }
  }

  /** The batch size the loop picks: what fits the segment, the batch and the rest. */
  method BatchSize(cx: nat, bx: nat) returns (count: nat)
    requires 0 < cx < U16 && bx < U16 && bx % SECTOR == 0
    ensures 0 < count <= cx && count <= BATCH && bx + count * SECTOR <= U16
    ensures count == cx || count == 18 || bx + (count + 1) * 512 > 0x1_0000
  {
    var dx := (U16 - bx) % U16;
    if dx == 0 {
      dx := 0xFFFF;
    }
    dx := dx / SECTOR;
    if dx > BATCH {
      dx := BATCH;
    }
    count := cx;
    if count > dx {
      count := dx;
    }
  }

  /** ES after `done` sectors. */
  function SegmentAfter(done: nat): nat { LOAD_SEGMENT * (1 + done / SECTORS_PER_SEGMENT) % U16 }

  /** BX after `done` sectors. */
  function OffsetAfter(done: nat): nat { done % SECTORS_PER_SEGMENT * SECTOR }

  lemma PointerAtStart()
    ensures SegmentAfter(0) == LOAD_SEGMENT && OffsetAfter(0) == 0
  {
  }

  lemma AddressAfter(done: nat)
    requires done < 1920
    ensures Linear(SegmentAfter(done), OffsetAfter(done)) == LOAD_ADDRESS + done * SECTOR
  {
  }

  lemma DivStep(done: nat, count: nat)
    requires 0 < count && done % SECTORS_PER_SEGMENT + count <= SECTORS_PER_SEGMENT
    ensures var full := done % SECTORS_PER_SEGMENT + count == SECTORS_PER_SEGMENT;
            && (done + count) / SECTORS_PER_SEGMENT == done / SECTORS_PER_SEGMENT + (if full then 1 else 0)
            && (done + count) % SECTORS_PER_SEGMENT == if full then 0 else done % SECTORS_PER_SEGMENT + count
  {
  }

  lemma PointerStep(done: nat, count: nat)
    requires 0 < count && OffsetAfter(done) + count * SECTOR <= U16
    ensures var full := OffsetAfter(done) + count * SECTOR == U16;
            && SegmentAfter(done + count) == (if full then (SegmentAfter(done) + 0x1000) % U16 else SegmentAfter(done))
            && OffsetAfter(done + count) == if full then 0 else OffsetAfter(done) + count * SECTOR
  {
    DivStep(done, count);
    SegmentWrap(1 + done / SECTORS_PER_SEGMENT);
  }

  lemma SegmentWrap(q: nat)
    ensures LOAD_SEGMENT * (q + 1) % U16 == (LOAD_SEGMENT * q % U16 + 0x1000) % U16
  {
  }

  /** The pointer update after a batch: BX wraps exactly when the segment is full. */
  method AdvancePointer(es: nat, bx: nat, count: nat, ghost done: nat) returns (es': nat, bx': nat)
    requires es == SegmentAfter(done) && bx == OffsetAfter(done)
    requires 0 < count <= BATCH && bx + count * SECTOR <= U16
    ensures es' == SegmentAfter(done + count) && bx' == OffsetAfter(done + count)
  {
    PointerStep(done, count);
    assert count * SECTOR % U16 == count * SECTOR;
    var sum := bx + count * SECTOR % U16;
    es' := es;
    bx' := sum % U16;
    if sum >= U16 {
      es' := (es + 0x1000) % U16;
    }
  }

  /** The sectors that a list of requests transfers. */
  function SectorsOf(requests: seq<Request>): nat {
    if requests == [] then 0 else SectorsOf(requests[..|requests| - 1]) + requests[|requests| - 1].count
  }

  /**
    The requests are legal and tile the body: each starts at the sector, and at the
    address, where the ones before it ended.
   */
  ghost predicate Tiles(requests: seq<Request>, first: nat) {
    forall i :: 0 <= i < |requests| ==>
      var done := SectorsOf(requests[..i]);
      && Legal(requests[i]) && requests[i].lba == first + done
      && Linear(requests[i].segment, requests[i].offset) == LOAD_ADDRESS + done * SECTOR
  }

  /** With `rest` sectors to go the request takes them all, 18, or all that the segment holds. */
  predicate Largest(r: Request, rest: int) {
    r.count == rest || r.count == 18 || r.offset + (r.count + 1) * 512 > 0x1_0000
  }

  /** No request could have been longer. */
  ghost predicate Greedy(requests: seq<Request>, sectors: nat) {
    forall i :: 0 <= i < |requests| ==> Largest(requests[i], sectors - SectorsOf(requests[..i]))
  }

  lemma GreedyMore(requests: seq<Request>, r: Request, sectors: nat)
    requires Greedy(requests, sectors)
    requires Largest(r, sectors - SectorsOf(requests))
    ensures Greedy(requests + [r], sectors)
  {
    var longer := requests + [r];
    assert longer[..|requests|] == requests;
    forall i | 0 <= i < |requests|
      ensures longer[..i] == requests[..i]
    {
    }
  }

  lemma TilesMore(requests: seq<Request>, r: Request, first: nat)
    requires Tiles(requests, first) && Legal(r) && r.lba == first + SectorsOf(requests)
    requires Linear(r.segment, r.offset) == LOAD_ADDRESS + SectorsOf(requests) * SECTOR
    ensures Tiles(requests + [r], first) && SectorsOf(requests + [r]) == SectorsOf(requests) + r.count
  {
    var longer := requests + [r];
    assert longer[..|requests|] == requests;
    forall i | 0 <= i < |requests|
      ensures longer[..i] == requests[..i]
    {
    }
  }

  /**
    `read_kernel_robust`: every sector of the body lands at its place, nothing else
    in memory changes, and the requests made tile the body, none crossing a segment
    or exceeding a batch.
   */
  method ReadKernel(first: nat, sectors: nat, disk: Disk, mem: array<Byte>) returns (ghost requests: seq<Request>)
    requires mem.Length == MEGABYTE && LOAD_ADDRESS + sectors * SECTOR <= MEGABYTE && first + sectors < U32
    modifies mem
    ensures Placed(mem[..], disk, first, sectors)
    ensures forall x :: 0 <= x < MEGABYTE && !(LOAD_ADDRESS <= x < LOAD_ADDRESS + sectors * SECTOR) ==>
              mem[x] == old(mem[x])
    ensures Tiles(requests, first) && SectorsOf(requests) == sectors && Greedy(requests, sectors)
  {
    hide SegmentAfter, OffsetAfter, Linear, Placed, Tiles, SectorsOf, Greedy, Largest, Legal;
    PointerAtStart();
    NothingDone(mem[..], disk, first, sectors);
    requests := [];
    var es: nat, bx: nat, eax: nat, cx: nat := LOAD_SEGMENT, 0, first, sectors;
    ghost var done: nat := 0;
    while cx != 0
      invariant done + cx == sectors
      invariant es == SegmentAfter(done) && bx == OffsetAfter(done) && eax == first + done
      invariant Placed(mem[..], disk, first, done)
      invariant forall x :: 0 <= x < MEGABYTE && !(LOAD_ADDRESS <= x < LOAD_ADDRESS + done * SECTOR) ==>
                  mem[x] == old(mem[x])
      invariant Tiles(requests, first) && SectorsOf(requests) == done && Greedy(requests, sectors)
      decreases cx
    {
      var count;
      ghost var r;
      count, es, bx, r := ReadTurn(first, eax, cx, es, bx, disk, mem, done);
      TilesMore(requests, r, first);
      GreedyMore(requests, r, sectors);
      requests := requests + [r];
      eax := (eax + count) % U32;
      cx := cx - count;
      done := done + count;
    }
  }

  lemma NothingDone(mem: seq<Byte>, disk: Disk, first: nat, sectors: nat)
    requires |mem| == MEGABYTE
    ensures Placed(mem, disk, first, 0) && Tiles([], first) && SectorsOf([]) == 0 && Greedy([], sectors)
  {
  }

  /** One turn of the loop: the batch, and ES:BX moved past it. */
  method ReadTurn(first: nat, eax: nat, cx: nat, es: nat, bx: nat, disk: Disk, mem: array<Byte>, ghost done: nat)
      returns (count: nat, es': nat, bx': nat, ghost r: Request)
    requires mem.Length == MEGABYTE && 0 < cx && LOAD_ADDRESS + (done + cx) * SECTOR <= MEGABYTE
    requires es == SegmentAfter(done) && bx == OffsetAfter(done) && eax == first + done
    requires Placed(mem[..], disk, first, done)
    modifies mem
    ensures 0 < count <= cx && es' == SegmentAfter(done + count) && bx' == OffsetAfter(done + count)
    ensures r.count == count && r.lba == first + done && Linear(r.segment, r.offset) == LOAD_ADDRESS + done * SECTOR
    ensures Legal(r) && Largest(r, cx)
    ensures Placed(mem[..], disk, first, done + count)
    ensures forall x :: 0 <= x < MEGABYTE && !(LOAD_ADDRESS <= x < LOAD_ADDRESS + (done + count) * SECTOR) ==>
              mem[x] == old(mem[x])
  {
    hide SegmentAfter, OffsetAfter, Linear, Placed, Largest;
    AddressAfter(done);
    count, r := ReadBatch(first, eax, cx, es, bx, disk, mem, done);
    es', bx' := AdvancePointer(es, bx, count, done);
  }

  /** One turn of the loop, up to the pointer update. */
  method ReadBatch(first: nat, eax: nat, cx: nat, es: nat, bx: nat, disk: Disk, mem: array<Byte>, ghost done: nat)
      returns (count: nat, ghost r: Request)
    requires mem.Length == MEGABYTE && 0 < cx && LOAD_ADDRESS + (done + cx) * SECTOR <= MEGABYTE
    requires es == SegmentAfter(done) && bx == OffsetAfter(done) && eax == first + done
    requires Placed(mem[..], disk, first, done)
    modifies mem
    ensures 0 < count <= cx && r == Request(eax, count, es, bx) && Legal(r)
    ensures Largest(r, cx)
    ensures Placed(mem[..], disk, first, done + count)
    ensures forall x :: 0 <= x < MEGABYTE && !(LOAD_ADDRESS <= x < LOAD_ADDRESS + (done + count) * SECTOR) ==>
              mem[x] == old(mem[x])
  {
    count := BatchSize(cx, bx);
    var request := Request(eax, count, es, bx);
    r := request;
    AddressAfter(done);
    ghost var before := mem[..];
    Transfer(request, disk, mem);
    MorePlaced(before, mem[..], disk, first, done, count);
  }

  lemma MorePlaced(before: seq<Byte>, after: seq<Byte>, disk: Disk, first: nat, done: nat, count: nat)
    requires Placed(before, disk, first, done) && |after| == MEGABYTE
    requires LOAD_ADDRESS + (done + count) * SECTOR <= MEGABYTE
    requires forall x :: 0 <= x < MEGABYTE ==>
               after[x] == var base := LOAD_ADDRESS + done * SECTOR;
                 if base <= x < base + count * SECTOR
                 then disk(first + done + (x - base) / SECTOR)[(x - base) % SECTOR]
                 else before[x]
    ensures Placed(after, disk, first, done + count)
  {
  }

  // ----- checksum -------------------------------------------------------------------

  /** The sum of the first `n` bytes, as the build script adds them up. */
  function SumBytes(s: seq<Byte>, n: nat): nat
    requires n <= |s|
  {
    if n == 0 then 0 else SumBytes(s, n - 1) + s[n - 1]
  }

  /** The sum is additive and each byte counts with its value. */
  lemma {:induction false} SumAdds(s: seq<Byte>, t: seq<Byte>, n: nat)
    requires n <= |t|
    ensures SumBytes(s + t, |s| + n) == SumBytes(s, |s|) + SumBytes(t, n)
    ensures n > 0 ==> SumBytes(t, n) == SumBytes(t, n - 1) + t[n - 1]
    ensures SumBytes(t, 0) == 0
  {
    if n > 0 {
      SumAdds(s, t, n - 1);
    } else {
      SameSum(s + t, s, |s|);
    }
  }

  /** An image with one byte changed has another checksum. */
  lemma ChecksumDetects(image: seq<Byte>, k: nat, b: Byte)
    requires k < |image| && b != image[k]
    ensures SumBytes(image[k := b], |image|) % U32 != SumBytes(image, |image|) % U32
  {
    ChangedSum(image, k, b, |image|);
    var d: int := b as int - image[k] as int;
    SumShift(SumBytes(image, |image|), d);
  }

  lemma {:induction false} ChangedSum(s: seq<Byte>, k: nat, b: Byte, n: nat)
    requires k < |s| && n <= |s|
    ensures (SumBytes(s[k := b], n) as int) == SumBytes(s, n) + if k < n then b as int - s[k] as int else 0
  {
    if n > 0 {
      ChangedSum(s, k, b, n - 1);
    }
  }

  lemma SumShift(n: nat, d: int)
    requires d != 0 && -256 < d < 256 && n + d >= 0
    ensures (n + d) % U32 != n % U32
  {
  }

  /** ES:DI after `n` bytes. */
  function ByteSegment(n: nat): nat { LOAD_SEGMENT * (1 + n / U16) % U16 }

  lemma ByteAddress(n: nat)
    requires n < MEGABYTE - LOAD_ADDRESS
    ensures Linear(ByteSegment(n), n % U16) == LOAD_ADDRESS + n
  {
  }

  lemma ByteStep(n: nat)
    ensures (n + 1) % U16 == (n % U16 + 1) % U16
    ensures ByteSegment(n + 1) == if (n + 1) % U16 == 0 then (ByteSegment(n) + 0x1000) % U16 else ByteSegment(n)
  {
    SegmentWrap(1 + n / U16);
    if (n + 1) % U16 == 0 {
      assert (n + 1) / U16 == n / U16 + 1;
    } else {
      assert (n + 1) / U16 == n / U16;
    }
  }

  /** `kernel_checksum_sum32`: the sum of the loaded kernel bytes modulo 2^32. */
  method Checksum(size: nat, mem: array<Byte>) returns (eax: nat)
    requires mem.Length == MEGABYTE && LOAD_ADDRESS + size <= MEGABYTE
    ensures eax == SumBytes(mem[LOAD_ADDRESS..], size) % U32
  {
    eax := 0;
    var edx: nat := size;
    var es: nat, di: nat := LOAD_SEGMENT, 0;
    ghost var body := mem[LOAD_ADDRESS..];
    ghost var n: nat := 0;
    while edx != 0
      invariant n + edx == size
      invariant es == ByteSegment(n) && di == n % U16
      invariant eax == SumBytes(body, n) % U32
      decreases edx
    {
      ByteAddress(n);
      ByteStep(n);
      var ecx := mem[Linear(es, di)];
      assert ecx == body[n];
      eax := (eax + ecx) % U32;
      di := (di + 1) % U16;
      if di == 0 {
        es := (es + 0x1000) % U16;
      }
      edx := edx - 1;
      n := n + 1;
    }
  }

  /** The disk holds the kernel image from sector `first` on, padded to whole sectors. */
  ghost predicate Holds(disk: Disk, first: nat, image: seq<Byte>) {
    forall x :: 0 <= x < |image| ==> disk(first + x / SECTOR)[x % SECTOR] == image[x]
  }

  lemma {:induction false} SameSum(s: seq<Byte>, t: seq<Byte>, n: nat)
    requires n <= |s| && n <= |t| && (forall k :: 0 <= k < n ==> s[k] == t[k])
    ensures SumBytes(s, n) == SumBytes(t, n)
  {
    if n > 0 {
      SameSum(s, t, n - 1);
    }
  }

  /**
    Loading and checking together: for every kernel that ends below 1 MiB the bytes at
    0x10000 are the image, and the loader's checksum is the one the build computed.
   */
  method LoadAndCheck(first: nat, image: seq<Byte>, disk: Disk, mem: array<Byte>) returns (checksum: nat)
    requires mem.Length == MEGABYTE && LOAD_ADDRESS + |image| <= MEGABYTE
    requires Holds(disk, first, image) && first + |image| < U32
    modifies mem
    ensures mem[0x1_0000..0x1_0000 + |image|] == image
    ensures checksum == SumBytes(image, |image|) % U32
  {
    var kernelSectors := (|image| + 511) / SECTOR % U16;
    ghost var requests := ReadKernel(first, kernelSectors, disk, mem);
    ghost var loaded := mem[..];
    forall x | 0 <= x < |image|
      ensures loaded[LOAD_ADDRESS + x] == image[x]
    {
      assert loaded[LOAD_ADDRESS + x] == disk(first + x / SECTOR)[x % SECTOR];
    }
    assert mem[LOAD_ADDRESS..LOAD_ADDRESS + |image|] == image;
    checksum := Checksum(|image|, mem);
    SameSum(mem[LOAD_ADDRESS..], image, |image|);
  }
}
