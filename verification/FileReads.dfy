/** Sequences of reads on one descriptor, as Vfs.FileSystem.ReadFile performs them. */
module FileReads {
  import opened Machine
  import opened Blocks
  import opened Files
  import opened Vfs
  import Mounts

  /** What the devices really hold; no write path exists, so it never changes. */
  type Content = (Device, nat) -> Sector

  /** A device may fail, but what it delivers is what it holds. */
  ghost predicate Truthful(io: Io, content: Content) {
    forall dev, lba :: Read(dev, lba, io).Some? ==> Read(dev, lba, io).value == content(dev, lba)
  }

  /** One successful read: the size asked for, the device answers, the bytes returned. */
  datatype Step = Step(size: nat, io: Io, data: seq<Byte>)

  /** `views` are the states of the descriptor around the successful reads `steps`. */
  ghost predicate Reads(views: seq<View>, steps: seq<Step>, content: Content) {
    && |views| == |steps| + 1
    && (forall i :: 0 <= i < |steps| ==> Truthful(steps[i].io, content))
    && (forall i :: 0 <= i < |steps| ==> Sound(views[i], views[i + 1], steps[i]))
  }

  ghost predicate Sound(v: View, v': View, s: Step) {
    ReadOk(v, v', s.size, s.io, s.data)
  }

  function Asked(steps: seq<Step>): nat {
    if steps == [] then 0 else steps[0].size + Asked(steps[1..])
  }

  function Received(steps: seq<Step>): seq<Byte> {
    if steps == [] then [] else steps[0].data + Received(steps[1..])
  }

  lemma Tail(views: seq<View>, steps: seq<Step>, content: Content)
    requires Reads(views, steps, content) && steps != []
    ensures Reads(views[1..], steps[1..], content)
    ensures Sound(views[0], views[1], steps[0]) && Truthful(steps[0].io, content)
  {
  }

  // ----- PyFS -------------------------------------------------------------------------

  /** The cache of a PyFS descriptor is still to be filled, or holds the superblock. */
  ghost predicate TrueCache(v: View, content: Content) {
    v.Opened? && v.ops.PyOps? && v.dev.Some? && v.pos <= SECTOR &&
    (v.cached.None? || v.cached.value == content(v.dev.value, 0))
  }

  lemma SliceThenSlice(s: Sector, pos: nat, m: nat, n: nat)
    requires pos <= SECTOR
    ensures |SectorSlice(s, pos, m)| <= SECTOR - pos
    ensures SectorSlice(s, pos, m) + SectorSlice(s, pos + |SectorSlice(s, pos, m)|, n) == SectorSlice(s, pos, m + n)
  {
  }

  /** Successful reads of a PyFS file add up to one read, cut off at the end of the sector. */
  lemma {:induction false} PyReadsConcatenate(views: seq<View>, steps: seq<Step>, content: Content)
    requires Reads(views, steps, content) && TrueCache(views[0], content)
    ensures Received(steps) == SectorSlice(content(views[0].dev.value, 0), views[0].pos, Asked(steps))
    decreases |steps|
  {
    var s := content(views[0].dev.value, 0);
    if steps == [] {
      assert SectorSlice(s, views[0].pos, 0) == [];
    } else {
      Tail(views, steps, content);
      assert steps[0].data == SectorSlice(s, views[0].pos, steps[0].size);
      SliceThenSlice(s, views[0].pos, steps[0].size, Asked(steps[1..]));
      assert views[1].pos == views[0].pos + |steps[0].data|;
      PyReadsConcatenate(views[1..], steps[1..], content);
    }
  }

  /**
    The first read of a descriptor that gets past the allocation of its cache: by the
    contract of ReadFile it succeeds, or it fails with Io and leaves `junk` in the cache.
   */
  ghost predicate FirstRead(v: View, w: View, size: nat, io: Io, data: seq<Byte>, junk: Sector) {
    ReadOk(v, w, size, io, data) || ReadFailed(v, w, Mounts.Rc.Io, io, junk)
  }

  /**
    Whatever the first read of `size` bytes leaves in the cache, every run of
    successful reads after it delivers the superblock from its position on.
   */
  ghost predicate LaterReadsRight(v: View, size: nat, io: Io, content: Content)
    requires v.Opened? && v.dev.Some?
  {
    forall w: View, data: seq<Byte>, junk: Sector, views: seq<View>, steps: seq<Step> ::
      FirstRead(v, w, size, io, data, junk) && Reads(views, steps, content) && views[0] == w ==>
        w.Opened? && Received(steps) == SectorSlice(content(v.dev.value, 0), w.pos, Asked(steps))
  }

  /** A first fill whose device read succeeds leaves the superblock. */
  lemma GoodFirstRead(v: View, w: View, size: nat, io: Io, data: seq<Byte>, junk: Sector, content: Content)
    requires NeedsCache(v) && v.dev.Some? && v.pos < SECTOR && Truthful(io, content)
    requires Read(v.dev.value, 0, io).Some? && FirstRead(v, w, size, io, data, junk)
    ensures TrueCache(w, content) && w.dev == v.dev
  {
    assert |data| <= SECTOR - v.pos;
  }

  /** Leftover bytes that differ from the superblock at the position. */
  function Spoiled(s: Sector, pos: nat): Sector
    requires pos < SECTOR
  {
    s[pos := if s[pos] == 0 then 1 else 0]
  }

  /** One later read of one byte returns a leftover byte. */
  lemma BadLaterRead(v: View, size: nat, io: Io, content: Content)
    requires NeedsCache(v) && v.dev.Some? && v.pos < SECTOR && Truthful(io, content)
    requires Read(v.dev.value, 0, io).None?
    ensures !LaterReadsRight(v, size, io, content)
  {
    var s := content(v.dev.value, 0);
    var junk := Spoiled(s, v.pos);
    var w := v.(cached := Some(junk));
    var step := Step(1, io, [junk[v.pos]]);
    assert FirstRead(v, w, size, io, [], junk);
    assert SectorSlice(junk, v.pos, 1) == step.data;
    assert Reads([w, w.(pos := v.pos + 1)], [step], content);
    assert Asked([step]) == 1 + Asked([]) == 1;
    assert Received([step]) == step.data + Received([]) == step.data;
    assert SectorSlice(s, v.pos, 1)[0] == s[v.pos];
  }

  /**
    A device failure during the first read leaves a cache that later reads trust: from
    any position inside the sector, the reads after it are right for all leftover bytes
    if and only if the device read of the fill succeeded.
   */
  lemma FailedFillPoisonsIff(v: View, size: nat, io: Io, content: Content)
    requires NeedsCache(v) && v.dev.Some? && v.pos < SECTOR && Truthful(io, content)
    ensures LaterReadsRight(v, size, io, content) <==> Read(v.dev.value, 0, io).Some?
  {
    if Read(v.dev.value, 0, io).None? {
      BadLaterRead(v, size, io, content);
    } else {
      forall w: View, data: seq<Byte>, junk: Sector, views: seq<View>, steps: seq<Step> |
        FirstRead(v, w, size, io, data, junk) && Reads(views, steps, content) && views[0] == w
        ensures w.Opened? && Received(steps) == SectorSlice(content(v.dev.value, 0), w.pos, Asked(steps))
      {
        GoodFirstRead(v, w, size, io, data, junk, content);
        PyReadsConcatenate(views, steps, content);
      }
    }
  }

  /** Drives that answer nothing. */
  function Silent(id: nat, lba: nat): Option<Sector> { None }

  /** A failing input: the first read meets a silent drive, the second returns four leftover zeros as the magic. */
  lemma FailedFillExample(io: Io, dev: Device, superblock: Sector)
    requires dev == Device("disk0p1", SECTOR, Drive(0)) && superblock[..4] == [0x50, 0x59, 0x46, 0x53]
    requires io(0, 0) == Some(superblock)
    ensures var v := Opened(PyOps, 0, Some(dev), None);
            var w := v.(cached := Some(MarkedSector(0)));
            && ReadFailed(v, w, Mounts.Rc.Io, Silent, MarkedSector(0))
            && Sound(w, w.(pos := 4), Step(4, io, [0, 0, 0, 0]))
            && SectorSlice(superblock, 0, 4) == [0x50, 0x59, 0x46, 0x53]
  {
    assert SectorSlice(MarkedSector(0), 0, 4) == [0, 0, 0, 0];
  }

  // ----- DevFS ------------------------------------------------------------------------

  /** Byte `x` of a device taken as one stream of sectors. */
  function ByteAt(content: Content, dev: Device, x: nat): Byte {
    content(dev, x / SECTOR)[x % SECTOR]
  }

  /** `data` is the device's stream from `pos` on. */
  ghost predicate StreamIs(data: seq<Byte>, content: Content, dev: Device, pos: nat) {
    forall k :: 0 <= k < |data| ==> data[k] == ByteAt(content, dev, pos + k)
  }

  lemma StreamJoin(a: seq<Byte>, b: seq<Byte>, content: Content, dev: Device, pos: nat)
    requires StreamIs(a, content, dev, pos) && StreamIs(b, content, dev, pos + |a|)
    ensures StreamIs(a + b, content, dev, pos)
  {
  }

  /** Every read starts below 4 GiB, where the 32-bit position has not wrapped. */
  ghost predicate StartsBelow4G(pos: nat, steps: seq<Step>)
    decreases |steps|
  {
    steps == [] || (pos < U32 && StartsBelow4G(pos + steps[0].size, steps[1..]))
  }

  ghost predicate OnDevice(v: View, dev: Device) {
    v.Opened? && v.ops.BlockOps? && v.dev == Some(dev)
  }

  lemma BlockStep(v: View, v': View, s: Step, dev: Device, content: Content)
    requires OnDevice(v, dev) && Sound(v, v', s) && Truthful(s.io, content)
    ensures |s.data| == s.size && OnDevice(v', dev) && v'.pos == (v.pos + s.size) % U32
    ensures StreamIs(s.data, content, dev, v.pos)
  {
  }

  /** Successful reads of a device node return contiguous bytes of the device. */
  lemma {:induction false} DeviceReadsConcatenate(views: seq<View>, steps: seq<Step>, content: Content, dev: Device)
    requires Reads(views, steps, content) && OnDevice(views[0], dev) && StartsBelow4G(views[0].pos, steps)
    ensures |Received(steps)| == Asked(steps)
    ensures StreamIs(Received(steps), content, dev, views[0].pos)
    decreases |steps|
  {
    if steps != [] {
      Tail(views, steps, content);
      BlockStep(views[0], views[1], steps[0], dev, content);
      if steps[1..] != [] {
        assert views[1].pos == views[0].pos + steps[0].size;
        DeviceReadsConcatenate(views[1..], steps[1..], content, dev);
      }
      StreamJoin(steps[0].data, Received(steps[1..]), content, dev, views[0].pos);
    }
  }

  /** The sizes a caller asks for, one read after the other. */
  ghost predicate Requests(steps: seq<Step>, sizes: seq<nat>) {
    |steps| == |sizes| && (forall i :: 0 <= i < |sizes| ==> steps[i].size == sizes[i])
  }

  function Total(sizes: seq<nat>): nat {
    if sizes == [] then 0 else sizes[0] + Total(sizes[1..])
  }

  /** Requests that `devfs_read_block` supports: 32-bit sizes, whole sectors. */
  predicate WholeSectors(sizes: seq<nat>) {
    forall i :: 0 <= i < |sizes| ==> sizes[i] < U32 && sizes[i] % SECTOR == 0
  }

  lemma WrapStep(pos: nat, size: nat, rest: nat)
    ensures ((pos + size) % U32 + rest) % U32 == (pos + (size + rest)) % U32
  {
  }

  /** After a run of successful block reads the position is the sum of the sizes modulo 4 GiB. */
  lemma {:induction false} PositionAfter(views: seq<View>, steps: seq<Step>, sizes: seq<nat>, content: Content,
                                         dev: Device)
    requires Reads(views, steps, content) && Requests(steps, sizes) && OnDevice(views[0], dev) && views[0].pos < U32
    ensures OnDevice(views[|steps|], dev)
    ensures views[|steps|].pos == (views[0].pos + Total(sizes)) % U32
    decreases |steps|
  {
    if steps != [] {
      Tail(views, steps, content);
      BlockStep(views[0], views[1], steps[0], dev, content);
      PositionAfter(views[1..], steps[1..], sizes[1..], content, dev);
      assert views[1..][|steps[1..]|] == views[|steps|];
      WrapStep(views[0].pos, sizes[0], Total(sizes[1..]));
    }
  }

  /** Successful reads of `sizes` from position 0, then one more, `s`. */
  ghost predicate ReadsThen(sizes: seq<nat>, views: seq<View>, steps: seq<Step>, v: View, s: Step,
                            content: Content, dev: Device)
  {
    && Reads(views, steps, content) && Requests(steps, sizes)
    && OnDevice(views[0], dev) && views[0].pos == 0
    && Truthful(s.io, content) && Sound(views[|steps|], v, s)
  }

  lemma NextRead(sizes: seq<nat>, views: seq<View>, steps: seq<Step>, v: View, s: Step, content: Content, dev: Device)
    requires ReadsThen(sizes, views, steps, v, s, content, dev)
    ensures StreamIs(s.data, content, dev, Total(sizes) % U32)
  {
    PositionAfter(views, steps, sizes, content, dev);
    BlockStep(views[|steps|], v, s, dev, content);
  }

  /**
    On every device, whatever it holds: after successful reads of `sizes` from position
    0, the next successful read returns the device's bytes from the sum of the sizes on.
   */
  ghost predicate NextReadRight(sizes: seq<nat>) {
    forall content: Content, dev: Device, views: seq<View>, steps: seq<Step>, v: View, s: Step ::
      ReadsThen(sizes, views, steps, v, s, content, dev) ==> StreamIs(s.data, content, dev, Total(sizes))
  }

  const DISK0 := Device("disk0", SECTOR, Drive(0))

  /** What every device holds when the drives answer `io`. */
  function HeldBy(io: Io): Content {
    (dev, lba) => if Read(dev, lba, io).Some? then Read(dev, lba, io).value else MarkedSector(0)
  }

  /** `disk0` open at a position. */
  function At(pos: nat): View { Opened(BlockOps, pos, Some(DISK0), None) }

  /** A successful block read of `disk0` at a position. */
  function GoodStep(pos: nat, size: nat, io: Io): Step {
    Step(size, io, seq<Byte>(size, k requires 0 <= k => ByteAt(HeldBy(io), DISK0, pos + k)))
  }

  lemma SectorOffset(pos: nat, k: nat)
    requires pos % SECTOR == 0
    ensures (pos + k) / SECTOR == pos / SECTOR + k / SECTOR && (pos + k) % SECTOR == k % SECTOR
  {
  }

  lemma DiskHolds(io: Io, x: nat)
    requires io(0, x / SECTOR).Some?
    ensures Read(DISK0, x / SECTOR, io) == io(0, x / SECTOR)
    ensures ByteAt(HeldBy(io), DISK0, x) == io(0, x / SECTOR).value[x % SECTOR]
  {
    var content := HeldBy(io);
    assert content(DISK0, x / SECTOR) == io(0, x / SECTOR).value;
    assert ByteAt(content, DISK0, x) == content(DISK0, x / SECTOR)[x % SECTOR];
  }

  lemma GoodStepSound(pos: nat, size: nat, io: Io)
    requires pos < U32 && pos % SECTOR == 0 && size % SECTOR == 0 && (forall id, lba :: io(id, lba).Some?)
    ensures Sound(At(pos), At((pos + size) % U32), GoodStep(pos, size, io))
  {
    var data, dev, lba := GoodStep(pos, size, io).data, DISK0, pos / SECTOR;
    forall k | 0 <= k < |data|
      ensures Read(dev, lba + k / SECTOR, io).Some?
      ensures data[k] == Read(dev, lba + k / SECTOR, io).value[k % SECTOR]
    {
      SectorOffset(pos, k);
      DiskHolds(io, pos + k);
      assert io(0, (pos + k) / SECTOR).Some? && data[k] == ByteAt(HeldBy(io), DISK0, pos + k);
    }
    assert FromSectors(data, dev, lba, io);
    assert Fetched(At(pos), At(pos), size, io, data);
  }

  /** On drives that always answer, every sequence of whole-sector requests has a successful run. */
  lemma {:induction false} RunExists(sizes: seq<nat>, pos: nat, io: Io) returns (views: seq<View>, steps: seq<Step>)
    requires WholeSectors(sizes) && pos < U32 && pos % SECTOR == 0 && (forall id, lba :: io(id, lba).Some?)
    ensures Reads(views, steps, HeldBy(io)) && Requests(steps, sizes) && views[0] == At(pos)
    decreases |sizes|
  {
    views, steps := [At(pos)], [];
    if sizes != [] {
      var next := (pos + sizes[0]) % U32;
      assert next % SECTOR == 0;
      var vs, ss := RunExists(sizes[1..], next, io);
      GoodStepSound(pos, sizes[0], io);
      views, steps := [At(pos)] + vs, [GoodStep(pos, sizes[0], io)] + ss;
      forall i | 0 <= i < |steps|
        ensures Sound(views[i], views[i + 1], steps[i])
        ensures Truthful(steps[i].io, HeldBy(io)) && steps[i].size == sizes[i]
      {
        if i > 0 {
          assert views[i] == vs[i - 1] && views[i + 1] == vs[i];
          assert steps[i] == ss[i - 1] && sizes[i] == sizes[1..][i - 1];
        }
      }
    }
  }

  /** A disk marked at the sector that the reads have reached, and a run on it that then reads another sector. */
  lemma WrappedRun(sizes: seq<nat>)
    requires WholeSectors(sizes) && Total(sizes) >= U32
    ensures !NextReadRight(sizes)
  {
    hide Reads, Requests, Sound, ReadOk, Total, WholeSectors;
    var total := Total(sizes);
    TotalWhole(sizes);
    var io := MarkedAt(total / SECTOR);
    var views, steps := RunExists(sizes, 0, io);
    PositionAfter(views, steps, sizes, HeldBy(io), DISK0);
    var pos := total % U32;
    RunViews(views, steps, HeldBy(io));
    assert views[|steps|] == At(pos);
    var s := GoodStep(pos, SECTOR, io);
    GoodStepSound(pos, SECTOR, io);
    assert pos / SECTOR < total / SECTOR;
    DiskHolds(io, pos);
    DiskHolds(io, total);
    assert io(0, pos / SECTOR) == Some(MarkedSector(0)) && io(0, total / SECTOR) == Some(MarkedSector(1));
    assert s.data[0] == ByteAt(HeldBy(io), DISK0, pos) == 0;
    assert ByteAt(HeldBy(io), DISK0, total) == 1;
    assert ReadsThen(sizes, views, steps, At((pos + SECTOR) % U32), s, HeldBy(io), DISK0);
    assert !StreamIs(s.data, HeldBy(io), DISK0, total);
  }

  lemma {:induction false} TotalWhole(sizes: seq<nat>)
    requires WholeSectors(sizes)
    ensures Total(sizes) % SECTOR == 0
  {
    if sizes != [] {
      TotalWhole(sizes[1..]);
    }
  }

  /** Block reads never touch anything of the descriptor but its position. */
  lemma {:induction false} RunViews(views: seq<View>, steps: seq<Step>, content: Content)
    requires Reads(views, steps, content) && OnDevice(views[0], DISK0) && views[0].cached.None?
    ensures views[|steps|].Opened? && views[|steps|] == At(views[|steps|].pos)
    decreases |steps|
  {
    if steps != [] {
      Tail(views, steps, content);
      RunViews(views[1..], steps[1..], content);
      assert views[1..][|steps[1..]|] == views[|steps|];
    }
  }

  /**
    The position is a 32-bit sum. For every sequence of whole-sector requests, the next
    read continues where they ended, on every device, if and only if they sum to less
    than 4 GiB.
   */
  lemma WrapBreaksIff(sizes: seq<nat>)
    requires WholeSectors(sizes)
    ensures NextReadRight(sizes) <==> Total(sizes) < U32
  {
    hide ReadsThen, StreamIs;
    if Total(sizes) >= U32 {
      WrappedRun(sizes);
    } else {
      forall content: Content, dev: Device, views: seq<View>, steps: seq<Step>, v: View, s: Step |
        ReadsThen(sizes, views, steps, v, s, content, dev)
        ensures StreamIs(s.data, content, dev, Total(sizes))
      {
        NextRead(sizes, views, steps, v, s, content, dev);
      }
    }
  }
}
