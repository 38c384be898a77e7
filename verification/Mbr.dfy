/** Partition discovery, kernel/drivers/mbr.c. */
module Mbr {
  import opened Machine
  import opened Blocks
  import opened HeapSpec
  import opened HeapRuns
  import opened HeapClient
  import H = Heap

  const TABLE_OFFSET := 446
  const ENTRY_SIZE := 16
  const PARTITIONS := 4
  const SIZEOF_DEVICE := 48
  const SIZEOF_CTX := 12

  datatype Rc = Ok | InvalidParam | IoError | BadSignature | NoSpace | NotSupported

  function EntryOffset(i: nat): nat { TABLE_OFFSET + i * ENTRY_SIZE }

  function PartType(s: Sector, i: nat): Byte
    requires i < PARTITIONS
  {
    s[EntryOffset(i) + 4]
  }

  function LbaStart(s: Sector, i: nat): nat
    requires i < PARTITIONS
  {
    U32At(s, EntryOffset(i) + 8)
  }

  function LbaCount(s: Sector, i: nat): nat
    requires i < PARTITIONS
  {
    U32At(s, EntryOffset(i) + 12)
  }

  predicate Signed(s: Sector) { s[510] == 0x55 && s[511] == 0xAA }

  /** Entries that are neither empty nor extended. */
  predicate Wanted(s: Sector, i: nat)
    requires i < PARTITIONS
  {
    PartType(s, i) != 0 && LbaCount(s, i) != 0 && PartType(s, i) != 0x05 && PartType(s, i) != 0x0F
  }

  function Digit(i: nat): char
    requires i < 10
  {
    "0123456789"[i]
  }

  predicate Nameable(name: string) { |name| + 3 <= NAME_MAX }

  /** The partition device of entry `i`. */
  function PartitionOf(s: Sector, disk: Device, name: string, i: nat): Device
    requires i < PARTITIONS
  {
    Device(name + "p" + [Digit(i + 1)], disk.sectorSize, Window(disk, LbaStart(s, i), LbaCount(s, i)))
  }

  /** The devices that the first `n` entries ask for, in order. */
  function Expected(s: Sector, disk: Device, name: string, n: nat): seq<Device>
    requires n <= PARTITIONS
  {
    if n == 0 then []
    else Expected(s, disk, name, n - 1) +
         if Wanted(s, n - 1) && Nameable(name) then [PartitionOf(s, disk, name, n - 1)] else []
  }

  lemma {:induction false} ExpectedPrefix(s: Sector, disk: Device, name: string, m: nat, n: nat)
    requires m <= n <= PARTITIONS
    ensures Expected(s, disk, name, m) <= Expected(s, disk, name, n)
  {
    if m < n {
      ExpectedPrefix(s, disk, name, m, n - 1);
    }
  }

  /** Everything the scan asks for is the partition of a wanted entry. */
  lemma {:induction false} ExpectedWanted(s: Sector, disk: Device, name: string, n: nat)
    requires n <= PARTITIONS
    ensures forall d :: d in Expected(s, disk, name, n) <==>
              exists i :: 0 <= i < n && Wanted(s, i) && Nameable(name) && d == PartitionOf(s, disk, name, i)
  {
    if n > 0 {
      ExpectedWanted(s, disk, name, n - 1);
    }
  }

  /**
    The device of a wanted entry is the window [start, start + count) of the disk: its
    sector `lba` is the disk's drive at the disk's own offset plus `start + lba`, as far
    as the disk reaches, and nothing at or past `count` can be read.
   */
  lemma PartitionReads(s: Sector, disk: Device, name: string, i: nat, lba: nat, io: Io)
    requires i < PARTITIONS && Wanted(s, i) && lba < U32
    ensures var start := LbaStart(s, i);
            Read(PartitionOf(s, disk, name, i), lba, io) ==
            if lba < LbaCount(s, i) && start + lba < Extent(disk) then io(Root(disk), BaseSum(disk) + (start + lba))
            else None
  {
    ReadFlattens(PartitionOf(s, disk, name, i), lba, io);
    assert BaseSum(disk) + (LbaStart(s, i) + lba) == LbaStart(s, i) + BaseSum(disk) + lba;
  }

  /** `mbr_build_partition_name` into a 32-byte buffer. */
  method BuildName(name: string, index: nat) returns (rc: Rc, out: array<char>)
    ensures out.Length == NAME_MAX && fresh(out)
    ensures rc == InvalidParam <==> index == 0 || index > 9
    ensures rc == NoSpace <==> 0 < index <= 9 && !Nameable(name)
    ensures rc == Ok || rc == InvalidParam || rc == NoSpace
    ensures rc == Ok ==>
              && out[..|name| + 2] == name + "p" + [Digit(index)]
              && out[|name|] == 'p' && out[|name| + 1] == '0' + index as char
              && (forall k :: |name| + 2 <= k < NAME_MAX ==> out[k] == '\0')
  {
    out := new char[NAME_MAX](_ => '\0');
    if index == 0 || index > 9 {
      return InvalidParam, out;
    }
    var baseLen := |name|;
    if baseLen + 3 > NAME_MAX {
      return NoSpace, out;
    }
    for i := 0 to baseLen
      invariant out[..i] == name[..i]
      invariant forall k :: i <= k < NAME_MAX ==> out[k] == '\0'
    {
      out[i] := name[i];
    }
    out[baseLen] := 'p';
    out[baseLen + 1] := Digit(index);
    out[baseLen + 2] := '\0';
    assert out[..baseLen + 2] == out[..baseLen] + ['p', Digit(index)];
    return Ok, out;
  }

  // ----- what the scan needs ----------------------------------------------------------

  /** Both blocks of a partition device can be had. */
  predicate RoomForPair(bs: seq<Block>) {
    Room(bs, SIZEOF_DEVICE) && Room(Malloc(bs, SIZEOF_DEVICE), SIZEOF_CTX)
  }

  /** The heap after the blocks of `n` partition devices. */
  function Pairs(bs: seq<Block>, n: nat): seq<Block> {
    if n == 0 then bs else Malloc(Malloc(Pairs(bs, n - 1), SIZEOF_DEVICE), SIZEOF_CTX)
  }

  /** Entry `i` wants a device that the heap or the registry cannot take. */
  predicate TurnFails(s: Sector, disk: Device, name: string, i: nat, devices: seq<Device>, bs: seq<Block>)
    requires i < PARTITIONS
  {
    && Wanted(s, i)
    && (!RoomForPair(bs) || (Nameable(name) && !Acceptable(devices, PartitionOf(s, disk, name, i))))
  }

  /** The same, once the entries before `i` have been registered. */
  predicate FailsAt(s: Sector, disk: Device, name: string, i: nat, devices: seq<Device>, bs: seq<Block>)
    requires i < PARTITIONS
  {
    var before := Expected(s, disk, name, i);
    TurnFails(s, disk, name, i, devices + before, Pairs(bs, |before|))
  }

  /** `stop` is the first entry that fails, or 4. */
  ghost predicate StopsAt(s: Sector, disk: Device, name: string, stop: nat, devices: seq<Device>, bs: seq<Block>) {
    && stop <= PARTITIONS
    && (forall i :: 0 <= i < stop ==> !FailsAt(s, disk, name, i, devices, bs))
    && (stop < PARTITIONS ==> FailsAt(s, disk, name, stop, devices, bs))
  }

  /** The two allocations of a partition: both succeed, or the block list is as before. */
  method TakePair(heap: H.KernelHeap) returns (got: bool, pdev: nat, ctx: nat, ghost x: Grant, ghost y: Grant)
    requires heap.Ready()
    modifies heap
    ensures heap.Ready() && (got <==> RoomForPair(old(heap.blocks)))
    ensures heap.blocks == Pairs(old(heap.blocks), if got then 1 else 0)
    ensures got ==>
              && pdev == x.0 + HEADER && ctx == y.0 + HEADER && x != y
              && x !in Live(old(heap.blocks)) && y !in Live(old(heap.blocks))
              && Live(heap.blocks) == Live(old(heap.blocks)) + {x} + {y}
  {
    assert WellFormed(heap.blocks);
    hide H.KernelHeap.Ready, Malloc, MallocIndex, WellFormed, Live;
    ghost var bs := heap.blocks;
    assert Pairs(bs, 1) == Malloc(Malloc(Pairs(bs, 0), SIZEOF_DEVICE), SIZEOF_CTX);
    ctx, y := NULL, (0, 0);
    pdev, x := Take(heap, SIZEOF_DEVICE);
    if pdev == NULL {
      return false, pdev, ctx, x, y;
    }
    ctx, y := Take(heap, SIZEOF_CTX);
    if ctx == NULL {
      Undo(heap, pdev, x, bs);
      return false, pdev, ctx, x, y;
    }
    return true, pdev, ctx, x, y;
  }

  /** Frees a partition's two blocks again: the block list is what it was before them. */
  method GiveBoth(heap: H.KernelHeap, pdev: nat, ctx: nat, ghost x: Grant, ghost y: Grant, ghost bs: seq<Block>)
    requires heap.Ready() && WellFormed(bs) && Live(heap.blocks) == Live(bs) + {x} + {y}
    requires x !in Live(bs) && y !in Live(bs) && x != y && pdev == x.0 + HEADER && ctx == y.0 + HEADER
    modifies heap
    ensures heap.Ready() && heap.blocks == bs
  {
    Give(heap, ctx, y);
    Undo(heap, pdev, x, bs);
  }

  /** The result of one turn of the scan loop. */
  datatype Turn = Registered | Skipped | Failed

  /** Names and registers the device of an entry; a name that does not fit skips it. */
  method RegisterEntry(s: Sector, disk: Device, name: string, i: nat, registry: Registry) returns (turn: Turn)
    requires i < PARTITIONS && registry.Valid()
    modifies registry
    ensures registry.Valid()
    ensures turn.Skipped? <==> !Nameable(name)
    ensures turn.Registered? <==> Nameable(name) && Acceptable(old(registry.devices), PartitionOf(s, disk, name, i))
    ensures registry.devices == old(registry.devices) +
                                if turn.Registered? then [PartitionOf(s, disk, name, i)] else []
  {
    hide Acceptable, UniqueNames, LbaStart, LbaCount;
    var rc, buffer := BuildName(name, i + 1);
    if rc != Ok {
      return Skipped;
    }
    var dev := Device(buffer[..|name| + 2], disk.sectorSize, Window(disk, LbaStart(s, i), LbaCount(s, i)));
    var ok := registry.Register(dev);
    return if ok then Registered else Failed;
  }

  /** One turn: it fails exactly when a block or a place is missing, and keeps two blocks exactly when it registers. */
  method ScanEntry(s: Sector, disk: Device, name: string, i: nat, registry: Registry, heap: H.KernelHeap)
      returns (turn: Turn, ghost grants: set<Grant>)
    requires i < PARTITIONS && registry.Valid() && heap.Ready()
    modifies registry, heap
    ensures registry.Valid() && heap.Ready()
    ensures turn.Failed? <==> TurnFails(s, disk, name, i, old(registry.devices), old(heap.blocks))
    ensures turn.Registered? <==> !turn.Failed? && Wanted(s, i) && Nameable(name)
    ensures heap.blocks == Pairs(old(heap.blocks), if turn.Registered? then 1 else 0)
    ensures Kept(old(registry.devices), registry.devices, Live(old(heap.blocks)), Live(heap.blocks),
                 if turn.Registered? then [PartitionOf(s, disk, name, i)] else [], grants)
  {
    assert WellFormed(heap.blocks) && Pairs(heap.blocks, 0) == heap.blocks;
    hide H.KernelHeap.Ready, Pairs, Malloc, RoomForPair, WellFormed, Live, PartType, LbaCount, UniqueNames, Acceptable,
      PartitionOf, Nameable;
    grants := {};
    ghost var bs := heap.blocks;
    if PartType(s, i) == 0 || LbaCount(s, i) == 0 {
      return Skipped, grants;
    }
    if PartType(s, i) == 0x05 || PartType(s, i) == 0x0F {
      return Skipped, grants;
    }
    var got, pdev, ctx;
    ghost var x: Grant, y: Grant;
    got, pdev, ctx, x, y := TakePair(heap);
    if !got {
      return Failed, grants;
    }
    turn := RegisterEntry(s, disk, name, i, registry);
    if !turn.Registered? {
      GiveBoth(heap, pdev, ctx, x, y, bs);
      return;
    }
    grants := {x, y};
  }

  /** The registry grew by `added`, the heap by two blocks for each of them. */
  ghost predicate Kept(devices0: seq<Device>, devices: seq<Device>, live0: set<Grant>, live: set<Grant>,
                       added: seq<Device>, grants: set<Grant>)
  {
    && devices == devices0 + added
    && live == live0 + grants && grants !! live0
    && |grants| == 2 * |added|
  }

  lemma KeptGrows(devices0: seq<Device>, devices: seq<Device>, devices': seq<Device>,
                  live0: set<Grant>, live: set<Grant>, live': set<Grant>,
                  added: seq<Device>, more: seq<Device>, grants: set<Grant>, kept: set<Grant>)
    requires Kept(devices0, devices, live0, live, added, grants)
    requires Kept(devices, devices', live, live', more, kept)
    ensures Kept(devices0, devices', live0, live', added + more, grants + kept)
  {
    assert (devices0 + added) + more == devices0 + (added + more);
    assert grants !! kept;
    assert |grants + kept| == |grants| + |kept|;
  }

  /** The scan loop: it stops at the first entry that fails. */
  method ScanTable(s: Sector, disk: Device, name: string, registry: Registry, heap: H.KernelHeap)
      returns (rc: Rc, ghost stop: nat, ghost grants: set<Grant>)
    requires registry.Valid() && heap.Ready()
    modifies registry, heap
    ensures registry.Valid() && heap.Ready()
    ensures StopsAt(s, disk, name, stop, old(registry.devices), old(heap.blocks))
    ensures rc == if stop == PARTITIONS then Ok else NoSpace
    ensures Kept(old(registry.devices), registry.devices, Live(old(heap.blocks)), Live(heap.blocks),
                 Expected(s, disk, name, stop), grants)
    ensures heap.blocks == Pairs(old(heap.blocks), |Expected(s, disk, name, stop)|)
  {
    hide H.KernelHeap.Ready, FailsAt, Malloc, MallocIndex, WellFormed, Live;
    grants := {};
    ghost var devices0, bs0 := registry.devices, heap.blocks;
    for i := 0 to PARTITIONS
      invariant registry.Valid() && heap.Ready()
      invariant forall k :: 0 <= k < i ==> !FailsAt(s, disk, name, k, devices0, bs0)
      invariant heap.blocks == Pairs(bs0, |Expected(s, disk, name, i)|)
      invariant Kept(devices0, registry.devices, Live(bs0), Live(heap.blocks), Expected(s, disk, name, i), grants)
    {
      var turn;
      turn, grants := ScanNext(s, disk, name, i, registry, heap, devices0, bs0, grants);
      if turn.Failed? {
        return NoSpace, i, grants;
      }
    }
    return Ok, PARTITIONS, grants;
  }

  method ScanNext(s: Sector, disk: Device, name: string, i: nat, registry: Registry, heap: H.KernelHeap,
                  ghost devices0: seq<Device>, ghost bs0: seq<Block>, ghost grants0: set<Grant>)
      returns (turn: Turn, ghost grants: set<Grant>)
    requires i < PARTITIONS && registry.Valid() && heap.Ready()
    requires heap.blocks == Pairs(bs0, |Expected(s, disk, name, i)|)
    requires Kept(devices0, registry.devices, Live(bs0), Live(heap.blocks), Expected(s, disk, name, i), grants0)
    modifies registry, heap
    ensures registry.Valid() && heap.Ready()
    ensures turn.Failed? <==> FailsAt(s, disk, name, i, devices0, bs0)
    ensures var n := if turn.Failed? then i else i + 1;
            && heap.blocks == Pairs(bs0, |Expected(s, disk, name, n)|)
            && Kept(devices0, registry.devices, Live(bs0), Live(heap.blocks), Expected(s, disk, name, n), grants)
  {
    hide Malloc, MallocIndex, WellFormed, Live, Acceptable, UniqueNames, RoomForPair, PartitionOf, Wanted;
    ghost var kept;
    ghost var before, bs, devices := Expected(s, disk, name, i), heap.blocks, registry.devices;
    turn, kept := ScanEntry(s, disk, name, i, registry, heap);
    ghost var next := if turn.Registered? then [PartitionOf(s, disk, name, i)] else [];
    KeptGrows(devices0, devices, registry.devices, Live(bs0), Live(bs), Live(heap.blocks), before, next, grants0, kept);
    PairsAdd(bs0, |before|, |next|);
    assert before + next == if turn.Failed? then before else Expected(s, disk, name, i + 1);
    grants := grants0 + kept;
  }

  lemma PairsAdd(bs: seq<Block>, m: nat, n: nat)
    requires n <= 1
    ensures Pairs(Pairs(bs, m), n) == Pairs(bs, m + n)
  {
    hide Malloc;
    assert Pairs(Pairs(bs, m), 0) == Pairs(bs, m);
  }

  /** What `mbr_scan_and_register` calls the disk. */
  function DiskName(disk: Device, diskName: Option<string>): string {
    if diskName.Some? then diskName.value else disk.name
  }

  /** The disk has a readable, signed partition table and a name. */
  predicate Scannable(disk: Device, name: string, io: Io) {
    name != "" && disk.sectorSize == SECTOR && Read(disk, 0, io).Some? && Signed(Read(disk, 0, io).value)
  }

  /**
    `mbr_scan_and_register`: registers the wanted entries in order up to the first that
    the heap or the registry cannot take, with an exact condition for every return
    code, and keeps exactly two heap blocks for each device it registered.
   */
  method ScanAndRegister(disk: Device, diskName: Option<string>, io: Io, registry: Registry, heap: H.KernelHeap)
      returns (rc: Rc, ghost stop: nat, ghost added: seq<Device>, ghost grants: set<Grant>)
    requires registry.Valid() && heap.Ready()
    modifies registry, heap
    ensures registry.Valid() && heap.Ready()
    ensures Kept(old(registry.devices), registry.devices, Live(old(heap.blocks)), Live(heap.blocks), added, grants)
    ensures heap.blocks == Pairs(old(heap.blocks), |added|)
    ensures var name := DiskName(disk, diskName);
            && (rc == InvalidParam <==> name == "")
            && (rc == NotSupported <==> name != "" && disk.sectorSize != SECTOR)
            && (rc == IoError <==> name != "" && disk.sectorSize == SECTOR && Read(disk, 0, io).None?)
            && (rc == BadSignature <==> name != "" && disk.sectorSize == SECTOR &&
                                        Read(disk, 0, io).Some? && !Signed(Read(disk, 0, io).value))
            && (!Scannable(disk, name, io) ==> added == [])
            && (Scannable(disk, name, io) ==>
                  var s := Read(disk, 0, io).value;
                  && StopsAt(s, disk, name, stop, old(registry.devices), old(heap.blocks))
                  && added == Expected(s, disk, name, stop)
                  && added <= Expected(s, disk, name, PARTITIONS)
                  && (rc == Ok <==> stop == PARTITIONS))
  {
    stop, added, grants := 0, [], {};
    var name := DiskName(disk, diskName);
    if name == "" {
      return InvalidParam, stop, added, grants;
    }
    if disk.sectorSize != SECTOR {
      return NotSupported, stop, added, grants;
    }
    var mbr := Read(disk, 0, io);
    if mbr.None? {
      return IoError, stop, added, grants;
    }
    var s := mbr.value;
    if s[510] != 0x55 || s[511] != 0xAA {
      return BadSignature, stop, added, grants;
    }
    rc, stop, grants := ScanTable(s, disk, name, registry, heap);
    added := Expected(s, disk, name, stop);
    ExpectedPrefix(s, disk, name, stop, PARTITIONS);
  }
}
