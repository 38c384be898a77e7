/** The partition table byte by byte: what a disk laid out by a partitioning tool registers as. */
module MbrLayout {
  import opened Machine
  import opened Blocks
  import M = Mbr
  import H = Heap

  /** A table entry as a tool writes it. */
  datatype Part = Part(kind: nat, start: nat, count: nat)

  /** The four little-endian bytes of a number. */
  predicate BytesAt(s: Sector, at: nat, n: nat)
    requires at + 4 <= 512
  {
    && s[at] == n % 256 && s[at + 1] == n / 256 % 256
    && s[at + 2] == n / 65536 % 256 && s[at + 3] == n / 16777216 % 256
  }

  /** Entry `i` of a table: 16 bytes from byte 446 + 16 i on. */
  predicate EntryAt(s: Sector, i: nat, p: Part)
    requires i < 4
  {
    && p.kind < 256 && p.start < 0x1_0000_0000 && p.count < 0x1_0000_0000
    && s[446 + 16 * i + 4] == p.kind
    && BytesAt(s, 446 + 16 * i + 8, p.start)
    && BytesAt(s, 446 + 16 * i + 12, p.count)
  }

  /** Four entries and the signature. */
  predicate LaidOut(s: Sector, parts: seq<Part>) {
    && |parts| == 4 && (forall i :: 0 <= i < 4 ==> EntryAt(s, i, parts[i]))
    && s[510] == 0x55 && s[511] == 0xAA
  }

  /** A partition of the disk: sectors [start, start + count). */
  function DeviceOf(disk: Device, name: string, i: nat, p: Part): Device
    requires i < 4
  {
    Device(name + "p" + ["1234"[i]], disk.sectorSize, Window(disk, p.start, p.count))
  }

  /** The partitions of the entries that are neither empty nor extended, in order. */
  function Devices(disk: Device, name: string, parts: seq<Part>, n: nat): seq<Device>
    requires n <= |parts| && n <= 4
  {
    if n == 0 then []
    else
      var p := parts[n - 1];
      Devices(disk, name, parts, n - 1) +
      if p.kind !in {0, 5, 15} && p.count != 0 && |name| <= 29 then [DeviceOf(disk, name, n - 1, p)] else []
  }

  lemma FieldIs(s: Sector, at: nat, n: nat)
    requires at + 4 <= 512 && BytesAt(s, at, n) && n < 0x1_0000_0000
    ensures U32At(s, at) == n
  {
    LittleEndianRoundTrip(s, at, n);
  }

  /** The code's reading of an entry is what was laid out. */
  lemma EntryIs(s: Sector, disk: Device, name: string, i: nat, p: Part)
    requires i < 4 && EntryAt(s, i, p)
    ensures M.PartType(s, i) == p.kind && M.LbaStart(s, i) == p.start && M.LbaCount(s, i) == p.count
    ensures M.Wanted(s, i) <==> p.kind !in {0, 5, 15} && p.count != 0
    ensures M.PartitionOf(s, disk, name, i) == DeviceOf(disk, name, i, p)
  {
    FieldIs(s, 446 + 16 * i + 8, p.start);
    FieldIs(s, 446 + 16 * i + 12, p.count);
    DigitIs(i);
  }

  lemma DigitIs(i: nat)
    requires i < 4
    ensures M.Digit(i + 1) == "1234"[i]
  {
    assert "0123456789"[1..5] == "1234";
  }

  lemma {:induction false} ExpectedIs(s: Sector, disk: Device, name: string, parts: seq<Part>, n: nat)
    requires LaidOut(s, parts) && n <= 4
    ensures M.Expected(s, disk, name, n) == Devices(disk, name, parts, n)
  {
    if n > 0 {
      ExpectedIs(s, disk, name, parts, n - 1);
      EntryIs(s, disk, name, n - 1, parts[n - 1]);
    }
  }

  /** Sector `l` of a partition is the disk's sector `start + l`; from `count` on there is none. */
  lemma SectorIs(disk: Device, name: string, i: nat, p: Part, l: nat, io: Io)
    requires i < 4 && p.count != 0 && l < 0x1_0000_0000
    ensures Read(DeviceOf(disk, name, i, p), l, io) ==
            if l < p.count && p.start + l < 0x1_0000_0000 then Read(disk, p.start + l, io) else None
  {
  }

  /**
    `mbr_scan_and_register` on any four entries laid out at their bytes: exactly the
    partitions of the entries that are neither empty nor extended are registered, in order,
    each the sectors [start, start + count) of the disk; out of space, the first of them.
   */
  method ScanLaidOut(disk: Device, diskName: Option<string>, io: Io, registry: Registry, heap: H.KernelHeap,
                     ghost parts: seq<Part>)
      returns (rc: M.Rc, ghost added: seq<Device>)
    requires registry.Valid() && heap.Ready() && disk.sectorSize == 512
    requires Read(disk, 0, io).Some? && LaidOut(Read(disk, 0, io).value, parts)
    modifies registry, heap
    ensures registry.Valid() && heap.Ready()
    ensures var name := if diskName.Some? then diskName.value else disk.name;
            && (rc == M.InvalidParam <==> name == "")
            && (name != "" ==> rc == M.Ok || rc == M.NoSpace)
            && registry.devices == old(registry.devices) + added
            && (name == "" ==> added == [])
            && added <= Devices(disk, name, parts, 4)
            && (rc == M.Ok ==> added == Devices(disk, name, parts, 4))
    ensures forall i, l: nat :: 0 <= i < 4 && parts[i].count != 0 && l < 0x1_0000_0000 ==>
              Read(DeviceOf(disk, M.DiskName(disk, diskName), i, parts[i]), l, io) ==
              if l < parts[i].count && parts[i].start + l < 0x1_0000_0000 then Read(disk, parts[i].start + l, io)
              else None
  {
    ghost var name, s := M.DiskName(disk, diskName), Read(disk, 0, io).value;
    ExpectedIs(s, disk, name, parts, 4);
    hide LaidOut, M.StopsAt, M.Expected;
    ghost var stop, grants;
    rc, stop, added, grants := M.ScanAndRegister(disk, diskName, io, registry, heap);
    forall i, l: nat | 0 <= i < 4 && parts[i].count != 0 && l < 0x1_0000_0000
      ensures Read(DeviceOf(disk, name, i, parts[i]), l, io) ==
              if l < parts[i].count && parts[i].start + l < 0x1_0000_0000 then Read(disk, parts[i].start + l, io)
              else None
    {
      SectorIs(disk, name, i, parts[i], l, io);
    }
  }
}
