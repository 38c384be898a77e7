/** Block devices: the registry of kernel/drivers/block.c and partition reads of mbr.c. */
module Blocks {
  import opened Machine

  const MAX_DEVICES := 8
  const NAME_MAX := 32
  const SECTOR := 512

  type Byte = b: nat | b < 256
  type Sector = s: seq<Byte> | |s| == SECTOR witness seq(SECTOR, _ => 0)

  /** A little-endian 32-bit field of a sector. */
  function U32At(s: Sector, off: nat): (n: nat)
    requires off + 4 <= SECTOR
    ensures n < U32
  {
    var b0: nat, b1: nat, b2: nat, b3: nat := s[off], s[off + 1], s[off + 2], s[off + 3];
    b0 + 0x100 * b1 + 0x1_0000 * b2 + 0x100_0000 * b3
  }

  /** The field reads back exactly the number whose bytes are stored lowest first. */
  lemma LittleEndianRoundTrip(s: Sector, off: nat, n: nat)
    requires off + 4 <= SECTOR && n < U32
    requires s[off] == n % 0x100 && s[off + 1] == n / 0x100 % 0x100
    requires s[off + 2] == n / 0x1_0000 % 0x100 && s[off + 3] == n / 0x100_0000
    ensures U32At(s, off) == n
  {
    assert n == n / 0x100 * 0x100 + n % 0x100;
    assert n / 0x100 == n / 0x1_0000 * 0x100 + n / 0x100 % 0x100;
    assert n / 0x1_0000 == n / 0x100_0000 * 0x100 + n / 0x1_0000 % 0x100;
  }

  /** A drive behind a driver, or a window of another device. */
  datatype Device = Device(name: string, sectorSize: nat, backing: Backing)
  datatype Backing = Drive(id: nat) | Window(parent: Device, base: nat, count: nat)

  /** What each drive answers to a sector read at the moment of a call. */
  type Io = (nat, nat) -> Option<Sector>

  /** `dev->read(dev, lba, buffer)`; for a partition this is `mbr_partition_read`. */
  function Read(dev: Device, lba: nat, io: Io): Option<Sector>
    decreases dev
  {
    match dev.backing
    case Drive(id) => io(id, lba)
    case Window(parent, base, count) =>
      if count != 0 && lba >= count then None
      else if base > 0xFFFF_FFFF - lba then None
      else Read(parent, base + lba, io)
  }

  /** The drive at the bottom of a nest of windows. */
  function Root(dev: Device): nat
    decreases dev
  {
    match dev.backing
    case Drive(id) => id
    case Window(parent, _, _) => Root(parent)
  }

  /** The sum of the bases on the way down. */
  function BaseSum(dev: Device): nat
    decreases dev
  {
    match dev.backing
    case Drive(_) => 0
    case Window(parent, base, _) => base + BaseSum(parent)
  }

  /** The number of sectors left when every window of the nest has cut; a count of 0 cuts nothing. */
  function Extent(dev: Device): (n: nat)
    ensures n <= U32
    decreases dev
  {
    match dev.backing
    case Drive(_) => U32
    case Window(parent, base, count) =>
      var rest := if base < Extent(parent) then Extent(parent) - base else 0;
      if count != 0 && count < rest then count else rest
  }

  /**
    A nest of partitions, however deep, is one flat window of its drive: sector `lba`
    is the drive's sector at the sum of the bases plus `lba`, and every read from
    `Extent` on fails. The sum stays below 2^32.
   */
  lemma {:induction false} ReadFlattens(dev: Device, lba: nat, io: Io)
    requires lba < U32
    ensures Read(dev, lba, io) == if lba < Extent(dev) then io(Root(dev), BaseSum(dev) + lba) else None
    ensures lba < Extent(dev) ==> BaseSum(dev) + lba < U32
    decreases dev
  {
    match dev.backing {
      case Drive(_) =>
      case Window(parent, base, _) =>
        if base + lba < U32 {
          ReadFlattens(parent, base + lba, io);
          assert base + BaseSum(parent) + lba == BaseSum(parent) + (base + lba);
        }
    }
  }

  function MarkedSector(b: Byte): Sector { seq(SECTOR, _ => b) }

  /** Drives on which one sector is marked and every other is blank. */
  function MarkedAt(sector: nat): Io {
    (_, lba) => Some(MarkedSector(if lba == sector then 1 else 0))
  }

  /** Two sectors of a device agree on every drive content only if they are one sector or both cut off. */
  lemma SectorsIndependent(dev: Device, l: nat, m: nat)
    requires l < U32 && m < U32
    ensures (forall io: Io :: Read(dev, l, io) == Read(dev, m, io)) <==>
            l == m || (l >= Extent(dev) && m >= Extent(dev))
  {
    forall io: Io
      ensures l >= Extent(dev) ==> Read(dev, l, io).None?
      ensures m >= Extent(dev) ==> Read(dev, m, io).None?
    {
      ReadFlattens(dev, l, io);
      ReadFlattens(dev, m, io);
    }
    var io := MarkedAt(BaseSum(dev) + l);
    ReadFlattens(dev, l, io);
    ReadFlattens(dev, m, io);
    assert MarkedSector(1)[0] != MarkedSector(0)[0];
  }

  /** Sector `x` of the drive belongs to `dev`. */
  predicate Uses(dev: Device, x: nat) { BaseSum(dev) <= x < BaseSum(dev) + Extent(dev) }

  /**
    Two windows of one device share a sector of the drive exactly when what is left
    of both ranges overlaps; partitions with disjoint ranges never do.
   */
  lemma WindowsDisjoint(a: Device, b: Device)
    requires a.backing.Window? && b.backing.Window? && a.backing.parent == b.backing.parent
    requires a.backing.base <= b.backing.base
    ensures (exists x: nat :: Uses(a, x) && Uses(b, x)) <==>
            Extent(b) > 0 && b.backing.base < a.backing.base + Extent(a)
    ensures a.backing.count != 0 && a.backing.base + a.backing.count <= b.backing.base ==>
              !exists x: nat :: Uses(a, x) && Uses(b, x)
  {
    if Extent(b) > 0 && b.backing.base < a.backing.base + Extent(a) {
      assert Uses(a, BaseSum(b)) && Uses(b, BaseSum(b));
    }
  }

  ghost predicate UniqueNames(devices: seq<Device>) {
    forall i, j :: 0 <= i < j < |devices| ==> devices[i].name != devices[j].name
  }

  /** A device that `block_register` accepts beside `devices`. */
  predicate Acceptable(devices: seq<Device>, dev: Device) {
    && dev.name != "" && dev.sectorSize != 0
    && |devices| < MAX_DEVICES
    && (forall i :: 0 <= i < |devices| ==> devices[i].name != dev.name)
  }

  class Registry {
    var devices: seq<Device>

    ghost predicate Valid()
      reads this
    {
      && |devices| <= MAX_DEVICES && UniqueNames(devices)
      && (forall i :: 0 <= i < |devices| ==> devices[i].name != "" && devices[i].sectorSize != 0)
    }

    constructor ()
      ensures Valid() && devices == []
    {
      devices := [];
    }

    /** `block_register` */
    method Register(dev: Device) returns (ok: bool)
      requires Valid()
      modifies this
      ensures Valid()
      ensures ok <==> Acceptable(old(devices), dev)
      ensures ok <==> dev.name != "" && dev.sectorSize != 0 && |old(devices)| < 8 &&
                      (forall d :: d in old(devices) ==> d.name != dev.name)
      ensures devices == if ok then old(devices) + [dev] else old(devices)
    {
      if dev.name == "" {
        return false;
      }
      if dev.sectorSize == 0 {
        return false;
      }
      if |devices| >= MAX_DEVICES {
        return false;
      }
      for i := 0 to |devices|
        invariant forall j :: 0 <= j < i ==> devices[j].name != dev.name
        invariant devices == old(devices)
      {
        if devices[i].name == dev.name {
          return false;
        }
      }
      devices := devices + [dev];
      return true;
    }

    /** `block_get_by_name`: the only device of that name. */
    method GetByName(name: string) returns (dev: Option<Device>)
      requires Valid()
      ensures dev.Some? ==> dev.value in devices && dev.value.name == name
      ensures dev.None? <==> forall d :: d in devices ==> d.name != name
    {
      for i := 0 to |devices|
        invariant forall j :: 0 <= j < i ==> devices[j].name != name
      {
        if devices[i].name == name {
          return Some(devices[i]);
        }
      }
      return None;
    }
  }
}
