/** `vfs_open`, `vfs_read` and `vfs_close` (kernel/fs/vfs.c) with their filesystems. */
module Vfs {
  import opened Machine
  import opened HeapSpec
  import opened HeapRuns
  import opened HeapClient
  import opened Blocks
  import opened Mounts
  import opened Files
  import H = Heap

  /** What a path inside a mount names, if anything. */
  datatype Target = Target(ops: FileOps, dev: Option<Device>)

  /** The context a new descriptor for `t` gets. */
  function NewCtx(t: Target): Ctx
  {
    if t.ops.PyOps? && t.dev.Some? then PyCtx(t.dev.value, NULL) else DevCtx(t.dev)
  }

  /** `block_get_by_name` for a DevFS node. */
  function Lookup(devices: seq<Device>, name: string): Option<Target>
  {
    if devices == [] then None
    else if devices[0].name == name then Some(Target(BlockOps, Some(devices[0])))
    else Lookup(devices[1..], name)
  }

  /** What `rel` names inside `fs`, if anything. */
  function Names(devices: seq<Device>, fs: Fs, rel: string): Option<Target>
  {
    match fs
    case NullFs => None
    case PyFs(dev) => if rel == "superblock" then Some(Target(PyOps, Some(dev))) else None
    case DevFs =>
      if rel == "null" then Some(Target(NullOps, None))
      else if rel == "zero" then Some(Target(ZeroOps, None))
      else if "disk" <= rel then Lookup(devices, rel)
      else None
  }

  predicate WantsWrite(flags: nat) { flags / OPEN_WRITE % 2 == 1 }

  /** DevFS and PyFS are read-only; the null filesystem looks at no flag. */
  predicate Refuses(fs: Fs, flags: nat) { !fs.NullFs? && WantsWrite(flags) }

  /** The size of the context of a descriptor for `t`. */
  function CtxSize(t: Target): nat {
    if t.ops.PyOps? then SIZEOF_PY_CTX else SIZEOF_DEV_CTX
  }

  /** The heap can take that context. */
  predicate RoomFor(t: Target, bs: seq<Block>) {
    Room(bs, CtxSize(t))
  }

  function ZeroBytes(n: nat): seq<Byte> { seq(n, _ => 0) }

  /** Bytes [pos, pos+size) of a sector, cut off at its end. */
  function SectorSlice(s: Sector, pos: nat, size: nat): seq<Byte> {
    if pos >= SECTOR then []
    else if size < SECTOR - pos then s[pos..pos + size]
    else s[pos..]
  }

  ghost predicate AllRead(dev: Device, lba: nat, count: nat, io: Io) {
    forall i :: lba <= i < lba + count ==> Read(dev, i, io).Some?
  }

  /** `data` is what the device holds from sector `lba` on. */
  ghost predicate FromSectors(data: seq<Byte>, dev: Device, lba: nat, io: Io) {
    forall k :: 0 <= k < |data| ==>
      var r := Read(dev, lba + k / SECTOR, io); r.Some? && data[k] == r.value[k % SECTOR]
  }

  /** `devfs_read_block`'s loop: whole sectors, stopping at the first failure. */
  method ReadSectors(dev: Device, lba: nat, count: nat, io: Io) returns (done: nat, data: seq<Byte>)
    ensures done <= count && |data| == done * SECTOR
    ensures done == count <==> AllRead(dev, lba, count, io)
    ensures FromSectors(data, dev, lba, io)
  {
    data := [];
    for i := 0 to count
      invariant |data| == i * SECTOR
      invariant AllRead(dev, lba, i, io)
      invariant FromSectors(data, dev, lba, io)
    {
      var r := Read(dev, lba + i, io);
      if r.None? {
        return i, data;
      }
      data := data + r.value;
    }
    return count, data;
  }

  /**
    `data` is what a read of `size` bytes at the position of `v` must fetch; `v'` is
    the descriptor afterwards, which differs at most by a newly filled cache.
   */
  ghost predicate Fetched(v: View, v': View, size: nat, io: Io, data: seq<Byte>)
    requires v.Opened?
  {
    match v.ops
    case NullOps => data == [] && v' == v
    case ZeroOps => data == ZeroBytes(size) && v' == v
    case BlockOps =>
      && v' == v && v.dev.Some?
      && v.pos % SECTOR == 0 && size % SECTOR == 0 && |data| == size
      && FromSectors(data, v.dev.value, v.pos / SECTOR, io)
    case PyOps =>
      && v'.Opened? && v'.cached.Some? && v.dev.Some?
      && v' == v.(cached := if v.cached.Some? then v.cached else Read(v.dev.value, 0, io))
      && data == SectorSlice(v'.cached.value, v.pos, size)
  }

  /** A successful `vfs_read`: the bytes were fetched and the 32-bit position moved past them. */
  ghost predicate ReadOk(v: View, v': View, size: nat, io: Io, data: seq<Byte>) {
    && v.Opened? && v'.Opened?
    && v'.pos == (v.pos + |data|) % U32
    && Fetched(v, v'.(pos := v.pos), size, io, data)
  }

  lemma MovedOk(v: View, w: View, size: nat, io: Io, data: seq<Byte>)
    requires v.Opened? && Fetched(v, w, size, io, data)
    ensures w.Opened? && ReadOk(v, w.(pos := (w.pos + |data|) % U32), size, io, data)
  {
  }

  /** The first read of a PyFS descriptor, which has to get and fill the cache. */
  predicate NeedsCache(v: View) { v.Opened? && v.ops.PyOps? && v.cached.None? }

  /**
    A failed read shows nothing new, with one exception: a PyFS cache whose device
    read failed stays, holding the leftover bytes `junk`.
   */
  ghost predicate ReadFailed(v: View, v': View, rc: Rc, io: Io, junk: Sector) {
    if rc == Io && v.Opened? && v.ops.PyOps? then
      NeedsCache(v) && v.dev.Some? && Read(v.dev.value, 0, io).None? && v' == v.(cached := Some(junk))
    else
      v' == v
  }

  /** The return code of a filesystem's `read`, from what the caller, the heap and the devices bring. */
  ghost function ReadCode(v: View, hasBuffer: bool, size: nat, io: Io, bs: seq<Block>): Rc
    requires v.Opened? && (v.ops.BlockOps? || v.ops.PyOps? ==> v.dev.Some?)
  {
    match v.ops
    case NullOps => Ok
    case ZeroOps => if size > 0 && !hasBuffer then InvalidParam else Ok
    case BlockOps =>
      if !hasBuffer then InvalidParam
      else if v.pos % SECTOR != 0 || size % SECTOR != 0 then NotSupported
      else if AllRead(v.dev.value, v.pos / SECTOR, size / SECTOR, io) then Ok
      else Io
    case PyOps =>
      if !hasBuffer then InvalidParam
      else if v.cached.Some? then Ok
      else if !Room(bs, SECTOR) then NoSpace
      else if Read(v.dev.value, 0, io).Some? then Ok
      else Io
  }

  /** The heap after a read: only a first PyFS read with a buffer allocates. */
  ghost function HeapAfterRead(v: View, hasBuffer: bool, bs: seq<Block>): seq<Block> {
    if NeedsCache(v) && hasBuffer then Malloc(bs, SECTOR) else bs
  }

  class FileSystem {
    const heap: H.KernelHeap
    const mounts: Table
    const registry: Registry
    var open: seq<OpenEntry>
    var ctxs: Contexts
    var caches: Caches

    ghost var owner: Owners
    ghost const others: set<Grant>
    ghost const blocks0: seq<Block>

    /** The heap holds the blocks of other owners plus exactly those of open descriptors. */
    ghost predicate Valid()
      reads this, heap, mounts, mounts.slots, registry
    {
      && heap.Ready() && mounts.Valid() && registry.Valid()
      && (forall d :: d in registry.devices ==> d.sectorSize == SECTOR)
      && TableOk(open, ctxs, caches, owner)
      && HeapOk(Live(heap.blocks), others, owner)
      && WellFormed(blocks0) && Live(blocks0) == others
    }

    function ViewFd(fd: nat): View
      reads this
    {
      if fd < |open| then ViewOf(open[fd], ctxs, caches) else Closed
    }

    /** `vfs_init`, once the heap, the mounts and the devices are there. */
    constructor (heap: H.KernelHeap, mounts: Table, registry: Registry)
      requires heap.Ready() && mounts.Valid() && registry.Valid()
      requires forall d :: d in registry.devices ==> d.sectorSize == SECTOR
      ensures Valid() && this.heap == heap && this.mounts == mounts && this.registry == registry
      ensures blocks0 == heap.blocks && (forall fd: nat :: ViewFd(fd) == Closed)
    {
      this.heap, this.mounts, this.registry := heap, mounts, registry;
      open := seq(MAX_OPEN, _ => OpenEntry(false, NO_FILE));
      ctxs, caches, owner := map[], map[], map[];
      others, blocks0 := Live(heap.blocks), heap.blocks;
      new;
      UniqueGrants(heap.blocks);
    }

    /** When every descriptor is closed, the heap's block list is exactly the first one. */
    lemma AllClosedRestores()
      requires Valid() && (forall fd :: 0 <= fd < MAX_OPEN ==> !open[fd].used)
      ensures heap.blocks == blocks0
    {
      OwnersOpen(open, ctxs, caches, owner);
      assert owner.Keys == {};
      Canonical(heap.blocks, blocks0);
    }

    // ----- open -----------------------------------------------------------------------

    /** The name tests of `devfs_open` and `pyfs_open`. */
    method FindNode(fs: Fs, rel: string) returns (target: Option<Target>)
      requires registry.Valid()
      ensures target == Names(registry.devices, fs, rel)
    {
      match fs {
        case NullFs =>
          return None;
        case PyFs(dev) =>
          if rel != "superblock" {
            return None;
          }
          return Some(Target(PyOps, Some(dev)));
        case DevFs =>
          if rel == "null" {
            return Some(Target(NullOps, None));
          }
          if rel == "zero" {
            return Some(Target(ZeroOps, None));
          }
          if "disk" <= rel {
            LookupFinds(registry.devices, rel);
            var d := registry.GetByName(rel);
            if d.None? {
              return None;
            }
            LookupUnique(registry.devices, rel, d.value);
            return Some(Target(BlockOps, d));
          }
          return None;
      }
    }

    /** The filesystem's own `open`: null's, DevFS's or PyFS's. */
    method FsOpen(fs: Fs, rel: string, flags: nat) returns (rc: Rc, file: File, ghost x: Grant)
      requires heap.Ready() && registry.Valid()
      modifies heap, this`ctxs
      ensures heap.Ready()
      ensures rc != Ok ==> heap.blocks == old(heap.blocks) && ctxs == old(ctxs)
      ensures rc == NotSupported <==> Refuses(fs, flags)
      ensures rc == NotFound <==> !Refuses(fs, flags) && Names(registry.devices, fs, rel).None?
      ensures rc == NoSpace <==> !Refuses(fs, flags) && Names(registry.devices, fs, rel).Some? &&
                                 !RoomFor(Names(registry.devices, fs, rel).value, old(heap.blocks))
      ensures rc == Ok <==> !Refuses(fs, flags) && Names(registry.devices, fs, rel).Some? &&
                            RoomFor(Names(registry.devices, fs, rel).value, old(heap.blocks))
      ensures rc == Ok ==>
                && var t := Names(registry.devices, fs, rel).value;
                && heap.blocks == Malloc(old(heap.blocks), CtxSize(t))
                && file == File(Some(t.ops), x.0 + HEADER, if t.ops.PyOps? then SECTOR else 0, 0)
                && Live(heap.blocks) == Live(old(heap.blocks)) + {x}
                && (forall s :: (x.0, s) !in Live(old(heap.blocks)))
                && ctxs == old(ctxs)[file.ctx := NewCtx(t)]
    {
      hide H.KernelHeap.Ready, Malloc, MallocIndex;
      file, x := NO_FILE, (0, 0);
      if fs.NullFs? {
        return NotFound, file, x;
      }
      if WantsWrite(flags) {
        return NotSupported, file, x;
      }
      var target := FindNode(fs, rel);
      if target.None? {
        return NotFound, file, x;
      }
      var ops := target.value.ops;
      var ptr;
      ptr, x := Take(heap, CtxSize(target.value));
      if ptr == NULL {
        return NoSpace, file, x;
      }
      ctxs := ctxs[ptr := NewCtx(target.value)];
      file := File(Some(ops), ptr, if ops.PyOps? then SECTOR else 0, 0);
      return Ok, file, x;
    }

    /** The lowest unused descriptor, or MAX_OPEN. */
    method FreeFd() returns (fd: nat)
      requires |open| == MAX_OPEN
      ensures fd <= MAX_OPEN && (fd < MAX_OPEN ==> !open[fd].used)
      ensures forall g :: 0 <= g < fd ==> open[g].used
    {
      fd := 0;
      while fd < MAX_OPEN && open[fd].used
        invariant fd <= MAX_OPEN
        invariant forall g :: 0 <= g < fd ==> open[g].used
      {
        fd := fd + 1;
      }
    }

    /** Every descriptor is in use. */
    ghost predicate AllInUse()
      reads this
    {
      forall fd :: 0 <= fd < |open| ==> open[fd].used
    }

    /**
      `vfs_open`: on success the lowest unused descriptor shows the file that the
      longest matching mount names, at position 0; on failure nothing changes. Every
      return code has its exact condition.
     */
    method Open(path: string, flags: nat) returns (rc: Rc, fd: nat, ghost mount: nat, ghost rel: string)
      requires Valid()
      modifies heap, this`open, this`ctxs, this`owner
      ensures Valid()
      ensures rc != Ok ==> heap.blocks == old(heap.blocks) && open == old(open) && ctxs == old(ctxs)
      ensures rc == InvalidParam <==> path == "" || path[0] != '/'
      ensures rc == NoMount <==> path != "" && path[0] == '/' && NoMatch(mounts.View(), MAX_MOUNTS, path)
      ensures rc != InvalidParam && rc != NoMount ==>
                && Longest(mounts.View(), path, mount) && Splits(mounts.View()[mount].value.mountpoint, rel, path)
                && var fs := mounts.View()[mount].value.fs;
                && (rc == NotSupported <==> !old(AllInUse()) && Refuses(fs, flags))
                && var t := Names(registry.devices, fs, rel);
                && (rc == NotFound <==> !old(AllInUse()) && !Refuses(fs, flags) && t.None?)
                && (rc == Ok <==> !old(AllInUse()) && !Refuses(fs, flags) && t.Some? &&
                                  RoomFor(t.value, old(heap.blocks)))
                && (rc == Ok || rc == NotSupported || rc == NotFound || rc == NoSpace)
      ensures rc == Ok ==>
                && fd < MAX_OPEN && !old(open[fd].used) && (forall g :: 0 <= g < fd ==> old(open[g].used))
                && SameViews(old(open), old(ctxs), old(caches), open, ctxs, caches, fd)
                && var t := Names(registry.devices, mounts.View()[mount].value.fs, rel);
                && t.Some? && ViewFd(fd) == Opened(t.value.ops, 0, t.value.dev, None)
                && heap.blocks == Malloc(old(heap.blocks), CtxSize(t.value))
    {
      hide H.KernelHeap.Ready, RoomFor, Malloc, CtxSize, WellFormed, Live, Lookup, FdOk;
      var index, r;
      fd := 0;
      rc, index, r := mounts.FindMount(path);
      mount, rel := index, r;
      if rc != Ok {
        return;
      }
      fd := FreeFd();
      if fd == MAX_OPEN {
        rc := NoSpace;
        return;
      }
      ghost var live, ctxs0 := Live(heap.blocks), ctxs;
      var file;
      ghost var x: Grant;
      assert mounts.View()[index].value.fs == mounts.slots[index].fs;
      rc, file, x := FsOpen(mounts.slots[index].fs, r, flags);
      if rc != Ok {
        return;
      }
      if file.ops.None? {
        assert false;
      }
      ghost var t := Names(registry.devices, mounts.slots[index].fs, r).value;
      TargetOk(mounts.slots[index].fs, r);
      assert Fresh(file, NewCtx(t), x, live);
      OpenStep(open, ctxs0, caches, owner, live, others, fd, file, NewCtx(t), x);
      OpenViews(open, ctxs0, caches, owner, live, others, fd, file, NewCtx(t), x);
      ghost var open0 := open;
      open := open[fd := OpenEntry(true, file.(pos := 0))];
      owner := owner[x := fd];
      assert file.(pos := 0) == file && ctxs == ctxs0[file.ctx := NewCtx(t)];
      assert TableOk(open, ctxs, caches, owner);
      assert SameViews(open0, ctxs0, caches, open, ctxs, caches, fd);
    }

    // ----- close ----------------------------------------------------------------------

    /** `vfs_close`: frees exactly the descriptor's blocks; no free panics. */
    method Close(fd: nat) returns (rc: Rc)
      requires Valid()
      modifies heap, this`open, this`owner
      ensures Valid()
      ensures rc == if old(ViewFd(fd)).Closed? then BadFd else Ok
      ensures ViewFd(fd) == Closed && SameViews(old(open), old(ctxs), old(caches), open, ctxs, caches, fd)
      ensures rc != Ok ==> heap.blocks == old(heap.blocks)
      ensures rc == Ok ==>
                && Live(heap.blocks) == Live(old(heap.blocks)) - old(GrantsOf(owner, fd))
                && old(GrantsOf(owner, fd)) <= Live(old(heap.blocks))
                && |old(GrantsOf(owner, fd))| == BlocksOf(old(ViewFd(fd)))
    {
      if fd >= MAX_OPEN {
        return BadFd;
      }
      assert FdOk(open[fd], ctxs, caches, owner, fd);
      if !open[fd].used {
        return BadFd;
      }
      ghost var live := Live(heap.blocks);
      ghost var x, y := GrantsAre(open, ctxs, caches, owner, live, others, fd);
      GrantsCount(open, ctxs, caches, owner, live, others, fd);
      var ctx := open[fd].file.ctx;
      if open[fd].file.ops.value.PyOps? {
        var cache := ctxs[ctx].cache;
        if cache != NULL {
          Give(heap, cache, y);
        }
      }
      Give(heap, ctx, x);
      assert Live(heap.blocks) == live - GrantsOf(owner, fd);
      CloseStep(open, ctxs, caches, owner, live, others, fd);
      CloseViews(open, ctxs, caches, fd);
      ghost var open0 := open;
      owner := owner - GrantsOf(owner, fd);
      open := open[fd := OpenEntry(false, NO_FILE)];
      assert TableOk(open, ctxs, caches, owner);
      assert SameViews(open0, ctxs, caches, open, ctxs, caches, fd);
      return Ok;
    }

    // ----- read -----------------------------------------------------------------------

    /** `pyfs_file_read` up to the copy: makes sure a cache is there. */
    method FillCache(fd: nat, io: Io, junk: Sector) returns (rc: Rc)
      requires Valid() && fd < MAX_OPEN && open[fd].used && open[fd].file.ops == Some(PyOps)
      requires ViewFd(fd).Opened? && ViewFd(fd).cached.None? && ViewFd(fd).dev.Some?
      modifies heap, this`ctxs, this`caches, this`owner
      ensures Valid() && SameViews(old(open), old(ctxs), old(caches), open, ctxs, caches, fd)
      ensures rc == Ok || rc == Io || rc == NoSpace
      ensures heap.blocks == Malloc(old(heap.blocks), SECTOR)
      ensures rc == NoSpace <==> !Room(old(heap.blocks), SECTOR)
      ensures rc == NoSpace ==> ViewFd(fd) == old(ViewFd(fd))
      ensures rc != NoSpace ==>
                var r := Read(old(ViewFd(fd)).dev.value, 0, io);
                && (rc == Ok <==> r.Some?)
                && ViewFd(fd) == old(ViewFd(fd)).(cached := Some(if r.Some? then r.value else junk))
    {
      hide H.KernelHeap.Ready, Malloc, MallocIndex;
      assert FdOk(open[fd], ctxs, caches, owner, fd);
      ghost var live, ctxs0, caches0, owner0 := Live(heap.blocks), ctxs, caches, owner;
      var ctx := open[fd].file.ctx;
      var ptr;
      ghost var y: Grant;
      ptr, y := Take(heap, SECTOR);
      if ptr == NULL {
        return NoSpace;
      }
      var r := Read(ctxs[ctx].dev, 0, io);
      var bytes := if r.Some? then r.value else junk;
      CacheStep(open, ctxs0, caches0, owner0, live, others, fd, y, bytes);
      CacheViews(open, ctxs0, caches0, owner0, live, others, fd, y, bytes);
      ctxs := ctxs[ctx := ctxs[ctx].(cache := ptr)];
      caches := caches[ptr := bytes];
      owner := owner[y := fd];
      assert ctxs == ctxs0[ctx := ctxs0[ctx].(cache := y.0 + HEADER)] && caches == caches0[y.0 + HEADER := bytes];
      assert SameViews(open, ctxs0, caches0, open, ctxs, caches, fd);
      assert TableOk(open, ctxs, caches, owner);
      return if r.Some? then Ok else Io;
    }

    /** `pyfs_file_read` */
    method PyRead(fd: nat, hasBuffer: bool, size: nat, io: Io, junk: Sector) returns (rc: Rc, data: seq<Byte>)
      requires Valid() && fd < MAX_OPEN && open[fd].used && open[fd].file.ops == Some(PyOps) && ViewFd(fd).Opened?
      modifies heap, this`ctxs, this`caches, this`owner
      ensures Valid() && SameViews(old(open), old(ctxs), old(caches), open, ctxs, caches, fd)
      ensures old(ViewFd(fd)).dev.Some?
      ensures rc == ReadCode(old(ViewFd(fd)), hasBuffer, size, io, old(heap.blocks))
      ensures heap.blocks == HeapAfterRead(old(ViewFd(fd)), hasBuffer, old(heap.blocks))
      ensures rc == Ok ==> Fetched(old(ViewFd(fd)), ViewFd(fd), size, io, data)
      ensures rc != Ok ==> ReadFailed(old(ViewFd(fd)), ViewFd(fd), rc, io, junk)
    {
      hide H.KernelHeap.Ready, Malloc, MallocIndex;
      data := [];
      assert FdOk(open[fd], ctxs, caches, owner, fd);
      if !hasBuffer {
        return InvalidParam, data;
      }
      if ctxs[open[fd].file.ctx].cache == NULL {
        rc := FillCache(fd, io, junk);
        if rc != Ok {
          return rc, data;
        }
        assert FdOk(open[fd], ctxs, caches, owner, fd);
      }
      return Ok, SectorSlice(caches[ctxs[open[fd].file.ctx].cache], open[fd].file.pos, size);
    }

    /** `devfs_read_block` */
    method BlockRead(fd: nat, hasBuffer: bool, size: nat, io: Io) returns (rc: Rc, data: seq<Byte>)
      requires Valid() && fd < MAX_OPEN && open[fd].used && open[fd].file.ops == Some(BlockOps) && ViewFd(fd).Opened?
      ensures var v := ViewFd(fd);
              && v.dev.Some?
              && (rc == InvalidParam <==> !hasBuffer)
              && (rc == NotSupported <==> hasBuffer && !(v.pos % SECTOR == 0 && size % SECTOR == 0))
              && (rc == Ok <==> hasBuffer && v.pos % SECTOR == 0 && size % SECTOR == 0 &&
                                AllRead(v.dev.value, v.pos / SECTOR, size / SECTOR, io))
              && (rc == Ok ==> |data| == size)
              && FromSectors(data, v.dev.value, v.pos / SECTOR, io)
      ensures rc == Ok || rc == InvalidParam || rc == NotSupported || rc == Io
    {
      data := [];
      assert FdOk(open[fd], ctxs, caches, owner, fd);
      var pos := open[fd].file.pos;
      if !hasBuffer {
        return InvalidParam, data;
      }
      if pos % SECTOR != 0 || size % SECTOR != 0 {
        return NotSupported, data;
      }
      var done;
      done, data := ReadSectors(ctxs[open[fd].file.ctx].blk.value, pos / SECTOR, size / SECTOR, io);
      return if done < size / SECTOR then Io else Ok, data;
    }

    /** `f->pos += *read_ptr` */
    method MovePosition(fd: nat, n: nat)
      requires Valid() && fd < MAX_OPEN && open[fd].used && ViewFd(fd).Opened?
      modifies this`open
      ensures Valid() && SameViews(old(open), ctxs, caches, open, ctxs, caches, fd)
      ensures ViewFd(fd) == old(ViewFd(fd)).(pos := (old(ViewFd(fd)).pos + n) % U32)
    {
      PosStep(open, ctxs, caches, owner, fd, (open[fd].file.pos + n) % U32);
      open := open[fd := OpenEntry(true, open[fd].file.(pos := (open[fd].file.pos + n) % U32))];
    }

    /** `f->ops->read` */
    method FsRead(fd: nat, hasBuffer: bool, size: nat, io: Io, junk: Sector) returns (rc: Rc, data: seq<Byte>)
      requires Valid() && fd < MAX_OPEN && open[fd].used && ViewFd(fd).Opened?
      modifies heap, this`ctxs, this`caches, this`owner
      ensures Valid() && SameViews(old(open), old(ctxs), old(caches), open, ctxs, caches, fd)
      ensures var v := old(ViewFd(fd)); v.ops.BlockOps? || v.ops.PyOps? ==> v.dev.Some?
      ensures rc == ReadCode(old(ViewFd(fd)), hasBuffer, size, io, old(heap.blocks))
      ensures heap.blocks == HeapAfterRead(old(ViewFd(fd)), hasBuffer, old(heap.blocks))
      ensures rc == Ok ==> |data| <= size && Fetched(old(ViewFd(fd)), ViewFd(fd), size, io, data)
      ensures rc != Ok ==> ReadFailed(old(ViewFd(fd)), ViewFd(fd), rc, io, junk)
    {
      hide H.KernelHeap.Ready, Malloc, MallocIndex;
      rc, data := Ok, [];
      match open[fd].file.ops.value {
        case NullOps =>
        case ZeroOps =>
          if size > 0 && !hasBuffer {
            rc := InvalidParam;
          } else {
            data := ZeroBytes(size);
          }
        case BlockOps => rc, data := BlockRead(fd, hasBuffer, size, io);
        case PyOps => rc, data := PyRead(fd, hasBuffer, size, io, junk);
      }
    }

    /** `vfs_read` on an open descriptor: fetch, then move the position. */
    method ReadOpen(fd: nat, hasBuffer: bool, size: nat, io: Io, junk: Sector) returns (rc: Rc, data: seq<Byte>)
      requires Valid() && fd < MAX_OPEN && open[fd].used && ViewFd(fd).Opened?
      modifies heap, this`open, this`ctxs, this`caches, this`owner
      ensures Valid() && SameViews(old(open), old(ctxs), old(caches), open, ctxs, caches, fd)
      ensures var v := old(ViewFd(fd)); v.ops.BlockOps? || v.ops.PyOps? ==> v.dev.Some?
      ensures rc == ReadCode(old(ViewFd(fd)), hasBuffer, size, io, old(heap.blocks))
      ensures heap.blocks == HeapAfterRead(old(ViewFd(fd)), hasBuffer, old(heap.blocks))
      ensures rc == Ok ==> ReadOk(old(ViewFd(fd)), ViewFd(fd), size, io, data)
      ensures rc != Ok ==> ReadFailed(old(ViewFd(fd)), ViewFd(fd), rc, io, junk)
    {
      hide H.KernelHeap.Ready, Malloc, MallocIndex;
      ghost var v, open0, ctxs0, caches0 := ViewFd(fd), open, ctxs, caches;
      rc, data := FsRead(fd, hasBuffer, size, io, junk);
      if rc != Ok {
        return;
      }
      if |data| > size {
        assert false;
      }
      ghost var w, ctxs1, caches1 := ViewFd(fd), ctxs, caches;
      MovedOk(v, w, size, io, data);
      MovePosition(fd, |data|);
      SameViewsChain(open0, ctxs0, caches0, open0, ctxs1, caches1, open, ctxs, caches, fd);
    }

    /**
      `vfs_read`: an exact return code; on success the descriptor's own bytes and a
      moved position; on failure the position stays, and the only possible trace is a
      PyFS cache that a failed device read left unfilled.
     */
    method ReadFile(fd: nat, hasBuffer: bool, size: nat, io: Io, junk: Sector) returns (rc: Rc, data: seq<Byte>)
      requires Valid() && size < U32
      modifies heap, this`open, this`ctxs, this`caches, this`owner
      ensures Valid() && SameViews(old(open), old(ctxs), old(caches), open, ctxs, caches, fd)
      ensures rc == BadFd <==> old(ViewFd(fd)).Closed?
      ensures var v := old(ViewFd(fd));
              v.Opened? ==>
                && (v.ops.BlockOps? || v.ops.PyOps? ==> v.dev.Some?)
                && rc == if size > 0 && !hasBuffer then InvalidParam
                         else ReadCode(v, hasBuffer, size, io, old(heap.blocks))
      ensures heap.blocks == HeapAfterRead(old(ViewFd(fd)), hasBuffer, old(heap.blocks))
      ensures rc == Ok ==> ReadOk(old(ViewFd(fd)), ViewFd(fd), size, io, data)
      ensures rc != Ok ==> ReadFailed(old(ViewFd(fd)), ViewFd(fd), rc, io, junk)
    {
      hide H.KernelHeap.Ready, Malloc, MallocIndex;
      data := [];
      if fd >= MAX_OPEN {
        return BadFd, data;
      }
      assert FdOk(open[fd], ctxs, caches, owner, fd);
      if !open[fd].used {
        return BadFd, data;
      }
      if size > 0 && !hasBuffer {
        return InvalidParam, data;
      }
      rc, data := ReadOpen(fd, hasBuffer, size, io, junk);
    }

    lemma TargetOk(fs: Fs, rel: string)
      requires forall d :: d in registry.devices ==> d.sectorSize == SECTOR
      requires Names(registry.devices, fs, rel).Some?
      ensures var t := Names(registry.devices, fs, rel).value;
              && (t.ops.PyOps? ==> t.dev.Some?)
              && (t.ops.BlockOps? ==> t.dev.Some? && t.dev.value.sectorSize == SECTOR)
    {
      LookupFinds(registry.devices, rel);
    }
  }

  lemma LookupFinds(devices: seq<Device>, name: string)
    ensures Lookup(devices, name).None? <==> forall d :: d in devices ==> d.name != name
    ensures Lookup(devices, name).Some? ==>
              && Lookup(devices, name).value.ops == BlockOps
              && Lookup(devices, name).value.dev.Some?
              && Lookup(devices, name).value.dev.value in devices
              && Lookup(devices, name).value.dev.value.name == name
  {
  }

  /** With unique names there is only one device to find. */
  lemma LookupUnique(devices: seq<Device>, name: string, d: Device)
    requires UniqueNames(devices) && d in devices && d.name == name
    ensures Lookup(devices, name) == Some(Target(BlockOps, Some(d)))
  {
  }
}
