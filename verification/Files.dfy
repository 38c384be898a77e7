/**
  The open-file table of the VFS over DevFS and PyFS
  (kernel/fs/vfs.c, devfs.c and pyfs.c), with every file context on the kernel heap.
 */
module Files {
  import opened Machine
  import opened HeapSpec
  import opened HeapClient
  import opened Blocks

  const MAX_OPEN := 32
  const SIZEOF_DEV_CTX := 8
  const SIZEOF_PY_CTX := 12
  const OPEN_WRITE := 2

  datatype FileOps = NullOps | ZeroOps | BlockOps | PyOps

  datatype File = File(ops: Option<FileOps>, ctx: nat, size: nat, pos: nat)

  const NO_FILE := File(None, NULL, 0, 0)

  /** The structures behind `file_ctx`. */
  datatype Ctx = DevCtx(blk: Option<Device>) | PyCtx(dev: Device, cache: nat)

  datatype OpenEntry = OpenEntry(used: bool, file: File)

  type Contexts = map<nat, Ctx>
  type Caches = map<nat, Sector>
  type Owners = map<Grant, nat>

  /** The cache pointer of a file, or null. */
  function CacheOf(f: File, ctxs: Contexts): nat {
    if f.ops == Some(PyOps) && f.ctx in ctxs && ctxs[f.ctx].PyCtx? then ctxs[f.ctx].cache else NULL
  }

  /** `ptr` is the payload of a grant that `fd` owns. */
  ghost predicate Owns(owner: Owners, fd: nat, ptr: nat) {
    exists x: Grant :: x in owner && owner[x] == fd && x.0 + HEADER == ptr
  }

  /** An open descriptor owns its context and, once filled, its cache. */
  ghost predicate FdOk(e: OpenEntry, ctxs: Contexts, caches: Caches, owner: Owners, fd: nat) {
    e.used ==>
      && e.file.ops.Some? && e.file.pos < U32
      && e.file.ctx in ctxs && Owns(owner, fd, e.file.ctx)
      && (if e.file.ops.value.PyOps? then ctxs[e.file.ctx].PyCtx? else ctxs[e.file.ctx].DevCtx?)
      && (e.file.ops.value.BlockOps? ==> ctxs[e.file.ctx].blk.Some? && ctxs[e.file.ctx].blk.value.sectorSize == SECTOR)
      && var cache := CacheOf(e.file, ctxs);
      && (cache != NULL ==> cache in caches && cache != e.file.ctx && Owns(owner, fd, cache))
  }

  /** Every grant of the table belongs to an open descriptor, as its context or its cache. */
  ghost predicate GrantOk(open: seq<OpenEntry>, ctxs: Contexts, x: Grant, fd: nat) {
    && fd < |open| && open[fd].used
    && (x.0 + HEADER == open[fd].file.ctx || x.0 + HEADER == CacheOf(open[fd].file, ctxs))
  }

  ghost predicate TableOk(open: seq<OpenEntry>, ctxs: Contexts, caches: Caches, owner: Owners) {
    && |open| == MAX_OPEN
    && (forall fd {:trigger FdOk(open[fd], ctxs, caches, owner, fd)} ::
          0 <= fd < MAX_OPEN ==> FdOk(open[fd], ctxs, caches, owner, fd))
    && (forall x {:trigger GrantOk(open, ctxs, x, owner[x])} :: x in owner ==> GrantOk(open, ctxs, x, owner[x]))
  }

  /** Live allocations are those of other owners plus those of the table, without overlap. */
  ghost predicate HeapOk(live: set<Grant>, others: set<Grant>, owner: Owners) {
    && live == others + owner.Keys && others !! owner.Keys
    && (forall x, y :: x in live && y in live && x.0 == y.0 ==> x == y)
  }

  lemma UniqueGrants(bs: seq<Block>)
    ensures forall x, y :: x in Live(bs) && y in Live(bs) && x.0 == y.0 ==> x == y
  {
    forall x, y | x in Live(bs) && y in Live(bs) && x.0 == y.0
      ensures x == y
    {
      LiveUnique(bs, x, y);
    }
  }

  // ----- what one step leaves alone --------------------------------------------------

  /** The grants of `fd` are the same in both maps. */
  ghost predicate SameGrants(owner: Owners, owner': Owners, fd: nat) {
    forall x :: x in owner && owner[x] == fd ==> x in owner' && owner'[x] == fd
  }

  lemma FdOkKept(e: OpenEntry, ctxs: Contexts, ctxs': Contexts, caches: Caches, caches': Caches,
                 owner: Owners, owner': Owners, fd: nat)
    requires FdOk(e, ctxs, caches, owner, fd) && SameGrants(owner, owner', fd)
    requires e.used ==> e.file.ctx in ctxs' && ctxs'[e.file.ctx] == ctxs[e.file.ctx]
    requires e.used && CacheOf(e.file, ctxs) != NULL ==> CacheOf(e.file, ctxs) in caches'
    ensures FdOk(e, ctxs', caches', owner', fd)
    ensures e.used ==> CacheOf(e.file, ctxs') == CacheOf(e.file, ctxs)
  {
  }

  lemma OwnsKept(owner: Owners, owner': Owners, fd: nat, ptr: nat)
    requires Owns(owner, fd, ptr) && SameGrants(owner, owner', fd)
    ensures Owns(owner', fd, ptr)
  {
  }

  /** A pointer that some descriptor owns is not the payload of a new grant. */
  lemma OtherPointer(owner: Owners, live: set<Grant>, fd: nat, ptr: nat, x: Grant)
    requires owner.Keys <= live && Owns(owner, fd, ptr) && (forall s :: (x.0, s) !in live)
    ensures ptr != x.0 + HEADER
  {
  }

  /** Different descriptors own different pointers. */
  lemma OwnedApart(owner: Owners, live: set<Grant>, others: set<Grant>, fd: nat, gd: nat, p: nat, q: nat)
    requires HeapOk(live, others, owner) && Owns(owner, fd, p) && Owns(owner, gd, q) && fd != gd
    ensures p != q
  {
  }

  lemma HeapGrows(live: set<Grant>, others: set<Grant>, owner: Owners, x: Grant, fd: nat)
    requires HeapOk(live, others, owner) && (forall s :: (x.0, s) !in live)
    ensures x !in owner && HeapOk(live + {x}, others, owner[x := fd])
  {
  }

  lemma HeapShrinks(live: set<Grant>, others: set<Grant>, owner: Owners, gone: set<Grant>)
    requires HeapOk(live, others, owner) && gone <= owner.Keys
    ensures HeapOk(live - gone, others, owner - gone)
  {
  }

  // ----- opening ----------------------------------------------------------------------

  /** What the filesystem's `open` hands back for a new descriptor. */
  ghost predicate Fresh(f: File, c: Ctx, x: Grant, live: set<Grant>) {
    && f.ctx == x.0 + HEADER && (forall s :: (x.0, s) !in live)
    && f.ops.Some? && f.pos < U32
    && (if f.ops.value.PyOps? then c.PyCtx? && c.cache == NULL else c.DevCtx?)
    && (f.ops.value.BlockOps? ==> c.blk.Some? && c.blk.value.sectorSize == SECTOR)
  }

  /** A new descriptor takes ownership of its freshly granted context. */
  lemma OpenStep(open: seq<OpenEntry>, ctxs: Contexts, caches: Caches, owner: Owners,
                 live: set<Grant>, others: set<Grant>, fd: nat, f: File, c: Ctx, x: Grant)
    requires TableOk(open, ctxs, caches, owner) && HeapOk(live, others, owner)
    requires fd < MAX_OPEN && !open[fd].used && Fresh(f, c, x, live)
    ensures TableOk(open[fd := OpenEntry(true, f)], ctxs[f.ctx := c], caches, owner[x := fd])
    ensures HeapOk(live + {x}, others, owner[x := fd])
  {
    var open', ctxs', owner' := open[fd := OpenEntry(true, f)], ctxs[f.ctx := c], owner[x := fd];
    HeapGrows(live, others, owner, x, fd);
    forall g | 0 <= g < MAX_OPEN
      ensures FdOk(open'[g], ctxs', caches, owner', g)
      ensures g != fd && open[g].used ==> CacheOf(open[g].file, ctxs') == CacheOf(open[g].file, ctxs)
    {
      OpenFdOk(open, ctxs, caches, owner, live, others, fd, f, c, x, g);
    }
    forall y | y in owner'
      ensures GrantOk(open', ctxs', y, owner'[y])
    {
      if y != x {
        assert GrantOk(open, ctxs, y, owner[y]);
      }
    }
  }

  lemma OpenFdOk(open: seq<OpenEntry>, ctxs: Contexts, caches: Caches, owner: Owners,
                 live: set<Grant>, others: set<Grant>, fd: nat, f: File, c: Ctx, x: Grant, g: nat)
    requires TableOk(open, ctxs, caches, owner) && HeapOk(live, others, owner) && x !in owner
    requires fd < MAX_OPEN && !open[fd].used && Fresh(f, c, x, live) && g < MAX_OPEN
    ensures FdOk(open[fd := OpenEntry(true, f)][g], ctxs[f.ctx := c], caches, owner[x := fd], g)
    ensures g != fd && open[g].used ==> CacheOf(open[g].file, ctxs[f.ctx := c]) == CacheOf(open[g].file, ctxs)
  {
    if g == fd {
      assert x in owner[x := fd];
      assert Owns(owner[x := fd], fd, f.ctx);
    } else {
      assert FdOk(open[g], ctxs, caches, owner, g);
      if open[g].used {
        OtherPointer(owner, live, g, open[g].file.ctx, x);
      }
      FdOkKept(open[g], ctxs, ctxs[f.ctx := c], caches, caches, owner, owner[x := fd], g);
    }
  }

  // ----- filling a cache ------------------------------------------------------------

  lemma CacheStep(open: seq<OpenEntry>, ctxs: Contexts, caches: Caches, owner: Owners,
                  live: set<Grant>, others: set<Grant>, fd: nat, y: Grant, bytes: Sector)
    requires TableOk(open, ctxs, caches, owner) && HeapOk(live, others, owner)
    requires fd < MAX_OPEN && open[fd].used && open[fd].file.ops == Some(PyOps)
    requires CacheOf(open[fd].file, ctxs) == NULL
    requires forall s :: (y.0, s) !in live
    ensures FdOk(open[fd], ctxs, caches, owner, fd)
    ensures var ctx := open[fd].file.ctx;
            var ptr := y.0 + HEADER;
            var ctxs' := ctxs[ctx := ctxs[ctx].(cache := ptr)];
            && TableOk(open, ctxs', caches[ptr := bytes], owner[y := fd])
            && HeapOk(live + {y}, others, owner[y := fd])
            && CacheOf(open[fd].file, ctxs') == ptr
  {
    assert FdOk(open[fd], ctxs, caches, owner, fd);
    var ctx, ptr := open[fd].file.ctx, y.0 + HEADER;
    var ctxs', caches', owner' := ctxs[ctx := ctxs[ctx].(cache := ptr)], caches[ptr := bytes], owner[y := fd];
    HeapGrows(live, others, owner, y, fd);
    OtherPointer(owner, live, fd, ctx, y);
    OwnsKept(owner, owner', fd, ctx);
    assert y in owner' && owner'[y] == fd;
    assert Owns(owner', fd, ptr);
    forall g | 0 <= g < MAX_OPEN
      ensures FdOk(open[g], ctxs', caches', owner', g)
      ensures g != fd && open[g].used ==> CacheOf(open[g].file, ctxs') == CacheOf(open[g].file, ctxs)
    {
      if g != fd {
        assert FdOk(open[g], ctxs, caches, owner, g);
        if open[g].used {
          OwnedApart(owner, live, others, fd, g, ctx, open[g].file.ctx);
        }
        FdOkKept(open[g], ctxs, ctxs', caches, caches', owner, owner', g);
      }
    }
    forall z | z in owner'
      ensures GrantOk(open, ctxs', z, owner'[z])
    {
      if z != y {
        assert GrantOk(open, ctxs, z, owner[z]);
      }
    }
  }

  /** Whoever owns a grant is open. */
  lemma OwnersOpen(open: seq<OpenEntry>, ctxs: Contexts, caches: Caches, owner: Owners)
    requires TableOk(open, ctxs, caches, owner)
    ensures forall x :: x in owner ==> 0 <= owner[x] < MAX_OPEN && open[owner[x]].used
  {
    forall x | x in owner
      ensures 0 <= owner[x] < MAX_OPEN && open[owner[x]].used
    {
      assert GrantOk(open, ctxs, x, owner[x]);
    }
  }

  // ----- closing --------------------------------------------------------------------

  /** The grants of one descriptor. */
  ghost function GrantsOf(owner: Owners, fd: nat): set<Grant> {
    set x | x in owner && owner[x] == fd
  }

  lemma CloseStep(open: seq<OpenEntry>, ctxs: Contexts, caches: Caches, owner: Owners,
                  live: set<Grant>, others: set<Grant>, fd: nat)
    requires TableOk(open, ctxs, caches, owner) && HeapOk(live, others, owner) && fd < MAX_OPEN
    ensures TableOk(open[fd := OpenEntry(false, NO_FILE)], ctxs, caches, owner - GrantsOf(owner, fd))
    ensures HeapOk(live - GrantsOf(owner, fd), others, owner - GrantsOf(owner, fd))
  {
    var open', owner' := open[fd := OpenEntry(false, NO_FILE)], owner - GrantsOf(owner, fd);
    HeapShrinks(live, others, owner, GrantsOf(owner, fd));
    forall g | 0 <= g < MAX_OPEN
      ensures FdOk(open'[g], ctxs, caches, owner', g)
    {
      if g != fd {
        assert FdOk(open[g], ctxs, caches, owner, g);
        FdOkKept(open[g], ctxs, ctxs, caches, caches, owner, owner', g);
      }
    }
    forall z | z in owner'
      ensures GrantOk(open', ctxs, z, owner'[z])
    {
      assert GrantOk(open, ctxs, z, owner[z]);
    }
  }

  /** A descriptor's grants are its context and, if filled, its cache. */
  lemma GrantsAre(open: seq<OpenEntry>, ctxs: Contexts, caches: Caches, owner: Owners,
                  live: set<Grant>, others: set<Grant>, fd: nat)
      returns (x: Grant, y: Grant)
    requires TableOk(open, ctxs, caches, owner) && HeapOk(live, others, owner) && fd < MAX_OPEN && open[fd].used
    ensures x.0 + HEADER == open[fd].file.ctx && x in live
    ensures var cache := CacheOf(open[fd].file, ctxs);
            if cache == NULL then GrantsOf(owner, fd) == {x}
            else y.0 + HEADER == cache && y in live && x != y && GrantsOf(owner, fd) == {x, y}
  {
    assert FdOk(open[fd], ctxs, caches, owner, fd);
    var cache := CacheOf(open[fd].file, ctxs);
    x :| x in owner && owner[x] == fd && x.0 + HEADER == open[fd].file.ctx;
    y := x;
    if cache != NULL {
      y :| y in owner && owner[y] == fd && y.0 + HEADER == cache;
    }
    forall z | z in GrantsOf(owner, fd)
      ensures z == x || z == y
    {
      assert GrantOk(open, ctxs, z, fd);
      assert z in live && x in live && y in live;
    }
  }

  // ----- what a descriptor shows ------------------------------------------------------

  /** A descriptor as its user sees it: its file, position, device and cached sector. */
  datatype View = Closed | Opened(ops: FileOps, pos: nat, dev: Option<Device>, cached: Option<Sector>)

  function ViewOf(e: OpenEntry, ctxs: Contexts, caches: Caches): View {
    if !e.used || e.file.ops.None? || e.file.ctx !in ctxs then Closed
    else
      var cache := CacheOf(e.file, ctxs);
      Opened(e.file.ops.value, e.file.pos,
             match ctxs[e.file.ctx] case DevCtx(blk) => blk case PyCtx(dev, _) => Some(dev),
             if cache != NULL && cache in caches then Some(caches[cache]) else None)
  }

  /** The heap blocks of a descriptor: its context and, once filled, its cache. */
  function BlocksOf(v: View): nat {
    if v.Closed? then 0 else if v.cached.Some? then 2 else 1
  }

  lemma GrantsCount(open: seq<OpenEntry>, ctxs: Contexts, caches: Caches, owner: Owners,
                    live: set<Grant>, others: set<Grant>, fd: nat)
    requires TableOk(open, ctxs, caches, owner) && HeapOk(live, others, owner) && fd < MAX_OPEN && open[fd].used
    ensures GrantsOf(owner, fd) <= live && |GrantsOf(owner, fd)| == BlocksOf(ViewOf(open[fd], ctxs, caches))
  {
    assert FdOk(open[fd], ctxs, caches, owner, fd);
    var x, y := GrantsAre(open, ctxs, caches, owner, live, others, fd);
  }

  /** Every descriptor but `fd` shows what it showed. */
  ghost predicate SameViews(open: seq<OpenEntry>, ctxs: Contexts, caches: Caches,
                            open': seq<OpenEntry>, ctxs': Contexts, caches': Caches, fd: nat)
  {
    && |open| == |open'|
    && (forall g :: 0 <= g < |open| && g != fd ==> ViewOf(open'[g], ctxs', caches') == ViewOf(open[g], ctxs, caches))
  }

  lemma SameViewsChain(open: seq<OpenEntry>, ctxs: Contexts, caches: Caches, open': seq<OpenEntry>, ctxs': Contexts,
                       caches': Caches, open'': seq<OpenEntry>, ctxs'': Contexts, caches'': Caches, fd: nat)
    requires SameViews(open, ctxs, caches, open', ctxs', caches', fd)
    requires SameViews(open', ctxs', caches', open'', ctxs'', caches'', fd)
    ensures SameViews(open, ctxs, caches, open'', ctxs'', caches'', fd)
  {
  }

  /** Opening changes what the new descriptor shows, and nothing else. */
  lemma OpenViews(open: seq<OpenEntry>, ctxs: Contexts, caches: Caches, owner: Owners,
                  live: set<Grant>, others: set<Grant>, fd: nat, f: File, c: Ctx, x: Grant)
    requires TableOk(open, ctxs, caches, owner) && HeapOk(live, others, owner)
    requires fd < MAX_OPEN && !open[fd].used && Fresh(f, c, x, live)
    ensures SameViews(open, ctxs, caches, open[fd := OpenEntry(true, f)], ctxs[f.ctx := c], caches, fd)
    ensures ViewOf(open[fd := OpenEntry(true, f)][fd], ctxs[f.ctx := c], caches) ==
            Opened(f.ops.value, f.pos, match c case DevCtx(blk) => blk case PyCtx(dev, _) => Some(dev), None)
  {
    forall g | 0 <= g < MAX_OPEN && g != fd
      ensures ViewOf(open[g], ctxs[f.ctx := c], caches) == ViewOf(open[g], ctxs, caches)
    {
      NewPointerKeepsViews(open, ctxs, caches, owner, live, others, g, x, c, seq(SECTOR, _ => 0));
    }
  }

  /** Closing a descriptor changes what it shows, and nothing else. */
  lemma CloseViews(open: seq<OpenEntry>, ctxs: Contexts, caches: Caches, fd: nat)
    requires fd < |open|
    ensures SameViews(open, ctxs, caches, open[fd := OpenEntry(false, NO_FILE)], ctxs, caches, fd)
    ensures ViewOf(open[fd := OpenEntry(false, NO_FILE)][fd], ctxs, caches) == Closed
  {
  }

  /** Storing into a pointer that is new to the heap disturbs no other descriptor. */
  lemma NewPointerKeepsViews(open: seq<OpenEntry>, ctxs: Contexts, caches: Caches, owner: Owners, live: set<Grant>,
                             others: set<Grant>, g: nat, x: Grant, c: Ctx, bytes: Sector)
    requires TableOk(open, ctxs, caches, owner) && HeapOk(live, others, owner) && g < MAX_OPEN
    requires forall s :: (x.0, s) !in live
    ensures ViewOf(open[g], ctxs[x.0 + HEADER := c], caches) == ViewOf(open[g], ctxs, caches)
    ensures ViewOf(open[g], ctxs, caches[x.0 + HEADER := bytes]) == ViewOf(open[g], ctxs, caches)
  {
    assert FdOk(open[g], ctxs, caches, owner, g);
    if open[g].used {
      OtherPointer(owner, live, g, open[g].file.ctx, x);
      if CacheOf(open[g].file, ctxs) != NULL {
        OtherPointer(owner, live, g, CacheOf(open[g].file, ctxs), x);
      }
    }
  }

  /** Moving a position keeps the table. */
  lemma PosStep(open: seq<OpenEntry>, ctxs: Contexts, caches: Caches, owner: Owners, fd: nat, pos: nat)
    requires TableOk(open, ctxs, caches, owner) && fd < MAX_OPEN && open[fd].used && pos < U32
    ensures TableOk(open[fd := OpenEntry(true, open[fd].file.(pos := pos))], ctxs, caches, owner)
    ensures SameViews(open, ctxs, caches, open[fd := OpenEntry(true, open[fd].file.(pos := pos))], ctxs, caches, fd)
    ensures ViewOf(open[fd], ctxs, caches).Opened?
    ensures ViewOf(open[fd := OpenEntry(true, open[fd].file.(pos := pos))][fd], ctxs, caches) ==
            ViewOf(open[fd], ctxs, caches).(pos := pos)
  {
    assert FdOk(open[fd], ctxs, caches, owner, fd);
    var open' := open[fd := OpenEntry(true, open[fd].file.(pos := pos))];
    forall g | 0 <= g < MAX_OPEN
      ensures FdOk(open'[g], ctxs, caches, owner, g)
    {
      assert FdOk(open[g], ctxs, caches, owner, g);
    }
    forall z | z in owner
      ensures GrantOk(open', ctxs, z, owner[z])
    {
      assert GrantOk(open, ctxs, z, owner[z]);
    }
  }

  /** Filling a cache changes what its own descriptor shows, and nothing else. */
  lemma CacheViews(open: seq<OpenEntry>, ctxs: Contexts, caches: Caches, owner: Owners,
                   live: set<Grant>, others: set<Grant>, fd: nat, y: Grant, bytes: Sector)
    requires TableOk(open, ctxs, caches, owner) && HeapOk(live, others, owner)
    requires fd < MAX_OPEN && open[fd].used && open[fd].file.ops == Some(PyOps)
    requires CacheOf(open[fd].file, ctxs) == NULL
    requires forall s :: (y.0, s) !in live
    ensures FdOk(open[fd], ctxs, caches, owner, fd)
    ensures var ctx := open[fd].file.ctx;
            var ptr := y.0 + HEADER;
            var ctxs' := ctxs[ctx := ctxs[ctx].(cache := ptr)];
            && SameViews(open, ctxs, caches, open, ctxs', caches[ptr := bytes], fd)
            && ViewOf(open[fd], ctxs, caches).Opened?
            && ViewOf(open[fd], ctxs', caches[ptr := bytes]) == ViewOf(open[fd], ctxs, caches).(cached := Some(bytes))
  {
    assert FdOk(open[fd], ctxs, caches, owner, fd);
    var ctx := open[fd].file.ctx;
    var ctxs' := ctxs[ctx := ctxs[ctx].(cache := y.0 + HEADER)];
    forall g | 0 <= g < MAX_OPEN && g != fd
      ensures ViewOf(open[g], ctxs', caches[y.0 + HEADER := bytes]) == ViewOf(open[g], ctxs, caches)
    {
      assert FdOk(open[g], ctxs, caches, owner, g);
      if open[g].used {
        OwnedApart(owner, live, others, fd, g, ctx, open[g].file.ctx);
      }
      NewPointerKeepsViews(open, ctxs, caches, owner, live, others, g, y, ctxs[ctx], bytes);
    }
  }
}
