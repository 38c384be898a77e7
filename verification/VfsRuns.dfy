/**
  Whole runs of `vfs_open`, `vfs_read` and `vfs_close` on the descriptor table: what one
  descriptor shows does not depend on the calls made on the others.
 */
module VfsRuns {
  import opened Machine
  import opened HeapSpec
  import opened HeapRuns
  import opened HeapClient
  import opened Blocks
  import opened Files
  import opened Mounts
  import opened Vfs
  import opened FileReads

  datatype Call =
    | OpenCall(path: string, flags: nat)
    | ReadCall(fd: nat, hasBuffer: bool, size: nat, io: Io, junk: Sector)
    | CloseCall(fd: nat)

  /** A call, its return code, the descriptor it was about and the bytes it returned. */
  datatype Event = Event(call: Call, rc: Rc, fd: nat, data: seq<Byte>)

  /** What all descriptors show. */
  type Views = vs: seq<View> | |vs| == MAX_OPEN witness seq(MAX_OPEN, _ => Closed)

  /** The state of a run: what the descriptors show, and the heap's block list. */
  datatype State = State(shown: Views, bs: seq<Block>)

  /** What no call changes: the mounts and the registered devices. */
  datatype World = World(mounts: seq<Option<Entry>>, devices: seq<Device>)

  ghost predicate OthersSame(vs: Views, vs': Views, fd: nat) {
    forall g :: 0 <= g < MAX_OPEN && g != fd ==> vs'[g] == vs[g]
  }

  ghost predicate AllOpen(vs: Views) {
    forall g :: 0 <= g < MAX_OPEN ==> vs[g].Opened?
  }

  /** `vfs_open` of a path that the mount at `mount` takes, with the rest `rel`. */
  ghost predicate OpenedAt(w: World, s: State, s': State, e: Event, mount: nat, rel: string)
    requires e.call.OpenCall?
  {
    && Longest(w.mounts, e.call.path, mount) && Splits(w.mounts[mount].value.mountpoint, rel, e.call.path)
    && var fs, full := w.mounts[mount].value.fs, AllOpen(s.shown);
    && var t := Names(w.devices, fs, rel);
    && (e.rc == NotSupported <==> !full && Refuses(fs, e.call.flags))
    && (e.rc == NotFound <==> !full && !Refuses(fs, e.call.flags) && t.None?)
    && (e.rc == Ok <==> !full && !Refuses(fs, e.call.flags) && t.Some? && RoomFor(t.value, s.bs))
    && (e.rc == Ok || e.rc == NotSupported || e.rc == NotFound || e.rc == NoSpace)
    && (e.rc == Ok ==>
          && e.fd < MAX_OPEN && s.shown[e.fd].Closed? && (forall g :: 0 <= g < e.fd ==> s.shown[g].Opened?)
          && s'.shown[e.fd] == Opened(t.value.ops, 0, t.value.dev, None)
          && s'.bs == Malloc(s.bs, CtxSize(t.value)))
  }

  ghost predicate OpenDone(w: World, s: State, s': State, e: Event)
    requires e.call.OpenCall?
  {
    && (e.rc != Ok ==> s' == s)
    && if e.call.path == "" || e.call.path[0] != '/' then e.rc == InvalidParam
       else if NoMatch(w.mounts, |w.mounts|, e.call.path) then e.rc == NoMount
       else exists mount, rel :: OpenedAt(w, s, s', e, mount, rel)
  }

  ghost predicate ReadDone(s: State, s': State, e: Event)
    requires e.call.ReadCall?
  {
    var v := if e.fd < MAX_OPEN then s.shown[e.fd] else Closed;
    && e.fd == e.call.fd
    && s'.bs == HeapAfterRead(v, e.call.hasBuffer, s.bs)
    && (v.Opened? && (v.ops.BlockOps? || v.ops.PyOps?) ==> v.dev.Some?)
    && e.rc == (if v.Closed? then BadFd
                else if e.call.size > 0 && !e.call.hasBuffer then InvalidParam
                else ReadCode(v, e.call.hasBuffer, e.call.size, e.call.io, s.bs))
    && (v.Opened? && e.rc == Ok ==> ReadOk(v, s'.shown[e.fd], e.call.size, e.call.io, e.data))
    && (v.Opened? && e.rc != Ok ==> ReadFailed(v, s'.shown[e.fd], e.rc, e.call.io, e.call.junk))
    && (v.Closed? && e.fd < MAX_OPEN ==> s'.shown[e.fd] == v)
  }

  /** The `gone` allocations were freed and nothing else happened to the heap. */
  ghost predicate Freed(bs: seq<Block>, bs': seq<Block>, gone: set<Grant>) {
    WellFormed(bs') && gone <= Live(bs) && Live(bs') == Live(bs) - gone
  }

  ghost predicate CloseDone(s: State, s': State, e: Event)
    requires e.call.CloseCall?
  {
    var v := if e.fd < MAX_OPEN then s.shown[e.fd] else Closed;
    && e.fd == e.call.fd
    && e.rc == (if v.Closed? then BadFd else Ok)
    && (v.Closed? ==> s' == s)
    && (v.Opened? ==>
          && s'.shown[e.fd].Closed?
          && exists gone :: Freed(s.bs, s'.bs, gone) && |gone| == BlocksOf(v))
  }

  /** One call: its return code, what its descriptor shows after it, and its use of the heap, all exactly. */
  ghost predicate Next(w: World, s: State, s': State, e: Event) {
    && OthersSame(s.shown, s'.shown, e.fd)
    && match e.call
       case OpenCall(_, _) => OpenDone(w, s, s', e)
       case ReadCall(_, _, _, _, _) => ReadDone(s, s', e)
       case CloseCall(_) => CloseDone(s, s', e)
  }

  ghost predicate Trace(w: World, states: seq<State>, events: seq<Event>) {
    && |states| == |events| + 1
    && (forall i :: 0 <= i < |events| ==> NextAt(w, states, events, i))
  }

  ghost predicate NextAt(w: World, states: seq<State>, events: seq<Event>, i: nat)
    requires i < |events| && i + 1 < |states|
  {
    Next(w, states[i], states[i + 1], events[i])
  }

  // ----- on the table -----------------------------------------------------------------

  ghost function Show(open: seq<OpenEntry>, ctxs: Contexts, caches: Caches): Views {
    seq(MAX_OPEN, fd requires 0 <= fd => if fd < |open| then ViewOf(open[fd], ctxs, caches) else Closed)
  }

  ghost function StateOf(fs: FileSystem): (s: State)
    reads fs, fs.heap
    ensures forall fd: nat :: fd < MAX_OPEN ==> s.shown[fd] == fs.ViewFd(fd)
  {
    State(Show(fs.open, fs.ctxs, fs.caches), fs.heap.blocks)
  }

  ghost function WorldOf(fs: FileSystem): World
    reads fs.mounts, fs.mounts.slots, fs.registry
  {
    World(fs.mounts.View(), fs.registry.devices)
  }

  ghost predicate AllClosed(vs: Views) {
    forall fd :: 0 <= fd < MAX_OPEN ==> vs[fd].Closed?
  }

  lemma ShowSame(open: seq<OpenEntry>, ctxs: Contexts, caches: Caches, open': seq<OpenEntry>, ctxs': Contexts,
                 caches': Caches, fd: nat)
    requires SameViews(open, ctxs, caches, open', ctxs', caches', fd)
    ensures OthersSame(Show(open, ctxs, caches), Show(open', ctxs', caches'), fd)
  {
  }

  /** A descriptor is in use exactly when it shows a file. */
  lemma UsedShown(fs: FileSystem)
    requires fs.Valid()
    ensures |fs.open| == MAX_OPEN
    ensures forall fd :: 0 <= fd < MAX_OPEN ==> (fs.open[fd].used <==> fs.ViewFd(fd).Opened?)
    ensures fs.AllInUse() <==> AllOpen(StateOf(fs).shown)
  {
    forall fd | 0 <= fd < MAX_OPEN
      ensures fs.open[fd].used <==> fs.ViewFd(fd).Opened?
    {
      assert FdOk(fs.open[fd], fs.ctxs, fs.caches, fs.owner, fd);
    }
  }

  method PerformOpen(fs: FileSystem, path: string, flags: nat) returns (e: Event)
    requires fs.Valid()
    modifies fs.heap, fs`open, fs`ctxs, fs`caches, fs`owner
    ensures fs.Valid() && e.call == OpenCall(path, flags) && WorldOf(fs) == old(WorldOf(fs))
    ensures Next(WorldOf(fs), old(StateOf(fs)), StateOf(fs), e)
  {
    UsedShown(fs);
    assert |fs.mounts.View()| == MAX_MOUNTS;
    hide FileSystem.Valid, SameViews, Longest, NoMatch, Splits, RoomFor, Malloc, Names, FileSystem.AllInUse, AllOpen;
    ghost var s, open0, ctxs0, caches0 := StateOf(fs), fs.open, fs.ctxs, fs.caches;
    var rc, fd;
    ghost var mount, rel;
    rc, fd, mount, rel := fs.Open(path, flags);
    e := Event(OpenCall(path, flags), rc, fd, []);
    if rc == Ok {
      ShowSame(open0, ctxs0, caches0, fs.open, fs.ctxs, fs.caches, fd);
    }
    assert rc != InvalidParam && rc != NoMount ==> OpenedAt(WorldOf(fs), s, StateOf(fs), e, mount, rel);
  }

  method PerformRead(fs: FileSystem, call: Call) returns (e: Event)
    requires fs.Valid() && call.ReadCall? && call.size < U32
    modifies fs.heap, fs`open, fs`ctxs, fs`caches, fs`owner
    ensures fs.Valid() && e.call == call && WorldOf(fs) == old(WorldOf(fs))
    ensures Next(WorldOf(fs), old(StateOf(fs)), StateOf(fs), e)
  {
    UsedShown(fs);
    hide FileSystem.Valid, SameViews, ReadOk, ReadFailed, ReadCode, HeapAfterRead;
    ghost var open0, ctxs0, caches0 := fs.open, fs.ctxs, fs.caches;
    var rc, data := fs.ReadFile(call.fd, call.hasBuffer, call.size, call.io, call.junk);
    ShowSame(open0, ctxs0, caches0, fs.open, fs.ctxs, fs.caches, call.fd);
    e := Event(call, rc, call.fd, data);
  }

  method PerformClose(fs: FileSystem, fd: nat) returns (e: Event)
    requires fs.Valid()
    modifies fs.heap, fs`open, fs`ctxs, fs`caches, fs`owner
    ensures fs.Valid() && e.call == CloseCall(fd) && WorldOf(fs) == old(WorldOf(fs))
    ensures Next(WorldOf(fs), old(StateOf(fs)), StateOf(fs), e)
  {
    UsedShown(fs);
    hide SameViews, GrantsOf, BlocksOf, TableOk, HeapOk, Live;
    ghost var open0, ctxs0, caches0, bs0, gone := fs.open, fs.ctxs, fs.caches, fs.heap.blocks, GrantsOf(fs.owner, fd);
    var rc := fs.Close(fd);
    ShowSame(open0, ctxs0, caches0, fs.open, fs.ctxs, fs.caches, fd);
    e := Event(CloseCall(fd), rc, fd, []);
    assert rc == Ok ==> Freed(bs0, fs.heap.blocks, gone);
  }

  /** One call on the table is one `Next`. */
  method Perform(fs: FileSystem, call: Call) returns (e: Event)
    requires fs.Valid() && (call.ReadCall? ==> call.size < U32)
    modifies fs.heap, fs`open, fs`ctxs, fs`caches, fs`owner
    ensures fs.Valid() && e.call == call && WorldOf(fs) == old(WorldOf(fs))
    ensures Next(WorldOf(fs), old(StateOf(fs)), StateOf(fs), e)
  {
    hide FileSystem.Valid, Next, StateOf, WorldOf;
    match call {
      case OpenCall(path, flags) => e := PerformOpen(fs, path, flags);
      case ReadCall(_, _, _, _, _) => e := PerformRead(fs, call);
      case CloseCall(fd) => e := PerformClose(fs, fd);
    }
  }

  /** With all descriptors closed the heap is as the table found it. */
  lemma ClosedRestores(fs: FileSystem)
    requires fs.Valid() && AllClosed(StateOf(fs).shown)
    ensures fs.heap.blocks == fs.blocks0
  {
    UsedShown(fs);
    fs.AllClosedRestores();
  }

  /**
    A whole run of calls on the table: the state goes through a `Trace` of exactly these
    calls, and a run that begins and ends with all descriptors closed leaves the heap's
    block list as it was.
   */
  method PerformAll(fs: FileSystem, calls: seq<Call>) returns (events: seq<Event>, ghost states: seq<State>)
    requires fs.Valid() && (forall i :: 0 <= i < |calls| && calls[i].ReadCall? ==> calls[i].size < U32)
    modifies fs.heap, fs`open, fs`ctxs, fs`caches, fs`owner
    ensures fs.Valid() && WorldOf(fs) == old(WorldOf(fs)) && Trace(WorldOf(fs), states, events)
    ensures states[0] == old(StateOf(fs)) && states[|events|] == StateOf(fs)
    ensures |events| == |calls| && (forall i :: 0 <= i < |calls| ==> events[i].call == calls[i])
    ensures AllClosed(states[0].shown) && AllClosed(states[|events|].shown) ==>
              fs.heap.blocks == old(fs.heap.blocks)
  {
    ghost var w, blocks := WorldOf(fs), fs.heap.blocks;
    if AllClosed(StateOf(fs).shown) {
      ClosedRestores(fs);
    }
    hide FileSystem.Valid, Next, StateOf, WorldOf, AllClosed;
    events, states := [], [StateOf(fs)];
    for i := 0 to |calls|
      invariant fs.Valid() && |events| == i && WorldOf(fs) == w && Trace(w, states, events)
      invariant states[0] == old(StateOf(fs)) && states[i] == StateOf(fs)
      invariant forall j :: 0 <= j < i ==> events[j].call == calls[j]
    {
      var e := Perform(fs, calls[i]);
      TraceGrows(w, states, events, StateOf(fs), e);
      events, states := events + [e], states + [StateOf(fs)];
    }
    if AllClosed(StateOf(fs).shown) {
      ClosedRestores(fs);
    }
  }

  lemma TraceGrows(w: World, states: seq<State>, events: seq<Event>, s: State, e: Event)
    requires Trace(w, states, events) && Next(w, states[|events|], s, e)
    ensures Trace(w, states + [s], events + [e])
  {
    forall i | 0 <= i < |events| + 1
      ensures NextAt(w, states + [s], events + [e], i)
    {
      if i < |events| {
        assert NextAt(w, states, events, i);
      }
    }
  }

  // ----- one descriptor among many ------------------------------------------------------

  predicate ReadsFrom(e: Event, fd: nat) { e.call.ReadCall? && e.fd == fd }

  /** The successful reads of `fd` among events [i, j). */
  function StepsOf(events: seq<Event>, fd: nat, i: nat, j: nat): seq<Step>
    requires i <= j <= |events|
  {
    if i == j then []
    else StepsOf(events, fd, i, j - 1) +
         if ReadsFrom(events[j - 1], fd) && events[j - 1].rc == Ok
         then [Step(events[j - 1].call.size, events[j - 1].call.io, events[j - 1].data)] else []
  }

  /** What `fd` shows around them. */
  ghost function ViewsOf(states: seq<State>, events: seq<Event>, fd: nat, i: nat, j: nat): seq<View>
    requires i <= j <= |events| < |states| && fd < MAX_OPEN
  {
    if i == j then [states[i].shown[fd]]
    else ViewsOf(states, events, fd, i, j - 1) +
         if ReadsFrom(events[j - 1], fd) && events[j - 1].rc == Ok then [states[j].shown[fd]] else []
  }

  /**
    In events [i, j), descriptor `fd` is neither opened nor closed, no PyFS read of it
    meets a device error, and the devices deliver what they hold.
   */
  ghost predicate Steady(states: seq<State>, events: seq<Event>, fd: nat, i: nat, j: nat, content: Content)
    requires i <= j <= |events| < |states| && fd < MAX_OPEN
  {
    forall k :: i <= k < j && events[k].fd == fd ==> SteadyAt(states[k].shown[fd], events[k], content)
  }

  ghost predicate SteadyAt(v: View, e: Event, content: Content) {
    if e.call.ReadCall? then
      Truthful(e.call.io, content) && (e.rc == Io ==> !(v.Opened? && v.ops.PyOps?))
    else
      e.call.OpenCall? && e.rc != Ok
  }

  /**
    Whatever the calls on other descriptors are, the successful reads of one descriptor
    are a sequence of reads as FileReads studies them.
   */
  lemma {:induction false} ReadsOf(w: World, states: seq<State>, events: seq<Event>, fd: nat, i: nat, j: nat,
                                  content: Content)
    requires Trace(w, states, events) && i <= j <= |events| && fd < MAX_OPEN
    requires Steady(states, events, fd, i, j, content)
    ensures var views, steps := ViewsOf(states, events, fd, i, j), StepsOf(events, fd, i, j);
            && Reads(views, steps, content)
            && views[0] == states[i].shown[fd] && views[|steps|] == states[j].shown[fd]
    decreases j
  {
    if i < j {
      ReadsOf(w, states, events, fd, i, j - 1, content);
      assert |ViewsOf(states, events, fd, i, j - 1)| == |StepsOf(events, fd, i, j - 1)| + 1;
      hide ReadOk, Truthful, Reads;
      assert NextAt(w, states, events, j - 1);
      var e := events[j - 1];
      if e.fd == fd {
        assert SteadyAt(states[j - 1].shown[fd], e, content);
        if e.call.ReadCall? && e.rc == Ok {
          ReadsGrow(ViewsOf(states, events, fd, i, j - 1), StepsOf(events, fd, i, j - 1), content,
                    Step(e.call.size, e.call.io, e.data), states[j].shown[fd]);
        }
      }
    }
  }

  lemma ReadsGrow(views: seq<View>, steps: seq<Step>, content: Content, s: Step, v: View)
    requires Reads(views, steps, content) && Truthful(s.io, content) && Sound(views[|steps|], v, s)
    ensures Reads(views + [v], steps + [s], content)
  {
  }

  /** Interleaved with anything else, the reads of a PyFS descriptor add up to one read of the superblock. */
  lemma InterleavedPyReads(w: World, states: seq<State>, events: seq<Event>, fd: nat, i: nat, j: nat, content: Content)
    requires Trace(w, states, events) && i <= j <= |events| && fd < MAX_OPEN
    requires Steady(states, events, fd, i, j, content) && TrueCache(states[i].shown[fd], content)
    ensures var steps := StepsOf(events, fd, i, j);
            var v := states[i].shown[fd];
            Received(steps) == SectorSlice(content(v.dev.value, 0), v.pos, Asked(steps))
  {
    ReadsOf(w, states, events, fd, i, j, content);
    PyReadsConcatenate(ViewsOf(states, events, fd, i, j), StepsOf(events, fd, i, j), content);
  }

  /** The reads of a device node return contiguous bytes of the device, whatever happens in between. */
  lemma InterleavedDeviceReads(w: World, states: seq<State>, events: seq<Event>, fd: nat, i: nat, j: nat,
                               content: Content, dev: Device)
    requires Trace(w, states, events) && i <= j <= |events| && fd < MAX_OPEN
    requires Steady(states, events, fd, i, j, content) && OnDevice(states[i].shown[fd], dev)
    requires StartsBelow4G(states[i].shown[fd].pos, StepsOf(events, fd, i, j))
    ensures var steps := StepsOf(events, fd, i, j);
            |Received(steps)| == Asked(steps) && StreamIs(Received(steps), content, dev, states[i].shown[fd].pos)
  {
    ReadsOf(w, states, events, fd, i, j, content);
    DeviceReadsConcatenate(ViewsOf(states, events, fd, i, j), StepsOf(events, fd, i, j), content, dev);
  }
}
