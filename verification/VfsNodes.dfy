/**
  What the names of DevFS and PyFS give a program that opens and reads them
  (kernel/fs/devfs.c and pyfs.c): `null`, `zero`, the registered disks, `superblock`.
 */
module VfsNodes {
  import opened Machine
  import opened HeapRuns
  import opened Blocks
  import opened Files
  import opened Mounts
  import opened Vfs
  import opened FileReads
  import opened VfsRuns

  /** `path` is `rel` behind the mountpoint at `mount`, and no other mount is closer. */
  ghost predicate Under(w: World, path: string, mount: nat, rel: string) {
    && Longest(w.mounts, path, mount)
    && path == (if w.mounts[mount].value.mountpoint == "/" then "/" else w.mounts[mount].value.mountpoint + "/") + rel
  }

  /** What an open finds is decided by the mount and the rest of the path. */
  lemma OpenFinds(w: World, s: State, s': State, e: Event, mount: nat, rel: string)
    requires Next(w, s, s', e) && e.call.OpenCall? && Under(w, e.call.path, mount, rel)
    requires e.call.path[0] == '/'
    ensures OpenedAt(w, s, s', e, mount, rel)
  {
    assert !NoMatch(w.mounts, |w.mounts|, e.call.path);
    var m, r :| OpenedAt(w, s, s', e, m, r);
    assert m == mount;
    SplitUnique(w.mounts[mount].value.mountpoint, r, rel, e.call.path);
  }

  /** Descriptor `fd`, just opened or read since, is on the node `rel` of `fs`. */
  ghost predicate OnNode(w: World, fs: Fs, rel: string, v: View) {
    && v.Opened?
    && (fs.DevFs? && rel == "null" ==> v.ops.NullOps?)
    && (fs.DevFs? && rel == "zero" ==> v.ops.ZeroOps?)
    && (forall d :: fs.DevFs? && d in w.devices && d.name == rel && "disk" <= rel ==>
          v.ops.BlockOps? && v.dev == Some(d))
    && (forall d :: fs == PyFs(d) && rel == "superblock" ==> v.ops.PyOps? && v.dev == Some(d))
  }

  lemma DiskFound(devices: seq<Device>, d: Device, rel: string)
    requires UniqueNames(devices) && d in devices && d.name == rel && "disk" <= rel
    ensures Names(devices, DevFs, rel) == Some(Target(BlockOps, Some(d)))
  {
    assert rel[0] == 'd';
    LookupUnique(devices, rel, d);
  }

  lemma OpenedOnNode(w: World, s: State, s': State, e: Event, mount: nat, rel: string)
    requires UniqueNames(w.devices) && e.call.OpenCall? && OpenedAt(w, s, s', e, mount, rel) && e.rc == Ok
    ensures e.fd < MAX_OPEN && s'.shown[e.fd].Opened? && s'.shown[e.fd].pos == 0 && s'.shown[e.fd].cached.None?
    ensures OnNode(w, w.mounts[mount].value.fs, rel, s'.shown[e.fd])
  {
    var fs, v := w.mounts[mount].value.fs, s'.shown[e.fd];
    forall d | fs.DevFs? && d in w.devices && d.name == rel && "disk" <= rel
      ensures v.ops.BlockOps? && v.dev == Some(d)
    {
      DiskFound(w.devices, d, rel);
    }
  }

  /** `fd` is not closed by any of the events [i, j). */
  predicate NotClosed(events: seq<Event>, fd: nat, i: nat, j: nat)
    requires i <= j <= |events|
  {
    forall k :: i <= k < j && events[k].fd == fd ==> !events[k].call.CloseCall?
  }

  /** No call but a close takes an open descriptor off its node. */
  lemma {:induction false} NodeStays(w: World, states: seq<State>, events: seq<Event>, fd: nat, i: nat, j: nat,
                                    fs: Fs, rel: string)
    requires Trace(w, states, events) && i <= j <= |events| && fd < MAX_OPEN
    requires OnNode(w, fs, rel, states[i].shown[fd]) && NotClosed(events, fd, i, j)
    ensures OnNode(w, fs, rel, states[j].shown[fd])
    decreases j
  {
    if i < j {
      NodeStays(w, states, events, fd, i, j - 1, fs, rel);
      assert NextAt(w, states, events, j - 1);
      var v, v' := states[j - 1].shown[fd], states[j].shown[fd];
      NodeStep(w, states[j - 1], states[j], events[j - 1], fd);
      hide Next;
      assert v'.Opened? && v'.ops == v.ops && v'.dev == v.dev;
    }
  }

  lemma NodeStep(w: World, s: State, s': State, e: Event, fd: nat)
    requires Next(w, s, s', e) && fd < MAX_OPEN && s.shown[fd].Opened?
    requires e.fd == fd ==> !e.call.CloseCall?
    ensures s'.shown[fd].Opened? && s'.shown[fd].ops == s.shown[fd].ops && s'.shown[fd].dev == s.shown[fd].dev
  {
  }

  /** Byte `x` of a device at the moment of a read. */
  ghost predicate DeviceByte(d: Device, io: Io, x: nat, b: Byte) {
    var r := Read(d, x / 512, io);
    r.Some? && r.value[x % 512] == b
  }

  /**
    A read, event `j`, of a descriptor that event `i` opened and nothing closed since, in any
    run: `null` always reads nothing, `zero` reads exactly as many zeros as asked for, and
    both succeed with any buffer; a registered disk reads the bytes of that disk from the
    descriptor's position on.
   */
  lemma NodeReads(w: World, states: seq<State>, events: seq<Event>, i: nat, j: nat, mount: nat, rel: string)
    requires Trace(w, states, events) && UniqueNames(w.devices) && i < j < |events|
    requires events[i].call.OpenCall? && events[i].rc == Ok && "/" <= events[i].call.path
    requires Under(w, events[i].call.path, mount, rel) && w.mounts[mount].value.fs.DevFs?
    requires NotClosed(events, events[i].fd, i + 1, j)
    requires events[j].call.ReadCall? && events[j].call.fd == events[i].fd
    ensures var e := events[j];
            rel == "null" && e.call.hasBuffer ==> e.rc == Ok && e.data == []
    ensures var e := events[j];
            rel == "zero" && e.call.hasBuffer ==>
              e.rc == Ok && |e.data| == e.call.size && (forall k :: 0 <= k < |e.data| ==> e.data[k] == 0)
    ensures var e := events[j];
            events[i].fd < MAX_OPEN &&
            forall d :: d in w.devices && d.name == rel && "disk" <= rel && e.rc == Ok ==>
              && states[j].shown[e.call.fd].Opened? && |e.data| == e.call.size
              && var pos := states[j].shown[e.call.fd].pos;
                 forall k :: 0 <= k < |e.data| ==> DeviceByte(d, e.call.io, pos + k, e.data[k])
  {
    OpenedBefore(w, states, events, i, j, mount, rel);
    assert NextAt(w, states, events, j);
    ReadOnNode(w, states[j], states[j + 1], events[j], rel);
  }

  lemma OpenedBefore(w: World, states: seq<State>, events: seq<Event>, i: nat, j: nat, mount: nat, rel: string)
    requires Trace(w, states, events) && UniqueNames(w.devices) && i < j < |events|
    requires events[i].call.OpenCall? && events[i].rc == Ok && "/" <= events[i].call.path
    requires Under(w, events[i].call.path, mount, rel) && NotClosed(events, events[i].fd, i + 1, j)
    ensures events[i].fd < MAX_OPEN && OnNode(w, w.mounts[mount].value.fs, rel, states[j].shown[events[i].fd])
    ensures var v := states[i + 1].shown[events[i].fd]; v.Opened? && v.pos == 0 && v.cached.None?
    ensures OnNode(w, w.mounts[mount].value.fs, rel, states[i + 1].shown[events[i].fd])
  {
    assert NextAt(w, states, events, i);
    assert events[i].call.path[0] == "/"[0];
    hide Next, Under, OnNode, NotClosed;
    OpenFinds(w, states[i], states[i + 1], events[i], mount, rel);
    OpenedOnNode(w, states[i], states[i + 1], events[i], mount, rel);
    NodeStays(w, states, events, events[i].fd, i + 1, j, w.mounts[mount].value.fs, rel);
  }

  lemma ReadOnNode(w: World, s: State, s': State, e: Event, rel: string)
    requires Next(w, s, s', e) && e.call.ReadCall? && e.fd < MAX_OPEN && OnNode(w, DevFs, rel, s.shown[e.fd])
    ensures rel == "null" && e.call.hasBuffer ==> e.rc == Ok && e.data == []
    ensures rel == "zero" && e.call.hasBuffer ==>
              e.rc == Ok && |e.data| == e.call.size && (forall k :: 0 <= k < |e.data| ==> e.data[k] == 0)
    ensures forall d :: d in w.devices && d.name == rel && "disk" <= rel && e.rc == Ok ==>
              && |e.data| == e.call.size
              && (forall k :: 0 <= k < |e.data| ==> DeviceByte(d, e.call.io, s.shown[e.fd].pos + k, e.data[k]))
  {
    var v := s.shown[e.fd];
    forall d | d in w.devices && d.name == rel && "disk" <= rel && e.rc == Ok
      ensures |e.data| == e.call.size
      ensures forall k :: 0 <= k < |e.data| ==> DeviceByte(d, e.call.io, v.pos + k, e.data[k])
    {
      forall k | 0 <= k < |e.data|
        ensures DeviceByte(d, e.call.io, v.pos + k, e.data[k])
      {
        SectorOffset(v.pos, k);
        assert Read(d, v.pos / 512 + k / 512, e.call.io).Some?;
      }
    }
  }

  /** Reads of a PyFS descriptor keep to its sector and to a cache that is what the device holds. */
  lemma {:induction false} CacheTrue(w: World, states: seq<State>, events: seq<Event>, fd: nat, i: nat, j: nat,
                                    content: Content)
    requires Trace(w, states, events) && i <= j <= |events| && fd < MAX_OPEN
    requires TrueCache(states[i].shown[fd], content) && Steady(states, events, fd, i, j, content)
    ensures TrueCache(states[j].shown[fd], content) && states[j].shown[fd].dev == states[i].shown[fd].dev
    decreases j
  {
    if i < j {
      CacheTrue(w, states, events, fd, i, j - 1, content);
      assert NextAt(w, states, events, j - 1);
      if events[j - 1].fd == fd {
        assert SteadyAt(states[j - 1].shown[fd], events[j - 1], content);
        CacheReadStep(w, states[j - 1], states[j], events[j - 1], content);
      }
    }
  }

  lemma CacheReadStep(w: World, s: State, s': State, e: Event, content: Content)
    requires Next(w, s, s', e) && e.fd < MAX_OPEN && TrueCache(s.shown[e.fd], content)
    requires SteadyAt(s.shown[e.fd], e, content)
    ensures TrueCache(s'.shown[e.fd], content) && s'.shown[e.fd].dev == s.shown[e.fd].dev
    ensures e.call.ReadCall? && e.rc == Ok ==>
              e.data == SectorSlice(content(s.shown[e.fd].dev.value, 0), s.shown[e.fd].pos, e.call.size)
  {
  }

  /**
    A read of PyFS's `superblock`, event `j`, since its open, event `i`, in any run without a
    device error on that descriptor: it returns the bytes of sector 0 of the mounted device
    from the position on, as many as asked for or as are left of the 512.
   */
  lemma SuperblockReads(w: World, states: seq<State>, events: seq<Event>, i: nat, j: nat, mount: nat, dev: Device,
                        content: Content)
    requires Trace(w, states, events) && UniqueNames(w.devices) && i < j < |events|
    requires events[i].call.OpenCall? && events[i].rc == Ok && "/" <= events[i].call.path
    requires Under(w, events[i].call.path, mount, "superblock") && w.mounts[mount].value.fs == PyFs(dev)
    requires events[i].fd < MAX_OPEN && Steady(states, events, events[i].fd, i + 1, j + 1, content)
    requires events[j].call.ReadCall? && events[j].call.fd == events[i].fd && events[j].rc == Ok
    ensures var e := events[j];
            && states[j].shown[e.call.fd].Opened?
            && var pos := states[j].shown[e.call.fd].pos;
            && pos <= 512
            && |e.data| == (if e.call.size < 512 - pos then e.call.size else 512 - pos)
            && (forall k :: 0 <= k < |e.data| ==> e.data[k] == content(dev, 0)[pos + k])
  {
    var fd := events[i].fd;
    assert NotClosed(events, fd, i + 1, j) by {
      forall k | i + 1 <= k < j && events[k].fd == fd
        ensures !events[k].call.CloseCall?
      {
        assert SteadyAt(states[k].shown[fd], events[k], content);
      }
    }
    OpenedBefore(w, states, events, i, j, mount, "superblock");
    assert TrueCache(states[i + 1].shown[fd], content);
    assert Steady(states, events, fd, i + 1, j, content);
    hide Under, OnNode, NotClosed;
    CacheTrue(w, states, events, fd, i + 1, j, content);
    assert NextAt(w, states, events, j);
    assert SteadyAt(states[j].shown[fd], events[j], content);
    CacheReadStep(w, states[j], states[j + 1], events[j], content);
  }

  /**
    What opens: with a descriptor free and no write flag, `null`, `zero` and every registered
    disk do whenever the heap has room for 8 bytes, `superblock` for 12; with the write flag
    nothing does, and neither does any other name.
   */
  lemma NodeOpens(w: World, s: State, s': State, e: Event, mount: nat, rel: string)
    requires Next(w, s, s', e) && e.call.OpenCall? && UniqueNames(w.devices) && "/" <= e.call.path
    requires Under(w, e.call.path, mount, rel) && (exists fd :: 0 <= fd < 32 && s.shown[fd].Closed?)
    ensures var fs := w.mounts[mount].value.fs;
            var disk := exists d :: d in w.devices && d.name == rel && "disk" <= rel;
            && (!fs.NullFs? && e.call.flags % 4 >= 2 ==> e.rc == NotSupported)
            && (fs.DevFs? && e.call.flags % 4 < 2 && (rel == "null" || rel == "zero" || disk) ==>
                  e.rc == if Room(s.bs, 8) then Ok else NoSpace)
            && (fs.DevFs? && e.call.flags % 4 < 2 && !(rel == "null" || rel == "zero" || disk) ==> e.rc == NotFound)
            && (fs.PyFs? && e.call.flags % 4 < 2 ==>
                  e.rc == if rel != "superblock" then NotFound else if Room(s.bs, 12) then Ok else NoSpace)
            && (fs.NullFs? ==> e.rc == NotFound)
  {
    assert e.call.path[0] == "/"[0];
    assert !AllOpen(s.shown);
    hide Next, Under, Room;
    OpenFinds(w, s, s', e, mount, rel);
    FlagBit(e.call.flags);
    LookupFinds(w.devices, rel);
    if d :| d in w.devices && d.name == rel && "disk" <= rel {
      DiskFound(w.devices, d, rel);
    }
  }

  lemma FlagBit(flags: nat)
    ensures WantsWrite(flags) <==> flags % 4 >= 2
  {
  }

  /** A read as a program asks for it: whether it has a buffer, the size, and what the devices answer. */
  datatype Request = Request(hasBuffer: bool, size: nat, io: Io, junk: Sector)

  function CallOf(fd: nat, r: Request): Call { ReadCall(fd, r.hasBuffer, r.size, r.io, r.junk) }

  /**
    Opening a name of DevFS on the table and reading the descriptor any number of times:
    `null` reads nothing every time, `zero` as many zeros as asked for.
   */
  method OpenAndRead(fs: FileSystem, path: string, requests: seq<Request>, ghost mount: nat, ghost rel: string)
      returns (first: Event, results: seq<Event>)
    requires fs.Valid() && "/" <= path && (forall k :: 0 <= k < |requests| ==> requests[k].size < U32)
    requires Under(WorldOf(fs), path, mount, rel) && WorldOf(fs).mounts[mount].value.fs.DevFs?
    modifies fs.heap, fs`open, fs`ctxs, fs`caches, fs`owner
    ensures fs.Valid() && |results| == if first.rc == Ok then |requests| else 0
    ensures forall k :: 0 <= k < |results| ==>
              && results[k].call.ReadCall? && results[k].call.size == requests[k].size
              && results[k].call.hasBuffer == requests[k].hasBuffer
    ensures rel == "null" ==> forall k :: 0 <= k < |results| && requests[k].hasBuffer ==>
              results[k].rc == Ok && results[k].data == []
    ensures rel == "zero" ==> forall k :: 0 <= k < |results| && requests[k].hasBuffer ==>
              && results[k].rc == Ok && |results[k].data| == requests[k].size
              && (forall b :: b in results[k].data ==> b == 0)
  {
    assert UniqueNames(fs.registry.devices);
    hide FileSystem.Valid, Next, StateOf, WorldOf, Under, Trace;
    ghost var w, s := WorldOf(fs), StateOf(fs);
    first := Perform(fs, OpenCall(path, 0));
    results := [];
    if first.rc != Ok {
      return;
    }
    var calls := seq(|requests|, k requires 0 <= k < |requests| => CallOf(first.fd, requests[k]));
    ghost var states;
    results, states := PerformAll(fs, calls);
    ReadsOfNode(w, s, first, states, results, requests, mount, rel);
  }

  lemma TraceJoins(w: World, s: State, e: Event, states: seq<State>, events: seq<Event>)
    requires Trace(w, states, events) && Next(w, s, states[0], e)
    ensures Trace(w, [s] + states, [e] + events)
  {
    forall i | 0 <= i < |events| + 1
      ensures NextAt(w, [s] + states, [e] + events, i)
    {
      if i > 0 {
        assert NextAt(w, states, events, i - 1);
      }
    }
  }

  lemma ReadsOfNode(w: World, s: State, first: Event, states: seq<State>, results: seq<Event>, requests: seq<Request>,
                    mount: nat, rel: string)
    requires UniqueNames(w.devices) && Trace(w, states, results) && Next(w, s, states[0], first)
    requires first.call.OpenCall? && first.rc == Ok && "/" <= first.call.path && |results| == |requests|
    requires Under(w, first.call.path, mount, rel) && w.mounts[mount].value.fs.DevFs?
    requires forall k :: 0 <= k < |requests| ==> results[k].call == CallOf(first.fd, requests[k])
    ensures rel == "null" ==> forall k :: 0 <= k < |results| && requests[k].hasBuffer ==>
              results[k].rc == Ok && results[k].data == []
    ensures rel == "zero" ==> forall k :: 0 <= k < |results| && requests[k].hasBuffer ==>
              && results[k].rc == Ok && |results[k].data| == requests[k].size
              && (forall b :: b in results[k].data ==> b == 0)
  {
    TraceJoins(w, s, first, states, results);
    var events := [first] + results;
    hide Next, Under, Trace;
    forall k | 0 <= k < |results|
      ensures rel == "null" && requests[k].hasBuffer ==> results[k].rc == Ok && results[k].data == []
      ensures rel == "zero" && requests[k].hasBuffer ==>
                && results[k].rc == Ok && |results[k].data| == requests[k].size
                && (forall b :: b in results[k].data ==> b == 0)
    {
      assert events[k + 1] == results[k];
      forall n | 1 <= n < k + 1
        ensures !events[n].call.CloseCall?
      {
        assert events[n] == results[n - 1];
      }
      NodeReads(w, [s] + states, events, 0, k + 1, mount, rel);
    }
  }
}
