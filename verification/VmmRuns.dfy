/**
  Whole runs of `vmm_map` and `vmm_alloc_page`. The contracts of Vmm.AddressSpace
  say that a successful call is one `Remapped` step; here the steps are chained.
 */
module VmmRuns {
  import opened Machine
  import opened Frames
  import opened Paging
  import opened Vmm
  import P = Pmm

  /** A successful call: `vmm_map`, or `vmm_alloc_page`, which first takes the lowest free frame. */
  datatype Call = Call(page: Frame, frame: Frame, allocates: bool)

  datatype State = State(mem: Memory, used: seq<bool>)

  /** The frame map when the page table is looked up. */
  function Before(used: seq<bool>, allocates: bool): (u: seq<bool>)
    ensures |u| == |used|
  {
    if allocates then AfterPage(used) else used
  }

  ghost predicate Step(s: State, s': State, pd: Frame, c: Call) {
    && (c.allocates ==> P.AllocAddress(s.used) == c.frame * PAGE_SIZE > 0)
    && Remapped(s.mem, s'.mem, pd, Before(s.used, c.allocates), s'.used, c.page, c.frame)
  }

  /** The invariant of the address space: sound tables, and low memory mapped onto itself. */
  ghost predicate Good(s: State, pd: Frame) {
    Structure(s.mem, pd, s.used) && LowIdentity(s.mem, pd)
  }

  ghost predicate Run(states: seq<State>, calls: seq<Call>, pd: Frame) {
    && |states| == |calls| + 1
    && (forall i :: 0 <= i < |calls| ==> calls[i].page >= LOW_FRAMES)
    && (forall i :: 0 <= i < |calls| ==> StepAt(states, calls, pd, i))
  }

  ghost predicate StepAt(states: seq<State>, calls: seq<Call>, pd: Frame, i: nat)
    requires i < |calls| && i + 1 < |states|
  {
    Step(states[i], states[i + 1], pd, calls[i])
  }

  /** More frames in use keep the tables sound. */
  lemma SoundWider(ts: Directory, pd: Frame, used: seq<bool>, used': seq<bool>)
    requires Sound(ts, pd, used) && |used'| == |used| && (forall f :: 0 <= f < |used| && used[f] ==> used'[f])
    ensures Sound(ts, pd, used')
  {
  }

  /** A new table comes from a free low frame, so it collides with nothing. */
  lemma SoundWithTable(ts: Directory, pd: Frame, used: seq<bool>, d: nat)
    requires Sound(ts, pd, used) && d < ENTRIES
    ensures Sound(WithTable(ts, d, used), pd, AfterTable(ts, d, used))
  {
    FirstFreeSpec(used, 0, LowFrames(used));
  }

  lemma StepKeeps(s: State, s': State, pd: Frame, c: Call)
    requires Good(s, pd) && Step(s, s', pd, c) && c.page >= LOW_FRAMES
    ensures Good(s', pd)
    ensures forall d :: 0 <= d < ENTRIES && Tables(s.mem, pd)[d].Some? ==> Tables(s'.mem, pd)[d] == Tables(s.mem, pd)[d]
  {
    var u := Before(s.used, c.allocates);
    SoundWider(Tables(s.mem, pd), pd, s.used, u);
    SoundWithTable(Tables(s.mem, pd), pd, u, c.page / ENTRIES);
  }

  /**
    In every run on addresses at or above 4 MiB: low memory stays mapped onto itself,
    the directory and all present tables stay distinct frames in use below 4 MiB, and
    no table ever moves.
   */
  lemma {:induction false} RunKeeps(states: seq<State>, calls: seq<Call>, pd: Frame, n: nat)
    requires Run(states, calls, pd) && Good(states[0], pd) && n <= |calls|
    ensures Good(states[n], pd)
    ensures forall d :: 0 <= d < ENTRIES && Tables(states[0].mem, pd)[d].Some? ==>
              Tables(states[n].mem, pd)[d] == Tables(states[0].mem, pd)[d]
  {
    if n > 0 {
      RunKeeps(states, calls, pd, n - 1);
      assert StepAt(states, calls, pd, n - 1);
      StepKeeps(states[n - 1], states[n], pd, calls[n - 1]);
    }
  }

  /** What a page translates to after `n` calls: the last frame mapped there, else as before. */
  function LastMapped(calls: seq<Call>, n: nat, page: Frame, before: Option<Frame>): Option<Frame>
    requires n <= |calls|
  {
    if n == 0 then before
    else if calls[n - 1].page == page then Some(calls[n - 1].frame)
    else LastMapped(calls, n - 1, page, before)
  }

  /** The translation after a run is exactly the calls made, the last one winning. */
  lemma {:induction false} RunTranslates(states: seq<State>, calls: seq<Call>, pd: Frame, n: nat, page: Frame)
    requires Run(states, calls, pd) && n <= |calls|
    ensures Walk(states[n].mem, pd, page) == LastMapped(calls, n, page, Walk(states[0].mem, pd, page))
  {
    if n > 0 {
      RunTranslates(states, calls, pd, n - 1, page);
      assert StepAt(states, calls, pd, n - 1);
    }
  }

  /**
    Every table edit of a run is made through the table's own address, and in every
    state of the run that address translates to the table itself.
   */
  lemma TablesReachThemselves(states: seq<State>, calls: seq<Call>, pd: Frame, n: nat, d: nat)
    requires Run(states, calls, pd) && Good(states[0], pd) && n <= |calls|
    requires d < ENTRIES && Tables(states[n].mem, pd)[d].Some?
    ensures Walk(states[n].mem, pd, pd) == Some(pd)
    ensures Walk(states[n].mem, pd, Tables(states[n].mem, pd)[d].value) == Tables(states[n].mem, pd)[d]
  {
    RunKeeps(states, calls, pd, n);
  }

  // ----- isolation ----------------------------------------------------------------------

  ghost predicate InUse(s: State, f: nat) { f < |s.used| && s.used[f] }

  /** An allocating call takes a free frame and marks it; frames in use stay so; a new table was free. */
  lemma StepFrames(s: State, s': State, pd: Frame, c: Call)
    requires Good(s, pd) && Step(s, s', pd, c) && |s.used| <= FRAMES && (|s.used| > 0 ==> s.used[0])
    ensures |s'.used| == |s.used|
    ensures forall f :: 0 <= f < |s.used| && s.used[f] ==> s'.used[f]
    ensures c.allocates ==> c.frame < |s.used| && !s.used[c.frame] && InUse(s', c.frame)
    ensures var ts, ts' := Tables(s.mem, pd), Tables(s'.mem, pd);
            forall d :: 0 <= d < ENTRIES && ts'[d].Some? && ts'[d] != ts[d] ==>
              !InUse(s, ts'[d].value) && (c.allocates ==> ts'[d].value != c.frame)
  {
    hide Walk, Tables;
    FirstFreeSpec(s.used, 0, |s.used|);
    var u := Before(s.used, c.allocates);
    FirstFreeSpec(u, 0, LowFrames(u));
  }

  /** Frames stay in use for the rest of the run. */
  lemma {:induction false} StaysInUse(states: seq<State>, calls: seq<Call>, pd: Frame, i: nat, n: nat, f: nat)
    requires Run(states, calls, pd) && Good(states[0], pd) && i <= n <= |calls| && Within4G(states[0])
    requires InUse(states[i], f)
    ensures InUse(states[n], f)
    decreases n
  {
    if i < n {
      StaysInUse(states, calls, pd, i, n - 1, f);
      StepInRun(states, calls, pd, n - 1);
    }
  }

  /** At most 2^20 frames, and frame 0 is in use. */
  ghost predicate Within4G(s: State) { |s.used| <= FRAMES && (|s.used| > 0 ==> s.used[0]) }

  lemma {:induction false} RunWithin(states: seq<State>, calls: seq<Call>, pd: Frame, n: nat)
    requires Run(states, calls, pd) && Good(states[0], pd) && n <= |calls| && Within4G(states[0])
    ensures Within4G(states[n])
  {
    if n > 0 {
      RunWithin(states, calls, pd, n - 1);
      RunKeeps(states, calls, pd, n - 1);
      assert StepAt(states, calls, pd, n - 1);
      StepFrames(states[n - 1], states[n], pd, calls[n - 1]);
    }
  }

  /** `StepFrames` at any point of a run. */
  lemma StepInRun(states: seq<State>, calls: seq<Call>, pd: Frame, n: nat)
    requires Run(states, calls, pd) && Good(states[0], pd) && n < |calls| && Within4G(states[0])
    ensures Good(states[n], pd) && |states[n + 1].used| == |states[n].used|
    ensures forall f :: InUse(states[n], f) ==> InUse(states[n + 1], f)
    ensures calls[n].allocates ==> !InUse(states[n], calls[n].frame) && InUse(states[n + 1], calls[n].frame)
    ensures var ts, ts' := Tables(states[n].mem, pd), Tables(states[n + 1].mem, pd);
            forall d :: 0 <= d < ENTRIES && ts'[d].Some? && ts'[d] != ts[d] ==>
              !InUse(states[n], ts'[d].value) && (calls[n].allocates ==> ts'[d].value != calls[n].frame)
  {
    RunWithin(states, calls, pd, n);
    RunKeeps(states, calls, pd, n);
    assert StepAt(states, calls, pd, n);
    hide Tables, Good, Step;
    StepFrames(states[n], states[n + 1], pd, calls[n]);
  }

  /** No table of a later state is the frame that call `i` allocated. */
  lemma {:induction false} NoLaterTable(states: seq<State>, calls: seq<Call>, pd: Frame, i: nat, n: nat, d: nat)
    requires Run(states, calls, pd) && Good(states[0], pd) && Within4G(states[0])
    requires i < n <= |calls| && calls[i].allocates && d < ENTRIES
    ensures Tables(states[n].mem, pd)[d] != Some(calls[i].frame)
    decreases n
  {
    StepInRun(states, calls, pd, i);
    StepInRun(states, calls, pd, n - 1);
    hide Tables;
    if n - 1 > i {
      NoLaterTable(states, calls, pd, i, n - 1, d);
      StaysInUse(states, calls, pd, i + 1, n - 1, calls[i].frame);
    } else {
      TableInUse(states[i], pd, d);
    }
  }

  lemma TableInUse(s: State, pd: Frame, d: nat)
    requires Good(s, pd) && d < ENTRIES
    ensures InUse(s, pd)
    ensures Tables(s.mem, pd)[d].Some? ==> InUse(s, Tables(s.mem, pd)[d].value)
  {
  }

  /**
    In every run within 4 GiB the allocating calls get different frames, and none of
    these frames is the directory or, in any state of the run, a page table.
   */
  lemma AllocationsIsolated(states: seq<State>, calls: seq<Call>, pd: Frame, i: nat, n: nat, d: nat)
    requires Run(states, calls, pd) && Good(states[0], pd) && Within4G(states[0])
    requires i < |calls| && calls[i].allocates && n <= |calls| && d < ENTRIES
    ensures n < |calls| && n != i && calls[n].allocates ==> calls[n].frame != calls[i].frame
    ensures calls[i].frame != pd && Tables(states[n].mem, pd)[d] != Some(calls[i].frame)
  {
    StepInRun(states, calls, pd, i);
    TableInUse(states[i], pd, d);
    if i < n {
      NoLaterTable(states, calls, pd, i, n, d);
      StaysInUse(states, calls, pd, i + 1, n, calls[i].frame);
      if n < |calls| {
        StepInRun(states, calls, pd, n);
      }
    } else {
      RunKeeps(states, calls, pd, n);
      TableInUse(states[n], pd, d);
      if Tables(states[n].mem, pd)[d].Some? {
        StaysInUse(states, calls, pd, n, i, Tables(states[n].mem, pd)[d].value);
      }
      if n < i && calls[n].allocates {
        StepInRun(states, calls, pd, n);
        StaysInUse(states, calls, pd, n + 1, i, calls[n].frame);
      }
    }
  }

  // ----- runs on the address space object ---------------------------------------------

  /** A call to make: `vmm_map` of a page to a frame, or `vmm_alloc_page` of a page. */
  datatype Request = MapTo(page: Frame, frame: Frame) | AllocAt(page: Frame)

  /** The call returns, and does not report that memory is short. */
  predicate Succeeds(ts: Directory, used: seq<bool>, r: Request)
  {
    && (r.AllocAt? ==> P.AllocAddress(used) != 0)
    && WithTable(ts, r.page / ENTRIES, Before(used, r.AllocAt?))[r.page / ENTRIES].Some?
  }

  /** All calls succeed; that depends on the tables and the free frames alone. */
  predicate AllSucceed(ts: Directory, used: seq<bool>, reqs: seq<Request>)
    decreases |reqs|
  {
    reqs == [] ||
    (var r := reqs[0];
     var u := Before(used, r.AllocAt?);
     && Succeeds(ts, used, r)
     && AllSucceed(WithTable(ts, r.page / ENTRIES, u), AfterTable(ts, r.page / ENTRIES, u), reqs[1..]))
  }

  /** The calls of a run are the ones asked for. */
  ghost predicate Answers(calls: seq<Call>, reqs: seq<Request>) {
    && |calls| == |reqs|
    && (forall i :: 0 <= i < |reqs| ==> IsCall(calls[i], reqs[i]))
  }

  ghost predicate IsCall(c: Call, r: Request) {
    c.page == r.page && c.allocates == r.AllocAt? && (r.MapTo? ==> c.frame == r.frame)
  }

  /** One call on the object: it succeeds exactly when it can, and is then one step. */
  method Perform(vmm: AddressSpace, r: Request) returns (ok: bool, ghost c: Call)
    requires vmm.Valid() && r.page >= LOW_FRAMES
    modifies vmm`mem, vmm.pmm, vmm.pmm.bitmap
    ensures ok <==> Succeeds(old(vmm.Directory()), old(vmm.pmm.used), r)
    ensures ok ==> vmm.Valid() && IsCall(c, r)
    ensures ok ==> Step(State(old(vmm.mem), old(vmm.pmm.used)), State(vmm.mem, vmm.pmm.used), vmm.Pd(), c)
  {
    var vaddr := r.page * PAGE_SIZE;
    PageAddress(r.page);
    match r {
      case MapTo(page, frame) =>
        c := Call(page, frame, false);
        PageAddress(frame);
        var o := vmm.Map(vaddr, frame * PAGE_SIZE);
        ok := o.Done?;
      case AllocAt(page) =>
        AddressOnPage(vmm.pmm.used);
        c := Call(page, P.AllocAddress(vmm.pmm.used) / PAGE_SIZE, true);
        var o := vmm.AllocPage(vaddr);
        ok := o == Done(true);
    }
  }

  lemma PageAddress(page: Frame)
    ensures page * PAGE_SIZE < U32 && page * PAGE_SIZE % PAGE_SIZE == 0 && page * PAGE_SIZE / PAGE_SIZE == page
    ensures page >= LOW_FRAMES <==> page * PAGE_SIZE >= LOWMEM_LIMIT
  {
  }

  /** A step appended to a run is a run. */
  lemma RunGrows(states: seq<State>, calls: seq<Call>, pd: Frame, s: State, c: Call)
    requires Run(states, calls, pd) && c.page >= LOW_FRAMES && Step(states[|calls|], s, pd, c)
    ensures Run(states + [s], calls + [c], pd)
  {
    forall i | 0 <= i < |calls| + 1
      ensures StepAt(states + [s], calls + [c], pd, i)
    {
      if i < |calls| {
        assert StepAt(states, calls, pd, i);
      }
    }
  }

  /**
    A whole sequence of calls on the address space object, on addresses at or above
    4 MiB: all succeed exactly when tables and free frames suffice, and then the object
    has gone through a `Run` of exactly these calls.
   */
  method PerformAll(vmm: AddressSpace, reqs: seq<Request>)
      returns (ok: bool, ghost states: seq<State>, ghost calls: seq<Call>)
    requires vmm.Valid() && (forall i :: 0 <= i < |reqs| ==> reqs[i].page >= LOW_FRAMES)
    modifies vmm`mem, vmm.pmm, vmm.pmm.bitmap
    ensures ok <==> AllSucceed(old(vmm.Directory()), old(vmm.pmm.used), reqs)
    ensures ok ==>
              && vmm.Valid() && Run(states, calls, vmm.Pd()) && Answers(calls, reqs)
              && states[0] == State(old(vmm.mem), old(vmm.pmm.used))
              && states[|calls|] == State(vmm.mem, vmm.pmm.used)
  {
    hide Step, Succeeds, Tables, Structure, LowIdentity, WithTable, AfterTable, AfterPage;
    ghost var ts0, used0 := vmm.Directory(), vmm.pmm.used;
    states, calls := [State(vmm.mem, vmm.pmm.used)], [];
    for i := 0 to |reqs|
      invariant vmm.Valid()
      invariant Run(states, calls, vmm.Pd()) && Answers(calls, reqs[..i])
      invariant states[0] == State(old(vmm.mem), used0) && states[|calls|] == State(vmm.mem, vmm.pmm.used)
      invariant AllSucceed(ts0, used0, reqs) == AllSucceed(vmm.Directory(), vmm.pmm.used, reqs[i..])
    {
      assert reqs[i..][0] == reqs[i] && reqs[i..][1..] == reqs[i + 1..];
      ghost var s, ts := State(vmm.mem, vmm.pmm.used), vmm.Directory();
      ghost var c;
      ok, c := Perform(vmm, reqs[i]);
      if !ok {
        return;
      }
      StepTables(s, State(vmm.mem, vmm.pmm.used), vmm.Pd(), c);
      RunGrows(states, calls, vmm.Pd(), State(vmm.mem, vmm.pmm.used), c);
      states, calls := states + [State(vmm.mem, vmm.pmm.used)], calls + [c];
    }
    assert reqs[..|reqs|] == reqs;
    return true, states, calls;
  }

  lemma StepTables(s: State, s': State, pd: Frame, c: Call)
    requires Step(s, s', pd, c)
    ensures Tables(s'.mem, pd) == WithTable(Tables(s.mem, pd), c.page / ENTRIES, Before(s.used, c.allocates))
    ensures s'.used == AfterTable(Tables(s.mem, pd), c.page / ENTRIES, Before(s.used, c.allocates))
  {
  }
}
