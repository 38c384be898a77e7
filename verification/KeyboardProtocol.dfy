/**
  The consumer of the keyboard ring, interleaved with the keyboard interrupt at
  every instruction boundary (kernel/drivers/keyboard.c and cpu.h).

  The handler runs through an interrupt gate, so it is atomic for the consumer.
  `sti` takes effect after the following instruction, which is why `sti; hlt`
  cannot lose a wake-up.
 */
module KeyboardProtocol {
  import opened Keyboard

  /** The next consumer instruction. */
  datatype Pc =
    | Idle                    // between calls
    | TryCheck                // try_get_char: read_ptr == write_ptr ?
    | TryRead                 // c = kb_buffer[read_ptr]
    | TryAdvance(c: char)     // read_ptr = ...
    | TryReturn(c: char)
    | Cli                     // get_char: cli
    | Check                   // read_ptr != write_ptr ?
    | Read                    // c = kb_buffer[read_ptr]
    | Advance(c: char)        // read_ptr = ...
    | Sti(c: char)            // sti, then return
    | Return(c: char)
    | IdleSti                 // cpu_idle: sti
    | IdleHlt                 // cpu_idle: hlt

  datatype State = State(
    ring: Ring, modifiers: Modifiers, pc: Pc,
    enabled: bool,            // the interrupt flag
    shadow: bool,             // the instruction after sti is still protected
    halted: bool,
    line: seq<nat>,           // scancodes waiting at the controller
    accepted: seq<char>,      // characters the producer put into the ring
    delivered: seq<char>,     // characters returned to callers
    dropped: nat)

  datatype Event =
    | Key(scancode: nat)      // the controller raises a key
    | KeyInterrupt            // the keyboard interrupt is taken
    | OtherInterrupt          // any other interrupt is taken
    | CallTry                 // the consumer calls try_get_char
    | CallGet                 // the consumer calls get_char
    | Consumer                // the consumer executes one instruction

  predicate Interruptible(s: State) { s.enabled && !s.shadow }

  predicate Can(s: State, e: Event) {
    match e
    case Key(_) => true
    case KeyInterrupt => Interruptible(s) && s.line != []
    case OtherInterrupt => Interruptible(s)
    case CallTry => s.pc.Idle? && !s.halted
    case CallGet => s.pc.Idle? && !s.halted
    case Consumer => !s.pc.Idle? && !s.halted
  }

  /** The handler body and the return from the interrupt. */
  function Handle(s: State): State
    requires s.ring.Valid() && s.line != []
  {
    var code := s.line[0];
    var woken := s.(line := s.line[1..], halted := false, modifiers := NextModifiers(s.modifiers, code));
    match Decode(s.modifiers, code)
    case None => woken
    case Some(c) =>
      if s.ring.Full() then woken.(dropped := s.dropped + 1)
      else woken.(ring := Put(s.ring, c), accepted := s.accepted + [c])
  }

  /** One consumer instruction. */
  function Execute(s: State): State
    requires s.ring.Valid() && !s.pc.Idle?
  {
    var head := s.ring.buf[s.ring.rd];
    var empty := s.ring.rd == s.ring.wr;
    var s := s.(shadow := false);
    match s.pc
    case TryCheck => if empty then s.(pc := Idle) else s.(pc := TryRead)
    case TryRead => s.(pc := TryAdvance(head))
    case TryAdvance(c) => s.(ring := Keyboard.Advance(s.ring), pc := TryReturn(c))
    case TryReturn(c) => s.(pc := Idle, delivered := s.delivered + [c])
    case Cli => s.(enabled := false, pc := Check)
    case Check => if empty then s.(pc := IdleSti) else s.(pc := Read)
    case Read => s.(pc := Pc.Advance(head))
    case Advance(c) => s.(ring := Keyboard.Advance(s.ring), pc := Sti(c))
    case Sti(c) => s.(enabled := true, shadow := true, pc := Return(c))
    case Return(c) => s.(pc := Idle, delivered := s.delivered + [c])
    case IdleSti => s.(enabled := true, shadow := true, pc := IdleHlt)
    case IdleHlt => s.(halted := true, pc := Cli)
  }

  function Next(s: State, e: Event): State
    requires s.ring.Valid() && Can(s, e)
  {
    match e
    case Key(code) => s.(line := s.line + [code])
    case KeyInterrupt => Handle(s)
    case OtherInterrupt => s.(halted := false)
    case CallTry => s.(pc := TryCheck)
    case CallGet => s.(pc := Cli)
    case Consumer => Execute(s)
  }

  ghost predicate Initial(s: State) {
    && s.ring.Valid() && s.ring.rd == s.ring.wr && s.pc.Idle?
    && s.enabled && !s.shadow && !s.halted
    && s.accepted == s.delivered == [] && s.dropped == 0
  }

  /** A character already removed from the ring but not yet returned. */
  function InFlight(pc: Pc): seq<char> {
    match pc
    case TryReturn(c) => [c]
    case Sti(c) => [c]
    case Return(c) => [c]
    case _ => []
  }

  /** Instructions at which the consumer has interrupts disabled. */
  predicate Masked(pc: Pc) {
    pc.Check? || pc.Read? || pc.Advance? || pc.Sti? || pc.IdleSti?
  }

  /** What holds at every instruction boundary of every interleaving. */
  ghost predicate Inv(s: State) {
    && s.ring.Valid()
    && s.accepted == s.delivered + InFlight(s.pc) + s.ring.Pending()
    && s.enabled == !Masked(s.pc)
    && (s.pc.IdleHlt? ==> s.shadow)
    && (s.pc.TryRead? || s.pc.Read? ==> s.ring.rd != s.ring.wr)
    && (s.pc.TryAdvance? || s.pc.Advance? ==> s.ring.rd != s.ring.wr && s.pc.c == s.ring.buf[s.ring.rd])
    && (s.pc.IdleSti? || s.pc.IdleHlt? ==> s.ring.rd == s.ring.wr)
    && (s.halted ==> s.pc.Cli? && !s.shadow && s.ring.rd == s.ring.wr)
  }

  lemma InitialInv(s: State)
    requires Initial(s)
    ensures Inv(s)
  {
  }

  lemma HandleKeeps(s: State)
    requires Inv(s) && Can(s, KeyInterrupt)
    ensures Inv(Handle(s))
  {
    hide Decode, NextModifiers;
    match Decode(s.modifiers, s.line[0]) {
      case None =>
      case Some(c) =>
        PutAppends(s.ring, c);
        AdvanceDrops(s.ring);
        if !s.ring.Full() {
          AdvanceDrops(Put(s.ring, c));
        }
    }
  }

  /** Moving the read pointer puts the oldest character in flight. */
  lemma AdvanceKeeps(s: State)
    requires Inv(s) && Can(s, Consumer) && (s.pc.TryAdvance? || s.pc.Advance?)
    ensures Inv(Execute(s))
  {
    AdvanceDrops(s.ring);
    AdvanceDrops(Keyboard.Advance(s.ring));
    assert s.delivered + [] + ([s.pc.c] + Keyboard.Advance(s.ring).Pending()) ==
           s.delivered + [s.pc.c] + Keyboard.Advance(s.ring).Pending();
  }

  lemma ReturnKeeps(s: State)
    requires Inv(s) && Can(s, Consumer) && (s.pc.TryReturn? || s.pc.Return?)
    ensures Inv(Execute(s))
  {
  }

  lemma ExecuteKeeps(s: State)
    requires Inv(s) && Can(s, Consumer)
    ensures Inv(Execute(s))
  {
    if s.pc.TryAdvance? || s.pc.Advance? {
      AdvanceKeeps(s);
    } else if s.pc.TryReturn? || s.pc.Return? {
      ReturnKeeps(s);
    }
  }

  lemma NextKeeps(s: State, e: Event)
    requires Inv(s) && Can(s, e)
    ensures Inv(Next(s, e))
  {
    hide Decode, NextModifiers;
    match e {
      case KeyInterrupt => HandleKeeps(s);
      case Consumer => ExecuteKeeps(s);
      case _ =>
    }
  }

  // ----- whole runs -----------------------------------------------------------------

  predicate Possible(s: State, events: seq<Event>)
    decreases |events|
  {
    events == [] || (s.ring.Valid() && Can(s, events[0]) && Possible(Next(s, events[0]), events[1..]))
  }

  function Run(s: State, events: seq<Event>): State
    requires Possible(s, events)
    decreases |events|
  {
    if events == [] then s else Run(Next(s, events[0]), events[1..])
  }

  lemma {:induction false} RunKeeps(s: State, events: seq<Event>)
    requires Inv(s) && Possible(s, events)
    ensures Inv(Run(s, events))
    decreases |events|
  {
    if events != [] {
      NextKeeps(s, events[0]);
      RunKeeps(Next(s, events[0]), events[1..]);
    }
  }

  /**
    Under every interleaving the characters delivered are a prefix of the characters
    accepted, in order and unchanged, and what is missing is exactly what the ring
    and the returning call still hold.
   */
  lemma DeliveredInOrder(s: State, events: seq<Event>)
    requires Initial(s) && Possible(s, events)
    ensures var t := Run(s, events);
            && t.ring.Valid()
            && t.delivered <= t.accepted
            && t.accepted == t.delivered + InFlight(t.pc) + t.ring.Pending()
  {
    InitialInv(s);
    RunKeeps(s, events);
    var t := Run(s, events);
    assert t.accepted == t.delivered + (InFlight(t.pc) + t.ring.Pending());
  }

  /**
    A key is dropped only when the producer sees 255 characters pending; otherwise
    it becomes the newest pending character and nothing pending is lost.
   */
  lemma DropOnlyWhenFull(s: State, events: seq<Event>)
    requires Initial(s) && Possible(s, events) && Can(Run(s, events), KeyInterrupt)
    ensures var t := Run(s, events);
            && t.ring.Valid()
            && var t' := Next(t, KeyInterrupt);
            && t'.ring.Valid()
            && (t'.dropped != t.dropped ==> |t.ring.Pending()| == 255)
            && (match Decode(t.modifiers, t.line[0])
                case None => t'.ring == t.ring
                case Some(c) =>
                  t'.ring.Pending() == if |t.ring.Pending()| == 255 then t.ring.Pending()
                                       else t.ring.Pending() + [c])
  {
    hide Decode, NextModifiers;
    InitialInv(s);
    RunKeeps(s, events);
    var t := Run(s, events);
    match Decode(t.modifiers, t.line[0]) {
      case None =>
      case Some(c) => PutAppends(t.ring, c);
    }
  }

  /**
    No lost wake-up: whenever the consumer is halted the ring is empty, and a key
    that waits at the controller can interrupt at once; taking it wakes the consumer.
   */
  lemma NoLostWakeup(s: State, events: seq<Event>)
    requires Initial(s) && Possible(s, events) && Run(s, events).halted
    ensures var t := Run(s, events);
            && t.ring.Valid() && t.ring.Pending() == []
            && Interruptible(t)
            && (t.line != [] ==> Can(t, KeyInterrupt) && !Next(t, KeyInterrupt).halted)
  {
    InitialInv(s);
    RunKeeps(s, events);
    AdvanceDrops(Run(s, events).ring);
  }

  // ----- progress -----------------------------------------------------------------------

  /** Own instructions of `get_char` until it returns, once its check is going to succeed. */
  function Left(pc: Pc): nat {
    match pc
    case Cli => 6
    case Check => 5
    case Read => 4
    case Advance(_) => 3
    case Sti(_) => 2
    case Return(_) => 1
    case _ => 0
  }

  /** `get_char` is about to return `c`, with `delivered` returned before it. */
  ghost predicate Bringing(s: State, c: char, delivered: seq<char>) {
    && Inv(s) && !s.halted && s.delivered == delivered && Left(s.pc) > 0
    && (if s.pc.Sti? || s.pc.Return? then s.pc.c == c
        else s.ring.Pending() != [] && s.ring.Pending()[0] == c)
  }

  /** An interrupt or a key does not change the oldest pending character. */
  lemma OldestStays(s: State, e: Event)
    requires Inv(s) && Can(s, e) && !e.Consumer? && s.ring.Pending() != []
    ensures Next(s, e).ring.Valid()
    ensures Next(s, e).ring.Pending() != [] && Next(s, e).ring.Pending()[0] == s.ring.Pending()[0]
    ensures Next(s, e).delivered == s.delivered
  {
    hide Decode, NextModifiers;
    if e.KeyInterrupt? {
      match Decode(s.modifiers, s.line[0]) {
        case None =>
        case Some(c) => PutAppends(s.ring, c);
      }
    }
  }

  /** Whatever happens, one own instruction brings the character one step closer, and nothing takes it back. */
  lemma BringingStep(s: State, e: Event, c: char, delivered: seq<char>)
    requires Bringing(s, c, delivered) && Can(s, e)
    ensures !e.Consumer? ==> Bringing(Next(s, e), c, delivered) && Left(Next(s, e).pc) == Left(s.pc)
    ensures e.Consumer? && Left(s.pc) > 1 ==>
              Bringing(Next(s, e), c, delivered) && Left(Next(s, e).pc) == Left(s.pc) - 1
    ensures e.Consumer? && Left(s.pc) == 1 ==> Next(s, e).pc.Idle? && Next(s, e).delivered == delivered + [c]
  {
    hide Decode, NextModifiers;
    NextKeeps(s, e);
    AdvanceDrops(s.ring);
    if !e.Consumer? && s.ring.Pending() != [] {
      OldestStays(s, e);
    }
  }

  /**
    From the start of `get_char` with a character pending, under every interleaving: it
    can always go on, and its sixth own instruction has returned the oldest character.
   */
  lemma {:induction false} BringingRun(s: State, events: seq<Event>, c: char, delivered: seq<char>)
    requires Bringing(s, c, delivered) && Possible(s, events)
    ensures multiset(events)[Consumer] < Left(s.pc) ==>
              && Bringing(Run(s, events), c, delivered) && Can(Run(s, events), Consumer)
              && Left(Run(s, events).pc) == Left(s.pc) - multiset(events)[Consumer]
    ensures multiset(events)[Consumer] == Left(s.pc) ==> Run(s, events).delivered == delivered + [c]
    decreases |events|
  {
    if events != [] {
      var e := events[0];
      assert events == [e] + events[1..];
      assert multiset(events)[Consumer] == (if e.Consumer? then 1 else 0) + multiset(events[1..])[Consumer];
      BringingStep(s, e, c, delivered);
      if e.Consumer? && Left(s.pc) == 1 {
        OnlyConsumerDelivers(Next(s, e), events[1..]);
      } else {
        BringingRun(Next(s, e), events[1..], c, delivered);
      }
    }
  }

  /** Without an instruction of the consumer nothing is delivered. */
  lemma {:induction false} OnlyConsumerDelivers(s: State, events: seq<Event>)
    requires Possible(s, events)
    ensures multiset(events)[Consumer] == 0 ==> Run(s, events).delivered == s.delivered
    decreases |events|
  {
    if events != [] {
      assert events == [events[0]] + events[1..];
      OnlyConsumerDelivers(Next(s, events[0]), events[1..]);
    }
  }

  /**
    `keyboard_get_char` called with a character pending, in every reachable state and under
    every interleaving: the consumer can go on until its sixth own instruction, which has
    returned the oldest pending character.
   */
  lemma GetDelivers(start: State, before: seq<Event>, events: seq<Event>)
    requires Initial(start) && Possible(start, before)
    requires var s := Run(start, before);
             && s.ring.Valid() && s.pc.Idle? && s.ring.Pending() != []
             && Can(s, CallGet) && Possible(Next(s, CallGet), events)
    ensures var s := Run(start, before);
            var t := Run(Next(s, CallGet), events);
            && (multiset(events)[Consumer] < 6 ==> t.delivered == s.delivered && !t.pc.Idle? && Can(t, Consumer))
            && (multiset(events)[Consumer] == 6 ==> t.delivered == s.delivered + [s.ring.Pending()[0]])
  {
    InitialInv(start);
    RunKeeps(start, before);
    var s := Run(start, before);
    NextKeeps(s, CallGet);
    BringingRun(Next(s, CallGet), events, s.ring.Pending()[0], s.delivered);
  }

  /** The same whenever `get_char` is back at the start of its loop, after a wake-up for instance. */
  lemma LoopDelivers(start: State, before: seq<Event>, events: seq<Event>)
    requires Initial(start) && Possible(start, before)
    requires var s := Run(start, before);
             s.ring.Valid() && s.pc.Cli? && s.ring.Pending() != [] && Possible(s, events)
    ensures var s := Run(start, before);
            var t := Run(s, events);
            && (multiset(events)[Consumer] < 6 ==> t.delivered == s.delivered && Can(t, Consumer))
            && (multiset(events)[Consumer] == 6 ==> t.delivered == s.delivered + [s.ring.Pending()[0]])
  {
    InitialInv(start);
    RunKeeps(start, before);
    var s := Run(start, before);
    AdvanceDrops(s.ring);
    BringingRun(s, events, s.ring.Pending()[0], s.delivered);
  }

  /** Between calls the consumer can make either call, and starts with its first instruction. */
  lemma CallsStart(start: State, before: seq<Event>)
    requires Initial(start) && Possible(start, before) && Run(start, before).pc.Idle?
    ensures var s := Run(start, before);
            && s.ring.Valid() && Can(s, CallGet) && Can(s, CallTry)
            && Next(s, CallGet).pc.Cli? && Next(s, CallTry).pc.TryCheck?
  {
    InitialInv(start);
    RunKeeps(start, before);
  }

  /**
    A consumer that waits in `hlt` is woken by the first key that enters a character, and
    its sixth own instruction after that has returned this character.
   */
  lemma WokenDelivers(start: State, before: seq<Event>, events: seq<Event>)
    requires Initial(start) && Possible(start, before)
    requires var s := Run(start, before);
             && s.halted && Can(s, KeyInterrupt) && Decode(s.modifiers, s.line[0]).Some?
             && s.ring.Valid() && Possible(Next(s, KeyInterrupt), events)
    ensures var s := Run(start, before);
            var t := Run(Next(s, KeyInterrupt), events);
            && (multiset(events)[Consumer] < 6 ==> Can(t, Consumer))
            && (multiset(events)[Consumer] == 6 ==>
                  t.delivered == s.delivered + [Decode(s.modifiers, s.line[0]).value])
  {
    hide Decode, NextModifiers;
    InitialInv(start);
    RunKeeps(start, before);
    var s := Run(start, before);
    var c := Decode(s.modifiers, s.line[0]).value;
    AdvanceDrops(s.ring);
    PutAppends(s.ring, c);
    NextKeeps(s, KeyInterrupt);
    BringingRun(Next(s, KeyInterrupt), events, c, s.delivered);
  }

  /** With nothing pending, `get_char` comes to `hlt` in four own instructions if nothing interrupts it. */
  lemma WaitsWhenEmpty(s: State)
    requires Inv(s) && s.pc.Cli? && !s.halted && s.ring.Pending() == []
    ensures var events := [Consumer, Consumer, Consumer, Consumer];
            Possible(s, events) && Run(s, events).halted && Run(s, events).delivered == s.delivered
  {
    AdvanceDrops(s.ring);
    var s1 := Next(s, Consumer);
    var s2 := Next(s1, Consumer);
    var s3 := Next(s2, Consumer);
    var s4 := Next(s3, Consumer);
    assert Run(s3, [Consumer]) == Run(s4, []);
    assert [Consumer, Consumer][1..] == [Consumer];
    assert [Consumer, Consumer, Consumer][1..] == [Consumer, Consumer];
    assert [Consumer, Consumer, Consumer, Consumer][1..] == [Consumer, Consumer, Consumer];
  }

  /** The same bookkeeping for `try_get_char` behind its check. */
  function TryLeft(pc: Pc): nat {
    match pc
    case TryCheck => 4
    case TryRead => 3
    case TryAdvance(_) => 2
    case TryReturn(_) => 1
    case _ => 0
  }

  ghost predicate TryBringing(s: State, c: char, delivered: seq<char>) {
    && Inv(s) && !s.halted && s.delivered == delivered && TryLeft(s.pc) > 0
    && (if s.pc.TryReturn? then s.pc.c == c else s.ring.Pending() != [] && s.ring.Pending()[0] == c)
  }

  lemma TryBringingStep(s: State, e: Event, c: char, delivered: seq<char>)
    requires TryBringing(s, c, delivered) && Can(s, e)
    ensures !e.Consumer? ==> TryBringing(Next(s, e), c, delivered) && TryLeft(Next(s, e).pc) == TryLeft(s.pc)
    ensures e.Consumer? && TryLeft(s.pc) > 1 ==>
              TryBringing(Next(s, e), c, delivered) && TryLeft(Next(s, e).pc) == TryLeft(s.pc) - 1
    ensures e.Consumer? && TryLeft(s.pc) == 1 ==> Next(s, e).pc.Idle? && Next(s, e).delivered == delivered + [c]
  {
    hide Decode, NextModifiers;
    NextKeeps(s, e);
    AdvanceDrops(s.ring);
    if !e.Consumer? && s.ring.Pending() != [] {
      OldestStays(s, e);
    }
  }

  lemma {:induction false} TryBringingRun(s: State, events: seq<Event>, c: char, delivered: seq<char>)
    requires TryBringing(s, c, delivered) && Possible(s, events)
    ensures multiset(events)[Consumer] < TryLeft(s.pc) ==>
              TryBringing(Run(s, events), c, delivered) && Can(Run(s, events), Consumer)
    ensures multiset(events)[Consumer] == TryLeft(s.pc) ==> Run(s, events).delivered == delivered + [c]
    decreases |events|
  {
    if events != [] {
      var e := events[0];
      assert events == [e] + events[1..];
      assert multiset(events)[Consumer] == (if e.Consumer? then 1 else 0) + multiset(events[1..])[Consumer];
      TryBringingStep(s, e, c, delivered);
      if e.Consumer? && TryLeft(s.pc) == 1 {
        OnlyConsumerDelivers(Next(s, e), events[1..]);
      } else {
        TryBringingRun(Next(s, e), events[1..], c, delivered);
      }
    }
  }

  /**
    `keyboard_try_get_char`, in every reachable state in which it makes its check: with
    nothing pending that instruction ends the call and nothing is delivered; otherwise,
    under every interleaving, its fourth own instruction has returned the oldest
    pending character.
   */
  lemma TryDelivers(start: State, before: seq<Event>, events: seq<Event>)
    requires Initial(start) && Possible(start, before)
    requires var s := Run(start, before); s.ring.Valid() && s.pc.TryCheck? && Possible(s, events)
    ensures var s := Run(start, before);
            var t := Run(s, events);
            if s.ring.Pending() == [] then
              Can(s, Consumer) && Next(s, Consumer).pc.Idle? && Next(s, Consumer).delivered == s.delivered
            else
              && (multiset(events)[Consumer] < 4 ==> t.delivered == s.delivered && !t.pc.Idle? && Can(t, Consumer))
              && (multiset(events)[Consumer] == 4 ==> t.delivered == s.delivered + [s.ring.Pending()[0]])
  {
    InitialInv(start);
    RunKeeps(start, before);
    var s := Run(start, before);
    AdvanceDrops(s.ring);
    if s.ring.Pending() != [] {
      TryBringingRun(s, events, s.ring.Pending()[0], s.delivered);
    }
  }
}
