/** The keyboard ring buffer and interrupt handler, kernel/drivers/keyboard.c. */
module Keyboard {
  import opened Machine

  const SIZE := 256

  /** The ring as a value: one slot always stays empty. */
  datatype Ring = Ring(buf: seq<char>, rd: nat, wr: nat) {
    predicate Valid() { |buf| == SIZE && rd < SIZE && wr < SIZE }

    function Count(): (n: nat)
      requires Valid()
      ensures n < SIZE
    {
      if wr >= rd then wr - rd else wr + SIZE - rd
    }

    predicate Full()
      requires Valid()
    {
      (wr + 1) % SIZE == rd
    }

    /** The unread characters, oldest first. */
    function Pending(): seq<char>
      requires Valid()
    {
      seq(Count(), i requires 0 <= i < SIZE => buf[Slot(i)])
    }

    /** Index of the i-th unread character. */
    function Slot(i: nat): (k: nat)
      requires Valid() && i < SIZE
      ensures k < SIZE
    {
      if rd + i < SIZE then rd + i else rd + i - SIZE
    }
  }

  /** `buffer_write`: a full ring drops the character. */
  function Put(r: Ring, c: char): Ring
    requires r.Valid()
  {
    if r.Full() then r else Ring(r.buf[r.wr := c], r.rd, (r.wr + 1) % SIZE)
  }

  /** The consumer's `read_ptr = (read_ptr + 1) % KB_BUFFER_SIZE`. */
  function Advance(r: Ring): Ring
    requires r.Valid()
  {
    r.(rd := (r.rd + 1) % SIZE)
  }

  /** A write appends, and touches no unread slot; it drops exactly at 255 pending. */
  lemma PutAppends(r: Ring, c: char)
    requires r.Valid()
    ensures Put(r, c).Valid()
    ensures r.Full() <==> r.Count() == 255
    ensures Put(r, c).Pending() == if |r.Pending()| == 255 then r.Pending() else r.Pending() + [c]
  {
  }

  /** A non-empty ring yields its oldest character. */
  lemma AdvanceDrops(r: Ring)
    requires r.Valid()
    ensures r.rd == r.wr <==> r.Pending() == []
    ensures r.rd != r.wr ==> Advance(r).Valid() && r.Pending() == [r.buf[r.rd]] + Advance(r).Pending()
  {
  }

  // ----- scancodes ----------------------------------------------------------------

  /** The tables of the source, row by row. */
  const PLAIN_ROWS := ["\0\U{1B}1234567890-=\U{8}", "\tqwertyuiop[]\n", "\0asdfghjkl;'`", "\0\\zxcvbnm,./\0", "*\0 "]
  const SHIFTED_ROWS := ["\0\U{1B}!@#$%^&*()_+\U{8}", "\tQWERTYUIOP{}\n", "\0ASDFGHJKL:\"~", "\0|ZXCVBNM<>?\0", "*\0 "]

  const PLAIN := PLAIN_ROWS[0] + PLAIN_ROWS[1] + PLAIN_ROWS[2] + PLAIN_ROWS[3] + PLAIN_ROWS[4]
  const SHIFTED := SHIFTED_ROWS[0] + SHIFTED_ROWS[1] + SHIFTED_ROWS[2] + SHIFTED_ROWS[3] + SHIFTED_ROWS[4]

  datatype Modifiers = Modifiers(shift: bool, caps: bool)

  function NextModifiers(m: Modifiers, scancode: nat): Modifiers {
    if scancode == 0x2A || scancode == 0x36 then m.(shift := true)
    else if scancode == 0xAA || scancode == 0xB6 then m.(shift := false)
    else if scancode == 0x3A then m.(caps := !m.caps)
    else m
  }

  predicate IsModifier(scancode: nat) {
    scancode in {0x2A, 0x36, 0xAA, 0xB6, 0x3A}
  }

  lemma TableSizes()
    ensures |PLAIN| == 58 && |SHIFTED| == 58
  {
  }

  /** The character a key press enters, if any. */
  function Decode(m: Modifiers, scancode: nat): Option<char> {
    if IsModifier(scancode) || scancode >= 58 then None
    else
      TableSizes();
      var base := PLAIN[scancode];
      var upper := if m.caps && 'a' <= base <= 'z' then !m.shift else m.shift;
      var ascii := if upper then SHIFTED[scancode] else PLAIN[scancode];
      if ascii != '\0' then Some(ascii) else None
  }

  predicate Letter(c: char) { 'a' <= c <= 'z' }

  /** Caps lock and shift cancel on letters; caps lock alone changes nothing else. */
  lemma CapsAndShift(shift: bool, scancode: nat)
    requires scancode < 58
    ensures |PLAIN| == 58
    ensures Letter(PLAIN[scancode]) ==>
              Decode(Modifiers(shift, true), scancode) == Decode(Modifiers(!shift, false), scancode)
    ensures !Letter(PLAIN[scancode]) ==>
              Decode(Modifiers(shift, true), scancode) == Decode(Modifiers(shift, false), scancode)
  {
  }

  class Driver {
    const buffer: array<char>
    var readPtr: nat
    var writePtr: nat
    var modifiers: Modifiers

    function View(): Ring
      reads this, buffer
    {
      Ring(buffer[..], readPtr, writePtr)
    }

    /** `keyboard_init` on a buffer of arbitrary contents. */
    constructor ()
      ensures View().Valid() && View().Pending() == [] && fresh(buffer)
      ensures modifiers == Modifiers(false, false)
    {
      buffer := new char[SIZE];
      readPtr, writePtr := 0, 0;
      modifiers := Modifiers(false, false);
    }

    method BufferWrite(c: char)
      requires View().Valid()
      modifies this`writePtr, buffer
      ensures View() == Put(old(View()), c)
    {
      var next := (writePtr + 1) % SIZE;
      if next != readPtr {
        buffer[writePtr] := c;
        writePtr := next;
      }
    }

    /** `keyboard_try_get_char`: the oldest pending character, or 0. */
    method TryGetChar() returns (c: char)
      requires View().Valid()
      modifies this`readPtr
      ensures View().Valid()
      ensures if old(View().Pending()) == [] then c == '\0' && View() == old(View())
              else old(View().Pending()) == [c] + View().Pending()
    {
      AdvanceDrops(View());
      if readPtr == writePtr {
        return '\0';
      }
      c := buffer[readPtr];
      readPtr := (readPtr + 1) % SIZE;
      assert View() == Advance(old(View()));
    }

    /** `keyboard_handler` for the scancode read from port 0x60. */
    method Handler(scancode: nat)
      requires View().Valid()
      modifies this, buffer
      ensures modifiers == NextModifiers(old(modifiers), scancode)
      ensures View() == match Decode(old(modifiers), scancode)
                        case None => old(View())
                        case Some(c) => Put(old(View()), c)
      ensures readPtr == old(readPtr)
    {
      if scancode == 0x2A || scancode == 0x36 {
        modifiers := modifiers.(shift := true);
        return;
      }
      if scancode == 0xAA || scancode == 0xB6 {
        modifiers := modifiers.(shift := false);
        return;
      }
      if scancode == 0x3A {
        modifiers := modifiers.(caps := !modifiers.caps);
        return;
      }
      if scancode < 0x80 {
        if scancode < 58 {
          TableSizes();
          var upper := false;
          if modifiers.shift {
            upper := true;
          }
          var base := PLAIN[scancode];
          if modifiers.caps && 'a' <= base <= 'z' {
            upper := !upper;
          }
          var ascii := if upper then SHIFTED[scancode] else PLAIN[scancode];
          if ascii != '\0' {
            BufferWrite(ascii);
          }
        }
      }
    }
  }
}
