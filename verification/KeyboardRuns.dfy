/**
  Whole runs of scancodes through `keyboard_handler` (kernel/drivers/keyboard.c), stated by
  the keys of a US keyboard instead of the driver's tables and flags.
 */
module KeyboardRuns {
  import opened Machine
  import opened Keyboard

  /** The last shift code in `codes` is a press. */
  ghost predicate ShiftHeld(codes: seq<nat>) {
    exists i :: 0 <= i < |codes| && codes[i] in {0x2A, 0x36} &&
                (forall j :: i < j < |codes| ==> codes[j] !in {0xAA, 0xB6})
  }

  /** Caps lock was pressed an odd number of times. */
  ghost predicate CapsOn(codes: seq<nat>) {
    multiset(codes)[0x3A] % 2 == 1
  }

  /** The letter on a key. */
  function LetterOn(key: nat): Option<char> {
    if 0x10 <= key <= 0x19 then Some("qwertyuiop"[key - 0x10])
    else if 0x1E <= key <= 0x26 then Some("asdfghjkl"[key - 0x1E])
    else if 0x2C <= key <= 0x32 then Some("zxcvbnm"[key - 0x2C])
    else None
  }

  function UpperCase(c: char): char
    requires 'a' <= c <= 'z'
  {
    (c as int - 'a' as int + 'A' as int) as char
  }

  /** What any other key enters. */
  function SymbolOn(key: nat, shift: bool): Option<char> {
    if key == 0x01 then Some('\U{1B}')
    else if 0x02 <= key <= 0x0D then Some((if shift then "!@#$%^&*()_+" else "1234567890-=")[key - 0x02])
    else if key == 0x0E then Some('\U{8}')
    else if key == 0x0F then Some('\t')
    else if 0x1A <= key <= 0x1B then Some((if shift then "{}" else "[]")[key - 0x1A])
    else if key == 0x1C then Some('\n')
    else if 0x27 <= key <= 0x29 then Some((if shift then ":\"~" else ";'`")[key - 0x27])
    else if key == 0x2B then Some(if shift then '|' else '\\')
    else if 0x33 <= key <= 0x35 then Some((if shift then "<>?" else ",./")[key - 0x33])
    else if key == 0x37 then Some('*')
    else if key == 0x39 then Some(' ')
    else None
  }

  lemma LetterRange(key: nat)
    ensures LetterOn(key).Some? ==> 'a' <= LetterOn(key).value <= 'z'
  {
  }

  /** Every letter is on one key, and on no other. */
  lemma LettersOnKeys(c: char) returns (key: nat)
    requires 'a' <= c <= 'z'
    ensures LetterOn(key) == Some(c) && (forall k: nat :: LetterOn(k) == Some(c) ==> k == key)
  {
    var keys := [0x1E, 0x30, 0x2E, 0x20, 0x12, 0x21, 0x22, 0x23, 0x17, 0x24, 0x25, 0x26, 0x32,
                 0x31, 0x18, 0x19, 0x10, 0x13, 0x1F, 0x14, 0x16, 0x2F, 0x11, 0x2D, 0x15, 0x2C];
    key := keys[c as int - 'a' as int];
  }

  /** What `key` enters after the codes `before`. */
  ghost function Entered(before: seq<nat>, key: nat): seq<char> {
    LetterRange(key);
    if key in {0x2A, 0x36, 0xAA, 0xB6, 0x3A} then []
    else if LetterOn(key).Some? then
      [if ShiftHeld(before) == CapsOn(before) then LetterOn(key).value else UpperCase(LetterOn(key).value)]
    else if SymbolOn(key, ShiftHeld(before)).Some? then [SymbolOn(key, ShiftHeld(before)).value]
    else []
  }

  /** The driver's flags are what the codes say. */
  ghost predicate Heard(m: Modifiers, codes: seq<nat>) {
    m.shift == ShiftHeld(codes) && m.caps == CapsOn(codes)
  }

  lemma HeardNext(m: Modifiers, codes: seq<nat>, key: nat)
    requires Heard(m, codes)
    ensures Heard(NextModifiers(m, key), codes + [key])
  {
    var longer := codes + [key];
    assert multiset(longer)[0x3A] == multiset(codes)[0x3A] + if key == 0x3A then 1 else 0;
    if key in {0x2A, 0x36} {
      assert longer[|codes|] in {0x2A, 0x36};
    } else if ShiftHeld(codes) {
      var i :| 0 <= i < |codes| && codes[i] in {0x2A, 0x36} &&
               (forall j :: i < j < |codes| ==> codes[j] !in {0xAA, 0xB6});
      assert longer[i] in {0x2A, 0x36};
      assert longer[|codes|] == key;
    }
    if ShiftHeld(longer) && key !in {0x2A, 0x36} {
      var i :| 0 <= i < |longer| && longer[i] in {0x2A, 0x36} &&
               (forall j :: i < j < |longer| ==> longer[j] !in {0xAA, 0xB6});
      assert codes[i] in {0x2A, 0x36};
      forall j | i < j < |codes|
        ensures codes[j] !in {0xAA, 0xB6}
      {
        assert longer[j] == codes[j];
      }
      assert longer[|codes|] !in {0xAA, 0xB6};
    }
  }

  /** The keyboard's characters at `key`, plain and shifted; a key without one has zero. */
  function OnKey(key: nat): (char, char) {
    LetterRange(key);
    if LetterOn(key).Some? then (LetterOn(key).value, UpperCase(LetterOn(key).value))
    else (OrZero(SymbolOn(key, false)), OrZero(SymbolOn(key, true)))
  }

  function OrZero(c: Option<char>): char { if c.Some? then c.value else '\0' }

  /** Row `r` of the driver's tables, which starts at key `start`, holds the keyboard's characters. */
  predicate RowAgrees(r: nat, start: nat)
    requires r < 5
  {
    && |PLAIN_ROWS[r]| == |SHIFTED_ROWS[r]|
    && forall k :: 0 <= k < |PLAIN_ROWS[r]| ==> (PLAIN_ROWS[r][k], SHIFTED_ROWS[r][k]) == OnKey(start + k)
  }

  lemma Row0Agrees()
    ensures RowAgrees(0, 0)
  {
  }

  lemma Row1Agrees()
    ensures RowAgrees(1, 15)
  {
  }

  lemma Row2Agrees()
    ensures RowAgrees(2, 29)
  {
  }

  lemma Row3Agrees()
    ensures RowAgrees(3, 42)
  {
  }

  lemma Row4Agrees()
    ensures RowAgrees(4, 55)
  {
  }

  /** The driver's tables are the keyboard's. */
  lemma TablesAgree(key: nat)
    requires key < 58
    ensures |PLAIN| == |SHIFTED| == 58 && (PLAIN[key], SHIFTED[key]) == OnKey(key)
  {
    TableSizes();
    Row0Agrees();
    Row1Agrees();
    Row2Agrees();
    Row3Agrees();
    Row4Agrees();
    assert |PLAIN_ROWS[0]| == 15 && |PLAIN_ROWS[1]| == 14 && |PLAIN_ROWS[2]| == 13 && |PLAIN_ROWS[3]| == 13;
    assert |SHIFTED_ROWS[0]| == 15 && |SHIFTED_ROWS[1]| == 14 && |SHIFTED_ROWS[2]| == 13 && |SHIFTED_ROWS[3]| == 13;
    hide OnKey;
    var r := if key < 15 then 0 else if key < 29 then 1 else if key < 42 then 2 else if key < 55 then 3 else 4;
    var start := if r == 0 then 0 else if r == 1 then 15 else if r == 2 then 29 else if r == 3 then 42 else 55;
    assert PLAIN[key] == PLAIN_ROWS[r][key - start] && SHIFTED[key] == SHIFTED_ROWS[r][key - start];
  }

  lemma DecodeIs(m: Modifiers, before: seq<nat>, key: nat)
    requires Heard(m, before)
    ensures Decode(m, key) == if Entered(before, key) == [] then None else Some(Entered(before, key)[0])
    ensures |Entered(before, key)| <= 1
  {
    LetterRange(key);
    hide ShiftHeld, CapsOn;
    if key < 58 {
      TablesAgree(key);
      hide PLAIN, SHIFTED;
      SymbolRange(key);
    }
  }

  lemma SymbolRange(key: nat)
    ensures forall shift :: SymbolOn(key, shift).Some? ==>
              SymbolOn(key, shift).value != '\0' && !('a' <= SymbolOn(key, shift).value <= 'z')
    ensures SymbolOn(key, true).Some? <==> SymbolOn(key, false).Some?
  {
  }

  function Concat(parts: seq<seq<char>>): seq<char> {
    if parts == [] then [] else Concat(parts[..|parts| - 1]) + parts[|parts| - 1]
  }

  /** The first 255 of `s`, which is what a ring without a reader keeps. */
  function First255(s: seq<char>): seq<char> {
    if |s| <= 255 then s else s[..255]
  }

  lemma RingKeeps(r: Ring, typed: seq<char>, c: char)
    requires r.Valid() && r.Pending() == First255(typed)
    ensures Put(r, c).Valid() && Put(r, c).Pending() == First255(typed + [c])
  {
    PutAppends(r, c);
  }

  /** One scancode: it enters what the key and the codes before it say. */
  method Press(d: Driver, ghost before: seq<nat>, key: nat, ghost typed: seq<char>)
    requires d.View().Valid() && Heard(d.modifiers, before) && d.View().Pending() == First255(typed)
    modifies d, d.buffer
    ensures d.View().Valid() && Heard(d.modifiers, before + [key])
    ensures d.View().Pending() == First255(typed + Entered(before, key))
  {
    ghost var r, m := d.View(), d.modifiers;
    HeardNext(m, before, key);
    DecodeIs(m, before, key);
    hide Entered, Decode, Heard, Ring.Pending, First255;
    d.Handler(key);
    if Entered(before, key) != [] {
      assert Entered(before, key) == [Entered(before, key)[0]];
      RingKeeps(r, typed, Entered(before, key)[0]);
    } else {
      assert typed + [] == typed;
    }
  }

  /**
    Every sequence of scancodes from `keyboard_init` on, with no reader: shift is on exactly
    when the last shift code was a press, caps lock exactly after an odd number of presses;
    a letter key enters its letter in lower case exactly when the two agree, else in upper
    case; releases, modifiers and keys from 58 on enter nothing; every other key enters
    its symbol. The ring holds the first 255 of these characters.
   */
  method TypeAll(codes: seq<nat>) returns (d: Driver, ghost entered: seq<seq<char>>)
    ensures d.View().Valid() && |entered| == |codes|
    ensures d.modifiers.shift <==> exists i :: 0 <= i < |codes| && codes[i] in {0x2A, 0x36} &&
                                               (forall j :: i < j < |codes| ==> codes[j] !in {0xAA, 0xB6})
    ensures d.modifiers.caps <==> multiset(codes)[0x3A] % 2 == 1
    ensures forall i, c :: 0 <= i < |codes| && LetterOn(codes[i]) == Some(c) ==>
              && 'a' <= c <= 'z'
              && entered[i] == [if ShiftHeld(codes[..i]) == CapsOn(codes[..i]) then c else UpperCase(c)]
    ensures forall i :: 0 <= i < |codes| && (codes[i] >= 58 || codes[i] in {0x2A, 0x36, 0x3A}) ==> entered[i] == []
    ensures forall i :: 0 <= i < |codes| && codes[i] < 58 && codes[i] !in {0x2A, 0x36, 0x3A} &&
                        LetterOn(codes[i]).None? ==>
              entered[i] == match SymbolOn(codes[i], ShiftHeld(codes[..i])) case Some(c) => [c] case None => []
    ensures d.View().Pending() == First255(Concat(entered))
  {
    d, entered := TypeCodes(codes);
    hide Heard, Entered, First255, LetterOn, SymbolOn, ShiftHeld, CapsOn, Ring.Pending, Ring.Valid, Concat;
    HeardMeans(d.modifiers, codes);
    forall i | 0 <= i < |codes|
      ensures EnteredRightly(codes[..i], codes[i], entered[i])
    {
      EnteredIs(codes[..i], codes[i]);
    }
  }

  /** Each scancode has entered what it should. */
  ghost predicate AllEntered(entered: seq<seq<char>>, codes: seq<nat>) {
    |entered| == |codes| && forall k :: 0 <= k < |codes| ==> entered[k] == Entered(codes[..k], codes[k])
  }

  lemma OneMore(entered: seq<seq<char>>, codes: seq<nat>, key: nat)
    requires AllEntered(entered, codes)
    ensures AllEntered(entered + [Entered(codes, key)], codes + [key])
    ensures Concat(entered + [Entered(codes, key)]) == Concat(entered) + Entered(codes, key)
  {
    hide Entered;
    var more, longer := entered + [Entered(codes, key)], codes + [key];
    assert more[..|more| - 1] == entered;
    forall k | 0 <= k < |longer|
      ensures more[k] == Entered(longer[..k], longer[k])
    {
      assert longer[..k] == codes[..k];
    }
    assert codes[..|codes|] == codes;
  }

  lemma NothingTyped()
    ensures Heard(Modifiers(false, false), []) && AllEntered([], []) && First255(Concat([])) == []
  {
  }

  /** The loop behind it. */
  method TypeCodes(codes: seq<nat>) returns (d: Driver, ghost entered: seq<seq<char>>)
    ensures d.View().Valid() && |entered| == |codes| && Heard(d.modifiers, codes)
    ensures AllEntered(entered, codes)
    ensures d.View().Pending() == First255(Concat(entered))
  {
    hide Heard, Entered, First255, Ring.Pending, Ring.Valid, AllEntered, Concat, Driver.View;
    NothingTyped();
    d := new Driver();
    entered := [];
    assert codes[..0] == [];
    for i := 0 to |codes|
      invariant fresh(d) && fresh(d.buffer) && d.View().Valid() && |entered| == i
      invariant Heard(d.modifiers, codes[..i])
      invariant AllEntered(entered, codes[..i])
      invariant d.View().Pending() == First255(Concat(entered))
    {
      Press(d, codes[..i], codes[i], Concat(entered));
      OneMore(entered, codes[..i], codes[i]);
      assert codes[..i] + [codes[i]] == codes[..i + 1];
      entered := entered + [Entered(codes[..i], codes[i])];
    }
    assert codes[..|codes|] == codes;
  }

  lemma HeardMeans(m: Modifiers, codes: seq<nat>)
    requires Heard(m, codes)
    ensures m.shift <==> exists i :: 0 <= i < |codes| && codes[i] in {0x2A, 0x36} &&
                                     (forall j :: i < j < |codes| ==> codes[j] !in {0xAA, 0xB6})
    ensures m.caps <==> multiset(codes)[0x3A] % 2 == 1
  {
  }

  /** What a key enters, by the kinds of keys. */
  ghost predicate EnteredRightly(before: seq<nat>, key: nat, e: seq<char>) {
    && (LetterOn(key).Some? ==>
          && 'a' <= LetterOn(key).value <= 'z'
          && e == [if ShiftHeld(before) == CapsOn(before) then LetterOn(key).value else UpperCase(LetterOn(key).value)])
    && (key >= 58 || key in {0x2A, 0x36, 0x3A} ==> e == [])
    && (key < 58 && key !in {0x2A, 0x36, 0x3A} && LetterOn(key).None? ==>
          e == match SymbolOn(key, ShiftHeld(before)) case Some(c) => [c] case None => [])
  }

  lemma EnteredIs(before: seq<nat>, key: nat)
    ensures EnteredRightly(before, key, Entered(before, key))
  {
    LetterRange(key);
    hide ShiftHeld, CapsOn;
  }
}
