/**
  Machine words of any width, as lists of bits from the least significant end.
  The operators are the C operators the bitmap code uses, bit by bit.
 */
module Bits {

  type Bits = seq<bool>

  function Zero(n: nat): Bits { seq(n, _ => false) }
  function Ones(n: nat): Bits { seq(n, _ => true) }

  /** The constant 1. */
  function One(n: nat): Bits { seq(n, i => i == 0) }

  function And(a: Bits, b: Bits): Bits
    requires |a| == |b|
  {
    seq(|a|, i requires 0 <= i < |a| => a[i] && b[i])
  }

  function Or(a: Bits, b: Bits): Bits
    requires |a| == |b|
  {
    seq(|a|, i requires 0 <= i < |a| => a[i] || b[i])
  }

  function Not(a: Bits): Bits {
    seq(|a|, i requires 0 <= i < |a| => !a[i])
  }

  /** `a << s`, with zeros shifted in and the top bits lost. */
  function ShiftLeft(a: Bits, s: nat): Bits {
    seq(|a|, i requires 0 <= i < |a| => i >= s && a[i - s])
  }

  /** The word whose bytes, lowest address first, are the arguments. */
  function LittleEndian(b0: Bits, b1: Bits, b2: Bits, b3: Bits): Bits {
    b0 + b1 + b2 + b3
  }

  predicate AllClear(a: Bits, n: nat)
    requires n <= |a|
  {
    forall j :: 0 <= j < n ==> !a[j]
  }

  /** `a - 1` modulo 2^|a|: a bit flips when every bit below it is clear. */
  function Decrement(a: Bits): Bits {
    seq(|a|, i requires 0 <= i < |a| => if AllClear(a, i) then !a[i] else a[i])
  }

  /** `b & (1 << k)` is non-zero exactly when bit `k` is set. */
  lemma TestBit(b: Bits, k: nat)
    requires k < |b|
    ensures And(b, ShiftLeft(One(|b|), k)) != Zero(|b|) <==> b[k]
  {
    var t := And(b, ShiftLeft(One(|b|), k));
    assert t[k] == b[k] && Zero(|b|)[k] == false;
    if !b[k] {
      assert t == Zero(|b|);
    }
  }

  /** `b | (1 << k)` sets bit `k` and no other. */
  lemma SetBit(b: Bits, k: nat)
    requires k < |b|
    ensures Or(b, ShiftLeft(One(|b|), k)) == b[k := true]
  {
  }

  /** `b & ~(1 << k)` clears bit `k` and no other. */
  lemma ClearBit(b: Bits, k: nat)
    requires k < |b|
    ensures And(b, Not(ShiftLeft(One(|b|), k))) == b[k := false]
  {
  }

  /** `(1 << (e+1)) - 1` keeps exactly the bits at or below `e`. */
  lemma LowMask(n: nat, e: nat)
    requires e + 1 < n
    ensures Decrement(ShiftLeft(One(n), e + 1)) == seq(n, i => i <= e)
  {
    var a := ShiftLeft(One(n), e + 1);
    forall i | 0 <= i < n
      ensures Decrement(a)[i] == (i <= e)
    {
      if i > e + 1 {
        assert a[e + 1];
      }
    }
  }
}
