/**
  The headers of the heap as words of memory. A header takes 20 bytes, its free flag
  only the first byte of its word; headers that merges left behind stay in memory and
  later headers may be stored across them (kernel/core/heap.c, heap.h).
 */
module HeapWords {
  import opened HeapSpec
  import opened HeapRuns
  import opened HeapLinks

  /** 32-bit words by their byte address, a multiple of 4. */
  type Words = map<nat, nat>

  const FLAG := 4
  const MAGIC := 8
  const NEXT := 12
  const PREV := 16

  function Peek(m: Words, x: nat): nat {
    if x in m then m[x] else 0
  }

  /** A word whose first byte is set to a flag. */
  function FlagWord(w: nat, free: bool): (v: nat)
    ensures v % 256 == if free then 1 else 0
  {
    w / 256 * 256 + if free then 1 else 0
  }

  /** The header that the words at `a` hold. */
  function HeaderAt(m: Words, a: nat): Header {
    Header(Peek(m, a), Peek(m, a + FLAG) % 256 != 0, Peek(m, a + MAGIC), Peek(m, a + NEXT), Peek(m, a + PREV))
  }

  /** `kfree` of the pointer behind `a` fails one of its two tests. */
  predicate Refused(m: Words, a: nat) {
    Peek(m, a + MAGIC) != HEAP_MAGIC || Peek(m, a + FLAG) % 256 != 0
  }

  // ----- stores -----------------------------------------------------------------------

  function StoreHeader(m: Words, b: nat, size: nat, next: nat, prev: nat): Words {
    m[b := size][b + FLAG := FlagWord(Peek(m, b + FLAG), true)][b + MAGIC := HEAP_MAGIC][b + NEXT := next]
    [b + PREV := prev]
  }

  function StoreFlag(m: Words, a: nat, free: bool): Words {
    m[a + FLAG := FlagWord(Peek(m, a + FLAG), free)]
  }

  /** The stores of a split of the block at `a`. */
  function SplitStores(m: Words, a: nat, n: nat): Words
    requires Peek(m, a) >= n + HEADER
  {
    var newBlock, next := a + HEADER + n, Peek(m, a + NEXT);
    var m1 := StoreHeader(m, newBlock, Peek(m, a) - n - HEADER, next, a);
    var m2 := if next != NULL then m1[next + PREV := newBlock] else m1;
    m2[a + NEXT := newBlock][a := n]
  }

  /** The stores of a merge of the block at `a` with the one after it. */
  function MergeStores(m: Words, a: nat): Words {
    var right := Peek(m, a + NEXT);
    var next := Peek(m, right + NEXT);
    var m1 := m[a := Peek(m, a) + HEADER + Peek(m, right)][a + NEXT := next];
    if next != NULL then m1[next + PREV := a] else m1
  }

  /** The stores of `kmalloc` on the block it takes. */
  function TakeStores(m: Words, a: nat, n: nat): Words {
    StoreFlag(if Peek(m, a) > n + HEADER + 4 then SplitStores(m, a, n) else m, a, false)
  }

  predicate FlagSet(m: Words, a: nat) { Peek(m, a + FLAG) % 256 != 0 }

  /** The stores of `kfree`: mark, merge right, merge left. */
  function FreeStores(m: Words, a: nat): Words {
    LeftStores(RightStores(StoreFlag(m, a, true), a), a)
  }

  function RightStores(m: Words, a: nat): Words {
    var right := Peek(m, a + NEXT);
    if right != NULL && FlagSet(m, right) then MergeStores(m, a) else m
  }

  function LeftStores(m: Words, a: nat): Words {
    var left := Peek(m, a + PREV);
    if left != NULL && FlagSet(m, left) then MergeStores(m, left) else m
  }

  // ----- headers in memory ----------------------------------------------------------

  predicate Reflects(m: Words, h: Headers, a: nat) {
    a in h && HeaderAt(m, a) == h[a] && Peek(m, a + FLAG) % 256 <= 1
  }

  ghost predicate Mirrors(m: Words, h: Headers, heads: set<nat>) {
    forall a :: a in heads ==> Reflects(m, h, a)
  }

  /** Headers lie on word boundaries and do not overlap. */
  ghost predicate Spaced(heads: set<nat>) {
    && (forall a :: a in heads ==> a % 4 == 0)
    && (forall a, b :: a in heads && b in heads && a < b ==> a + HEADER <= b)
  }

  predicate Within(x: nat, a: nat) { a <= x < a + HEADER }

  /** Words outside the headers at `heads` are the same. */
  ghost predicate SameOutside(m: Words, m': Words, heads: set<nat>) {
    forall x: nat :: Peek(m', x) == Peek(m, x) || exists a :: a in heads && Within(x, a)
  }

  lemma OutsideChain(m: Words, m': Words, m'': Words, heads: set<nat>)
    requires SameOutside(m, m', heads) && SameOutside(m', m'', heads)
    ensures SameOutside(m, m'', heads)
  {
  }

  datatype Field = SizeField | NextField | PrevField

  function Offset(f: Field): nat {
    match f
    case SizeField => 0
    case NextField => NEXT
    case PrevField => PREV
  }

  function With(hd: Header, f: Field, v: nat): Header {
    match f
    case SizeField => hd.(size := v)
    case NextField => hd.(next := v)
    case PrevField => hd.(prev := v)
  }

  lemma OtherHeader(m: Words, h: Headers, heads: set<nat>, a: nat, b: nat, x: nat, v: nat, hd: Header)
    requires Spaced(heads) && a in heads && b in heads && a != b && Reflects(m, h, b) && Within(x, a)
    ensures Reflects(m[x := v], h[a := hd], b)
  {
  }

  /** Storing one field of one header updates that header and no other. */
  lemma FieldMirrors(m: Words, h: Headers, heads: set<nat>, a: nat, f: Field, v: nat)
    requires Mirrors(m, h, heads) && Spaced(heads) && a in heads && a in h
    ensures Mirrors(m[a + Offset(f) := v], h[a := With(h[a], f, v)], heads)
    ensures SameOutside(m, m[a + Offset(f) := v], heads)
  {
    forall b | b in heads
      ensures Reflects(m[a + Offset(f) := v], h[a := With(h[a], f, v)], b)
    {
      assert Reflects(m, h, a) && Reflects(m, h, b);
      if b != a {
        OtherHeader(m, h, heads, a, b, a + Offset(f), v, With(h[a], f, v));
      }
    }
    assert Within(a + Offset(f), a);
  }

  lemma FlagMirrors(m: Words, h: Headers, heads: set<nat>, a: nat, free: bool)
    requires Mirrors(m, h, heads) && Spaced(heads) && a in heads && a in h
    ensures Mirrors(StoreFlag(m, a, free), h[a := h[a].(isFree := free)], heads)
    ensures SameOutside(m, StoreFlag(m, a, free), heads)
  {
    forall b | b in heads
      ensures Reflects(StoreFlag(m, a, free), h[a := h[a].(isFree := free)], b)
    {
      assert Reflects(m, h, a) && Reflects(m, h, b);
      if b != a {
        OtherHeader(m, h, heads, a, b, a + FLAG, FlagWord(Peek(m, a + FLAG), free), h[a].(isFree := free));
      }
    }
    assert Within(a + FLAG, a);
  }

  lemma NewMirrors(m: Words, h: Headers, heads: set<nat>, b: nat, size: nat, next: nat, prev: nat)
    requires Mirrors(m, h, heads) && Spaced(heads + {b}) && b !in heads
    ensures Mirrors(StoreHeader(m, b, size, next, prev), h[b := Header(size, true, HEAP_MAGIC, next, prev)],
                    heads + {b})
    ensures SameOutside(m, StoreHeader(m, b, size, next, prev), heads + {b})
  {
    var m', h' := StoreHeader(m, b, size, next, prev), h[b := Header(size, true, HEAP_MAGIC, next, prev)];
    forall a | a in heads + {b}
      ensures Reflects(m', h', a)
    {
      if a != b {
        assert Reflects(m, h, a);
        assert a + HEADER <= b || b + HEADER <= a;
      }
    }
    forall x: nat | Peek(m', x) != Peek(m, x)
      ensures b in heads + {b} && Within(x, b)
    {
    }
  }

  // ----- former headers ---------------------------------------------------------------

  /** No field but the magic one holds the magic number. */
  predicate Plain(hd: Header) {
    hd.magic == HEAP_MAGIC && hd.size != HEAP_MAGIC && hd.next != HEAP_MAGIC && hd.prev != HEAP_MAGIC
  }

  ghost predicate AllPlain(h: Headers, heads: set<nat>) {
    forall a :: a in heads ==> a in h && Plain(h[a])
  }

  /**
    The flag of a former header at `c` is the first byte of the `prev` field of the
    header 12 bytes before it, and that byte is 0.
   */
  predicate Blinded(h: Headers, heads: set<nat>, c: nat) {
    c >= 12 && c - 12 in heads && c - 12 in h && h[c - 12].prev % 256 == 0
  }

  /** Nothing at `c` but a header in the list, or a former one that `kfree` refuses. */
  predicate Settled(m: Words, h: Headers, heads: set<nat>, c: nat) {
    c in heads || Refused(m, c) || Blinded(h, heads, c)
  }

  ghost predicate AllSettled(m: Words, h: Headers, heads: set<nat>, former: set<nat>) {
    forall c :: c in former ==> c % 4 == 0 && Settled(m, h, heads, c)
  }

  /** A header in the list covers the flag or the magic word of `c`. */
  lemma CoveredSettled(m: Words, h: Headers, heads: set<nat>, a: nat, c: nat)
    requires a in heads && Reflects(m, h, a) && Plain(h[a]) && a % 4 == 0 && c % 4 == 0 && c != a
    requires Within(c + FLAG, a) || Within(c + MAGIC, a)
    ensures Refused(m, c) || Blinded(h, heads, c)
  {
    assert (c - a) % 4 == 0;
    if Within(c + FLAG, a) {
      assert c - a == -4 || c - a == 4 || c - a == 8 || c - a == 12;
      if c - a == -4 {
        assert Peek(m, c + MAGIC) == Peek(m, a + FLAG);
        assert HEAP_MAGIC % 256 > 1;
      }
    } else {
      assert c - a == -8;
    }
  }

  /**
    One step of the kernel on the headers: the stores hit headers of the new list only.
    Former headers stay settled, if a header that leaves the list is refused and the
    place it may have blinded is not among them.
   */
  lemma StepSettled(m: Words, m': Words, h: Headers, h': Headers, heads: set<nat>, heads': set<nat>, former: set<nat>)
    requires AllSettled(m, h, heads, former) && Mirrors(m', h', heads') && AllPlain(h', heads') && Spaced(heads')
    requires SameOutside(m, m', heads')
    requires forall a :: a in heads && a !in heads' ==>
               Refused(m', a) && (a + 12 in former ==> !Blinded(h, heads, a + 12))
    ensures AllSettled(m', h', heads', former)
  {
    forall c | c in former
      ensures Settled(m', h', heads', c)
    {
      assert Settled(m, h, heads, c);
      if a :| a in heads' && (Within(c + FLAG, a) || Within(c + MAGIC, a)) {
        assert Reflects(m', h', a) && Plain(h'[a]);
        if c != a {
          CoveredSettled(m', h', heads', a, c);
        }
      } else {
        assert Peek(m', c + FLAG) == Peek(m, c + FLAG) && Peek(m', c + MAGIC) == Peek(m, c + MAGIC);
        assert c >= 12 ==> Within(c + FLAG, c - 12);
      }
    }
  }

  // ----- the headers of a block list --------------------------------------------------

  ghost function Heads(bs: seq<Block>): set<nat> {
    set k | 0 <= k < |bs| :: Addr(bs, k)
  }

  /** The blocks tile the region; free neighbours are allowed, as in the middle of a `kfree`. */
  ghost predicate Tiled(bs: seq<Block>) {
    Addr(bs, |bs|) == HEAP_END && Aligned(bs)
  }

  lemma {:induction false} AddrOnWord(bs: seq<Block>, i: nat)
    requires Aligned(bs) && i <= |bs|
    ensures Addr(bs, i) % 4 == 0
  {
    if i > 0 {
      AddrOnWord(bs, i - 1);
      assert GoodSize(bs[i - 1].size);
    }
  }

  lemma HeadsSpaced(bs: seq<Block>)
    requires Aligned(bs)
    ensures Spaced(Heads(bs))
  {
    forall i | 0 <= i < |bs|
      ensures Addr(bs, i) % 4 == 0
    {
      AddrOnWord(bs, i);
    }
    forall i, j | 0 <= i < |bs| && 0 <= j < |bs| && Addr(bs, i) < Addr(bs, j)
      ensures Addr(bs, i) + HEADER <= Addr(bs, j)
    {
      if i < j {
        AddrMonotone(bs, i, j);
      } else if j < i {
        AddrMonotone(bs, j, i);
      }
    }
  }

  /** Addresses and sizes of the heap are all below the magic number. */
  lemma LinkedPlain(h: Headers, bs: seq<Block>)
    requires Linked(h, bs) && Tiled(bs)
    ensures AllPlain(h, Heads(bs))
  {
    forall k | 0 <= k < |bs|
      ensures Addr(bs, k) in h && Plain(h[Addr(bs, k)])
    {
      assert LinkedAt(h, bs, k);
      AddrMonotone(bs, k, |bs|);
      if k > 0 {
        AddrMonotone(bs, k - 1, |bs|);
      }
      if k + 1 < |bs| {
        AddrMonotone(bs, k + 1, |bs|);
      }
    }
  }

  lemma HeadMember(bs: seq<Block>, k: nat)
    requires k < |bs|
    ensures Addr(bs, k) in Heads(bs)
  {
  }

  lemma HeadIndex(bs: seq<Block>, a: nat) returns (k: nat)
    requires a in Heads(bs)
    ensures k < |bs| && Addr(bs, k) == a
  {
    k :| 0 <= k < |bs| && Addr(bs, k) == a;
  }

  lemma SplitHeads(bs: seq<Block>, i: nat, n: nat)
    requires i < |bs| && bs[i].size >= n + HEADER
    ensures var newBlock := Addr(bs, i) + HEADER + n;
            newBlock !in Heads(bs) && Heads(SplitBlocks(bs, i, n)) == Heads(bs) + {newBlock}
  {
    hide Addr, SplitBlocks, Heads;
    var cs, newBlock := SplitBlocks(bs, i, n), Addr(bs, i) + HEADER + n;
    SplitAddr(bs, i, n, i + 1);
    HeadMember(cs, i + 1);
    forall a | a in Heads(cs)
      ensures a in Heads(bs) + {newBlock}
    {
      var k := HeadIndex(cs, a);
      SplitAddr(bs, i, n, k);
      if k != i + 1 {
        HeadMember(bs, if k <= i then k else k - 1);
      }
    }
    forall a | a in Heads(bs)
      ensures a in Heads(cs) && a != newBlock
    {
      var k := HeadIndex(bs, a);
      var j := if k <= i then k else k + 1;
      SplitAddr(bs, i, n, j);
      HeadMember(cs, j);
      Separate(cs, j, i + 1);
    }
  }

  lemma MergeHeads(bs: seq<Block>, i: nat)
    requires i + 1 < |bs|
    ensures Heads(MergeBlocks(bs, i)) == Heads(bs) - {Addr(bs, i + 1)}
  {
    hide Addr, MergeBlocks, Heads;
    var cs := MergeBlocks(bs, i);
    MergeAddr(bs, i, 0);
    forall a | a in Heads(cs)
      ensures a in Heads(bs) && a != Addr(bs, i + 1)
    {
      var k := HeadIndex(cs, a);
      var j := if k <= i then k else k + 1;
      MergeAddr(bs, i, k);
      HeadMember(bs, j);
      Separate(bs, j, i + 1);
    }
    forall a | a in Heads(bs) && a != Addr(bs, i + 1)
      ensures a in Heads(cs)
    {
      var k := HeadIndex(bs, a);
      var j := if k <= i then k else k - 1;
      MergeAddr(bs, i, j);
      HeadMember(cs, j);
    }
  }

  lemma MarkHeads(bs: seq<Block>, i: nat, free: bool)
    requires i < |bs|
    ensures Heads(bs[i := bs[i].(free := free)]) == Heads(bs)
  {
    hide Addr, Heads;
    var cs := bs[i := bs[i].(free := free)];
    forall a | a in Heads(bs)
      ensures a in Heads(cs)
    {
      var k := HeadIndex(bs, a);
      MarkAddr(bs, i, free, k);
      HeadMember(cs, k);
    }
    forall a | a in Heads(cs)
      ensures a in Heads(bs)
    {
      var k := HeadIndex(cs, a);
      MarkAddr(bs, i, free, k);
      HeadMember(bs, k);
    }
  }

  // ----- the list edits on memory -------------------------------------------------------

  /** Memory holds the linked headers of `bs`, and all of `former` is settled. */
  ghost predicate Sits(m: Words, h: Headers, bs: seq<Block>, former: set<nat>) {
    && Linked(h, bs) && Tiled(bs)
    && Mirrors(m, h, Heads(bs)) && AllSettled(m, h, Heads(bs), former)
  }

  lemma HeadLinked(m: Words, h: Headers, bs: seq<Block>, i: nat)
    requires Linked(h, bs) && Mirrors(m, h, Heads(bs)) && i < |bs|
    ensures Addr(bs, i) in Heads(bs) && LinkedAt(h, bs, i) && Reflects(m, h, Addr(bs, i))
  {
  }

  lemma MarkSits(m: Words, h: Headers, bs: seq<Block>, i: nat, free: bool, former: set<nat>)
    requires Sits(m, h, bs, former) && i < |bs|
    ensures LinkedAt(h, bs, i)
    ensures var a := Addr(bs, i);
            && Sits(StoreFlag(m, a, free), h[a := h[a].(isFree := free)], bs[i := bs[i].(free := free)], former)
            && SameOutside(m, StoreFlag(m, a, free), Heads(bs))
  {
    var a := Addr(bs, i);
    var cs := bs[i := bs[i].(free := free)];
    HeadLinked(m, h, bs, i);
    MarkLinked(h, bs, i, free);
    MarkHeads(bs, i, free);
    MarkAddr(bs, i, free, |bs|);
    HeadsSpaced(bs);
    FlagMirrors(m, h, Heads(bs), a, free);
    LinkedPlain(h[a := h[a].(isFree := free)], cs);
    StepSettled(m, StoreFlag(m, a, free), h, h[a := h[a].(isFree := free)], Heads(bs), Heads(cs), former);
  }

  lemma SplitTiled(bs: seq<Block>, i: nat, n: nat)
    requires Tiled(bs) && i < |bs| && bs[i].size > n + HEADER && GoodSize(n)
    ensures Tiled(SplitBlocks(bs, i, n))
  {
    hide Addr;
    assert GoodSize(bs[i].size);
    SplitAddr(bs, i, n, |bs| + 1);
    var cs := SplitBlocks(bs, i, n);
    forall k | 0 <= k < |cs|
      ensures GoodSize(cs[k].size)
    {
      assert cs[k].size in {n, bs[i].size - n - HEADER} || cs[k] == bs[if k < i then k else k - 1];
    }
  }

  lemma MergeTiled(bs: seq<Block>, i: nat)
    requires Tiled(bs) && i + 1 < |bs|
    ensures Tiled(MergeBlocks(bs, i))
  {
    hide Addr;
    assert GoodSize(bs[i].size) && GoodSize(bs[i + 1].size);
    MergeAddr(bs, i, |bs| - 1);
    var cs := MergeBlocks(bs, i);
    forall k | 0 <= k < |cs|
      ensures GoodSize(cs[k].size)
    {
      assert k == i || cs[k] == bs[if k < i then k else k + 1];
    }
  }

  /** The stores of a split, one header after the other. */
  lemma SplitMirrors(m: Words, h: Headers, heads: set<nat>, a: nat, n: nat)
    requires Mirrors(m, h, heads) && a in heads && a in h && h[a].size >= n + HEADER
    requires h[a].next != NULL ==> h[a].next in heads && h[a].next in h
    requires a + HEADER + n !in heads && Spaced(heads + {a + HEADER + n})
    ensures Reflects(m, h, a)
    ensures Mirrors(SplitStores(m, a, n), SplitHeaders(h, a, n), heads + {a + HEADER + n})
    ensures SameOutside(m, SplitStores(m, a, n), heads + {a + HEADER + n})
  {
    hide Mirrors, SameOutside, Spaced;
    var newBlock, next := a + HEADER + n, h[a].next;
    var all := heads + {newBlock};
    MirrorsAt(m, h, heads, a);
    var size := h[a].size - n - HEADER;
    NewMirrors(m, h, heads, newBlock, size, next, a);
    var m1, h1 := StoreHeader(m, newBlock, size, next, a), h[newBlock := Header(size, true, HEAP_MAGIC, next, a)];
    var m2, h2 := m1, h1;
    if next != NULL {
      FieldMirrors(m1, h1, all, next, PrevField, newBlock);
      m2, h2 := m1[next + PREV := newBlock], h1[next := h1[next].(prev := newBlock)];
      OutsideChain(m, m1, m2, all);
    }
    FieldMirrors(m2, h2, all, a, NextField, newBlock);
    var m3, h3 := m2[a + NEXT := newBlock], h2[a := h2[a].(next := newBlock)];
    OutsideChain(m, m2, m3, all);
    FieldMirrors(m3, h3, all, a, SizeField, n);
    OutsideChain(m, m3, m3[a := n], all);
    assert h3[a := h3[a].(size := n)] == SplitHeaders(h, a, n);
  }

  lemma MirrorsAt(m: Words, h: Headers, heads: set<nat>, a: nat)
    requires Mirrors(m, h, heads) && a in heads
    ensures Reflects(m, h, a)
  {
  }

  /** The stores of a merge, on the headers that stay in the list. */
  lemma MergeMirrors(m: Words, h: Headers, heads: set<nat>, a: nat)
    requires Mirrors(m, h, heads) && Spaced(heads) && a in heads && Mergeable(h, a) && Reflects(m, h, h[a].next)
    requires h[h[a].next].next != NULL ==> h[h[a].next].next in heads && h[h[a].next].next != a
    ensures Mirrors(MergeStores(m, a), MergeHeaders(h, a), heads)
    ensures SameOutside(m, MergeStores(m, a), heads)
  {
    hide Mirrors, SameOutside, Spaced;
    MirrorsAt(m, h, heads, a);
    var right := h[a].next;
    var next, size := h[right].next, h[a].size + HEADER + h[right].size;
    FieldMirrors(m, h, heads, a, SizeField, size);
    var m1, h1 := m[a := size], h[a := h[a].(size := size)];
    FieldMirrors(m1, h1, heads, a, NextField, next);
    var m2, h2 := m1[a + NEXT := next], h1[a := h1[a].(next := next)];
    OutsideChain(m, m1, m2, heads);
    assert h2 == h[a := h[a].(size := size, next := next)];
    if next != NULL {
      FieldMirrors(m2, h2, heads, next, PrevField, a);
      OutsideChain(m, m2, m2[next + PREV := a], heads);
    }
  }

  lemma SplitSits(m: Words, h: Headers, bs: seq<Block>, i: nat, n: nat, former: set<nat>)
    requires Sits(m, h, bs, former) && i < |bs| && bs[i].size > n + HEADER && GoodSize(n)
    ensures LinkedAt(h, bs, i) && Reflects(m, h, Addr(bs, i))
    ensures h[Addr(bs, i)].next != NULL ==> h[Addr(bs, i)].next in h
    ensures Sits(SplitStores(m, Addr(bs, i), n), SplitHeaders(h, Addr(bs, i), n), SplitBlocks(bs, i, n), former)
    ensures SameOutside(m, SplitStores(m, Addr(bs, i), n), Heads(SplitBlocks(bs, i, n)))
  {
    hide Addr, SplitBlocks, Heads, Aligned, Mirrors, AllSettled;
    var a := Addr(bs, i);
    HeadLinked(m, h, bs, i);
    if i + 1 < |bs| {
      HeadLinked(m, h, bs, i + 1);
    }
    SplitLinked(h, bs, i, n);
    SplitTiled(bs, i, n);
    SplitHeads(bs, i, n);
    HeadsSpaced(SplitBlocks(bs, i, n));
    SplitMirrors(m, h, Heads(bs), a, n);
    LinkedPlain(SplitHeaders(h, a, n), SplitBlocks(bs, i, n));
    StepSettled(m, SplitStores(m, a, n), h, SplitHeaders(h, a, n), Heads(bs), Heads(SplitBlocks(bs, i, n)), former);
  }

  lemma MergeSits(m: Words, h: Headers, bs: seq<Block>, i: nat, former: set<nat>)
    requires Sits(m, h, bs, former) && i + 1 < |bs| && bs[i + 1].free
    requires Addr(bs, i + 1) + 12 in former ==> Addr(bs, i) % 256 != 0
    ensures Mergeable(h, Addr(bs, i))
    ensures Sits(MergeStores(m, Addr(bs, i)), MergeHeaders(h, Addr(bs, i)), MergeBlocks(bs, i), former)
    ensures SameOutside(m, MergeStores(m, Addr(bs, i)), Heads(MergeBlocks(bs, i)))
  {
    hide Addr, MergeBlocks, Heads, Aligned, Mirrors, AllSettled, Spaced, SameOutside, MergeStores, MergeHeaders,
      Refused;
    var a, right, cs := Addr(bs, i), Addr(bs, i + 1), MergeBlocks(bs, i);
    HeadLinked(m, h, bs, i);
    HeadLinked(m, h, bs, i + 1);
    if i + 2 < |bs| {
      HeadLinked(m, h, bs, i + 2);
      Separate(bs, i + 2, i + 1);
      Separate(bs, i + 2, i);
    }
    Separate(bs, i, i + 1);
    MergeLinked(h, bs, i);
    MergeTiled(bs, i);
    MergeHeads(bs, i);
    HeadsSpaced(bs);
    HeadsSpaced(cs);
    FewerMirrors(m, h, Heads(bs), Heads(cs));
    MergeMirrors(m, h, Heads(cs), a);
    LinkedPlain(MergeHeaders(h, a), cs);
    AbsorbedRefused(m, MergeStores(m, a), h, Heads(bs), Heads(cs), right);
    StepSettled(m, MergeStores(m, a), h, MergeHeaders(h, a), Heads(bs), Heads(cs), former);
  }

  lemma FewerMirrors(m: Words, h: Headers, heads: set<nat>, fewer: set<nat>)
    requires Mirrors(m, h, heads) && fewer <= heads
    ensures Mirrors(m, h, fewer)
  {
  }

  /** The flag of a header that leaves the list keeps saying free. */
  lemma AbsorbedRefused(m: Words, m': Words, h: Headers, heads: set<nat>, heads': set<nat>, right: nat)
    requires Spaced(heads) && heads' == heads - {right} && right in heads && SameOutside(m, m', heads')
    requires Reflects(m, h, right) && h[right].isFree
    ensures Refused(m', right)
  {
    assert Peek(m', right + FLAG) == Peek(m, right + FLAG);
  }

  // ----- pointers that kfree can still judge -------------------------------------------

  /** A header of the list lies 12 bytes before `c`, and its predecessor's address ends in a zero byte. */
  ghost predicate BlindSpot(bs: seq<Block>, c: nat) {
    exists k :: 0 <= k < |bs| && Addr(bs, k) + 12 == c && PrevAddr(bs, k) % 256 == 0
  }

  /** Former headers that stay judged by their flag, once the list is `bs`. */
  ghost function Trust(trusted: set<nat>, bs: seq<Block>): set<nat> {
    set c | c in trusted + Heads(bs) && !BlindSpot(bs, c)
  }

  /** Memory holds the list, and `kfree` refuses every trusted address that heads no block. */
  ghost predicate Judged(m: Words, h: Headers, bs: seq<Block>, trusted: set<nat>) {
    && Sits(m, h, bs, trusted) && Heads(bs) <= trusted
    && (forall c :: c in trusted ==> !BlindSpot(bs, c))
  }

  lemma BlindIffBlinded(h: Headers, bs: seq<Block>, c: nat)
    requires Linked(h, bs)
    ensures BlindSpot(bs, c) <==> Blinded(h, Heads(bs), c)
  {
    hide Addr;
    if Blinded(h, Heads(bs), c) {
      var k := HeadIndex(bs, c - 12);
      assert LinkedAt(h, bs, k);
    }
    if BlindSpot(bs, c) {
      var k :| 0 <= k < |bs| && Addr(bs, k) + 12 == c && PrevAddr(bs, k) % 256 == 0;
      assert LinkedAt(h, bs, k);
      HeadMember(bs, k);
    }
  }

  /** A header of the list is never a blind spot. */
  lemma HeadSeen(h: Headers, bs: seq<Block>, a: nat)
    requires Linked(h, bs) && Aligned(bs) && a in Heads(bs)
    ensures !BlindSpot(bs, a)
  {
    BlindIffBlinded(h, bs, a);
    HeadsSpaced(bs);
  }

  /** After a step, trust what is not in a blind spot. */
  lemma TrustJudged(m: Words, h: Headers, bs: seq<Block>, trusted: set<nat>)
    requires Sits(m, h, bs, trusted)
    ensures Judged(m, h, bs, Trust(trusted, bs))
  {
    HeadsSpaced(bs);
    forall a | a in Heads(bs)
      ensures a % 4 == 0 && !BlindSpot(bs, a)
    {
      HeadSeen(h, bs, a);
    }
  }

  /**
    `kfree`'s two tests let exactly the live blocks through, on every trusted address
    and on every other one that fails a test.
   */
  lemma TestsDecide(m: Words, h: Headers, bs: seq<Block>, trusted: set<nat>, c: nat)
    requires Judged(m, h, bs, trusted) && (c in trusted || Refused(m, c))
    ensures !Refused(m, c) <==> LiveAt(bs, c)
  {
    hide Addr;
    BlindIffBlinded(h, bs, c);
    if c in Heads(bs) {
      var k := HeadIndex(bs, c);
      HeadLinked(m, h, bs, k);
      assert LiveAt(bs, c) <== !bs[k].free;
      forall j | 0 <= j < |bs| && Addr(bs, j) == c
        ensures j == k
      {
        AddrInjective(bs, j, k);
      }
    } else {
      assert c in trusted ==> Settled(m, h, Heads(bs), c);
      forall j | 0 <= j < |bs|
        ensures Addr(bs, j) != c
      {
        HeadMember(bs, j);
      }
    }
  }

  /** What a client's store into a payload leaves trusted. */
  ghost function Untouched(trusted: set<nat>, x: nat): set<nat> {
    set c | c in trusted && c + FLAG != x && c + MAGIC != x
  }

  lemma PutJudged(m: Words, h: Headers, bs: seq<Block>, trusted: set<nat>, x: nat, v: nat)
    requires Judged(m, h, bs, trusted) && (forall a :: a in Heads(bs) ==> !Within(x, a))
    ensures Judged(m[x := v], h, bs, Untouched(trusted, x))
  {
    hide Addr, Heads, BlindSpot;
    forall a | a in Heads(bs)
      ensures Reflects(m[x := v], h, a) && a in Untouched(trusted, x)
    {
      assert Reflects(m, h, a) && !Within(x, a);
    }
    forall c | c in Untouched(trusted, x)
      ensures c % 4 == 0 && Settled(m[x := v], h, Heads(bs), c)
    {
      assert Settled(m, h, Heads(bs), c);
    }
  }

  /**
    One new header stored over or beside a former header that is still intact: the
    former one stays refused exactly unless the new one starts 12 bytes before it and
    the address of the new one's predecessor is a multiple of 256.
   */
  lemma OverlapIff(m: Words, c: nat, b: nat, size: nat, next: nat, prev: nat)
    requires b % 4 == 0 && c % 4 == 0 && b != c && Plain(Header(size, true, HEAP_MAGIC, next, prev))
    requires Peek(m, c + MAGIC) == HEAP_MAGIC && FlagSet(m, c)
    ensures Refused(StoreHeader(m, b, size, next, prev), c) <==> !(b + 12 == c && prev % 256 == 0)
  {
    var m' := StoreHeader(m, b, size, next, prev);
    assert Peek(m', b + FLAG) % 256 == 1 && HEAP_MAGIC % 256 == 0xEF;
    assert (c - b) % 4 == 0;
    assert Within(c + FLAG, b) ==> c - b == -4 || c - b == 4 || c - b == 8 || c - b == 12;
    assert Within(c + MAGIC, b) && !Within(c + FLAG, b) ==> c - b == -8;
  }

  /**
    A step of the heap on former headers whose magic word is still there: the memory
    after it lets exactly those in a blind spot pass for a live block.
   */
  ghost predicate MissesBlindSpots(m: Words, m': Words, trusted: set<nat>, bs: seq<Block>) {
    forall c :: c in trusted && c !in Heads(bs) && Peek(m, c + MAGIC) == HEAP_MAGIC ==>
      (Refused(m', c) <==> !BlindSpot(bs, c))
  }

  /** The first payload word of a block lies in no header. */
  lemma PayloadApart(bs: seq<Block>, a: nat)
    requires Aligned(bs) && a in Heads(bs)
    ensures forall b :: b in Heads(bs) ==> !Within(a + HEADER, b)
  {
    var i := HeadIndex(bs, a);
    assert GoodSize(bs[i].size);
    forall b | b in Heads(bs)
      ensures !Within(a + HEADER, b)
    {
      var j := HeadIndex(bs, b);
      if i < j {
        AddrMonotone(bs, i, j);
      } else if j < i {
        AddrMonotone(bs, j, i);
      }
    }
  }

  lemma MissedIff(m: Words, m': Words, h: Headers, h': Headers, trusted: set<nat>, bs: seq<Block>, bs': seq<Block>)
    requires Judged(m, h, bs, trusted) && Judged(m', h', bs', Trust(trusted, bs'))
    requires Heads(bs) <= Heads(bs') || Heads(bs') <= Heads(bs)
    requires SameOutside(m, m', Heads(bs) + Heads(bs'))
    ensures MissesBlindSpots(m, m', trusted, bs')
  {
    hide Heads, Addr, Mirrors, Aligned, BlindSpot;
    forall c | c in trusted && c !in Heads(bs') && Peek(m, c + MAGIC) == HEAP_MAGIC
      ensures Refused(m', c) <==> !BlindSpot(bs', c)
    {
      BlindIffBlinded(h', bs', c);
      if BlindSpot(bs', c) {
        var a := c - 12;
        MirrorsAt(m', h', Heads(bs'), a);
        PayloadApart(bs', a);
        if a in Heads(bs) {
          PayloadApart(bs, a);
        }
        assert Peek(m', a + HEADER) == Peek(m, a + HEADER);
      } else {
        assert c in Trust(trusted, bs');
        assert Settled(m', h', Heads(bs'), c);
      }
    }
  }

  // ----- small facts for the allocator ------------------------------------------------

  lemma NothingOutside(m: Words, heads: set<nat>)
    ensures SameOutside(m, m, heads)
  {
  }

  lemma OutsideWider(m: Words, m': Words, heads: set<nat>, more: set<nat>)
    requires SameOutside(m, m', heads) && heads <= more
    ensures SameOutside(m, m', more)
  {
  }

  lemma TrustStays(m: Words, h: Headers, bs: seq<Block>, trusted: set<nat>)
    requires Judged(m, h, bs, trusted)
    ensures Trust(trusted, bs) == trusted && SameOutside(m, m, Heads(bs)) && MissesBlindSpots(m, m, trusted, bs)
  {
    assert Trust(trusted, bs) == trusted;
    MissedIff(m, m, h, h, trusted, bs, bs);
  }

  lemma HeadJudged(m: Words, h: Headers, bs: seq<Block>, trusted: set<nat>, k: nat)
    requires Judged(m, h, bs, trusted) && k < |bs|
    ensures LinkedAt(h, bs, k) && Reflects(m, h, Addr(bs, k))
  {
    HeadLinked(m, h, bs, k);
  }

  lemma HeaderInRegion(bs: seq<Block>, a: nat)
    requires Addr(bs, |bs|) == HEAP_END && LiveAt(bs, a)
    ensures a < HEAP_END
  {
    AddrMonotone(bs, IndexOf(bs, a), |bs|);
  }

  lemma InitialJudged(m: Words)
    ensures var m' := StoreHeader(m, HEAP_START, HEAP_SIZE - HEADER, NULL, NULL);
            var h := map[HEAP_START := Header(HEAP_SIZE - HEADER, true, HEAP_MAGIC, NULL, NULL)];
            Judged(m', h, INITIAL, {HEAP_START})
  {
    var m' := StoreHeader(m, HEAP_START, HEAP_SIZE - HEADER, NULL, NULL);
    var h := map[HEAP_START := Header(HEAP_SIZE - HEADER, true, HEAP_MAGIC, NULL, NULL)];
    InitialWellFormed();
    assert Addr(INITIAL, 0) == HEAP_START;
    assert Heads(INITIAL) == {HEAP_START};
    assert LinkedAt(h, INITIAL, 0);
    assert Reflects(m', h, HEAP_START);
    HeadSeen(h, INITIAL, HEAP_START);
  }

  /** Block `j` blinds nothing that is trusted. */
  ghost predicate Seen(bs: seq<Block>, j: nat, trusted: set<nat>) {
    0 < j < |bs| && Addr(bs, j) + 12 in trusted ==> Addr(bs, j - 1) % 256 != 0
  }

  lemma MarkSeen(bs: seq<Block>, k: nat, trusted: set<nat>)
    requires k < |bs| && (forall c :: c in trusted ==> !BlindSpot(bs, c))
    ensures var cs := bs[k := bs[k].(free := true)];
            Addr(cs, k) == Addr(bs, k) && Seen(cs, k, trusted) && Seen(cs, k + 1, trusted)
  {
    hide Addr;
    MarkAddr(bs, k, true, k);
    MarkAddr(bs, k, true, k + 1);
    if k > 0 {
      MarkAddr(bs, k, true, k - 1);
      assert PrevAddr(bs, k) == Addr(bs, k - 1);
    }
    if k + 1 < |bs| {
      assert PrevAddr(bs, k + 1) == Addr(bs, k);
    }
  }

  lemma MergeSeen(bs: seq<Block>, k: nat, trusted: set<nat>)
    requires k + 1 < |bs| && Seen(bs, k, trusted)
    ensures k < |MergeBlocks(bs, k)| && Addr(MergeBlocks(bs, k), k) == Addr(bs, k)
    ensures Seen(MergeBlocks(bs, k), k, trusted)
  {
    hide Addr;
    MergeAddr(bs, k, k);
    if k > 0 {
      MergeAddr(bs, k, k - 1);
    }
  }

  lemma PayloadOutside(bs: seq<Block>, x: nat)
    requires WellFormed(bs) && InPayload(bs, x)
    ensures forall a :: a in Heads(bs) ==> !Within(x, a)
  {
    var k :| 0 <= k < |bs| && !bs[k].free && Addr(bs, k) + HEADER <= x < Addr(bs, k) + HEADER + bs[k].size;
    forall a | a in Heads(bs)
      ensures !Within(x, a)
    {
      var j := HeadIndex(bs, a);
      PayloadIsolated(bs, k, j, x);
    }
  }

  /** A call that stores into headers only leaves every word of a client's payload alone. */
  lemma PayloadKept(m: Words, m': Words, bs: seq<Block>, x: nat)
    requires WellFormed(bs) && InPayload(bs, x) && SameOutside(m, m', Heads(bs))
    ensures Peek(m', x) == Peek(m, x)
  {
    PayloadOutside(bs, x);
  }

  /** The first block of the region takes in its only neighbour: the old header keeps its magic. */
  lemma AbsorbKeepsMagic(m: Words, a: nat, c: nat)
    requires a + HEADER < c && Peek(m, a + NEXT) == c && Peek(m, a + PREV) == NULL
    requires FlagSet(m, c) && Peek(m, c + NEXT) == NULL
    ensures Peek(FreeStores(m, a), c + MAGIC) == Peek(m, c + MAGIC)
  {
  }

  /** A split of such a block puts a zero flag where a header 12 bytes further on used to be. */
  lemma SplitBlinds(m: Words, a: nat, n: nat)
    requires a % 256 == 0 && Peek(m, a) > n + HEADER + 4 && Peek(m, a + NEXT) == NULL
    ensures var c := a + HEADER + n + 12;
            && Peek(TakeStores(m, a, n), c + FLAG) % 256 == 0
            && Peek(TakeStores(m, a, n), c + MAGIC) == Peek(m, c + MAGIC)
  {
  }
}
