/**
  The kernel heap as a list of blocks that tile a fixed region
  (kernel/core/heap.c). Addresses are derived from the sizes.
 */
module HeapSpec {

  const HEAP_START := 0xD000_0000
  const HEAP_SIZE := 0x10_0000
  const HEAP_END := HEAP_START + HEAP_SIZE
  const HEADER := 20
  const NULL := 0

  datatype Block = Block(size: nat, free: bool)

  /** Address of the header of block `i`; `i == |bs|` gives the end of the list. */
  function Addr(bs: seq<Block>, i: nat): (a: nat)
    requires i <= |bs|
    ensures a >= HEAP_START
  {
    if i == 0 then HEAP_START else Addr(bs, i - 1) + HEADER + bs[i - 1].size
  }

  /** Blocks `i` and `i + 1` are both free. */
  predicate FreePair(bs: seq<Block>, i: int) {
    0 <= i && i + 1 < |bs| && bs[i].free && bs[i + 1].free
  }

  predicate GoodSize(n: nat) { n > 0 && n % 4 == 0 }

  ghost predicate Aligned(bs: seq<Block>) {
    forall i :: 0 <= i < |bs| ==> GoodSize(bs[i].size)
  }

  /** The blocks tile the region and no two neighbours are both free. */
  ghost predicate WellFormed(bs: seq<Block>) {
    && Addr(bs, |bs|) == HEAP_END
    && Aligned(bs)
    && (forall i :: !FreePair(bs, i))
  }

  /** The live allocations among blocks [i, j): header address and granted size. */
  ghost function LiveIn(bs: seq<Block>, i: nat, j: nat): set<(nat, nat)>
    requires i <= j <= |bs|
    decreases j
  {
    if i == j then {}
    else LiveIn(bs, i, j - 1) + if bs[j - 1].free then {} else {(Addr(bs, j - 1), bs[j - 1].size)}
  }

  ghost function Live(bs: seq<Block>): set<(nat, nat)> {
    LiveIn(bs, 0, |bs|)
  }

  const INITIAL := [Block(HEAP_SIZE - HEADER, true)]

  // ----- addresses ------------------------------------------------------------------

  lemma {:induction false} AddrMonotone(bs: seq<Block>, i: nat, j: nat)
    requires i < j <= |bs|
    ensures Addr(bs, i) + HEADER + bs[i].size <= Addr(bs, j)
  {
    if i < j - 1 {
      AddrMonotone(bs, i, j - 1);
    }
  }

  /** Different blocks have different addresses. */
  lemma AddrInjective(bs: seq<Block>, i: nat, j: nat)
    requires i <= |bs| && j <= |bs| && Addr(bs, i) == Addr(bs, j)
    ensures i == j
  {
    if i < j {
      AddrMonotone(bs, i, j);
    } else if j < i {
      AddrMonotone(bs, j, i);
    }
  }

  lemma {:induction false} AddrPrefix(bs: seq<Block>, cs: seq<Block>, i: nat)
    requires i <= |bs| && i <= |cs| && (forall k :: 0 <= k < i ==> bs[k].size == cs[k].size)
    ensures Addr(bs, i) == Addr(cs, i)
  {
    if i > 0 {
      AddrPrefix(bs, cs, i - 1);
    }
  }

  /** Lists that agree from some point on, at equal addresses, keep equal addresses. */
  lemma {:induction false} AddrSuffix(bs: seq<Block>, i: nat, cs: seq<Block>, j: nat, n: nat)
    requires i + n <= |bs| && j <= |cs| && Addr(bs, i) == Addr(cs, j)
    requires bs[i..] == cs[j..]
    ensures j + n <= |cs| && Addr(bs, i + n) == Addr(cs, j + n)
  {
    assert |bs[i..]| == |cs[j..]|;
    if n > 0 {
      AddrSuffix(bs, i, cs, j, n - 1);
      assert bs[i..][n - 1] == cs[j..][n - 1];
    }
  }

  // ----- canonical form ---------------------------------------------------------------

  lemma {:induction false} LiveMember(bs: seq<Block>, i: nat, j: nat, k: nat)
    requires i <= k < j <= |bs| && !bs[k].free
    ensures (Addr(bs, k), bs[k].size) in LiveIn(bs, i, j)
    decreases j
  {
    if k < j - 1 {
      LiveMember(bs, i, j - 1, k);
    }
  }

  lemma {:induction false} LiveWitness(bs: seq<Block>, i: nat, j: nat, x: (nat, nat)) returns (k: nat)
    requires i <= j <= |bs| && x in LiveIn(bs, i, j)
    ensures i <= k < j && !bs[k].free && x == (Addr(bs, k), bs[k].size)
    decreases j
  {
    if x in LiveIn(bs, i, j - 1) {
      k := LiveWitness(bs, i, j - 1, x);
    } else {
      k := j - 1;
    }
  }

  /** The live block of `cs` that sits where live block `i` of `bs` does. */
  lemma Counterpart(bs: seq<Block>, cs: seq<Block>, i: nat) returns (j: nat)
    requires Live(bs) == Live(cs) && i < |bs| && !bs[i].free
    ensures j < |cs| && !cs[j].free && Addr(cs, j) == Addr(bs, i) && cs[j].size == bs[i].size
  {
    LiveMember(bs, 0, |bs|, i);
    j := LiveWitness(cs, 0, |cs|, (Addr(bs, i), bs[i].size));
  }

  /** At equal addresses, a live block of one list is a block of the other. */
  lemma LiveAgrees(bs: seq<Block>, cs: seq<Block>, k: nat)
    requires WellFormed(bs) && WellFormed(cs) && Live(bs) == Live(cs)
    requires k < |bs| && k < |cs| && Addr(bs, k) == Addr(cs, k) && !bs[k].free
    ensures bs[k] == cs[k]
  {
    var j := Counterpart(bs, cs, k);
    AddrInjective(cs, j, k);
  }

  lemma Beyond(bs: seq<Block>, k: nat, j: nat)
    requires k < |bs| && j < |bs| && Addr(bs, j) > Addr(bs, k)
    ensures Addr(bs, j) >= Addr(bs, k) + HEADER + bs[k].size
  {
    if j < k {
      AddrMonotone(bs, j, k);
    } else if k < j {
      AddrMonotone(bs, k, j);
    }
  }

  /** A free block reaches at least as far as the other list's free block. */
  lemma FreeReach(bs: seq<Block>, cs: seq<Block>, k: nat)
    requires WellFormed(bs) && WellFormed(cs) && Live(bs) == Live(cs)
    requires k < |bs| && k < |cs| && Addr(bs, k) == Addr(cs, k) && bs[k].free && cs[k].free
    ensures bs[k].size >= cs[k].size
  {
    if k + 1 == |bs| {
      AddrMonotone(cs, k, |cs|);
    } else {
      assert !FreePair(bs, k);
      var j := Counterpart(bs, cs, k + 1);
      Reaches(bs, cs, k, j);
    }
  }

  lemma Reaches(bs: seq<Block>, cs: seq<Block>, k: nat, j: nat)
    requires k + 1 < |bs| && k < |cs| && Addr(bs, k) == Addr(cs, k)
    requires j < |cs| && Addr(cs, j) == Addr(bs, k + 1)
    ensures bs[k].size >= cs[k].size
  {
    Beyond(cs, k, j);
  }

  lemma {:induction false} SamePrefix(bs: seq<Block>, cs: seq<Block>, k: nat)
    requires WellFormed(bs) && WellFormed(cs) && Live(bs) == Live(cs)
    requires k <= |bs| && k <= |cs|
    ensures bs[..k] == cs[..k]
  {
    if k > 0 {
      SamePrefix(bs, cs, k - 1);
      var i := k - 1;
      AddrPrefix(bs, cs, i) by {
        forall m | 0 <= m < i
          ensures bs[m].size == cs[m].size
        {
          assert bs[..i][m] == cs[..i][m];
        }
      }
      if !bs[i].free {
        LiveAgrees(bs, cs, i);
      } else if !cs[i].free {
        LiveAgrees(cs, bs, i);
      } else {
        FreeReach(bs, cs, i);
        FreeReach(cs, bs, i);
      }
      assert bs[..k] == bs[..i] + [bs[i]];
      assert cs[..k] == cs[..i] + [cs[i]];
    }
  }

  /** The block list is a function of the live allocations alone. */
  lemma Canonical(bs: seq<Block>, cs: seq<Block>)
    requires WellFormed(bs) && WellFormed(cs) && Live(bs) == Live(cs)
    ensures bs == cs
  {
    var k := if |bs| <= |cs| then |bs| else |cs|;
    SamePrefix(bs, cs, k);
    AddrPrefix(bs, cs, k) by {
      forall m | 0 <= m < k
        ensures bs[m].size == cs[m].size
      {
        assert bs[..k][m] == cs[..k][m];
      }
    }
    if k < |cs| {
      AddrMonotone(cs, k, |cs|);
    }
    if k < |bs| {
      AddrMonotone(bs, k, |bs|);
    }
  }

  // ----- replacing a run of blocks ----------------------------------------------------

  /** `bs` with blocks [i, j) replaced by `mid`. */
  function Splice(bs: seq<Block>, i: nat, j: nat, mid: seq<Block>): seq<Block>
    requires i <= j <= |bs|
  {
    bs[..i] + mid + bs[j..]
  }

  lemma {:induction false} LiveSplit(bs: seq<Block>, i: nat, j: nat, k: nat)
    requires i <= j <= k <= |bs|
    ensures LiveIn(bs, i, k) == LiveIn(bs, i, j) + LiveIn(bs, j, k)
  {
    if j < k {
      LiveSplit(bs, i, j, k - 1);
    }
  }

  lemma LiveParts(bs: seq<Block>, i: nat, j: nat)
    requires i <= j <= |bs|
    ensures Live(bs) == LiveIn(bs, 0, i) + LiveIn(bs, i, j) + LiveIn(bs, j, |bs|)
  {
    LiveSplit(bs, 0, i, |bs|);
    LiveSplit(bs, i, j, |bs|);
  }

  lemma SpliceAligned(bs: seq<Block>, i: nat, j: nat, mid: seq<Block>)
    requires i <= j <= |bs| && Aligned(bs) && Aligned(mid)
    ensures Aligned(Splice(bs, i, j, mid))
  {
  }

  /** Addresses before and after a splice that keeps the extent. */
  lemma SpliceAddr(bs: seq<Block>, i: nat, j: nat, mid: seq<Block>, k: nat)
    requires i <= j <= |bs| && k <= |bs|
    requires Addr(Splice(bs, i, j, mid), i + |mid|) == Addr(bs, j)
    ensures k <= i ==> Addr(Splice(bs, i, j, mid), k) == Addr(bs, k)
    ensures k >= j ==> Addr(Splice(bs, i, j, mid), k - j + i + |mid|) == Addr(bs, k)
  {
    var cs := Splice(bs, i, j, mid);
    if k <= i {
      AddrPrefix(cs, bs, k);
    }
    if k >= j {
      assert cs[i + |mid|..] == bs[j..];
      AddrSuffix(bs, j, cs, i + |mid|, k - j);
    }
  }

  /** Runs of equal blocks at equal addresses have equal live sets. */
  lemma {:induction false} LiveSame(bs: seq<Block>, i: nat, cs: seq<Block>, j: nat, n: nat)
    requires i + n <= |bs| && j + n <= |cs| && Addr(bs, i) == Addr(cs, j)
    requires bs[i..i + n] == cs[j..j + n]
    ensures LiveIn(bs, i, i + n) == LiveIn(cs, j, j + n)
    ensures Addr(bs, i + n) == Addr(cs, j + n)
  {
    if n > 0 {
      assert bs[i..i + n][n - 1] == cs[j..j + n][n - 1];
      assert bs[i..i + n][..n - 1] == bs[i..i + (n - 1)] && cs[j..j + n][..n - 1] == cs[j..j + (n - 1)];
      LiveSame(bs, i, cs, j, n - 1);
    }
  }

  /** A splice that keeps the extent changes only the live set of the spliced run. */
  lemma SpliceLive(bs: seq<Block>, i: nat, j: nat, mid: seq<Block>)
    requires i <= j <= |bs|
    requires Addr(Splice(bs, i, j, mid), i + |mid|) == Addr(bs, j)
    ensures var cs := Splice(bs, i, j, mid);
            && Addr(cs, |cs|) == Addr(bs, |bs|)
            && Live(cs) == LiveIn(bs, 0, i) + LiveIn(cs, i, i + |mid|) + LiveIn(bs, j, |bs|)
  {
    SpliceHead(bs, i, j, mid);
    SpliceTail(bs, i, j, mid);
    LiveParts(Splice(bs, i, j, mid), i, i + |mid|);
  }

  lemma SpliceHead(bs: seq<Block>, i: nat, j: nat, mid: seq<Block>)
    requires i <= j <= |bs|
    ensures LiveIn(Splice(bs, i, j, mid), 0, i) == LiveIn(bs, 0, i)
  {
    var cs := Splice(bs, i, j, mid);
    assert cs[0..i] == bs[0..i];
    LiveSame(cs, 0, bs, 0, i);
  }

  lemma SpliceTail(bs: seq<Block>, i: nat, j: nat, mid: seq<Block>)
    requires i <= j <= |bs|
    requires Addr(Splice(bs, i, j, mid), i + |mid|) == Addr(bs, j)
    ensures var cs := Splice(bs, i, j, mid);
            && Addr(cs, |cs|) == Addr(bs, |bs|)
            && LiveIn(cs, i + |mid|, |cs|) == LiveIn(bs, j, |bs|)
  {
    var cs := Splice(bs, i, j, mid);
    var m, n := i + |mid|, |bs| - j;
    assert cs[m..m + n] == bs[j..j + n];
    LiveSame(cs, m, bs, j, n);
  }
}
