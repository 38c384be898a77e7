/** Probing and creating a PyFS context, kernel/fs/pyfs.c. */
module Pyfs {
  import opened HeapSpec
  import opened HeapClient
  import opened HeapRuns
  import opened Blocks
  import H = Heap

  const MAGIC := 0x5346_5950
  const VERSION := 1
  const SIZEOF_CTX := 20

  datatype Rc = Ok | IoError | BadSuperblock | NoSpace

  predicate ValidSuperblock(s: Sector) {
    U32At(s, 0) == MAGIC && U32At(s, 4) == VERSION && U32At(s, 8) == SECTOR
  }

  /** The superblock begins with "PYFS", version 1 and block size 512, each lowest byte first. */
  lemma SuperblockBytes(s: Sector)
    ensures ValidSuperblock(s) <==> s[..12] == [0x50, 0x59, 0x46, 0x53, 1, 0, 0, 0, 0, 2, 0, 0]
  {
    if ValidSuperblock(s) {
      BytesOf(s, 0);
      BytesOf(s, 4);
      BytesOf(s, 8);
    }
    var b := s[..12];
    assert forall k :: 0 <= k < 12 ==> b[k] == s[k];
  }

  /** A field fixes its bytes. */
  lemma BytesOf(s: Sector, at: nat)
    requires at + 4 <= SECTOR
    ensures var n := U32At(s, at);
            && s[at] == n % 256 && s[at + 1] == n / 256 % 256
            && s[at + 2] == n / 65536 % 256 && s[at + 3] == n / 16777216
  {
    var b0: nat, b1: nat, b2: nat, b3: nat := s[at], s[at + 1], s[at + 2], s[at + 3];
    var n := U32At(s, at);
    assert n == b0 + 256 * (b1 + 256 * (b2 + 256 * b3));
    assert n / 256 == b1 + 256 * (b2 + 256 * b3);
    assert n / 65536 == b2 + 256 * b3;
  }

  /** `pyfs_probe` */
  method Probe(dev: Device, io: Io) returns (rc: Rc)
    ensures rc == IoError <==> Read(dev, 0, io).None?
    ensures rc == Ok <==> Read(dev, 0, io).Some? && ValidSuperblock(Read(dev, 0, io).value)
    ensures rc == Ok <==>
            Read(dev, 0, io).Some? &&
            Read(dev, 0, io).value[..12] == [0x50, 0x59, 0x46, 0x53, 1, 0, 0, 0, 0, 2, 0, 0]
    ensures rc != NoSpace
  {
    var r := Read(dev, 0, io);
    if r.None? {
      return IoError;
    }
    SuperblockBytes(r.value);
    if U32At(r.value, 0) != MAGIC {
      return BadSuperblock;
    }
    if U32At(r.value, 4) != VERSION {
      return BadSuperblock;
    }
    if U32At(r.value, 8) != SECTOR {
      return BadSuperblock;
    }
    return Ok;
  }

  /** `pyfs_create`: a failed probe restores the heap's exact block list. */
  method Create(heap: H.KernelHeap, dev: Device, io: Io) returns (rc: Rc, ctx: nat, ghost x: Grant)
    requires heap.Ready()
    modifies heap
    ensures heap.Ready()
    ensures rc == Ok ==>
              && ctx == x.0 + HEADER && x !in Live(old(heap.blocks))
              && Live(heap.blocks) == Live(old(heap.blocks)) + {x}
    ensures rc != Ok ==> heap.blocks == old(heap.blocks)
    ensures rc == NoSpace <==> !Room(old(heap.blocks), SIZEOF_CTX)
    ensures rc == IoError <==> Room(old(heap.blocks), SIZEOF_CTX) && Read(dev, 0, io).None?
    ensures rc == Ok <==> Room(old(heap.blocks), SIZEOF_CTX) &&
                          Read(dev, 0, io).Some? && ValidSuperblock(Read(dev, 0, io).value)
  {
    ghost var blocks := heap.blocks;
    ctx, x := Take(heap, SIZEOF_CTX);
    if ctx == NULL {
      return NoSpace, ctx, x;
    }
    assert (x.0, x.1) !in Live(blocks);
    rc := Probe(dev, io);
    if rc != Ok {
      Undo(heap, ctx, x, blocks);
    }
  }
}
