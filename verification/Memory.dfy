// The kernel allocator, as far as the driver relies on it: which blocks are
// allocated and not yet freed. A block is filled when it is allocated and not
// changed afterwards. A block of no bytes is a shared sentinel that nobody
// owns, and no block has a negative size.

module Memory {
  import opened Streams

  class Block {
    const bytes: seq<byte>

    constructor (bytes: seq<byte>)
      ensures this.bytes == bytes
    {
      this.bytes := bytes;
    }
  }

  class Heap {
    ghost var live: set<Block?>
    const zeroPtr: Block

    ghost predicate Valid()
      reads this
    {
      null !in live && zeroPtr !in live && zeroPtr.bytes == []
    }

    constructor ()
      ensures Valid() && live == {} && fresh(zeroPtr)
    {
      zeroPtr := new Block([]);
      live := {};
    }

    /** A block of the given size, for the bytes about to be copied into it. */
    method Kmalloc(size: int, bytes: seq<byte>) returns (p: Block?)
      requires Valid() && (size >= 0 ==> |bytes| == size)
      modifies this
      ensures Valid()
      ensures size < 0 ==> p == null && live == old(live)
      ensures size == 0 ==> p == zeroPtr && live == old(live)
      ensures size > 0 ==> p != null && fresh(p) && p.bytes == bytes && live == old(live) + {p}
    {
      if size < 0 {
        p := null;
      } else if size == 0 {
        p := zeroPtr;
      } else {
        p := new Block(bytes);
        live := live + {p};
      }
    }

    /** Grow a block: its bytes move along, followed by the ones about to be
        copied in, and the old block is given back. */
    method Krealloc(p: Block, bytes: seq<byte>) returns (q: Block?)
      requires Valid() && p in live
      modifies this
      ensures Valid()
      ensures q != null && fresh(q) && q.bytes == p.bytes + bytes
      ensures live == old(live) - {p} + {q}
    {
      q := new Block(p.bytes + bytes);
      live := live - {p} + {q};
    }

    /** Only a block that is still allocated may be freed; null and the
        zero-size sentinel are ignored. */
    method Kfree(p: Block?)
      requires Valid() && (p == null || p == zeroPtr || p in live)
      modifies this
      ensures Valid() && live == old(live) - {p}
    {
      live := live - {p};
    }
  }
}
