// The ring of stored write commands (aesd-char-driver/aesd-circular-buffer.c).
// The capacity is any positive constant of the buffer; the driver compiles in
// AESDCHAR_MAX_WRITE_OPERATIONS_SUPPORTED, which is 10.

module CircularBuffers {
  import opened Streams
  import opened Offsets
  import opened Memory
  import opened Turns

  datatype Entry = Entry(buffptr: Block?, size: nat)

  const NO_ENTRY := Entry(null, 0)

  function EntrySizes(entries: seq<Entry>): seq<nat> {
    seq(|entries|, i requires 0 <= i < |entries| => entries[i].size)
  }

  ghost function BlockOf(e: Entry): set<Block?> {
    if e.size > 0 then {e.buffptr} else {}
  }

  /** The blocks behind the first n entries; an empty entry has none. */
  ghost function BlocksUpTo(entries: seq<Entry>, n: nat): set<Block?>
    requires n <= |entries|
  {
    if n == 0 then {} else BlocksUpTo(entries, n - 1) + BlockOf(entries[n - 1])
  }

  ghost function BlocksOf(entries: seq<Entry>): set<Block?> {
    BlocksUpTo(entries, |entries|)
  }

  lemma {:induction false} BlocksAre(entries: seq<Entry>, n: nat, b: Block?)
    requires n <= |entries|
    ensures b in BlocksUpTo(entries, n) <==> exists i :: 0 <= i < n && entries[i].size > 0 && entries[i].buffptr == b
  {
    if n > 0 {
      BlocksAre(entries, n - 1, b);
      if entries[n - 1].size > 0 && entries[n - 1].buffptr == b {
        assert b in BlocksUpTo(entries, n);
      }
    }
  }

  ghost predicate Separate(a: Entry, b: Entry) {
    a.size > 0 && b.size > 0 ==> a.buffptr != b.buffptr
  }

  /** Every entry has a block of its own size; an empty one the shared
      sentinel, the others pairwise distinct allocated blocks. */
  ghost predicate Owned(entries: seq<Entry>, blocks: set<Block?>, zeroPtr: Block?) {
    && (forall i :: 0 <= i < |entries| ==>
          var e := entries[i];
          && e.buffptr != null && |e.buffptr.bytes| == e.size
          && (if e.size == 0 then e.buffptr == zeroPtr else e.buffptr in blocks))
    && forall i, j {:trigger Separate(entries[i], entries[j])} :: 0 <= i < j < |entries| ==>
         Separate(entries[i], entries[j])
  }

  /** The block of entry n is still allocated when those before it are freed. */
  lemma NextBlock(entries: seq<Entry>, blocks: set<Block?>, zeroPtr: Block?, n: nat)
    requires Owned(entries, blocks, zeroPtr) && n < |entries| && zeroPtr !in blocks
    ensures var b := entries[n].buffptr;
            && b != null
            && (b == zeroPtr || b in blocks - BlocksUpTo(entries, n))
            && blocks - BlocksUpTo(entries, n) - {b} == blocks - BlocksUpTo(entries, n + 1)
  {
    BlocksAre(entries, n, entries[n].buffptr);
    assert forall i :: 0 <= i < n ==> Separate(entries[i], entries[n]);
  }

  lemma OwnedAdd(entries: seq<Entry>, blocks: set<Block?>, zeroPtr: Block?, e: Entry)
    requires Owned(entries, blocks, zeroPtr) && Owned([e], blocks, zeroPtr)
    requires e.size > 0 ==> e.buffptr !in BlocksOf(entries)
    ensures Owned(entries + [e], blocks, zeroPtr)
    ensures BlocksOf(entries + [e]) == BlocksOf(entries) + BlockOf(e)
  {
    assert [e][0] == e;
    forall i | 0 <= i < |entries|
      ensures Separate(entries[i], e)
    {
      BlocksAre(entries, |entries|, e.buffptr);
    }
    BlocksOfPrefix(entries, [e], |entries|);
  }

  lemma {:induction false} BlocksOfPrefix(a: seq<Entry>, b: seq<Entry>, n: nat)
    requires n <= |a|
    ensures BlocksUpTo(a + b, n) == BlocksUpTo(a, n)
  {
    if n > 0 {
      BlocksOfPrefix(a, b, n - 1);
    }
  }

  lemma {:induction false} BlocksDropOldest(entries: seq<Entry>, n: nat)
    requires 0 < n <= |entries|
    ensures BlocksUpTo(entries, n) == BlockOf(entries[0]) + BlocksUpTo(entries[1..], n - 1)
  {
    if n == 1 {
      assert BlocksUpTo(entries, 1) == BlocksUpTo(entries, 0) + BlockOf(entries[0]);
    } else {
      BlocksDropOldest(entries, n - 1);
    }
  }

  lemma OwnedDropOldest(entries: seq<Entry>, blocks: set<Block?>, zeroPtr: Block?)
    requires Owned(entries, blocks, zeroPtr) && entries != [] && zeroPtr !in blocks
    ensures var b := entries[0].buffptr; var rest := entries[1..];
            && b != null && (b == zeroPtr || b in BlocksOf(entries))
            && Owned(rest, blocks - {b}, zeroPtr)
            && BlocksOf(rest) == BlocksOf(entries) - {b}
  {
    var b, rest := entries[0].buffptr, entries[1..];
    BlocksDropOldest(entries, |entries|);
    BlocksAre(rest, |rest|, b);
    BlocksAre(rest, |rest|, zeroPtr);
    forall i | 0 <= i < |rest|
      ensures rest[i].size == 0 || rest[i].buffptr != b
    {
      assert Separate(entries[0], entries[i + 1]);
    }
  }

  /** Adding an entry to a ring of cap slots and freeing the block it hands
      back leaves every block with one owner. */
  lemma OwnedAfterAdd(entries: seq<Entry>, cap: nat, blocks: set<Block?>, zeroPtr: Block?, e: Entry)
    returns (evicted: Block?)
    requires 0 < cap && |entries| <= cap && null !in blocks && zeroPtr !in blocks
    requires Owned(entries, blocks, zeroPtr) && Owned([e], blocks, zeroPtr)
    requires e.size > 0 ==> e.buffptr !in BlocksOf(entries)
    ensures evicted == if |entries| == cap then entries[0].buffptr else null
    ensures evicted == null || evicted == zeroPtr || evicted in BlocksOf(entries)
    ensures Owned(LastN(cap, entries + [e]), blocks - {evicted}, zeroPtr)
    ensures BlocksOf(LastN(cap, entries + [e])) == BlocksOf(entries) - {evicted} + BlockOf(e)
  {
    assert [e][0] == e;
    if |entries| == cap {
      evicted := entries[0].buffptr;
      OwnedDropOldest(entries, blocks, zeroPtr);
      assert LastN(cap, entries + [e]) == entries[1..] + [e];
      OwnedAdd(entries[1..], blocks - {evicted}, zeroPtr, e);
    } else {
      evicted := null;
      OwnedAdd(entries, blocks, zeroPtr, e);
      BlocksAre(entries, |entries|, null);
      assert blocks - {null} == blocks;
    }
  }

  /** The slots hold the live entries, oldest in slot out, and are zero otherwise. */
  ghost predicate Holds(slots: seq<Entry>, out: nat, live: seq<Entry>) {
    && out < |slots| && |live| <= |slots|
    && forall i :: 0 <= i < |slots| ==>
         slots[Around(|slots|, out, i)] == if i < |live| then live[i] else NO_ENTRY
  }

  /** Every field of the ring, in terms of the live entries and of the number
      of entries ever added. */
  ghost predicate RingOk(slots: seq<Entry>, inOffs: nat, outOffs: nat, full: bool, buffSize: nat, live: seq<Entry>,
                         adds: nat)
  {
    var cap := |slots|;
    && 0 < cap
    && |live| == (if adds < cap then adds else cap)
    && (full <==> adds >= cap)
    && inOffs == Steps(adds, cap)
    && outOffs == Oldest(adds, cap)
    && Holds(slots, outOffs, live)
    && buffSize == Sum(EntrySizes(live))
  }

  /** The ring after `adds` additions to an empty one. */
  lemma RingAfterAdds(slots: seq<Entry>, inOffs: nat, outOffs: nat, full: bool, buffSize: nat, live: seq<Entry>,
                      adds: nat)
    requires RingOk(slots, inOffs, outOffs, full, buffSize, live, adds)
    ensures inOffs == adds % |slots|
    ensures full <==> adds >= |slots|
    ensures outOffs == if adds < |slots| then 0 else inOffs
    ensures forall j :: adds <= j < |slots| ==> slots[j] == NO_ENTRY
    ensures forall i :: 0 <= i < |live| ==> slots[(outOffs + i) % |slots|] == live[i]
  {
    var cap := |slots|;
    StepsIsModulo(adds, cap);
    forall j | adds <= j < cap
      ensures slots[j] == NO_ENTRY
    {
      assert Around(cap, outOffs, j) == j;
    }
    forall i | 0 <= i < |live|
      ensures slots[(outOffs + i) % cap] == live[i]
    {
      AroundIsModulo(cap, outOffs, i);
      assert slots[Around(cap, outOffs, i)] == live[i];
    }
  }

  lemma PutNewest(slots: seq<Entry>, out: nat, live: seq<Entry>, e: Entry)
    requires Holds(slots, out, live) && |live| < |slots|
    ensures Holds(slots[Around(|slots|, out, |live|) := e], out, live + [e])
  {
  }

  lemma ReplaceOldest(slots: seq<Entry>, out: nat, live: seq<Entry>, e: Entry)
    requires Holds(slots, out, live) && |live| == |slots|
    ensures Holds(slots[out := e], Next(out, |slots|), live[1..] + [e])
  {
    var cap, live' := |slots|, live[1..] + [e];
    forall i | 0 <= i < cap
      ensures slots[out := e][Around(cap, Next(out, cap), i)] == live'[i]
    {
      if i + 1 < cap {
        assert Around(cap, out, i + 1) == Around(cap, Next(out, cap), i);
      }
    }
  }

  lemma SizesDropOldest(entries: seq<Entry>)
    requires entries != []
    ensures Sum(EntrySizes(entries)) == entries[0].size + Sum(EntrySizes(entries[1..]))
  {
    SumToFirst(EntrySizes(entries), |entries|);
    assert EntrySizes(entries)[1..] == EntrySizes(entries[1..]);
  }

  lemma SizesAddNewest(entries: seq<Entry>, e: Entry)
    ensures Sum(EntrySizes(entries + [e])) == Sum(EntrySizes(entries)) + e.size
  {
    SumToPrefix(EntrySizes(entries + [e]), EntrySizes(entries), |entries|);
  }

  /** The fields after an addition, in step with the kept entries again. */
  lemma AfterAdd(slots: seq<Entry>, inOffs: nat, outOffs: nat, full: bool, buffSize: nat, live: seq<Entry>, adds: nat,
                 e: Entry)
    returns (slots': seq<Entry>, in': nat, out': nat, size': nat, live': seq<Entry>)
    requires RingOk(slots, inOffs, outOffs, full, buffSize, live, adds)
    ensures inOffs < |slots| && outOffs < |slots| && slots' == slots[inOffs := e] && in' == Next(inOffs, |slots|)
    ensures full <==> |live| == |slots|
    ensures full ==> inOffs == outOffs && slots[outOffs] == live[0] && live[0].size <= buffSize
    ensures out' == if full then in' else outOffs
    ensures size' == (if full then buffSize - live[0].size else buffSize) + e.size
    ensures live' == LastN(|slots|, live + [e])
    ensures RingOk(slots', in', out', in' == out', size', live', adds + 1)
  {
    var cap := |slots|;
    slots', in' := slots[inOffs := e], Next(inOffs, cap);
    if full {
      assert slots[Around(cap, outOffs, 0)] == live[0];
      out', live' := in', live[1..] + [e];
      ReplaceOldest(slots, outOffs, live, e);
      SizesDropOldest(live);
      SizesAddNewest(live[1..], e);
      size' := buffSize - live[0].size + e.size;
    } else {
      StepsBelow(adds, cap);
      if adds + 1 < cap {
        StepsBelow(adds + 1, cap);
      }
      out', live', size' := outOffs, live + [e], buffSize + e.size;
      PutNewest(slots, outOffs, live, e);
      SizesAddNewest(live, e);
    }
  }

  class CircularBuffer {
    const capacity: nat
    const entry: array<Entry>
    var inOffs: nat
    var outOffs: nat
    var full: bool
    var buffSize: nat
    ghost var live: seq<Entry>  // the stored entries, oldest first
    ghost var adds: nat         // how many entries were ever added

    ghost predicate Valid()
      reads this, entry
    {
      entry.Length == capacity && RingOk(entry[..], inOffs, outOffs, full, buffSize, live, adds)
    }

    constructor (capacity: nat)
      requires 0 < capacity
      ensures Valid() && this.capacity == capacity && live == [] && adds == 0 && fresh(entry)
    {
      this.capacity := capacity;
      entry := new Entry[capacity](_ => NO_ENTRY);
      inOffs, outOffs, full, buffSize := 0, 0, false, 0;
      live, adds := [], 0;
    }

    /** Add an entry at the newest end; a full ring gives up its oldest entry,
        whose block is handed back. */
    method AddEntry(e: Entry) returns (evicted: Block?)
      requires Valid()
      modifies this, entry
      ensures Valid()
      ensures live == LastN(capacity, old(live) + [e])
      ensures adds == old(adds) + 1
      ensures evicted == if |old(live)| == capacity then old(live)[0].buffptr else null
    {
      evicted := null;
      ghost var slots', in', out', size', live' := AfterAdd(entry[..], inOffs, outOffs, full, buffSize, live, adds, e);
      NextIsModulo(inOffs, capacity);
      if inOffs == outOffs && full {
        evicted := entry[outOffs].buffptr;
        buffSize := buffSize - entry[outOffs].size;
        outOffs := (outOffs + 1) % capacity;
      }
      entry[inOffs] := e;
      buffSize := buffSize + e.size;
      inOffs := (inOffs + 1) % capacity;
      full := inOffs == outOffs;
      live, adds := live', adds + 1;
      assert entry[..] == slots' && inOffs == in' && outOffs == out' && buffSize == size';
    }

    /** The entry that holds flat offset charOffset, as its slot (-1 for none),
        and the offset inside it. */
    method FindEntryOffsetForFpos(charOffset: nat) returns (slot: int, inner: nat)
      requires Valid()
      ensures match Locate(EntrySizes(live), charOffset)
              case None => slot == -1
              case Some((k, i)) => slot == Around(capacity, outOffs, k) && entry[slot] == live[k] && inner == i
    {
      ghost var sizes := EntrySizes(live);
      inner := 0;
      var total, n, idx := 0, 0, outOffs;
      while n < capacity
        invariant n <= |live| && idx == Around(capacity, outOffs, n)
        invariant total <= charOffset
        invariant Locate(sizes, charOffset) == LocateFrom(sizes, n, charOffset - total)
      {
        assert entry[..][Around(capacity, outOffs, n)] == entry[idx];
        var e := entry[idx];
        if e.size == 0 {
          return -1, inner;
        }
        if total + e.size - 1 >= charOffset {
          return idx, charOffset - total;
        }
        total := total + e.size;
        AroundNext(capacity, outOffs, n);
        NextIsModulo(idx, capacity);
        idx := (idx + 1) % capacity;
        n := n + 1;
      }
      return -1, inner;
    }

    /** Going on from the oldest slot meets the insertion slot after the newest. */
    lemma MeetsInOffs(n: nat)
      requires Valid() && 0 < n <= |live|
      ensures Around(capacity, outOffs, n) == inOffs <==> n == |live|
    {
      if !full {
        StepsBelow(adds, capacity);
      }
    }

    lemma SlotSizeIs(j: nat)
      requires Valid() && j < capacity
      ensures SlotSizes(capacity, outOffs, EntrySizes(live))[j] == entry[j].size
    {
      var i := if outOffs <= j then j - outOffs else j + capacity - outOffs;
      assert Around(capacity, outOffs, i) == j && entry[..][j] == entry[j];
    }

    /** The flat offset for byte offsetWithinBuf of buffer bufNo, or -1. */
    method RetOffset(bufNo: nat, offsetWithinBuf: nat) returns (r: int)
      requires Valid()
      ensures r == SlotOffset(SlotSizes(capacity, outOffs, EntrySizes(live)), bufNo, offsetWithinBuf)
    {
      ghost var slots := SlotSizes(capacity, outOffs, EntrySizes(live));
      if bufNo > capacity - 1 {
        return -1;
      }
      SlotSizeIs(bufNo);
      if offsetWithinBuf > LastIndex(entry[bufNo].size) {
        return -1;
      }
      var offset := 0;
      for i := 0 to bufNo
        invariant offset == SumTo(slots, i) && Solid(slots, 0) == Solid(slots, i)
      {
        SlotSizeIs(i);
        if entry[i].size == 0 {
          return -1;
        }
        offset := offset + entry[i].size;
      }
      return offset + offsetWithinBuf;
    }

    /** Free every stored block, each once. */
    method Destroy(heap: Heap)
      requires Valid() && heap.Valid() && Owned(live, heap.live, heap.zeroPtr)
      modifies heap
      ensures heap.Valid() && heap.live == old(heap.live) - BlocksOf(live)
    {
      if inOffs == outOffs && !full {
        StepsBelow(adds, capacity);
        return;
      }
      var ptr := outOffs;
      assert entry[..][Around(capacity, outOffs, 0)] == entry[ptr];
      var block := entry[ptr].buffptr;
      ghost var n := 0;
      while block != null
        invariant n < |live| && ptr == Around(capacity, outOffs, n) && block == live[n].buffptr
        invariant heap.Valid() && heap.live == old(heap.live) - BlocksUpTo(live, n)
        decreases |live| - n
      {
        NextBlock(live, old(heap.live), heap.zeroPtr, n);
        heap.Kfree(block);
        AroundNext(capacity, outOffs, n);
        NextIsModulo(ptr, capacity);
        ptr := (ptr + 1) % capacity;
        n := n + 1;
        MeetsInOffs(n);
        if ptr == inOffs {
          break;
        }
        assert entry[..][Around(capacity, outOffs, n)] == entry[ptr];
        block := entry[ptr].buffptr;
      }
    }
  }
}
