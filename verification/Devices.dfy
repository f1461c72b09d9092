// The character device (aesd-char-driver/main.c): a ring of stored lines, a
// working buffer for the line under construction, and the allocator both draw
// from. Each method is one system call, made under the device's mutex.

module Devices {
  import opened Streams
  import opened Offsets
  import opened Memory
  import opened CircularBuffers
  import opened Turns
  import CommandStore

  const EINVAL: int := 22

  /** The bytes of each entry. */
  ghost predicate Stores(lines: seq<seq<byte>>, entries: seq<Entry>) {
    && |lines| == |entries|
    && forall i :: 0 <= i < |lines| ==> entries[i].buffptr != null && entries[i].buffptr.bytes == lines[i]
  }

  lemma StoresAdd(lines: seq<seq<byte>>, entries: seq<Entry>, n: nat, line: seq<byte>, e: Entry)
    requires Stores(lines, entries) && e.buffptr != null && e.buffptr.bytes == line
    ensures Stores(LastN(n, lines + [line]), LastN(n, entries + [e]))
  {
  }

  lemma StoredSizes(lines: seq<seq<byte>>, entries: seq<Entry>, blocks: set<Block?>, zeroPtr: Block?)
    requires Stores(lines, entries) && Owned(entries, blocks, zeroPtr)
    ensures EntrySizes(entries) == Sizes(lines)
  {
  }

  /** The ring, a non-empty working buffer and the caller's extra blocks
      between them own every allocated block, each exactly once. */
  ghost predicate Accounts(blocks: set<Block?>, zeroPtr: Block?, live: seq<Entry>, work: Entry, extra: set<Block?>) {
    && null !in blocks && zeroPtr !in blocks
    && Owned(live, blocks, zeroPtr)
    && (work.size > 0 ==> work.buffptr in blocks && work.buffptr != null && |work.buffptr.bytes| == work.size)
    && BlockOf(work) !! BlocksOf(live) && BlockOf(work) !! extra && BlocksOf(live) !! extra
    && blocks == BlocksOf(live) + BlockOf(work) + extra
  }

  /** A new block for the working buffer, in place of the one it had. */
  lemma AccountsRealloc(blocks: set<Block?>, zeroPtr: Block?, live: seq<Entry>, work: Entry, work': Entry,
                        extra: set<Block?>)
    requires Accounts(blocks, zeroPtr, live, work, extra)
    requires work'.size > 0 ==> work'.buffptr !in blocks && work'.buffptr !in {null, zeroPtr}
    requires work'.size > 0 ==> |work'.buffptr.bytes| == work'.size
    ensures Accounts(blocks - BlockOf(work) + BlockOf(work'), zeroPtr, live, work', extra)
  {
    forall i | 0 <= i < |live| && live[i].size > 0
      ensures live[i].buffptr !in BlockOf(work)
    {
      BlocksAre(live, |live|, live[i].buffptr);
    }
  }

  /** The working buffer becomes the newest entry; what the ring hands back is freed. */
  lemma AccountsEnqueue(blocks: set<Block?>, zeroPtr: Block?, live: seq<Entry>, work: Entry, extra: set<Block?>,
                        cap: nat)
    returns (evicted: Block?)
    requires Accounts(blocks, zeroPtr, live, work, extra) && 0 < cap && |live| <= cap
    requires work.buffptr != null && |work.buffptr.bytes| == work.size && (work.size == 0 ==> work.buffptr == zeroPtr)
    ensures evicted == if |live| == cap then live[0].buffptr else null
    ensures evicted == null || evicted == zeroPtr || evicted in blocks
    ensures Accounts(blocks - {evicted}, zeroPtr, LastN(cap, live + [work]), Entry(work.buffptr, 0), extra)
  {
    evicted := OwnedAfterAdd(live, cap, blocks, zeroPtr, work);
  }

  /** The caller borrows one more block, or gives one back. */
  lemma AccountsBorrow(blocks: set<Block?>, zeroPtr: Block?, live: seq<Entry>, work: Entry, b: Block?)
    requires b != null && b != zeroPtr
    ensures b !in blocks && Accounts(blocks, zeroPtr, live, work, {}) ==>
              Accounts(blocks + {b}, zeroPtr, live, work, {b})
    ensures Accounts(blocks, zeroPtr, live, work, {b}) ==> Accounts(blocks - {b}, zeroPtr, live, work, {})
  {
    forall i | 0 <= i < |live| && live[i].size > 0
      ensures live[i].buffptr in BlocksOf(live)
    {
      BlocksAre(live, |live|, live[i].buffptr);
    }
  }

  /** An open file of the device. */
  class OpenFile {
    var fPos: nat

    constructor ()
      ensures fPos == 0
    {
      fPos := 0;
    }
  }

  class Device {
    const ring: CircularBuffer
    const heap: Heap
    var buffer: Block?  // the working buffer
    var size: nat
    ghost var store: CommandStore.Store

    // Since the last write that held several newlines, the writes have
    // appended `stream` to what the device held then.
    ghost var origin: CommandStore.Store
    ghost var stream: seq<byte>

    /** The fields agree with the abstract store, and the allocated blocks
        are those of the ring, the working buffer and extra. */
    ghost predicate ValidWith(extra: set<Block?>)
      reads this, ring, ring.entry, heap
    {
      && ring.Valid() && heap.Valid()
      && Accounts(heap.live, heap.zeroPtr, ring.live, Entry(buffer, size), extra)
      && Stores(store.lines, ring.live)
      && store.tail == (if size > 0 then buffer.bytes else []) && store.adds == ring.adds
    }

    ghost predicate Valid()
      reads this, ring, ring.entry, heap
    {
      ValidWith({}) && store == CommandStore.Absorb(ring.capacity, origin, stream)
    }

    constructor (capacity: nat)
      requires 0 < capacity
      ensures Valid() && ring.capacity == capacity && store == CommandStore.EMPTY_STORE
      ensures origin == CommandStore.EMPTY_STORE && stream == []
      ensures fresh(ring) && fresh(ring.entry) && fresh(heap) && heap.live == {}
    {
      ring := new CircularBuffer(capacity);
      heap := new Heap();
      buffer, size := null, 0;
      store, origin, stream := CommandStore.EMPTY_STORE, CommandStore.EMPTY_STORE, [];
      CommandStore.AbsorbNothing(capacity, CommandStore.EMPTY_STORE);
    }

    /** Index of the first newline of p, or -1. */
    method FindDelimiter(p: seq<byte>) returns (r: int)
      ensures r == FirstNewline(p)
    {
      for i := 0 to |p|
        invariant SearchNewline(p, 0) == SearchNewline(p, i)
      {
        if p[i] == DELIMITER {
          return i;
        }
      }
      return -1;
    }

    /** Room in the working buffer for n more bytes, which are copied in. A
        negative n has no block. */
    method AllocateMemory(n: int, bytes: seq<byte>, ghost extra: set<Block?>) returns (r: int)
      requires ValidWith(extra) && (size > 0 ==> n >= 0) && (n >= 0 ==> |bytes| == n)
      modifies this`buffer, heap
      ensures heap.Valid()
      ensures r == if n < 0 then -CommandStore.ENOMEM else 0
      ensures r < 0 ==> heap.live == old(heap.live)
      ensures r == 0 ==> buffer != null && buffer.bytes == store.tail + bytes
      ensures r == 0 ==> if size + n == 0 then buffer == heap.zeroPtr else buffer !in old(heap.live) + {heap.zeroPtr}
      ensures r == 0 ==>
        heap.live == old(heap.live) - BlockOf(Entry(old(buffer), size)) + BlockOf(Entry(buffer, size + n))
    {
      r := 0;
      if size == 0 {
        buffer := heap.Kmalloc(n, bytes);
        if buffer == null {
          r := -CommandStore.ENOMEM;
        }
      } else {
        buffer := heap.Krealloc(buffer, bytes);
      }
    }

    /** Append n bytes to the working buffer. */
    method Append(n: int, bytes: seq<byte>, ghost extra: set<Block?>) returns (r: int)
      requires ValidWith(extra) && (size > 0 ==> n >= 0) && (n >= 0 ==> |bytes| == n)
      modifies this`buffer, this`size, this`store, heap
      ensures ValidWith(extra)
      ensures r == if n < 0 then -CommandStore.ENOMEM else 0
      ensures store == if n < 0 then old(store) else old(store).(tail := old(store.tail) + bytes)
      ensures r == 0 && size == 0 ==> buffer == heap.zeroPtr
      ensures r < 0 ==> size == 0
    {
      r := AllocateMemory(n, bytes, extra);
      if r == 0 {
        ghost var before, after := Entry(old(buffer), size), Entry(buffer, size + n);
        AccountsRealloc(old(heap.live), heap.zeroPtr, ring.live, before, after, extra);
        size := size + n;
        store := store.(tail := store.tail + bytes);
      }
    }

    /** Add an entry to the ring and free the block it hands back. */
    method AddAndFree(e: Entry, ghost evicted: Block?)
      requires ring.Valid() && heap.Valid()
      requires evicted == if |ring.live| == ring.capacity then ring.live[0].buffptr else null
      requires evicted == null || evicted == heap.zeroPtr || evicted in heap.live
      modifies ring, ring.entry, heap
      ensures ring.Valid() && heap.Valid()
      ensures ring.live == LastN(ring.capacity, old(ring.live) + [e]) && ring.adds == old(ring.adds) + 1
      ensures heap.live == old(heap.live) - {evicted}
    {
      var freeBuffer := ring.AddEntry(e);
      if freeBuffer != null {
        heap.Kfree(freeBuffer);
      }
    }

    /** Hand the working buffer over to the ring and free what it evicts. */
    method Enqueue(ghost extra: set<Block?>)
      requires ValidWith(extra) && (size == 0 ==> buffer == heap.zeroPtr)
      modifies this`buffer, this`size, this`store, ring, ring.entry, heap
      ensures ValidWith(extra) && size == 0
      ensures store == CommandStore.Enqueue(ring.capacity, old(store))
    {
      var e := Entry(buffer, size);
      StoresAdd(store.lines, ring.live, ring.capacity, store.tail, e);
      ghost var evicted := AccountsEnqueue(heap.live, heap.zeroPtr, ring.live, e, extra, ring.capacity);
      AddAndFree(e, evicted);
      size := 0;
      store := CommandStore.Enqueue(ring.capacity, store);
    }

    /** One turn of the write loop: rest is what is left of the copied bytes
        from startPtr on, and left what is left of them afterwards. */
    method WriteTurn(rest: seq<byte>, startPtr: nat, ret: int, ghost extra: set<Block?>)
      returns (failed: bool, delimLoc: int, left: seq<byte>, nextPtr: nat, sum: int, ghost next: CommandStore.Turn)
      requires ValidWith(extra) && (startPtr > 0 ==> size == 0)
      modifies this`buffer, this`size, this`store, ring, ring.entry, heap
      ensures ValidWith(extra)
      ensures next == CommandStore.WriteTurn(CommandStore.AsWritten, ring.capacity, old(store), rest, startPtr, ret)
      ensures next ==
        if failed then CommandStore.Done(CommandStore.Written(store, -CommandStore.ENOMEM))
        else if delimLoc == -1 then CommandStore.Done(CommandStore.Written(store, sum))
        else CommandStore.More(store, left, nextPtr, sum)
      ensures !failed && delimLoc != -1 ==> size == 0 && |left| < |rest|
    {
      ghost var cap, st := ring.capacity, store;
      next := CommandStore.WriteTurn(CommandStore.AsWritten, cap, st, rest, startPtr, ret);
      delimLoc := FindDelimiter(rest);
      var memToMalloc := if delimLoc == -1 then |rest| else delimLoc - startPtr + 1;
      var status := Append(memToMalloc, if memToMalloc < 0 then [] else rest[..memToMalloc], extra);
      failed, left, nextPtr, sum := status < 0, rest, startPtr, ret;
      if !failed {
        if delimLoc != -1 {
          Enqueue(extra);
          nextPtr, left := startPtr + delimLoc + 1, rest[delimLoc + 1..];
        }
        sum := ret + memToMalloc;
      }
      CommandStore.TurnIs(cap, st, rest, startPtr, ret, delimLoc, memToMalloc, store, left, nextPtr, sum);
    }

    method WriteTurns(copy: seq<byte>, ghost extra: set<Block?>) returns (ret: int)
      requires ValidWith(extra)
      modifies this`buffer, this`size, this`store, ring, ring.entry, heap
      ensures ValidWith(extra)
      ensures CommandStore.Written(store, ret)
           == CommandStore.WriteLoop(CommandStore.AsWritten, ring.capacity, old(store), copy, 0, 0)
    {
      var startPtr, delimLoc, rest, failed := 0, 0, copy, false;
      ret := 0;
      ghost var cap, turn := ring.capacity, CommandStore.More(store, copy, 0, 0);
      ghost var goal := CommandStore.Finish(CommandStore.AsWritten, cap, turn);
      while delimLoc != -1
        invariant ValidWith(extra)
        invariant 0 <= startPtr && (startPtr > 0 && delimLoc != -1 ==> size == 0)
        invariant turn == if delimLoc == -1 then CommandStore.Done(CommandStore.Written(store, ret))
                          else CommandStore.More(store, rest, startPtr, ret)
        invariant goal == CommandStore.Finish(CommandStore.AsWritten, cap, turn)
        decreases if delimLoc == -1 then 0 else |rest| + 1
      {
        ghost var next;
        failed, delimLoc, rest, startPtr, ret, next := WriteTurn(rest, startPtr, ret, extra);
        CommandStore.FinishUnfolds(CommandStore.AsWritten, cap, turn, next);
        if failed {
          return -CommandStore.ENOMEM;
        }
        turn := next;
      }
    }

    /** The write call: append the bytes to the line under construction, and
        store it at each newline. All bytes are accounted for exactly when
        they hold at most one newline, and then they prolong the stream. */
    method Write(buf: seq<byte>) returns (ret: int)
      requires Valid()
      modifies this, ring, ring.entry, heap
      ensures Valid()
      ensures CommandStore.Written(store, ret) == CommandStore.Write(ring.capacity, old(store), buf)
      ensures ret <= |buf| && (ret == |buf| <==> Newlines(buf) <= 1)
      ensures Newlines(buf) <= 1 ==> origin == old(origin) && stream == old(stream) + buf
    {
      ghost var origin', stream' := CommandStore.WriteProlongs(ring.capacity, origin, stream, buf);
      ret := WriteLocked(buf);
      origin, stream := origin', stream';
    }

    method WriteLocked(buf: seq<byte>) returns (ret: int)
      requires ValidWith({})
      modifies this`buffer, this`size, this`store, ring, ring.entry, heap
      ensures ValidWith({})
      ensures CommandStore.Written(store, ret) == CommandStore.Write(ring.capacity, old(store), buf)
    {
      ret := 0;
      if |buf| == 0 {
        return;
      }
      var copy := heap.Kmalloc(|buf|, buf);
      AccountsBorrow(old(heap.live), heap.zeroPtr, ring.live, Entry(buffer, size), copy);
      ret := WriteTurns(copy.bytes, {copy});
      AccountsBorrow(heap.live, heap.zeroPtr, ring.live, Entry(buffer, size), copy);
      heap.Kfree(copy);
    }

    /** The read call: deliver bytes from the file's offset on, up to the end
        of the line they are in, and move the offset; at the end rewind it. */
    method Read(file: OpenFile, count: nat) returns (data: seq<byte>)
      requires Valid()
      modifies file
      ensures ReadResult(data, file.fPos) == Offsets.Read(store.lines, old(file.fPos), count)
    {
      StoredSizes(store.lines, ring.live, heap.live, heap.zeroPtr);
      var slot, inner := ring.FindEntryOffsetForFpos(file.fPos);
      if slot == -1 {
        file.fPos := 0;
        return [];
      }
      var e := ring.entry[slot];
      var bytesToEob := e.size - inner;
      var bytesToCopy := if bytesToEob < count then bytesToEob else count;
      file.fPos := file.fPos + bytesToCopy;
      data := e.buffptr.bytes[inner..inner + bytesToCopy];
    }

    /** The seek command: move the file to byte writeCmdOffset of slot writeCmd. */
    method AdjustFileOffset(file: OpenFile, writeCmd: nat, writeCmdOffset: nat) returns (ret: int)
      requires Valid()
      modifies file
      ensures var slots := SlotSizes(ring.capacity, Oldest(store.adds, ring.capacity), Sizes(store.lines));
              var p := SlotOffset(slots, writeCmd, writeCmdOffset);
              if p == -1 then ret == -EINVAL && file.fPos == old(file.fPos) else ret == 0 && file.fPos == p
    {
      StoredSizes(store.lines, ring.live, heap.live, heap.zeroPtr);
      var offset := ring.RetOffset(writeCmd, writeCmdOffset);
      if offset == -1 {
        ret := -EINVAL;
      } else {
        file.fPos := offset;
        ret := 0;
      }
    }

    /** Module unload frees the ring's blocks, each once. Nothing stays
        allocated unless a partial line was left in the working buffer. */
    method Cleanup()
      requires Valid()
      modifies heap
      ensures heap.live == if old(store.tail) == [] then {} else {buffer}
    {
      ring.Destroy(heap);
    }
  }
}
