# Verification of the aesdchar driver and the aesdsocket server

This project models four connected parts of the system and proves what they
keep over every input and every run.

1. **The driver's command store.** Bytes written to the device are gathered in
   a working buffer, cut at newlines and handed to a ring that forgets its
   oldest entry. Readers see the ring through a flat byte offset; a seek command
   sets that offset. `CommandStore` and `Offsets` say on plain values what the
   calls do and what that means; `CircularBuffers` and `Devices` are the mutable
   ring and device, whose methods are proved against those functions.
   The capacity is any positive number, so wrap-around is a real argument; the
   driver's is 10. `Memory` is the part of the kernel allocator the driver
   relies on: each block has one owner and is freed at most once.
2. **The tail queue** of `server/queue.h` with its back links, and the main loop
   that joins finished workers (`TailQueue`, `MainLoop`). A list head and a list
   entry have the same two fields there, and TAILQ_LAST and TAILQ_PREV use that;
   both are one class here.
3. **The socket worker** (`Packets`, `Replies`, `SystemCalls`, `Workers`): receive,
   cut packets, write or seek, send back, whatever the system calls do. The
   outcomes of each kind of call come from a sequence that may be anything;
   each call uses the next one.
4. **The timestamp queue** (`TimestampQueue`): filled by a signal handler that
   may run between any two statements of a running dequeue.

`Streams` holds the common notion of byte streams and their lines, `Turns` the
modular arithmetic of ring indices. `dafny verify dfyconfig.toml` checks
everything.

## Where the code does less than it says

The model follows the code. Where the code misses what it is meant to do, the
exact condition is a theorem:

- `aesd-char-driver/main.c:272` subtracts `start_ptr` from an index that already
  is relative to `start_ptr`. A write accounts for all its bytes exactly when
  they hold at most one newline (`WriteIsRightIff`). What any write stores and
  returns is `WriteLeaves`: each line falls short by the number of bytes before
  it in the chunk, and the call ends with -ENOMEM, from a negative length that
  reaches `kmalloc` as a huge size, if and only if some line is shorter than
  that. A length of zero stores an empty entry, which hides everything behind it
  from readers (`ReadSeesReadable`). The length `delim_loc + 1` is right for every
  chunk (`IntendedWriteIsRight`).
- `aesd-char-driver/aesd-circular-buffer.c:46-55` adds up physical slots instead of
  going round from the oldest, and the unsigned test in line 40 lets the first
  empty slot through, although the comment in lines 48-49 calls the later check
  redundant. `SeekIsRightIff`, for one call, and `AllSeeksRightIff` are the conditions,
  `SeekGoesWrong` a ring that three writes lead to and a seek that misses on it.
  `ExchangeReply` is what that means for the client's reply.
- `server/aesdsocket.c:802` assigns `start_ptr` where it should add. The first two
  packets of a connection are its first two lines; from then on every receive,
  even one that brings no newline, has the worker serve one of two pieces of the
  longer of these again, by turns (`OnlyTwoLinesAreHandedOn`, `ServesSoMany`).
  Packet k is line k only if there is such a line and it happens to read the same
  (`PacketIsLineIff`); `PacketsAreLinesIff` says for every stream and every split
  when the packets are the lines. `ThirdLineIsLost` and `FragmentIsServed` are
  inputs. With addition the packets are the first lines
  (`AddedPacketsAreTheLines`), but still no more than one in each receive, from
  the `break` in line 804: they are all the lines exactly if no number of last
  receives completes more lines than it has receives (`AddedServesAllIff`).
- the comment at `server/aesdsocket.c:290-297` says that an enqueue inside a
  dequeue is harmless. `ConservesIffHarmless` says exactly when it is, in terms of
  how many items are held before and how many enqueues come where: always
  before line 320, for at most one between lines 320 and 321, and later only
  while the queue does not become full again and, once it was found drained,
  nothing arrives any more. `DequeueIsInterrupted` says what is left in every case;
  `BothFlagsSet`, `EmptyFlagLate` and `AllLost` are the three ways it fails.

## Model

| member | source | states |
|---|---|---|
| Streams.FirstNewlineIs | aesd-char-driver/main.c:129-140 | the delimiter search returns r if and only if r is the first newline's index, or -1 and there is none |
| Streams.CompleteLinesAreLines | aesd-char-driver/main.c:269-300 | the reference notion of lines: each holds one newline, as its last byte; there are as many as newlines; what is left over has none |
| Streams.LinesAreTheStream | aesd-char-driver/main.c:269-300 | cutting a stream into lines and a rest loses and reorders nothing |
| Streams.LinesAppend | aesd-char-driver/main.c:269-300 | a stream in two pieces: the unfinished tail of the first is carried over into the second |
| CommandStore.WriteIsRightIff | aesd-char-driver/main.c:216-305 | a write returns its whole count exactly when its bytes hold at most one newline, and exactly then count and store are those of appending the bytes to the stream; it never returns more |
| CommandStore.IntendedWriteIsRight | aesd-char-driver/main.c:272 | with the length delim_loc + 1 the same loop is right for every chunk and every store |
| CommandStore.WriteLeaves | aesd-char-driver/main.c:216-305 | every write, exactly: it returns -ENOMEM if and only if some line is shorter than everything before it in the chunk; otherwise the count is short by the bytes before each line; the entries stored, the tail and the number of entries added, in every case |
| CommandStore.TooShortIff | aesd-char-driver/main.c:272-279 | the line-by-line test for failure, said of one line and where it begins |
| CommandStore.EntriesAre | aesd-char-driver/main.c:269-300 | every entry a write stores, by its index: line k without as many bytes as come before it in the chunk, the first one completing the tail; and there are as many as lines before the first that is too short |
| CommandStore.LostIs | aesd-char-driver/main.c:269-300 | the bytes by which the count falls short are, summed over the lines, those before each |
| CommandStore.SecondLineCutShort | aesd-char-driver/main.c:269-300 | a second line not shorter than the first is stored without as many bytes as the first has, and the loop goes on with the count short by that much |
| CommandStore.SecondLineFails | aesd-char-driver/main.c:269-279 | a second line shorter than the first ends the call with -ENOMEM and only the first line stored, whatever comes after |
| CommandStore.LaterLinesAreCutShort | aesd-char-driver/main.c:269-300 | from the second turn of the loop on, any further newline makes the total fall short |
| CommandStore.AbsorbAppend | aesd-char-driver/main.c:269-300 | absorbing bytes piece by piece leaves the same store as absorbing them at once, eviction included |
| CommandStore.AbsorbLine | aesd-char-driver/main.c:280-299 | a newline makes the working buffer plus the piece up to it the newest entry, and empties the working buffer |
| CommandStore.WriteProlongs | aesd-char-driver/main.c:216-305 | after any stream, a write of at most one newline just prolongs the stream; otherwise a new origin takes its place |
| CommandStore.WriteKeepsBounded | aesd-char-driver/main.c:216-305 | whatever is written, the ring never holds more than its capacity and no newline waits in the working buffer |
| CommandStore.RunAbsorbs | aesd-char-driver/main.c:216-305 | from any store, a run of writes with at most one newline each appends all their bytes, and the returned counts add up to them |
| CommandStore.RunKeepsLastLines | aesd-char-driver/main.c:216-305 | from an empty device such a run leaves the last cap lines of everything written, the unterminated tail, and a count of all the lines, which tells the oldest slot |
| CommandStore.ChunkingIsInvisible | aesd-char-driver/main.c:216-305 | two such runs of the same bytes, cut differently, end in the same store with the same total |
| Offsets.LocateMeans | aesd-char-driver/aesd-circular-buffer.c:70-111 | for all sizes, the search finds (k, inner) if and only if entry k lies before the first empty one and prefix sum plus inner is the offset; it finds nothing if and only if the offset is at or past the end of those entries |
| Offsets.LocateSits | aesd-char-driver/aesd-circular-buffer.c:70-111 | with non-empty entries: the unique entry and inner offset, and nothing exactly from the total on |
| Offsets.RefusedIff | aesd-char-driver/aesd-circular-buffer.c:30-58 | what a seek is answered with on any slots: the sum of the slots before and the offset if the slot has such a byte or is the first empty one, and -1 otherwise |
| Offsets.SeekIsRightIff | aesd-char-driver/aesd-circular-buffer.c:30-58 | when one seek on a ring is answered as meant, for every oldest slot, sizes and call; with the oldest entry in slot 0: if and only if it names neither the first empty slot nor a byte behind an empty entry; on a full ring without empty entries: if and only if it names no command, or a byte past both the entry and the slot, or one inside both with as much before it |
| Offsets.EmptySlotAnswer | aesd-char-driver/aesd-circular-buffer.c:40-57 | the first empty slot is answered with an offset at or past the end of what can be read |
| Offsets.DifferentSizesDisagree | aesd-char-driver/aesd-circular-buffer.c:46-55 | two different size lists disagree on some seek, which is named |
| Offsets.AllSeeksRightIff | aesd-char-driver/aesd-circular-buffer.c:30-58 | every seek on a ring is answered as meant if and only if it is full of non-empty entries and its sizes look the same from the oldest slot as from slot 0 |
| Offsets.TurnedRing | aesd-char-driver/main.c:216-305 | three one-line writes to a ring of two leave the last two lines, the older one in slot 1 |
| Offsets.TurnedSeek | aesd-char-driver/aesd-circular-buffer.c:46-57 | on such a ring, for all sizes, the driver answers the newer line's size for its start, which is at the older line's size |
| Offsets.SeekGoesWrong | aesd-char-driver/aesd-circular-buffer.c:46-57 | three writes after which seek and search do not come back: byte 0 of command 1 leads to byte 1 |
| Offsets.SeekRoundTrip | aesd-char-driver/aesd-circular-buffer.c:30-110 | with the oldest entry in slot 0, seek followed by the search comes back to the same command and offset |
| Offsets.SeekReachesEveryByte | aesd-char-driver/aesd-circular-buffer.c:30-110 | and every stored byte's offset is the answer to the seek that the search names |
| Offsets.SeekIsMonotone | aesd-char-driver/aesd-circular-buffer.c:46-57 | flat offsets grow exactly with (command, offset) in lexicographic order |
| Offsets.ReadMeans | aesd-char-driver/main.c:162-214 | a read delivers exactly the bytes it moves over, stays in one entry, stops short of count only at that entry's end, moves on for a positive count, and rewinds at the end |
| Offsets.ReadSeesReadable | aesd-char-driver/main.c:162-214 | with empty entries in the ring, reading is reading the lines before the first empty one |
| Offsets.DrainDelivers | aesd-char-driver/main.c:162-214 | reads with any positive counts deliver the text from the offset on; the first empty read comes exactly at the end and rewinds to 0; bytes left plus one calls are enough |
| Turns.NextIsModulo | aesd-char-driver/aesd-circular-buffer.c:133-143 | the index step with % is the step round the ring |
| Turns.AroundIsModulo | aesd-char-driver/aesd-circular-buffer.c:88-110 | n steps on from any slot |
| Turns.StepsIsModulo | aesd-char-driver/aesd-circular-buffer.c:133-143 | any number of steps from slot 0 is n modulo the capacity |
| Turns.OldestIsModulo | aesd-char-driver/aesd-circular-buffer.c:133-151 | the oldest slot after n additions: 0 before the ring is full, n modulo the capacity from then on |
| Memory.Heap.Kmalloc | aesd-char-driver/main.c:73-82 | allocation as the driver relies on it: a fresh block, the zero-size sentinel, or null for a negative size |
| Memory.Heap.Krealloc | aesd-char-driver/main.c:84-98 | the bytes move to a fresh block and the old one is given back |
| Memory.Heap.Kfree | aesd-char-driver/main.c:285-294 | only a block that is still allocated, null or the sentinel may be freed |
| CircularBuffers.RingAfterAdds | aesd-char-driver/aesd-circular-buffer.c:120-161 | after n additions: in_offs is n modulo the capacity, full if and only if n reached it, out_offs is 0 before that and in_offs after, unused slots are zero, the live entries are in order from out_offs |
| CircularBuffers.AfterAdd | aesd-char-driver/aesd-circular-buffer.c:120-153 | the assignments of one addition keep every field in step with the kept entries, buff_size included, and the full flag tells whether there was room |
| CircularBuffers.OwnedAfterAdd | aesd-char-driver/aesd-circular-buffer.c:133-152 | adding an entry and freeing what is handed back leaves every block with exactly one owner |
| CircularBuffers.NextBlock | aesd-char-driver/aesd-circular-buffer.c:174-191 | the next entry's block is still allocated when all earlier ones were freed |
| CircularBuffers.CircularBuffer.constructor | aesd-char-driver/aesd-circular-buffer.c:158-161 | an empty ring |
| CircularBuffers.CircularBuffer.AddEntry | aesd-char-driver/aesd-circular-buffer.c:120-153 | the ring now holds the last capacity entries of the old ones and the new one; the oldest one's block is handed back exactly when the ring was full |
| CircularBuffers.CircularBuffer.FindEntryOffsetForFpos | aesd-char-driver/aesd-circular-buffer.c:70-111 | the wrapping loop returns the slot and inner offset of the search over the live entries in logical order |
| CircularBuffers.CircularBuffer.RetOffset | aesd-char-driver/aesd-circular-buffer.c:30-58 | the loop returns the offset over the slots in physical order, or -1 |
| CircularBuffers.CircularBuffer.Destroy | aesd-char-driver/aesd-circular-buffer.c:163-192 | frees the blocks of all live entries, each once, nothing else, and terminates |
| Devices.AccountsRealloc | aesd-char-driver/main.c:69-100 | a new working block in place of the old one: the ring, the working buffer and the call's own copy still own every block exactly once |
| Devices.AccountsEnqueue | aesd-char-driver/main.c:285-294 | so does handing the working buffer over and freeing what the ring gives up |
| Devices.AccountsBorrow | aesd-char-driver/main.c:240-303 | so does taking and giving back the copy of the user's bytes |
| Devices.Device.constructor | aesd-char-driver/main.c:371-412 | an empty device with nothing allocated |
| Devices.Device.FindDelimiter | aesd-char-driver/main.c:129-140 | the loop returns the first newline's index or -1 |
| Devices.Device.AllocateMemory | aesd-char-driver/main.c:69-100 | the working block afterwards, for positive, zero and negative sizes, and which blocks are allocated |
| Devices.Device.Append | aesd-char-driver/main.c:273-282 | the bytes are appended to the tail, or -ENOMEM and nothing changed |
| Devices.Device.AddAndFree | aesd-char-driver/main.c:285-294 | the ring keeps the last entries and the evicted block is freed |
| Devices.Device.Enqueue | aesd-char-driver/main.c:283-299 | the tail becomes the newest line, and the working buffer is empty |
| Devices.Device.WriteTurn | aesd-char-driver/main.c:269-301 | one turn of the loop is one turn of the specification |
| Devices.Device.WriteTurns | aesd-char-driver/main.c:268-301 | the whole loop computes the specified store and count |
| Devices.Device.WriteLocked | aesd-char-driver/main.c:234-304 | with the copy allocated before and freed after, on every path |
| Devices.Device.Write | aesd-char-driver/main.c:216-305 | refines the write on values, returns the full count exactly for at most one newline and then prolongs the stream; the invariant says over every run that the device holds the last capacity lines and the tail of that stream |
| Devices.Device.Read | aesd-char-driver/main.c:162-214 | data and new offset are those of the read on values |
| Devices.Device.AdjustFileOffset | aesd-char-driver/main.c:101-128 | the file moves to the computed offset, or -EINVAL and it stays |
| Devices.Device.Cleanup | aesd-char-driver/main.c:414-432 | after unload nothing is allocated if no partial line was left, and otherwise only the working block |
| TailQueue.NoRepeats | server/queue.h:690-785 | the links alone imply that no element occurs twice |
| TailQueue.Init | server/queue.h:690-694 | an empty queue; only the head is written |
| TailQueue.InsertHead | server/queue.h:721-732 | the element goes to the front, and only head, element and old first are written |
| TailQueue.InsertTail | server/queue.h:734-742 | the element goes to the end, and only head, element and old last are written |
| TailQueue.InsertAfter | server/queue.h:696-709 | the element goes right after the given one |
| TailQueue.InsertBefore | server/queue.h:711-719 | the element goes right before the given one, without looking at the head |
| TailQueue.Remove | server/queue.h:752-768 | the element is gone, the others keep their order; the removed cell is not written |
| TailQueue.Concat | server/queue.h:635-644 | the second queue is appended to the first and left empty |
| TailQueue.Swap | server/queue.h:770-785 | the two queues exchange their elements, empty ones included |
| TailQueue.Last | server/queue.h:744-745 | the last element, or null for an empty queue |
| TailQueue.Prev | server/queue.h:749-750 | the predecessor, or null for the first element |
| TailQueue.Foreach | server/queue.h:650-653 | visits the elements in order |
| TailQueue.ReversedIs | server/queue.h:670-683 | the reverse order, by index: as many elements, and place k holds the k-th from the end |
| TailQueue.ForeachReverse | server/queue.h:670-673 | visits exactly the reverse, which `ReversedIs` says by index |
| TailQueue.FilterSelects | server/aesdsocket.c:1062-1072 | what is removed and what is kept: membership, both ways |
| TailQueue.FilterSizes | server/aesdsocket.c:1062-1072 | removed and kept elements together are as many as there were |
| TailQueue.ForeachSafeRemove | server/queue.h:660-663 | visits every element once although the current one may be removed and its fields destroyed; removes exactly the chosen ones, keeps the others in order |
| TailQueue.ForeachReverseSafeRemove | server/queue.h:680-683 | the same from the far end, in exactly the reverse order |
| Packets.EveryPacketIsALine | server/aesdsocket.c:741-787 | every packet handed on, early or late, holds exactly one newline, as its last byte, however the stream arrives and whichever way start_ptr advances |
| Packets.AddedPacketsAreTheLines | server/aesdsocket.c:802 | with start_ptr advanced by addition, packets handed on and lines still to come are the lines of the stream, for every split into receives; so the packets are the first lines |
| Packets.ServesSoMany | server/aesdsocket.c:740-809 | for every stream and every split, under either advance: how many packets are handed on, from the newlines that have arrived after each receive; as written every receive hands one on once two are out |
| Packets.OnlyTwoLinesAreHandedOn | server/aesdsocket.c:740-809 | as written, for every stream and every split: so many packets, the first two are the first two lines, and every later one is determined by these two and its number, with period two |
| Packets.PacketIsLineIff | server/aesdsocket.c:802 | as written, a packet that is due is the line it should be if and only if it is one of the first two, or there is such a line and it reads like what is served instead |
| Packets.PacketsAreLinesIff | server/aesdsocket.c:740-809 | as written, for every stream and every split: the packets are the first lines, or all of them, if and only if no more packets than lines are due, or as many, and every line from the third on reads like what is served instead |
| Packets.AddedServesAllIff | server/aesdsocket.c:740-809 | with addition, for every stream and every split: all lines are handed on if and only if no number of last receives completes more lines than it has receives |
| Packets.AddedServesIff | server/aesdsocket.c:740-809 | with addition, at least t packets are handed on if and only if after each receive so many newlines have arrived that one packet for each later receive is enough |
| Packets.AfterTwoLines | server/aesdsocket.c:802 | any two lines, each in a receive, and any bytes after them in a third: a third packet is handed on, and which |
| Packets.ThirdLineIsLost | server/aesdsocket.c:802 | an input on which the second line is served again in place of the third |
| Packets.FragmentIsServed | server/aesdsocket.c:802 | an input of two lines and the beginning of a third on which three packets are served |
| Packets.OnePacketPerReceive | server/aesdsocket.c:804 | an input of two lines in one receive on which even addition serves but one |
| Packets.CutInPlaceIff | server/aesdsocket.c:802 | as written, packet k is cut where line k begins if and only if k < 2 |
| Packets.CutsOfPrefix | server/aesdsocket.c:740-809 | what was cut so far does not depend on later receives |
| SystemCalls.NextCall | server/aesdsocket.c:469-481 | what one call transfers when asked for what is left: at least one byte and no more than asked, nothing when it is interrupted or fails |
| SystemCalls.CallMade | server/aesdsocket.c:464-488 | one more call in a transfer: it goes on with so much more done, or is over because this call ended it |
| SystemCalls.TransferDone | server/aesdsocket.c:464-488 | a transfer that is complete took no more calls than needed and got through them all |
| SystemCalls.MadeTogether | server/aesdsocket.c:749-803 | the calls made for packets one after the other add up, kind by kind |
| SystemCalls.GoesOn | server/aesdsocket.c:749-803 | only the last call made may have ended the work, and all are got through if and only if the later ones are |
| Replies.ReadOfText | server/aesdsocket.c:489-527 | one read splits the text that is left into what it delivers and what is still left |
| Replies.EchoIsTheLastLines | server/aesdsocket.c:489-527 | what is sent back is the last capacity lines of everything written, from the start offset; the number of lines written tells the oldest slot |
| Replies.TextFromLine | server/aesdsocket.c:763-774 | the text from byte off of line cmd on is the rest of that line and the lines after it |
| Replies.SeekReply | server/aesdsocket.c:763-795 | a seek answered with the offset it means has the echo begin at that byte: the rest of line cmd and all later lines |
| Replies.WholeReply | server/aesdsocket.c:759-795 | text, a seek that cannot be read, and one that is refused: the echo is everything that can be read |
| Replies.UnturnedReply | server/aesdsocket.c:759-795 | while the oldest line is in slot 0, the echo after every command: from the named byte on, nothing for the first unused slot, everything otherwise |
| Replies.ReplyFollowsOffset | server/aesdsocket.c:763-795 | on every ring of non-empty lines the echo is the meant text if and only if the driver's offset is the meant one, or nothing is stored |
| Replies.ReplyIsMeantIff | server/aesdsocket.c:763-795 | when a seek is echoed as meant, in terms of slots and lines: on a ring not full yet, unless it names the first unused slot; on a full one, if and only if it names no slot, a byte past both line and slot, or one inside both with as much before it |
| Workers.DumpContent | server/aesdsocket.c:464-488 | under every pattern of short, interrupted and failing writes, a text of at most one newline reaches the device up to where a write failed; it succeeds, with all of it written, if and only if no write that was made failed, interrupted ones being made again; and no more writes are made than needed |
| Workers.WritePiece | aesd-char-driver/main.c:216-305 | a write call that goes through: a piece with at most one newline is accepted whole |
| Workers.DumpTurn | server/aesdsocket.c:467-486 | one turn of that loop: an interrupted write changes nothing and goes on, a failed one ends it, any other takes its bytes off the rest |
| Workers.SendAll | server/aesdsocket.c:512-524 | sends all of the data if and only if every send that was made transferred something, and otherwise up to the send that was interrupted or failed; no more sends are made than needed |
| Workers.ReadChunk | server/aesdsocket.c:494-510 | a read delivers the next bytes of the stored text, and nothing exactly at its end |
| Workers.ChunkSent | server/aesdsocket.c:494-525 | a chunk that was read and sent goes on with the rest of the text, or ends the echo when a send did |
| Workers.NothingSent | server/aesdsocket.c:496-510 | an interrupted read changes nothing, a failed one ends the echo, and one at the end completes it |
| Workers.EchoFileSocket | server/aesdsocket.c:489-527 | sends exactly the stored text from the file's offset on and rewinds, if and only if no read that was made failed and no send was interrupted or failed, interrupted reads being made again; otherwise a prefix of it |
| Workers.StoreOrSeek | server/aesdsocket.c:759-788 | a text packet is appended to the stream up to where a write failed, and the file stays at 0; a seek moves it to the driver's offset, or leaves it at 0, and neither changes the store |
| Workers.StoreAndEcho | server/aesdsocket.c:756-795 | what is stored, and then the echo, from the place the command asks for, unless storing failed |
| Workers.Open | server/aesdsocket.c:750-755 | the open for a packet, whose failure ends the connection |
| Workers.CallsOfPacket | server/aesdsocket.c:749-803 | the calls for a packet, kind by kind: it went well if and only if they were all got through |
| Workers.HandlePacket | server/aesdsocket.c:749-803 | a packet is served completely if and only if every call made for it was got through: a text packet is then appended whole and the stored text sent back, a seek changes nothing and has the text sent from its offset; otherwise prefixes of these |
| Workers.FindPacket | server/aesdsocket.c:741-760 | the loop finds the packet up to the first newline after start_ptr, or none |
| Workers.ReceiveMore | server/aesdsocket.c:740-809 | one more receive advances the packets cut so far as specified |
| Workers.ParseData | server/aesdsocket.c:740-809 | the parse state hands on the specified packet, or none |
| Workers.ReceiveFromSocket | server/aesdsocket.c:685-739 | the receive asks for what is free in a buffer of whole units of 1024 bytes, at least one byte, and what arrives is appended |
| Workers.ReceiveNext | server/aesdsocket.c:685-739 | a receive brings bytes, or the connection ends: regularly if and only if all receives were got through, and then the whole stream has arrived |
| Workers.ReceivePacket | server/aesdsocket.c:681-760 | one receive and what it completes: the packets cut so far, and the next, are those of the specification |
| Workers.SessionGoesOn | server/aesdsocket.c:749-803 | the log of exchanges stays a session when the next one is added |
| Workers.SessionStores | server/aesdsocket.c:749-803 | over any session the device absorbs the text packets one after the other, and nothing else |
| Workers.ExchangeReply | server/aesdsocket.c:759-795 | every reply on a device that was empty, from the last capacity lines written: all of them after text or an unreadable seek; for a seek, from the named byte on while the oldest line is in slot 0, and after that if and only if slots and lines agree on it |
| Workers.ServePacket | server/aesdsocket.c:749-803 | serving a packet is one exchange, if and only if every call for it is got through: what was appended, and the reply, which is determined by the command and all that was written; otherwise a prefix of the packet was appended, and a prefix of the reply sent |
| Workers.ServedMore | server/aesdsocket.c:749-803 | one more packet after those served, with all calls made for them |
| Workers.Serve | server/aesdsocket.c:749-803 | serving a packet extends the log of packets and replies if and only if every call for it is got through, and otherwise leaves it with an exchange broken off |
| Workers.AesdCharThread | server/aesdsocket.c:676-819 | for every stream, and all outcomes of the system calls: the worker goes on to the end of the stream, with every packet served, if and only if every call it makes is got through; the packets are those cut from the stream, each exchange goes on from the store the one before left, and each reply, to seeks too, is determined by the commands and all that was written; otherwise only the last call made ended it, and if that was in the last packet, device and reply are those of an exchange broken off; no packet, stored byte or reply without the calls it takes |
| TimestampQueue.NextPtrIsModulo | server/aesdsocket.c:283-287 | the 32-bit mask step is the modular step |
| TimestampQueue.EnqueueAllIsOffer | server/aesdsocket.c:298-312 | whole enqueues act as offers to a FIFO bounded by 8, flags exact |
| TimestampQueue.OfferIs | server/aesdsocket.c:298-312 | which of several items are accepted: the first ones, as many as there is room for, appended in order |
| TimestampQueue.Burst | server/aesdsocket.c:298-312 | what a burst of enqueues does to pointers and flags even when the flags are wrong |
| TimestampQueue.HarmlessLinearises | server/aesdsocket.c:313-327 | under harmless interrupts a dequeue returns the oldest item, intact, and the whole linearises to the bounded FIFO with exact flags |
| TimestampQueue.HarmlessIsFifo | server/aesdsocket.c:313-327 | under harmless interrupts the item taken and those held afterwards are those held before and those accepted meanwhile, in order |
| TimestampQueue.DequeueIsInterrupted | server/aesdsocket.c:313-327 | what any interrupted dequeue returns and leaves, harmful or not: the items of a bounded FIFO that loses everything when it is filled between lines 320 and 321; the full flag is right; the empty flag is set if and only if the last test found it drained or full |
| TimestampQueue.ConservesIffHarmless | server/aesdsocket.c:290-327 | flags exact and every item accounted for, if and only if the interrupts are harmless, said in the number of items held before the dequeue and the numbers of enqueues between its statements |
| TimestampQueue.HarmDoesNotConserve | server/aesdsocket.c:320-325 | harmful interrupts break the flags or lose items |
| TimestampQueue.FillsBeforeAdvance | server/aesdsocket.c:298-320 | how many items are held when the read pointer moves: all that came, up to 8 |
| TimestampQueue.BothFlagsSet | server/aesdsocket.c:313-327 | on any full queue one enqueue after line 321 sets both flags, and from then on both operations fail |
| TimestampQueue.EmptyFlagLate | server/aesdsocket.c:313-327 | with one item held, enqueues between lines 323 and 324 leave the empty flag set: what they brought is held in order but every dequeue is refused, until one more enqueue repairs the flag; eight of them set both flags for good |
| TimestampQueue.LateRepair | server/aesdsocket.c:298-318 | a dequeue goes by the empty flag, right or wrong; an enqueue makes it right unless the full flag is set |
| TimestampQueue.AllLost | server/aesdsocket.c:320-325 | enqueues that fill the queue between lines 320 and 321 are accepted and lost with all it held, and the flags are exact |
| TimestampQueue.WholeOperations | server/aesdsocket.c:298-327 | an enqueue is refused exactly when 8 are held, a dequeue exactly when none are, and otherwise takes the oldest |
| TimestampQueue.FirstInFirstOut | server/aesdsocket.c:298-327 | over every run, what was taken followed by what is held is what was held and accepted, in order |
| TimestampQueue.RunGoesOn | server/aesdsocket.c:298-327 | after every run, what one more operation accepts or takes |
| TimestampQueue.CircularBuf.constructor | server/aesdsocket.c:275-281 | empty, with exact flags |
| TimestampQueue.CircularBuf.EnqueueData | server/aesdsocket.c:298-312 | the new state and result are those of the enqueue on values |
| TimestampQueue.CircularBuf.Interrupt | server/aesdsocket.c:298-312 | the handler, any number of times |
| TimestampQueue.CircularBuf.DequeueData | server/aesdsocket.c:313-327 | with the handler between its statements, the new state, item and results are those of the dequeue on values |
| MainLoop.JoinThreads | server/aesdsocket.c:1058-1073 | joins exactly the workers found completed, once each and in order, never follows a freed node, leaves the others in order, and the count is the list's length again |
| MainLoop.PassIsFilter | server/aesdsocket.c:1058-1073 | a join pass step by step, with workers completing and the signal arriving meanwhile, joins and leaves on the list exactly what the pass over the linked list does for the workers whose flag was set when it came to them |
| MainLoop.PassJoinsCompleted | server/aesdsocket.c:1058-1073 | whatever happens meanwhile, a pass joins every listed worker that had completed when it began, and none that has not completed by its end |
| MainLoop.StepKeepsInv | server/aesdsocket.c:1004-1109 | every step of the main thread, a worker or the signal keeps the invariant, also in the middle of a join pass |
| MainLoop.RunsKeepInv | server/aesdsocket.c:1004-1109 | so does every run |
| MainLoop.ThreadsAreJoinedOnce | server/aesdsocket.c:1004-1109 | over every interleaving, created threads are the disjoint union of joined and listed ones, each joined at most once and only after it completed, and shutdown means that the signal was caught and all were joined |
| MainLoop.HistoryOfRun | server/aesdsocket.c:1004-1109 | over every interleaving the state is what happened: the threads in the order of the accepts, on the list those not joined yet in that order, the flags those set |
| MainLoop.CheckDecides | server/aesdsocket.c:1095-1109 | after a pass the server is gone if and only if the signal was caught and every thread was joined, accepts if and only if the signal was not caught, and otherwise goes on joining |
| MainLoop.MainThreadGoesOn | server/aesdsocket.c:1004-1109 | the main thread is never stuck before it is gone, and accepts anyone new while it accepts |
| MainLoop.SignalEndsAccepting | server/aesdsocket.c:1004-1109 | a caught signal stays caught, and at most one more connection is accepted, none if the main thread is not waiting for one |
| MainLoop.ShutdownComes | server/aesdsocket.c:1058-1109 | once the signal was caught and all threads have completed, one more pass, with one step for each listed worker and three around them, ends in the shutdown with every thread joined, whatever else happens meanwhile |
| MainLoop.SignalBeforeStart | server/aesdsocket.c:994-1001 | a signal caught before the loop: nobody is accepted, and the third step is the shutdown |

## Left out

- Memory.Heap.Kmalloc: does not fail for sizes that are not negative.
- Memory.Heap.Krealloc: never fails and never grows a block in place.
- Devices.Device.AllocateMemory: fails for negative sizes only, as the allocator does.
- MainLoop.JoinThreads: takes the set of workers whose completion flag is set when they are visited as given; the flag is not a field of the cells. `MainLoop.PassIsFilter` says which set that is when workers complete during the pass.
- Contents of driver blocks: a block gets its bytes when it is allocated and is not changed afterwards; the memcpy into it is one step with the allocation, and krealloc always moves.
- Allocation failure in the server.
- C integer overflow: totals, offsets and lengths are mathematical integers, except the wrap of `size - 1` in aesd-circular-buffer.c:40, the 32-bit mask of nextPtr and the conversion of negative sizes. In particular the 32-bit sum in aesd-circular-buffer.c:57 does not wrap.
- copy_to_user, copy_from_user and mutex waits that fail: each driver call is one atomic step whose copies succeed.
- fixed_size_llseek (main.c:307-331), open and release, module setup, ioctl number decoding and debug printing.
- The working buffer at module unload: it is not freed by the driver, which `Devices.Device.Cleanup` says.
- Socket and daemon setup, signal registration, timers and time formatting, logging.
- An ioctl that is interrupted or fails for another reason than the offset.
- strncmp and sscanf on a packet: which command a packet is comes as a parameter, so that sscanf reading past the packet is not modelled.
- The worker's receive buffer is a sequence with a capacity beside it, not memory reallocated in place.
- Receive and parse states are one turn of the worker's loop; `curr_state` itself is not kept.
- Several workers writing one device at the same time: a worker's session is stated without other writers.
- server_thread, the file-backed worker with its timestamps in start_ptr (aesdsocket.c:643-651), and the dequeue in the main loop.
- Truncation of time strings at 80 bytes; the copy of one item is a single step (an interrupting enqueue never writes the slot being read).
- Accept, thread creation and list insertion are one step of the main loop; a failed accept, malloc or pthread_create is the other.
- SLIST, STAILQ and LIST families, the FOREACH_FROM forms and the trace and check macros of queue.h.
