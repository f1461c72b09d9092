// A worker thread of the socket server (server/aesdsocket.c), serving one
// connection on a device that nobody else writes meanwhile, whatever the
// system calls do.

module Workers {
  import opened Streams
  import opened Offsets
  import opened Packets
  import opened Devices
  import opened SystemCalls
  import opened Replies
  import opened Turns
  import CommandStore

  // ----- dump_content

  lemma NextPiece(done: seq<byte>, rest: seq<byte>, n: nat)
    requires n <= |rest|
    ensures done + rest == (done + rest[..n]) + rest[n..]
    ensures Newlines(rest) == Newlines(rest[..n]) + Newlines(rest[n..])
  {
    assert rest == rest[..n] + rest[n..];
    NewlinesConcat(rest[..n], rest[n..]);
  }

  /** One write call that goes through to the device. A piece with at most one
      newline is accepted whole and goes on with what was done before. */
  method WritePiece(dev: Device, piece: seq<byte>, ghost before: seq<byte>, ghost done: seq<byte>) returns (ret: int)
    requires dev.Valid()
    modifies dev, dev.ring, dev.ring.entry, dev.heap
    ensures dev.Valid() && ret <= |piece|
    ensures Newlines(piece) <= 1 ==> ret == |piece| && dev.origin == old(dev.origin)
    ensures Newlines(piece) <= 1 && old(dev.stream) == before + done ==> dev.stream == before + (done + piece)
  {
    ret := dev.Write(piece);
    ConcatAssociates(before, done, piece);
  }

  /** How far a text with at most one newline was written. */
  ghost predicate Dumped(dev: Device, origin: CommandStore.Store, before: seq<byte>, done: seq<byte>, rest: seq<byte>,
                         writeIo: seq<Io>, from: nat, to: nat, most: nat)
    reads dev
  {
    && Newlines(rest) <= 1 && dev.origin == origin && dev.stream == before + done && |rest| == most - |done|
    && Underway(writeIo, from, to, true, most, |done|)
  }

  /** One turn of the loop that writes a text, of which `done` was written and
      rest is left: a call that is made again, transfers something, or ends it. */
  method DumpTurn(dev: Device, rest: seq<byte>, writeIo: seq<Io>, to: nat, ghost few: bool, ghost from: nat,
                  ghost most: nat, ghost origin: CommandStore.Store, ghost before: seq<byte>, ghost done: seq<byte>)
    returns (stop: bool, ok: bool, next: nat, count: nat)
    requires dev.Valid() && rest != [] && to <= |writeIo|
    requires few ==> Dumped(dev, origin, before, done, rest, writeIo, from, to, most)
    modifies dev, dev.ring, dev.ring.entry, dev.heap
    ensures dev.Valid() && to <= next <= |writeIo| && count <= |rest| && (!stop && count == 0 ==> to < next)
    ensures !stop ==> ok
    ensures few && stop ==>
      && dev.origin == origin && dev.stream == before + done && !ok
      && Over(writeIo, from, next, true, most, false, |done|)
    ensures few && !stop ==> Dumped(dev, origin, before, done + rest[..count], rest[count..], writeIo, from, next, most)
  {
    var o;
    stop, ok := false, true;
    o, next, count := NextCall(writeIo, to, |rest|);
    ghost var moved := 0;
    if few {
      moved := CallMade(writeIo, from, to, true, most, |done|, |rest|, o, next, count);
    }
    NextPiece(done, rest, count);
    if o.Partial? {
      var ret := WritePiece(dev, rest[..count], before, done);
      stop, ok, count := ret <= 0, ret >= 0, if ret <= 0 then 0 else ret;
    } else {
      stop, ok := o == Failed, o != Failed;
    }
  }

  /** Write all of a text, whatever the write calls accept at a time. Of a text
      with at most one newline, the part `done` has reached the device. */
  method DumpContent(dev: Device, text: seq<byte>, writeIo: seq<Io>, from: nat)
    returns (ok: bool, to: nat, ghost done: seq<byte>)
    requires dev.Valid() && from <= |writeIo|
    modifies dev, dev.ring, dev.ring.entry, dev.heap
    ensures dev.Valid() && from <= to <= |writeIo| && done <= text
    ensures Newlines(text) <= 1 ==> dev.origin == old(dev.origin) && dev.stream == old(dev.stream) + done
    ensures Newlines(text) <= 1 ==> Over(writeIo, from, to, true, |text|, ok, |done|)
  {
    var rest, stop, count := text, false, 0;
    ok, to, done := true, from, [];
    ghost var few, origin, before := Newlines(text) <= 1, dev.origin, dev.stream;
    while |rest| != 0 && !stop
      invariant dev.Valid() && text == done + rest && from <= to <= |writeIo|
      invariant few && !stop ==> Dumped(dev, origin, before, done, rest, writeIo, from, to, |text|)
      invariant few && stop ==>
        && dev.origin == origin && dev.stream == before + done && !ok
        && Over(writeIo, from, to, true, |text|, false, |done|)
      invariant !stop ==> ok
      decreases !stop, |writeIo| - to, |rest|
    {
      stop, ok, to, count := DumpTurn(dev, rest, writeIo, to, few, from, |text|, origin, before, done);
      if !stop {
        NextPiece(done, rest, count);
        done, rest := done + rest[..count], rest[count..];
      }
    }
    if few && !stop {
      TransferDone(writeIo, from, to, true, |text|, |done|);
    }
  }

  // ----- echo_file_socket

  /** Send all of some data, whatever the send calls accept at a time. */
  method SendAll(data: seq<byte>, sendIo: seq<Io>, from: nat) returns (ok: bool, to: nat, sent: seq<byte>)
    requires from <= |sendIo|
    ensures sent <= data && Over(sendIo, from, to, false, |data|, ok, |sent|)
  {
    to, sent := from, [];
    var rest := data;
    ghost var moved := 0;
    while |rest| > 0
      invariant sent + rest == data && moved == |sent| && Underway(sendIo, from, to, false, |data|, moved)
      decreases |rest|
    {
      ghost var prev := to;
      var o, count;
      o, to, count := NextCall(sendIo, to, |rest|);
      moved := CallMade(sendIo, from, prev, false, |data|, moved, |rest|, o, to, count);
      if !o.Partial? {
        return false, to, sent;
      }
      sent, rest := sent + rest[..count], rest[count..];
    }
    TransferDone(sendIo, from, to, false, |data|, moved);
    return true, to, sent;
  }

  /** So much was sent back with these reads and sends. */
  ghost predicate Echoed(readIo: seq<Io>, r0: nat, r: nat, sendIo: seq<Io>, s0: nat, s: nat, sent: nat) {
    && r0 <= r <= |readIo| && s0 <= s <= |sendIo|
    && (r < |readIo| ==> sent <= BUF_SIZE_UNIT * (r - r0))
    && (s < |sendIo| ==> sent <= Capacity(sendIo, s) - Capacity(sendIo, s0))
  }

  /** In the middle of an echo: so much was sent of all there is to send, and
      every call so far was got through. */
  ghost predicate Echoing(all: seq<byte>, rest: seq<byte>, sent: seq<byte>,
                          readIo: seq<Io>, r0: nat, r: nat, sendIo: seq<Io>, s0: nat, s: nat)
  {
    && all == sent + rest && Echoed(readIo, r0, r, sendIo, s0, s, |sent|)
    && AllThrough(readIo, r0, r, true) && AllThrough(sendIo, s0, s, false)
  }

  /** An echo that is over: all was sent exactly if every call was got through. */
  ghost predicate EchoOver(all: seq<byte>, ok: bool, sent: seq<byte>,
                           readIo: seq<Io>, r0: nat, r: nat, sendIo: seq<Io>, s0: nat, s: nat)
  {
    && sent <= all && (ok ==> sent == all) && Echoed(readIo, r0, r, sendIo, s0, s, |sent|)
    && OnlyLast(readIo, r0, r, true) && OnlyLast(sendIo, s0, s, false)
    && (ok <==> AllThrough(readIo, r0, r, true) && AllThrough(sendIo, s0, s, false))
    && (r0 < |readIo| ==> r0 < r)
  }

  /** A chunk was read and sent, as far as that went. */
  lemma ChunkSent(all: seq<byte>, rest: seq<byte>, sent: seq<byte>, data: seq<byte>, rest': seq<byte>, part: seq<byte>,
                  readIo: seq<Io>, r0: nat, r: nat, next: nat, sendIo: seq<Io>, s0: nat, s: nat, s': nat, ok: bool)
    requires Echoing(all, rest, sent, readIo, r0, r, sendIo, s0, s)
    requires rest == data + rest' && part <= data && 0 < |data| <= BUF_SIZE_UNIT
    requires if r < |readIo| then readIo[r].Partial? && next == r + 1 else next == r
    requires Over(sendIo, s, s', false, |data|, ok, |part|)
    ensures if ok then part == data && Echoing(all, rest', sent + part, readIo, r0, next, sendIo, s0, s')
            else EchoOver(all, false, sent + part, readIo, r0, next, sendIo, s0, s')
  {
    ThroughMore(sendIo, s0, s, s', false);
    ConcatAssociates(sent, data, rest');
    PartSent(all, sent, data, rest', part);
  }

  lemma PartSent(all: seq<byte>, sent: seq<byte>, data: seq<byte>, rest: seq<byte>, part: seq<byte>)
    requires all == sent + (data + rest) && part <= data
    ensures sent + part <= all
  {
  }

  /** A read that was interrupted, or failed, or found the end. */
  lemma NothingSent(all: seq<byte>, rest: seq<byte>, sent: seq<byte>,
                    readIo: seq<Io>, r0: nat, r: nat, next: nat, sendIo: seq<Io>, s0: nat, s: nat)
    requires Echoing(all, rest, sent, readIo, r0, r, sendIo, s0, s)
    requires next == if r < |readIo| then r + 1 else r
    ensures r < |readIo| && readIo[r] == Interrupted ==> Echoing(all, rest, sent, readIo, r0, next, sendIo, s0, s)
    ensures r < |readIo| && readIo[r] == Failed ==> EchoOver(all, false, sent, readIo, r0, next, sendIo, s0, s)
    ensures (r < |readIo| ==> readIo[r].Partial?) && rest == [] ==>
      EchoOver(all, true, sent, readIo, r0, next, sendIo, s0, s)
  {
  }

  /** Read one chunk of the stored text. */
  method ReadChunk(dev: Device, file: OpenFile) returns (data: seq<byte>)
    requires dev.Valid()
    modifies file
    ensures dev.Valid() && |data| <= BUF_SIZE_UNIT && dev.store == old(dev.store)
    ensures data != [] ==>
      && TextFrom(dev.store.lines, old(file.fPos)) == data + TextFrom(dev.store.lines, file.fPos)
      && old(file.fPos) < file.fPos <= |Flatten(Readable(dev.store.lines))|
    ensures data == [] ==> TextFrom(dev.store.lines, old(file.fPos)) == [] && file.fPos == 0
  {
    ReadOfText(dev.store.lines, file.fPos, BUF_SIZE_UNIT);
    data := dev.Read(file, BUF_SIZE_UNIT);
  }

  /** Read the device to its end and send what it holds from the file's offset
      on. An interrupted read is made again, an interrupted send is not. */
  method EchoFileSocket(dev: Device, file: OpenFile, readIo: seq<Io>, r0: nat, sendIo: seq<Io>, s0: nat)
    returns (ok: bool, r: nat, s: nat, sent: seq<byte>)
    requires dev.Valid() && r0 <= |readIo| && s0 <= |sendIo|
    modifies file
    ensures dev.Valid() && EchoOver(TextFrom(dev.store.lines, old(file.fPos)), ok, sent, readIo, r0, r, sendIo, s0, s)
    ensures ok ==> file.fPos == 0
  {
    r, s, sent := r0, s0, [];
    ghost var lines, all := dev.store.lines, TextFrom(dev.store.lines, file.fPos);
    while true
      invariant dev.Valid() && dev.store.lines == lines
      invariant Echoing(all, TextFrom(lines, file.fPos), sent, readIo, r0, r, sendIo, s0, s)
      decreases |readIo| - r, |Flatten(Readable(lines))| - file.fPos
    {
      ghost var before, rest := r, TextFrom(lines, file.fPos);
      var o := Partial(BUF_SIZE_UNIT);
      if r < |readIo| {
        o, r := readIo[r], r + 1;
      }
      NothingSent(all, rest, sent, readIo, r0, before, r, sendIo, s0, s);
      if o == Interrupted {
        continue;
      }
      if o == Failed {
        return false, r, s, sent;
      }
      var data := ReadChunk(dev, file);
      if data == [] {
        return true, r, s, sent;
      }
      var sendOk, next, part := SendAll(data, sendIo, s);
      ChunkSent(all, rest, sent, data, TextFrom(lines, file.fPos), part,
                readIo, r0, before, r, sendIo, s0, s, next, sendOk);
      s, sent := next, sent + part;
      if !sendOk {
        return false, r, s, sent;
      }
    }
  }

  // ----- one packet

  /** How the writes for a packet ended: text takes writes, a seek none. */
  ghost predicate Stored(command: Command, packet: seq<byte>, done: seq<byte>,
                         writeIo: seq<Io>, from: nat, to: nat, ok: bool)
  {
    && done <= packet && from <= |writeIo|
    && if command == Text then Over(writeIo, from, to, true, |packet|, ok, |done|) else ok && to == from && done == []
  }

  /** Store a packet, or move the file just opened to where it says. */
  method StoreOrSeek(dev: Device, file: OpenFile, packet: seq<byte>, command: Command, writeIo: seq<Io>, from: nat)
    returns (ok: bool, to: nat, ghost done: seq<byte>)
    requires dev.Valid() && file.fPos == 0 && Newlines(packet) <= 1 && from <= |writeIo|
    modifies dev, dev.ring, dev.ring.entry, dev.heap, file
    ensures dev.Valid() && dev.origin == old(dev.origin) && dev.stream == old(dev.stream) + done
    ensures command != Text ==> dev.store == old(dev.store)
    ensures Stored(command, packet, done, writeIo, from, to, ok)
    ensures 0 < dev.ring.capacity && |dev.store.lines| <= dev.ring.capacity
    ensures file.fPos == EchoStart(dev.ring.capacity, dev.store, command)
  {
    ok, to, done := true, from, [];
    assert dev.stream + [] == dev.stream;
    match command {
      case Text =>
        ok, to, done := DumpContent(dev, packet, writeIo, from);
      case SeekTo(cmd, off) =>
        var _ := dev.AdjustFileOffset(file, cmd, off);
      case BadSeek =>
    }
  }

  /** How the calls for a packet went on a file that was opened: the writes,
      and unless these failed the reads and sends. */
  ghost predicate Carried(command: Command, packet: seq<byte>, done: seq<byte>, all: seq<byte>, reply: seq<byte>,
                          calls: Calls, from: Used, to: Used, ok: bool, written: bool)
  {
    && to.open == from.open && Stored(command, packet, done, calls.write, from.write, to.write, written)
    && if written then EchoOver(all, ok, reply, calls.read, from.read, to.read, calls.send, from.send, to.send)
       else !ok && to.read == from.read && to.send == from.send && reply == []
  }

  /** The device was opened for a packet, if the call went well. */
  ghost predicate OpenMade(calls: Calls, from: Used, to: Used, ok: bool) {
    && to == from.(open := if from.open < |calls.open| then from.open + 1 else from.open)
    && (ok <==> AllThrough(calls.open, from.open, to.open, false))
  }

  method Open(calls: Calls, from: Used) returns (ok: bool, to: Used)
    requires Within(calls, from)
    ensures OpenMade(calls, from, to, ok)
  {
    ok, to := true, from;
    if from.open < |calls.open| {
      ok, to := calls.open[from.open].Partial?, from.(open := from.open + 1);
    }
  }

  /** The calls made for a packet, kind by kind, the open first. */
  lemma CallsOfPacket(calls: Calls, from: Used, mid: Used, to: Used, didOpen: bool, written: bool, ok: bool,
                      packet: seq<byte>, command: Command, done: seq<byte>, all: seq<byte>, reply: seq<byte>)
    requires Within(calls, from) && OpenMade(calls, from, mid, didOpen)
    requires if didOpen then Carried(command, packet, done, all, reply, calls, mid, to, ok, written)
             else !ok && to == mid && done == [] && reply == []
    ensures done <= packet && reply <= all && (ok && command == Text ==> done == packet) && (ok ==> reply == all)
    ensures AtMostLast(calls, from, to) && (ok <==> Went(calls, from, to))
    ensures MadeFor(calls, from, to, 1, if ok then 1 else 0, |done|, |reply|)
  {
  }

  /** Store or seek, then echo, on a file just opened. */
  method StoreAndEcho(dev: Device, packet: seq<byte>, command: Command, calls: Calls, from: Used)
    returns (ok: bool, to: Used, reply: seq<byte>, ghost written: bool, ghost done: seq<byte>, ghost all: seq<byte>)
    requires dev.Valid() && Newlines(packet) <= 1 && Within(calls, from)
    modifies dev, dev.ring, dev.ring.entry, dev.heap
    ensures dev.Valid() && dev.origin == old(dev.origin) && dev.stream == old(dev.stream) + done
    ensures command != Text ==> dev.store == old(dev.store) && done == []
    ensures 0 < dev.ring.capacity && |dev.store.lines| <= dev.ring.capacity
    ensures all == TextFrom(dev.store.lines, EchoStart(dev.ring.capacity, dev.store, command))
    ensures Carried(command, packet, done, all, reply, calls, from, to, ok, written)
  {
    var file := new OpenFile();
    var toWrite, toRead, toSend := from.write, from.read, from.send;
    reply := [];
    ok, toWrite, done := StoreOrSeek(dev, file, packet, command, calls.write, from.write);
    all, written := TextFrom(dev.store.lines, file.fPos), ok;
    if ok {
      ok, toRead, toSend, reply := EchoFileSocket(dev, file, calls.read, from.read, calls.send, from.send);
    }
    to := Used(from.open, toWrite, toRead, toSend);
  }

  /** Serve one packet on a freshly opened device: store it or seek, then echo.
      It goes well exactly if every call is got through. */
  method HandlePacket(dev: Device, packet: seq<byte>, command: Command, calls: Calls, from: Used)
    returns (ok: bool, to: Used, reply: seq<byte>, ghost done: seq<byte>)
    requires dev.Valid() && Newlines(packet) <= 1 && Within(calls, from)
    modifies dev, dev.ring, dev.ring.entry, dev.heap
    ensures dev.Valid() && dev.origin == old(dev.origin) && dev.stream == old(dev.stream) + done
    ensures done <= packet && (command != Text ==> dev.store == old(dev.store) && done == [])
    ensures AtMostLast(calls, from, to) && (ok <==> Went(calls, from, to))
    ensures MadeFor(calls, from, to, 1, if ok then 1 else 0, |done|, |reply|)
    ensures command == Text && ok ==> done == packet
    ensures 0 < dev.ring.capacity && |dev.store.lines| <= dev.ring.capacity
    ensures ok ==> reply == TextFrom(dev.store.lines, EchoStart(dev.ring.capacity, dev.store, command))
    ensures !ok ==> reply <= TextFrom(dev.store.lines, EchoStart(dev.ring.capacity, dev.store, command))
  {
    assert dev.stream + [] == dev.stream;
    reply, done := [], [];
    ok, to := Open(calls, from);
    ghost var mid, didOpen, written := to, ok, false;
    ghost var all := TextFrom(dev.store.lines, EchoStart(dev.ring.capacity, dev.store, command));
    if ok {
      ok, to, reply, written, done, all := StoreAndEcho(dev, packet, command, calls, to);
    }
    CallsOfPacket(calls, from, mid, to, didOpen, written, ok, packet, command, done, all, reply);
  }

  // ----- the connection

  /** What one served packet did: the bytes the device had absorbed after it,
      and what was sent back. */
  datatype Exchange = Exchange(packet: seq<byte>, command: Command, after: seq<byte>, reply: seq<byte>)

  function ToStore(x: Exchange): seq<byte> {
    if x.command == Text then x.packet else []
  }

  /** The reply is the stored text, from the place the command asks for. */
  ghost predicate Exchanged(cap: nat, origin: CommandStore.Store, before: seq<byte>, x: Exchange) {
    var st := CommandStore.Absorb(cap, origin, x.after);
    && x.after == before + ToStore(x)
    && 0 < cap && x.reply == TextFrom(st.lines, EchoStart(cap, st, x.command))
  }

  /** On a device that was empty, the reply to text, or to a seek that cannot be
      read, is the last cap lines written. So long as the oldest of them is in
      slot 0, every seek is answered as the lines say; after that, a seek is
      answered with the meant text exactly if slots and lines agree on it. */
  lemma ExchangeReply(cap: nat, before: seq<byte>, x: Exchange)
    requires Exchanged(cap, CommandStore.EMPTY_STORE, before, x)
    requires x.command.SeekTo? ==> x.command.off < U32
    ensures var lines, adds := LastN(cap, CompleteLines(x.after)), |CompleteLines(x.after)|;
            var slots := SlotSizes(cap, Oldest(adds, cap), Sizes(lines));
            && (!x.command.SeekTo? ==> x.reply == Flatten(lines))
            && (adds < cap || adds % cap == 0 ==> x.reply == Reply(cap, lines, x.command))
            && (x.command.SeekTo? ==>
                 (x.reply == Meant(lines, x.command.cmd, x.command.off) <==>
                   SeekAgrees(cap, slots, Sizes(lines), x.command.cmd, x.command.off)))
  {
    var st := CommandStore.Absorb(cap, CommandStore.EMPTY_STORE, x.after);
    CommandStore.AbsorbFromEmpty(cap, x.after);
    KeptLinesNotEmpty(cap, x.after);
    OldestIsModulo(st.adds, cap);
    ReadSeesReadable(st.lines, 0, 0);
    if x.command.SeekTo? {
      ReplyIsMeantIff(cap, st, x.command.cmd, x.command.off);
    } else {
      WholeReply(cap, st, x.command);
    }
    if st.adds < cap || st.adds % cap == 0 {
      UnturnedReply(cap, st, x.command);
    }
  }

  /** An exchange that failed: part of a text packet may have been stored, and
      part of the reply sent. */
  ghost predicate BrokenOff(cap: nat, origin: CommandStore.Store, before: seq<byte>, x: Exchange) {
    var st := CommandStore.Absorb(cap, origin, x.after);
    && before <= x.after && x.after[|before|..] <= ToStore(x)
    && 0 < cap && x.reply <= TextFrom(st.lines, EchoStart(cap, st, x.command))
  }

  /** What the device had absorbed after the first n exchanges. */
  ghost function After(before: seq<byte>, log: seq<Exchange>, n: nat): seq<byte>
    requires n <= |log|
  {
    if n == 0 then before else log[n - 1].after
  }

  /** Each exchange went on from where the one before it left the device. */
  ghost predicate Session(cap: nat, origin: CommandStore.Store, before: seq<byte>, log: seq<Exchange>) {
    forall k {:trigger Exchanged(cap, origin, After(before, log, k), log[k])} :: 0 <= k < |log| ==>
      Exchanged(cap, origin, After(before, log, k), log[k])
  }

  lemma SessionGoesOn(cap: nat, origin: CommandStore.Store, before: seq<byte>, log: seq<Exchange>, x: Exchange)
    requires Session(cap, origin, before, log) && Exchanged(cap, origin, After(before, log, |log|), x)
    ensures Session(cap, origin, before, log + [x])
  {
    forall k | 0 <= k < |log + [x]|
      ensures Exchanged(cap, origin, After(before, log + [x], k), (log + [x])[k])
    {
      assert After(before, log + [x], k) == After(before, log, k);
      assert k < |log| ==> Exchanged(cap, origin, After(before, log, k), log[k]);
    }
  }

  /** What the first n exchanges stored. */
  ghost function Texts(log: seq<Exchange>, n: nat): seq<byte>
    requires n <= |log|
  {
    if n == 0 then [] else Texts(log, n - 1) + ToStore(log[n - 1])
  }

  lemma ExchangeStores(cap: nat, origin: CommandStore.Store, before: seq<byte>, log: seq<Exchange>, k: nat)
    requires Session(cap, origin, before, log) && k < |log|
    ensures After(before, log, k + 1) == After(before, log, k) + ToStore(log[k])
  {
    assert Exchanged(cap, origin, After(before, log, k), log[k]);
  }

  /** Over a session the device absorbs the text packets one after the other,
      and nothing else. */
  lemma {:induction false} SessionStores(cap: nat, origin: CommandStore.Store, before: seq<byte>, log: seq<Exchange>,
                                         n: nat)
    requires Session(cap, origin, before, log) && n <= |log|
    ensures After(before, log, n) == before + Texts(log, n)
  {
    if n == 0 {
      assert before + [] == before;
    } else {
      SessionStores(cap, origin, before, log, n - 1);
      ExchangeStores(cap, origin, before, log, n - 1);
      ConcatAssociates(before, Texts(log, n - 1), ToStore(log[n - 1]));
    }
  }

  function CommandAt(commands: seq<Command>, k: nat): Command {
    if k < |commands| then commands[k] else Text
  }

  /** Look for a newline in the buffer, from startPtr on. */
  method FindPacket(buf: seq<byte>, startPtr: nat) returns (packet: seq<byte>, found: bool)
    requires startPtr <= |buf|
    ensures found <==> FirstNewline(buf[startPtr..]) != -1
    ensures found ==> packet == buf[startPtr..][..FirstNewline(buf[startPtr..]) + 1]
  {
    ghost var window := buf[startPtr..];
    var numBytesToRead := |buf| - startPtr;
    var left, ptr := numBytesToRead, startPtr;
    while left > 0
      invariant 0 <= left && ptr + left == |buf| && startPtr <= ptr
      invariant SearchNewline(window, 0) == SearchNewline(window, ptr - startPtr)
    {
      assert window[ptr - startPtr] == buf[ptr];
      if buf[ptr] == DELIMITER {
        left := left - 1;
        return buf[startPtr..][..numBytesToRead - left], true;
      }
      ptr, left := ptr + 1, left - 1;
    }
    return [], false;
  }

  /** How much had arrived after n receives. */
  ghost function ArrivedBytes(ends: seq<nat>, n: nat): nat
    requires n <= |ends|
  {
    if n == 0 then 0 else ends[n - 1]
  }

  function Least(a: nat, b: nat): nat {
    if a < b then a else b
  }

  /** How much has arrived, and what was cut from it so far. */
  ghost predicate Receiving(stream: seq<byte>, ends: seq<nat>, received: nat, packets: seq<seq<byte>>, startPtr: nat) {
    && Boundaries(stream, ends) && received <= |stream|
    && received == ArrivedBytes(ends, |ends|)
    && Cuts(Assigned, stream, ends, |ends|) == Cut(packets, startPtr)
  }

  lemma ReceiveMore(stream: seq<byte>, ends: seq<nat>, received: nat, packets: seq<seq<byte>>, startPtr: nat, end: nat)
    requires Receiving(stream, ends, received, packets, startPtr) && received <= end <= |stream|
    ensures startPtr <= received && stream[..end][startPtr..] == stream[startPtr..end]
    ensures var next := CutMore(Assigned, stream, Cut(packets, startPtr), end);
            Receiving(stream, ends + [end], end, next.packets, next.start)
  {
    forall i, j | 0 <= i < j < |ends + [end]|
      ensures InOrder((ends + [end])[i], (ends + [end])[j])
    {
      assert i < |ends| - 1 ==> InOrder(ends[i], ends[|ends| - 1]);
      assert j < |ends| ==> InOrder(ends[i], ends[j]);
    }
    CutsOfPrefix(Assigned, stream, ends, ends + [end], |ends|);
  }

  /** The parse state: look for a packet in what has arrived, from startPtr on. */
  method ParseData(buf: seq<byte>, startPtr: nat,
                   ghost stream: seq<byte>, ghost ends: seq<nat>, ghost received: nat, ghost packets: seq<seq<byte>>)
    returns (packet: seq<byte>, found: bool)
    requires Receiving(stream, ends, received, packets, startPtr) && received <= |buf| && buf <= stream
    ensures !found ==> Receiving(stream, ends + [|buf|], |buf|, packets, startPtr)
    ensures found ==> Receiving(stream, ends + [|buf|], |buf|, packets + [packet], |packet|) && IsLine(packet)
  {
    ReceiveMore(stream, ends, received, packets, startPtr, |buf|);
    assert buf == stream[..|buf|];
    packet, found := FindPacket(buf, startPtr);
    if found {
      var line, _ := CutIsLine(stream, startPtr, |buf|);
    }
  }

  /** The log tells what was handed on and sent back. */
  ghost predicate Recorded(log: seq<Exchange>, packets: seq<seq<byte>>, replies: seq<seq<byte>>, commands: seq<Command>)
  {
    && |log| <= |packets| == |replies|
    && forall k :: 0 <= k < |log| ==>
         log[k].packet == packets[k] && log[k].reply == replies[k] && log[k].command == CommandAt(commands, k)
  }

  lemma RecordMore(log: seq<Exchange>, packets: seq<seq<byte>>, replies: seq<seq<byte>>, commands: seq<Command>,
                   x: Exchange)
    requires Recorded(log, packets, replies, commands)
    ensures Recorded(log, packets + [x.packet], replies + [x.reply], commands)
    ensures |log| == |packets| && x.command == CommandAt(commands, |packets|) ==>
      Recorded(log + [x], packets + [x.packet], replies + [x.reply], commands)
  {
  }

  /** Serve a packet; if that went well, it was an exchange. */
  method ServePacket(dev: Device, packet: seq<byte>, command: Command, calls: Calls, from: Used)
    returns (ok: bool, to: Used, reply: seq<byte>, ghost x: Exchange)
    requires dev.Valid() && IsLine(packet) && Within(calls, from)
    modifies dev, dev.ring, dev.ring.entry, dev.heap
    ensures dev.Valid() && dev.origin == old(dev.origin) && |old(dev.stream)| <= |dev.stream|
    ensures AtMostLast(calls, from, to) && (ok <==> Went(calls, from, to))
    ensures MadeFor(calls, from, to, 1, if ok then 1 else 0, |dev.stream| - |old(dev.stream)|, |reply|)
    ensures x == Exchange(packet, command, dev.stream, reply)
    ensures ok ==> Exchanged(dev.ring.capacity, dev.origin, old(dev.stream), x)
    ensures !ok ==> BrokenOff(dev.ring.capacity, dev.origin, old(dev.stream), x)
  {
    ghost var done;
    LineHasOneNewline(packet);
    ok, to, reply, done := HandlePacket(dev, packet, command, calls, from);
    x := Exchange(packet, command, dev.stream, reply);
    assert (old(dev.stream) + done)[|old(dev.stream)|..] == done;
  }

  /** What the device absorbed, `before` to `now`, came of these packets: they
      were all served, and every call for them was got through. */
  ghost predicate Serving(cap: nat, origin: CommandStore.Store, before: seq<byte>, now: seq<byte>,
                          commands: seq<Command>, calls: Calls, to: Used,
                          packets: seq<seq<byte>>, replies: seq<seq<byte>>, log: seq<Exchange>)
  {
    && |log| == |packets| && Recorded(log, packets, replies, commands) && Session(cap, origin, before, log)
    && |before| <= |now| && now == After(before, log, |log|)
    && Went(calls, NONE_USED, to)
    && MadeFor(calls, NONE_USED, to, |packets|, |log|, |now| - |before|, |Flatten(replies)|)
  }

  /** All but the last packet were served; that one was broken off, as the last
      call for it was not got through. */
  ghost predicate CutOff(cap: nat, origin: CommandStore.Store, before: seq<byte>, now: seq<byte>,
                         commands: seq<Command>, calls: Calls, to: Used,
                         packets: seq<seq<byte>>, replies: seq<seq<byte>>, log: seq<Exchange>)
  {
    && |packets| == |log| + 1 && Recorded(log, packets, replies, commands) && Session(cap, origin, before, log)
    && BrokenOff(cap, origin, After(before, log, |log|),
                 Exchange(packets[|log|], CommandAt(commands, |log|), now, replies[|log|]))
    && |before| <= |now| && AtMostLast(calls, NONE_USED, to) && !Went(calls, NONE_USED, to)
    && MadeFor(calls, NONE_USED, to, |packets|, |log|, |now| - |before|, |Flatten(replies)|)
  }

  /** One more packet after those served. */
  lemma ServedMore(cap: nat, origin: CommandStore.Store, before: seq<byte>, now: seq<byte>, commands: seq<Command>,
                   calls: Calls, from: Used, to: Used, packets: seq<seq<byte>>, replies: seq<seq<byte>>,
                   log: seq<Exchange>, ok: bool, x: Exchange, stored: nat)
    requires Serving(cap, origin, before, now, commands, calls, from, packets, replies, log)
    requires AtMostLast(calls, from, to) && (ok <==> Went(calls, from, to))
    requires |now| <= |x.after| && stored == |x.after| - |now|
    requires MadeFor(calls, from, to, 1, if ok then 1 else 0, stored, |x.reply|)
    requires x.command == CommandAt(commands, |packets|)
    requires if ok then Exchanged(cap, origin, now, x) else BrokenOff(cap, origin, now, x)
    ensures var packets', replies' := packets + [x.packet], replies + [x.reply];
            if ok then Serving(cap, origin, before, x.after, commands, calls, to, packets', replies', log + [x])
            else CutOff(cap, origin, before, x.after, commands, calls, to, packets', replies', log)
  {
    RecordMore(log, packets, replies, commands, x);
    FlattenMore(replies, x.reply);
    GoesOn(calls, NONE_USED, from, to);
    MadeTogether(calls, NONE_USED, from, to, |packets|, |log|, |now| - |before|, |Flatten(replies)|,
                 1, if ok then 1 else 0, stored, |x.reply|);
    if ok {
      SessionGoesOn(cap, origin, before, log, x);
    }
  }

  /** Serve the next packet, and log it if that went well. */
  method Serve(dev: Device, packet: seq<byte>, commands: seq<Command>, calls: Calls, from: Used,
               packets: seq<seq<byte>>, replies: seq<seq<byte>>,
               ghost origin: CommandStore.Store, ghost before: seq<byte>, ghost log: seq<Exchange>)
    returns (ok: bool, to: Used, reply: seq<byte>, ghost log': seq<Exchange>)
    requires dev.Valid() && IsLine(packet) && dev.origin == origin
    requires Serving(dev.ring.capacity, origin, before, dev.stream, commands, calls, from, packets, replies, log)
    modifies dev, dev.ring, dev.ring.entry, dev.heap
    ensures dev.Valid() && dev.origin == origin
    ensures var packets', replies' := packets + [packet], replies + [reply];
            if ok then
              Serving(dev.ring.capacity, origin, before, dev.stream, commands, calls, to, packets', replies', log')
            else
              CutOff(dev.ring.capacity, origin, before, dev.stream, commands, calls, to, packets', replies', log')
    ensures ok ==> exists x :: log' == log + [x]
    ensures !ok ==> log' == log
  {
    ghost var x, now := Exchange([], Text, [], []), dev.stream;
    ok, to, reply, x := ServePacket(dev, packet, CommandAt(commands, |packets|), calls, from);
    ServedMore(dev.ring.capacity, origin, before, now, commands, calls, from, to, packets, replies, log, ok, x,
               |dev.stream| - |now|);
    log' := if ok then log + [x] else log;
  }

  /** How many bytes a receive brings, with so many received before and so many
      still to come: it asks for what is free in the last unit of the buffer. */
  function Received(outcome: Io, before: nat, left: nat): int {
    if !outcome.Partial? then -1
    else if left == 0 then 0
    else
      var asked := BUF_SIZE_UNIT - before % BUF_SIZE_UNIT;
      Amount(outcome.n, if asked < left then asked else left)
  }

  function OutcomeAt(recvs: seq<Io>, i: nat): Io {
    if i < |recvs| then recvs[i] else Partial(BUF_SIZE_UNIT)
  }

  /** The receive state: make room for at least one more byte if the buffer is
      full, and append at most as much as fits of what the peer has left to
      send. 0 bytes mean the peer has closed. */
  method ReceiveFromSocket(buf: seq<byte>, bufCap: nat, left: seq<byte>, outcome: Io)
    returns (n: int, grown: seq<byte>, cap: nat)
    requires |buf| <= bufCap <= |buf| + BUF_SIZE_UNIT && bufCap % BUF_SIZE_UNIT == 0
    ensures 1 <= cap - |buf| <= BUF_SIZE_UNIT && cap % BUF_SIZE_UNIT == 0
    ensures n == Received(outcome, |buf|, |left|) && n <= |left| && |buf| + n <= cap
    ensures grown == buf + if n > 0 then left[..n] else []
    ensures outcome.Partial? && outcome.n > 0 && left != [] ==> n == Least(outcome.n, Least(cap - |buf|, |left|))
  {
    cap := bufCap;
    if bufCap == |buf| {
      cap := cap + BUF_SIZE_UNIT;
    }
    grown := buf;
    RoomInUnit(|buf|, cap);
    if !outcome.Partial? {
      n := -1;
    } else if left == [] {
      n := 0;
    } else {
      var asked := cap - |buf|;
      n := Amount(outcome.n, if asked < |left| then asked else |left|);
      grown := buf + left[..n];
    }
  }

  lemma RoomInUnit(len: nat, cap: nat)
    requires len < cap <= len + BUF_SIZE_UNIT && cap % BUF_SIZE_UNIT == 0
    ensures cap - len == BUF_SIZE_UNIT - len % BUF_SIZE_UNIT
  {
  }

  /** The receives so far, as their outcomes have it. */
  ghost predicate ReceivedAs(recvs: seq<Io>, total: nat, ends: seq<nat>) {
    forall i {:trigger ArrivedBytes(ends, i)} :: 0 <= i < |ends| ==>
      var before := ArrivedBytes(ends, i);
      && before <= total
      && before < ends[i] == before + Received(OutcomeAt(recvs, i), before, total - before)
  }

  lemma ReceivedMore(recvs: seq<Io>, total: nat, ends: seq<nat>, end: nat)
    requires ReceivedAs(recvs, total, ends) && ArrivedBytes(ends, |ends|) < end <= total
    requires var before := ArrivedBytes(ends, |ends|);
             end == before + Received(OutcomeAt(recvs, |ends|), before, total - before)
    ensures ReceivedAs(recvs, total, ends + [end])
    ensures Through(OutcomeAt(recvs, |ends|), false)
  {
    forall i | 0 <= i <= |ends|
      ensures ArrivedBytes(ends + [end], i) == ArrivedBytes(ends, i)
    {
    }
    assert forall i :: 0 <= i < |ends| ==> ArrivedBytes(ends, i) <= total;
  }

  lemma StillAPrefix(buf: seq<byte>, n: int, stream: seq<byte>)
    requires buf <= stream && n <= |stream| - |buf|
    ensures buf + (if n > 0 then stream[|buf|..][..n] else []) <= stream
  {
  }

  /** The receive buffer holds what has arrived of the stream, with room in units
      and less than a unit to spare, and every receive so far was got through. */
  ghost predicate Fed(stream: seq<byte>, recvs: seq<Io>, buf: seq<byte>, bufCap: nat, ends: seq<nat>) {
    && buf <= stream && |buf| == ArrivedBytes(ends, |ends|)
    && |buf| <= bufCap <= |buf| + BUF_SIZE_UNIT && bufCap % BUF_SIZE_UNIT == 0
    && ReceivedAs(recvs, |stream|, ends) && AllThrough(recvs, 0, Least(|recvs|, |ends|), false)
  }

  /** One receive; 0 bytes mean that the peer has closed. */
  method ReceiveNext(stream: seq<byte>, recvs: seq<Io>, i: nat, buf: seq<byte>, bufCap: nat, ghost ends: seq<nat>)
    returns (n: int, grown: seq<byte>, cap: nat)
    requires Fed(stream, recvs, buf, bufCap, ends) && i == |ends|
    ensures n > 0 ==> Fed(stream, recvs, grown, cap, ends + [|grown|]) && |buf| < |grown|
    ensures n <= 0 ==>
      && OnlyLast(recvs, 0, Least(|recvs|, i + 1), false)
      && (n == 0 <==> AllThrough(recvs, 0, Least(|recvs|, i + 1), false))
    ensures n == 0 ==> buf == stream
  {
    n, grown, cap := ReceiveFromSocket(buf, bufCap, stream[|buf|..], OutcomeAt(recvs, i));
    StillAPrefix(buf, n, stream);
    if n > 0 {
      ReceivedMore(recvs, |stream|, ends, |grown|);
    }
  }

  /** The connection between two receives: what has arrived of the stream is in
      the buffer, and so many packets were cut from it. */
  ghost predicate Connected(stream: seq<byte>, recvs: seq<Io>, buf: seq<byte>, bufCap: nat, startPtr: nat,
                            packets: seq<seq<byte>>, ends: seq<nat>)
  {
    Fed(stream, recvs, buf, bufCap, ends) && Receiving(stream, ends, |buf|, packets, startPtr) && startPtr <= |buf|
  }

  /** The receives so far, and the packets handed on from them. */
  ghost predicate Cutting(stream: seq<byte>, recvs: seq<Io>, ends: seq<nat>, packets: seq<seq<byte>>) {
    Boundaries(stream, ends) && packets == HandedOn(Assigned, stream, ends) && ReceivedAs(recvs, |stream|, ends)
  }

  /** One receive, and the packet it completes, if any. */
  method ReceivePacket(stream: seq<byte>, recvs: seq<Io>, i: nat, buf: seq<byte>, bufCap: nat, startPtr: nat,
                       ghost packets: seq<seq<byte>>, ghost ends: seq<nat>)
    returns (n: int, grown: seq<byte>, cap: nat, packet: seq<byte>, found: bool, ghost ends': seq<nat>)
    requires Connected(stream, recvs, buf, bufCap, startPtr, packets, ends) && i == |ends|
    ensures n > 0 ==> |ends'| == i + 1 && |buf| < |grown| <= |stream|
    ensures n > 0 && !found ==> Connected(stream, recvs, grown, cap, startPtr, packets, ends')
    ensures n > 0 && found ==>
      Connected(stream, recvs, grown, cap, |packet|, packets + [packet], ends') && IsLine(packet)
    ensures n <= 0 ==>
      && ends' == ends && OnlyLast(recvs, 0, Least(|recvs|, i + 1), false)
      && (n == 0 <==> AllThrough(recvs, 0, Least(|recvs|, i + 1), false))
    ensures n == 0 ==> ArrivedBytes(ends, |ends|) == |stream|
  {
    n, grown, cap := ReceiveNext(stream, recvs, i, buf, bufCap, ends);
    packet, found, ends' := [], false, ends;
    if n > 0 {
      packet, found := ParseData(grown, startPtr, stream, ends, |buf|, packets);
      ends' := ends + [|grown|];
    }
  }

  /** A worker thread. `recvs` says how much each receive delivers; the
      connection is closed when the stream is used up, or on a failure.
      The worker reports the packets it handed on, what it sent for each, how
      many outcomes of receives it used (got) and of the other calls (to). It
      goes on to the end of the stream exactly if every call is got through. */
  method AesdCharThread(dev: Device, stream: seq<byte>, recvs: seq<Io>, commands: seq<Command>, calls: Calls)
    returns (ok: bool, packets: seq<seq<byte>>, replies: seq<seq<byte>>, got: nat, to: Used,
             ghost ends: seq<nat>, ghost log: seq<Exchange>)
    requires dev.Valid()
    modifies dev, dev.ring, dev.ring.entry, dev.heap
    ensures dev.Valid()
    ensures Cutting(stream, recvs, ends, packets) && OnlyLast(recvs, 0, got, false)
    ensures got == Least(|recvs|, |ends| + if |log| == |packets| then 1 else 0)
    ensures ok <==> AllThrough(recvs, 0, got, false) && Went(calls, NONE_USED, to)
    ensures ok ==> ArrivedBytes(ends, |ends|) == |stream| && |log| == |packets|
    ensures dev.origin == old(dev.origin)
    ensures if |log| == |packets| then
              Serving(dev.ring.capacity, dev.origin, old(dev.stream), dev.stream,
                      commands, calls, to, packets, replies, log)
            else
              CutOff(dev.ring.capacity, dev.origin, old(dev.stream), dev.stream,
                     commands, calls, to, packets, replies, log)
  {
    var bufCap: nat, startPtr: nat, i: nat := 0, 0, 0;
    var buf: seq<byte> := [];
    packets, replies, to := [], [], NONE_USED;
    ends, log := [], [];
    ghost var origin, before := dev.origin, dev.stream;
    while true
      invariant dev.Valid() && dev.origin == origin
      invariant Connected(stream, recvs, buf, bufCap, startPtr, packets, ends) && i == |ends|
      invariant Serving(dev.ring.capacity, origin, before, dev.stream, commands, calls, to, packets, replies, log)
      decreases |stream| - |buf|
    {
      var n, packet, found;
      n, buf, bufCap, packet, found, ends :=
        ReceivePacket(stream, recvs, i, buf, bufCap, startPtr, packets, ends);
      i := i + 1;
      if n <= 0 {
        return n == 0, packets, replies, Least(|recvs|, i), to, ends, log;
      }
      if found {
        var served, reply;
        served, to, reply, log := Serve(dev, packet, commands, calls, to, packets, replies, origin, before, log);
        packets, replies := packets + [packet], replies + [reply];
        if !served {
          return false, packets, replies, Least(|recvs|, i), to, ends, log;
        }
        startPtr := |packet|;
      }
    }
  }
}
