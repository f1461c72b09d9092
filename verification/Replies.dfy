// What the worker sends back after a packet: the stored text from some offset
// on, and which offset that is (server/aesdsocket.c with aesd-char-driver/).

module Replies {
  import opened Streams
  import opened Offsets
  import opened Turns
  import CommandStore

  /** What a packet asks for: text to store, a seek command with its two
      numbers, or a seek command whose numbers cannot be read. */
  datatype Command = Text | SeekTo(cmd: nat, off: nat) | BadSeek

  function From(flat: seq<byte>, pos: nat): seq<byte> {
    if pos <= |flat| then flat[pos..] else []
  }

  /** The stored text from a file offset on, as a reader sees it. */
  function TextFrom(lines: seq<seq<byte>>, pos: nat): seq<byte> {
    From(Flatten(Readable(lines)), pos)
  }

  lemma FromSplits(flat: seq<byte>, pos: nat, mid: nat)
    ensures pos < mid <= |flat| ==> From(flat, pos) == flat[pos..mid] + From(flat, mid)
    ensures pos >= |flat| ==> From(flat, pos) == []
  {
  }

  lemma ReadOfSolid(lines: seq<seq<byte>>, pos: nat, count: nat)
    requires count > 0 && NoEmptyLine(lines)
    ensures var r := Read(lines, pos, count); var flat := Flatten(lines);
            && From(flat, pos) == r.data + (if r.data == [] then [] else From(flat, r.pos))
            && (r.data == [] ==> r.pos == 0)
            && (r.data != [] ==> pos < r.pos <= |flat|)
  {
    if pos > |Flatten(lines)| {
      ReadPastEnd(lines, pos, count);
    } else {
      ReadDelivers(lines, pos, count);
    }
    FromSplits(Flatten(lines), pos, Read(lines, pos, count).pos);
  }

  lemma ReadOfText(lines: seq<seq<byte>>, pos: nat, count: nat)
    requires count > 0
    ensures var r := Read(lines, pos, count);
            && TextFrom(lines, pos) == r.data + (if r.data == [] then [] else TextFrom(lines, r.pos))
            && (r.data == [] ==> r.pos == 0)
            && (r.data != [] ==> pos < r.pos <= |Flatten(Readable(lines))|)
  {
    ReadSeesReadable(lines, pos, count);
    ReadOfSolid(Readable(lines), pos, count);
  }

  /** Where the echo after a command begins: at the seek offset if there is one. */
  function EchoStart(cap: nat, st: CommandStore.Store, command: Command): nat
    requires 0 < cap && |st.lines| <= cap
  {
    match command
    case SeekTo(cmd, off) =>
      var p := SlotOffset(SlotSizes(cap, Oldest(st.adds, cap), Sizes(st.lines)), cmd, off);
      if p == -1 then 0 else p
    case _ => 0
  }

  /** Nothing is hidden from a reader if no line is empty. */
  lemma TextOfLines(lines: seq<seq<byte>>, pos: nat)
    requires NoEmptyLine(lines)
    ensures TextFrom(lines, pos) == From(Flatten(lines), pos)
  {
    ReadSeesReadable(lines, 0, 0);
  }

  lemma KeptLinesNotEmpty(cap: nat, stream: seq<byte>)
    ensures NoEmptyLine(LastN(cap, CompleteLines(stream)))
  {
    CompleteLinesAreLines(stream);
  }

  /** On a device that only got writes of at most one newline each, what is sent
      back is the last cap lines of all that was written, from the start offset;
      the oldest slot follows from the number of lines written. */
  lemma EchoIsTheLastLines(cap: nat, stream: seq<byte>, start: nat)
    ensures var st, lines := CommandStore.Absorb(cap, CommandStore.EMPTY_STORE, stream), CompleteLines(stream);
            TextFrom(st.lines, start) == From(Flatten(LastN(cap, lines)), start) && st.adds == |lines|
  {
    CommandStore.AbsorbFromEmpty(cap, stream);
    KeptLinesNotEmpty(cap, stream);
    TextOfLines(CommandStore.StoreOf(cap, stream).lines, start);
  }

  // ----- the reply to each command

  /** The text from byte off of line cmd on. */
  lemma {:induction false} TextFromLine(lines: seq<seq<byte>>, cmd: nat, off: nat)
    requires cmd < |lines| && off <= |lines[cmd]|
    ensures SumTo(Sizes(lines), cmd) + off <= |Flatten(lines)|
    ensures off < |lines[cmd]| ==> SumTo(Sizes(lines), cmd) + off < |Flatten(lines)|
    ensures From(Flatten(lines), SumTo(Sizes(lines), cmd) + off) == lines[cmd][off..] + Flatten(lines[cmd + 1..])
    decreases cmd
  {
    var first, more := lines[0], lines[1..];
    if cmd == 0 {
      DropInFirst(first, Flatten(more), off);
    } else {
      SumToFirst(Sizes(lines), cmd);
      assert Sizes(lines)[1..] == Sizes(more);
      TextFromLine(more, cmd - 1, off);
      assert more[cmd..] == lines[cmd + 1..];
      DropFirst(first, Flatten(more), SumTo(Sizes(more), cmd - 1) + off);
    }
  }

  lemma DropInFirst(a: seq<byte>, b: seq<byte>, n: nat)
    requires n <= |a|
    ensures (a + b)[n..] == a[n..] + b
  {
  }

  lemma DropFirst(a: seq<byte>, b: seq<byte>, n: nat)
    requires n <= |b|
    ensures (a + b)[|a| + n..] == b[n..]
  {
  }

  /** A seek that is answered as meant: the echo begins at that byte. */
  lemma SeekReply(cap: nat, st: CommandStore.Store, cmd: nat, off: nat)
    requires 0 < cap && |st.lines| <= cap && NoEmptyLine(st.lines) && cmd < |st.lines| && off < |st.lines[cmd]|
    requires var sizes := Sizes(st.lines);
             SlotOffset(SlotSizes(cap, Oldest(st.adds, cap), sizes), cmd, off) == CommandOffset(sizes, cmd, off)
    ensures TextFrom(st.lines, EchoStart(cap, st, SeekTo(cmd, off)))
         == st.lines[cmd][off..] + Flatten(st.lines[cmd + 1..])
  {
    TextOfLines(st.lines, SumTo(Sizes(st.lines), cmd) + off);
    TextFromLine(st.lines, cmd, off);
  }

  lemma FromStart(text: seq<byte>)
    ensures From(text, 0) == text
  {
    assert text[0..] == text;
  }

  /** A packet that is no seek, or a seek that the driver refuses: the echo is
      everything that can be read. */
  lemma WholeReply(cap: nat, st: CommandStore.Store, command: Command)
    requires 0 < cap && |st.lines| <= cap
    requires command.SeekTo? ==>
               command.off < U32
               && !Answered(SlotSizes(cap, Oldest(st.adds, cap), Sizes(st.lines)), command.cmd, command.off)
    ensures TextFrom(st.lines, EchoStart(cap, st, command)) == Flatten(Readable(st.lines))
  {
    FromStart(Flatten(Readable(st.lines)));
  }

  /** What a seek is meant to bring: the text from that byte on, or everything
      if there is no such byte. */
  function Meant(lines: seq<seq<byte>>, cmd: nat, off: nat): seq<byte> {
    if cmd < |lines| && off < |lines[cmd]| then lines[cmd][off..] + Flatten(lines[cmd + 1..]) else Flatten(lines)
  }

  /** The reply to any command while the oldest line is in slot 0: a seek to a
      stored byte is answered from there on, one to the first unused slot with
      nothing, and everything else with the whole text. */
  function Reply(cap: nat, lines: seq<seq<byte>>, command: Command): seq<byte> {
    if !command.SeekTo? then Flatten(lines)
    else if command.cmd == |lines| < cap then []
    else Meant(lines, command.cmd, command.off)
  }

  lemma UnturnedReply(cap: nat, st: CommandStore.Store, command: Command)
    requires 0 < cap && |st.lines| <= cap && NoEmptyLine(st.lines) && Oldest(st.adds, cap) == 0
    requires command.SeekTo? ==> command.off < U32
    ensures TextFrom(st.lines, EchoStart(cap, st, command)) == Reply(cap, st.lines, command)
  {
    var sizes := Sizes(st.lines);
    ReadSeesReadable(st.lines, 0, 0);
    if command.SeekTo? {
      var cmd, off := command.cmd, command.off;
      SolidAtLeast(sizes, 0, |sizes|);
      SeekIsRightIff(cap, 0, sizes, cmd, off);
      if cmd < |sizes| && off < sizes[cmd] {
        SeekReply(cap, st, cmd, off);
      } else if cmd == |sizes| < cap {
        EmptySlotAnswer(cap, sizes, off);
        FlattenSize(st.lines);
      } else {
        RefusedIff(SlotSizes(cap, 0, sizes), cmd, off);
        WholeReply(cap, st, command);
      }
    } else {
      WholeReply(cap, st, command);
    }
  }

  lemma TextNotEmpty(lines: seq<seq<byte>>)
    requires NoEmptyLine(lines) && lines != []
    ensures Flatten(lines) != []
  {
    SumToMonotone(Sizes(lines), 1, |lines|);
    FlattenSize(lines);
  }

  lemma MeantFrom(lines: seq<seq<byte>>, cmd: nat, off: nat) returns (start: nat)
    requires NoEmptyLine(lines) && lines != []
    ensures start == AtLeastZero(CommandOffset(Sizes(lines), cmd, off)) < |Flatten(lines)|
    ensures Meant(lines, cmd, off) == From(Flatten(lines), start)
  {
    start := 0;
    TextNotEmpty(lines);
    FromStart(Flatten(lines));
    if cmd < |lines| && off < |lines[cmd]| {
      start := SumTo(Sizes(lines), cmd) + off;
      TextFromLine(lines, cmd, off);
    }
  }

  function AtLeastZero(offset: int): nat {
    if offset < 0 then 0 else offset
  }

  lemma FromSame(text: seq<byte>, a: nat, b: nat)
    requires b < |text|
    ensures From(text, a) == From(text, b) <==> a == b
  {
    assert |From(text, b)| == |text| - b;
  }

  /** Only byte 0 of the first entry has offset 0. */
  lemma SeekOfFirst(sizes: seq<nat>, cmd: nat, off: nat)
    requires cmd <= |sizes| && forall i :: 0 <= i < cmd ==> sizes[i] > 0
    ensures SumTo(sizes, cmd) + off == 0 <==> cmd == 0 && off == 0
  {
    if cmd > 0 {
      SumToMonotone(sizes, 1, cmd);
    }
  }

  /** A refused seek and one to offset 0 are not confused. */
  lemma StartsDiffer(slots: seq<nat>, sizes: seq<nat>, cmd: nat, off: nat)
    requires AllPositive(sizes) && sizes != [] && slots != [] && off < U32
    ensures var p, q := SlotOffset(slots, cmd, off), CommandOffset(sizes, cmd, off);
            AtLeastZero(p) == AtLeastZero(q) <==> p == q
  {
    RefusedIff(slots, cmd, off);
    SolidMeans(slots, 0);
    if cmd < |slots| && cmd <= Solid(slots, 0) {
      SeekOfFirst(slots, cmd, off);
    }
    if cmd < |sizes| {
      SeekOfFirst(sizes, cmd, off);
    }
  }

  /** On a ring of non-empty lines the echo is the meant one exactly if the
      driver's offset is, or nothing is stored. */
  lemma ReplyFollowsOffset(cap: nat, st: CommandStore.Store, cmd: nat, off: nat)
    requires 0 < cap && |st.lines| <= cap && NoEmptyLine(st.lines) && off < U32
    ensures var sizes := Sizes(st.lines);
            var slots := SlotSizes(cap, Oldest(st.adds, cap), sizes);
            TextFrom(st.lines, EchoStart(cap, st, SeekTo(cmd, off))) == Meant(st.lines, cmd, off) <==>
              SlotOffset(slots, cmd, off) == CommandOffset(sizes, cmd, off) || st.lines == []
  {
    var lines, start := st.lines, EchoStart(cap, st, SeekTo(cmd, off));
    TextOfLines(lines, start);
    if lines != [] {
      var meant := MeantFrom(lines, cmd, off);
      StartsDiffer(SlotSizes(cap, Oldest(st.adds, cap), Sizes(lines)), Sizes(lines), cmd, off);
      FromSame(Flatten(lines), start, meant);
    }
  }

  /** So far as the slots go, a seek is answered as meant if it names no slot, a
      byte past both the line and the slot, or a byte inside both with as much
      stored before it in the slots as in the lines. Before the ring is full it
      is, unless it names the first unused slot. */
  ghost predicate SeekAgrees(cap: nat, slots: seq<nat>, sizes: seq<nat>, cmd: nat, off: nat)
    requires |slots| == cap && |sizes| <= cap
  {
    if |sizes| < cap then cmd != |sizes| || sizes == []
    else
      || cmd >= cap
      || (off >= sizes[cmd] && off >= slots[cmd])
      || (off < sizes[cmd] && off < slots[cmd] && SumTo(slots, cmd) == SumTo(sizes, cmd))
  }

  /** Exactly then the echo is the meant text. */
  lemma ReplyIsMeantIff(cap: nat, st: CommandStore.Store, cmd: nat, off: nat)
    requires 0 < cap && |st.lines| <= cap && NoEmptyLine(st.lines) && off < U32
    requires |st.lines| < cap ==> Oldest(st.adds, cap) == 0
    ensures var sizes := Sizes(st.lines);
            var slots := SlotSizes(cap, Oldest(st.adds, cap), sizes);
            TextFrom(st.lines, EchoStart(cap, st, SeekTo(cmd, off))) == Meant(st.lines, cmd, off) <==>
              SeekAgrees(cap, slots, sizes, cmd, off)
  {
    var sizes := Sizes(st.lines);
    ReplyFollowsOffset(cap, st, cmd, off);
    SolidAtLeast(sizes, 0, |sizes|);
    SeekIsRightIff(cap, Oldest(st.adds, cap), sizes, cmd, off);
  }
}
