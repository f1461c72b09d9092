// How a worker cuts the bytes of its connection into packets: at most one per
// receive, from startPtr up to the first newline received so far. Where
// startPtr goes next decides what the later packets are.

module Packets {
  import opened Streams

  /** `Assigned` is the worker's update, which forgets where the packet began;
      `Added` moves on past the packet. */
  datatype Advance = Assigned | Added

  ghost predicate InOrder(a: nat, b: nat) {
    a <= b
  }

  /** How many bytes had arrived after each receive. */
  ghost predicate Boundaries(text: seq<byte>, ends: seq<nat>) {
    && (forall i :: 0 <= i < |ends| ==> ends[i] <= |text|)
    && (forall i, j {:trigger InOrder(ends[i], ends[j])} :: 0 <= i < j < |ends| ==> InOrder(ends[i], ends[j]))
  }

  /** The packets cut so far, and where the next one starts. */
  datatype Cut = Cut(packets: seq<seq<byte>>, start: nat)

  /** After one more receive, with `end` bytes in the buffer. */
  function CutMore(adv: Advance, text: seq<byte>, cut: Cut, end: nat): (r: Cut)
    requires cut.start <= end <= |text|
    ensures r.start <= end
  {
    var d := FirstNewline(text[cut.start..end]);
    if d == -1 then cut
    else
      var packet := text[cut.start..end][..d + 1];
      Cut(cut.packets + [packet], if adv == Added then cut.start + |packet| else |packet|)
  }

  /** After the first n receives. */
  ghost function Cuts(adv: Advance, text: seq<byte>, ends: seq<nat>, n: nat): (r: Cut)
    requires Boundaries(text, ends) && n <= |ends|
    ensures r.start <= if n == 0 then 0 else ends[n - 1]
    ensures n < |ends| ==> r.start <= ends[n]
  {
    if n == 0 then Cut([], 0)
    else
      assert n < |ends| ==> InOrder(ends[n - 1], ends[n]);
      CutMore(adv, text, Cuts(adv, text, ends, n - 1), ends[n - 1])
  }

  ghost function HandedOn(adv: Advance, text: seq<byte>, ends: seq<nat>): seq<seq<byte>>
    requires Boundaries(text, ends)
  {
    Cuts(adv, text, ends, |ends|).packets
  }

  lemma {:induction false} CutsOfPrefix(adv: Advance, text: seq<byte>, ends: seq<nat>, more: seq<nat>, n: nat)
    requires Boundaries(text, ends) && Boundaries(text, more)
    requires n <= |ends| && n <= |more| && forall i :: 0 <= i < n ==> ends[i] == more[i]
    ensures Cuts(adv, text, ends, n) == Cuts(adv, text, more, n)
  {
    if n > 0 {
      CutsOfPrefix(adv, text, ends, more, n - 1);
    }
  }

  /** A packet cut from what has arrived is the line at its start, whatever
      arrives later: one newline, as its last byte. */
  lemma CutIsLine(text: seq<byte>, start: nat, end: nat) returns (line: seq<byte>, rest: seq<byte>)
    requires start <= end <= |text| && FirstNewline(text[start..end]) != -1
    ensures line == text[start..end][..FirstNewline(text[start..end]) + 1]
    ensures IsLine(line) && text[start..] == line + rest && rest == text[start + |line|..]
  {
    var arrived, later := text[start..end], text[end..];
    var left;
    line, left := NextLine(arrived);
    rest := text[start + |line|..];
    assert text[start..] == arrived + later;
    assert rest == left + later;
    ConcatAssociates(line, left, later);
  }

  /** Either a line is cut or nothing. */
  lemma CutTakes(adv: Advance, text: seq<byte>, c: Cut, end: nat)
    returns (next: Cut, found: bool, line: seq<byte>, rest: seq<byte>)
    requires c.start <= end <= |text|
    ensures next == CutMore(adv, text, c, end) && (found <==> FirstNewline(text[c.start..end]) != -1)
    ensures found ==> |line| <= end - c.start
    ensures found ==> IsLine(line) && text[c.start..] == line + rest && rest == text[c.start + |line|..]
    ensures next == if found then Cut(c.packets + [line], if adv == Added then c.start + |line| else |line|) else c
  {
    next, found, line, rest := CutMore(adv, text, c, end), false, [], [];
    if FirstNewline(text[c.start..end]) != -1 {
      found := true;
      line, rest := CutIsLine(text, c.start, end);
    }
  }

  lemma {:induction false} EveryPacketIsALine(adv: Advance, text: seq<byte>, ends: seq<nat>, n: nat)
    requires Boundaries(text, ends) && n <= |ends|
    ensures forall k :: 0 <= k < |Cuts(adv, text, ends, n).packets| ==> IsLine(Cuts(adv, text, ends, n).packets[k])
  {
    if n > 0 {
      EveryPacketIsALine(adv, text, ends, n - 1);
      var before := Cuts(adv, text, ends, n - 1);
      if FirstNewline(text[before.start..ends[n - 1]]) != -1 {
        var line, _ := CutIsLine(text, before.start, ends[n - 1]);
      }
    }
  }

  /** The packets handed on and the lines still to come are the lines of the stream. */
  ghost predicate InStep(text: seq<byte>, c: Cut) {
    c.start <= |text| && c.packets + CompleteLines(text[c.start..]) == CompleteLines(text)
  }

  lemma LineKeepsStep(packets: seq<seq<byte>>, all: seq<seq<byte>>, line: seq<byte>, rest: seq<byte>)
    requires packets + CompleteLines(line + rest) == all && IsLine(line)
    ensures packets + [line] + CompleteLines(rest) == all
  {
    LineFirst(line, rest);
    ConcatAssociates(packets, [line], CompleteLines(rest));
  }

  lemma CutKeepsStep(text: seq<byte>, c: Cut, end: nat)
    requires InStep(text, c) && c.start <= end <= |text|
    ensures InStep(text, CutMore(Added, text, c, end))
  {
    var next, found, line, rest := CutTakes(Added, text, c, end);
    if found {
      LineKeepsStep(c.packets, CompleteLines(text), line, rest);
    }
  }

  /** Advancing by addition, the packets are the lines of the stream, in order,
      however it was split into receives. */
  lemma {:induction false} AddedPacketsAreTheLines(text: seq<byte>, ends: seq<nat>, n: nat)
    requires Boundaries(text, ends) && n <= |ends|
    ensures InStep(text, Cuts(Added, text, ends, n))
    ensures Cuts(Added, text, ends, n).packets <= CompleteLines(text)
  {
    if n == 0 {
      assert text[0..] == text;
    } else {
      AddedPacketsAreTheLines(text, ends, n - 1);
      CutKeepsStep(text, Cuts(Added, text, ends, n - 1), ends[n - 1]);
    }
  }

  /** Packet k, as written, of a stream that begins with two lines: these two,
      and then pieces of the longer one, by turns. */
  function Later(first: seq<byte>, second: seq<byte>, k: nat): (packet: seq<byte>)
    requires k >= 2
  {
    var n, m := |first|, |second|;
    if m < n then if k % 2 == 0 then first[m..] else first[n - m..]
    else if k % 2 == 0 then second[m - n..] else second
  }

  function Nth(first: seq<byte>, second: seq<byte>, k: nat): seq<byte> {
    if k == 0 then first else if k == 1 then second else Later(first, second, k)
  }

  /** A line that begins inside a line is the rest of that line. */
  lemma LineInsideLine(before: seq<byte>, line: seq<byte>, after: seq<byte>, start: nat, part: seq<byte>,
                       rest: seq<byte>)
    requires IsLine(line) && |before| <= start < |before| + |line|
    requires IsLine(part) && (before + line + after)[start..] == part + rest
    ensures part == line[start - |before|..]
  {
    var left := line[start - |before|..];
    FirstNewlineIs(line, |line| - 1);
    FirstNewlineIs(left, |left| - 1);
    assert (before + line + after)[start..] == left + after;
    LineAhead(left, after);
    LineAhead(part, rest);
    assert part == (part + rest)[..|part|] == left;
  }

  /** Where the packet after packet k - 1 starts, and what is there. */
  lemma NthFollows(first: seq<byte>, second: seq<byte>, k: nat)
    requires first != [] && second != []
    ensures var start := if k == 0 then 0 else |Nth(first, second, k - 1)|;
            && start < |first| + |second|
            && Nth(first, second, k) == if start < |first| then first[start..] else second[start - |first|..]
  {
  }

  /** The first n packets. */
  function Firsts(first: seq<byte>, second: seq<byte>, n: nat): seq<seq<byte>> {
    if n == 0 then [] else Firsts(first, second, n - 1) + [Nth(first, second, n - 1)]
  }

  lemma {:induction false} FirstsAt(first: seq<byte>, second: seq<byte>, n: nat, k: nat)
    requires k < n
    ensures |Firsts(first, second, n)| == n && Firsts(first, second, n)[k] == Nth(first, second, k)
  {
    if n > 1 {
      FirstsAt(first, second, n - 1, if k < n - 1 then k else 0);
    }
  }

  /** The packets cut so far from a stream that begins with two lines. */
  ghost predicate InFirstTwo(c: Cut, first: seq<byte>, second: seq<byte>) {
    && c.packets == Firsts(first, second, |c.packets|)
    && c.start == (if c.packets == [] then 0 else |Nth(first, second, |c.packets| - 1)|)
  }

  lemma LineInFirstTwo(text: seq<byte>, first: seq<byte>, second: seq<byte>, after: seq<byte>, start: nat,
                       line: seq<byte>, rest: seq<byte>)
    requires text == first + second + after && IsLine(first) && IsLine(second) && start < |first| + |second|
    requires IsLine(line) && text[start..] == line + rest
    ensures line == if start < |first| then first[start..] else second[start - |first|..]
  {
    if start < |first| {
      assert [] + first + (second + after) == text;
      LineInsideLine([], first, second + after, start, line, rest);
    } else {
      LineInsideLine(first, second, after, start, line, rest);
    }
  }

  lemma NextPacket(text: seq<byte>, first: seq<byte>, second: seq<byte>, after: seq<byte>, k: nat, start: nat,
                   line: seq<byte>, rest: seq<byte>)
    requires text == first + second + after && IsLine(first) && IsLine(second)
    requires start == (if k == 0 then 0 else |Nth(first, second, k - 1)|) <= |text|
    requires IsLine(line) && text[start..] == line + rest
    ensures line == Nth(first, second, k)
  {
    NthFollows(first, second, k);
    LineInFirstTwo(text, first, second, after, start, line, rest);
  }

  lemma PacketInFirstTwo(c: Cut, first: seq<byte>, second: seq<byte>, line: seq<byte>)
    requires InFirstTwo(c, first, second) && line == Nth(first, second, |c.packets|)
    ensures InFirstTwo(Cut(c.packets + [line], |line|), first, second)
  {
    assert |c.packets + [line]| == |c.packets| + 1;
  }

  lemma CutInFirstTwo(text: seq<byte>, c: Cut, end: nat, first: seq<byte>, second: seq<byte>, after: seq<byte>)
    returns (next: Cut)
    requires InFirstTwo(c, first, second) && c.start <= end <= |text|
    requires text == first + second + after && IsLine(first) && IsLine(second)
    ensures next == CutMore(Assigned, text, c, end) && InFirstTwo(next, first, second)
  {
    var found, line, rest;
    next, found, line, rest := CutTakes(Assigned, text, c, end);
    if found {
      NextPacket(text, first, second, after, |c.packets|, c.start, line, rest);
      PacketInFirstTwo(c, first, second, line);
    }
  }

  lemma {:induction false} StaysInFirstTwo(text: seq<byte>, ends: seq<nat>, n: nat, first: seq<byte>,
                                           second: seq<byte>, after: seq<byte>)
    requires Boundaries(text, ends) && n <= |ends|
    requires text == first + second + after && IsLine(first) && IsLine(second)
    ensures InFirstTwo(Cuts(Assigned, text, ends, n), first, second)
  {
    if n > 0 {
      StaysInFirstTwo(text, ends, n - 1, first, second, after);
      var next := CutInFirstTwo(text, Cuts(Assigned, text, ends, n - 1), ends[n - 1], first, second, after);
    }
  }

  lemma NothingToCut(adv: Advance, text: seq<byte>, c: Cut, end: nat)
    requires c.start <= end <= |text| && FirstNewline(text[c.start..]) == -1
    ensures CutMore(adv, text, c, end) == c
  {
    FirstNewlineIs(text[c.start..], -1);
    FirstNewlineIs(text[c.start..end], -1);
  }

  /** A stream with a single line: nothing but that line is handed on. */
  lemma {:induction false} StaysInOnlyLine(text: seq<byte>, ends: seq<nat>, n: nat, line: seq<byte>, after: seq<byte>)
    requires Boundaries(text, ends) && n <= |ends|
    requires text == line + after && IsLine(line) && FirstNewline(after) == -1
    ensures Cuts(Assigned, text, ends, n) in {Cut([], 0), Cut([line], |line|)}
  {
    if n > 0 {
      StaysInOnlyLine(text, ends, n - 1, line, after);
      var c := Cuts(Assigned, text, ends, n - 1);
      if c == Cut([line], |line|) {
        assert text[|line|..] == after;
        NothingToCut(Assigned, text, c, ends[n - 1]);
      } else if FirstNewline(text[0..ends[n - 1]]) != -1 {
        var next, rest := CutIsLine(text, 0, ends[n - 1]);
        assert text[0..] == text;
        LineAhead(next, rest);
        LineAhead(line, after);
        assert next == (next + rest)[..|next|] == line && c.packets + [next] == [line];
      }
    }
  }

  lemma {:induction false} NoLineNoPacket(adv: Advance, text: seq<byte>, ends: seq<nat>, n: nat)
    requires Boundaries(text, ends) && n <= |ends| && FirstNewline(text) == -1
    ensures Cuts(adv, text, ends, n) == Cut([], 0)
  {
    if n > 0 {
      NoLineNoPacket(adv, text, ends, n - 1);
      assert text[0..] == text;
      NothingToCut(adv, text, Cut([], 0), ends[n - 1]);
    }
  }

  /** The packets are the first lines, at most two, and then what Later says. */
  ghost predicate OnlyFirstTwo(packets: seq<seq<byte>>, lines: seq<seq<byte>>) {
    && (|packets| > 0 ==> |lines| > 0 && packets[0] == lines[0])
    && (|packets| > 1 ==> |lines| > 1 && packets[1] == lines[1])
    && forall k :: 2 <= k < |packets| ==> packets[k] == Later(lines[0], lines[1], k)
  }

  lemma FirstTwoLines(c: Cut, first: seq<byte>, second: seq<byte>, after: seq<byte>)
    requires InFirstTwo(c, first, second) && IsLine(first) && IsLine(second)
    ensures OnlyFirstTwo(c.packets, CompleteLines(first + (second + after)))
  {
    LineFirst(first, second + after);
    LineFirst(second, after);
    forall k | 0 <= k < |c.packets|
      ensures c.packets[k] == Nth(first, second, k)
    {
      FirstsAt(first, second, |c.packets|, k);
    }
  }

  lemma FirstLineOnly(packets: seq<seq<byte>>, line: seq<byte>, after: seq<byte>)
    requires IsLine(line) && packets in {[], [line]}
    ensures OnlyFirstTwo(packets, CompleteLines(line + after))
  {
    LineFirst(line, after);
  }

  // ----- how many packets are handed on

  /** Whether a receive hands on a packet, after k packets and with so many
      newlines arrived. As written, it always does once two packets are out. */
  predicate HandsOn(adv: Advance, k: nat, newlines: nat) {
    newlines > k || (adv == Assigned && k >= 2)
  }

  /** Newlines that have arrived after n receives. */
  ghost function Arrived(text: seq<byte>, ends: seq<nat>, n: nat): nat
    requires Boundaries(text, ends) && n <= |ends|
  {
    if n == 0 then 0 else Newlines(text[..ends[n - 1]])
  }

  /** How many packets n receives hand on. */
  ghost function Served(adv: Advance, text: seq<byte>, ends: seq<nat>, n: nat): nat
    requires Boundaries(text, ends) && n <= |ends|
  {
    if n == 0 then 0
    else
      var k := Served(adv, text, ends, n - 1);
      if HandsOn(adv, k, Arrived(text, ends, n)) then k + 1 else k
  }

  /** How the start of the next packet goes along with the packets so far. */
  ghost predicate InPace(adv: Advance, text: seq<byte>, c: Cut, end: nat) {
    var k := |c.packets|;
    && c.start <= end <= |text| && (k == 0 ==> c.start == 0)
    && if adv == Added || k < 2 then Newlines(text[..c.start]) == k
       else 0 < c.start && Newlines(text[..c.start]) <= 1 && Newlines(text[..end]) >= 2
  }

  lemma StaysInPace(adv: Advance, text: seq<byte>, c: Cut, end: nat, later: nat)
    requires InPace(adv, text, c, end) && end <= later <= |text|
    ensures InPace(adv, text, c, later)
  {
    NewlinesUpTo(text, end, later);
  }

  /** One more newline up to the end of the packet, and as written not more than
      one up to where the next one starts. */
  lemma NewlinesAtPacket(text: seq<byte>, start: nat, line: seq<byte>)
    requires start + |line| <= |text| && line == text[start..start + |line|] && IsLine(line)
    ensures Newlines(text[..start + |line|]) == Newlines(text[..start]) + 1
    ensures start == 0 ==> Newlines(text[..|line|]) == 1
    ensures start > 0 ==> Newlines(text[..|line|]) <= Newlines(text[..start])
  {
    LineHasOneNewline(line);
    NewlinesUpTo(text, start, start + |line|);
    if start == 0 {
      assert text[..|line|] == line;
    } else {
      assert text[start + |line| - 1] == line[|line| - 1];
      NewlinesUpTo(text, |line|, start + |line|);
    }
  }

  lemma PacketKeepsPace(adv: Advance, text: seq<byte>, c: Cut, end: nat, line: seq<byte>)
    requires InPace(adv, text, c, end)
    requires |line| <= end - c.start && line == text[c.start..c.start + |line|] && IsLine(line)
    ensures InPace(adv, text, Cut(c.packets + [line], if adv == Added then c.start + |line| else |line|), end)
  {
    NewlinesAtPacket(text, c.start, line);
    NewlinesUpTo(text, c.start + |line|, end);
    if |c.packets| == 1 {
      assert text[..0] == [];
    }
  }

  /** A newline ahead is due exactly when the count of newlines says so. */
  lemma NewlineAhead(adv: Advance, text: seq<byte>, c: Cut, end: nat)
    requires InPace(adv, text, c, end)
    ensures FirstNewline(text[c.start..end]) != -1 <==> HandsOn(adv, |c.packets|, Newlines(text[..end]))
  {
    NewlinesUpTo(text, c.start, end);
    NoNewlineMeans(text[c.start..end]);
  }

  lemma CutKeepsPace(adv: Advance, text: seq<byte>, c: Cut, end: nat) returns (next: Cut)
    requires InPace(adv, text, c, end)
    ensures next == CutMore(adv, text, c, end) && InPace(adv, text, next, end)
    ensures |next.packets| == |c.packets| + if HandsOn(adv, |c.packets|, Newlines(text[..end])) then 1 else 0
  {
    var found, line, rest;
    next, found, line, rest := CutTakes(adv, text, c, end);
    NewlineAhead(adv, text, c, end);
    if found {
      assert line == text[c.start..][..|line|] == text[c.start..c.start + |line|];
      PacketKeepsPace(adv, text, c, end, line);
    }
  }

  /** For every stream and every way it arrives, the newlines that arrive tell
      how many packets are handed on. */
  lemma {:induction false} ServesSoMany(adv: Advance, text: seq<byte>, ends: seq<nat>, n: nat)
    requires Boundaries(text, ends) && n <= |ends|
    ensures |Cuts(adv, text, ends, n).packets| == Served(adv, text, ends, n)
    ensures InPace(adv, text, Cuts(adv, text, ends, n), if n == 0 then 0 else ends[n - 1])
  {
    if n > 0 {
      ServesSoMany(adv, text, ends, n - 1);
      assert n > 1 ==> InOrder(ends[n - 2], ends[n - 1]);
      StaysInPace(adv, text, Cuts(adv, text, ends, n - 1), if n == 1 then 0 else ends[n - 2], ends[n - 1]);
      var next := CutKeepsPace(adv, text, Cuts(adv, text, ends, n - 1), ends[n - 1]);
    }
  }

  lemma ArrivedMore(text: seq<byte>, ends: seq<nat>, n: nat)
    requires Boundaries(text, ends) && 0 < n <= |ends|
    ensures Arrived(text, ends, n - 1) <= Arrived(text, ends, n) <= Newlines(text)
  {
    assert n > 1 ==> InOrder(ends[n - 2], ends[n - 1]);
    NewlinesUpTo(text, if n == 1 then 0 else ends[n - 2], ends[n - 1]);
    NewlinesUpTo(text, ends[n - 1], |text|);
    assert text[..|text|] == text;
  }

  /** By addition, t packets are handed on exactly if after each receive enough
      newlines have arrived to make do with one packet for each later one. */
  lemma {:induction false} AddedServesIff(text: seq<byte>, ends: seq<nat>, n: nat, t: int)
    requires Boundaries(text, ends) && n <= |ends|
    ensures Served(Added, text, ends, n) <= Arrived(text, ends, n)
    ensures Served(Added, text, ends, n) >= t <==> forall i :: 0 <= i <= n ==> Arrived(text, ends, i) >= t - (n - i)
  {
    if n == 0 {
      assert Served(Added, text, ends, 0) >= t <==> Arrived(text, ends, 0) >= t - (0 - 0);
    } else {
      ArrivedMore(text, ends, n);
      AddedServesIff(text, ends, n - 1, t - 1);
      var k := Served(Added, text, ends, n - 1);
      assert Served(Added, text, ends, n) >= t <==> k >= t - 1 && Arrived(text, ends, n) >= t;
    }
  }

  // ----- when the packets are the lines

  /** As written, for every stream and every way it arrives: the first two
      packets are the first two lines, and every later one is, by turns, one of
      two pieces of the longer of them. No third line is ever looked at. */
  lemma OnlyTwoLinesAreHandedOn(text: seq<byte>, ends: seq<nat>)
    requires Boundaries(text, ends)
    ensures OnlyFirstTwo(HandedOn(Assigned, text, ends), CompleteLines(text))
    ensures |HandedOn(Assigned, text, ends)| == Served(Assigned, text, ends, |ends|)
  {
    ServesSoMany(Assigned, text, ends, |ends|);
    if FirstNewline(text) == -1 {
      NoLineNoPacket(Assigned, text, ends, |ends|);
    } else {
      var first, rest := NextLine(text);
      if FirstNewline(rest) == -1 {
        StaysInOnlyLine(text, ends, |ends|, first, rest);
        FirstLineOnly(HandedOn(Assigned, text, ends), first, rest);
      } else {
        var second, after := NextLine(rest);
        ConcatAssociates(first, second, after);
        StaysInFirstTwo(text, ends, |ends|, first, second, after);
        FirstTwoLines(Cuts(Assigned, text, ends, |ends|), first, second, after);
      }
    }
  }

  /** Line k is there and reads like the packet served in its place. */
  ghost predicate Alike(lines: seq<seq<byte>>, k: nat)
    requires k >= 2
  {
    k < |lines| && lines[k] == Later(lines[0], lines[1], k)
  }

  /** As written, each packet that is handed on is the line it should be exactly
      if it is one of the first two, or there is such a line and it happens to
      read like a piece of those. */
  lemma PacketIsLineIff(text: seq<byte>, ends: seq<nat>, k: nat)
    requires Boundaries(text, ends) && k < Served(Assigned, text, ends, |ends|)
    ensures var packets, lines := HandedOn(Assigned, text, ends), CompleteLines(text);
            && k < |packets|
            && (k < |lines| && packets[k] == lines[k] <==> k < 2 || Alike(lines, k))
  {
    OnlyTwoLinesAreHandedOn(text, ends);
  }

  /** As written, for every stream and every way it arrives: what is handed on
      are lines of the stream, in order, exactly if no more packets than lines
      are due and every line from the third on reads like what is served. */
  lemma PacketsAreLinesIff(text: seq<byte>, ends: seq<nat>)
    requires Boundaries(text, ends)
    ensures var lines, m := CompleteLines(text), Served(Assigned, text, ends, |ends|);
            && (HandedOn(Assigned, text, ends) <= lines <==> m <= |lines| && forall k :: 2 <= k < m ==> Alike(lines, k))
            && (HandedOn(Assigned, text, ends) == lines <==> m == |lines| && forall k :: 2 <= k < m ==> Alike(lines, k))
  {
    OnlyTwoLinesAreHandedOn(text, ends);
    var packets, lines := HandedOn(Assigned, text, ends), CompleteLines(text);
    if |packets| <= |lines| {
      forall k | 2 <= k < |packets|
        ensures packets[k] == lines[k] <==> Alike(lines, k)
      {
        PacketIsLineIff(text, ends, k);
      }
      assert packets <= lines <==> forall k :: 0 <= k < |packets| ==> packets[k] == lines[k];
    }
  }

  /** By addition, all lines are handed on exactly if no number of last receives
      completes more lines than it has receives: each hands on but one packet. */
  lemma AddedServesAllIff(text: seq<byte>, ends: seq<nat>)
    requires Boundaries(text, ends)
    ensures HandedOn(Added, text, ends) == CompleteLines(text) <==>
            forall i :: 0 <= i <= |ends| ==> Arrived(text, ends, i) >= Newlines(text) - (|ends| - i)
  {
    ServesSoMany(Added, text, ends, |ends|);
    AddedPacketsAreTheLines(text, ends, |ends|);
    CompleteLinesAreLines(text);
    AddedServesIff(text, ends, |ends|, Newlines(text));
  }

  // ----- inputs that are served wrong

  /** Two lines, each in a receive, and then anything at all: one of the two, or
      a piece of it, is served again. */
  lemma AfterTwoLines(a: seq<byte>, b: seq<byte>, more: seq<byte>, text: seq<byte>, ends: seq<nat>)
    requires IsLine(a) && IsLine(b) && text == a + (b + more) && ends == [|a|, |a| + |b|, |text|]
    ensures Boundaries(text, ends) && CompleteLines(text) == [a, b] + CompleteLines(more)
    ensures HandedOn(Assigned, text, ends) == [a, b, Later(a, b, 2)]
  {
    TwoLinesFirst(a, b, more);
    TwoLinesArrive(a, b, more, text, ends);
    OnlyTwoLinesAreHandedOn(text, ends);
    ThreePackets(HandedOn(Assigned, text, ends), a, b, CompleteLines(more));
  }

  lemma TwoLinesArrive(a: seq<byte>, b: seq<byte>, more: seq<byte>, text: seq<byte>, ends: seq<nat>)
    requires IsLine(a) && IsLine(b) && text == a + (b + more) && ends == [|a|, |a| + |b|, |text|]
    ensures Boundaries(text, ends) && Served(Assigned, text, ends, 3) == 3
  {
    LineHasOneNewline(a);
    LineHasOneNewline(b);
    NewlinesConcat(a, b);
    assert text[..ends[0]] == a && text[..ends[1]] == a + b;
    assert Served(Assigned, text, ends, 1) == 1;
    assert Served(Assigned, text, ends, 2) == 2;
  }

  lemma ThreePackets(packets: seq<seq<byte>>, a: seq<byte>, b: seq<byte>, lines: seq<seq<byte>>)
    requires OnlyFirstTwo(packets, [a, b] + lines) && |packets| == 3
    ensures packets == [a, b, Later(a, b, 2)]
  {
    assert packets[2] == Later(([a, b] + lines)[0], ([a, b] + lines)[1], 2);
  }

  /** For instance, the second line again, and the third never. */
  lemma ThirdLineIsLost()
    ensures var text, ends := [97, 10, 98, 10, 99, 10], [2, 4, 6];
            && Boundaries(text, ends)
            && CompleteLines(text) == [[97, 10], [98, 10], [99, 10]]
            && HandedOn(Assigned, text, ends) == [[97, 10], [98, 10], [98, 10]]
  {
    var text: seq<byte>, ends: seq<nat> := [97, 10, 98, 10, 99, 10], [2, 4, 6];
    var a: seq<byte>, b: seq<byte>, c: seq<byte> := [97, 10], [98, 10], [99, 10];
    assert text == a + (b + c);
    LinesOfThree(a, b, c);
    AfterTwoLines(a, b, c, text, ends);
    assert Later(a, b, 2) == b[0..] == b;
  }

  /** Or the second line again, for the beginning of a third. */
  lemma FragmentIsServed()
    ensures var text, ends := [97, 10, 98, 10, 99], [2, 4, 5];
            && Boundaries(text, ends)
            && CompleteLines(text) == [[97, 10], [98, 10]]
            && HandedOn(Assigned, text, ends) == [[97, 10], [98, 10], [98, 10]]
  {
    var text: seq<byte>, ends: seq<nat> := [97, 10, 98, 10, 99], [2, 4, 5];
    var a: seq<byte>, b: seq<byte>, c: seq<byte> := [97, 10], [98, 10], [99];
    assert text == a + (b + c);
    FirstNewlineIs(c, -1);
    assert CompleteLines(c) == [];
    AfterTwoLines(a, b, c, text, ends);
    assert Later(a, b, 2) == b[0..] == b;
  }

  /** Two lines in one receive: even by addition only one is handed on. */
  lemma OnePacketPerReceive()
    ensures var text, ends := [97, 10, 98, 10], [4];
            && Boundaries(text, ends) && |CompleteLines(text)| == 2 && |HandedOn(Added, text, ends)| == 1
  {
    var text: seq<byte>, ends: seq<nat> := [97, 10, 98, 10], [4];
    CompleteLinesAreLines(text);
    assert text[..4] == text;
    ServesSoMany(Added, text, ends, 1);
    assert Served(Added, text, ends, 0) == 0;
  }

  /** Where packet k is cut, as written, and where line k begins: the same
      place exactly for the first two packets. */
  lemma CutInPlaceIff(text: seq<byte>, ends: seq<nat>, k: nat)
    requires Boundaries(text, ends) && k < Served(Assigned, text, ends, |ends|) && k <= |CompleteLines(text)|
    ensures var p := HandedOn(Assigned, text, ends);
            && k < |p|
            && ((if k == 0 then 0 else |p[k - 1]|) == SumTo(Sizes(CompleteLines(text)), k) <==> k < 2)
  {
    OnlyTwoLinesAreHandedOn(text, ends);
    LinesStart(CompleteLines(text), k);
    CompleteLinesAreLines(text);
  }

  lemma LinesStart(lines: seq<seq<byte>>, k: nat)
    requires k <= |lines|
    ensures k == 0 ==> SumTo(Sizes(lines), k) == 0
    ensures k == 1 ==> SumTo(Sizes(lines), k) == |lines[0]|
    ensures k >= 2 ==> SumTo(Sizes(lines), k) >= |lines[0]| + |lines[1]|
  {
    var sizes := Sizes(lines);
    if k >= 2 {
      assert SumTo(sizes, 2) == SumTo(sizes, 1) + |lines[1]|;
      SumToMonotone(sizes, 2, k);
    }
  }
}
