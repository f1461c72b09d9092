// Flat offsets into the stored lines: the search that read uses, the offset
// that seek computes, and what a run of reads delivers.

module Offsets {
  import opened Streams
  import opened Turns
  import CommandStore

  // ----- the search (read side)

  /** Walk the entries from entry k on: which one, and where in it, is the
      byte off past the start of entry k? An empty entry ends the walk. */
  function LocateFrom(sizes: seq<nat>, k: nat, off: nat): (r: Option<(nat, nat)>)
    requires k <= |sizes|
    ensures r.Some? ==> r.value.0 < |sizes| && r.value.1 < sizes[r.value.0]
    decreases |sizes| - k
  {
    if k == |sizes| || sizes[k] == 0 then None
    else if off < sizes[k] then Some((k, off))
    else LocateFrom(sizes, k + 1, off - sizes[k])
  }

  function Locate(sizes: seq<nat>, off: nat): Option<(nat, nat)> {
    LocateFrom(sizes, 0, off)
  }

  /** The number of entries before the first empty one. */
  function Solid(sizes: seq<nat>, k: nat): (r: nat)
    requires k <= |sizes|
    ensures k <= r <= |sizes|
    decreases |sizes| - k
  {
    if k == |sizes| || sizes[k] == 0 then k else Solid(sizes, k + 1)
  }

  ghost predicate AllPositive(sizes: seq<nat>) {
    forall i :: 0 <= i < |sizes| ==> sizes[i] > 0
  }

  lemma {:induction false} SolidMeans(sizes: seq<nat>, k: nat)
    requires k <= |sizes|
    ensures forall i :: k <= i < Solid(sizes, k) ==> sizes[i] > 0
    ensures Solid(sizes, k) < |sizes| ==> sizes[Solid(sizes, k)] == 0
    decreases |sizes| - k
  {
    if k < |sizes| && sizes[k] > 0 {
      SolidMeans(sizes, k + 1);
    }
  }

  lemma {:induction false} SolidAtLeast(sizes: seq<nat>, k: nat, n: nat)
    requires k <= n <= |sizes| && (forall i :: k <= i < n ==> sizes[i] > 0)
    ensures Solid(sizes, k) >= n
    decreases |sizes| - k
  {
    if k < n {
      SolidAtLeast(sizes, k + 1, n);
    }
  }

  lemma {:induction false} SolidAtMost(sizes: seq<nat>, k: nat, n: nat)
    requires k <= n < |sizes| && sizes[n] == 0
    ensures Solid(sizes, k) <= n
    decreases |sizes| - k
  {
    if k < n {
      SolidAtMost(sizes, k + 1, n);
    }
  }

  ghost predicate Sits(sizes: seq<nat>, off: nat, k: nat, inner: nat) {
    k < |sizes| && inner < sizes[k] && SumTo(sizes, k) + inner == off
  }

  lemma {:induction false} LocateFromMeans(sizes: seq<nat>, n: nat, off: nat, k: nat, inner: nat)
    requires n <= |sizes|
    ensures var total := SumTo(sizes, n);
            && (LocateFrom(sizes, n, off) == Some((k, inner)) <==>
                 n <= k < Solid(sizes, n) && Sits(sizes, total + off, k, inner))
            && (LocateFrom(sizes, n, off) == None <==> total + off >= SumTo(sizes, Solid(sizes, n)))
    decreases |sizes| - n
  {
    if n < |sizes| && sizes[n] > 0 {
      if off >= sizes[n] {
        LocateFromMeans(sizes, n + 1, off - sizes[n], k, inner);
      } else {
        SumToMonotone(sizes, n + 1, Solid(sizes, n));
        if n < k <= |sizes| {
          SumToMonotone(sizes, n + 1, k);
        }
      }
    }
  }

  /** The search returns exactly the entry and inner offset whose prefix sum
      adds up to off; it finds nothing exactly when off is at or past the end
      of the entries before the first empty one. */
  lemma LocateMeans(sizes: seq<nat>, off: nat, k: nat, inner: nat)
    ensures Locate(sizes, off) == Some((k, inner)) <==> k < Solid(sizes, 0) && Sits(sizes, off, k, inner)
    ensures Locate(sizes, off) == None <==> off >= SumTo(sizes, Solid(sizes, 0))
  {
    LocateFromMeans(sizes, 0, off, k, inner);
  }

  /** Without empty entries, every byte has one place, and places are found. */
  lemma LocateSits(sizes: seq<nat>, off: nat, k: nat, inner: nat)
    requires AllPositive(sizes)
    ensures Locate(sizes, off) == Some((k, inner)) <==> Sits(sizes, off, k, inner)
    ensures Locate(sizes, off) == None <==> off >= Sum(sizes)
  {
    SolidAtLeast(sizes, 0, |sizes|);
    LocateMeans(sizes, off, k, inner);
  }

  // ----- seek

  const SIZE_MAX: nat := 0xFFFF_FFFF_FFFF_FFFF
  const U32: nat := 0x1_0000_0000

  /** `size - 1` on an unsigned 64-bit size. */
  function LastIndex(size: nat): nat {
    if size == 0 then SIZE_MAX else size - 1
  }

  /** The offset computed for (cmd, off), over the slots in physical order. */
  function SlotOffset(slots: seq<nat>, cmd: nat, off: nat): int {
    if cmd >= |slots| then -1
    else if off > LastIndex(slots[cmd]) then -1
    else if Solid(slots, 0) < cmd then -1  // an empty slot before cmd
    else SumTo(slots, cmd) + off
  }

  /** What the seek is meant to find: byte off of the cmd-th oldest line. */
  function CommandOffset(sizes: seq<nat>, cmd: nat, off: nat): int {
    if cmd < |sizes| && off < sizes[cmd] then SumTo(sizes, cmd) + off else -1
  }

  /** The sizes in the slots of a ring that holds `sizes`, oldest at slot out. */
  function SlotSizes(cap: nat, out: nat, sizes: seq<nat>): seq<nat>
    requires out < cap && |sizes| <= cap
  {
    seq(cap, j requires 0 <= j < cap =>
      var i := if out <= j then j - out else j + cap - out;
      if i < |sizes| then sizes[i] else 0)
  }

  /** With the oldest entry in slot 0, the slots begin with the entries. */
  lemma SlotsFromZero(cap: nat, sizes: seq<nat>, cmd: nat)
    requires 0 < cap && |sizes| <= cap && cmd <= |sizes|
    ensures var slots := SlotSizes(cap, 0, sizes);
            Solid(slots, 0) == Solid(sizes, 0) && SumTo(slots, cmd) == SumTo(sizes, cmd)
  {
    var slots, solid := SlotSizes(cap, 0, sizes), Solid(sizes, 0);
    SolidMeans(sizes, 0);
    SumToPrefix(slots, sizes, cmd);
    SolidAtLeast(slots, 0, solid);
    if solid < cap {
      SolidAtMost(slots, 0, solid);
    }
  }

  /** The slots that let a call through: those with a byte at off, and the first
      empty one. */
  predicate Answered(slots: seq<nat>, cmd: nat, off: nat) {
    cmd < |slots| && cmd <= Solid(slots, 0) && (off < slots[cmd] || slots[cmd] == 0)
  }

  lemma RefusedIff(slots: seq<nat>, cmd: nat, off: nat)
    requires off < U32
    ensures SlotOffset(slots, cmd, off) == if Answered(slots, cmd, off) then SumTo(slots, cmd) + off else -1
  {
  }

  /** A call on any ring is answered as meant exactly if it names a stored byte
      and is let through with as many bytes in the slots before as in the
      entries before, or names none and is not let through. With the oldest
      entry in slot 0 it goes wrong in two cases only: it names the first empty
      slot, or a byte that is stored behind an empty entry. On a full ring
      without empty entries it must name no command, or a byte past both the
      entry and the slot, or one inside both, with as much before it. */
  lemma SeekIsRightIff(cap: nat, out: nat, sizes: seq<nat>, cmd: nat, off: nat)
    requires out < cap && |sizes| <= cap && (|sizes| < cap ==> out == 0) && off < U32
    ensures var slots, solid := SlotSizes(cap, out, sizes), Solid(sizes, 0);
            var right := SlotOffset(slots, cmd, off) == CommandOffset(sizes, cmd, off);
            && (right <==>
                 if cmd < |sizes| && off < sizes[cmd] then
                   Answered(slots, cmd, off) && SumTo(slots, cmd) == SumTo(sizes, cmd)
                 else !Answered(slots, cmd, off))
            && (out == 0 ==>
                 (right <==> !(cmd == solid < cap) && !(solid < cmd < |sizes| && off < sizes[cmd])))
            && (|sizes| == cap && AllPositive(sizes) ==>
                 (right <==>
                   || cmd >= cap
                   || (off >= sizes[cmd] && off >= slots[cmd])
                   || (off < sizes[cmd] && off < slots[cmd] && SumTo(slots, cmd) == SumTo(sizes, cmd))))
  {
    if out == 0 {
      SlotsFromZero(cap, sizes, if cmd <= |sizes| then cmd else 0);
      SolidMeans(sizes, 0);
    }
    if |sizes| == cap && AllPositive(sizes) {
      SolidAtLeast(SlotSizes(cap, out, sizes), 0, cap);
    }
  }

  /** What the first empty slot is answered with: an offset at or past the end
      of what can be read. */
  lemma EmptySlotAnswer(cap: nat, sizes: seq<nat>, off: nat)
    requires |sizes| <= cap && Solid(sizes, 0) < cap && off < U32
    ensures SlotOffset(SlotSizes(cap, 0, sizes), Solid(sizes, 0), off) == SumTo(sizes, Solid(sizes, 0)) + off
  {
    SlotsFromZero(cap, sizes, Solid(sizes, 0));
    SolidMeans(sizes, 0);
  }

  lemma FirstDifference(a: seq<nat>, b: seq<nat>) returns (k: nat)
    requires |a| == |b| && a != b
    ensures k < |a| && a[k] != b[k] && a[..k] == b[..k]
  {
    k := 0;
    if |a| > 0 && a[0] == b[0] {
      assert a == [a[0]] + a[1..] && b == [b[0]] + b[1..];
      var j := FirstDifference(a[1..], b[1..]);
      k := j + 1;
      assert a[..k] == [a[0]] + a[1..][..j] && b[..k] == [b[0]] + b[1..][..j];
    }
  }

  /** Two ways of cutting a text disagree on some seek unless they are the same. */
  lemma DifferentSizesDisagree(a: seq<nat>, b: seq<nat>) returns (cmd: nat, off: nat)
    requires |a| == |b| && a != b && AllPositive(a) && AllPositive(b)
    requires forall i :: 0 <= i < |a| ==> b[i] < U32
    ensures off < U32 && SlotOffset(a, cmd, off) != CommandOffset(b, cmd, off)
  {
    cmd := FirstDifference(a, b);
    off := if a[cmd] < b[cmd] then a[cmd] else b[cmd];
    SolidAtLeast(a, 0, cmd);
    SumToPrefix(a, b, cmd);
  }

  /** On a ring without empty slots, the entries fill it and are not empty. */
  lemma SolidRing(cap: nat, out: nat, sizes: seq<nat>)
    requires out < cap && |sizes| <= cap && (|sizes| < cap ==> out == 0)
    requires Solid(SlotSizes(cap, out, sizes), 0) == cap
    ensures |sizes| == cap && AllPositive(sizes) && AllPositive(SlotSizes(cap, out, sizes))
  {
    var slots := SlotSizes(cap, out, sizes);
    if |sizes| < cap {
      SolidAtMost(slots, 0, |sizes|);
    }
    SolidMeans(slots, 0);
    forall i | 0 <= i < |sizes|
      ensures sizes[i] > 0
    {
      assert slots[if out + i < cap then out + i else out + i - cap] == sizes[i];
    }
  }

  /** Every seek on a ring is answered as meant exactly when the ring is full of
      non-empty entries and rotating the sizes by the oldest slot leaves them as
      they are. */
  lemma AllSeeksRightIff(cap: nat, out: nat, sizes: seq<nat>)
    requires out < cap && |sizes| <= cap && (|sizes| < cap ==> out == 0)
    requires forall i :: 0 <= i < |sizes| ==> sizes[i] < U32
    ensures (forall cmd: nat, off: nat :: off < U32 ==>
              SlotOffset(SlotSizes(cap, out, sizes), cmd, off) == CommandOffset(sizes, cmd, off))
       <==> |sizes| == cap && AllPositive(sizes) && SlotSizes(cap, out, sizes) == sizes
  {
    var slots := SlotSizes(cap, out, sizes);
    var solid := Solid(slots, 0);
    SolidMeans(slots, 0);
    if solid < cap {
      assert slots[solid] == 0 && SlotOffset(slots, solid, U32 - 1) >= 0;
      assert CommandOffset(sizes, solid, U32 - 1) == -1;
    } else {
      SolidRing(cap, out, sizes);
      if slots != sizes {
        var cmd, off := DifferentSizesDisagree(slots, sizes);
      } else {
        forall cmd: nat, off: nat | off < U32
          ensures SlotOffset(slots, cmd, off) == CommandOffset(sizes, cmd, off)
        {
        }
      }
    }
  }

  /** What a ring of two holds after three lines, and in which slots. */
  lemma TurnedRing(a: seq<byte>, b: seq<byte>, c: seq<byte>)
    requires IsLine(a) && IsLine(b) && IsLine(c)
    ensures var st := CommandStore.Run(2, CommandStore.EMPTY_STORE, [a, b, c]).store;
            st.lines == [b, c] && Oldest(st.adds, 2) == 1
  {
    LineHasOneNewline(a);
    LineHasOneNewline(b);
    LineHasOneNewline(c);
    LinesOfThree(a, b, c);
    CommandStore.RunKeepsLastLines(2, [a, b, c]);
    assert LastN(2, [a, b, c]) == [b, c];
    assert Steps(3, 2) == 1;
  }

  /** On a turned ring of two lines of m and n bytes, the driver answers n for
      the start of the newer line, which is at m. */
  lemma TurnedSeek(m: nat, n: nat)
    requires 0 < m && 0 < n
    ensures CommandOffset([m, n], 1, 0) == m && SlotOffset(SlotSizes(2, 1, [m, n]), 1, 0) == n
  {
    var slots := SlotSizes(2, 1, [m, n]);
    assert slots == [n, m];
    SolidAtLeast(slots, 0, 1);
    assert SumTo(slots, 1) == SumTo(slots, 0) + n;
    assert SumTo([m, n], 1) == SumTo([m, n], 0) + m;
  }

  /** Such a ring can be reached, and the round trip fails on it: seeking to the
      first byte of the newer line finds its second. */
  lemma SeekGoesWrong()
    ensures var st := CommandStore.Run(2, CommandStore.EMPTY_STORE, [[97, 10], [98, 10], [99, 99, 10]]).store;
            && Oldest(st.adds, 2) == 1 && Sizes(st.lines) == [2, 3]
            && SlotOffset(SlotSizes(2, 1, [2, 3]), 1, 0) == 3 != CommandOffset([2, 3], 1, 0)
            && Locate([2, 3], 3) == Some((1, 1))
  {
    TurnedRing([97, 10], [98, 10], [99, 99, 10]);
    TurnedSeek(2, 3);
  }

  /** With the oldest entry in slot 0: seeking to (cmd, off) and searching
      there comes back to (cmd, off), and every stored byte can be reached. */
  lemma SeekRoundTrip(cap: nat, sizes: seq<nat>, cmd: nat, off: nat)
    requires 0 < cap && |sizes| <= cap && AllPositive(sizes)
    requires cmd < |sizes| && off < sizes[cmd] && off < U32
    ensures var p := SlotOffset(SlotSizes(cap, 0, sizes), cmd, off);
            0 <= p < Sum(sizes) && Locate(sizes, p) == Some((cmd, off))
  {
    SolidAtLeast(sizes, 0, |sizes|);
    SeekIsRightIff(cap, 0, sizes, cmd, off);
    LocateSits(sizes, SumTo(sizes, cmd) + off, cmd, off);
    SumToMonotone(sizes, cmd + 1, |sizes|);
  }

  lemma SeekReachesEveryByte(cap: nat, sizes: seq<nat>, p: nat)
    requires 0 < cap && |sizes| <= cap && AllPositive(sizes)
    requires p < Sum(sizes) && Sum(sizes) <= U32
    ensures var found := Locate(sizes, p);
            found.Some? && SlotOffset(SlotSizes(cap, 0, sizes), found.value.0, found.value.1) == p
  {
    LocateSits(sizes, p, 0, 0);
    var (k, inner) := Locate(sizes, p).value;
    LocateSits(sizes, p, k, inner);
    SumToMonotone(sizes, k + 1, |sizes|);
    SolidAtLeast(sizes, 0, |sizes|);
    SeekIsRightIff(cap, 0, sizes, k, inner);
  }

  /** Seek offsets grow with (cmd, off) in lexicographic order. */
  lemma SeekIsMonotone(sizes: seq<nat>, cmd: nat, off: nat, cmd': nat, off': nat)
    requires cmd < |sizes| && off < sizes[cmd] && cmd' < |sizes| && off' < sizes[cmd']
    ensures CommandOffset(sizes, cmd, off) < CommandOffset(sizes, cmd', off')
       <==> cmd < cmd' || (cmd == cmd' && off < off')
  {
    if cmd < cmd' {
      SumToMonotone(sizes, cmd + 1, cmd');
    } else if cmd' < cmd {
      SumToMonotone(sizes, cmd' + 1, cmd);
    }
  }

  // ----- reads

  datatype ReadResult = ReadResult(data: seq<byte>, pos: nat)

  /** One read call at flat offset pos. */
  function Read(lines: seq<seq<byte>>, pos: nat, count: nat): ReadResult {
    match Locate(Sizes(lines), pos)
    case None => ReadResult([], 0)
    case Some((k, inner)) =>
      var left := |lines[k]| - inner;
      var n := if left < count then left else count;
      ReadResult(lines[k][inner..inner + n], pos + n)
  }

  ghost predicate NoEmptyLine(lines: seq<seq<byte>>) {
    forall i :: 0 <= i < |lines| ==> |lines[i]| > 0
  }

  /** A read inside the text delivers the bytes it moves over, stops at the end
      of the line it starts in, and moves on; at or past the end it delivers
      nothing and rewinds. */
  lemma ReadMeans(lines: seq<seq<byte>>, pos: nat, count: nat) returns (k: nat)
    requires NoEmptyLine(lines)
    ensures var flat := Flatten(lines); var r := Read(lines, pos, count);
            && (pos >= |flat| ==> r == ReadResult([], 0))
            && (pos < |flat| ==>
                  && pos <= r.pos <= |flat| && r.data == flat[pos..r.pos] && |r.data| <= count
                  && k < |lines| && SumTo(Sizes(lines), k) <= pos && r.pos <= SumTo(Sizes(lines), k + 1)
                  && (r.pos < SumTo(Sizes(lines), k + 1) ==> |r.data| == count)
                  && (count > 0 ==> pos < r.pos))
  {
    FlattenSize(lines);
    LocateSits(Sizes(lines), pos, 0, 0);
    k := 0;
    if pos < |Flatten(lines)| {
      var inner;
      k, inner := Locate(Sizes(lines), pos).value.0, Locate(Sizes(lines), pos).value.1;
      LocateSits(Sizes(lines), pos, k, inner);
      FlattenAt(lines, k);
      var n := |Read(lines, pos, count).data|;
      SubSlice(Flatten(lines), pos - inner, |lines[k]|, inner, n);
    }
  }

  lemma SubSlice(s: seq<byte>, start: nat, len: nat, inner: nat, n: nat)
    requires start + len <= |s| && inner + n <= len
    ensures s[start..start + len][inner..inner + n] == s[start + inner..start + inner + n]
  {
    var sub := s[start..start + len][inner..inner + n];
    assert forall i :: 0 <= i < n ==> sub[i] == s[start + inner + i];
  }

  /** The lines a reader can get at: those before the first empty one. */
  function Readable(lines: seq<seq<byte>>): seq<seq<byte>> {
    lines[..Solid(Sizes(lines), 0)]
  }

  lemma {:induction false} LocateInPrefix(sizes: seq<nat>, solid: seq<nat>, k: nat, off: nat)
    requires k <= |solid| <= |sizes| && solid == sizes[..|solid|] && |solid| == Solid(sizes, k)
    ensures LocateFrom(sizes, k, off) == LocateFrom(solid, k, off)
    decreases |sizes| - k
  {
    if k < |solid| && sizes[k] > 0 && off >= sizes[k] {
      LocateInPrefix(sizes, solid, k + 1, off - sizes[k]);
    }
  }

  /** Reading is reading the readable lines, none of which is empty. */
  lemma ReadSeesReadable(lines: seq<seq<byte>>, pos: nat, count: nat)
    ensures NoEmptyLine(Readable(lines))
    ensures Read(lines, pos, count) == Read(Readable(lines), pos, count)
    ensures NoEmptyLine(lines) ==> Readable(lines) == lines
  {
    var sizes, solid := Sizes(lines), Sizes(Readable(lines));
    SolidMeans(sizes, 0);
    assert solid == sizes[..|solid|];
    assert forall i :: 0 <= i < |solid| ==> |Readable(lines)[i]| == sizes[i];
    LocateInPrefix(sizes, solid, 0, pos);
    if NoEmptyLine(lines) {
      SolidAtLeast(sizes, 0, |sizes|);
    }
  }

  datatype Drained = Drained(data: seq<byte>, pos: nat, ended: bool)

  /** Read until a call returns nothing, or the counts run out. */
  function Drain(lines: seq<seq<byte>>, pos: nat, counts: seq<nat>): Drained
    decreases |counts|
  {
    if counts == [] then Drained([], pos, false)
    else
      var r := Read(lines, pos, counts[0]);
      if r.data == [] then Drained([], r.pos, true)
      else
        var rest := Drain(lines, r.pos, counts[1..]);
        Drained(r.data + rest.data, rest.pos, rest.ended)
  }

  lemma ReadDelivers(lines: seq<seq<byte>>, pos: nat, count: nat)
    requires NoEmptyLine(lines) && pos <= |Flatten(lines)| && count > 0
    ensures var flat := Flatten(lines); var r := Read(lines, pos, count);
            if r.data == [] then pos == |flat| && r.pos == 0
            else pos < r.pos <= |flat| && r.data == flat[pos..r.pos]
  {
    var _ := ReadMeans(lines, pos, count);
  }

  lemma ReadPastEnd(lines: seq<seq<byte>>, pos: nat, count: nat)
    requires NoEmptyLine(lines) && pos >= |Flatten(lines)|
    ensures Read(lines, pos, count) == ReadResult([], 0)
  {
    var _ := ReadMeans(lines, pos, count);
  }

  lemma SlicesMeet(s: seq<byte>, a: nat, b: nat, c: nat)
    requires a <= b <= c <= |s|
    ensures s[a..b] + s[b..c] == s[a..c]
  {
  }

  /** What reads have delivered of the text, with so many counts left. */
  ghost predicate Delivered(flat: seq<byte>, pos: nat, counts: nat, d: Drained) {
    && (d.ended ==> pos <= |flat| && d.data == flat[pos..] && d.pos == 0)
    && (!d.ended ==> pos + counts <= d.pos <= |flat| && d.data == flat[pos..d.pos])
    && (counts > |flat| - pos ==> d.ended)
  }

  lemma DeliveredNext(flat: seq<byte>, pos: nat, mid: nat, counts: nat, rest: Drained)
    requires pos < mid <= |flat| && Delivered(flat, mid, counts, rest)
    ensures Delivered(flat, pos, counts + 1, Drained(flat[pos..mid] + rest.data, rest.pos, rest.ended))
  {
    SlicesMeet(flat, pos, mid, if rest.ended then |flat| else rest.pos);
  }

  /** From any offset inside the text, reads with positive counts deliver the
      text from there on. They have ended exactly when a call came back
      empty: then all of it was delivered and the offset is 0 again. One call
      per byte and one more are always enough. */
  lemma {:induction false} DrainDelivers(lines: seq<seq<byte>>, pos: nat, counts: seq<nat>)
    requires NoEmptyLine(lines) && pos <= |Flatten(lines)|
    requires forall i :: 0 <= i < |counts| ==> counts[i] > 0
    ensures Delivered(Flatten(lines), pos, |counts|, Drain(lines, pos, counts))
    decreases |counts|
  {
    if counts != [] {
      ReadDelivers(lines, pos, counts[0]);
      var r := Read(lines, pos, counts[0]);
      if r.data != [] {
        DrainDelivers(lines, r.pos, counts[1..]);
        DeliveredNext(Flatten(lines), pos, r.pos, |counts[1..]|, Drain(lines, r.pos, counts[1..]));
      }
    }
  }
}
