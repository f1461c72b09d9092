// What a run of write calls leaves in the driver, on values: the complete
// lines kept by the ring (oldest first) and the unterminated tail that waits
// in the working buffer.

module CommandStore {
  import opened Streams

  const ENOMEM: int := 12

  /** The lines kept, the unfinished tail, and how many lines were ever stored. */
  datatype Store = Store(lines: seq<seq<byte>>, tail: seq<byte>, adds: nat)

  const EMPTY_STORE := Store([], [], 0)

  datatype Written = Written(store: Store, ret: int)

  /** How many bytes one turn of the write loop takes. `AsWritten` is the
      length the driver computes, from an index that is already relative to
      start; `Intended` counts up to and including the newline. */
  datatype Rule = AsWritten | Intended

  function CopyLength(rule: Rule, delim: int, start: nat, left: nat): int {
    if delim == -1 then left
    else if rule == AsWritten then delim - start + 1
    else delim + 1
  }

  function Enqueue(cap: nat, st: Store): Store {
    Store(LastN(cap, st.lines + [st.tail]), [], st.adds + 1)
  }

  datatype Turn = Done(result: Written) | More(store: Store, rest: seq<byte>, start: nat, ret: int)

  /** One turn of the write loop, with the bytes of `rest` still to take and
      the `start` bytes before them behind it; `ret` is the running result. */
  function WriteTurn(rule: Rule, cap: nat, st: Store, rest: seq<byte>, start: nat, ret: int): (t: Turn)
    ensures t.More? ==> |t.rest| < |rest|
  {
    var delim := FirstNewline(rest);
    var len := CopyLength(rule, delim, start, |rest|);
    if len < 0 then
      Done(Written(st, -ENOMEM))  // no allocation has a negative size
    else
      var st1 := st.(tail := st.tail + rest[..len]);
      if delim == -1 then Done(Written(st1, ret + len))
      else More(Enqueue(cap, st1), rest[delim + 1..], start + delim + 1, ret + len)
  }

  /** The outcome of a turn, from the newline it found, the number of bytes it
      took, the store it left, and where the next turn goes on. */
  lemma TurnIs(cap: nat, st: Store, rest: seq<byte>, start: nat, ret: int, delim: int, taken: int, left: Store,
               rest1: seq<byte>, start1: int, ret1: int)
    requires delim == FirstNewline(rest) && taken == CopyLength(AsWritten, delim, start, |rest|)
    requires left == if taken < 0 then st
                     else if delim == -1 then st.(tail := st.tail + rest[..taken])
                     else Enqueue(cap, st.(tail := st.tail + rest[..taken]))
    requires taken >= 0 ==> ret1 == ret + taken
    requires delim != -1 && taken >= 0 ==> rest1 == rest[delim + 1..] && start1 == start + delim + 1
    ensures var turn := WriteTurn(AsWritten, cap, st, rest, start, ret);
            if taken < 0 then turn == Done(Written(left, -ENOMEM))
            else if delim == -1 then turn == Done(Written(left, ret1))
            else start1 >= 0 && turn == More(left, rest1, start1, ret1)
  {
  }

  /** The remaining turns. */
  function Finish(rule: Rule, cap: nat, turn: Turn): Written
    decreases if turn.More? then |turn.rest| + 1 else 0
  {
    match turn
    case Done(result) => result
    case More(st, rest, start, ret) => Finish(rule, cap, WriteTurn(rule, cap, st, rest, start, ret))
  }

  function WriteLoop(rule: Rule, cap: nat, st: Store, rest: seq<byte>, start: nat, ret: int): Written {
    Finish(rule, cap, More(st, rest, start, ret))
  }

  lemma LoopUnfolds(rule: Rule, cap: nat, st: Store, rest: seq<byte>, start: nat, ret: int, turn: Turn)
    requires turn == WriteTurn(rule, cap, st, rest, start, ret)
    ensures WriteLoop(rule, cap, st, rest, start, ret) ==
            match turn
            case Done(result) => result
            case More(st', rest', start', ret') => WriteLoop(rule, cap, st', rest', start', ret')
  {
    assert Finish(rule, cap, More(st, rest, start, ret)) == Finish(rule, cap, turn);
  }

  lemma FinishUnfolds(rule: Rule, cap: nat, turn: Turn, next: Turn)
    requires turn.More? && next == WriteTurn(rule, cap, turn.store, turn.rest, turn.start, turn.ret)
    ensures Finish(rule, cap, turn) == Finish(rule, cap, next)
  {
  }

  function Write(cap: nat, st: Store, chunk: seq<byte>): Written {
    if chunk == [] then Written(st, 0) else WriteLoop(AsWritten, cap, st, chunk, 0, 0)
  }

  // ----- the reference: a store is what a byte stream leaves behind

  /** Append bytes to the stream behind a store. */
  function Absorb(cap: nat, st: Store, bytes: seq<byte>): Store {
    var lines := CompleteLines(st.tail + bytes);
    Store(LastN(cap, st.lines + lines), Rest(st.tail + bytes), st.adds + |lines|)
  }

  function StoreOf(cap: nat, stream: seq<byte>): Store {
    Store(LastN(cap, CompleteLines(stream)), Rest(stream), |CompleteLines(stream)|)
  }

  ghost predicate Bounded(cap: nat, st: Store) {
    |st.lines| <= cap && FirstNewline(st.tail) == -1
  }

  lemma AbsorbNothing(cap: nat, st: Store)
    requires Bounded(cap, st)
    ensures Absorb(cap, st, []) == st
  {
    assert st.tail + [] == st.tail;
    assert st.lines + [] == st.lines;
  }

  /** Absorbing piece by piece is absorbing the concatenation. */
  lemma AbsorbAppend(cap: nat, st: Store, a: seq<byte>, b: seq<byte>)
    ensures Absorb(cap, Absorb(cap, st, a), b) == Absorb(cap, st, a + b)
  {
    var t := st.tail + a;
    assert t + b == st.tail + (a + b);
    LinesAppend(t, b);
    LastNAbsorbs(cap, st.lines, CompleteLines(t), CompleteLines(Rest(t) + b));
  }

  lemma AbsorbKeepsBounded(cap: nat, st: Store, bytes: seq<byte>)
    ensures Bounded(cap, Absorb(cap, st, bytes))
  {
    CompleteLinesAreLines(st.tail + bytes);
  }

  lemma AbsorbFromEmpty(cap: nat, stream: seq<byte>)
    ensures Absorb(cap, EMPTY_STORE, stream) == StoreOf(cap, stream)
  {
    assert [] + stream == stream;
    assert [] + CompleteLines(stream) == CompleteLines(stream);
  }

  /** Finishing a line by its newline stores tail + piece as one entry. */
  lemma AbsorbLine(cap: nat, st: Store, piece: seq<byte>)
    requires Bounded(cap, st) && IsLine(piece)
    ensures Absorb(cap, st, piece) == Enqueue(cap, st.(tail := st.tail + piece))
  {
    var line := st.tail + piece;
    FirstNewlineConcat(st.tail, piece);
    LineFirst(line, []);
    assert line + [] == line;
  }

  lemma LineThenRest(cap: nat, st: Store, line: seq<byte>, rest: seq<byte>, bytes: seq<byte>)
    requires Bounded(cap, st) && IsLine(line) && bytes == line + rest
    ensures Absorb(cap, Enqueue(cap, st.(tail := st.tail + line)), rest) == Absorb(cap, st, bytes)
  {
    AbsorbLine(cap, st, line);
    AbsorbAppend(cap, st, line, rest);
  }

  lemma LastTurnAbsorbs(rule: Rule, cap: nat, st: Store, rest: seq<byte>, start: nat, ret: int)
    requires Bounded(cap, st) && FirstNewline(rest) == -1
    ensures WriteTurn(rule, cap, st, rest, start, ret) == Done(Written(Absorb(cap, st, rest), ret + |rest|))
  {
    assert rest[..|rest|] == rest;
    FirstNewlineConcat(st.tail, rest);
    assert st.lines + [] == st.lines;
  }

  lemma TurnTakesLine(rule: Rule, cap: nat, st: Store, line: seq<byte>, rest: seq<byte>, start: nat, ret: int)
    requires IsLine(line) && (rule == AsWritten ==> start == 0)
    ensures WriteTurn(rule, cap, st, line + rest, start, ret) ==
            More(Enqueue(cap, st.(tail := st.tail + line)), rest, start + |line|, ret + |line|)
  {
    LineAhead(line, rest);
  }

  lemma AfterLine(rule: Rule, cap: nat, st: Store, line: seq<byte>, rest: seq<byte>, start: nat, ret: int)
    returns (st1: Store)
    requires Bounded(cap, st) && IsLine(line) && (rule == AsWritten ==> start == 0)
    ensures WriteTurn(rule, cap, st, line + rest, start, ret) == More(st1, rest, start + |line|, ret + |line|)
    ensures Bounded(cap, st1) && Absorb(cap, st1, rest) == Absorb(cap, st, line + rest)
  {
    st1 := Enqueue(cap, st.(tail := st.tail + line));
    TurnTakesLine(rule, cap, st, line, rest, start, ret);
    LineThenRest(cap, st, line, rest, line + rest);
  }

  /** A turn of the loop that takes the whole next line. */
  lemma LineTurn(rule: Rule, cap: nat, st: Store, rest: seq<byte>, start: nat, ret: int)
    returns (st': Store, rest': seq<byte>, start': nat, ret': int)
    requires Bounded(cap, st) && FirstNewline(rest) != -1 && (rule == AsWritten ==> start == 0)
    ensures WriteLoop(rule, cap, st, rest, start, ret) == WriteLoop(rule, cap, st', rest', start', ret')
    ensures start' > 0 && ret' + |rest'| == ret + |rest| && |rest'| < |rest| && Newlines(rest) == 1 + Newlines(rest')
    ensures Bounded(cap, st') && Absorb(cap, st', rest') == Absorb(cap, st, rest)
  {
    var line;
    line, rest' := NextLine(rest);
    st' := AfterLine(rule, cap, st, line, rest', start, ret);
    start', ret' := start + |line|, ret + |line|;
    LoopUnfolds(rule, cap, st, rest, start, ret, More(st', rest', start', ret'));
  }

  lemma LastTurn(rule: Rule, cap: nat, st: Store, rest: seq<byte>, start: nat, ret: int)
    requires Bounded(cap, st) && FirstNewline(rest) == -1
    ensures WriteLoop(rule, cap, st, rest, start, ret) == Written(Absorb(cap, st, rest), ret + |rest|)
  {
    LastTurnAbsorbs(rule, cap, st, rest, start, ret);
    LoopUnfolds(rule, cap, st, rest, start, ret, Done(Written(Absorb(cap, st, rest), ret + |rest|)));
  }

  /** As long as every turn takes the whole next line, the loop appends the
      bytes to the stream. */
  lemma {:induction false} WriteLoopAbsorbs(rule: Rule, cap: nat, st: Store, rest: seq<byte>, start: nat, ret: int)
    requires Bounded(cap, st)
    requires rule == AsWritten ==> Newlines(rest) <= if start == 0 then 1 else 0
    ensures WriteLoop(rule, cap, st, rest, start, ret) == Written(Absorb(cap, st, rest), ret + |rest|)
    decreases |rest|
  {
    NoNewlineMeans(rest);
    if FirstNewline(rest) == -1 {
      LastTurn(rule, cap, st, rest, start, ret);
    } else {
      var st', rest', start', ret' := LineTurn(rule, cap, st, rest, start, ret);
      WriteLoopAbsorbs(rule, cap, st', rest', start', ret');
    }
  }

  /** Past the first newline, each further newline makes the driver take too little. */
  lemma {:induction false} LaterLinesAreCutShort(cap: nat, turn: Turn)
    requires turn.More? && 0 < turn.start && 0 <= turn.ret
    ensures var r := Finish(AsWritten, cap, turn).ret;
            r <= turn.ret + |turn.rest| && (FirstNewline(turn.rest) != -1 ==> r < turn.ret + |turn.rest|)
    decreases |turn.rest|
  {
    var next := WriteTurn(AsWritten, cap, turn.store, turn.rest, turn.start, turn.ret);
    if next.More? {
      LaterLinesAreCutShort(cap, next);
    }
  }

  lemma WriteAbsorbs(cap: nat, st: Store, chunk: seq<byte>)
    requires Bounded(cap, st) && Newlines(chunk) <= 1
    ensures Write(cap, st, chunk) == Written(Absorb(cap, st, chunk), |chunk|)
  {
    if chunk == [] {
      AbsorbNothing(cap, st);
    } else {
      WriteLoopAbsorbs(AsWritten, cap, st, chunk, 0, 0);
    }
  }

  lemma WriteFallsShort(cap: nat, st: Store, chunk: seq<byte>)
    requires Newlines(chunk) > 1
    ensures Write(cap, st, chunk).ret < |chunk|
  {
    NoNewlineMeans(chunk);
    var line, rest := NextLine(chunk);
    NoNewlineMeans(rest);
    var turn := More(Enqueue(cap, st.(tail := st.tail + line)), rest, |line|, |line|);
    TurnTakesLine(AsWritten, cap, st, line, rest, 0, 0);
    LoopUnfolds(AsWritten, cap, st, chunk, 0, 0, turn);
    LaterLinesAreCutShort(cap, turn);
  }

  /** The write call accounts for all its bytes exactly when they hold at most
      one newline, and then it has appended them to the stream. */
  lemma WriteIsRightIff(cap: nat, st: Store, chunk: seq<byte>)
    requires Bounded(cap, st)
    ensures var w := Write(cap, st, chunk);
            && w.ret <= |chunk|
            && (w.ret == |chunk| <==> Newlines(chunk) <= 1)
            && (w == Written(Absorb(cap, st, chunk), |chunk|) <==> Newlines(chunk) <= 1)
  {
    if Newlines(chunk) <= 1 {
      WriteAbsorbs(cap, st, chunk);
    } else {
      WriteFallsShort(cap, st, chunk);
    }
  }

  /** With the intended length the loop is right for every chunk. */
  lemma IntendedWriteIsRight(cap: nat, st: Store, chunk: seq<byte>)
    requires Bounded(cap, st)
    ensures WriteLoop(Intended, cap, st, chunk, 0, 0) == Written(Absorb(cap, st, chunk), |chunk|)
  {
    WriteLoopAbsorbs(Intended, cap, st, chunk, 0, 0);
  }

  // ----- what exactly a write with several lines leaves

  /** The entries that the lines of one write become, the first of which has
      `start` bytes before it and completes the tail: each line falls short by
      the number of bytes before it, and a line shorter than that ends the call. */
  function Entries(tail: seq<byte>, lines: seq<seq<byte>>, start: nat): seq<seq<byte>>
    decreases |lines|
  {
    if lines == [] || |lines[0]| < start then []
    else [tail + lines[0][..|lines[0]| - start]] + Entries([], lines[1..], start + |lines[0]|)
  }

  /** Some line is shorter than what is before it. */
  predicate TooShort(lines: seq<seq<byte>>, start: nat) {
    lines != [] && (|lines[0]| < start || TooShort(lines[1..], start + |lines[0]|))
  }

  /** The numbers of bytes before each line, added up. */
  function Lost(lines: seq<seq<byte>>, start: nat): nat {
    if lines == [] then 0 else start + Lost(lines[1..], start + |lines[0]|)
  }

  /** The store after a turn at a line with `start` bytes before it. */
  function Taken(cap: nat, st: Store, line: seq<byte>, start: nat): Store
    requires start <= |line|
  {
    Enqueue(cap, st.(tail := st.tail + line[..|line| - start]))
  }

  /** The loop, line by line: the complete lines of the bytes, and the last
      bytes, which hold no newline. */
  function LineLoop(cap: nat, st: Store, lines: seq<seq<byte>>, last: seq<byte>, start: nat, ret: int): Written
    decreases |lines|
  {
    if lines == [] then Written(st.(tail := st.tail + last), ret + |last|)
    else if |lines[0]| < start then Written(st, -ENOMEM)
    else
      LineLoop(cap, Taken(cap, st, lines[0], start), lines[1..], last, start + |lines[0]|, ret + (|lines[0]| - start))
  }

  lemma EntriesOfLine(cap: nat, st: Store, lines: seq<seq<byte>>, start: nat)
    requires lines != [] && start <= |lines[0]|
    ensures var st1 := Taken(cap, st, lines[0], start);
            var more := Entries(st1.tail, lines[1..], start + |lines[0]|);
            LastN(cap, st1.lines + more) == LastN(cap, st.lines + Entries(st.tail, lines, start))
  {
    var entry, more := st.tail + lines[0][..|lines[0]| - start], Entries([], lines[1..], start + |lines[0]|);
    LastNAbsorbs(cap, st.lines, [entry], more);
  }

  lemma {:induction false} LineLoopStores(cap: nat, st: Store, lines: seq<seq<byte>>, last: seq<byte>, start: nat,
                                          ret: int)
    requires |st.lines| <= cap
    ensures LineLoop(cap, st, lines, last, start, ret).store.lines
         == LastN(cap, st.lines + Entries(st.tail, lines, start))
    decreases |lines|
  {
    if lines == [] || |lines[0]| < start {
      assert st.lines + [] == st.lines;
    } else {
      LineLoopStores(cap, Taken(cap, st, lines[0], start), lines[1..], last,
                     start + |lines[0]|, ret + (|lines[0]| - start));
      EntriesOfLine(cap, st, lines, start);
    }
  }

  /** The tail is what was waiting before, if no line came to complete it, and
      the bytes after the last newline, if the call came that far. */
  lemma {:induction false} LineLoopTail(cap: nat, st: Store, lines: seq<seq<byte>>, last: seq<byte>, start: nat,
                                        ret: int)
    ensures var w := LineLoop(cap, st, lines, last, start, ret);
            && w.store.adds == st.adds + |Entries(st.tail, lines, start)|
            && w.store.tail == (if Entries(st.tail, lines, start) == [] then st.tail else [])
                             + (if TooShort(lines, start) then [] else last)
    decreases |lines|
  {
    if lines != [] && |lines[0]| < start {
      assert st.tail + [] == st.tail;
    } else if lines != [] {
      LineLoopTail(cap, Taken(cap, st, lines[0], start), lines[1..], last,
                   start + |lines[0]|, ret + (|lines[0]| - start));
    }
  }

  lemma {:induction false} LineLoopCounts(cap: nat, st: Store, lines: seq<seq<byte>>, last: seq<byte>, start: nat,
                                          ret: int)
    requires ret >= 0
    ensures var w := LineLoop(cap, st, lines, last, start, ret);
            if TooShort(lines, start) then w.ret == -ENOMEM
            else w.ret == ret + |Flatten(lines)| + |last| - Lost(lines, start) >= 0
    decreases |lines|
  {
    if lines != [] && |lines[0]| >= start {
      LineLoopCounts(cap, Taken(cap, st, lines[0], start), lines[1..], last,
                     start + |lines[0]|, ret + (|lines[0]| - start));
    }
  }

  /** One turn of the loop, at a line. */
  lemma LoopOfLine(cap: nat, st: Store, line: seq<byte>, rest: seq<byte>, start: nat, ret: int, st1: Store,
                   start1: nat, ret1: int)
    requires IsLine(line) && start <= |line|
    requires st1 == Taken(cap, st, line, start) && start1 == start + |line| && ret1 == ret + (|line| - start)
    ensures WriteLoop(AsWritten, cap, st, line + rest, start, ret) == WriteLoop(AsWritten, cap, st1, rest, start1, ret1)
  {
    LineAhead(line, rest);
    assert (line + rest)[..|line| - start] == line[..|line| - start];
    LoopUnfolds(AsWritten, cap, st, line + rest, start, ret, More(st1, rest, start1, ret1));
  }

  lemma LoopOfShortLine(cap: nat, st: Store, line: seq<byte>, rest: seq<byte>, start: nat, ret: int)
    requires IsLine(line) && |line| < start
    ensures WriteLoop(AsWritten, cap, st, line + rest, start, ret) == Written(st, -ENOMEM)
  {
    LineAhead(line, rest);
    LoopUnfolds(AsWritten, cap, st, line + rest, start, ret, Done(Written(st, -ENOMEM)));
  }

  lemma LoopOfTail(cap: nat, st: Store, last: seq<byte>, start: nat, ret: int)
    requires FirstNewline(last) == -1
    ensures WriteLoop(AsWritten, cap, st, last, start, ret) == Written(st.(tail := st.tail + last), ret + |last|)
  {
    assert last[..|last|] == last;
    LoopUnfolds(AsWritten, cap, st, last, start, ret, Done(Written(st.(tail := st.tail + last), ret + |last|)));
  }

  ghost predicate AllLines(lines: seq<seq<byte>>) {
    forall k :: 0 <= k < |lines| ==> IsLine(lines[k])
  }

  lemma {:induction false} WriteLoopIsLineLoop(cap: nat, st: Store, lines: seq<seq<byte>>, last: seq<byte>,
                                               start: nat, ret: int)
    requires AllLines(lines) && FirstNewline(last) == -1
    ensures WriteLoop(AsWritten, cap, st, Flatten(lines) + last, start, ret)
         == LineLoop(cap, st, lines, last, start, ret)
    decreases |lines|
  {
    if lines == [] {
      assert Flatten(lines) + last == last;
      LoopOfTail(cap, st, last, start, ret);
    } else {
      var line, rest := lines[0], Flatten(lines[1..]) + last;
      ConcatAssociates(line, Flatten(lines[1..]), last);
      if |line| < start {
        LoopOfShortLine(cap, st, line, rest, start, ret);
      } else {
        var st1, start1, ret1 := Taken(cap, st, line, start), start + |line|, ret + (|line| - start);
        LoopOfLine(cap, st, line, rest, start, ret, st1, start1, ret1);
        WriteLoopIsLineLoop(cap, st1, lines[1..], last, start1, ret1);
      }
    }
  }

  /** Where line k begins. */
  function Before(lines: seq<seq<byte>>, k: nat): nat
    requires k <= |lines|
  {
    SumTo(Sizes(lines), k)
  }

  lemma BeforeNext(lines: seq<seq<byte>>, k: nat)
    requires k < |lines|
    ensures Before(lines, k + 1) == |lines[0]| + Before(lines[1..], k)
  {
    SumToFirst(Sizes(lines), k + 1);
    assert Sizes(lines)[1..] == Sizes(lines[1..]);
  }

  lemma {:induction false} TooShortMeans(lines: seq<seq<byte>>, start: nat) returns (k: nat)
    requires TooShort(lines, start)
    ensures k < |lines| && |lines[k]| < start + Before(lines, k)
  {
    if |lines[0]| < start {
      k := 0;
    } else {
      var j := TooShortMeans(lines[1..], start + |lines[0]|);
      BeforeNext(lines, j);
      k := j + 1;
    }
  }

  lemma {:induction false} TooShortIf(lines: seq<seq<byte>>, start: nat, k: nat)
    requires k < |lines| && |lines[k]| < start + Before(lines, k)
    ensures TooShort(lines, start)
  {
    if k > 0 {
      BeforeNext(lines, k - 1);
      TooShortIf(lines[1..], start + |lines[0]|, k - 1);
    }
  }

  lemma TooShortIff(lines: seq<seq<byte>>)
    ensures TooShort(lines, 0) <==> exists k :: 0 <= k < |lines| && |lines[k]| < Before(lines, k)
  {
    if TooShort(lines, 0) {
      var k := TooShortMeans(lines, 0);
    } else {
      forall k | 0 <= k < |lines|
        ensures |lines[k]| >= Before(lines, k)
      {
        if |lines[k]| < Before(lines, k) {
          TooShortIf(lines, 0, k);
        }
      }
    }
  }

  /** There are as many entries as lines before the first one that is too short. */
  lemma {:induction false} EntriesNumber(tail: seq<byte>, lines: seq<seq<byte>>, start: nat)
    ensures var n := |Entries(tail, lines, start)|;
            n <= |lines| && (n < |lines| ==> |lines[n]| < start + Before(lines, n))
    decreases |lines|
  {
    if lines != [] && start <= |lines[0]| {
      EntriesNumber([], lines[1..], start + |lines[0]|);
      var n := |Entries([], lines[1..], start + |lines[0]|)|;
      if n < |lines[1..]| {
        BeforeNext(lines, n);
      }
    }
  }

  /** Entry k is line k without as many bytes as there are before it. */
  lemma {:induction false} EntryIs(tail: seq<byte>, lines: seq<seq<byte>>, start: nat, k: nat, before: nat)
    requires k < |Entries(tail, lines, start)| && k < |lines| && before == start + Before(lines, k)
    ensures before <= |lines[k]|
    ensures Entries(tail, lines, start)[k] == (if k == 0 then tail else []) + lines[k][..|lines[k]| - before]
    decreases k
  {
    if k > 0 {
      BeforeNext(lines, k - 1);
      EntryIs([], lines[1..], start + |lines[0]|, k - 1, before);
    }
  }

  /** Every entry of a write, by its index. */
  lemma EntriesAre(tail: seq<byte>, lines: seq<seq<byte>>)
    ensures var entries := Entries(tail, lines, 0); var n := |entries|;
            && n <= |lines| && (n < |lines| ==> |lines[n]| < Before(lines, n))
            && forall k :: 0 <= k < n ==>
                 && Before(lines, k) <= |lines[k]|
                 && entries[k] == (if k == 0 then tail else []) + lines[k][..|lines[k]| - Before(lines, k)]
  {
    EntriesNumber(tail, lines, 0);
    forall k | 0 <= k < |Entries(tail, lines, 0)|
      ensures Before(lines, k) <= |lines[k]|
      ensures Entries(tail, lines, 0)[k] == (if k == 0 then tail else []) + lines[k][..|lines[k]| - Before(lines, k)]
    {
      EntryIs(tail, lines, 0, k, Before(lines, k));
    }
  }

  /** The bytes before each of the first n lines, added up. */
  function LostUpTo(lines: seq<seq<byte>>, start: nat, n: nat): nat
    requires n <= |lines|
  {
    if n == 0 then 0 else LostUpTo(lines, start, n - 1) + start + Before(lines, n - 1)
  }

  lemma {:induction false} LostFirst(lines: seq<seq<byte>>, start: nat, n: nat)
    requires n < |lines|
    ensures LostUpTo(lines, start, n + 1) == start + LostUpTo(lines[1..], start + |lines[0]|, n)
  {
    if n > 0 {
      LostFirst(lines, start, n - 1);
      BeforeNext(lines, n - 1);
    }
  }

  lemma {:induction false} LostIs(lines: seq<seq<byte>>, start: nat)
    ensures Lost(lines, start) == LostUpTo(lines, start, |lines|)
  {
    if lines != [] {
      LostIs(lines[1..], start + |lines[0]|);
      LostFirst(lines, start, |lines| - 1);
    }
  }

  lemma WriteIsLineLoop(cap: nat, st: Store, chunk: seq<byte>)
    ensures Write(cap, st, chunk) == LineLoop(cap, st, CompleteLines(chunk), Rest(chunk), 0, 0)
  {
    CompleteLinesAreLines(chunk);
    LinesAreTheStream(chunk);
    if chunk == [] {
      assert st.tail + [] == st.tail;
    } else {
      WriteLoopIsLineLoop(cap, st, CompleteLines(chunk), Rest(chunk), 0, 0);
    }
  }

  /** Every write, exactly. It fails if and only if some line is shorter than
      everything before it in the chunk, and otherwise its count falls short by
      the bytes before each line; either way, this is what it stored. */
  lemma WriteLeaves(cap: nat, st: Store, chunk: seq<byte>)
    requires |st.lines| <= cap
    ensures var w, lines := Write(cap, st, chunk), CompleteLines(chunk);
            var entries := Entries(st.tail, lines, 0);
            && (w.ret == -ENOMEM <==> exists k :: 0 <= k < |lines| && |lines[k]| < Before(lines, k))
            && (w.ret != -ENOMEM ==> w.ret == |chunk| - Lost(lines, 0) >= 0)
            && w.store.lines == LastN(cap, st.lines + entries)
            && w.store.tail == (if entries == [] then st.tail else []) + (if w.ret == -ENOMEM then [] else Rest(chunk))
            && w.store.adds == st.adds + |entries|
  {
    var lines := CompleteLines(chunk);
    WriteIsLineLoop(cap, st, chunk);
    LinesAreTheStream(chunk);
    LineLoopStores(cap, st, lines, Rest(chunk), 0, 0);
    LineLoopTail(cap, st, lines, Rest(chunk), 0, 0);
    LineLoopCounts(cap, st, lines, Rest(chunk), 0, 0);
    TooShortIff(lines);
  }

  lemma TakenAfterLine(cap: nat, st: Store, line: seq<byte>, start: nat)
    requires start <= |line|
    ensures st.tail == [] ==> Taken(cap, st, line, start) == Enqueue(cap, st.(tail := line[..|line| - start]))
    ensures start == 0 ==> Taken(cap, st, line, start) == Enqueue(cap, st.(tail := st.tail + line))
  {
    assert [] + line[..|line| - start] == line[..|line| - start];
    assert line[..|line|] == line;
  }

  /** A first line is taken whole. */
  lemma FirstTurn(cap: nat, st: Store, first: seq<byte>, rest: seq<byte>) returns (st1: Store)
    requires IsLine(first)
    ensures st1 == Enqueue(cap, st.(tail := st.tail + first))
    ensures Write(cap, st, first + rest) == WriteLoop(AsWritten, cap, st1, rest, |first|, |first|)
  {
    st1 := Taken(cap, st, first, 0);
    TakenAfterLine(cap, st, first, 0);
    LoopOfLine(cap, st, first, rest, 0, 0, st1, |first|, |first|);
  }

  lemma SecondTurn(cap: nat, st: Store, second: seq<byte>, rest: seq<byte>, before: nat) returns (st2: Store)
    requires IsLine(second) && st.tail == [] && before <= |second|
    ensures st2 == Enqueue(cap, st.(tail := second[..|second| - before]))
    ensures WriteLoop(AsWritten, cap, st, second + rest, before, before)
         == WriteLoop(AsWritten, cap, st2, rest, before + |second|, |second|)
  {
    st2 := Taken(cap, st, second, before);
    TakenAfterLine(cap, st, second, before);
    LoopOfLine(cap, st, second, rest, before, before, st2, before + |second|, |second|);
  }

  /** A second line loses as many bytes as the first is long. */
  lemma SecondLineCutShort(cap: nat, st: Store, first: seq<byte>, second: seq<byte>, rest: seq<byte>, more: seq<byte>)
    returns (st1: Store, st2: Store)
    requires IsLine(first) && IsLine(second) && |first| <= |second| && more == second + rest
    ensures st1 == Enqueue(cap, st.(tail := st.tail + first))
    ensures st2 == Enqueue(cap, st1.(tail := second[..|second| - |first|]))
    ensures Write(cap, st, first + more) == WriteLoop(AsWritten, cap, st2, rest, |first| + |second|, |second|)
  {
    st1 := FirstTurn(cap, st, first, more);
    st2 := SecondTurn(cap, st1, second, rest, |first|);
  }

  /** If it does not have that many, the call fails with only the first line
      stored, whatever comes after. */
  lemma SecondLineFails(cap: nat, st: Store, first: seq<byte>, second: seq<byte>, rest: seq<byte>)
    requires IsLine(first) && IsLine(second) && |second| < |first|
    ensures Write(cap, st, first + (second + rest)) == Written(Enqueue(cap, st.(tail := st.tail + first)), -ENOMEM)
  {
    var st1 := FirstTurn(cap, st, first, second + rest);
    LoopOfShortLine(cap, st1, second, rest, |first|, |first|);
  }

  lemma {:induction false} WriteLoopKeepsBounded(cap: nat, turn: Turn)
    requires Bounded(cap, if turn.Done? then turn.result.store else turn.store)
    ensures Bounded(cap, Finish(AsWritten, cap, turn).store)
    decreases if turn.More? then |turn.rest| + 1 else 0
  {
    if turn.More? {
      var next := WriteTurn(AsWritten, cap, turn.store, turn.rest, turn.start, turn.ret);
      if FirstNewline(turn.rest) == -1 {
        assert turn.rest[..|turn.rest|] == turn.rest;
        FirstNewlineConcat(turn.store.tail, turn.rest);
      }
      WriteLoopKeepsBounded(cap, next);
    }
  }

  /** Whatever is written, at most cap entries are kept and no newline waits
      in the working buffer. */
  lemma WriteKeepsBounded(cap: nat, st: Store, chunk: seq<byte>)
    requires Bounded(cap, st)
    ensures Bounded(cap, Write(cap, st, chunk).store)
  {
    if chunk != [] {
      WriteLoopKeepsBounded(cap, More(st, chunk, 0, 0));
    }
  }

  /** One more write after a stream of bytes: with at most one newline it just
      prolongs the stream; otherwise a new stream begins where it ends. */
  lemma WriteProlongs(cap: nat, origin: Store, stream: seq<byte>, chunk: seq<byte>)
    returns (origin': Store, stream': seq<byte>)
    ensures var w := Write(cap, Absorb(cap, origin, stream), chunk);
            && w.store == Absorb(cap, origin', stream')
            && w.ret <= |chunk|
            && (w.ret == |chunk| <==> Newlines(chunk) <= 1)
            && (Newlines(chunk) <= 1 ==> origin' == origin && stream' == stream + chunk)
  {
    var st := Absorb(cap, origin, stream);
    AbsorbKeepsBounded(cap, origin, stream);
    WriteIsRightIff(cap, st, chunk);
    if Newlines(chunk) <= 1 {
      origin', stream' := origin, stream + chunk;
      AbsorbAppend(cap, origin, stream, chunk);
    } else {
      origin', stream' := Write(cap, st, chunk).store, [];
      WriteKeepsBounded(cap, st, chunk);
      AbsorbNothing(cap, origin');
    }
  }

  // ----- runs

  /** A run of write calls; the returned numbers are added up. */
  function Run(cap: nat, st: Store, chunks: seq<seq<byte>>): Written
    decreases |chunks|
  {
    if chunks == [] then Written(st, 0)
    else
      var w := Write(cap, st, chunks[0]);
      var rest := Run(cap, w.store, chunks[1..]);
      Written(rest.store, w.ret + rest.ret)
  }

  ghost predicate AtMostOneNewlineEach(chunks: seq<seq<byte>>) {
    forall i :: 0 <= i < |chunks| ==> Newlines(chunks[i]) <= 1
  }

  lemma {:induction false} RunAbsorbs(cap: nat, st: Store, chunks: seq<seq<byte>>)
    requires Bounded(cap, st) && AtMostOneNewlineEach(chunks)
    ensures Run(cap, st, chunks) == Written(Absorb(cap, st, Flatten(chunks)), |Flatten(chunks)|)
    decreases |chunks|
  {
    if chunks == [] {
      AbsorbNothing(cap, st);
    } else {
      WriteIsRightIff(cap, st, chunks[0]);
      AbsorbKeepsBounded(cap, st, chunks[0]);
      RunAbsorbs(cap, Absorb(cap, st, chunks[0]), chunks[1..]);
      AbsorbAppend(cap, st, chunks[0], Flatten(chunks[1..]));
    }
  }

  /** From an empty device, any run of writes with at most one newline each
      leaves the last cap lines of everything written, and the unfinished
      tail; all bytes are accounted for. */
  lemma RunKeepsLastLines(cap: nat, chunks: seq<seq<byte>>)
    requires AtMostOneNewlineEach(chunks)
    ensures Run(cap, EMPTY_STORE, chunks) == Written(StoreOf(cap, Flatten(chunks)), |Flatten(chunks)|)
  {
    RunAbsorbs(cap, EMPTY_STORE, chunks);
    AbsorbFromEmpty(cap, Flatten(chunks));
  }

  /** So only the byte stream matters, not how it was cut into writes. */
  lemma ChunkingIsInvisible(cap: nat, one: seq<seq<byte>>, other: seq<seq<byte>>)
    requires AtMostOneNewlineEach(one) && AtMostOneNewlineEach(other)
    requires Flatten(one) == Flatten(other)
    ensures Run(cap, EMPTY_STORE, one) == Run(cap, EMPTY_STORE, other)
  {
    RunKeepsLastLines(cap, one);
    RunKeepsLastLines(cap, other);
  }
}
