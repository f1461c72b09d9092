// Byte streams, the lines they hold, and the arithmetic of concatenated lines.

module Streams {

  newtype byte = x: int | 0 <= x < 256

  const DELIMITER: byte := 10  // '\n'

  datatype Option<+T> = None | Some(value: T)

  /** The driver's delimiter search, from index i on. */
  function SearchNewline(s: seq<byte>, i: nat): (r: int)
    requires i <= |s|
    ensures r == -1 || i <= r < |s|
    decreases |s| - i
  {
    if i == |s| then -1 else if s[i] == DELIMITER then i else SearchNewline(s, i + 1)
  }

  /** Index of the first newline of s, or -1. */
  function FirstNewline(s: seq<byte>): (r: int)
    ensures -1 <= r < |s|
  {
    SearchNewline(s, 0)
  }

  /** The first n bytes of s hold no newline. */
  predicate NewlineFree(s: seq<byte>, n: nat)
    requires n <= |s|
  {
    forall k :: 0 <= k < n ==> s[k] != DELIMITER
  }

  predicate IsFirstNewline(s: seq<byte>, r: int) {
    if r == -1 then NewlineFree(s, |s|) else 0 <= r < |s| && s[r] == DELIMITER && NewlineFree(s, r)
  }

  lemma {:induction false} SearchNewlineFinds(s: seq<byte>, i: nat, r: int)
    requires i <= |s| && IsFirstNewline(s, r) && (r == -1 || i <= r)
    ensures SearchNewline(s, i) == r
    decreases |s| - i
  {
    if i < |s| && i != r {
      SearchNewlineFinds(s, i + 1, r);
    }
  }

  lemma {:induction false} SearchNewlineMeans(s: seq<byte>, i: nat)
    requires i <= |s| && NewlineFree(s, i)
    ensures IsFirstNewline(s, SearchNewline(s, i))
    decreases |s| - i
  {
    if i < |s| && s[i] != DELIMITER {
      SearchNewlineMeans(s, i + 1);
    }
  }

  /** The search returns the index of the first newline, and -1 only without one. */
  lemma FirstNewlineIs(s: seq<byte>, r: int)
    ensures FirstNewline(s) == r <==> IsFirstNewline(s, r)
  {
    SearchNewlineMeans(s, 0);
    if IsFirstNewline(s, r) {
      SearchNewlineFinds(s, 0, r);
    }
  }

  lemma FirstNewlineConcat(a: seq<byte>, b: seq<byte>)
    ensures FirstNewline(a + b) ==
            if FirstNewline(a) != -1 then FirstNewline(a)
            else if FirstNewline(b) != -1 then |a| + FirstNewline(b)
            else -1
  {
    var i, j := FirstNewline(a), FirstNewline(b);
    FirstNewlineIs(a, i);
    FirstNewlineIs(b, j);
    FirstNewlineIs(a + b, if i != -1 then i else if j != -1 then |a| + j else -1);
  }

  function Newlines(s: seq<byte>): nat {
    multiset(s)[DELIMITER]
  }

  lemma NewlinesConcat(a: seq<byte>, b: seq<byte>)
    ensures Newlines(a + b) == Newlines(a) + Newlines(b)
  {
  }

  lemma NewlinesUpTo(s: seq<byte>, a: nat, b: nat)
    requires a <= b <= |s|
    ensures Newlines(s[..b]) == Newlines(s[..a]) + Newlines(s[a..b])
    ensures a < b && s[b - 1] == DELIMITER ==> Newlines(s[..a]) < Newlines(s[..b])
  {
    assert s[..b] == s[..a] + s[a..b];
    NewlinesConcat(s[..a], s[a..b]);
    if a < b {
      assert s[a..b][b - a - 1] == s[b - 1];
      assert s[b - 1] in multiset(s[a..b]);
    }
  }

  lemma NoNewlineMeans(s: seq<byte>)
    ensures FirstNewline(s) == -1 <==> Newlines(s) == 0
  {
    FirstNewlineIs(s, FirstNewline(s));
    if Newlines(s) != 0 {
      assert DELIMITER in multiset(s);
      assert DELIMITER in s;
    } else {
      assert DELIMITER !in multiset(s);
      assert forall k :: 0 <= k < |s| ==> s[k] in multiset(s);
    }
  }

  /** A line holds exactly one newline, as its last byte. */
  predicate IsLine(s: seq<byte>) {
    |s| > 0 && FirstNewline(s) == |s| - 1
  }

  lemma LineHasOneNewline(s: seq<byte>)
    ensures IsLine(s) <==> |s| > 0 && s[|s| - 1] == DELIMITER && Newlines(s) == 1
  {
    if |s| > 0 && s[|s| - 1] == DELIMITER {
      var t := s[..|s| - 1];
      assert s == t + [DELIMITER];
      NewlinesConcat(t, [DELIMITER]);
      NoNewlineMeans(t);
      FirstNewlineIs([DELIMITER], 0);
      FirstNewlineConcat(t, [DELIMITER]);
    } else {
      FirstNewlineIs(s, |s| - 1);
    }
  }

  /** The first line of a stream that holds a newline, and what follows it. */
  lemma NextLine(s: seq<byte>) returns (line: seq<byte>, rest: seq<byte>)
    requires FirstNewline(s) != -1
    ensures line == s[..FirstNewline(s) + 1] && rest == s[FirstNewline(s) + 1..]
    ensures IsLine(line) && s == line + rest
    ensures Newlines(s) == 1 + Newlines(rest)
  {
    var d := FirstNewline(s);
    line, rest := s[..d + 1], s[d + 1..];
    FirstNewlineIs(s, d);
    FirstNewlineIs(line, d);
    LineHasOneNewline(line);
    NewlinesConcat(line, rest);
  }

  /** A stream that begins with a line is cut right after it. */
  lemma LineAhead(line: seq<byte>, s: seq<byte>)
    requires IsLine(line)
    ensures FirstNewline(line + s) == |line| - 1
    ensures (line + s)[..|line|] == line && (line + s)[|line|..] == s
  {
    FirstNewlineConcat(line, s);
  }

  /** The newline-terminated lines of s, in order. */
  function CompleteLines(s: seq<byte>): seq<seq<byte>>
    decreases |s|
  {
    var d := FirstNewline(s);
    if d == -1 then [] else [s[..d + 1]] + CompleteLines(s[d + 1..])
  }

  /** What follows the last newline of s. */
  function Rest(s: seq<byte>): seq<byte>
    decreases |s|
  {
    var d := FirstNewline(s);
    if d == -1 then s else Rest(s[d + 1..])
  }

  lemma LineFirst(line: seq<byte>, s: seq<byte>)
    requires IsLine(line)
    ensures CompleteLines(line + s) == [line] + CompleteLines(s)
    ensures Rest(line + s) == Rest(s)
  {
    LineAhead(line, s);
  }

  lemma {:induction false} CompleteLinesAreLines(s: seq<byte>)
    ensures forall i :: 0 <= i < |CompleteLines(s)| ==> IsLine(CompleteLines(s)[i])
    ensures |CompleteLines(s)| == Newlines(s)
    ensures FirstNewline(Rest(s)) == -1
    decreases |s|
  {
    if FirstNewline(s) == -1 {
      NoNewlineMeans(s);
    } else {
      var line, rest := NextLine(s);
      CompleteLinesAreLines(rest);
    }
  }

  function Flatten(lines: seq<seq<byte>>): seq<byte> {
    if lines == [] then [] else lines[0] + Flatten(lines[1..])
  }

  lemma FlattenCons(line: seq<byte>, lines: seq<seq<byte>>)
    ensures Flatten([line] + lines) == line + Flatten(lines)
  {
    assert ([line] + lines)[1..] == lines;
  }

  lemma {:induction false} FlattenMore(lines: seq<seq<byte>>, line: seq<byte>)
    ensures Flatten(lines + [line]) == Flatten(lines) + line
  {
    if lines == [] {
      assert [line][1..] == [];
    } else {
      assert (lines + [line])[1..] == lines[1..] + [line];
      FlattenMore(lines[1..], line);
    }
  }

  lemma ConcatAssociates<T>(a: seq<T>, b: seq<T>, c: seq<T>)
    ensures (a + b) + c == a + (b + c)
  {
  }

  /** Cutting a stream into lines loses nothing. */
  lemma {:induction false} LinesAreTheStream(s: seq<byte>)
    ensures Flatten(CompleteLines(s)) + Rest(s) == s
    decreases |s|
  {
    if FirstNewline(s) != -1 {
      var line, rest := NextLine(s);
      LinesAreTheStream(rest);
      FlattenCons(line, CompleteLines(rest));
      ConcatAssociates(line, Flatten(CompleteLines(rest)), Rest(rest));
    }
  }

  /** A stream that arrives in two pieces: the unfinished tail of the first is carried over. */
  lemma {:induction false} LinesAppend(a: seq<byte>, b: seq<byte>)
    ensures CompleteLines(a + b) == CompleteLines(a) + CompleteLines(Rest(a) + b)
    ensures Rest(a + b) == Rest(Rest(a) + b)
    decreases |a|
  {
    if FirstNewline(a) != -1 {
      var line, rest := NextLine(a);
      assert a + b == line + (rest + b);
      LineFirst(line, rest);
      LineFirst(line, rest + b);
      LinesAppend(rest, b);
    }
  }

  lemma TwoLinesFirst(a: seq<byte>, b: seq<byte>, more: seq<byte>)
    requires IsLine(a) && IsLine(b)
    ensures CompleteLines(a + (b + more)) == [a, b] + CompleteLines(more)
  {
    LineFirst(a, b + more);
    LineFirst(b, more);
  }

  /** Three lines, one after the other, are the lines of what they make up. */
  lemma LinesOfThree(a: seq<byte>, b: seq<byte>, c: seq<byte>)
    requires IsLine(a) && IsLine(b) && IsLine(c)
    ensures Flatten([a, b, c]) == a + (b + c)
    ensures CompleteLines(a + (b + c)) == [a, b, c] && Rest(a + (b + c)) == []
  {
    LineFirst(a, b + c);
    LineFirst(b, c);
    LineFirst(c, []);
    assert c + [] == c;
    FlattenCons(c, []);
    FlattenCons(b, [c]);
    FlattenCons(a, [b, c]);
    assert [c] + [] == [c] && [b] + [c] == [b, c] && [a] + [b, c] == [a, b, c];
  }

  function LastN<T>(n: nat, xs: seq<T>): (r: seq<T>)
    ensures |r| == if |xs| <= n then |xs| else n
  {
    if |xs| <= n then xs else xs[|xs| - n..]
  }

  /** Keeping the last n after every addition is keeping the last n at the end. */
  lemma LastNAbsorbs<T>(n: nat, xs: seq<T>, a: seq<T>, b: seq<T>)
    ensures LastN(n, LastN(n, xs + a) + b) == LastN(n, xs + (a + b))
  {
    assert xs + (a + b) == (xs + a) + b;
    if |xs + a| > n {
      var k := |xs + a| - n;
      assert xs + a == (xs + a)[..k] + LastN(n, xs + a);
    }
  }

  // ----- sizes and prefix sums

  /** The sum of the first n numbers. */
  function SumTo(xs: seq<nat>, n: nat): nat
    requires n <= |xs|
  {
    if n == 0 then 0 else SumTo(xs, n - 1) + xs[n - 1]
  }

  function Sum(xs: seq<nat>): nat {
    SumTo(xs, |xs|)
  }

  lemma {:induction false} SumToPrefix(xs: seq<nat>, ys: seq<nat>, n: nat)
    requires n <= |xs| && n <= |ys| && (forall i :: 0 <= i < n ==> xs[i] == ys[i])
    ensures SumTo(xs, n) == SumTo(ys, n)
  {
    if n > 0 {
      SumToPrefix(xs, ys, n - 1);
    }
  }

  /** The first number and the others. */
  lemma {:induction false} SumToFirst(xs: seq<nat>, n: nat)
    requires 0 < n <= |xs|
    ensures SumTo(xs, n) == xs[0] + SumTo(xs[1..], n - 1)
  {
    if n > 1 {
      SumToFirst(xs, n - 1);
    }
  }

  lemma {:induction false} SumToMonotone(xs: seq<nat>, j: nat, k: nat)
    requires j <= k <= |xs|
    ensures SumTo(xs, j) <= SumTo(xs, k)
  {
    if j < k {
      SumToMonotone(xs, j, k - 1);
    }
  }

  function Sizes(lines: seq<seq<byte>>): seq<nat> {
    seq(|lines|, i requires 0 <= i < |lines| => |lines[i]|)
  }

  lemma {:induction false} FlattenSize(lines: seq<seq<byte>>)
    ensures |Flatten(lines)| == Sum(Sizes(lines))
  {
    if lines != [] {
      FlattenSize(lines[1..]);
      SumToFirst(Sizes(lines), |lines|);
      assert Sizes(lines)[1..] == Sizes(lines[1..]);
    }
  }

  lemma SliceBehind(a: seq<byte>, b: seq<byte>, start: nat, len: nat)
    requires start + len <= |b|
    ensures (a + b)[|a| + start..|a| + start + len] == b[start..start + len]
  {
    var slice := (a + b)[|a| + start..|a| + start + len];
    assert forall i :: 0 <= i < len ==> slice[i] == b[start + i];
  }

  /** Line k sits in the flat text right after the first k lines. */
  lemma {:induction false} FlattenAt(lines: seq<seq<byte>>, k: nat)
    requires k < |lines|
    ensures var start := SumTo(Sizes(lines), k);
            && start + |lines[k]| <= |Flatten(lines)|
            && Flatten(lines)[start..start + |lines[k]|] == lines[k]
    decreases k
  {
    if k > 0 {
      FlattenAt(lines[1..], k - 1);
      SumToFirst(Sizes(lines), k);
      assert Sizes(lines)[1..] == Sizes(lines[1..]);
      SliceBehind(lines[0], Flatten(lines[1..]), SumTo(Sizes(lines[1..]), k - 1), |lines[k]|);
    }
  }
}
