// The intrusive tail queue of server/queue.h. A list head and a list entry
// have the same two-field layout, so both are one class here: `next` is
// tqh_first or tqe_next, and `prev` is tqh_last or tqe_prev. The source's
// "address of a next field" is the cell that has the field.

module TailQueue {

  class Cell {
    var next: Cell?
    var prev: Cell?

    constructor () {
      next, prev := null, null;
    }
  }

  /** The elements hang off the head in order: each element's prev is the cell
      whose next leads to it, and the head's is the final cell (or itself). */
  ghost predicate IsQueue(head: Cell, s: seq<Cell>)
    reads head, s
  {
    && (forall i {:trigger s[i]} :: 0 <= i < |s| ==> s[i] != head)
    && head.next == (if s == [] then null else s[0])
    && head.prev == (if s == [] then head else s[|s| - 1])
    && (forall i {:trigger s[i].next} :: 0 <= i < |s| ==> s[i].next == if i + 1 < |s| then s[i + 1] else null)
    && (forall i {:trigger s[i].prev} :: 0 <= i < |s| ==> s[i].prev == if i > 0 then s[i - 1] else head)
  }

  /** No element occurs twice: going back from two places at the same pace, the
      nearer one would meet the head while the other is still on an element. */
  lemma NoRepeats(head: Cell, s: seq<Cell>)
    requires IsQueue(head, s)
    ensures forall i, j :: 0 <= i < j < |s| ==> s[i] != s[j]
  {
    forall i, j | 0 <= i < j < |s|
      ensures s[i] != s[j]
    {
      NoRepeat(head, s, i, j);
    }
  }

  lemma {:induction false} NoRepeat(head: Cell, s: seq<Cell>, i: nat, j: nat)
    requires IsQueue(head, s) && i < j < |s|
    ensures s[i] != s[j]
    decreases i
  {
    assert s[j].prev == s[j - 1];
    if i > 0 {
      assert s[i].prev == s[i - 1];
      NoRepeat(head, s, i - 1, j - 1);
    } else {
      assert s[i].prev == head;
    }
  }

  ghost predicate Disjoint(head1: Cell, s1: seq<Cell>, head2: Cell, s2: seq<Cell>) {
    head1 != head2 && head1 !in s2 && head2 !in s1
    && forall i, j :: 0 <= i < |s1| && 0 <= j < |s2| ==> s1[i] != s2[j]
  }

  ghost function CellIfAny(c: Cell?): set<Cell> {
    if c == null then {} else {c}
  }

  // ----- the operations

  method Init(head: Cell)
    modifies head
    ensures IsQueue(head, [])
  {
    head.next := null;
    head.prev := head;
  }

  method InsertHead(head: Cell, elm: Cell, ghost s: seq<Cell>)
    requires IsQueue(head, s) && elm != head && elm !in s
    modifies head, elm, CellIfAny(head.next)
    ensures IsQueue(head, [elm] + s)
  {
    NoRepeats(head, s);
    elm.next := head.next;
    if elm.next != null {
      head.next.prev := elm;
    } else {
      head.prev := elm;
    }
    head.next := elm;
    elm.prev := head;
  }

  method InsertTail(head: Cell, elm: Cell, ghost s: seq<Cell>)
    requires IsQueue(head, s) && elm != head && elm !in s
    modifies head, elm, CellIfAny(head.prev)
    ensures IsQueue(head, s + [elm])
  {
    NoRepeats(head, s);
    elm.next := null;
    elm.prev := head.prev;
    head.prev.next := elm;
    head.prev := elm;
  }

  method InsertAfter(head: Cell, listelm: Cell, elm: Cell, ghost s: seq<Cell>, ghost i: nat)
    requires IsQueue(head, s) && elm != head && elm !in s && i < |s| && listelm == s[i]
    modifies head, listelm, elm, CellIfAny(listelm.next)
    ensures IsQueue(head, s[..i + 1] + [elm] + s[i + 1..])
    ensures i + 1 < |s| ==> head.prev == old(head.prev) && head.next == old(head.next)
  {
    NoRepeats(head, s);
    elm.next := listelm.next;
    if elm.next != null {
      elm.next.prev := elm;
    } else {
      head.prev := elm;
    }
    listelm.next := elm;
    elm.prev := listelm;
  }

  method InsertBefore(ghost head: Cell, listelm: Cell, elm: Cell, ghost s: seq<Cell>, ghost i: nat)
    requires IsQueue(head, s) && elm != head && elm !in s && i < |s| && listelm == s[i]
    modifies listelm, elm, CellIfAny(listelm.prev)
    ensures IsQueue(head, s[..i] + [elm] + s[i..])
  {
    NoRepeats(head, s);
    elm.prev := listelm.prev;
    elm.next := listelm;
    listelm.prev.next := elm;
    listelm.prev := elm;
  }

  method Remove(head: Cell, elm: Cell, ghost s: seq<Cell>, ghost i: nat)
    requires IsQueue(head, s) && i < |s| && elm == s[i]
    modifies CellIfAny(elm.prev), if elm.next != null then {elm.next} else {head}
    ensures IsQueue(head, s[..i] + s[i + 1..])
    ensures elm != head && elm !in s[..i] + s[i + 1..]
  {
    NoRepeats(head, s);
    if elm.next != null {
      elm.next.prev := elm.prev;
    } else {
      head.prev := elm.prev;
    }
    elm.prev.next := elm.next;
  }

  method Concat(head1: Cell, head2: Cell, ghost s1: seq<Cell>, ghost s2: seq<Cell>)
    requires IsQueue(head1, s1) && IsQueue(head2, s2)
    requires Disjoint(head1, s1, head2, s2)
    modifies head1, head2, CellIfAny(head1.prev), CellIfAny(head2.next)
    ensures IsQueue(head1, s1 + s2) && IsQueue(head2, [])
  {
    NoRepeats(head1, s1);
    NoRepeats(head2, s2);
    if head2.next != null {
      head1.prev.next := head2.next;
      head2.next.prev := head1.prev;
      head1.prev := head2.prev;
      Init(head2);
    }
  }

  method Swap(head1: Cell, head2: Cell, ghost s1: seq<Cell>, ghost s2: seq<Cell>)
    requires IsQueue(head1, s1) && IsQueue(head2, s2)
    requires Disjoint(head1, s1, head2, s2)
    modifies head1, head2, CellIfAny(head1.next), CellIfAny(head2.next)
    ensures IsQueue(head1, s2) && IsQueue(head2, s1)
  {
    NoRepeats(head1, s1);
    NoRepeats(head2, s2);
    var swapFirst, swapLast := head1.next, head1.prev;
    head1.next := head2.next;
    head1.prev := head2.prev;
    head2.next := swapFirst;
    head2.prev := swapLast;
    swapFirst := head1.next;
    if swapFirst != null {
      swapFirst.prev := head1;
    } else {
      head1.prev := head1;
    }
    swapFirst := head2.next;
    if swapFirst != null {
      swapFirst.prev := head2;
    } else {
      head2.prev := head2;
    }
  }

  // ----- reading from the far end, through an entry taken for a head

  method Last(head: Cell, ghost s: seq<Cell>) returns (r: Cell?)
    requires IsQueue(head, s)
    ensures r == if s == [] then null else s[|s| - 1]
  {
    r := head.prev.prev.next;
  }

  method Prev(ghost head: Cell, elm: Cell, ghost s: seq<Cell>, ghost i: nat) returns (r: Cell?)
    requires IsQueue(head, s) && i < |s| && elm == s[i]
    ensures r == if i == 0 then null else s[i - 1]
  {
    r := elm.prev.prev.next;
  }

  // ----- traversal

  /** The first n elements, last first. */
  ghost function Reversed(s: seq<Cell>, n: nat): seq<Cell>
    requires n <= |s|
  {
    if n == 0 then [] else [s[n - 1]] + Reversed(s, n - 1)
  }

  method Foreach(head: Cell, ghost s: seq<Cell>) returns (visited: seq<Cell>)
    requires IsQueue(head, s)
    ensures visited == s
  {
    visited := [];
    ghost var i := 0;
    var c := head.next;
    while c != null
      invariant i <= |s| && visited == s[..i] && c == if i < |s| then s[i] else null
      decreases |s| - i
    {
      visited := visited + [c];
      c := c.next;
      i := i + 1;
    }
  }

  /** Each element once, from the last to the first. */
  lemma {:induction false} ReversedIs(s: seq<Cell>, n: nat)
    requires n <= |s|
    ensures |Reversed(s, n)| == n && forall k :: 0 <= k < n ==> Reversed(s, n)[k] == s[n - 1 - k]
  {
    if n > 0 {
      ReversedIs(s, n - 1);
    }
  }

  lemma ReversedStep(s: seq<Cell>, i: nat, visited: seq<Cell>)
    requires 0 < i <= |s|
    ensures visited + [s[i - 1]] + Reversed(s, i - 1) == visited + Reversed(s, i)
  {
  }

  method ForeachReverse(head: Cell, ghost s: seq<Cell>) returns (visited: seq<Cell>)
    requires IsQueue(head, s)
    ensures visited == Reversed(s, |s|)
  {
    visited := [];
    ghost var i: nat := |s|;
    var c := Last(head, s);
    while c != null
      invariant i <= |s| && c == if i > 0 then s[i - 1] else null
      invariant visited + Reversed(s, i) == Reversed(s, |s|)
      decreases i
    {
      ReversedStep(s, i, visited);
      visited := visited + [c];
      c := Prev(head, c, s, i - 1);
      i := i - 1;
    }
  }

  // ----- removing while traversing

  function One<T(==)>(x: T, c: set<T>, inside: bool): seq<T> {
    if (x in c) == inside then [x] else []
  }

  /** Those of the first n elements that are inside (or outside) c, in order. */
  ghost function Filter<T>(s: seq<T>, n: nat, c: set<T>, inside: bool): seq<T>
    requires n <= |s|
  {
    if n == 0 then [] else Filter(s, n - 1, c, inside) + One(s[n - 1], c, inside)
  }

  /** The same, of the elements from i on. */
  ghost function FilterFrom<T>(s: seq<T>, i: nat, c: set<T>, inside: bool): seq<T>
    requires i <= |s|
    decreases |s| - i
  {
    if i == |s| then [] else One(s[i], c, inside) + FilterFrom(s, i + 1, c, inside)
  }

  lemma {:induction false} FilterMeets<T>(s: seq<T>, i: nat, c: set<T>, inside: bool)
    requires i <= |s|
    ensures Filter(s, i, c, inside) + FilterFrom(s, i, c, inside) == Filter(s, |s|, c, inside)
    decreases |s| - i
  {
    if i < |s| {
      FilterMeets(s, i + 1, c, inside);
    }
  }

  lemma FilterStep<T>(s: seq<T>, n: nat, c: set<T>, x: T)
    requires n < |s| && x == s[n]
    ensures Filter(s, n + 1, c, true) == Filter(s, n, c, true) + One(x, c, true)
    ensures Filter(s, n + 1, c, false) == Filter(s, n, c, false) + One(x, c, false)
  {
  }

  /** The two filters split the elements between them. */
  lemma {:induction false} FilterSizes<T>(s: seq<T>, n: nat, c: set<T>)
    requires n <= |s|
    ensures |Filter(s, n, c, true)| + |Filter(s, n, c, false)| == n
  {
    if n > 0 {
      FilterSizes(s, n - 1, c);
    }
  }

  lemma {:induction false} FilterSelects<T>(s: seq<T>, n: nat, c: set<T>, inside: bool, x: T)
    requires n <= |s|
    ensures x in Filter(s, n, c, inside) <==> x in s[..n] && (x in c) == inside
  {
    if n > 0 {
      FilterSelects(s, n - 1, c, inside, x);
      assert s[..n] == s[..n - 1] + [s[n - 1]];
    }
  }

  /** A freed cell's fields hold anything. */
  method Free(c: Cell)
    modifies c
  {
    c.next, c.prev := null, null;
  }

  method Discard(head: Cell, elm: Cell, ghost s: seq<Cell>, ghost i: nat)
    requires IsQueue(head, s) && i < |s| && elm == s[i]
    modifies head, s
    ensures IsQueue(head, s[..i] + s[i + 1..])
  {
    ghost var rest := s[..i] + s[i + 1..];
    Remove(head, elm, s, i);
    assert IsQueue(head, rest) && elm !in rest;
    Free(elm);
    assert IsQueue(head, rest);
  }

  /** A queue without element k, if that is a victim. */
  ghost function Purged(q: seq<Cell>, k: nat, victims: set<Cell>): seq<Cell>
    requires k < |q|
  {
    if q[k] in victims then q[..k] + q[k + 1..] else q
  }

  /** How far a traversal has come: what it kept, then what is ahead. */
  ghost predicate Midway(q: seq<Cell>, kept: seq<Cell>, rest: seq<Cell>) {
    q == kept + rest
  }

  lemma Advance(q: seq<Cell>, kept: seq<Cell>, rest: seq<Cell>, victims: set<Cell>) returns (q': seq<Cell>)
    requires Midway(q, kept, rest) && rest != []
    ensures |kept| < |q| && q[|kept|] == rest[0] && |q| == |kept| + |rest|
    ensures |rest| > 1 ==> q[|kept| + 1] == rest[1]
    ensures q' == (if rest[0] in victims then q[..|kept|] + q[|kept| + 1..] else q)
    ensures Midway(q', kept + One(rest[0], victims, false), rest[1..])
    ensures forall j :: 0 <= j < |q'| ==> q'[j] in q
  {
    q' := Purged(q, |kept|, victims);
  }

  ghost predicate Within(q: seq<Cell>, cells: set<Cell>) {
    forall j :: 0 <= j < |q| ==> q[j] in cells
  }

  /** One turn of the safe loop: the successor is fetched before the current
      element may be removed and freed. */
  method VisitSafe(head: Cell, c: Cell, victims: set<Cell>,
                   ghost q: seq<Cell>, ghost kept: seq<Cell>, ghost rest: seq<Cell>, ghost cells: set<Cell>)
    returns (next: Cell?, ghost q': seq<Cell>)
    requires Within(q, cells) && Midway(q, kept, rest) && rest != [] && c == rest[0] && IsQueue(head, q)
    modifies head, cells
    ensures next == if |rest| > 1 then rest[1] else null
    ensures IsQueue(head, q') && Midway(q', kept + One(c, victims, false), rest[1..]) && Within(q', cells)
  {
    q' := Advance(q, kept, rest, victims);
    assert q[|kept|].next == c.next;
    next := c.next;
    if c in victims {
      Discard(head, c, q, |kept|);
    }
  }

  /** A traversal of s that has visited so many elements, removed the victims
      among them and kept the others. */
  ghost predicate Progress(s: seq<Cell>, victims: set<Cell>, visited: seq<Cell>, removed: seq<Cell>, kept: seq<Cell>,
                           rest: seq<Cell>)
  {
    && |visited| <= |s| && Midway(s, visited, rest)
    && removed == Filter(s, |visited|, victims, true)
    && kept == Filter(s, |visited|, victims, false)
  }

  lemma ProgressStep(s: seq<Cell>, victims: set<Cell>, visited: seq<Cell>, removed: seq<Cell>, kept: seq<Cell>,
                     rest: seq<Cell>)
    requires Progress(s, victims, visited, removed, kept, rest) && rest != []
    ensures var c := rest[0];
            Progress(s, victims, visited + [c],
                     removed + One(c, victims, true), kept + One(c, victims, false), rest[1..])
  {
    FilterStep(s, |visited|, victims, rest[0]);
    assert |visited + [rest[0]]| == |visited| + 1;
  }

  lemma ProgressEnds(s: seq<Cell>, victims: set<Cell>, visited: seq<Cell>, removed: seq<Cell>, kept: seq<Cell>)
    requires Progress(s, victims, visited, removed, kept, [])
    ensures visited == s && removed == Filter(s, |s|, victims, true) && kept == Filter(s, |s|, victims, false)
  {
    assert visited + [] == visited;
  }

  method ForeachSafeRemove(head: Cell, victims: set<Cell>, ghost s: seq<Cell>)
    returns (visited: seq<Cell>, removed: seq<Cell>)
    requires IsQueue(head, s)
    modifies head, s
    ensures visited == s
    ensures removed == Filter(s, |s|, victims, true)
    ensures IsQueue(head, Filter(s, |s|, victims, false))
  {
    visited, removed := [], [];
    ghost var q, kept, rest, cells := s, [], s, set x | x in s;
    var c := head.next;
    while c != null
      invariant Progress(s, victims, visited, removed, kept, rest)
      invariant IsQueue(head, q) && Midway(q, kept, rest) && Within(q, cells)
      invariant c == if rest != [] then rest[0] else null
      decreases |rest|
    {
      var current: Cell := c;
      ProgressStep(s, victims, visited, removed, kept, rest);
      c, q := VisitSafe(head, current, victims, q, kept, rest, cells);
      visited, removed := visited + [current], removed + One(current, victims, true);
      kept, rest := kept + One(current, victims, false), rest[1..];
    }
    ProgressEnds(s, victims, visited, removed, kept);
    assert q == kept;
  }

  lemma TakeLess(s: seq<Cell>, i: nat)
    requires 0 < i <= |s|
    ensures s[..i][..i - 1] == s[..i - 1]
  {
  }

  lemma Retreat(q: seq<Cell>, rest: seq<Cell>, kept: seq<Cell>, victims: set<Cell>)
    requires Midway(q, rest, kept) && rest != []
    ensures var k := |rest| - 1;
            && q[k] == rest[k] && (k > 0 ==> q[k - 1] == rest[k - 1])
            && Midway(Purged(q, k, victims), rest[..k], One(rest[k], victims, false) + kept)
            && forall j :: 0 <= j < |Purged(q, k, victims)| ==> Purged(q, k, victims)[j] in q
  {
  }

  /** One turn from the far end. */
  method VisitReverseSafe(head: Cell, c: Cell, victims: set<Cell>,
                          ghost q: seq<Cell>, ghost rest: seq<Cell>, ghost kept: seq<Cell>, ghost cells: set<Cell>)
    returns (prev: Cell?, ghost q': seq<Cell>)
    requires Within(q, cells) && Midway(q, rest, kept) && rest != [] && c == rest[|rest| - 1] && IsQueue(head, q)
    modifies head, cells
    ensures prev == if |rest| > 1 then rest[|rest| - 2] else null
    ensures IsQueue(head, q') && Midway(q', rest[..|rest| - 1], One(c, victims, false) + kept) && Within(q', cells)
  {
    Retreat(q, rest, kept, victims);
    ghost var k := |rest| - 1;
    prev := Prev(head, c, q, k);
    q' := Purged(q, k, victims);
    if c in victims {
      Discard(head, c, q, k);
    }
  }

  /** The same from the far end: the elements of rest are still ahead. */
  ghost predicate ReverseProgress(s: seq<Cell>, victims: set<Cell>, visited: seq<Cell>, kept: seq<Cell>,
                                  rest: seq<Cell>)
  {
    && |rest| <= |s| && rest == s[..|rest|]
    && visited + Reversed(s, |rest|) == Reversed(s, |s|)
    && kept == FilterFrom(s, |rest|, victims, false)
  }

  lemma ReverseProgressStep(s: seq<Cell>, victims: set<Cell>, visited: seq<Cell>, kept: seq<Cell>, rest: seq<Cell>)
    requires ReverseProgress(s, victims, visited, kept, rest) && rest != []
    ensures var k := |rest| - 1;
            ReverseProgress(s, victims, visited + [rest[k]], One(rest[k], victims, false) + kept, rest[..k])
  {
    TakeLess(s, |rest|);
    ReversedStep(s, |rest|, visited);
  }

  method ForeachReverseSafeRemove(head: Cell, victims: set<Cell>, ghost s: seq<Cell>) returns (visited: seq<Cell>)
    requires IsQueue(head, s)
    modifies head, s
    ensures visited == Reversed(s, |s|)
    ensures IsQueue(head, Filter(s, |s|, victims, false))
  {
    visited := [];
    ghost var q, kept, rest, cells := s, [], s, set x | x in s;
    var c := Last(head, s);
    while c != null
      invariant ReverseProgress(s, victims, visited, kept, rest)
      invariant IsQueue(head, q) && Midway(q, rest, kept) && Within(q, cells)
      invariant c == if rest != [] then rest[|rest| - 1] else null
      decreases |rest|
    {
      var current: Cell := c;
      ReverseProgressStep(s, victims, visited, kept, rest);
      c, q := VisitReverseSafe(head, current, victims, q, rest, kept, cells);
      visited := visited + [current];
      kept, rest := One(current, victims, false) + kept, rest[..|rest| - 1];
    }
    AllVisited(s, visited, q, kept, victims);
  }

  lemma AllVisited(s: seq<Cell>, visited: seq<Cell>, q: seq<Cell>, kept: seq<Cell>, victims: set<Cell>)
    requires Midway(q, [], kept) && ReverseProgress(s, victims, visited, kept, [])
    ensures visited == Reversed(s, |s|) && q == Filter(s, |s|, victims, false)
  {
    FilterMeets(s, 0, victims, false);
    assert visited + [] == visited && [] + kept == kept;
  }
}
