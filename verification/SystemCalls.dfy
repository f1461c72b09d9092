// What the server's system calls may do: transfer part of what was asked for,
// be interrupted, or fail. For each kind of call the outcomes come from a
// sequence that may be anything; past its end every call transfers all it was
// asked to.

module SystemCalls {

  const BUF_SIZE_UNIT: nat := 1024

  datatype Io = Partial(n: nat) | Interrupted | Failed

  /** A transfer of at least one and at most `most` bytes. */
  function Amount(n: nat, most: nat): (r: nat)
    requires most > 0
    ensures 1 <= r <= most && (1 <= n <= most ==> r == n)
  {
    if n == 0 then 1 else if n < most then n else most
  }

  /** Whether the caller goes on after an outcome: some calls are made again
      when they were interrupted. */
  predicate Through(o: Io, retried: bool) {
    o.Partial? || (retried && o == Interrupted)
  }

  predicate AllThrough(os: seq<Io>, from: nat, to: nat, retried: bool) {
    from <= to <= |os| && forall k :: from <= k < to ==> Through(os[k], retried)
  }

  /** Only the last of the calls made may have ended the caller's work. */
  predicate OnlyLast(os: seq<Io>, from: nat, to: nat, retried: bool) {
    from <= to <= |os| && forall k :: from <= k < to - 1 ==> Through(os[k], retried)
  }

  lemma ThroughMore(os: seq<Io>, a: nat, b: nat, c: nat, retried: bool)
    requires AllThrough(os, a, b, retried) && OnlyLast(os, b, c, retried)
    ensures OnlyLast(os, a, c, retried)
    ensures AllThrough(os, a, c, retried) <==> AllThrough(os, b, c, retried)
  {
  }

  /** How many bytes a call can transfer. */
  function Bytes(o: Io): nat {
    match o
    case Partial(n) => if n == 0 then 1 else n
    case _ => 0
  }

  /** How many bytes the first n calls can transfer. */
  function Capacity(os: seq<Io>, n: nat): nat
    requires n <= |os|
  {
    if n == 0 then 0 else Capacity(os, n - 1) + Bytes(os[n - 1])
  }

  /** Calls that had to transfer `most` bytes: no more of them than needed, and
      enough unless one ended the work; so many bytes were transferred. */
  ghost predicate Transfers(os: seq<Io>, from: nat, to: nat, most: nat, ok: bool, moved: nat) {
    && from <= to <= |os|
    && (to > from ==> Capacity(os, to - 1) - Capacity(os, from) < most)
    && (ok ==> moved == most && (to == |os| || Capacity(os, to) - Capacity(os, from) >= most))
    && (!ok ==> moved == Capacity(os, to) - Capacity(os, from) < most)
  }

  /** In the middle of a transfer: every call so far was got through, and as
      much was done as they can have transferred, or all of it. */
  ghost predicate Underway(os: seq<Io>, from: nat, to: nat, retried: bool, most: nat, done: nat) {
    && AllThrough(os, from, to, retried) && done <= most
    && (to > from ==> Capacity(os, to - 1) - Capacity(os, from) < most)
    && (done < most ==> done == Capacity(os, to) - Capacity(os, from))
    && (done == most ==> to == |os| || Capacity(os, to) - Capacity(os, from) >= most)
  }

  /** A transfer that is over. */
  ghost predicate Over(os: seq<Io>, from: nat, to: nat, retried: bool, most: nat, ok: bool, moved: nat) {
    && OnlyLast(os, from, to, retried) && (ok <==> AllThrough(os, from, to, retried))
    && Transfers(os, from, to, most, ok, moved)
  }

  /** What the next call does, asked to transfer what is left. */
  ghost predicate Called(os: seq<Io>, to: nat, left: nat, o: Io, next: nat, count: nat)
    requires to <= |os| && left > 0
  {
    if to < |os| then o == os[to] && next == to + 1 && count == if o.Partial? then Amount(o.n, left) else 0
    else o == Partial(left) && next == to && count == left
  }

  method NextCall(os: seq<Io>, to: nat, left: nat) returns (o: Io, next: nat, count: nat)
    requires to <= |os| && left > 0
    ensures Called(os, to, left, o, next, count)
    ensures to <= next <= |os| && (o.Partial? || to < next) && (o.Partial? ==> 1 <= count <= left)
  {
    if to < |os| {
      o, next, count := os[to], to + 1, 0;
      if o.Partial? {
        count := Amount(o.n, left);
      }
    } else {
      o, next, count := Partial(left), to, left;
    }
  }

  lemma CallMade(os: seq<Io>, from: nat, to: nat, retried: bool, most: nat, done: nat, left: nat,
                 o: Io, next: nat, count: nat)
    returns (done': nat)
    requires Underway(os, from, to, retried, most, done) && left == most - done > 0
    requires Called(os, to, left, o, next, count)
    ensures done' == done + count <= most && (!o.Partial? ==> count == 0)
    ensures if Through(o, retried) then Underway(os, from, next, retried, most, done')
            else Over(os, from, next, retried, most, false, done)
  {
    done' := done + count;
  }

  lemma TransferDone(os: seq<Io>, from: nat, to: nat, retried: bool, most: nat, done: nat)
    requires Underway(os, from, to, retried, most, done) && done == most
    ensures Over(os, from, to, retried, most, true, done)
  {
  }

  /** The outcomes of the calls made for packets, one sequence for each kind. */
  datatype Calls = Calls(open: seq<Io>, write: seq<Io>, read: seq<Io>, send: seq<Io>)

  /** How many outcomes of each kind were used. */
  datatype Used = Used(open: nat, write: nat, read: nat, send: nat)

  const NONE_USED := Used(0, 0, 0, 0)

  /** Every call was got through; interrupted writes and reads are retried. */
  predicate Went(calls: Calls, from: Used, to: Used) {
    && AllThrough(calls.open, from.open, to.open, false)
    && AllThrough(calls.write, from.write, to.write, true)
    && AllThrough(calls.read, from.read, to.read, true)
    && AllThrough(calls.send, from.send, to.send, false)
  }

  predicate AtMostLast(calls: Calls, from: Used, to: Used) {
    && OnlyLast(calls.open, from.open, to.open, false)
    && OnlyLast(calls.write, from.write, to.write, true)
    && OnlyLast(calls.read, from.read, to.read, true)
    && OnlyLast(calls.send, from.send, to.send, false)
  }

  predicate Within(calls: Calls, u: Used) {
    u.open <= |calls.open| && u.write <= |calls.write| && u.read <= |calls.read| && u.send <= |calls.send|
  }

  /** What was done took calls: each packet is opened for, what was stored was
      written, and what was sent back was read and sent. Only when the outcomes
      of a kind are used up may more have been done than they tell. */
  predicate MadeFor(calls: Calls, from: Used, to: Used, packets: nat, echoed: nat, stored: nat, replied: nat)
    requires Within(calls, from) && Within(calls, to)
  {
    && to.open == (if from.open + packets <= |calls.open| then from.open + packets else |calls.open|)
    && (to.write < |calls.write| ==> stored <= Capacity(calls.write, to.write) - Capacity(calls.write, from.write))
    && (to.read < |calls.read| ==> echoed <= to.read - from.read && replied <= BUF_SIZE_UNIT * (to.read - from.read))
    && (to.send < |calls.send| ==> replied <= Capacity(calls.send, to.send) - Capacity(calls.send, from.send))
  }

  lemma MadeTogether(calls: Calls, a: Used, b: Used, c: Used, o1: nat, e1: nat, s1: nat, r1: nat,
                     o2: nat, e2: nat, s2: nat, r2: nat)
    requires Went(calls, a, b) && AtMostLast(calls, b, c)
    requires MadeFor(calls, a, b, o1, e1, s1, r1) && MadeFor(calls, b, c, o2, e2, s2, r2)
    ensures MadeFor(calls, a, c, o1 + o2, e1 + e2, s1 + s2, r1 + r2)
  {
  }

  /** Calls after calls that were all got through. */
  lemma GoesOn(calls: Calls, a: Used, b: Used, c: Used)
    requires Went(calls, a, b)
    ensures AtMostLast(calls, b, c) ==> AtMostLast(calls, a, c)
    ensures AtMostLast(calls, b, c) ==> (Went(calls, a, c) <==> Went(calls, b, c))
  {
  }
}
