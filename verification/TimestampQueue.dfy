// The timestamp queue of the file-backed server (server/aesdsocket.c): eight
// slots, filled by the alarm handler and drained by whoever writes the file.
// The handler runs a whole enqueue at a time, but may do so between any two
// statements of a running dequeue.

module TimestampQueue {

  const CIRCULAR_BUF_DEPTH: nat := 8

  type Stamp = string

  datatype Queue = Queue(wptr: nat, rptr: nat, empty: bool, full: bool, slots: seq<Stamp>)

  /** (ptr + 1) & (CIRCULAR_BUF_DEPTH - 1) on 32-bit words. */
  function NextPtr(ptr: nat): nat
    requires ptr < 0xFFFF_FFFF
  {
    (((ptr as bv32) + 1) & 7) as nat
  }

  lemma NextPtrIsModulo(ptr: nat)
    requires ptr < CIRCULAR_BUF_DEPTH
    ensures NextPtr(ptr) == (ptr + 1) % CIRCULAR_BUF_DEPTH == Wrap(ptr + 1)
  {
    assert ptr == 0 || ptr == 1 || ptr == 2 || ptr == 3 || ptr == 4 || ptr == 5 || ptr == 6 || ptr == 7;
  }

  function Wrap(k: nat): nat {
    if k < CIRCULAR_BUF_DEPTH then k else k - CIRCULAR_BUF_DEPTH
  }

  predicate Shape(q: Queue) {
    q.wptr < CIRCULAR_BUF_DEPTH && q.rptr < CIRCULAR_BUF_DEPTH && |q.slots| == CIRCULAR_BUF_DEPTH
  }

  // ----- the two operations, statement by statement

  datatype Enqueued = Enqueued(q: Queue, accepted: seq<bool>)

  function Enqueue(q: Queue, data: Stamp): (r: Enqueued)
    requires Shape(q)
    ensures Shape(r.q)
  {
    if q.full then Enqueued(q, [false])
    else
      var w := Wrap(q.wptr + 1);
      Enqueued(Queue(w, q.rptr, false, w == q.rptr, q.slots[q.wptr := data]), [true])
  }

  /** The handler, run once for each datum. */
  function EnqueueAll(q: Queue, data: seq<Stamp>): (r: Enqueued)
    requires Shape(q)
    ensures Shape(r.q) && |r.accepted| == |data|
    decreases |data|
  {
    if data == [] then Enqueued(q, [])
    else
      var first := Enqueue(q, data[0]);
      var rest := EnqueueAll(first.q, data[1..]);
      Enqueued(rest.q, first.accepted + rest.accepted)
  }

  function AdvanceRead(q: Queue): (r: Queue)
    requires Shape(q)
    ensures Shape(r)
  {
    q.(rptr := Wrap(q.rptr + 1))
  }

  /** When the handler runs during a dequeue that found data: before the datum
      is copied, after that, after the read pointer moved, after the full flag
      was cleared, and between the last test and the setting of the empty flag. */
  datatype Interrupts = Interrupts(
    beforeCopy: seq<Stamp>, afterCopy: seq<Stamp>, afterAdvance: seq<Stamp>,
    afterClear: seq<Stamp>, afterTest: seq<Stamp>)

  const NO_INTERRUPTS := Interrupts([], [], [], [], [])

  /** The end of a dequeue, from the cleared full flag on. */
  function Finish(q: Queue, i: Interrupts): Enqueued
    requires Shape(q)
  {
    var q4 := EnqueueAll(q, i.afterClear);
    var q5 := EnqueueAll(q4.q, i.afterTest);
    Enqueued(if q4.q.wptr == q4.q.rptr then q5.q.(empty := true) else q5.q, q4.accepted + q5.accepted)
  }

  datatype Dequeued = Refused | Dequeued(q: Queue, taken: Stamp, accepted: seq<bool>)

  function Dequeue(q: Queue, i: Interrupts): Dequeued
    requires Shape(q)
  {
    if q.empty then Refused
    else
      var q1 := EnqueueAll(q, i.beforeCopy);
      var taken := q1.q.slots[q1.q.rptr];
      var q2 := EnqueueAll(q1.q, i.afterCopy);
      var q3 := EnqueueAll(AdvanceRead(q2.q), i.afterAdvance);
      var end := Finish(q3.q.(full := false), i);
      Dequeued(end.q, taken, q1.accepted + q2.accepted + q3.accepted + end.accepted)
  }

  // ----- the bounded queue it stands for

  function Held(q: Queue): nat
    requires Shape(q)
  {
    if q.full then CIRCULAR_BUF_DEPTH
    else if q.wptr >= q.rptr then q.wptr - q.rptr
    else q.wptr + CIRCULAR_BUF_DEPTH - q.rptr
  }

  function Contents(q: Queue): (items: seq<Stamp>)
    requires Shape(q)
  {
    seq(Held(q), i requires 0 <= i < Held(q) => q.slots[Wrap(q.rptr + i)])
  }

  /** The flags say exactly whether the queue is full or empty. */
  predicate Exact(q: Queue) {
    Shape(q) && (q.full ==> q.wptr == q.rptr) && (q.empty <==> q.wptr == q.rptr && !q.full)
  }

  datatype Fifo = Fifo(items: seq<Stamp>, accepted: seq<bool>)

  function Offer(items: seq<Stamp>, data: seq<Stamp>): (r: Fifo)
    ensures items <= r.items
    decreases |data|
  {
    if data == [] then Fifo(items, [])
    else if |items| >= CIRCULAR_BUF_DEPTH then Fifo(items, [false] + Offer(items, data[1..]).accepted)
    else
      var rest := Offer(items + [data[0]], data[1..]);
      Fifo(rest.items, [true] + rest.accepted)
  }

  lemma AppendNext(items: seq<Stamp>, data: seq<Stamp>, k: nat)
    requires k < |data|
    ensures (items + [data[0]]) + data[1..][..k] == items + data[..k + 1]
  {
  }

  /** As many of the offers are accepted as there is room for, the first ones. */
  lemma {:induction false} OfferIs(items: seq<Stamp>, data: seq<Stamp>)
    requires |items| <= CIRCULAR_BUF_DEPTH
    ensures var r, room := Offer(items, data), CIRCULAR_BUF_DEPTH - |items|;
            && r.items == items + data[..Min(room, |data|)] && |r.accepted| == |data|
            && forall j :: 0 <= j < |data| ==> r.accepted[j] == (j < room)
    decreases |data|
  {
    if data != [] {
      if |items| == CIRCULAR_BUF_DEPTH {
        OfferIs(items, data[1..]);
      } else {
        OfferIs(items + [data[0]], data[1..]);
        AppendNext(items, data, Min(CIRCULAR_BUF_DEPTH - |items|, |data|) - 1);
      }
    }
  }

  lemma EnqueueIsOffer(q: Queue, x: Stamp)
    requires Exact(q)
    ensures var r := Enqueue(q, x);
            && Exact(r.q) && r.q.rptr == q.rptr
            && r.accepted == [Held(q) < CIRCULAR_BUF_DEPTH]
            && Contents(r.q) == Contents(q) + if Held(q) < CIRCULAR_BUF_DEPTH then [x] else []
  {
    var r := Enqueue(q, x).q;
    if q.full {
      assert Contents(q) + [] == Contents(q);
    } else {
      var h := Held(q);
      assert Held(r) == h + 1 && r.slots[Wrap(q.rptr + h)] == x;
      forall i | 0 <= i < h
        ensures Contents(r)[i] == Contents(q)[i]
      {
        assert Wrap(q.rptr + i) != q.wptr;
      }
      assert Contents(r) == Contents(q) + [x];
    }
  }

  /** Whole enqueues on an exact queue act as offers to a bounded queue. */
  lemma {:induction false} EnqueueAllIsOffer(q: Queue, data: seq<Stamp>)
    requires Exact(q)
    ensures var r := EnqueueAll(q, data); var f := Offer(Contents(q), data);
            Exact(r.q) && Contents(r.q) == f.items && r.accepted == f.accepted && r.q.rptr == q.rptr
    decreases |data|
  {
    if data != [] {
      var first := Enqueue(q, data[0]);
      EnqueueIsOffer(q, data[0]);
      assert Contents(q) + [] == Contents(q);
      EnqueueAllIsOffer(first.q, data[1..]);
    }
  }

  // ----- an interrupted dequeue

  function Count(accepted: seq<bool>): nat {
    multiset(accepted)[true]
  }

  lemma CountConcat(a: seq<bool>, b: seq<bool>)
    ensures Count(a + b) == Count(a) + Count(b)
  {
  }

  /** Free slots, as far as the pointers tell when the full flag is not set. */
  function Gap(q: Queue): nat
    requires Shape(q)
  {
    if q.wptr < q.rptr then q.rptr - q.wptr else q.rptr + CIRCULAR_BUF_DEPTH - q.wptr
  }

  function Min(a: nat, b: nat): nat {
    if a < b then a else b
  }

  lemma OneEnqueue(q: Queue, x: Stamp)
    requires Shape(q) && !q.full
    ensures var r := Enqueue(q, x);
            && r.q.rptr == q.rptr && r.q.wptr == Wrap(q.wptr + 1) && r.accepted == [true] && !r.q.empty
            && r.q.full == (Gap(q) == 1) && (Gap(q) > 1 ==> Gap(r.q) == Gap(q) - 1)
  {
  }

  /** How many of a burst of enqueues are accepted. */
  function Accepts(q: Queue, n: nat): nat
    requires Shape(q)
  {
    if q.full then 0 else Min(n, Gap(q))
  }

  /** What a burst of enqueues does to pointers and flags, whether or not the
      flags told the truth before. */
  lemma {:induction false} Burst(q: Queue, data: seq<Stamp>)
    requires Shape(q)
    ensures var r := EnqueueAll(q, data); var n := Accepts(q, |data|);
            && r.q.rptr == q.rptr && r.q.wptr == Wrap(q.wptr + n) && Count(r.accepted) == n
            && r.q.full == (q.full || n == Gap(q))
            && r.q.empty == (q.empty && n == 0)
    decreases |data|
  {
    if data != [] {
      var first, rest := Enqueue(q, data[0]), data[1..];
      Burst(first.q, rest);
      CountConcat(first.accepted, EnqueueAll(first.q, rest).accepted);
      if !q.full {
        OneEnqueue(q, data[0]);
        assert Accepts(q, |data|) == 1 + Accepts(first.q, |rest|);
      }
    }
  }

  /** The queue when the read pointer is about to move. */
  function AtAdvance(q: Queue, i: Interrupts): (r: Queue)
    requires Shape(q)
    ensures Shape(r)
  {
    EnqueueAll(EnqueueAll(q, i.beforeCopy).q, i.afterCopy).q
  }

  /** Interrupts that do no harm to a dequeue that moves the read pointer with
      m items held: until the last test the queue must not become full again,
      and once the test has found it drained nothing may arrive any more. A
      full queue refuses what comes before its full flag is cleared. */
  predicate Harmless(m: nat, i: Interrupts) {
    var left := m - 1 + (if m == CIRCULAR_BUF_DEPTH then 0 else |i.afterAdvance|) + |i.afterClear|;
    left < CIRCULAR_BUF_DEPTH && (left == 0 ==> i.afterTest == [])
  }

  /** The same, said before the dequeue: with so many items held, the enqueues
      that come first fill the queue up to 8 at most. */
  predicate HarmlessTo(held: nat, i: Interrupts) {
    Harmless(Min(CIRCULAR_BUF_DEPTH, held + |i.beforeCopy| + |i.afterCopy|), i)
  }

  /** The flags are exact afterwards, and every item is accounted for. */
  predicate Conserves(q: Queue, i: Interrupts)
    requires Shape(q) && !q.empty
  {
    var d := Dequeue(q, i);
    Exact(d.q) && Held(d.q) + 1 == Held(q) + Count(d.accepted)
  }

  lemma {:induction false} OfferCounts(items: seq<Stamp>, data: seq<Stamp>)
    requires |items| <= CIRCULAR_BUF_DEPTH
    ensures |Offer(items, data).items| == |items| + Count(Offer(items, data).accepted) <= CIRCULAR_BUF_DEPTH
    decreases |data|
  {
    if data != [] {
      var full := |items| == CIRCULAR_BUF_DEPTH;
      var items' := if full then items else items + [data[0]];
      OfferCounts(items', data[1..]);
      CountConcat([!full], Offer(items', data[1..]).accepted);
    }
  }

  lemma HeldAtAdvance(q: Queue, i: Interrupts)
    requires Exact(q) && !q.empty
    ensures var r := AtAdvance(q, i); var q1 := EnqueueAll(q, i.beforeCopy);
            && Exact(r) && !r.empty && Held(r) > 0
            && Held(r) == Held(q) + Count(q1.accepted) + Count(EnqueueAll(q1.q, i.afterCopy).accepted)
  {
    var q1 := EnqueueAll(q, i.beforeCopy).q;
    EnqueueAllIsOffer(q, i.beforeCopy);
    OfferCounts(Contents(q), i.beforeCopy);
    EnqueueAllIsOffer(q1, i.afterCopy);
    OfferCounts(Contents(q1), i.afterCopy);
  }

  lemma {:induction false} OfferFills(items: seq<Stamp>, data: seq<Stamp>)
    requires |items| <= CIRCULAR_BUF_DEPTH
    ensures |Offer(items, data).items| == Min(CIRCULAR_BUF_DEPTH, |items| + |data|)
    decreases |data|
  {
    if data != [] {
      OfferFills(if |items| == CIRCULAR_BUF_DEPTH then items else items + [data[0]], data[1..]);
    }
  }

  lemma EnqueuesFill(q: Queue, data: seq<Stamp>)
    requires Exact(q)
    ensures var r := EnqueueAll(q, data).q;
            Exact(r) && Held(r) == Min(CIRCULAR_BUF_DEPTH, Held(q) + |data|)
  {
    EnqueueAllIsOffer(q, data);
    OfferFills(Contents(q), data);
  }

  lemma FillsBeforeAdvance(q: Queue, i: Interrupts)
    requires Exact(q)
    ensures Held(AtAdvance(q, i)) == Min(CIRCULAR_BUF_DEPTH, Held(q) + |i.beforeCopy| + |i.afterCopy|)
  {
    EnqueuesFill(q, i.beforeCopy);
    EnqueuesFill(EnqueueAll(q, i.beforeCopy).q, i.afterCopy);
  }

  lemma FinishCounts(q: Queue, i: Interrupts)
    requires Shape(q)
    ensures var q4 := EnqueueAll(q, i.afterClear).q;
            Count(Finish(q, i).accepted) == Accepts(q, |i.afterClear|) + Accepts(q4, |i.afterTest|)
  {
    var q4 := EnqueueAll(q, i.afterClear);
    Burst(q, i.afterClear);
    Burst(q4.q, i.afterTest);
    CountConcat(q4.accepted, EnqueueAll(q4.q, i.afterTest).accepted);
  }

  /** If the queue becomes full in the meantime, or gets data after it was
      found drained, the flags end up wrong; otherwise nothing is invented. */
  lemma FullAgainHarms(q: Queue, i: Interrupts)
    requires Shape(q) && !q.full && |i.afterClear| >= Gap(q)
    ensures !Exact(Finish(q, i).q)
  {
    Burst(q, i.afterClear);
    Burst(EnqueueAll(q, i.afterClear).q, i.afterTest);
  }

  lemma FilledAfterTestHarms(q: Queue, i: Interrupts)
    requires Shape(q) && !q.full && Gap(q) == CIRCULAR_BUF_DEPTH && i.afterClear == [] && i.afterTest != []
    ensures !Exact(Finish(q, i).q)
  {
    Burst(q, i.afterTest);
  }

  lemma NothingInvented(q: Queue, i: Interrupts)
    requires Shape(q) && !q.full
    ensures var end := Finish(q, i);
            Exact(end.q) ==> Held(end.q) <= CIRCULAR_BUF_DEPTH - Gap(q) + Count(end.accepted)
  {
    Burst(q, i.afterClear);
    Burst(EnqueueAll(q, i.afterClear).q, i.afterTest);
    FinishCounts(q, i);
  }

  /** Harmful interrupts break the flags or lose items. */
  lemma HarmDoesNotConserve(r: Queue, i: Interrupts)
    requires Exact(r) && !r.empty && !Harmless(Held(r), i)
    ensures var q3 := EnqueueAll(AdvanceRead(r), i.afterAdvance); var end := Finish(q3.q.(full := false), i);
            Exact(end.q) ==> Held(end.q) + 1 < Held(r) + Count(q3.accepted) + Count(end.accepted)
  {
    var q2 := AdvanceRead(r);
    Burst(q2, i.afterAdvance);
    var q3 := EnqueueAll(q2, i.afterAdvance).q.(full := false);
    NothingInvented(q3, i);
    if |i.afterClear| >= Gap(q3) {
      FullAgainHarms(q3, i);
    } else if Gap(q3) == CIRCULAR_BUF_DEPTH && i.afterClear == [] && i.afterTest != [] {
      FilledAfterTestHarms(q3, i);
    }
  }

  // ----- harmless interrupts

  /** An empty flag that is not up to date yet makes no difference to the
      enqueues that follow. */
  function Fix(q: Queue): Queue {
    q.(empty := q.wptr == q.rptr && !q.full)
  }

  lemma FixIsInvisible(q: Queue, data: seq<Stamp>)
    requires Shape(q) && !q.full
    ensures EnqueueAll(q, data).accepted == EnqueueAll(Fix(q), data).accepted
    ensures Fix(EnqueueAll(q, data).q) == Fix(EnqueueAll(Fix(q), data).q)
  {
    if data != [] {
      assert Enqueue(q, data[0]) == Enqueue(Fix(q), data[0]);
    }
  }

  lemma AdvanceDropsOldest(q: Queue)
    requires Exact(q) && !q.empty
    ensures var r := Fix(AdvanceRead(q).(full := false));
            Exact(r) && Contents(r) == Contents(q)[1..] && q.slots[q.rptr] == Contents(q)[0]
  {
    var r := Fix(AdvanceRead(q).(full := false));
    assert Held(r) == Held(q) - 1 && Wrap(q.rptr + 0) == q.rptr;
    forall k | 0 <= k < Held(r)
      ensures Contents(r)[k] == Contents(q)[k + 1]
    {
      assert Wrap(r.rptr + k) == Wrap(q.rptr + (k + 1));
    }
  }

  lemma {:induction false} FullRefuses(q: Queue, data: seq<Stamp>, items: seq<Stamp>)
    requires Shape(q) && q.full && |items| >= CIRCULAR_BUF_DEPTH
    ensures EnqueueAll(q, data).q == q && Offer(items, data) == Fifo(items, EnqueueAll(q, data).accepted)
    decreases |data|
  {
    if data != [] {
      FullRefuses(q, data[1..], items);
    }
  }

  lemma FixFlags(q: Queue)
    requires Shape(q) && (q.full ==> q.wptr == q.rptr)
    ensures Exact(Fix(q)) && Contents(Fix(q)) == Contents(q)
    ensures (Held(q) == 0 <==> q.wptr == q.rptr && !q.full) && (Held(q) == CIRCULAR_BUF_DEPTH <==> q.full)
  {
  }

  /** Enqueues on a queue that may only have an old empty flag. */
  lemma StaleEnqueues(q: Queue, data: seq<Stamp>)
    requires Shape(q) && (q.full ==> q.wptr == q.rptr) && !q.empty
    ensures var r, f := EnqueueAll(q, data), Offer(Contents(q), data);
            && (r.q.full ==> r.q.wptr == r.q.rptr) && !r.q.empty && r.q.rptr == q.rptr
            && Contents(r.q) == f.items && r.accepted == f.accepted && (data != [] ==> Exact(r.q))
  {
    Burst(q, data);
    FixFlags(q);
    EnqueueAllIsOffer(Fix(q), data);
    if q.full {
      assert Fix(q) == q;
    } else {
      FixIsInvisible(q, data);
      FixFlags(EnqueueAll(q, data).q);
      if data != [] {
        assert Enqueue(q, data[0]) == Enqueue(Fix(q), data[0]);
      }
    }
  }

  /** From the cleared full flag on, the interrupts act as offers; the empty flag
      ends up set if the last test found the pointers equal, whatever is held. */
  lemma FinishOffers(q: Queue, i: Interrupts)
    requires Shape(q) && !q.full && !q.empty
    ensures var end := Finish(q, i);
            var f4 := Offer(Contents(q), i.afterClear); var f5 := Offer(f4.items, i.afterTest);
            && Contents(end.q) == f5.items && end.accepted == f4.accepted + f5.accepted
            && (end.q.full <==> |f5.items| == CIRCULAR_BUF_DEPTH) && (end.q.full ==> end.q.wptr == end.q.rptr)
            && (end.q.empty <==> |f4.items| == 0 || |f4.items| == CIRCULAR_BUF_DEPTH)
  {
    var q4 := EnqueueAll(q, i.afterClear).q;
    StaleEnqueues(q, i.afterClear);
    FixFlags(q4);
    StaleEnqueues(q4, i.afterTest);
    FixFlags(EnqueueAll(q4, i.afterTest).q);
  }

  /** What was taken, what was held when the last test was made, and the end. */
  datatype Outcome = Outcome(taken: Stamp, tested: seq<Stamp>, end: Fifo)

  /** The same dequeue on a bounded queue, with the enqueues before and after
      it: a full queue refuses whatever comes until its full flag is cleared. A
      lossy one that is filled between the moving of the read pointer and the
      clearing of the flag loses all it holds. */
  function Interrupted(items: seq<Stamp>, i: Interrupts, lossy: bool): (r: Outcome)
    requires items != []
  {
    var f1 := Offer(items, i.beforeCopy);
    var f2 := Offer(f1.items, i.afterCopy);
    var wasFull := |f2.items| >= CIRCULAR_BUF_DEPTH;
    var f3 := Offer(if wasFull then f2.items else f2.items[1..], i.afterAdvance);
    var lost := lossy && |f3.items| >= CIRCULAR_BUF_DEPTH;
    var left := if wasFull then f3.items[1..] else if lost then [] else f3.items;
    var f4 := Offer(left, i.afterClear);
    var f5 := Offer(f4.items, i.afterTest);
    var accepted := f1.accepted + f2.accepted + f3.accepted + (f4.accepted + f5.accepted);
    Outcome(f1.items[0], f4.items, Fifo(f5.items, accepted))
  }

  /** From the moved read pointer on. */
  lemma AdvanceOffers(r: Queue, i: Interrupts)
    requires Exact(r) && !r.empty
    ensures var q3 := EnqueueAll(AdvanceRead(r), i.afterAdvance);
            var wasFull := Held(r) >= CIRCULAR_BUF_DEPTH;
            var f3 := Offer(if wasFull then Contents(r) else Contents(r)[1..], i.afterAdvance);
            && q3.accepted == f3.accepted && !q3.q.empty
            && Contents(q3.q.(full := false))
            == if wasFull then f3.items[1..] else if |f3.items| >= CIRCULAR_BUF_DEPTH then [] else f3.items
  {
    AdvanceDropsOldest(r);
    var q2 := AdvanceRead(r);
    var q3 := EnqueueAll(q2, i.afterAdvance).q;
    if r.full {
      FullRefuses(q2, i.afterAdvance, Contents(r));
    } else {
      assert q2.(full := false) == q2;
      StaleEnqueues(q2, i.afterAdvance);
      FixFlags(q3);
    }
  }

  /** Until the read pointer moves, the interrupts act as offers. */
  lemma UpToAdvance(q: Queue, i: Interrupts)
    requires Exact(q) && !q.empty
    ensures var q1 := EnqueueAll(q, i.beforeCopy); var r := EnqueueAll(q1.q, i.afterCopy);
            var f1 := Offer(Contents(q), i.beforeCopy); var f2 := Offer(f1.items, i.afterCopy);
            && q1.accepted == f1.accepted && q1.q.slots[q1.q.rptr] == f1.items[0] == Contents(q)[0]
            && Exact(r.q) && !r.q.empty && Contents(r.q) == f2.items && r.accepted == f2.accepted
  {
    var q1 := EnqueueAll(q, i.beforeCopy).q;
    EnqueueAllIsOffer(q, i.beforeCopy);
    EnqueueAllIsOffer(q1, i.afterCopy);
    HeldAtAdvance(q, i);
    AdvanceDropsOldest(q1);
  }

  /** What a dequeue leaves behind, whatever the interrupts: the items of a lossy
      bounded queue, and an empty flag that is wrong when the last test found the
      queue full, or drained with more still to come. */
  lemma DequeueIsInterrupted(q: Queue, i: Interrupts)
    requires Exact(q) && !q.empty
    ensures var d, o := Dequeue(q, i), Interrupted(Contents(q), i, true);
            && d.taken == o.taken == Contents(q)[0] && Contents(d.q) == o.end.items && d.accepted == o.end.accepted
            && (d.q.full <==> |o.end.items| == CIRCULAR_BUF_DEPTH) && (d.q.full ==> d.q.wptr == d.q.rptr)
            && (d.q.empty <==> |o.tested| == 0 || |o.tested| == CIRCULAR_BUF_DEPTH)
  {
    UpToAdvance(q, i);
    var r := AtAdvance(q, i);
    AdvanceOffers(r, i);
    FinishOffers(EnqueueAll(AdvanceRead(r), i.afterAdvance).q.(full := false), i);
  }

  /** From the moved read pointer on, harmless interrupts act as offers to the
      bounded queue. */
  lemma HarmlessFinish(r: Queue, i: Interrupts)
    requires Exact(r) && !r.empty && Harmless(Held(r), i)
    ensures var q3 := EnqueueAll(AdvanceRead(r), i.afterAdvance); var end := Finish(q3.q.(full := false), i);
            var wasFull := Held(r) >= CIRCULAR_BUF_DEPTH;
            var f3 := Offer(if wasFull then Contents(r) else Contents(r)[1..], i.afterAdvance);
            var f4 := Offer(if wasFull then f3.items[1..] else f3.items, i.afterClear);
            var f5 := Offer(f4.items, i.afterTest);
            && Exact(end.q) && Contents(end.q) == f5.items
            && q3.accepted == f3.accepted && end.accepted == f4.accepted + f5.accepted
  {
    var q3 := EnqueueAll(AdvanceRead(r), i.afterAdvance).q.(full := false);
    AdvanceOffers(r, i);
    FinishOffers(q3, i);
    OfferFills(if r.full then Contents(r) else Contents(r)[1..], i.afterAdvance);
    OfferFills(Contents(q3), i.afterClear);
    FixFlags(Finish(q3, i).q);
  }

  lemma LinearisesAtAdvance(q: Queue, i: Interrupts)
    requires Exact(q) && !q.empty && Harmless(Held(AtAdvance(q, i)), i)
    ensures var d, o := Dequeue(q, i), Interrupted(Contents(q), i, false);
            && Exact(d.q) && d.taken == o.taken == Contents(q)[0]
            && Contents(d.q) == o.end.items && d.accepted == o.end.accepted
  {
    UpToAdvance(q, i);
    HarmlessFinish(AtAdvance(q, i), i);
  }

  /** Harmless interrupts: the dequeue takes the oldest item and linearises. */
  lemma HarmlessLinearises(q: Queue, i: Interrupts)
    requires Exact(q) && !q.empty && HarmlessTo(Held(q), i)
    ensures var d, o := Dequeue(q, i), Interrupted(Contents(q), i, false);
            && Exact(d.q) && d.taken == o.taken == Contents(q)[0]
            && Contents(d.q) == o.end.items && d.accepted == o.end.accepted
  {
    FillsBeforeAdvance(q, i);
    LinearisesAtAdvance(q, i);
  }

  // ----- nothing is reordered

  /** The items that were accepted. */
  function Kept(data: seq<Stamp>, accepted: seq<bool>): seq<Stamp>
    requires |data| == |accepted|
  {
    if data == [] then [] else (if accepted[0] then [data[0]] else []) + Kept(data[1..], accepted[1..])
  }

  lemma Associate(a: seq<Stamp>, b: seq<Stamp>, c: seq<Stamp>)
    ensures (a + b) + c == a + (b + c)
  {
  }

  lemma {:induction false} KeptConcat(d1: seq<Stamp>, a1: seq<bool>, d2: seq<Stamp>, a2: seq<bool>)
    requires |d1| == |a1| && |d2| == |a2|
    ensures Kept(d1 + d2, a1 + a2) == Kept(d1, a1) + Kept(d2, a2)
    decreases |d1|
  {
    if d1 == [] {
      assert d1 + d2 == d2 && a1 + a2 == a2;
    } else {
      KeptConcat(d1[1..], a1[1..], d2, a2);
      assert (d1 + d2)[1..] == d1[1..] + d2 && (a1 + a2)[1..] == a1[1..] + a2;
      Associate(if a1[0] then [d1[0]] else [], Kept(d1[1..], a1[1..]), Kept(d2, a2));
    }
  }

  lemma {:induction false} OfferKeeps(items: seq<Stamp>, data: seq<Stamp>)
    ensures var r := Offer(items, data);
            && |r.accepted| == |data| && r.items == items + Kept(data, r.accepted)
            && (|items| >= CIRCULAR_BUF_DEPTH ==> r.items == items)
    decreases |data|
  {
    if data == [] {
      assert items + [] == items;
    } else if |items| >= CIRCULAR_BUF_DEPTH {
      OfferKeeps(items, data[1..]);
      var more := Kept(data[1..], Offer(items, data[1..]).accepted);
      assert [] + more == more;
    } else {
      OfferKeeps(items + [data[0]], data[1..]);
      Associate(items, [data[0]], Kept(data[1..], Offer(items + [data[0]], data[1..]).accepted));
    }
  }

  /** What came during a dequeue, in order. */
  function Arrivals(i: Interrupts): seq<Stamp> {
    i.beforeCopy + i.afterCopy + i.afterAdvance + (i.afterClear + i.afterTest)
  }

  /** Taking the first of some items before or after k more are appended. */
  lemma FirstStays(x: Stamp, items: seq<Stamp>, left: seq<Stamp>, k3: seq<Stamp>, k4: seq<Stamp>, k5: seq<Stamp>)
    requires [x] + left == items + k3
    ensures [x] + ((left + k4) + k5) == items + (k3 + (k4 + k5))
  {
    Associate(left, k4, k5);
    Associate([x], left, k4 + k5);
    Associate(items, k3, k4 + k5);
  }

  lemma FirstOf(x: Stamp, items: seq<Stamp>, k1: seq<Stamp>, k2: seq<Stamp>, k3: seq<Stamp>)
    requires items != [] && items[0] == x
    ensures var all := (items + k1) + k2;
            all[0] == x && [x] + all[1..] == all && [x] + (all[1..] + k3) == all + k3
            && all + k3 == items + (k1 + k2 + k3) && [x] + (all + k3)[1..] == all + k3
  {
    assert (items + k1 + k2)[1..] + k3 == (items + k1 + k2 + k3)[1..];
  }

  /** On a bounded queue a dequeue and what comes meanwhile keep their order. */
  lemma InterruptedIsFifo(items: seq<Stamp>, i: Interrupts)
    requires items != []
    ensures var o := Interrupted(items, i, false);
            && |o.end.accepted| == |Arrivals(i)| && o.taken == items[0]
            && [o.taken] + o.end.items == items + Kept(Arrivals(i), o.end.accepted)
  {
    var f1 := Offer(items, i.beforeCopy);
    var f2 := Offer(f1.items, i.afterCopy);
    var wasFull := |f2.items| >= CIRCULAR_BUF_DEPTH;
    var before := if wasFull then f2.items else f2.items[1..];
    var f3 := Offer(before, i.afterAdvance);
    var left := if wasFull then f3.items[1..] else f3.items;
    var f4 := Offer(left, i.afterClear);
    var f5 := Offer(f4.items, i.afterTest);
    OfferKeeps(items, i.beforeCopy);
    OfferKeeps(f1.items, i.afterCopy);
    OfferKeeps(before, i.afterAdvance);
    OfferKeeps(left, i.afterClear);
    OfferKeeps(f4.items, i.afterTest);
    KeptConcat(i.beforeCopy, f1.accepted, i.afterCopy, f2.accepted);
    KeptConcat(i.beforeCopy + i.afterCopy, f1.accepted + f2.accepted, i.afterAdvance, f3.accepted);
    KeptConcat(i.afterClear, f4.accepted, i.afterTest, f5.accepted);
    KeptConcat(i.beforeCopy + i.afterCopy + i.afterAdvance, f1.accepted + f2.accepted + f3.accepted,
               i.afterClear + i.afterTest, f4.accepted + f5.accepted);
    var k1, k2 := Kept(i.beforeCopy, f1.accepted), Kept(i.afterCopy, f2.accepted);
    var k3, k4 := Kept(i.afterAdvance, f3.accepted), Kept(i.afterClear, f4.accepted);
    FirstOf(items[0], items, k1, k2, k3);
    FirstStays(items[0], items, left, k1 + k2 + k3, k4, Kept(i.afterTest, f5.accepted));
  }

  /** So harmless interrupts keep the order: what is taken and what is held
      afterwards is what was held and what was accepted meanwhile. */
  lemma HarmlessIsFifo(q: Queue, i: Interrupts)
    requires Exact(q) && !q.empty && HarmlessTo(Held(q), i)
    ensures var d := Dequeue(q, i);
            && |d.accepted| == |Arrivals(i)|
            && [d.taken] + Contents(d.q) == Contents(q) + Kept(Arrivals(i), d.accepted)
  {
    HarmlessLinearises(q, i);
    InterruptedIsFifo(Contents(q), i);
  }

  // ----- what is lost

  lemma DequeueCounts(q: Queue, i: Interrupts)
    requires Shape(q) && !q.empty
    ensures var d := Dequeue(q, i);
            var q1 := EnqueueAll(q, i.beforeCopy); var q2 := EnqueueAll(q1.q, i.afterCopy);
            var q3 := EnqueueAll(AdvanceRead(AtAdvance(q, i)), i.afterAdvance);
            var end := Finish(q3.q.(full := false), i);
            && d.q == end.q
            && Count(d.accepted) == Count(q1.accepted) + Count(q2.accepted) + Count(q3.accepted) + Count(end.accepted)
  {
    var q1 := EnqueueAll(q, i.beforeCopy);
    var q2 := EnqueueAll(q1.q, i.afterCopy);
    var q3 := EnqueueAll(AdvanceRead(q2.q), i.afterAdvance);
    CountConcat(q1.accepted, q2.accepted);
    CountConcat(q1.accepted + q2.accepted, q3.accepted);
    CountConcat(q1.accepted + q2.accepted + q3.accepted, Finish(q3.q.(full := false), i).accepted);
  }

  lemma HarmlessCounts(r: Queue, i: Interrupts)
    requires Exact(r) && !r.empty && Harmless(Held(r), i)
    ensures var q3 := EnqueueAll(AdvanceRead(r), i.afterAdvance); var end := Finish(q3.q.(full := false), i);
            Exact(end.q) && Held(end.q) + 1 == Held(r) + Count(q3.accepted) + Count(end.accepted)
  {
    HarmlessFinish(r, i);
    var wasFull := Held(r) >= CIRCULAR_BUF_DEPTH;
    var items := if wasFull then Contents(r) else Contents(r)[1..];
    var f3 := Offer(items, i.afterAdvance);
    OfferCounts(items, i.afterAdvance);
    var items' := if wasFull then f3.items[1..] else f3.items;
    var f4 := Offer(items', i.afterClear);
    OfferCounts(items', i.afterClear);
    OfferCounts(f4.items, i.afterTest);
    CountConcat(f4.accepted, Offer(f4.items, i.afterTest).accepted);
    if wasFull {
      FullRefuses(AdvanceRead(r), i.afterAdvance, items);
    }
  }

  lemma ConservesAtAdvance(q: Queue, i: Interrupts)
    requires Exact(q) && !q.empty
    ensures Conserves(q, i) <==> Harmless(Held(AtAdvance(q, i)), i)
  {
    HeldAtAdvance(q, i);
    DequeueCounts(q, i);
    var r := AtAdvance(q, i);
    if Harmless(Held(r), i) {
      HarmlessCounts(r, i);
    } else {
      HarmDoesNotConserve(r, i);
    }
  }

  /** An interrupted dequeue keeps the flags exact and every item accounted for
      exactly when the interrupts are harmless. */
  lemma ConservesIffHarmless(q: Queue, i: Interrupts)
    requires Exact(q) && !q.empty
    ensures Conserves(q, i) <==> HarmlessTo(Held(q), i)
  {
    FillsBeforeAdvance(q, i);
    ConservesAtAdvance(q, i);
  }

  /** On a full queue, one enqueue after the full flag was cleared is enough:
      both flags end up set, and from then on everything is refused. */
  lemma BothFlagsSet(q: Queue, x: Stamp, y: Stamp, later: Interrupts)
    requires Exact(q) && q.full
    ensures var d := Dequeue(q, Interrupts([], [], [], [x], []));
            && d.q.full && d.q.empty
            && Enqueue(d.q, y) == Enqueued(d.q, [false]) && Dequeue(d.q, later) == Refused
  {
    assert EnqueueAll(AdvanceRead(q), []).q == AdvanceRead(q);
    var q3 := AdvanceRead(q).(full := false);
    assert EnqueueAll(q3, [x]).q == Enqueue(q3, x).q;
  }

  /** With one item held, enqueues after the last test leave the empty flag set:
      what they brought is held but refused, until one more enqueue repairs the
      flag. Eight of them leave both flags set, and nothing repairs that. */
  lemma EmptyFlagLate(q: Queue, data: seq<Stamp>, later: Interrupts, y: Stamp)
    requires Exact(q) && Held(q) == 1 && data != []
    ensures var d := Dequeue(q, Interrupts([], [], [], [], data));
            && d.q.empty && (d.q.full <==> |data| >= CIRCULAR_BUF_DEPTH)
            && Contents(d.q) == data[..Min(CIRCULAR_BUF_DEPTH, |data|)]
            && Dequeue(d.q, later) == Refused
            && if d.q.full then Enqueue(d.q, y) == Enqueued(d.q, [false])
               else
                 var e := Enqueue(d.q, y);
                 Exact(e.q) && e.accepted == [true] && Contents(e.q) == data + [y]
  {
    var i := Interrupts([], [], [], [], data);
    var d := Dequeue(q, i);
    DequeueIsInterrupted(q, i);
    OffersAfterTest(Contents(q), data);
    LateRepair(d.q, later, y);
  }

  lemma OffersAfterTest(items: seq<Stamp>, data: seq<Stamp>)
    requires |items| == 1
    ensures var o := Interrupted(items, Interrupts([], [], [], [], data), true);
            && o.tested == [] && o.end.items == data[..Min(CIRCULAR_BUF_DEPTH, |data|)]
            && (|data| < CIRCULAR_BUF_DEPTH ==> o.end.items == data)
  {
    OfferIs([], data);
    assert [] + data[..Min(CIRCULAR_BUF_DEPTH, |data|)] == data[..Min(CIRCULAR_BUF_DEPTH, |data|)];
    assert Offer(items, []).items == items && items[1..] == [];
  }

  /** A dequeue goes by the empty flag, right or wrong. An enqueue puts a wrong
      empty flag right, unless the full flag is set. */
  lemma LateRepair(q: Queue, later: Interrupts, y: Stamp)
    requires Shape(q) && (q.full ==> q.wptr == q.rptr)
    ensures Dequeue(q, later) == Refused <==> q.empty
    ensures !q.full ==>
      var e := Enqueue(q, y);
      Exact(e.q) && e.accepted == [true] && Contents(e.q) == Contents(q) + [y]
    ensures q.full ==> Enqueue(q, y) == Enqueued(q, [false])
  {
    FixFlags(q);
    if !q.full {
      assert Enqueue(q, y) == Enqueue(Fix(q), y);
      EnqueueIsOffer(Fix(q), y);
    }
  }

  /** Filling the queue between the moving of the read pointer and the clearing
      of the full flag: all eight are lost, and the flags do not tell. */
  lemma AllLost(q: Queue, data: seq<Stamp>)
    requires Exact(q) && !q.empty && !q.full && Held(q) - 1 + |data| >= CIRCULAR_BUF_DEPTH
    ensures var d := Dequeue(q, Interrupts([], [], data, [], []));
            Exact(d.q) && Contents(d.q) == [] && Count(d.accepted) == CIRCULAR_BUF_DEPTH + 1 - Held(q)
  {
    var i := Interrupts([], [], data, [], []);
    DequeueIsInterrupted(q, i);
    OffersWhileMoving(Contents(q), data);
    FixFlags(Dequeue(q, i).q);
  }

  lemma OffersWhileMoving(items: seq<Stamp>, data: seq<Stamp>)
    requires 0 < |items| < CIRCULAR_BUF_DEPTH && |items| - 1 + |data| >= CIRCULAR_BUF_DEPTH
    ensures var o := Interrupted(items, Interrupts([], [], data, [], []), true);
            o.tested == [] == o.end.items && Count(o.end.accepted) == CIRCULAR_BUF_DEPTH + 1 - |items|
  {
    var f3 := Offer(items[1..], data);
    OfferFills(items[1..], data);
    OfferCounts(items[1..], data);
    assert [] + [] + f3.accepted + ([] + []) == f3.accepted;
  }

  // ----- whole operations

  datatype Op = Put(data: Stamp) | Take

  datatype Traffic = Traffic(q: Queue, accepted: seq<Stamp>, taken: seq<Stamp>)

  function Step(q: Queue, op: Op): (t: Traffic)
    requires Shape(q)
    ensures Shape(t.q)
  {
    match op
    case Put(x) =>
      var e := Enqueue(q, x);
      Traffic(e.q, if e.accepted == [true] then [x] else [], [])
    case Take =>
      var d := Dequeue(q, NO_INTERRUPTS);
      if d == Refused then Traffic(q, [], []) else Traffic(d.q, [], [d.taken])
  }

  function Run(q: Queue, ops: seq<Op>): (t: Traffic)
    requires Shape(q)
    ensures Shape(t.q)
    decreases |ops|
  {
    if ops == [] then Traffic(q, [], [])
    else
      var first := Step(q, ops[0]);
      var rest := Run(first.q, ops[1..]);
      Traffic(rest.q, first.accepted + rest.accepted, first.taken + rest.taken)
  }

  /** A whole enqueue is refused exactly when 8 are held, a whole dequeue
      exactly when none are; otherwise it takes the oldest. */
  lemma WholeOperations(q: Queue, x: Stamp)
    requires Exact(q)
    ensures Enqueue(q, x).accepted == [Held(q) < CIRCULAR_BUF_DEPTH] && Held(q) <= CIRCULAR_BUF_DEPTH
    ensures Dequeue(q, NO_INTERRUPTS) == Refused <==> Held(q) == 0
    ensures var d := Dequeue(q, NO_INTERRUPTS);
            d.Dequeued? ==> Exact(d.q) && Contents(q) == [d.taken] + Contents(d.q)
  {
    EnqueueIsOffer(q, x);
    if !q.empty {
      assert AtAdvance(q, NO_INTERRUPTS) == q;
      LinearisesAtAdvance(q, NO_INTERRUPTS);
    }
  }

  /** Only an enqueue on a queue of 8 and a dequeue on an empty one change
      nothing. */
  lemma StepIs(q: Queue, op: Op)
    requires Exact(q)
    ensures var t := Step(q, op); var items, room := Contents(q), Held(q) < CIRCULAR_BUF_DEPTH;
            && Exact(t.q)
            && t.accepted == (if op.Put? && room then [op.data] else [])
            && t.taken == (if op.Take? && items != [] then [items[0]] else [])
            && t.taken + Contents(t.q) == items + t.accepted
  {
    var x := if op.Put? then op.data else "";
    EnqueueIsOffer(q, x);
    WholeOperations(q, x);
    assert Contents(q) + [] == Contents(q) && [] + Contents(Step(q, op).q) == Contents(Step(q, op).q);
  }

  lemma TakenBefore(a: seq<Stamp>, b: seq<Stamp>, held: seq<Stamp>, mid: seq<Stamp>, start: seq<Stamp>,
                    c: seq<Stamp>, d: seq<Stamp>)
    requires b + held == mid + d && a + mid == start + c
    ensures (a + b) + held == start + (c + d)
  {
    Associate(a, b, held);
    Associate(a, mid, d);
    Associate(start, c, d);
  }

  /** Over every run, what was taken is what was held and accepted, in order,
      up to what is still held. */
  lemma {:induction false} FirstInFirstOut(q: Queue, ops: seq<Op>)
    requires Exact(q)
    ensures var t := Run(q, ops);
            Exact(t.q) && t.taken + Contents(t.q) == Contents(q) + t.accepted
    decreases |ops|
  {
    if ops != [] {
      var first := Step(q, ops[0]);
      var rest := Run(first.q, ops[1..]);
      StepIs(q, ops[0]);
      FirstInFirstOut(first.q, ops[1..]);
      TakenBefore(first.taken, rest.taken, Contents(rest.q), Contents(first.q), Contents(q),
                  first.accepted, rest.accepted);
    }
  }

  lemma {:induction false} RunThen(q: Queue, ops: seq<Op>, op: Op)
    requires Shape(q)
    ensures var t := Run(q, ops); var one := Step(t.q, op);
            Run(q, ops + [op]) == Traffic(one.q, t.accepted + one.accepted, t.taken + one.taken)
    decreases |ops|
  {
    if ops == [] {
      assert [] + [op] == [op] && [op][1..] == [];
    } else {
      var first := Step(q, ops[0]);
      var t := Run(first.q, ops[1..]);
      RunThen(first.q, ops[1..], op);
      assert (ops + [op])[1..] == ops[1..] + [op];
      Associate(first.accepted, t.accepted, Step(t.q, op).accepted);
      Associate(first.taken, t.taken, Step(t.q, op).taken);
    }
  }

  /** One more operation after a run: an enqueue is accepted unless 8 are held,
      and a dequeue takes the oldest of what is held, if there is any. */
  lemma RunGoesOn(q: Queue, ops: seq<Op>, op: Op)
    requires Exact(q)
    ensures var t, t' := Run(q, ops), Run(q, ops + [op]);
            var items, room := Contents(t.q), Held(t.q) < CIRCULAR_BUF_DEPTH;
            && t'.accepted == t.accepted + (if op.Put? && room then [op.data] else [])
            && t'.taken == t.taken + (if op.Take? && items != [] then [items[0]] else [])
  {
    FirstInFirstOut(q, ops);
    RunThen(q, ops, op);
    StepIs(Run(q, ops).q, op);
  }

  // ----- the queue itself

  class CircularBuf {
    var wptr: nat
    var rptr: nat
    var queueEmpty: bool
    var queueFull: bool
    const timeBuf: array<Stamp>

    ghost predicate Valid()
      reads this
    {
      timeBuf.Length == CIRCULAR_BUF_DEPTH && wptr < CIRCULAR_BUF_DEPTH && rptr < CIRCULAR_BUF_DEPTH
    }

    ghost function View(): (q: Queue)
      requires Valid()
      reads this, timeBuf
      ensures Shape(q)
    {
      Queue(wptr, rptr, queueEmpty, queueFull, timeBuf[..])
    }

    constructor ()
      ensures Valid() && fresh(timeBuf) && Exact(View()) && Contents(View()) == []
    {
      timeBuf := new Stamp[CIRCULAR_BUF_DEPTH];
      wptr, rptr, queueFull, queueEmpty := 0, 0, false, true;
    }

    method EnqueueData(data: Stamp) returns (ok: bool)
      requires Valid()
      modifies this, timeBuf
      ensures Valid() && Enqueued(View(), [ok]) == Enqueue(old(View()), data)
    {
      if queueFull {
        return false;
      }
      NextPtrIsModulo(wptr);
      timeBuf[wptr] := data;
      wptr := NextPtr(wptr);
      queueEmpty := false;
      if wptr == rptr {
        queueFull := true;
      }
      return true;
    }

    /** The handler, run once for each datum. */
    method Interrupt(data: seq<Stamp>) returns (accepted: seq<bool>)
      requires Valid()
      modifies this, timeBuf
      ensures Valid() && Enqueued(View(), accepted) == EnqueueAll(old(View()), data)
      decreases |data|
    {
      if data == [] {
        return [];
      }
      var first := EnqueueData(data[0]);
      var rest := Interrupt(data[1..]);
      accepted := [first] + rest;
    }

    /** A dequeue with the handler running between its statements. */
    method DequeueData(i: Interrupts) returns (ok: bool, buf: Stamp, accepted: seq<bool>)
      requires Valid()
      modifies this, timeBuf
      ensures Valid()
      ensures (if ok then Dequeued(View(), buf, accepted) else Refused) == Dequeue(old(View()), i)
      ensures !ok ==> View() == old(View())
    {
      if queueEmpty {
        return false, "", [];
      }
      var a1 := Interrupt(i.beforeCopy);
      buf := timeBuf[rptr];
      var a2 := Interrupt(i.afterCopy);
      ghost var q2 := View();
      NextPtrIsModulo(rptr);
      rptr := NextPtr(rptr);
      assert View() == AdvanceRead(q2);
      var a3 := Interrupt(i.afterAdvance);
      queueFull := false;
      var a4 := Interrupt(i.afterClear);
      var drained := wptr == rptr;
      var a5 := Interrupt(i.afterTest);
      if drained {
        queueEmpty := true;
      }
      return true, buf, a1 + a2 + a3 + (a4 + a5);
    }
  }
}
