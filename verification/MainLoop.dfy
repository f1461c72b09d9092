// The server's main loop (server/aesdsocket.c): accept a connection, start a
// worker for it, join and free the workers that have finished, and shut down
// once the signal was caught and no worker is left.

module MainLoop {
  import opened TailQueue

  // ----- joining the finished workers

  /** The join pass over the list of workers. `completed` are the workers whose
      flag was set when the pass came to them. */
  method JoinThreads(head: Cell, connectionCount: nat, completed: set<Cell>, ghost s: seq<Cell>)
    returns (count: nat, joined: seq<Cell>)
    requires IsQueue(head, s) && connectionCount == |s|
    modifies head, s
    ensures joined == Filter(s, |s|, completed, true)
    ensures IsQueue(head, Filter(s, |s|, completed, false)) && count == |Filter(s, |s|, completed, false)|
  {
    FilterSizes(s, |s|, completed);
    count, joined := connectionCount, [];
    if connectionCount > 0 {
      var visited;
      visited, joined := ForeachSafeRemove(head, completed, s);
      count := connectionCount - |joined|;
    }
  }

  // ----- every interleaving of accepts, completions and the signal

  type Thread = nat

  /** Where the main thread is: about to accept; entering the join state; in
      the middle of the join pass, with these workers still ahead; at the
      check after it; or gone. */
  datatype Place = Accepting | EnteringJoin | Visiting(todo: seq<Thread>) | Checking | ShutDown

  datatype State = State(
    place: Place, listed: seq<Thread>, connectionCount: int, created: seq<Thread>, joined: seq<Thread>,
    completed: set<Thread>, signalCaught: bool)

  datatype Event =
    | AcceptOk(thread: Thread) | AcceptFails
    | BeginPass | Visit | EndPass | Check
    | Completes(thread: Thread) | Signal

  predicate Enabled(s: State, e: Event) {
    match e
    case AcceptOk(t) => s.place == Accepting && t !in s.created
    case AcceptFails => s.place == Accepting
    case BeginPass => s.place == EnteringJoin
    case Visit => s.place.Visiting? && s.place.todo != []
    case EndPass => s.place == Visiting([])
    case Check => s.place == Checking
    case Completes(t) => t in s.created
    case Signal => true
  }

  function IndexOf(xs: seq<Thread>, x: Thread): (i: nat)
    ensures i <= |xs| && (x in xs ==> i < |xs| && xs[i] == x)
  {
    if xs == [] || xs[0] == x then 0 else 1 + IndexOf(xs[1..], x)
  }

  function Without(xs: seq<Thread>, x: Thread): seq<Thread> {
    var i := IndexOf(xs, x);
    if i < |xs| then xs[..i] + xs[i + 1..] else xs
  }

  function Apply(s: State, e: Event): State
    requires Enabled(s, e)
  {
    match e
    case AcceptOk(t) =>
      s.(place := EnteringJoin, created := s.created + [t],
         listed := s.listed + [t], connectionCount := s.connectionCount + 1)
    case AcceptFails => s.(place := EnteringJoin)
    case BeginPass => s.(place := Visiting(if s.connectionCount > 0 then s.listed else []))
    case Visit =>
      var t, ahead := s.place.todo[0], s.place.todo[1..];
      if t in s.completed then
        s.(place := Visiting(ahead), joined := s.joined + [t],
           listed := Without(s.listed, t), connectionCount := s.connectionCount - 1)
      else s.(place := Visiting(ahead))
    case EndPass => s.(place := Checking)
    case Check =>
      if !s.signalCaught then s.(place := Accepting)
      else if s.connectionCount == 0 then s.(place := ShutDown)
      else s.(place := EnteringJoin)
    case Completes(t) => s.(completed := s.completed + {t})
    case Signal => s.(signalCaught := true)
  }

  function Start(signalCaught: bool): State {
    State(if signalCaught then EnteringJoin else Accepting, [], 0, [], [], {}, signalCaught)
  }

  ghost predicate Reaches(s: State, events: seq<Event>, t: State)
    decreases |events|
  {
    if events == [] then s == t else Enabled(s, events[0]) && Reaches(Apply(s, events[0]), events[1..], t)
  }

  ghost predicate NoRepetition(xs: seq<Thread>) {
    forall x :: multiset(xs)[x] <= 1
  }

  predicate EndsWith(xs: seq<Thread>, end: seq<Thread>) {
    |end| <= |xs| && xs[|xs| - |end|..] == end
  }

  /** Every created thread is either listed or joined, and joined at most once,
      after it completed; the count is the length of the list; the main thread
      is gone only if the signal was caught and the list is empty. */
  ghost predicate Inv(s: State) {
    && s.connectionCount == |s.listed|
    && NoRepetition(s.created)
    && multiset(s.created) == multiset(s.joined) + multiset(s.listed)
    && (forall t :: t in s.joined ==> t in s.completed)
    && (forall t :: t in s.completed ==> t in s.created)
    && (s.place.Visiting? ==> EndsWith(s.listed, s.place.todo))
    && (s.place.ShutDown? ==> s.signalCaught && s.listed == [])
  }

  lemma {:induction false} IndexOfOnly(xs: seq<Thread>, i: nat)
    requires i < |xs| && multiset(xs)[xs[i]] <= 1
    ensures IndexOf(xs, xs[i]) == i
  {
    if i > 0 {
      var rest := xs[1..];
      assert xs == [xs[0]] + rest;
      assert rest[i - 1] in multiset(rest);
      IndexOfOnly(rest, i - 1);
    }
  }

  /** Removing the first worker ahead from a list that has it once. */
  lemma WithoutFirstAhead(listed: seq<Thread>, todo: seq<Thread>)
    requires EndsWith(listed, todo) && todo != [] && multiset(listed)[todo[0]] <= 1
    ensures var rest := Without(listed, todo[0]);
            && EndsWith(rest, todo[1..]) && |rest| == |listed| - 1
            && multiset(listed) == multiset(rest) + multiset{todo[0]}
  {
    var i := |listed| - |todo|;
    assert listed[i] == todo[0];
    IndexOfOnly(listed, i);
    assert listed == listed[..i] + [listed[i]] + listed[i + 1..];
  }

  lemma AcceptKeepsInv(s: State, t: Thread)
    requires Inv(s) && Enabled(s, AcceptOk(t))
    ensures Inv(Apply(s, AcceptOk(t)))
  {
    assert t !in multiset(s.created);
  }

  lemma JoinKeepsInv(s: State, t: Thread, rest: seq<Thread>, ahead: seq<Thread>)
    requires Inv(s) && t in s.completed && EndsWith(rest, ahead) && |rest| == |s.listed| - 1
    requires multiset(s.listed) == multiset(rest) + multiset{t}
    ensures Inv(s.(place := Visiting(ahead), joined := s.joined + [t],
                   listed := rest, connectionCount := s.connectionCount - 1))
  {
    assert multiset(s.joined + [t]) == multiset(s.joined) + multiset{t};
  }

  lemma VisitKeepsInv(s: State)
    requires Inv(s) && Enabled(s, Visit)
    ensures Inv(Apply(s, Visit))
  {
    var t := s.place.todo[0];
    assert s.listed[|s.listed| - |s.place.todo|..][0] == t;
    if t in s.completed {
      assert multiset(s.created)[t] == (multiset(s.joined) + multiset(s.listed))[t];
      WithoutFirstAhead(s.listed, s.place.todo);
      JoinKeepsInv(s, t, Without(s.listed, t), s.place.todo[1..]);
    }
  }

  lemma StepKeepsInv(s: State, e: Event)
    requires Inv(s) && Enabled(s, e)
    ensures Inv(Apply(s, e))
  {
    match e
    case AcceptOk(t) => AcceptKeepsInv(s, t);
    case Visit => VisitKeepsInv(s);
    case _ =>
  }

  lemma {:induction false} RunsKeepInv(s: State, events: seq<Event>, t: State)
    requires Inv(s) && Reaches(s, events, t)
    ensures Inv(t)
    decreases |events|
  {
    if events != [] {
      StepKeepsInv(s, events[0]);
      RunsKeepInv(Apply(s, events[0]), events[1..], t);
    }
  }

  // ----- the join pass, event by event, and on the list

  /** What can happen until a join pass has seen all its workers. */
  predicate InPass(e: Event) {
    e == Visit || e.Completes? || e == Signal
  }

  /** The workers whose flag was set when the pass came to them. */
  function Found(s: State, events: seq<Event>): set<Thread>
    decreases |events|
  {
    if events == [] || !Enabled(s, events[0]) then {}
    else
      var rest := Found(Apply(s, events[0]), events[1..]);
      if events[0] == Visit && s.place.todo[0] in s.completed then {s.place.todo[0]} + rest else rest
  }

  lemma Associate(a: seq<Thread>, b: seq<Thread>, c: seq<Thread>)
    ensures (a + b) + c == a + (b + c)
  {
  }

  lemma {:induction false} FilterFirst(xs: seq<Thread>, n: nat, all: set<Thread>, rest: set<Thread>, inside: bool)
    requires n < |xs| && forall i :: 1 <= i < |xs| ==> (xs[i] in all <==> xs[i] in rest)
    ensures Filter(xs, n + 1, all, inside) == One(xs[0], all, inside) + Filter(xs[1..], n, rest, inside)
  {
    if n > 0 {
      FilterFirst(xs, n - 1, all, rest, inside);
      assert xs[1..][n - 1] == xs[n];
      Associate(One(xs[0], all, inside), Filter(xs[1..], n - 1, rest, inside), One(xs[n], all, inside));
    }
  }

  /** The next worker of a pass is listed nowhere else. */
  lemma ListedOnce(s: State, kept: seq<Thread>, x: Thread, ahead: seq<Thread>)
    requires Inv(s) && s.listed == kept + ([x] + ahead)
    ensures x !in ahead && Without(s.listed, x) == kept + ahead
  {
    assert multiset(s.created)[x] == (multiset(s.joined) + multiset(s.listed))[x];
    assert multiset(s.listed) == multiset(kept) + multiset{x} + multiset(ahead);
    assert x in ahead <==> x in multiset(ahead);
    assert s.listed[|kept|] == x;
    IndexOfOnly(s.listed, |kept|);
  }

  /** The fields after a visit. */
  lemma VisitStep(s: State, kept: seq<Thread>, x: Thread, ahead: seq<Thread>)
    requires s.place == Visiting([x] + ahead) && s.listed == kept + ([x] + ahead)
    requires Without(s.listed, x) == kept + ahead
    ensures var s1 := Apply(s, Visit);
            && s1.place == Visiting(ahead)
            && s1.listed == (kept + One(x, s.completed, false)) + ahead
            && s1.joined == s.joined + One(x, s.completed, true)
  {
    assert ([x] + ahead)[1..] == ahead;
    if x in s.completed {
      assert (kept + []) + ahead == kept + ahead;
    } else {
      assert (kept + [x]) + ahead == kept + ([x] + ahead) && s.joined + [] == s.joined;
    }
  }

  lemma AfterVisit(s: State, events: seq<Event>, t: State, kept: seq<Thread>, x: Thread, ahead: seq<Thread>)
    returns (s1: State)
    requires Inv(s) && s.place == Visiting([x] + ahead) && s.listed == kept + ([x] + ahead)
    requires Reaches(s, events, t) && events != [] && events[0] == Visit
    ensures x !in ahead && Inv(s1) && Reaches(s1, events[1..], t)
    ensures s1.place == Visiting(ahead) && s1.listed == (kept + One(x, s.completed, false)) + ahead
    ensures s1.joined == s.joined + One(x, s.completed, true)
    ensures Found(s, events) == (if x in s.completed then {x} else {}) + Found(s1, events[1..])
  {
    s1 := Apply(s, Visit);
    ListedOnce(s, kept, x, ahead);
    VisitKeepsInv(s);
    VisitStep(s, kept, x, ahead);
  }

  /** What the pass did with the workers ahead, and with the one before them. */
  lemma FilterBefore(before: seq<Thread>, x: Thread, ahead: seq<Thread>, all: set<Thread>, rest: set<Thread>,
                     inside: bool)
    requires x !in ahead && all - {x} == rest - {x}
    ensures (before + One(x, all, inside)) + Filter(ahead, |ahead|, rest, inside)
         == before + Filter([x] + ahead, |[x] + ahead|, all, inside)
  {
    var todo := [x] + ahead;
    forall i | 1 <= i < |todo|
      ensures todo[i] in all <==> todo[i] in rest
    {
      assert todo[i] in ahead;
      assert todo[i] in all - {x} <==> todo[i] in rest - {x};
    }
    FilterFirst(todo, |ahead|, all, rest, inside);
    assert todo[1..] == ahead;
  }

  lemma PassJoins(kept: seq<Thread>, joined: seq<Thread>, listed': seq<Thread>, joined': seq<Thread>,
                  x: Thread, ahead: seq<Thread>, completed: set<Thread>, all: set<Thread>, rest: set<Thread>)
    requires x !in ahead && (forall y :: y in rest ==> y in ahead) && all == (if x in completed then {x} else {}) + rest
    requires listed' == (kept + One(x, completed, false)) + Filter(ahead, |ahead|, rest, false)
    requires joined' == (joined + One(x, completed, true)) + Filter(ahead, |ahead|, rest, true)
    ensures var todo := [x] + ahead;
            && (forall y :: y in all ==> y in todo)
            && listed' == kept + Filter(todo, |todo|, all, false)
            && joined' == joined + Filter(todo, |todo|, all, true)
  {
    assert x !in rest;
    FilterBefore(kept, x, ahead, all, rest, false);
    FilterBefore(joined, x, ahead, all, rest, true);
  }

  /** From inside a pass on: what it has kept so far, then those still ahead
      whose flags were not set. */
  lemma {:induction false} PassGoesOn(s: State, events: seq<Event>, t: State, kept: seq<Thread>, todo: seq<Thread>)
    requires Inv(s) && s.place == Visiting(todo) && s.listed == kept + todo
    requires Reaches(s, events, t) && t.place == Visiting([]) && forall i :: 0 <= i < |events| ==> InPass(events[i])
    ensures var found := Found(s, events);
            && (forall x :: x in found ==> x in todo)
            && t.listed == kept + Filter(todo, |todo|, found, false)
            && t.joined == s.joined + Filter(todo, |todo|, found, true)
    decreases |events|, 0
  {
    if events == [] {
      assert kept + [] == kept;
    } else if events[0] == Visit {
      assert todo == [todo[0]] + todo[1..];
      VisitGoesOn(s, events, t, kept, todo[0], todo[1..]);
    } else {
      StepKeepsInv(s, events[0]);
      PassGoesOn(Apply(s, events[0]), events[1..], t, kept, todo);
    }
  }

  lemma {:induction false} VisitGoesOn(s: State, events: seq<Event>, t: State, kept: seq<Thread>, x: Thread,
                                       ahead: seq<Thread>)
    requires Inv(s) && s.place == Visiting([x] + ahead) && s.listed == kept + ([x] + ahead)
    requires Reaches(s, events, t) && t.place == Visiting([]) && forall i :: 0 <= i < |events| ==> InPass(events[i])
    requires events != [] && events[0] == Visit
    ensures var found, todo := Found(s, events), [x] + ahead;
            && (forall y :: y in found ==> y in todo)
            && t.listed == kept + Filter(todo, |todo|, found, false)
            && t.joined == s.joined + Filter(todo, |todo|, found, true)
    decreases |events| - 1, 1
  {
    var s1 := AfterVisit(s, events, t, kept, x, ahead);
    PassGoesOn(s1, events[1..], t, kept + One(x, s.completed, false), ahead);
    PassJoins(kept, s.joined, t.listed, t.joined, x, ahead, s.completed, Found(s, events), Found(s1, events[1..]));
  }

  /** A whole pass, whatever happens meanwhile: it leaves on the list, in order,
      and joins, in order, what the pass over the linked list does when
      `completed` are the workers whose flag was set when it came to them. */
  lemma PassIsFilter(s: State, events: seq<Event>, t: State)
    requires Inv(s) && s.place == EnteringJoin && Reaches(Apply(s, BeginPass), events, t) && t.place == Visiting([])
    requires forall i :: 0 <= i < |events| ==> InPass(events[i])
    ensures var n, completed := |s.listed|, Found(Apply(s, BeginPass), events);
            && t.listed == Filter(s.listed, n, completed, false) && t.connectionCount == |t.listed|
            && t.joined == s.joined + Filter(s.listed, n, completed, true)
  {
    var s1 := Apply(s, BeginPass);
    StepKeepsInv(s, BeginPass);
    assert [] + s.listed == s.listed;
    PassGoesOn(s1, events, t, [], s.listed);
    RunsKeepInv(s1, events, t);
  }

  lemma {:induction false} FoundIfCompleted(s: State, events: seq<Event>, t: State, x: Thread)
    requires s.place.Visiting? && x in s.place.todo && x in s.completed
    requires Reaches(s, events, t) && t.place == Visiting([]) && forall i :: 0 <= i < |events| ==> InPass(events[i])
    ensures x in Found(s, events)
    decreases |events|
  {
    if events[0] != Visit || s.place.todo[0] != x {
      FoundIfCompleted(Apply(s, events[0]), events[1..], t, x);
    }
  }

  lemma {:induction false} FoundOnlyIfCompleted(s: State, events: seq<Event>, t: State, x: Thread)
    requires Reaches(s, events, t) && x in Found(s, events)
    ensures x in t.completed
    decreases |events|
  {
    var e, s1 := events[0], Apply(s, events[0]);
    if x in Found(s1, events[1..]) {
      FoundOnlyIfCompleted(s1, events[1..], t, x);
    } else {
      assert e == Visit && x in s1.completed;
      StaysCompleted(s1, events[1..], t, x);
    }
  }

  lemma {:induction false} StaysCompleted(s: State, events: seq<Event>, t: State, x: Thread)
    requires Reaches(s, events, t) && x in s.completed
    ensures x in t.completed
    decreases |events|
  {
    if events != [] {
      StaysCompleted(Apply(s, events[0]), events[1..], t, x);
    }
  }

  /** A pass joins every listed worker that had completed when it began, and no
      worker that has not completed by its end. */
  lemma PassJoinsCompleted(s: State, events: seq<Event>, t: State, x: Thread)
    requires Inv(s) && s.place == EnteringJoin && Reaches(Apply(s, BeginPass), events, t) && t.place == Visiting([])
    requires forall i :: 0 <= i < |events| ==> InPass(events[i])
    requires x in s.listed
    ensures x in s.completed ==> x in t.joined && x !in t.listed
    ensures x !in t.completed ==> x in t.listed && x !in t.joined
  {
    var s1 := Apply(s, BeginPass);
    var found, n := Found(s1, events), |s.listed|;
    PassIsFilter(s, events, t);
    FilterSelects(s.listed, n, found, true, x);
    FilterSelects(s.listed, n, found, false, x);
    if x in s.completed {
      FoundIfCompleted(s1, events, t, x);
    }
    if x !in t.completed {
      StepKeepsInv(s, BeginPass);
      RunsKeepInv(s1, events, t);
      if x in found {
        FoundOnlyIfCompleted(s1, events, t, x);
      }
    }
  }

  /** Over every interleaving: the created threads are the joined ones and the
      listed ones, each once; only completed threads were joined; and when the
      server is gone the signal was caught and every thread was joined. */
  lemma ThreadsAreJoinedOnce(signalCaught: bool, events: seq<Event>, t: State)
    requires Reaches(Start(signalCaught), events, t)
    ensures multiset(t.created) == multiset(t.joined) + multiset(t.listed)
    ensures forall x :: multiset(t.created)[x] <= 1
    ensures forall x :: x in t.joined ==> x in t.completed && x !in t.listed
    ensures t.connectionCount == |t.listed|
    ensures t.place.ShutDown? ==> t.signalCaught && multiset(t.joined) == multiset(t.created)
  {
    RunsKeepInv(Start(signalCaught), events, t);
    forall x | x in t.joined
      ensures x !in t.listed
    {
      assert x in multiset(t.joined);
      assert multiset(t.created)[x] == (multiset(t.joined) + multiset(t.listed))[x];
    }
  }

  // ----- what a run makes of its events

  /** The threads of the accepts, in order. */
  function Accepted(events: seq<Event>): seq<Thread> {
    if events == [] then [] else AcceptedBy(events[0]) + Accepted(events[1..])
  }

  function AcceptedBy(e: Event): seq<Thread> {
    if e.AcceptOk? then [e.thread] else []
  }

  /** The worker list is in the order of the accepts. */
  ghost predicate Listed(s: State) {
    s.listed == Filter(s.created, |s.created|, Elements(s.joined), false)
  }

  ghost function Elements(xs: seq<Thread>): set<Thread> {
    set x | x in xs
  }

  lemma {:induction false} IndexOfConcat(a: seq<Thread>, b: seq<Thread>, x: Thread)
    ensures IndexOf(a + b, x) == if x in a then IndexOf(a, x) else |a| + IndexOf(b, x)
  {
    if a == [] {
      assert a + b == b;
    } else if a[0] != x {
      assert (a + b)[1..] == a[1..] + b;
      IndexOfConcat(a[1..], b, x);
    }
  }

  lemma {:induction false} IndexOfMissing(xs: seq<Thread>, x: Thread)
    requires x !in xs
    ensures IndexOf(xs, x) == |xs|
  {
    if xs != [] {
      IndexOfMissing(xs[1..], x);
    }
  }

  lemma WithoutMissing(xs: seq<Thread>, x: Thread)
    requires x !in xs
    ensures Without(xs, x) == xs
  {
    IndexOfMissing(xs, x);
  }

  lemma WithoutLast(xs: seq<Thread>, x: Thread)
    requires x !in xs
    ensures Without(xs + [x], x) == xs
  {
    IndexOfConcat(xs, [x], x);
  }

  lemma WithoutBefore(xs: seq<Thread>, y: Thread, x: Thread)
    requires x != y
    ensures Without(xs + [y], x) == Without(xs, x) + [y]
  {
    IndexOfConcat(xs, [y], x);
    if x in xs {
      var i := IndexOf(xs, x);
      assert (xs + [y])[i + 1..] == xs[i + 1..] + [y];
    } else {
      IndexOfMissing(xs, x);
    }
  }

  lemma {:induction false} FilterWithout(xs: seq<Thread>, n: nat, c: set<Thread>, x: Thread)
    requires n <= |xs| && x !in c && forall i, j :: 0 <= i < j < |xs| ==> Apart(xs[i], xs[j])
    ensures Filter(xs, n, c + {x}, false) == Without(Filter(xs, n, c, false), x)
  {
    if n > 0 {
      var y, a := xs[n - 1], Filter(xs, n - 1, c, false);
      FilterWithout(xs, n - 1, c, x);
      FilterSelects(xs, n - 1, c, false, y);
      assert y !in xs[..n - 1] by {
        forall i | 0 <= i < n - 1
          ensures xs[i] != y
        {
          assert Apart(xs[i], xs[n - 1]);
        }
      }
      if x == y {
        WithoutMissing(a, x);
        WithoutLast(a, x);
      } else if y !in c {
        WithoutBefore(a, y, x);
      }
      assert a + [] == a && Without(a, x) + [] == Without(a, x);
    }
  }

  predicate Apart(x: Thread, y: Thread) {
    x != y
  }

  lemma CreatedApart(xs: seq<Thread>)
    requires NoRepetition(xs)
    ensures forall i, j :: 0 <= i < j < |xs| ==> Apart(xs[i], xs[j])
  {
    forall i, j | 0 <= i < j < |xs|
      ensures Apart(xs[i], xs[j])
    {
      assert xs == xs[..j] + [xs[j]] + xs[j + 1..];
      assert xs[..j][i] in multiset(xs[..j]);
      assert multiset(xs)[xs[j]] == multiset(xs[..j])[xs[j]] + 1 + multiset(xs[j + 1..])[xs[j]];
    }
  }

  lemma {:induction false} FilterOfPrefix(xs: seq<Thread>, ys: seq<Thread>, n: nat, c: set<Thread>)
    requires n <= |xs|
    ensures Filter(xs + ys, n, c, false) == Filter(xs, n, c, false)
  {
    if n > 0 {
      FilterOfPrefix(xs, ys, n - 1, c);
    }
  }

  lemma StepKeepsListed(s: State, e: Event)
    requires Inv(s) && Listed(s) && Enabled(s, e)
    ensures Listed(Apply(s, e))
  {
    match e
    case AcceptOk(t) => AcceptKeepsListed(s, t);
    case Visit =>
      var t := s.place.todo[0];
      if t in s.completed {
        assert s.listed[|s.listed| - |s.place.todo|..][0] == t;
        VisitKeepsListed(s, t);
      }
    case _ =>
  }

  lemma AcceptKeepsListed(s: State, t: Thread)
    requires Inv(s) && Listed(s) && t !in s.created
    ensures s.listed + [t] == Filter(s.created + [t], |s.created| + 1, Elements(s.joined), false)
  {
    FilterOfPrefix(s.created, [t], |s.created|, Elements(s.joined));
  }

  lemma VisitKeepsListed(s: State, t: Thread)
    requires Inv(s) && Listed(s) && t in s.listed
    ensures Without(s.listed, t) == Filter(s.created, |s.created|, Elements(s.joined + [t]), false)
  {
    CreatedApart(s.created);
    FilterSelects(s.created, |s.created|, Elements(s.joined), false, t);
    FilterWithout(s.created, |s.created|, Elements(s.joined), t);
    assert Elements(s.joined + [t]) == Elements(s.joined) + {t};
  }

  lemma {:induction false} RunKeepsListed(s: State, events: seq<Event>, t: State)
    requires Inv(s) && Listed(s) && Reaches(s, events, t)
    ensures Listed(t)
    decreases |events|
  {
    if events != [] {
      StepKeepsInv(s, events[0]);
      StepKeepsListed(s, events[0]);
      RunKeepsListed(Apply(s, events[0]), events[1..], t);
    }
  }

  lemma StepAccepts(s: State, e: Event)
    requires Enabled(s, e)
    ensures Apply(s, e).created == s.created + AcceptedBy(e)
  {
    assert s.created + [] == s.created;
  }

  lemma {:induction false} AcceptedOnly(s: State, events: seq<Event>, t: State)
    requires Reaches(s, events, t)
    ensures t.created == s.created + Accepted(events)
    decreases |events|
  {
    if events == [] {
      assert s.created + [] == s.created;
    } else {
      StepAccepts(s, events[0]);
      AcceptedOnly(Apply(s, events[0]), events[1..], t);
      Associate(s.created, AcceptedBy(events[0]), Accepted(events[1..]));
    }
  }

  lemma {:induction false} RunRemembers(s: State, events: seq<Event>, t: State)
    requires Reaches(s, events, t)
    ensures t.signalCaught <==> s.signalCaught || Signal in events
    ensures forall x :: x in t.completed <==> x in s.completed || Completes(x) in events
    decreases |events|
  {
    if events != [] {
      RunRemembers(Apply(s, events[0]), events[1..], t);
      assert events == [events[0]] + events[1..];
    }
  }

  /** The fields only remember what happened, from the start on: the threads are
      those accepted, the worker list is those of them not joined yet, in the
      order in which they were accepted, and the flags are those set. */
  lemma HistoryOfRun(signalCaught: bool, events: seq<Event>, t: State)
    requires Reaches(Start(signalCaught), events, t)
    ensures t.created == Accepted(events)
    ensures t.listed == Filter(t.created, |t.created|, Elements(t.joined), false)
    ensures t.signalCaught <==> signalCaught || Signal in events
    ensures forall x :: x in t.completed <==> Completes(x) in events
  {
    RunKeepsListed(Start(signalCaught), events, t);
    AcceptedOnly(Start(signalCaught), events, t);
    RunRemembers(Start(signalCaught), events, t);
  }

  // ----- shutting down

  /** What the main thread does, as opposed to its workers and the signal. */
  predicate ByMain(e: Event) {
    !e.Completes? && e != Signal
  }

  /** The main thread can always go on, until it is gone, and while it accepts
      it accepts anyone new. */
  lemma MainThreadGoesOn(s: State)
    ensures s.place != ShutDown <==> exists e :: ByMain(e) && Enabled(s, e)
    ensures s.place == Accepting ==> forall t :: t !in s.created ==> Enabled(s, AcceptOk(t))
  {
    if s.place != ShutDown {
      var e := match s.place
        case Accepting => AcceptFails
        case EnteringJoin => BeginPass
        case Visiting(todo) => if todo == [] then EndPass else Visit
        case Checking => Check
        case ShutDown => Signal;
      assert ByMain(e) && Enabled(s, e);
    }
  }

  /** What the check after a pass decides. */
  lemma CheckDecides(s: State)
    requires Inv(s) && s.place == Checking
    ensures var place := Apply(s, Check).place;
            && (place == ShutDown <==> s.signalCaught && multiset(s.created) == multiset(s.joined))
            && (place == Accepting <==> !s.signalCaught)
            && (place == EnteringJoin <==> s.signalCaught && multiset(s.created) != multiset(s.joined))
  {
    assert s.listed == [] <==> multiset(s.listed) == multiset{};
    assert multiset(s.created) - multiset(s.joined) == multiset(s.listed);
  }

  /** Once the signal is caught it stays so, and at most one more connection is
      accepted: the one the main thread may be waiting for. */
  lemma {:induction false} SignalEndsAccepting(s: State, events: seq<Event>, t: State)
    requires s.signalCaught && Reaches(s, events, t)
    ensures t.signalCaught && |Accepted(events)| <= 1
    ensures s.place != Accepting ==> Accepted(events) == [] && t.place != Accepting
    decreases |events|
  {
    if events != [] {
      SignalEndsAccepting(Apply(s, events[0]), events[1..], t);
    }
  }

  /** Nobody is left to wait for: every thread has completed, and those that a
      pass has been past were joined. */
  ghost predicate Winding(s: State) {
    && s.signalCaught && (forall x :: x in s.created ==> x in s.completed)
    && (s.place.Visiting? ==> s.listed == s.place.todo)
    && (s.place.Checking? || s.place.ShutDown? ==> s.listed == [])
  }

  /** How many more things the main thread will do. */
  function StepsLeft(s: State): nat {
    match s.place
    case Accepting => |s.listed| + 4
    case EnteringJoin => |s.listed| + 3
    case Visiting(todo) => |todo| + 2
    case Checking => 1
    case ShutDown => 0
  }

  lemma ListedIsCreated(s: State, x: Thread)
    requires Inv(s) && x in s.listed
    ensures x in s.created
  {
    assert x in multiset(s.listed);
    assert x in multiset(s.created);
  }

  lemma VisitWindsDown(s: State, t: Thread, ahead: seq<Thread>)
    requires Inv(s) && Winding(s) && s.place == Visiting([t] + ahead)
    ensures Winding(Apply(s, Visit)) && StepsLeft(Apply(s, Visit)) == StepsLeft(s) - 1
  {
    assert s.listed == [] + ([t] + ahead);
    ListedIsCreated(s, t);
    ListedOnce(s, [], t, ahead);
    VisitStep(s, [], t, ahead);
    assert ([] + []) + ahead == ahead;
  }

  lemma WindsDown(s: State, e: Event)
    requires Inv(s) && Winding(s) && Enabled(s, e) && !e.AcceptOk?
    ensures Winding(Apply(s, e)) && StepsLeft(Apply(s, e)) == StepsLeft(s) - if ByMain(e) then 1 else 0
  {
    if e == Visit {
      var todo := s.place.todo;
      assert todo == [todo[0]] + todo[1..];
      VisitWindsDown(s, todo[0], todo[1..]);
    } else {
      OtherWindsDown(s, e);
    }
  }

  lemma OtherWindsDown(s: State, e: Event)
    requires s.connectionCount == |s.listed| && Winding(s) && Enabled(s, e) && !e.AcceptOk? && e != Visit
    ensures Winding(Apply(s, e)) && StepsLeft(Apply(s, e)) == StepsLeft(s) - if ByMain(e) then 1 else 0
  {
  }

  function MainSteps(events: seq<Event>): nat {
    if events == [] then 0 else (if ByMain(events[0]) then 1 else 0) + MainSteps(events[1..])
  }

  lemma {:induction false} RunWindsDown(s: State, events: seq<Event>, t: State)
    requires Inv(s) && Winding(s) && Reaches(s, events, t) && Accepted(events) == []
    ensures Inv(t) && Winding(t) && MainSteps(events) + StepsLeft(t) == StepsLeft(s)
    decreases |events|
  {
    if events != [] {
      WindsDown(s, events[0]);
      StepKeepsInv(s, events[0]);
      RunWindsDown(Apply(s, events[0]), events[1..], t);
    }
  }

  /** When the signal was caught and every worker has completed, the server shuts
      down after one more pass: the main thread is gone exactly when it has done
      its |listed| visits and the three things around them, before which it is
      never stuck, whatever else happens meanwhile. */
  lemma ShutdownComes(s: State, events: seq<Event>, t: State)
    requires Inv(s) && s.place == EnteringJoin && s.signalCaught && forall x :: x in s.created ==> x in s.completed
    requires Reaches(s, events, t)
    ensures MainSteps(events) <= |s.listed| + 3
    ensures t.place == ShutDown <==> MainSteps(events) == |s.listed| + 3
    ensures t.place == ShutDown ==> multiset(t.joined) == multiset(s.created)
    ensures t.place != ShutDown ==> exists e :: ByMain(e) && Enabled(t, e)
  {
    SignalEndsAccepting(s, events, t);
    RunWindsDown(s, events, t);
    MainThreadGoesOn(t);
    AcceptedOnly(s, events, t);
    assert s.created + [] == s.created;
  }

  /** A signal caught before the loop starts: nobody is ever accepted, and three
      things later the server is gone. */
  lemma SignalBeforeStart(events: seq<Event>, t: State)
    requires Reaches(Start(true), events, t)
    ensures t.created == [] && MainSteps(events) <= 3 && (t.place == ShutDown <==> MainSteps(events) == 3)
  {
    SignalEndsAccepting(Start(true), events, t);
    AcceptedOnly(Start(true), events, t);
    ShutdownComes(Start(true), events, t);
  }
}
