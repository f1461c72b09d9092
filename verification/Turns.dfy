// Going around a ring of cap slots, one step at a time, and the modulo the
// code computes it with.

module Turns {

  function Next(i: nat, cap: nat): (r: nat)
    requires i < cap
    ensures r < cap
  {
    if i + 1 == cap then 0 else i + 1
  }

  /** n steps on from slot k. */
  function Around(cap: nat, k: nat, n: nat): (r: nat)
    requires k < cap && n <= cap
    ensures r < cap
  {
    if k + n < cap then k + n else k + n - cap
  }

  lemma AroundNext(cap: nat, k: nat, n: nat)
    requires k < cap && n < cap
    ensures Around(cap, k, n + 1) == Next(Around(cap, k, n), cap)
    ensures n > 0 ==> Around(cap, k, n) == Around(cap, Next(k, cap), n - 1)
  {
  }

  /** Where any number of steps from slot 0 leads. */
  function Steps(n: nat, cap: nat): (r: nat)
    requires 0 < cap
    ensures r < cap
  {
    if n == 0 then 0 else Next(Steps(n - 1, cap), cap)
  }

  /** The slot of the oldest entry after so many additions to an empty ring. */
  function Oldest(adds: nat, cap: nat): (r: nat)
    requires 0 < cap
    ensures r < cap
  {
    if adds < cap then 0 else Steps(adds, cap)
  }

  lemma RemainderIs(x: nat, m: nat, q: int, r: nat)
    requires 0 < m && x == m * q + r && r < m
    ensures x % m == r
  {
    var k := x / m - q;
    assert m * k == r - x % m by {
      assert x == m * (x / m) + x % m;
      assert m * k == m * (x / m) - m * q;
    }
    if k >= 1 {
      MulAtLeast(m, k);
    } else if k <= -1 {
      assert m * (-k) == -(m * k);
      MulAtLeast(m, -k);
    }
  }

  lemma MulAtLeast(m: nat, k: nat)
    requires k >= 1
    ensures m * k >= m
  {
    assert m * k == m + m * (k - 1);
  }

  lemma NextIsModulo(i: nat, cap: nat)
    requires i < cap
    ensures (i + 1) % cap == Next(i, cap)
  {
    RemainderIs(i + 1, cap, if i + 1 == cap then 1 else 0, Next(i, cap));
  }

  lemma AroundIsModulo(cap: nat, k: nat, n: nat)
    requires k < cap && n <= cap
    ensures (k + n) % cap == Around(cap, k, n)
  {
    RemainderIs(k + n, cap, if k + n < cap then 0 else 1, Around(cap, k, n));
  }

  lemma {:induction false} StepsIsModulo(n: nat, cap: nat)
    requires 0 < cap
    ensures Steps(n, cap) == n % cap
  {
    if n == 0 {
      RemainderIs(0, cap, 0, 0);
    } else {
      StepsIsModulo(n - 1, cap);
      var q, r := (n - 1) / cap, (n - 1) % cap;
      assert n - 1 == cap * q + r;
      assert cap * (q + 1) == cap * q + cap;
      RemainderIs(n, cap, if r + 1 == cap then q + 1 else q, Next(r, cap));
    }
  }

  lemma OldestIsModulo(adds: nat, cap: nat)
    requires 0 < cap
    ensures Oldest(adds, cap) == if adds < cap then 0 else adds % cap
  {
    StepsIsModulo(adds, cap);
  }

  /** Before the first full turn, the steps are simply counted. */
  lemma {:induction false} StepsBelow(n: nat, cap: nat)
    requires n < cap
    ensures Steps(n, cap) == n
  {
    if n > 0 {
      StepsBelow(n - 1, cap);
    }
  }
}
