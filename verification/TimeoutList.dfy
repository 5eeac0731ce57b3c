/**
 The timeout queue of include/nul/timer.h: a doubly linked ring through an entry array,
 kept in the order of the timeouts, with entry 0 as sentinel; and the trigger loop of
 unix/main.cc that drains it.
 */
module TimeoutList {
  import opened Common

  // ---------------------------------------------------------------- the ring

  /** Entry at position i of the ring; the sentinel stands before and after the pending entries. */
  function At(p: seq<nat>, i: int): nat {
    if 0 <= i < |p| then p[i] else 0
  }

  /** Distinct entries of an array of n, the sentinel not among them. */
  ghost predicate Entries(n: nat, p: seq<nat>) {
    (forall i :: 0 <= i < |p| ==> 0 < p[i] < n) && Distinct(p)
  }

  ghost predicate NextLinks(next: seq<nat>, p: seq<nat>) {
    && 0 < |next| && Entries(|next|, p)
    && (forall i :: -1 <= i < |p| ==> next[At(p, i)] == At(p, i + 1))
    && (forall k :: 0 < k < |next| && k !in p ==> next[k] == k)
  }

  ghost predicate PrevLinks(prev: seq<nat>, p: seq<nat>) {
    && 0 < |prev| && Entries(|prev|, p)
    && (forall i :: 0 <= i <= |p| ==> prev[At(p, i)] == At(p, i - 1))
    && (forall k :: 0 < k < |prev| && k !in p ==> prev[k] == k)
  }

  /** The links form one ring through the sentinel and exactly the entries of `p`, in this order. */
  ghost predicate Ring(next: seq<nat>, prev: seq<nat>, p: seq<nat>) {
    |next| == |prev| && NextLinks(next, p) && PrevLinks(prev, p)
  }

  lemma RingNeighbours(next: seq<nat>, prev: seq<nat>, p: seq<nat>, k: nat)
    requires Ring(next, prev, p) && k < |p|
    ensures next[p[k]] == At(p, k + 1) && prev[p[k]] == At(p, k - 1)
    ensures At(p, k + 1) != p[k] && At(p, k - 1) != p[k]
  {
    assert At(p, k) == p[k];
    assert next[At(p, k)] == At(p, k + 1) && prev[At(p, k)] == At(p, k - 1);
  }

  /** An entry is pending iff it is linked to something else. */
  lemma InRing(next: seq<nat>, prev: seq<nat>, p: seq<nat>, nr: nat)
    requires Ring(next, prev, p) && 0 < nr < |next|
    ensures next[nr] == nr <==> nr !in p
    ensures next[nr] < |next| && prev[nr] < |next|
  {
    if nr in p {
      var k :| 0 <= k < |p| && p[k] == nr;
      RingNeighbours(next, prev, p, k);
    }
  }

  // ---------------------------------------------------------------- removing and inserting an entry

  /** `p` without its element at k. */
  function Without(p: seq<nat>, k: nat): seq<nat>
    requires k < |p|
  {
    p[..k] + p[k + 1..]
  }

  lemma WithoutKeepsEntries(n: nat, p: seq<nat>, k: nat)
    requires Entries(n, p) && k < |p|
    ensures Entries(n, Without(p, k))
    ensures forall e :: e in Without(p, k) <==> e in p && e != p[k]
  {
    var q := Without(p, k);
    forall e | e in p && e != p[k]
      ensures e in q
    {
      var j :| 0 <= j < |p| && p[j] == e;
      assert q[if j < k then j else j - 1] == e;
    }
  }

  lemma WithoutAt(p: seq<nat>, k: nat, i: int)
    requires k < |p| && -1 <= i < |p|
    ensures At(Without(p, k), i) == At(p, if i < k then i else i + 1)
  {
  }

  lemma AtInjective(n: nat, p: seq<nat>, i: int, j: int)
    requires Entries(n, p) && -1 <= i < j <= |p| && !(i == -1 && j == |p|)
    ensures At(p, i) != At(p, j)
  {
  }

  lemma UnlinkNextAt(next: seq<nat>, p: seq<nat>, k: nat, i: int)
    requires NextLinks(next, p) && k < |p| && -1 <= i < |p| - 1
    ensures var q := Without(p, k);
            && At(q, i) < |next|
            && next[At(p, k - 1) := At(p, k + 1)][p[k] := p[k]][At(q, i)] == At(q, i + 1)
  {
    var j := if i < k then i else i + 1;
    WithoutAt(p, k, i);
    WithoutAt(p, k, i + 1);
    assert next[At(p, j)] == At(p, j + 1);
    if j < k {
      AtInjective(|next|, p, j, k);
      if j < k - 1 {
        AtInjective(|next|, p, j, k - 1);
      }
    } else {
      AtInjective(|next|, p, k, j);
      AtInjective(|next|, p, k - 1, j);
    }
  }

  lemma UnlinkNext(next: seq<nat>, p: seq<nat>, k: nat)
    requires NextLinks(next, p) && k < |p|
    ensures NextLinks(next[At(p, k - 1) := At(p, k + 1)][p[k] := p[k]], Without(p, k))
  {
    var q := Without(p, k);
    var next' := next[At(p, k - 1) := At(p, k + 1)][p[k] := p[k]];
    WithoutKeepsEntries(|next|, p, k);
    forall i | -1 <= i < |q|
      ensures next'[At(q, i)] == At(q, i + 1)
    {
      UnlinkNextAt(next, p, k, i);
    }
  }

  lemma UnlinkPrevAt(prev: seq<nat>, p: seq<nat>, k: nat, i: int)
    requires PrevLinks(prev, p) && k < |p| && 0 <= i <= |p| - 1
    ensures var q := Without(p, k);
            && At(q, i) < |prev|
            && prev[At(p, k + 1) := At(p, k - 1)][p[k] := p[k]][At(q, i)] == At(q, i - 1)
  {
    var j := if i < k then i else i + 1;
    WithoutAt(p, k, i);
    WithoutAt(p, k, i - 1);
    assert prev[At(p, j)] == At(p, j - 1);
    if j < k {
      AtInjective(|prev|, p, j, k);
      AtInjective(|prev|, p, j, k + 1);
    } else {
      AtInjective(|prev|, p, k, j);
      if j > k + 1 {
        AtInjective(|prev|, p, k + 1, j);
      }
    }
  }

  lemma UnlinkPrev(prev: seq<nat>, p: seq<nat>, k: nat)
    requires PrevLinks(prev, p) && k < |p|
    ensures PrevLinks(prev[At(p, k + 1) := At(p, k - 1)][p[k] := p[k]], Without(p, k))
  {
    var q := Without(p, k);
    var prev' := prev[At(p, k + 1) := At(p, k - 1)][p[k] := p[k]];
    WithoutKeepsEntries(|prev|, p, k);
    forall i | 0 <= i <= |q|
      ensures prev'[At(q, i)] == At(q, i - 1)
    {
      UnlinkPrevAt(prev, p, k, i);
    }
  }

  /** `p` with e inserted before position k. */
  function With(p: seq<nat>, k: nat, e: nat): seq<nat>
    requires k <= |p|
  {
    p[..k] + [e] + p[k..]
  }

  lemma WithKeepsEntries(n: nat, p: seq<nat>, k: nat, e: nat)
    requires Entries(n, p) && k <= |p| && 0 < e < n && e !in p
    ensures Entries(n, With(p, k, e))
    ensures forall x :: x in With(p, k, e) <==> x in p || x == e
  {
    var q := With(p, k, e);
    assert q[k] == e;
    forall x | x in p
      ensures x in q
    {
      var j :| 0 <= j < |p| && p[j] == x;
      assert q[if j < k then j else j + 1] == x;
    }
  }

  lemma WithAt(p: seq<nat>, k: nat, e: nat, i: int)
    requires k <= |p| && -1 <= i <= |p| + 1
    ensures At(With(p, k, e), i) == if i < k then At(p, i) else if i == k then e else At(p, i - 1)
  {
  }

  lemma LinkNextAt(next: seq<nat>, p: seq<nat>, k: nat, e: nat, i: int)
    requires NextLinks(next, p) && k <= |p| && 0 < e < |next| && e !in p && -1 <= i <= |p|
    ensures var q := With(p, k, e);
            && At(q, i) < |next|
            && next[e := At(p, k)][At(p, k - 1) := e][At(q, i)] == At(q, i + 1)
  {
    WithAt(p, k, e, i);
    WithAt(p, k, e, i + 1);
    if i < k - 1 {
      assert next[At(p, i)] == At(p, i + 1);
      AtInjective(|next|, p, i, k - 1);
    } else if i > k {
      assert next[At(p, i - 1)] == At(p, i);
      AtInjective(|next|, p, k - 1, i - 1);
    }
  }

  lemma LinkNext(next: seq<nat>, p: seq<nat>, k: nat, e: nat)
    requires NextLinks(next, p) && k <= |p| && 0 < e < |next| && e !in p
    ensures NextLinks(next[e := At(p, k)][At(p, k - 1) := e], With(p, k, e))
  {
    var q := With(p, k, e);
    var next' := next[e := At(p, k)][At(p, k - 1) := e];
    WithKeepsEntries(|next|, p, k, e);
    forall i | -1 <= i < |q|
      ensures next'[At(q, i)] == At(q, i + 1)
    {
      LinkNextAt(next, p, k, e, i);
    }
  }

  lemma LinkPrevAt(prev: seq<nat>, p: seq<nat>, k: nat, e: nat, i: int)
    requires PrevLinks(prev, p) && k <= |p| && 0 < e < |prev| && e !in p && 0 <= i <= |p| + 1
    ensures var q := With(p, k, e);
            && At(q, i) < |prev|
            && prev[e := At(p, k - 1)][At(p, k) := e][At(q, i)] == At(q, i - 1)
  {
    WithAt(p, k, e, i);
    WithAt(p, k, e, i - 1);
    if i < k {
      assert prev[At(p, i)] == At(p, i - 1);
      AtInjective(|prev|, p, i, k);
    } else if i > k + 1 {
      assert prev[At(p, i - 1)] == At(p, i - 2);
      AtInjective(|prev|, p, k, i - 1);
    }
  }

  lemma LinkPrev(prev: seq<nat>, p: seq<nat>, k: nat, e: nat)
    requires PrevLinks(prev, p) && k <= |p| && 0 < e < |prev| && e !in p
    ensures PrevLinks(prev[e := At(p, k - 1)][At(p, k) := e], With(p, k, e))
  {
    var q := With(p, k, e);
    var prev' := prev[e := At(p, k - 1)][At(p, k) := e];
    WithKeepsEntries(|prev|, p, k, e);
    forall i | 0 <= i <= |q|
      ensures prev'[At(q, i)] == At(q, i - 1)
    {
      LinkPrevAt(prev, p, k, e, i);
    }
  }

  // ---------------------------------------------------------------- the queue that the ring means

  datatype Timer = Timer(nr: nat, timeout: int)

  /** The pending timers in the order of the ring. */
  function TimersOf(p: seq<nat>, timeout: seq<int>): (q: seq<Timer>)
    requires forall i :: 0 <= i < |p| ==> p[i] < |timeout|
    ensures |q| == |p|
    ensures forall i :: 0 <= i < |p| ==> q[i] == Timer(p[i], timeout[p[i]])
  {
    seq(|p|, i requires 0 <= i < |p| => Timer(p[i], timeout[p[i]]))
  }

  ghost predicate Sorted(q: seq<Timer>) {
    forall i, j :: 0 <= i < j < |q| ==> q[i].timeout <= q[j].timeout
  }

  /** The queue without timer nr. */
  function Removed(q: seq<Timer>, nr: nat): seq<Timer> {
    if q == [] then []
    else if q[0].nr == nr then Removed(q[1..], nr)
    else [q[0]] + Removed(q[1..], nr)
  }

  /** The queue with a timer inserted before the first one that is not earlier. */
  function Inserted(q: seq<Timer>, t: Timer): (r: seq<Timer>)
    ensures |r| == |q| + 1
  {
    if q == [] then [t]
    else if q[0].timeout < t.timeout then [q[0]] + Inserted(q[1..], t)
    else [t] + q
  }

  lemma {:induction false} RemovedAbsent(q: seq<Timer>, nr: nat)
    requires forall i :: 0 <= i < |q| ==> q[i].nr != nr
    ensures Removed(q, nr) == q
    decreases |q|
  {
    if q != [] {
      RemovedAbsent(q[1..], nr);
    }
  }

  lemma {:induction false} RemovedAt(q: seq<Timer>, k: nat)
    requires k < |q|
    requires forall i :: 0 <= i < |q| && i != k ==> q[i].nr != q[k].nr
    ensures Removed(q, q[k].nr) == q[..k] + q[k + 1..]
    decreases |q|
  {
    if k == 0 {
      RemovedAbsent(q[1..], q[0].nr);
    } else {
      RemovedAt(q[1..], k - 1);
      assert q[1..][..k - 1] == q[..k][1..];
    }
  }

  lemma {:induction false} InsertedAt(q: seq<Timer>, k: nat, t: Timer)
    requires k <= |q|
    requires forall i :: 0 <= i < k ==> q[i].timeout < t.timeout
    requires k < |q| ==> q[k].timeout >= t.timeout
    ensures Inserted(q, t) == q[..k] + [t] + q[k..]
    decreases |q|
  {
    if k > 0 {
      InsertedAt(q[1..], k - 1, t);
      assert q[1..][..k - 1] == q[..k][1..];
    }
  }

  lemma InsertedKeepsSorted(q: seq<Timer>, k: nat, t: Timer)
    requires Sorted(q) && k <= |q|
    requires forall i :: 0 <= i < k ==> q[i].timeout < t.timeout
    requires k < |q| ==> q[k].timeout >= t.timeout
    ensures Sorted(q[..k] + [t] + q[k..])
  {
  }

  /** Removing an entry from the ring removes its timer from the queue. */
  lemma RemovedTimers(p: seq<nat>, timeout: seq<int>, k: nat)
    requires Entries(|timeout|, p) && k < |p|
    ensures Entries(|timeout|, Without(p, k))
    ensures TimersOf(Without(p, k), timeout) == Removed(TimersOf(p, timeout), p[k])
    ensures Sorted(TimersOf(p, timeout)) ==> Sorted(TimersOf(Without(p, k), timeout))
    ensures p[k] !in Without(p, k)
  {
    WithoutKeepsEntries(|timeout|, p, k);
    var q := TimersOf(p, timeout);
    RemovedAt(q, k);
    assert TimersOf(Without(p, k), timeout) == q[..k] + q[k + 1..];
  }

  lemma RemovedHead(p: seq<nat>, timeout: seq<int>)
    requires Entries(|timeout|, p) && p != []
    ensures TimersOf(p, timeout) == [TimersOf(p, timeout)[0]] + Removed(TimersOf(p, timeout), p[0])
  {
    RemovedAt(TimersOf(p, timeout), 0);
  }

  lemma TimersOfWith(p: seq<nat>, timeout: seq<int>, k: nat, nr: nat, to: int)
    requires k <= |p| && Entries(|timeout|, p) && Entries(|timeout|, With(p, k, nr))
    requires 0 < nr < |timeout| && nr !in p
    ensures TimersOf(With(p, k, nr), timeout[nr := to])
            == TimersOf(p, timeout)[..k] + [Timer(nr, to)] + TimersOf(p, timeout)[k..]
  {
  }

  /** Inserting an entry into the ring and setting its timeout inserts its timer into the queue. */
  lemma InsertedTimers(p: seq<nat>, timeout: seq<int>, k: nat, nr: nat, to: int)
    requires Entries(|timeout|, p) && Sorted(TimersOf(p, timeout))
    requires k <= |p| && 0 < nr < |timeout| && nr !in p
    requires forall i :: 0 <= i < k ==> timeout[p[i]] < to
    requires k < |p| ==> timeout[p[k]] >= to
    ensures Entries(|timeout|, With(p, k, nr))
    ensures TimersOf(With(p, k, nr), timeout[nr := to]) == Inserted(TimersOf(p, timeout), Timer(nr, to))
    ensures Sorted(TimersOf(With(p, k, nr), timeout[nr := to]))
  {
    WithKeepsEntries(|timeout|, p, k, nr);
    TimersOfWith(p, timeout, k, nr, to);
    InsertedAt(TimersOf(p, timeout), k, Timer(nr, to));
    InsertedKeepsSorted(TimersOf(p, timeout), k, Timer(nr, to));
  }

  /** The timers of a queue that are due. */
  function Due(q: seq<Timer>, now: int): seq<Timer> {
    if q == [] then [] else if q[0].timeout <= now then [q[0]] + Due(q[1..], now) else Due(q[1..], now)
  }

  lemma {:induction false} DuePrefix(q: seq<Timer>, k: nat, now: int)
    requires k <= |q|
    requires forall i :: 0 <= i < k ==> q[i].timeout <= now
    requires forall i :: k <= i < |q| ==> q[i].timeout > now
    ensures Due(q, now) == q[..k]
    decreases |q|
  {
    if k > 0 {
      DuePrefix(q[1..], k - 1, now);
      assert q[1..][..k - 1] == q[..k][1..];
    } else if q != [] {
      DuePrefix(q[1..], 0, now);
    }
  }

  class TimeoutQueue {
    const next: array<nat>
    const prev: array<nat>
    const timeout: array<int>
    const free: array<bool>
    ghost var pending: seq<nat>
    ghost var timers: seq<Timer>

    ghost predicate Arrays()
      reads this
    {
      && 0 < next.Length == prev.Length == timeout.Length == free.Length
      && next != prev
    }

    ghost predicate Valid()
      reads this, next, prev, timeout
    {
      && Arrays()
      && Ring(next[..], prev[..], pending)
      && timers == TimersOf(pending, timeout[..]) && Sorted(timers)
      && timeout[0] == NEVER
      && (forall i :: 0 <= i < timeout.Length ==> timeout[i] <= NEVER)
    }

    /** `init`. */
    constructor (entries: nat)
      requires entries > 0
      ensures Valid() && timers == [] && timeout.Length == entries
      ensures forall i :: 0 <= i < entries ==> free[i]
      ensures fresh(next) && fresh(prev) && fresh(timeout) && fresh(free)
    {
      next := new nat[entries](i => i);
      prev := new nat[entries](i => i);
      timeout := new int[entries](i => if i == 0 then NEVER else 0);
      free := new bool[entries](i => true);
      pending, timers := [], [];
    }

    /** `timeout`: the head of the queue, or the sentinel's. */
    method Head() returns (t: int)
      requires Valid()
      ensures t == if timers == [] then NEVER else timers[0].timeout
    {
      assert next[..][At(pending, -1)] == At(pending, 0);
      t := timeout[next[0]];
    }

    /** The link updates of `cancel`. */
    method TakeOut(nr: nat, ghost k: nat)
      requires Arrays() && Ring(next[..], prev[..], pending)
      requires k < |pending| && pending[k] == nr
      modifies next, prev, this`pending
      ensures pending == Without(old(pending), k) && Ring(next[..], prev[..], pending)
    {
      ghost var p := pending;
      ghost var next0: seq<nat>, prev0: seq<nat> := next[..], prev[..];
      RingNeighbours(next0, prev0, p, k);
      UnlinkNext(next0, p, k);
      UnlinkPrev(prev0, p, k);
      var n, m := next[nr], prev[nr];
      assert n == At(p, k + 1) && m == At(p, k - 1);
      prev[n] := m;
      next[m] := n;
      next[nr], prev[nr] := nr, nr;
      pending := Without(p, k);
      assert next[..] == next0[m := n][nr := nr];
      assert prev[..] == prev0[n := m][nr := nr];
    }

    /** `cancel`. */
    method Cancel(nr: nat) returns (res: int)
      requires Valid()
      modifies next, prev, this`pending, this`timers
      ensures Valid()
      ensures timers == Removed(old(timers), nr)
      ensures nr !in pending
      ensures res == if nr == 0 || nr >= next.Length then -1 else if nr !in old(pending) then -2
                     else if old(pending)[0] == nr then 0 else 1
    {
      if nr == 0 || nr >= next.Length {
        RemovedAbsent(timers, nr);
        return -1;
      }
      InRing(next[..], prev[..], pending, nr);
      if next[nr] == nr {
        RemovedAbsent(timers, nr);
        return -2;
      }
      ghost var k :| 0 <= k < |pending| && pending[k] == nr;
      assert next[..][At(pending, -1)] == At(pending, 0);
      res := if next[0] != nr then 1 else 0;
      RemovedTimers(pending, timeout[..], k);
      TakeOut(nr, k);
      timers := Removed(timers, nr);
    }

    /** `alloc`: the least free entry but the sentinel, or 0 where the original stops because there is none. */
    method Alloc() returns (nr: nat)
      requires Valid()
      modifies free
      ensures nr == 0 <==> forall i :: 0 < i < free.Length ==> !old(free[i])
      ensures nr > 0 ==> nr < free.Length && old(free[nr]) && forall i :: 0 < i < nr ==> !old(free[i])
      ensures forall i :: 0 <= i < free.Length ==> free[i] == (old(free[i]) && (i != nr || nr == 0))
    {
      var i := 1;
      while i < free.Length
        invariant 1 <= i && forall j :: 0 < j < i && j < free.Length ==> !free[j]
        invariant forall j :: 0 <= j < free.Length ==> free[j] == old(free[j])
      {
        if free[i] {
          free[i] := false;
          return i;
        }
        i := i + 1;
      }
      nr := 0;
    }

    /** `dealloc`: refuses the sentinel, entries that do not exist and entries that are free already. */
    method Dealloc(nr: nat, withCancel: bool) returns (res: nat)
      requires Valid()
      modifies next, prev, free, this`pending, this`timers
      ensures Valid()
      ensures res == if nr == 0 || nr >= free.Length || old(free[nr]) then 0 else 1
      ensures timers == if res == 1 && withCancel then Removed(old(timers), nr) else old(timers)
      ensures forall i :: 0 <= i < free.Length ==> free[i] == (old(free[i]) || (res == 1 && i == nr))
    {
      if nr == 0 || nr > free.Length - 1 {
        return 0;
      }
      if free[nr] {
        return 0;
      }
      if withCancel {
        var _ := Cancel(nr);
      }
      free[nr] := true;
      res := 1;
    }

    /** The scan of `request` from the sentinel to the first timer that is not earlier. */
    method Scan(to: int) returns (t: nat, ghost k: nat)
      requires Valid() && to <= NEVER
      ensures k <= |pending| && t == At(pending, k)
      ensures forall i :: 0 <= i < k ==> timeout[pending[i]] < to
      ensures k < |pending| ==> timeout[pending[k]] >= to
    {
      assert next[..][At(pending, -1)] == At(pending, 0);
      t, k := next[0], 0;
      while timeout[t] < to
        invariant k <= |pending| && t == At(pending, k)
        invariant forall i :: 0 <= i < k ==> timeout[pending[i]] < to
        decreases |pending| - k
      {
        assert next[..][At(pending, k)] == At(pending, k + 1);
        t, k := next[t], k + 1;
      }
    }

    /** `request`: cancels the timer and inserts it again in the order of the timeouts. */
    method Request(nr: nat, to: int) returns (res: int)
      requires Valid() && 0 <= to <= NEVER && nr != next.Length
      modifies next, prev, timeout, this`pending, this`timers
      ensures Valid()
      ensures nr == 0 || nr > next.Length ==> res == -1 && timers == old(timers)
      ensures 0 < nr < next.Length ==> timers == Inserted(Removed(old(timers), nr), Timer(nr, to))
      ensures 0 < nr < next.Length ==>
                res == if (timers[0].timeout == if old(timers) == [] then NEVER else old(timers)[0].timeout)
                       then 1 else 0
    {
      if nr == 0 || nr > next.Length {
        return -1;
      }
      var head := Head();
      var _ := Cancel(nr);
      var t, k := Scan(to);
      Enqueue(nr, to, t, k);
      var head' := Head();
      res := if head' == head then 1 else 0;
    }

    /** Sets the timeout of an entry and links it in before entry t. */
    method Enqueue(nr: nat, to: int, t: nat, ghost k: nat)
      requires Valid() && to <= NEVER && 0 < nr < next.Length && nr !in pending
      requires k <= |pending| && t == At(pending, k)
      requires forall i :: 0 <= i < k ==> timeout[pending[i]] < to
      requires k < |pending| ==> timeout[pending[k]] >= to
      modifies next, prev, timeout, this`pending, this`timers
      ensures Valid() && timers == Inserted(old(timers), Timer(nr, to))
    {
      InsertedTimers(pending, timeout[..], k, nr, to);
      ghost var before := timeout[..];
      PutIn(nr, t, k);
      timers := Inserted(timers, Timer(nr, to));
      timeout[nr] := to;
      assert timeout[..] == before[nr := to];
    }

    /** The link updates of `request`. */
    method PutIn(nr: nat, t: nat, ghost k: nat)
      requires Arrays() && Ring(next[..], prev[..], pending)
      requires k <= |pending| && t == At(pending, k) && 0 < nr < next.Length && nr !in pending
      modifies next, prev, this`pending
      ensures pending == With(old(pending), k, nr) && Ring(next[..], prev[..], pending)
    {
      ghost var p := pending;
      ghost var next0: seq<nat>, prev0: seq<nat> := next[..], prev[..];
      assert prev0[At(p, k)] == At(p, k - 1);
      LinkNext(next0, p, k, nr);
      LinkPrev(prev0, p, k, nr);
      var m := prev[t];
      next[nr] := t;
      prev[nr] := m;
      next[m] := nr;
      prev[t] := nr;
      pending := With(p, k, nr);
      assert next[..] == next0[nr := t][m := nr];
      assert prev[..] == prev0[nr := m][t := nr];
    }

    /** `trigger`: the first timer if it is due, otherwise 0. */
    method Trigger(now: int) returns (nr: nat)
      requires Valid() && 0 <= now <= NEVER
      ensures nr == FirstDue(timers, now)
    {
      assert next[..][At(pending, -1)] == At(pending, 0);
      var t := Head();
      nr := if now >= t then next[0] else 0;
    }

    /** The body of the trigger loop: records the timeout of the head and cancels it. */
    method TakeDue(nr: nat) returns (t: Timer)
      requires Valid() && timers != [] && timers[0].nr == nr
      modifies next, prev, this`pending, this`timers
      ensures Valid() && old(timers) == [t] + timers && t.nr == nr
    {
      RemovedHead(pending, timeout[..]);
      var head := Head();
      t := Timer(nr, head);
      var _ := Cancel(nr);
    }

    /** `timeout_trigger`: fires all due timers, and only these, in order. */
    method TriggerAll(now: int) returns (fired: seq<Timer>)
      requires Valid() && 0 <= now <= NEVER
      modifies next, prev, this`pending, this`timers
      ensures Valid()
      ensures fired == Due(old(timers), now)
      ensures old(timers) == fired + timers
      ensures forall i :: 0 <= i < |timers| ==> timers[i].timeout > now
    {
      fired := [];
      ghost var q := timers;
      var nr := Trigger(now);
      while nr != 0
        invariant Valid() && Draining(q, fired, timers, now)
        invariant nr == FirstDue(timers, now)
        decreases |timers|
      {
        ghost var rest := timers;
        var t := TakeDue(nr);
        DrainStep(q, fired, t, timers, now);
        fired := fired + [t];
        nr := Trigger(now);
      }
      DrainEnd(q, fired, timers, now);
    }
  }

  /** The number of the first timer if it is due; timers have positive numbers. */
  function FirstDue(q: seq<Timer>, now: int): nat {
    if q != [] && q[0].timeout <= now then q[0].nr else 0
  }

  ghost predicate Draining(q: seq<Timer>, fired: seq<Timer>, rest: seq<Timer>, now: int) {
    && q == fired + rest && Sorted(rest)
    && (forall i :: 0 <= i < |fired| ==> fired[i].timeout <= now)
    && (forall i :: 0 <= i < |rest| ==> rest[i].nr > 0)
  }

  lemma DrainStep(q: seq<Timer>, fired: seq<Timer>, t: Timer, rest: seq<Timer>, now: int)
    requires Draining(q, fired, [t] + rest, now) && t.timeout <= now
    ensures Draining(q, fired + [t], rest, now)
  {
    var all := [t] + rest;
    assert rest == all[1..];
    assert fired + all == fired + [t] + rest;
  }

  lemma DrainEnd(q: seq<Timer>, fired: seq<Timer>, rest: seq<Timer>, now: int)
    requires Draining(q, fired, rest, now) && FirstDue(rest, now) == 0
    ensures forall i :: 0 <= i < |rest| ==> rest[i].timeout > now
    ensures fired == Due(q, now)
  {
    DuePrefix(q, |fired|, now);
  }
}
