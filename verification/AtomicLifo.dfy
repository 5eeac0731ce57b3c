/**
 The lock-free LIFO of include/service/lifo.h: `enqueue` links a node in front of the list
 with a compare-and-swap loop, `dequeue_all` takes the whole list with an exchange. Every
 memory access is a step, and threads interleave in any way.
 */
module AtomicLifo {
  import opened Common

  /** Nodes are numbered from 1; 0 is the null pointer. */
  const NULL: nat := 0

  /** Where a thread stands in `enqueue(value)`. */
  datatype Pc =
    | Load(value: nat)             // before `old = _head`
    | Link(value: nat, old_: nat)  // before `value->lifo_next = old`
    | Cas(value: nat, old_: nat)   // before the compare-and-swap

  /**
   `next` is the `lifo_next` field of every node and `head` the shared pointer. The other
   two fields record the history: the nodes in the order of their successful
   compare-and-swaps, and the chains of nodes that `dequeue_all` returned.
   */
  datatype State = State(next: map<nat, nat>, head: nat, threads: map<nat, Pc>,
                         list: seq<nat>, enqueued: seq<nat>, taken: seq<seq<nat>>)

  predicate Initial(s: State) {
    && s.head == NULL && s.threads == map[] && s.list == [] && s.enqueued == [] && s.taken == []
  }

  datatype Step =
    | Call(id: nat, value: nat)
    | Run(id: nat)
    | DequeueAll
    | Write(node: nat, pointer: nat)

  /** Nobody is enqueuing the node and it is not in the list: it belongs to its user. */
  ghost predicate Free(s: State, node: nat) {
    && node != NULL && node in s.next && node !in s.list
    && forall id :: id in s.threads ==> s.threads[id].value != node
  }

  ghost predicate Enabled(s: State, step: Step) {
    match step
    case Call(id, value) => id !in s.threads && Free(s, value)
    case Run(id) => id in s.threads
    case DequeueAll => true
    case Write(node, _) => Free(s, node)
  }

  /** One memory access of `enqueue`. */
  function RunThread(s: State, id: nat): State
    requires id in s.threads
  {
    match s.threads[id]
    case Load(v) => s.(threads := s.threads[id := Link(v, s.head)])
    case Link(v, o) => s.(next := s.next[v := o], threads := s.threads[id := Cas(v, o)])
    case Cas(v, o) =>
      if s.head == o then
        s.(head := v, threads := s.threads - {id}, list := [v] + s.list, enqueued := s.enqueued + [v])
      else s.(threads := s.threads[id := Load(v)])
  }

  function Next(s: State, step: Step): State
    requires step.Run? ==> step.id in s.threads
  {
    match step
    case Call(id, value) => s.(threads := s.threads[id := Load(value)])
    case Run(id) => RunThread(s, id)
    case DequeueAll => s.(head := NULL, list := [], taken := s.taken + [s.list])
    case Write(node, pointer) => s.(next := s.next[node := pointer])
  }

  // ---------------------------------------------------------------- the list in memory

  /** Following `lifo_next` from `p` visits exactly the nodes of `list`, in this order. */
  predicate Chain(next: map<nat, nat>, p: nat, list: seq<nat>)
    decreases |list|
  {
    if list == [] then p == NULL
    else p == list[0] && p != NULL && p in next && Chain(next, next[p], list[1..])
  }

  lemma {:induction false} ChainKept(next: map<nat, nat>, p: nat, list: seq<nat>, node: nat, pointer: nat)
    requires Chain(next, p, list) && node !in list
    ensures Chain(next[node := pointer], p, list)
    decreases |list|
  {
    if list != [] {
      ChainKept(next, next[p], list[1..], node, pointer);
    }
  }

  /** A chain determines the nodes: the pointer alone says what was taken. */
  lemma {:induction false} ChainUnique(next: map<nat, nat>, p: nat, a: seq<nat>, b: seq<nat>)
    requires Chain(next, p, a) && Chain(next, p, b)
    ensures a == b
    decreases |a|
  {
    if a != [] {
      ChainUnique(next, next[p], a[1..], b[1..]);
      assert a == [a[0]] + a[1..] && b == [b[0]] + b[1..];
    }
  }

  // ---------------------------------------------------------------- the invariant

  /** The nodes taken by all `dequeue_all` calls, in the order in which they were enqueued. */
  function Oldest(taken: seq<seq<nat>>): seq<nat> {
    if taken == [] then [] else Oldest(taken[..|taken| - 1]) + Reverse(taken[|taken| - 1])
  }

  function Reverse(list: seq<nat>): seq<nat> {
    if list == [] then [] else Reverse(list[1..]) + [list[0]]
  }

  ghost predicate ThreadOk(s: State, id: nat)
    requires id in s.threads
  {
    var pc := s.threads[id];
    && pc.value != NULL && pc.value in s.next && pc.value !in s.list
    && (pc.Cas? ==> s.next[pc.value] == pc.old_)
  }

  ghost predicate Inv(s: State) {
    && Chain(s.next, s.head, s.list) && Distinct(s.list)
    && (forall id :: id in s.threads ==> ThreadOk(s, id))
    && (forall id, other :: id in s.threads && other in s.threads && id != other
                            ==> s.threads[id].value != s.threads[other].value)
    && s.enqueued == Oldest(s.taken) + Reverse(s.list)
  }

  /** A successful compare-and-swap extends the list, even if the head changed and came back in between. */
  lemma PushKeepsInv(s: State, id: nat)
    requires Inv(s) && id in s.threads && s.threads[id].Cas? && s.head == s.threads[id].old_
    ensures Inv(RunThread(s, id))
  {
    var r := RunThread(s, id);
    var v := s.threads[id].value;
    assert ThreadOk(s, id);
    assert r.list[1..] == s.list;
    forall other | other in r.threads
      ensures ThreadOk(r, other)
    {
      assert ThreadOk(s, other);
    }
    assert Oldest(s.taken) + Reverse(s.list) + [v] == Oldest(r.taken) + Reverse(r.list);
  }

  /** The other accesses of `enqueue` leave the list alone. */
  lemma AccessKeepsInv(s: State, id: nat)
    requires Inv(s) && id in s.threads && !(s.threads[id].Cas? && s.head == s.threads[id].old_)
    ensures Inv(RunThread(s, id))
  {
    var r := RunThread(s, id);
    assert ThreadOk(s, id);
    if s.threads[id].Link? {
      ChainKept(s.next, s.head, s.list, s.threads[id].value, s.threads[id].old_);
    }
    forall other | other in r.threads
      ensures ThreadOk(r, other)
    {
      assert ThreadOk(s, other);
    }
  }

  lemma DequeueKeepsInv(s: State)
    requires Inv(s)
    ensures Inv(Next(s, DequeueAll))
  {
    var r := Next(s, DequeueAll);
    assert r.taken[..|r.taken| - 1] == s.taken;
    assert Oldest(r.taken) + [] == Oldest(r.taken);
    forall other | other in r.threads
      ensures ThreadOk(r, other)
    {
      assert ThreadOk(s, other);
    }
  }

  lemma StepKeepsInv(s: State, step: Step)
    requires Inv(s) && Enabled(s, step)
    ensures Inv(Next(s, step))
  {
    match step
    case Call(id, value) =>
      var r := Next(s, step);
      forall other | other in r.threads
        ensures ThreadOk(r, other)
      {
        assert other != id ==> ThreadOk(s, other);
      }
    case Run(id) =>
      if s.threads[id].Cas? && s.head == s.threads[id].old_ {
        PushKeepsInv(s, id);
      } else {
        AccessKeepsInv(s, id);
      }
    case DequeueAll => DequeueKeepsInv(s);
    case Write(node, pointer) =>
      ChainKept(s.next, s.head, s.list, node, pointer);
      var r := Next(s, step);
      forall other | other in r.threads
        ensures ThreadOk(r, other)
      {
        assert ThreadOk(s, other);
      }
  }

  ghost predicate IsRun(states: seq<State>, steps: seq<Step>) {
    && |states| == |steps| + 1
    && Initial(states[0])
    && forall i :: 0 <= i < |steps| ==> Enabled(states[i], steps[i]) && states[i + 1] == Next(states[i], steps[i])
  }

  lemma {:induction false} InvOverAllRuns(states: seq<State>, steps: seq<Step>, i: nat)
    requires IsRun(states, steps) && i < |states|
    ensures Inv(states[i])
    decreases i
  {
    if i > 0 {
      InvOverAllRuns(states, steps, i - 1);
      StepKeepsInv(states[i - 1], steps[i - 1]);
    }
  }

  // ---------------------------------------------------------------- linearizability

  /**
   At every moment of every run the pointer leads, without a cycle, through exactly the nodes
   enqueued and not taken, newest first; and the nodes taken so far together with these are
   all enqueues, each exactly once and in the order of the compare-and-swaps.
   */
  lemma Linearizable(states: seq<State>, steps: seq<Step>, i: nat)
    requires IsRun(states, steps) && i < |states|
    ensures var s := states[i];
            && Chain(s.next, s.head, s.list) && Distinct(s.list)
            && s.enqueued == Oldest(s.taken) + Reverse(s.list)
  {
    InvOverAllRuns(states, steps, i);
  }

  /** Each enqueue is returned by exactly one `dequeue_all`: the counts agree for every node. */
  lemma EachTakenOnce(states: seq<State>, steps: seq<Step>, i: nat)
    requires IsRun(states, steps) && i < |states|
    ensures multiset(states[i].enqueued) == TakenNodes(states[i].taken) + multiset(states[i].list)
  {
    InvOverAllRuns(states, steps, i);
    OldestCounts(states[i].taken);
    ReverseCounts(states[i].list);
  }

  function TakenNodes(taken: seq<seq<nat>>): multiset<nat> {
    if taken == [] then multiset{} else TakenNodes(taken[..|taken| - 1]) + multiset(taken[|taken| - 1])
  }

  lemma {:induction false} ReverseCounts(list: seq<nat>)
    ensures multiset(Reverse(list)) == multiset(list)
    decreases |list|
  {
    if list != [] {
      ReverseCounts(list[1..]);
      assert list == [list[0]] + list[1..];
    }
  }

  lemma {:induction false} OldestCounts(taken: seq<seq<nat>>)
    ensures multiset(Oldest(taken)) == TakenNodes(taken)
    decreases |taken|
  {
    if taken != [] {
      OldestCounts(taken[..|taken| - 1]);
      ReverseCounts(taken[|taken| - 1]);
    }
  }

  // ---------------------------------------------------------------- progress

  /** The step is the compare-and-swap by which thread id puts v in front of the list. */
  ghost predicate Pushes(s: State, step: Step, id: nat, v: nat) {
    && step == Run(id) && id in s.threads && s.threads[id] == Cas(v, s.head)
    && Next(s, step).list == [v] + s.list && Next(s, step).enqueued == s.enqueued + [v]
  }

  ghost predicate IsPushed(states: seq<State>, steps: seq<Step>, i: nat, j: nat, id: nat, v: nat)
    requires IsRun(states, steps)
  {
    exists k :: i < k < j && k < |steps| && Pushes(states[k], steps[k], id, v)
  }

  ghost predicate IsEnqueuing(s: State, id: nat, v: nat) { id in s.threads && s.threads[id].value == v }

  lemma EnqueuingStep(s: State, step: Step, id: nat, v: nat)
    requires Enabled(s, step) && IsEnqueuing(s, id, v)
    ensures IsEnqueuing(Next(s, step), id, v) || Pushes(s, step, id, v)
  {
  }

  /** No enqueue is lost: a call is under way until its node is in the list. */
  lemma {:induction false} CallIsPending(states: seq<State>, steps: seq<Step>, i: nat, j: nat)
    requires IsRun(states, steps) && i < j < |states| && steps[i].Call?
    ensures var id, v := steps[i].id, steps[i].value;
            IsEnqueuing(states[j], id, v) || IsPushed(states, steps, i, j, id, v)
    decreases j
  {
    var id, v := steps[i].id, steps[i].value;
    if j > i + 1 {
      CallIsPending(states, steps, i, j - 1);
      if !IsPushed(states, steps, i, j - 1, id, v) {
        EnqueuingStep(states[j - 1], steps[j - 1], id, v);
      }
    }
  }

  /** At most n accesses of one thread, with nobody in between. */
  function Alone(s: State, id: nat, n: nat): State
    decreases n
  {
    if n == 0 || id !in s.threads then s else Alone(RunThread(s, id), id, n - 1)
  }

  /** Thread id has put v in front of the list and is done; all else is as before. */
  ghost predicate Pushed(s: State, r: State, id: nat, v: nat) {
    && r.head == v && r.list == [v] + s.list && r.enqueued == s.enqueued + [v]
    && r.threads == s.threads - {id} && r.taken == s.taken
  }

  /** A thread that is not interrupted puts its node in front of the list, at the latest in its second attempt. */
  lemma PushesAlone(s: State, id: nat, n: nat)
    requires id in s.threads && n >= 5
    ensures Pushed(s, Alone(s, id, n), id, s.threads[id].value)
  {
    match s.threads[id]
    case Load(v) => LoadAlone(s, id, v, n - 3);
    case Link(v, o) => LinkAlone(s, id, v, o, n - 5);
    case Cas(v, o) => CasAlone(s, id, v, o, n - 4);
  }

  lemma LoadAlone(s: State, id: nat, v: nat, more: nat)
    requires id in s.threads && s.threads[id] == Load(v)
    ensures Pushed(s, Alone(s, id, 3 + more), id, v)
  {
    var s1 := RunThread(s, id);
    var s2 := RunThread(s1, id);
    var s3 := RunThread(s2, id);
    assert s1.threads[id] == Link(v, s.head) && s2.threads[id] == Cas(v, s.head);
    assert s3.threads == s.threads - {id};
    assert Alone(s2, id, 1 + more) == Alone(s3, id, more) == s3;
    assert Alone(s1, id, 2 + more) == Alone(s2, id, 1 + more);
  }

  lemma CasAlone(s: State, id: nat, v: nat, o: nat, more: nat)
    requires id in s.threads && s.threads[id] == Cas(v, o)
    ensures Pushed(s, Alone(s, id, 4 + more), id, v)
  {
    var s1 := RunThread(s, id);
    assert Alone(s, id, 4 + more) == Alone(s1, id, 3 + more);
    if s.head != o {
      assert s1.threads[id] == Load(v) && s1.threads - {id} == s.threads - {id};
      LoadAlone(s1, id, v, more);
    }
  }

  lemma LinkAlone(s: State, id: nat, v: nat, o: nat, more: nat)
    requires id in s.threads && s.threads[id] == Link(v, o)
    ensures Pushed(s, Alone(s, id, 5 + more), id, v)
  {
    var s1 := RunThread(s, id);
    assert s1.threads[id] == Cas(v, o) && s1.threads - {id} == s.threads - {id};
    CasAlone(s1, id, v, o, more);
    assert Alone(s, id, 5 + more) == Alone(s1, id, 4 + more);
  }

  /** The step takes the list or extends it. */
  ghost predicate Succeeds(s: State, step: Step) {
    step == DequeueAll || (step.Run? && step.id in s.threads && Pushes(s, step, step.id, s.threads[step.id].value))
  }

  lemma OnlySuccessMovesHead(s: State, step: Step)
    requires Enabled(s, step) && Next(s, step).head != s.head
    ensures Succeeds(s, step)
  {
  }

  lemma {:induction false} HeadMoved(states: seq<State>, steps: seq<Step>, i: nat, j: nat)
    requires IsRun(states, steps) && i <= j < |states| && states[i].head != states[j].head
    ensures exists k :: i <= k < j && Succeeds(states[k], steps[k])
    decreases j
  {
    if states[j - 1].head != states[j].head {
      OnlySuccessMovesHead(states[j - 1], steps[j - 1]);
    } else {
      HeadMoved(states, steps, i, j - 1);
    }
  }

  /** The thread has loaded the head at step i, and has not loaded it again before j. */
  ghost predicate LoadedAt(states: seq<State>, steps: seq<Step>, i: nat, j: nat, id: nat)
    requires IsRun(states, steps)
  {
    && i < j < |states| && steps[i] == Run(id) && id in states[i].threads && states[i].threads[id].Load?
    && id in states[j].threads && !states[j].threads[id].Load? && states[j].threads[id].old_ == states[i].head
  }

  lemma {:induction false} HasLoaded(states: seq<State>, steps: seq<Step>, j: nat, id: nat)
    requires IsRun(states, steps) && j < |states| && id in states[j].threads && !states[j].threads[id].Load?
    ensures exists i: nat :: LoadedAt(states, steps, i, j, id)
    decreases j
  {
    if states[j - 1].threads[id].Load? {
      assert LoadedAt(states, steps, j - 1, j, id);
    } else {
      HasLoaded(states, steps, j - 1, id);
      var i: nat :| LoadedAt(states, steps, i, j - 1, id);
      assert LoadedAt(states, steps, i, j, id);
    }
  }

  /** The list is lock-free: a compare-and-swap fails only if another operation has succeeded since the load. */
  lemma FailureMeansProgress(states: seq<State>, steps: seq<Step>, j: nat, id: nat)
    requires IsRun(states, steps) && j < |states| && id in states[j].threads
    requires states[j].threads[id].Cas? && states[j].threads[id].old_ != states[j].head
    ensures exists i: nat, k: nat :: LoadedAt(states, steps, i, j, id) && i < k < j && Succeeds(states[k], steps[k])
  {
    HasLoaded(states, steps, j, id);
    var i: nat :| LoadedAt(states, steps, i, j, id);
    assert states[i + 1].head == states[i].head;
    HeadMoved(states, steps, i + 1, j);
    var k :| i + 1 <= k < j && Succeeds(states[k], steps[k]);
  }
}
