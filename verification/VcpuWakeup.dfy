/**
 The event word of a virtual CPU (model/vcpu.cc): any number of threads raise events with
 `got_event`, while the VCPU examines the word in `prioritize_events` and goes to sleep on a
 semaphore when there is nothing to do. Every atomic operation is a step of its own, and all
 interleavings are considered.
 */
module VcpuWakeup {

  /** Bit numbers in the event word. */
  const INTR: nat := 0
  const INIT: nat := 5
  const SIPI: nat := 6

  /** Argument of `got_event`: event bits, the DEASS_INTR flag, and the word stored for a SIPI. */
  datatype Raised = Raised(bits: set<nat>, deassert: bool, word: nat)

  /** The bits of the raised value within EVENT_MASK. */
  function MaskBits(r: Raised): set<nat> { set b | b in r.bits && b < 8 }

  /** Where a thread stands in `got_event`. */
  datatype NotifierPc =
    | Begin(r: Raised)       // before DEASS_INTR is served
    | Check(r: Raised)       // before the test for new bits
    | Claim(r: Raised)       // before `_sipi` is written
    | Raise(r: Raised)       // before the atomic or
    | Look                   // before STATE_BLOCK is read for the release message
    | Release(blocked: bool) // before the release message is handled

  /** Where the VCPU stands in its loop. */
  datatype VcpuPc =
    | Running                  // in the guest
    | Examine                  // before the read of the event word in `prioritize_events`
    | Serve(read: set<nat>)    // clearing bits that it has read
    | Block                    // before STATE_BLOCK is set
    | Test                     // before STATE_WAKEUP is tested
    | Asleep                   // waiting for the semaphore
    | Unblock                  // before STATE_BLOCK and STATE_WAKEUP are cleared

  /** What happened to `_sipi`: it was emptied by an INIT, or claimed by a SIPI. */
  datatype SipiEvent = Emptied | Claimed(word: nat)

  /**
   `event`, `block` and `wakeup` are the event word, `sipi` the SIPI field and `tickets` the
   semaphore. `unread` are the bits raised since the VCPU last read the word, and `log`
   records the history of the SIPI field.
   */
  datatype State = State(event: set<nat>, block: bool, wakeup: bool, sipi: nat, tickets: nat,
                         vcpu: VcpuPc, threads: map<nat, NotifierPc>, unread: set<nat>, log: seq<SipiEvent>)

  const EMPTY_SIPI: nat := 0
  const INITIAL_SIPI: nat := 0xffff_ffff

  predicate Initial(s: State) {
    s == State({}, false, false, INITIAL_SIPI, 0, Running, map[], {}, [])
  }

  // ---------------------------------------------------------------- steps

  datatype Step =
    | Call(id: nat, r: Raised)
    | Thread(id: nat, post: bool)
    | Enter
    | Read
    | Clear(bits: set<nat>)
    | Resume
    | Halt
    | SetBlock
    | TestWakeup
    | Wake
    | ClearBlock

  /** A SIPI carries its event bit, so the word that claims the field is not empty. */
  predicate ValidRaised(r: Raised) {
    r.word > 0
  }

  predicate Enabled(s: State, step: Step) {
    match step
    case Call(id, r) => id !in s.threads && ValidRaised(r)
    case Thread(id, post) =>
      // a host may skip the semaphore only if it was told that the VCPU is not blocked
      id in s.threads && (s.threads[id] == Release(true) ==> post)
    case Enter => s.vcpu == Running
    case Read => s.vcpu == Examine
    case Clear(bits) => s.vcpu.Serve? && bits <= s.vcpu.read
    case Resume => s.vcpu.Serve?
    case Halt => s.vcpu.Serve?
    case SetBlock => s.vcpu == Block
    case TestWakeup => s.vcpu == Test
    case Wake => s.vcpu == Asleep && s.tickets > 0
    case ClearBlock => s.vcpu == Unblock
  }

  function Done(s: State, id: nat): State { s.(threads := s.threads - {id}) }

  function Goto(s: State, id: nat, pc: NotifierPc): State { s.(threads := s.threads[id := pc]) }

  /** One atomic operation of `got_event`. */
  function ThreadStep(s: State, id: nat, post: bool): State
    requires id in s.threads
  {
    match s.threads[id]
    case Begin(r) =>
      Goto(if r.deassert then s.(event := s.event - {INTR}) else s, id, Check(r))
    case Check(r) =>
      if r.bits <= s.event then Done(s, id) else Goto(s, id, Claim(r))
    case Claim(r) =>
      if MaskBits(r) == {INIT} then Goto(s.(sipi := EMPTY_SIPI, log := s.log + [Emptied]), id, Raise(r))
      else if MaskBits(r) == {SIPI} then
        if s.sipi != EMPTY_SIPI then Done(s, id)
        else Goto(s.(sipi := r.word, log := s.log + [Claimed(r.word)]), id, Raise(r))
      else Goto(s, id, Raise(r))
    case Raise(r) =>
      Goto(s.(event := s.event + r.bits, wakeup := true, unread := s.unread + r.bits), id, Look)
    case Look => Goto(s, id, Release(s.block))
    case Release(blocked) => Done(if post then s.(tickets := s.tickets + 1) else s, id)
  }

  function Next(s: State, step: Step): State
    requires Enabled(s, step)
  {
    match step
    case Call(id, r) => Goto(s, id, Begin(r))
    case Thread(id, post) => ThreadStep(s, id, post)
    case Enter => s.(vcpu := Examine)
    case Read => s.(vcpu := Serve(s.event), unread := {})
    case Clear(bits) => s.(event := s.event - bits)
    case Resume => s.(vcpu := Running)
    case Halt => s.(vcpu := Block)
    case SetBlock => s.(block := true, vcpu := Test)
    case TestWakeup => s.(vcpu := if s.wakeup then Unblock else Asleep)
    case Wake => s.(tickets := s.tickets - 1, vcpu := Unblock)
    case ClearBlock => s.(block := false, wakeup := false, vcpu := Examine)
  }

  // ---------------------------------------------------------------- the invariant

  /** The thread has raised its event and will post the semaphore for a VCPU that is blocked. */
  predicate WillPost(s: State, id: nat) {
    id in s.threads && (s.threads[id] == Look || s.threads[id] == Release(true))
  }

  ghost predicate SleepInv(s: State) {
    // STATE_BLOCK is set exactly from the moment the VCPU sets it until it clears it
    && (s.block <==> s.vcpu == Test || s.vcpu == Asleep || s.vcpu == Unblock)
    // whatever was raised since the last read has left STATE_WAKEUP set, until the next read
    && (s.unread != {} ==> s.wakeup || s.vcpu == Examine)
    // a wakeup that the sleeping VCPU did not see is backed by the semaphore or by a thread
    && (s.vcpu == Asleep && s.wakeup ==> s.tickets > 0 || exists id :: WillPost(s, id))
  }

  /** The word of a raised event that has not been claimed yet is valid. */
  predicate ValidPc(pc: NotifierPc) {
    pc.Begin? || pc.Check? || pc.Claim? ==> ValidRaised(pc.r)
  }

  /** The SIPI field is empty exactly after an INIT, and only an empty field is claimed. */
  ghost predicate SipiLog(sipi: nat, log: seq<SipiEvent>) {
    && (sipi == EMPTY_SIPI <==> log != [] && log[|log| - 1] == Emptied)
    && (forall i :: 0 <= i < |log| && log[i].Claimed? ==> i > 0 && log[i - 1] == Emptied)
  }

  ghost predicate ValidThreads(threads: map<nat, NotifierPc>) {
    forall id :: id in threads ==> ValidPc(threads[id])
  }

  ghost predicate SipiInv(s: State) { SipiLog(s.sipi, s.log) && ValidThreads(s.threads) }

  ghost predicate Inv(s: State) { SleepInv(s) && SipiInv(s) }

  lemma StepKeepsSleepInv(s: State, step: Step)
    requires SleepInv(s) && Enabled(s, step)
    ensures SleepInv(Next(s, step))
  {
    var r := Next(s, step);
    if r.vcpu == Asleep && r.wakeup && r.tickets == 0 {
      if step.Thread? && s.threads[step.id].Raise? {
        assert WillPost(r, step.id);
      } else {
        assert s.vcpu == Asleep && s.wakeup;
        var id :| WillPost(s, id);
        assert WillPost(r, id);
      }
    }
  }

  lemma StepKeepsThreads(s: State, step: Step)
    requires ValidThreads(s.threads) && Enabled(s, step)
    ensures ValidThreads(Next(s, step).threads)
  {
    if step.Thread? {
      assert ValidPc(s.threads[step.id]);
    }
  }

  lemma StepKeepsSipiLog(s: State, step: Step)
    requires SipiInv(s) && Enabled(s, step)
    ensures SipiLog(Next(s, step).sipi, Next(s, step).log)
  {
    if step.Thread? && s.threads[step.id].Claim? {
      assert ValidPc(s.threads[step.id]);
      ClaimKeepsSipiLog(s.sipi, s.log, s.threads[step.id].r.word);
    } else {
      SipiUnchanged(s, step);
    }
  }

  /** Only a thread that claims the SIPI field changes it. */
  lemma SipiUnchanged(s: State, step: Step)
    requires Enabled(s, step) && !(step.Thread? && s.threads[step.id].Claim?)
    ensures Next(s, step).sipi == s.sipi && Next(s, step).log == s.log
  {
  }

  lemma ClaimKeepsSipiLog(sipi: nat, log: seq<SipiEvent>, word: nat)
    requires SipiLog(sipi, log) && word > 0
    ensures SipiLog(EMPTY_SIPI, log + [Emptied])
    ensures sipi == EMPTY_SIPI ==> SipiLog(word, log + [Claimed(word)])
  {
  }

  lemma StepKeepsSipiInv(s: State, step: Step)
    requires SipiInv(s) && Enabled(s, step)
    ensures SipiInv(Next(s, step))
  {
    StepKeepsThreads(s, step);
    StepKeepsSipiLog(s, step);
  }

  lemma StepKeepsInv(s: State, step: Step)
    requires Inv(s) && Enabled(s, step)
    ensures Inv(Next(s, step))
  {
    StepKeepsSleepInv(s, step);
    StepKeepsSipiInv(s, step);
  }

  ghost predicate IsRun(states: seq<State>, steps: seq<Step>) {
    && |states| == |steps| + 1
    && Initial(states[0])
    && forall i :: 0 <= i < |steps| ==> Enabled(states[i], steps[i]) && states[i + 1] == Next(states[i], steps[i])
  }

  lemma {:induction false} InvOverAllRuns(states: seq<State>, steps: seq<Step>, i: nat)
    requires IsRun(states, steps) && i < |states|
    ensures Inv(states[i])
    decreases i
  {
    if i > 0 {
      InvOverAllRuns(states, steps, i - 1);
      StepKeepsInv(states[i - 1], steps[i - 1]);
    }
  }

  // ---------------------------------------------------------------- no lost wakeup

  /**
   In no interleaving is the VCPU asleep on an empty semaphore while the event word holds a
   bit that was raised since its last read, unless a thread is still about to post.
   */
  lemma NoLostWakeup(states: seq<State>, steps: seq<Step>, i: nat)
    requires IsRun(states, steps) && i < |states|
    requires states[i].vcpu == Asleep && states[i].tickets == 0 && states[i].event * states[i].unread != {}
    ensures exists id :: WillPost(states[i], id)
  {
    InvOverAllRuns(states, steps, i);
    assert states[i].unread != {};
  }

  /** The state after a sequence of steps that are enabled one after the other. */
  ghost predicate Reaches(s: State, steps: seq<Step>, r: State)
    decreases |steps|
  {
    if steps == [] then s == r
    else Enabled(s, steps[0]) && Reaches(Next(s, steps[0]), steps[1..], r)
  }

  lemma ReachesCons(s: State, step: Step, steps: seq<Step>, r: State)
    requires Enabled(s, step) && Reaches(Next(s, step), steps, r)
    ensures Reaches(s, [step] + steps, r)
  {
    assert ([step] + steps)[1..] == steps;
  }

  /** With a ticket the sleeping VCPU wakes up and examines everything that was raised. */
  lemma WakesWithTicket(s: State)
    requires s.vcpu == Asleep && s.tickets > 0
    ensures exists r :: Reaches(s, [Wake, ClearBlock, Read], r) && r.vcpu == Serve(s.event)
  {
    var s1 := Next(s, Wake);
    var s2 := Next(s1, ClearBlock);
    var r := Next(s2, Read);
    ReachesCons(s2, Read, [], r);
    assert [Read] + [] == [Read];
    ReachesCons(s1, ClearBlock, [Read], r);
    assert [ClearBlock] + [Read] == [ClearBlock, Read];
    ReachesCons(s, Wake, [ClearBlock, Read], r);
    assert [Wake] + [ClearBlock, Read] == [Wake, ClearBlock, Read];
    assert r.vcpu == Serve(s.event);
  }

  /** A VCPU that sleeps on an unread event can always be woken by the threads that raised it. */
  lemma SleeperCanWake(states: seq<State>, steps: seq<Step>, i: nat)
    requires IsRun(states, steps) && i < |states|
    requires states[i].vcpu == Asleep && states[i].event * states[i].unread != {}
    ensures exists more, r :: Reaches(states[i], more, r) && r.vcpu == Serve(states[i].event)
  {
    var s := states[i];
    InvOverAllRuns(states, steps, i);
    if s.tickets > 0 {
      WakesWithTicket(s);
    } else {
      assert s.unread != {};
      var id :| WillPost(s, id);
      if s.threads[id] == Look {
        var s1 := Next(s, Thread(id, true));
        assert s1.threads[id] == Release(true);
        PostThenWake(s1, id);
        var more, r :| Reaches(s1, more, r) && r.vcpu == Serve(s.event);
        ReachesCons(s, Thread(id, true), more, r);
      } else {
        PostThenWake(s, id);
      }
    }
  }

  lemma PostThenWake(s: State, id: nat)
    requires s.vcpu == Asleep && id in s.threads && s.threads[id] == Release(true)
    ensures exists more, r :: Reaches(s, more, r) && r.vcpu == Serve(s.event)
  {
    var s1 := Next(s, Thread(id, true));
    WakesWithTicket(s1);
    var r :| Reaches(s1, [Wake, ClearBlock, Read], r) && r.vcpu == Serve(s1.event);
    ReachesCons(s, Thread(id, true), [Wake, ClearBlock, Read], r);
  }

  // ---------------------------------------------------------------- a call that is not interrupted

  /** Of the eight events that the mask covers, exactly event b is raised. */
  ghost predicate RaisesOnly(r: Raised, b: nat) { forall k: nat :: k < 8 ==> (k in r.bits <==> k == b) }

  lemma MaskedOnly(r: Raised, b: nat)
    requires b < 8
    ensures MaskBits(r) == {b} <==> RaisesOnly(r, b)
  {
    if RaisesOnly(r, b) {
      assert forall k :: k in MaskBits(r) <==> k in {b};
    } else if MaskBits(r) == {b} {
      forall k: nat | k < 8
        ensures k in r.bits <==> k == b
      {
        assert k in MaskBits(r) <==> k in {b};
      }
    }
  }

  /** The call changes nothing but INTR: all its bits are there, or it is a SIPI that nobody waits for. */
  ghost predicate Ignored(s: State, r: Raised, left: set<nat>) {
    r.bits <= left || (RaisesOnly(r, 6) && s.sipi != 0)
  }

  /** `got_event` in one go; event 0 is INTR, 5 is INIT and 6 is SIPI. */
  ghost function GotEvent(s: State, r: Raised): State {
    var left := if r.deassert then s.event - {0} else s.event;
    if Ignored(s, r, left) then s.(event := left)
    else
      s.(event := left + r.bits, unread := s.unread + r.bits, wakeup := true, tickets := s.tickets + 1,
         sipi := if RaisesOnly(r, 5) then 0 else if RaisesOnly(r, 6) then r.word else s.sipi,
         log := s.log + (if RaisesOnly(r, 5) then [Emptied] else if RaisesOnly(r, 6) then [Claimed(r.word)] else []))
  }

  /** At most n steps of one thread, with nobody in between. */
  function Alone(s: State, id: nat, n: nat): State
    decreases n
  {
    if n == 0 || id !in s.threads then s else Alone(ThreadStep(s, id, true), id, n - 1)
  }

  /** A call whose steps are not interrupted does all of `got_event` at once. */
  lemma CallAlone(s: State, id: nat, r: Raised)
    requires Enabled(s, Call(id, r))
    ensures Alone(Next(s, Call(id, r)), id, 6) == GotEvent(s, r)
  {
    var left := if r.deassert then s.event - {INTR} else s.event;
    var s1 := Next(s, Call(id, r));
    var s2 := ThreadStep(s1, id, true);
    assert s2 == s.(event := left, threads := s.threads[id := Check(r)]);
    var s3 := ThreadStep(s2, id, true);
    assert Alone(s1, id, 6) == Alone(s2, id, 5) == Alone(s3, id, 4);
    if r.bits <= left {
      assert s3.threads == s.threads;
    } else {
      assert s3.threads == s.threads[id := Claim(r)];
      ClaimAlone(s.(event := left), s3, id, r);
    }
  }

  lemma ClaimAlone(s: State, s3: State, id: nat, r: Raised)
    requires id !in s.threads && s3 == s.(threads := s.threads[id := Claim(r)]) && !(r.bits <= s.event)
    ensures Alone(s3, id, 4) == GotEvent(s, r.(deassert := false))
  {
    MaskedOnly(r, INIT);
    MaskedOnly(r, SIPI);
    var s4 := ThreadStep(s3, id, true);
    if MaskBits(r) == {SIPI} && s.sipi != EMPTY_SIPI {
      assert s4.threads == s.threads;
    } else {
      var claimed := s4.(threads := s.threads);
      RaiseAlone(claimed, s4, id, r);
    }
  }

  lemma RaiseAlone(s: State, s4: State, id: nat, r: Raised)
    requires id !in s.threads && s4 == s.(threads := s.threads[id := Raise(r)])
    ensures Alone(s4, id, 3)
            == s.(event := s.event + r.bits, unread := s.unread + r.bits, wakeup := true, tickets := s.tickets + 1)
  {
    var s5 := ThreadStep(s4, id, true);
    var s6 := ThreadStep(s5, id, true);
    var s7 := ThreadStep(s6, id, true);
    assert s5.threads[id] == Look && s6.threads[id] == Release(s.block);
    assert s7.threads == s.threads;
    assert Alone(s6, id, 1) == s7;
  }

  // ---------------------------------------------------------------- the semaphore

  /** How often the semaphore was posted, and how often the VCPU was woken by it. */
  function Posts(states: seq<State>, steps: seq<Step>, n: nat): nat
    requires n <= |steps| <= |states|
  {
    if n == 0 then 0
    else Posts(states, steps, n - 1) + (if Posting(states[n - 1], steps[n - 1]) then 1 else 0)
  }

  predicate Posting(s: State, step: Step) {
    step.Thread? && step.post && step.id in s.threads && s.threads[step.id].Release?
  }

  function Wakes(steps: seq<Step>, n: nat): nat
    requires n <= |steps|
  {
    if n == 0 then 0 else Wakes(steps, n - 1) + (if steps[n - 1] == Wake then 1 else 0)
  }

  lemma TicketStep(s: State, step: Step)
    requires Enabled(s, step)
    ensures Next(s, step).tickets == s.tickets + (if Posting(s, step) then 1 else 0) - (if step == Wake then 1 else 0)
  {
  }

  /** Over all runs every post wakes the VCPU at most once, and those that have not are the tickets left. */
  lemma {:induction false} TicketsConserved(states: seq<State>, steps: seq<Step>, i: nat)
    requires IsRun(states, steps) && i < |states|
    ensures Posts(states, steps, i) == Wakes(steps, i) + states[i].tickets
  {
    if i > 0 {
      TicketsConserved(states, steps, i - 1);
      TicketStep(states[i - 1], steps[i - 1]);
    }
  }

  // ---------------------------------------------------------------- raised events reach the VCPU

  /** The step is the atomic or of a thread that raises bit b. */
  predicate Raises(s: State, step: Step, b: nat)
    requires Enabled(s, step)
  {
    step.Thread? && s.threads[step.id].Raise? && b in s.threads[step.id].r.bits
  }

  /** The step takes bit b back: the VCPU clears it, or a thread deasserts INTR. */
  predicate Takes(s: State, step: Step, b: nat)
    requires Enabled(s, step)
  {
    || (step.Clear? && b in step.bits)
    || (step.Thread? && s.threads[step.id].Begin? && s.threads[step.id].r.deassert && b == INTR)
  }

  /** A bit is in the event word iff it was raised, or was there and is not taken back. */
  lemma EventIff(s: State, step: Step, b: nat)
    requires Enabled(s, step)
    ensures b in Next(s, step).event <==> Raises(s, step, b) || (b in s.event && !Takes(s, step, b))
  {
  }

  lemma UnreadIff(s: State, step: Step, b: nat)
    requires Enabled(s, step)
    ensures b in Next(s, step).unread <==> Raises(s, step, b) || (b in s.unread && step != Read)
  {
  }

  /** Bit b is raised by step i and not taken back before state j. */
  ghost predicate RaisedAt(states: seq<State>, steps: seq<Step>, i: nat, j: nat, b: nat)
    requires IsRun(states, steps)
  {
    && i < j < |states| && Raises(states[i], steps[i], b)
    && forall k :: i < k < j ==> !Takes(states[k], steps[k], b)
  }

  lemma {:induction false} RaisedStays(states: seq<State>, steps: seq<Step>, i: nat, j: nat, b: nat)
    requires IsRun(states, steps) && RaisedAt(states, steps, i, j, b)
    ensures b in states[j].event
    decreases j
  {
    EventIff(states[j - 1], steps[j - 1], b);
    if j > i + 1 {
      RaisedStays(states, steps, i, j - 1, b);
    }
  }

  /** The VCPU reads the event word between the two steps. */
  ghost predicate ReadBetween(steps: seq<Step>, i: nat, j: nat) {
    exists k :: i < k < j && k < |steps| && steps[k] == Read
  }

  /** What was raised is unread until the VCPU reads the event word. */
  lemma {:induction false} RaisedIsUnread(states: seq<State>, steps: seq<Step>, i: nat, j: nat, b: nat)
    requires IsRun(states, steps) && RaisedAt(states, steps, i, j, b) && !ReadBetween(steps, i, j)
    ensures b in states[j].unread
    decreases j
  {
    UnreadIff(states[j - 1], steps[j - 1], b);
    if j > i + 1 {
      RaisedIsUnread(states, steps, i, j - 1, b);
    }
  }

  /** Steps of the VCPU and of threads that are in `got_event` already. */
  predicate NoCalls(steps: seq<Step>) { forall i :: 0 <= i < |steps| ==> !steps[i].Call? }

  /** Steps until the VCPU can read the event word. */
  ghost function Distance(s: State): nat {
    match s.vcpu
    case Examine => 0
    case Running => 1
    case Unblock => 1
    case Serve(_) => 2
    case Test => 2
    case Block => 3
    case Asleep =>
      if s.tickets > 0 then 2
      else if exists id :: id in s.threads && s.threads[id] == Release(true) then 3 else 4
  }

  /** A step that brings the VCPU closer to its next read. */
  lemma Closer(s: State) returns (step: Step)
    requires SleepInv(s) && s.unread != {} && s.vcpu != Examine
    ensures Enabled(s, step) && !step.Call? && step != Read
    ensures var r := Next(s, step);
            SleepInv(r) && r.unread == s.unread && r.event == s.event && Distance(r) < Distance(s)
  {
    match s.vcpu
    case Running => step := Enter;
    case Unblock => step := ClearBlock;
    case Serve(_) => step := Resume;
    case Test => step := TestWakeup;
    case Block => step := SetBlock;
    case Asleep =>
      if s.tickets > 0 {
        step := Wake;
      } else if id :| id in s.threads && s.threads[id] == Release(true) {
        step := Thread(id, true);
      } else {
        var id :| WillPost(s, id);
        step := Thread(id, true);
        assert Next(s, step).threads[id] == Release(true);
      }
    StepKeepsSleepInv(s, step);
  }

  /** An unread event is read after some steps of the VCPU and of the threads that are under way. */
  lemma {:induction false} UnreadCanBeRead(s: State) returns (more: seq<Step>, r: State)
    requires SleepInv(s) && s.unread != {}
    ensures Reaches(s, more, r) && NoCalls(more) && r.vcpu == Serve(s.event)
    decreases Distance(s)
  {
    if s.vcpu == Examine {
      r := Next(s, Read);
      ReachesCons(s, Read, [], r);
      more := [Read] + [];
    } else {
      var step := Closer(s);
      var rest;
      rest, r := UnreadCanBeRead(Next(s, step));
      ReachesCons(s, step, rest, r);
      more := [step] + rest;
    }
  }

  /**
   A raised bit that was not taken back has been read by the VCPU since, or will be read after
   some steps of the VCPU and of the threads that are under way, without help from outside.
   */
  lemma RaisedIsReadOrReadable(states: seq<State>, steps: seq<Step>, i: nat, j: nat, b: nat)
    requires IsRun(states, steps) && RaisedAt(states, steps, i, j, b)
    ensures || (exists k :: i < k < j && steps[k] == Read && states[k + 1].vcpu.Serve? && b in states[k + 1].vcpu.read)
            || (exists more, r :: Reaches(states[j], more, r) && NoCalls(more) && r.vcpu.Serve? && b in r.vcpu.read)
  {
    if ReadBetween(steps, i, j) {
      var k :| i < k < j && k < |steps| && steps[k] == Read;
      RaisedStays(states, steps, i, k, b);
      assert states[k + 1].vcpu == Serve(states[k].event);
    } else {
      RaisedStays(states, steps, i, j, b);
      RaisedIsUnread(states, steps, i, j, b);
      InvOverAllRuns(states, steps, j);
      var more, r := UnreadCanBeRead(states[j]);
    }
  }

  lemma {:induction false} UnusedNumber(s: set<nat>, from: nat) returns (x: nat)
    ensures x >= from && x !in s
    decreases |s|
  {
    x := from;
    if from in s {
      x := UnusedNumber(s - {from}, from + 1);
    }
  }

  /** From any state a new thread can raise a bit that is not there yet, which leaves it unread. */
  lemma NewEvent(s: State) returns (more: seq<Step>, r: State)
    requires SleepInv(s)
    ensures Reaches(s, more, r) && SleepInv(r) && r.unread != {} && s.event <= r.event
  {
    var id := UnusedNumber(s.threads.Keys, 0);
    var bit := UnusedNumber(s.event, 8);
    var e := Raised({bit}, false, 1);
    var call, step := Call(id, e), Thread(id, true);
    assert bit in e.bits && bit !in s.event && MaskBits(e) == {};
    var s1 := Next(s, call);
    var s2 := Next(s1, step);
    var s3 := Next(s2, step);
    var s4 := Next(s3, step);
    r := Next(s4, step);
    assert s2.threads[id] == Check(e) && s3.threads[id] == Claim(e) && s4.threads[id] == Raise(e);
    StepKeepsSleepInv(s, call);
    StepKeepsSleepInv(s1, step);
    StepKeepsSleepInv(s2, step);
    StepKeepsSleepInv(s3, step);
    StepKeepsSleepInv(s4, step);
    assert bit in r.unread;
    ReachesCons(s4, step, [], r);
    ReachesCons(s3, step, [step] + [], r);
    ReachesCons(s2, step, [step] + ([step] + []), r);
    ReachesCons(s1, step, [step] + ([step] + ([step] + [])), r);
    more := [call] + ([step] + ([step] + ([step] + ([step] + []))));
    ReachesCons(s, call, [step] + ([step] + ([step] + ([step] + []))), r);
  }

  lemma {:induction false} ReachesConcat(s: State, x: seq<Step>, m: State, y: seq<Step>, r: State)
    requires Reaches(s, x, m) && Reaches(m, y, r)
    ensures Reaches(s, x + y, r)
    decreases |x|
  {
    if x == [] {
      assert x + y == y;
    } else {
      ReachesConcat(Next(s, x[0]), x[1..], m, y, r);
      assert (x + y)[1..] == x[1..] + y;
    }
  }

  /** Even one that was read and left in the event word can be read again. */
  lemma RaisedCanBeRead(states: seq<State>, steps: seq<Step>, i: nat, j: nat, b: nat)
    requires IsRun(states, steps) && RaisedAt(states, steps, i, j, b)
    ensures exists more, r :: Reaches(states[j], more, r) && r.vcpu.Serve? && b in r.vcpu.read
  {
    RaisedStays(states, steps, i, j, b);
    InvOverAllRuns(states, steps, j);
    var x, m := NewEvent(states[j]);
    var y, r := UnreadCanBeRead(m);
    ReachesConcat(states[j], x, m, y, r);
  }

  // ---------------------------------------------------------------- SIPI and INIT

  /** Between two accepted SIPIs there is always an INIT, and there is one before the first. */
  lemma InitBetweenSipis(states: seq<State>, steps: seq<Step>, n: nat, i: nat, j: nat)
    requires IsRun(states, steps) && n < |states|
    requires i < j < |states[n].log| && states[n].log[i].Claimed? && states[n].log[j].Claimed?
    ensures exists k :: i < k < j && states[n].log[k] == Emptied
    ensures exists k :: 0 <= k < i && states[n].log[k] == Emptied
  {
    InvOverAllRuns(states, steps, n);
    assert states[n].log[j - 1] == Emptied && states[n].log[i - 1] == Emptied;
  }
}
