/**
 The pins of the I/O APIC (model/ioapic.cc) seen from outside: which messages are sent and which pins are
 announced, over all runs, in terms of what was done to the pin before. The latches of the device do not occur
 in the results.
 */
module PinHistory {
  import opened Common
  import opened Msi
  import L = LapicSpec
  import IO = IoApic
  import opened Routing
  import opened ServiceStack

  // ---------------------------------------------------------------- what is done to a pin

  predicate Asserts(step: Step, p: nat) { step.Pin? && step.pin == p && step.t != IO.DeassertIrq }

  predicate Deasserts(step: Step, p: nat) { step.Pin? && step.pin == p && step.t == IO.DeassertIrq }

  predicate Writes(step: Step, p: nat) { step.WriteEntry? && step.index / 2 == p }

  /** The entry is not masked. */
  predicate Open(io: IO.State, p: nat)
    requires IO.Shape(io) && p < 24
  {
    !Masked(IO.Lo(io, p))
  }

  predicate LevelEntry(io: IO.State, p: nat)
    requires IO.Shape(io) && p < 24
  {
    Level(IO.Lo(io, p))
  }

  /** A level interrupt that is asserted while its pin is masked and idle. */
  predicate Missed(io: IO.State, step: Step, p: nat)
    requires IO.Shape(io) && p < 24
  {
    Asserts(step, p) && LevelEntry(io, p) && !Open(io, p) && !io.rirr[p]
  }

  /** An assertion that is delivered at once. */
  predicate Delivered(io: IO.State, step: Step, p: nat)
    requires IO.Shape(io) && p < 24
  {
    Asserts(step, p) && Open(io, p) && !io.rirr[p]
  }

  /** The message of pin p is sent between two states. */
  predicate SendsFor(io: IO.State, r: IO.State, step: Step, p: nat) {
    (Asserts(step, p) || Writes(step, p)) && r.sent != io.sent
  }

  /** Pin p is reported between two states. */
  predicate Announces(io: IO.State, r: IO.State, p: nat) {
    |io.notified| <= |r.notified| && p in r.notified[|io.notified|..]
  }

  // ---------------------------------------------------------------- single steps

  /** The latched interrupt of a masked pin waits for being unmasked. */
  predicate LatchOk(io: IO.State, p: nat)
    requires IO.Shape(io) && p < 24
  {
    io.ds[p] ==> LevelEntry(io, p) && !Open(io, p) && !io.rirr[p]
  }

  /** What a step does to pin p. */
  ghost predicate PinLaw(io: IO.State, r: IO.State, step: Step, p: nat)
    requires IO.Shape(io) && IO.Shape(r) && p < 24
  {
    && (SendsFor(io, r, step, p) <==>
          Delivered(io, step, p) || (Writes(step, p) && io.ds[p] && LevelEntry(r, p) && Open(r, p)))
    && (SendsFor(io, r, step, p) ==>
          r.sent == io.sent + [EntryMessage(IO.Lo(r, p), IO.Hi(r, p))] && (r.rirr[p] <==> LevelEntry(r, p)))
    && (r.ds[p] <==> Missed(io, step, p) || (io.ds[p] && !Deasserts(step, p) && !SendsFor(io, r, step, p)
                                             && LevelEntry(r, p)))
    && (r.rirr[p] && !io.rirr[p] ==> SendsFor(io, r, step, p))
    && LatchOk(r, p)
  }

  lemma AssertLaw(io: IO.State, q: nat, t: IO.Trigger, p: nat)
    requires IO.Shape(io) && p < 24 && LatchOk(io, p)
    ensures PinLaw(io, IO.PinAssert(io, q, t), Pin(q, t), p)
  {
  }

  lemma WriteLaw(io: IO.State, index: nat, value: bv32, p: nat)
    requires IO.Shape(io) && index < 48 && p < 24 && LatchOk(io, p)
    ensures PinLaw(io, IO.WriteRedir(io, index, value), WriteEntry(index, value), p)
  {
    var io1 := IO.Stored(io, index, value);
    var pin := index / 2;
    if pin != p {
      assert IO.Lo(io1, p) == IO.Lo(io, p) && IO.Hi(io1, p) == IO.Hi(io, p);
    }
  }

  lemma {:induction false} EoiLaw(io: IO.State, v: nat, n: nat, p: nat)
    requires IO.Shape(io) && n <= 24 && p < 24
    ensures var r := IO.EoiPins(io, v, n);
            r.ds == io.ds && r.sent == io.sent && r.redir == io.redir && (r.rirr[p] ==> io.rirr[p])
  {
    if n > 0 {
      EoiLaw(io, v, n - 1, p);
    }
  }

  lemma StepLaw(s: Sys, a: Address, step: Step, p: nat)
    requires L.Shape(s.lapic) && IO.Shape(s.io) && Possible(s, step) && p < 24 && LatchOk(s.io, p)
    ensures PinLaw(s.io, Next(s, a, step).io, step, p)
  {
    match step
    case Pin(q, t) => AssertLaw(s.io, q, t, p);
    case WriteEntry(index, value) => WriteLaw(s.io, index, value, p);
    case WriteEoi(v) => EoiLaw(s.io, v, 24, p);
    case _ =>
  }

  // ---------------------------------------------------------------- messages over all runs

  /** At the start no interrupt is latched, under way or to be reported. */
  ghost predicate IsPinRun(states: seq<Sys>, steps: seq<Step>, a: Address) {
    && IsFreeRun(states, steps, a)
    && forall p: nat :: p < 24 ==> !states[0].io.rirr[p] && !states[0].io.ds[p] && !states[0].io.notify[p]
  }

  /** States of a run with the step between each two of them. */
  ghost predicate Traces(states: seq<Sys>, steps: seq<Step>) {
    |states| == |steps| + 1 && forall i :: 0 <= i < |states| ==> IO.Shape(states[i].io)
  }

  ghost predicate SendsAt(states: seq<Sys>, steps: seq<Step>, j: nat, p: nat)
    requires Traces(states, steps) && j < |steps|
  {
    SendsFor(states[j].io, states[j + 1].io, steps[j], p)
  }

  /** Step k does not deassert the pin, does not make it an edge pin, and does not send its message. */
  ghost predicate KeepsWaiting(states: seq<Sys>, steps: seq<Step>, k: nat, p: nat)
    requires Traces(states, steps) && p < 24 && k < |steps|
  {
    !Deasserts(steps[k], p) && !SendsAt(states, steps, k, p) && LevelEntry(states[k + 1].io, p)
  }

  /** In step i a level interrupt was asserted while its pin was masked, and nothing has ended its waiting since. */
  ghost predicate WaitsSince(states: seq<Sys>, steps: seq<Step>, i: nat, j: nat, p: nat)
    requires Traces(states, steps) && p < 24
  {
    && i < j < |states| && Missed(states[i].io, steps[i], p)
    && forall k: nat :: i < k < j ==> KeepsWaiting(states, steps, k, p)
  }

  ghost predicate Waits(states: seq<Sys>, steps: seq<Step>, j: nat, p: nat)
    requires Traces(states, steps) && p < 24
  {
    exists i: nat :: WaitsSince(states, steps, i, j, p)
  }

  /** A pin waits iff it did and nothing ended that, or it begins to wait. */
  lemma WaitsStep(states: seq<Sys>, steps: seq<Step>, j: nat, p: nat)
    requires Traces(states, steps) && j < |steps| && p < 24
    ensures Waits(states, steps, j + 1, p) <==>
            || Missed(states[j].io, steps[j], p)
            || (Waits(states, steps, j, p) && KeepsWaiting(states, steps, j, p))
  {
    if Missed(states[j].io, steps[j], p) {
      assert WaitsSince(states, steps, j, j + 1, p);
    }
    if Waits(states, steps, j, p) && KeepsWaiting(states, steps, j, p) {
      var i: nat :| WaitsSince(states, steps, i, j, p);
      assert WaitsSince(states, steps, i, j + 1, p);
    }
    if Waits(states, steps, j + 1, p) && !Missed(states[j].io, steps[j], p) {
      var i: nat :| WaitsSince(states, steps, i, j + 1, p);
      assert KeepsWaiting(states, steps, j, p);
      assert WaitsSince(states, steps, i, j, p);
    }
  }

  lemma LatchStep(states: seq<Sys>, steps: seq<Step>, a: Address, j: nat, p: nat)
    requires IsPinRun(states, steps, a) && j < |steps| && p < 24 && LatchOk(states[j].io, p)
    ensures states[j + 1].io.ds[p] <==>
            Missed(states[j].io, steps[j], p) || (states[j].io.ds[p] && KeepsWaiting(states, steps, j, p))
    ensures LatchOk(states[j + 1].io, p)
  {
    StepLaw(states[j], a, steps[j], p);
  }

  /** The latch of a pin holds exactly the interrupts that wait. */
  lemma {:induction false} LatchedIffWaits(states: seq<Sys>, steps: seq<Step>, a: Address, j: nat, p: nat)
    requires IsPinRun(states, steps, a) && j < |states| && p < 24
    ensures states[j].io.ds[p] <==> Waits(states, steps, j, p)
    ensures LatchOk(states[j].io, p)
    decreases j
  {
    if j > 0 {
      LatchedIffWaits(states, steps, a, j - 1, p);
      LatchStep(states, steps, a, j - 1, p);
      WaitsStep(states, steps, j - 1, p);
    }
  }

  /**
   Over all runs a message is sent iff an open pin without an interrupt under way is asserted, or the entry of a
   level pin is written open while an interrupt waits; and it is the message of the entry as it is then.
   */
  lemma SendsIff(states: seq<Sys>, steps: seq<Step>, a: Address, j: nat, p: nat)
    requires IsPinRun(states, steps, a) && j < |steps| && p < 24
    ensures var io, r := states[j].io, states[j + 1].io;
            && (SendsAt(states, steps, j, p) <==>
                  || Delivered(io, steps[j], p)
                  || (Writes(steps[j], p) && LevelEntry(r, p) && Open(r, p) && Waits(states, steps, j, p)))
            && (SendsAt(states, steps, j, p) ==> r.sent == io.sent + [EntryMessage(IO.Lo(r, p), IO.Hi(r, p))])
  {
    LatchedIffWaits(states, steps, a, j, p);
    StepLaw(states[j], a, steps[j], p);
  }

  /** Nothing else sends a message. */
  lemma OthersSendNothing(s: Sys, a: Address, step: Step)
    requires L.Shape(s.lapic) && IO.Shape(s.io) && Possible(s, step) && !step.Pin? && !step.WriteEntry?
    ensures Next(s, a, step).io.sent == s.io.sent
  {
    if step.WriteEoi? {
      EoiLaw(s.io, step.vector, 24, 0);
    }
  }

  /** The entry that a write leaves: the writable bits of the half that is written. */
  lemma WrittenEntry(io: IO.State, index: nat, value: bv32, p: nat)
    requires IO.Shape(io) && index < 48 && p < 24
    ensures var r := IO.WriteRedir(io, index, value);
            && IO.Lo(r, p) == (if index == 2 * p then value & 0x1_afff else IO.Lo(io, p))
            && IO.Hi(r, p) == (if index == 2 * p + 1 then value & 0xffff_0000 else IO.Hi(io, p))
  {
  }

  /** A masked level pin that is asserted and then unmasked sends its message then. */
  lemma UnmaskingSends(io: IO.State, p: nat, t: IO.Trigger, value: bv32)
    requires IO.Shape(io) && p < 24 && t != IO.DeassertIrq && !io.rirr[p]
    requires Level(IO.Lo(io, p)) && Masked(IO.Lo(io, p)) && Level(value) && !Masked(value)
    ensures var r := IO.WriteRedir(IO.PinAssert(io, p, t), 2 * p, value);
            r.sent == io.sent + [EntryMessage(value & 0x1_afff, IO.Hi(io, p))]
    ensures IO.WriteRedir(IO.PinAssert(IO.PinAssert(io, p, t), p, IO.DeassertIrq), 2 * p, value).sent == io.sent
  {
    WritableBits(value);
  }

  lemma WritableBits(value: bv32)
    ensures Level(value & 0x1_afff) == Level(value) && Masked(value & 0x1_afff) == Masked(value)
  {
  }

  // ---------------------------------------------------------------- reports over all runs

  /** The write leaves the entry open. */
  predicate OpenWrite(r: IO.State, step: Step, p: nat)
    requires IO.Shape(r) && p < 24
  {
    Writes(step, p) && Open(r, p)
  }

  /** The message is sent with the wish for a report when it is done. */
  predicate AsksForReport(io: IO.State, r: IO.State, step: Step, p: nat) {
    SendsFor(io, r, step, p) && (step.WriteEntry? || step == Pin(p, IO.AssertNotify))
  }

  /** What a step does to the reports of pin p. */
  ghost predicate ReportLaw(io: IO.State, r: IO.State, step: Step, p: nat)
    requires IO.Shape(io) && IO.Shape(r) && p < 24
  {
    && io.notified <= r.notified
    && (Announces(io, r, p) <==>
          || (Delivered(io, step, p) && step.t == IO.AssertNotify && !LevelEntry(io, p))
          || (OpenWrite(r, step, p) && !SendsFor(io, r, step, p))
          || (io.rirr[p] && !r.rirr[p] && io.notify[p]))
    && (r.rirr[p] ==> (r.notify[p] <==>
          AsksForReport(io, r, step, p) || (io.rirr[p] && io.notify[p] && !OpenWrite(r, step, p))))
  }

  lemma AssertReportLaw(io: IO.State, q: nat, t: IO.Trigger, p: nat)
    requires IO.Shape(io) && p < 24 && LatchOk(io, p)
    ensures ReportLaw(io, IO.PinAssert(io, q, t), Pin(q, t), p)
  {
  }

  lemma WriteReportLaw(io: IO.State, index: nat, value: bv32, p: nat)
    requires IO.Shape(io) && index < 48 && p < 24 && LatchOk(io, p) && LatchOk(io, index / 2)
    ensures ReportLaw(io, IO.WriteRedir(io, index, value), WriteEntry(index, value), p)
  {
    var io1 := IO.Stored(io, index, value);
    var pin := index / 2;
    if pin != p {
      assert IO.Lo(io1, p) == IO.Lo(io, p) && IO.Hi(io1, p) == IO.Hi(io, p);
    }
  }

  lemma EoiPinReport(io: IO.State, v: nat, q: nat, p: nat)
    requires IO.Shape(io) && q < 24 && p < 24
    ensures var r := IO.EoiPin(io, v, q);
            && io.notified <= r.notified && (Announces(io, r, p) <==> io.rirr[p] && !r.rirr[p] && io.notify[p])
            && (r.rirr[p] ==> io.rirr[p] && r.notify[p] == io.notify[p])
            && r.redir == io.redir && r.sent == io.sent
            && (!io.rirr[p] ==> r.notify[p] == io.notify[p])
  {
  }

  lemma {:induction false} EoiReportLaw(io: IO.State, v: nat, n: nat, p: nat)
    requires IO.Shape(io) && n <= 24 && p < 24
    ensures var r := IO.EoiPins(io, v, n);
            && io.notified <= r.notified && (Announces(io, r, p) <==> io.rirr[p] && !r.rirr[p] && io.notify[p])
            && (r.rirr[p] ==> io.rirr[p] && r.notify[p] == io.notify[p])
            && r.redir == io.redir && r.sent == io.sent
  {
    if n > 0 {
      var m := IO.EoiPins(io, v, n - 1);
      EoiReportLaw(io, v, n - 1, p);
      EoiPinReport(m, v, n - 1, p);
      var r := IO.EoiPins(io, v, n);
      assert r.notified[|io.notified|..] == m.notified[|io.notified|..] + r.notified[|m.notified|..];
    }
  }

  lemma ReportStep(s: Sys, a: Address, step: Step, p: nat)
    requires L.Shape(s.lapic) && IO.Shape(s.io) && Possible(s, step) && p < 24
    requires forall q: nat :: q < 24 ==> LatchOk(s.io, q)
    ensures ReportLaw(s.io, Next(s, a, step).io, step, p)
  {
    match step
    case Pin(q, t) => AssertReportLaw(s.io, q, t, p);
    case WriteEntry(index, value) => WriteReportLaw(s.io, index, value, p);
    case WriteEoi(v) => EoiReportLaw(s.io, v, 24, p);
    case EoiPin => EoiPinReport(s.io, s.eoi.value.vector, s.eoi.value.next, p);
    case _ =>
  }

  /** The interrupt stays under way in step k, and no write reports the pin. */
  ghost predicate KeepsAsking(states: seq<Sys>, steps: seq<Step>, k: nat, p: nat)
    requires Traces(states, steps) && p < 24 && k < |steps|
  {
    states[k].io.rirr[p] && !OpenWrite(states[k + 1].io, steps[k], p)
  }

  /** In step i the message was sent with that wish, and nothing has ended it since. */
  ghost predicate AskedAt(states: seq<Sys>, steps: seq<Step>, i: nat, j: nat, p: nat)
    requires Traces(states, steps) && p < 24
  {
    && i < j < |states| && AsksForReport(states[i].io, states[i + 1].io, steps[i], p)
    && forall k: nat :: i < k < j ==> KeepsAsking(states, steps, k, p)
  }

  ghost predicate Asked(states: seq<Sys>, steps: seq<Step>, j: nat, p: nat)
    requires Traces(states, steps) && p < 24
  {
    exists i: nat :: AskedAt(states, steps, i, j, p)
  }

  lemma AskedStep(states: seq<Sys>, steps: seq<Step>, j: nat, p: nat)
    requires Traces(states, steps) && j < |steps| && p < 24
    ensures Asked(states, steps, j + 1, p) <==>
            || AsksForReport(states[j].io, states[j + 1].io, steps[j], p)
            || (Asked(states, steps, j, p) && KeepsAsking(states, steps, j, p))
  {
    if AsksForReport(states[j].io, states[j + 1].io, steps[j], p) {
      assert AskedAt(states, steps, j, j + 1, p);
    }
    if Asked(states, steps, j, p) && KeepsAsking(states, steps, j, p) {
      var i: nat :| AskedAt(states, steps, i, j, p);
      assert AskedAt(states, steps, i, j + 1, p);
    }
    if Asked(states, steps, j + 1, p) && !AsksForReport(states[j].io, states[j + 1].io, steps[j], p) {
      var i: nat :| AskedAt(states, steps, i, j + 1, p);
      assert KeepsAsking(states, steps, j, p);
      assert AskedAt(states, steps, i, j, p);
    }
  }

  lemma AllLatchesOk(states: seq<Sys>, steps: seq<Step>, a: Address, j: nat)
    requires IsPinRun(states, steps, a) && j < |states|
    ensures forall q: nat :: q < 24 ==> LatchOk(states[j].io, q)
  {
    forall q: nat | q < 24
      ensures LatchOk(states[j].io, q)
    {
      LatchedIffWaits(states, steps, a, j, q);
    }
  }

  lemma {:induction false} NotifyIffAsked(states: seq<Sys>, steps: seq<Step>, a: Address, j: nat, p: nat)
    requires IsPinRun(states, steps, a) && j < |states| && p < 24 && states[j].io.rirr[p]
    ensures states[j].io.notify[p] <==> Asked(states, steps, j, p)
    decreases j
  {
    if j > 0 {
      AllLatchesOk(states, steps, a, j - 1);
      ReportStep(states[j - 1], a, steps[j - 1], p);
      AskedStep(states, steps, j - 1, p);
      if states[j - 1].io.rirr[p] {
        NotifyIffAsked(states, steps, a, j - 1, p);
      }
    }
  }

  /**
   Over all runs a pin is reported iff an edge interrupt that asks for it is delivered, or its entry is written open
   while nothing waits, or the EOI of an interrupt that asked for it arrives.
   */
  lemma AnnouncesIff(states: seq<Sys>, steps: seq<Step>, a: Address, j: nat, p: nat)
    requires IsPinRun(states, steps, a) && j < |steps| && p < 24
    ensures var io, r := states[j].io, states[j + 1].io;
            Announces(io, r, p) <==>
              || (Delivered(io, steps[j], p) && steps[j].t == IO.AssertNotify && !LevelEntry(io, p))
              || (OpenWrite(r, steps[j], p) && !(LevelEntry(r, p) && Waits(states, steps, j, p)))
              || (io.rirr[p] && !r.rirr[p] && Asked(states, steps, j, p))
  {
    AllLatchesOk(states, steps, a, j);
    ReportStep(states[j], a, steps[j], p);
    SendsIff(states, steps, a, j, p);
    if states[j].io.rirr[p] {
      NotifyIffAsked(states, steps, a, j, p);
    }
  }
}
