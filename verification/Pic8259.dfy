/**
 The 8259 interrupt controller of model/pic8259.cc: rotating priorities, the scan of
 `prioritize_irq`, acknowledge and end-of-interrupt.
 */
module Pic8259 {

  /** Lines are 0 to 7; the registers are bit sets over them. */
  datatype State = State(irr: set<nat>, isr: set<nat>, imr: set<nat>, elcr: set<nat>, lowest: nat,
                         smm: bool, sfnm: bool, aeoi: bool, rotateOnAeoi: bool, icw3: set<nat>)

  ghost predicate Valid(s: State) {
    && s.lowest < 8
    && (forall k :: k in s.irr ==> k < 8) && (forall k :: k in s.isr ==> k < 8)
  }

  /** The line at place i of the current order, 0 being the highest priority. */
  function LineAt(lowest: nat, i: nat): (k: nat)
    ensures k < 8
  {
    (lowest + 1 + i) % 8
  }

  /** The place of a line in the current order. */
  function Place(lowest: nat, k: nat): (i: nat)
    requires lowest < 8 && k < 8
    ensures i < 8
  {
    if k > lowest then k - lowest - 1 else k + 7 - lowest
  }

  lemma PlaceOfLine(lowest: nat, i: nat)
    requires lowest < 8 && i < 8
    ensures Place(lowest, LineAt(lowest, i)) == i
  {
  }

  /** Rotation by one line: the first line becomes the last one, and all others move up. */
  lemma RotationMovesUp(lowest: nat, k: nat)
    requires lowest < 8 && k < 8
    ensures Place((lowest + 1) % 8, k) == if Place(lowest, k) == 0 then 7 else Place(lowest, k) - 1
    ensures Place(7, k) == k && Place(k, k) == 7
  {
  }

  // ---------------------------------------------------------------- the scans

  /** A line in service ends the scan, unless special mask or fully nested mode lets it pass. */
  predicate Blocks(s: State, k: nat) {
    !s.smm && k in s.isr && !(s.sfnm && k in s.icw3)
  }

  predicate Requests(s: State, k: nat) { k in s.irr && k !in s.imr }

  /** `prioritize_irq` from place i on: the line that is found, or 8. */
  function Scan(s: State, i: nat): nat
    requires i <= 8
    decreases 8 - i
  {
    if i == 8 then 8
    else
      var k := LineAt(s.lowest, i);
      if Blocks(s, k) then 8
      else if Requests(s, k) then k
      else Scan(s, i + 1)
  }

  /** `non_specific_eoi` from place i on: the line that it retires, or 8. */
  function ScanEoi(s: State, i: nat): nat
    requires i <= 8
    decreases 8 - i
  {
    if i == 8 then 8
    else
      var k := LineAt(s.lowest, i);
      if k in s.isr && !(s.smm && k !in s.imr) then k else ScanEoi(s, i + 1)
  }

  function NonSpecificEoi(s: State): State {
    if ScanEoi(s, 0) == 8 then s else s.(isr := s.isr - {ScanEoi(s, 0)})
  }

  function Rotate(s: State): State { s.(lowest := (s.lowest + 1) % 8) }

  /** The acknowledge part of `prioritize_irq` for the line k. */
  function Acknowledge(s: State, k: nat): State {
    var s1 := s.(isr := s.isr + {k}, irr := if k in s.elcr then s.irr else s.irr - {k});
    if !s1.aeoi then s1
    else
      var s2 := NonSpecificEoi(s1);
      if s2.rotateOnAeoi then Rotate(s2) else s2
  }

  /** INTA or a poll: acknowledges the line that the scan finds, if any. */
  function IntAck(s: State): State {
    if Scan(s, 0) == 8 then s else Acknowledge(s, Scan(s, 0))
  }

  // ---------------------------------------------------------------- priorities

  /** No special mask, no special fully nested mode, no automatic EOI. */
  predicate Normal(s: State) { !s.smm && !s.sfnm && !s.aeoi }

  /**
   The line is pending and not masked, and precedes every other such line and every line in service, except those
   in service that special mask mode, or special fully nested mode for the lines of slaves, lets pass.
   */
  ghost predicate Highest(s: State, k: nat)
    requires Valid(s)
  {
    && k < 8 && k in s.irr && k !in s.imr
    && (forall j :: j < 8 && j in s.irr && j !in s.imr ==> Place(s.lowest, k) <= Place(s.lowest, j))
    && (forall j :: j in s.isr ==> s.smm || (s.sfnm && j in s.icw3) || Place(s.lowest, k) < Place(s.lowest, j))
  }

  /** Nothing before place i requests or ends the scan. */
  ghost predicate QuietBefore(s: State, i: nat)
    requires Valid(s)
  {
    forall j :: j < 8 && (Requests(s, j) || Blocks(s, j)) ==> Place(s.lowest, j) >= i
  }

  /** Two lines at the same place are the same line. */
  lemma PlaceInjective(lowest: nat, j: nat, k: nat)
    requires lowest < 8 && j < 8 && k < 8 && Place(lowest, j) == Place(lowest, k)
    ensures j == k
  {
  }

  lemma QuietStep(s: State, i: nat)
    requires Valid(s) && i < 8 && QuietBefore(s, i)
    requires !Requests(s, LineAt(s.lowest, i)) && !Blocks(s, LineAt(s.lowest, i))
    ensures QuietBefore(s, i + 1)
  {
    var k := LineAt(s.lowest, i);
    PlaceOfLine(s.lowest, i);
    forall j | j < 8 && (Requests(s, j) || Blocks(s, j))
      ensures Place(s.lowest, j) >= i + 1
    {
      if Place(s.lowest, j) == i {
        PlaceInjective(s.lowest, j, k);
      }
    }
  }

  lemma FoundIsHighest(s: State, i: nat)
    requires Valid(s) && i < 8 && QuietBefore(s, i)
    requires Requests(s, LineAt(s.lowest, i)) && !Blocks(s, LineAt(s.lowest, i))
    ensures Highest(s, LineAt(s.lowest, i))
  {
    var k := LineAt(s.lowest, i);
    PlaceOfLine(s.lowest, i);
    forall j | j < 8 && j in s.irr && j !in s.imr
      ensures Place(s.lowest, k) <= Place(s.lowest, j)
    {
      assert Requests(s, j);
    }
    forall j | j in s.isr && Blocks(s, j)
      ensures Place(s.lowest, k) < Place(s.lowest, j)
    {
      if Place(s.lowest, j) == i {
        PlaceInjective(s.lowest, j, k);
      }
    }
  }

  lemma BlockedByService(s: State, i: nat, k: nat)
    requires Valid(s) && i < 8 && QuietBefore(s, i) && Blocks(s, LineAt(s.lowest, i))
    ensures !Highest(s, k)
  {
    PlaceOfLine(s.lowest, i);
    if Highest(s, k) {
      assert Requests(s, k);
    }
  }

  /** What the scan finds from place i on, if nothing before requests or ends the scan. */
  lemma {:induction false} ScanFinds(s: State, i: nat)
    requires Valid(s) && i <= 8 && QuietBefore(s, i)
    ensures Scan(s, i) <= 8
    ensures Scan(s, i) < 8 ==> Highest(s, Scan(s, i))
    ensures Scan(s, i) == 8 ==> forall k :: k < 8 ==> !Highest(s, k)
    decreases 8 - i
  {
    if i < 8 {
      var k := LineAt(s.lowest, i);
      if Blocks(s, k) {
        forall j {
          BlockedByService(s, i, j);
        }
      } else if Requests(s, k) {
        FoundIsHighest(s, i);
      } else {
        QuietStep(s, i);
        ScanFinds(s, i + 1);
      }
    } else {
      forall k | k < 8
        ensures !Highest(s, k)
      {
        assert !Requests(s, k);
      }
    }
  }

  /** In every mode and under any rotation a line is acknowledged iff it is the highest one that may be. */
  lemma AcknowledgedIffHighest(s: State, k: nat)
    requires Valid(s) && k < 8
    ensures Scan(s, 0) == k <==> Highest(s, k)
  {
    ScanFinds(s, 0);
    if Highest(s, k) {
      PlaceInjective(s.lowest, k, Scan(s, 0));
    }
  }

  /** A line in service that a non-specific EOI may retire: in special mask mode a masked one. */
  predicate Retirable(s: State, k: nat) { k in s.isr && (s.smm ==> k in s.imr) }

  /** In every mode a non-specific EOI finds the highest such line. */
  lemma {:induction false} EoiFinds(s: State, i: nat)
    requires Valid(s) && i <= 8 && (forall j :: j < 8 && Retirable(s, j) ==> Place(s.lowest, j) >= i)
    ensures ScanEoi(s, i) == 8 ==> forall j :: j in s.isr ==> !Retirable(s, j)
    ensures ScanEoi(s, i) != 8 ==>
              var k := ScanEoi(s, i);
              && k < 8 && Retirable(s, k)
              && forall j :: j < 8 && Retirable(s, j) ==> Place(s.lowest, k) <= Place(s.lowest, j)
    decreases 8 - i
  {
    if i < 8 {
      var k := LineAt(s.lowest, i);
      PlaceOfLine(s.lowest, i);
      if !Retirable(s, k) {
        forall j | j < 8 && Retirable(s, j)
          ensures Place(s.lowest, j) >= i + 1
        {
          if Place(s.lowest, j) == i {
            PlaceInjective(s.lowest, j, k);
          }
        }
        EoiFinds(s, i + 1);
      }
    }
  }

  /** Outside of special mask mode that is the highest line in service. */
  lemma EoiFindsHighest(s: State)
    requires Valid(s) && !s.smm
    ensures ScanEoi(s, 0) == 8 <==> s.isr == {}
    ensures ScanEoi(s, 0) != 8 ==>
              var k := ScanEoi(s, 0);
              k in s.isr && forall j :: j in s.isr ==> Place(s.lowest, k) <= Place(s.lowest, j)
  {
    EoiFinds(s, 0);
    forall j | j in s.isr
      ensures j < 8 && Retirable(s, j)
    {
    }
  }

  /** An acknowledged line is in service; an edge-triggered one is no longer pending, a level-triggered one still is. */
  lemma AcknowledgedLine(s: State, k: nat)
    requires Valid(s) && !s.aeoi && Highest(s, k)
    ensures var t := IntAck(s);
            && t.isr == s.isr + {k} && t.lowest == s.lowest
            && (k in t.irr <==> k in s.elcr) && forall j :: j != k ==> (j in t.irr <==> j in s.irr)
  {
    AcknowledgedIffHighest(s, k);
  }

  /** After its EOI a level-triggered line is acknowledged again as long as it is asserted, an edge one is not. */
  lemma AcknowledgedAgainIffLevel(s: State, k: nat)
    requires Valid(s) && Normal(s) && Highest(s, k)
    ensures var t := NonSpecificEoi(IntAck(s));
            t.isr == s.isr && (Highest(t, k) <==> k in s.elcr)
  {
    AcknowledgedLine(s, k);
    var a := IntAck(s);
    EoiFindsHighest(a);
    assert k !in s.isr;
    assert a.isr - {k} == s.isr;
  }

  /** With automatic EOI nothing stays in service, and the priorities rotate iff that is asked for. */
  lemma AutomaticEoi(s: State, k: nat)
    requires Valid(s) && !s.smm && !s.sfnm && s.aeoi && Highest(s, k)
    ensures var t := IntAck(s);
            && t.isr == s.isr && (k in t.irr <==> k in s.elcr)
            && t.lowest == if s.rotateOnAeoi then (s.lowest + 1) % 8 else s.lowest
  {
    AcknowledgedIffHighest(s, k);
    var a := s.(isr := s.isr + {k}, irr := if k in s.elcr then s.irr else s.irr - {k});
    EoiFindsHighest(a);
    assert k !in s.isr;
    assert a.isr - {k} == s.isr;
  }

  // ---------------------------------------------------------------- commands

  /** An OCW2 command word: bits R, SL and EOI, and a line. */
  function Ocw2(s: State, r: bool, sl: bool, eoi: bool, line: nat): State
    requires line < 8
  {
    if sl then
      var s1 := if eoi then s.(isr := s.isr - {line}) else s;
      if r then s1.(lowest := line) else s1
    else if eoi then
      var s1 := NonSpecificEoi(s);
      if r then Rotate(s1) else s1
    else s.(rotateOnAeoi := r)
  }

  /** Commands keep the registers valid, so the priority rule above holds with any rotation. */
  lemma Ocw2KeepsValid(s: State, r: bool, sl: bool, eoi: bool, line: nat)
    requires Valid(s) && line < 8
    ensures Valid(Ocw2(s, r, sl, eoi, line))
    ensures Ocw2(s, r, sl, eoi, line).isr <= s.isr
  {
  }

  // ---------------------------------------------------------------- the stack of lines in service

  /** Operations of a run in normal mode, all OCW2 commands among them. */
  datatype Op =
    | Raise(line: nat)
    | Lower(line: nat)
    | Ack
    | Command(r: bool, sl: bool, eoi: bool, line: nat)
    | WriteImr(imr: set<nat>)
    | WriteElcr(elcr: set<nat>)

  function Apply(s: State, op: Op): State {
    match op
    case Raise(k) => if k < 8 then s.(irr := s.irr + {k}) else s
    case Lower(k) => if k in s.irr && k in s.elcr then s.(irr := s.irr - {k}) else s
    case Ack => IntAck(s)
    case Command(r, sl, eoi, k) => if k < 8 then Ocw2(s, r, sl, eoi, k) else s
    case WriteImr(m) => s.(imr := m)
    case WriteElcr(m) => s.(elcr := m)
  }

  function Without(stack: seq<nat>, k: nat): seq<nat> {
    if stack == [] then []
    else if stack[|stack| - 1] == k then Without(stack[..|stack| - 1], k)
    else Without(stack[..|stack| - 1], k) + [stack[|stack| - 1]]
  }

  function Popped(stack: seq<nat>): seq<nat> {
    if stack == [] then [] else stack[..|stack| - 1]
  }

  /** Acknowledging pushes, non-specific EOI pops, specific EOI takes its line out. */
  function StackAfter(stack: seq<nat>, s: State, op: Op): seq<nat> {
    match op
    case Ack => if Scan(s, 0) == 8 then stack else stack + [Scan(s, 0)]
    case Command(_, sl, eoi, k) =>
      if !eoi || k >= 8 then stack else if sl then Without(stack, k) else Popped(stack)
    case _ => stack
  }

  /** The lines in service are the stack, each of a strictly higher priority than the one below. */
  ghost predicate Refines(s: State, stack: seq<nat>)
    requires s.lowest < 8
  {
    && (forall i :: 0 <= i < |stack| ==> stack[i] < 8)
    && (forall i, j :: 0 <= i < j < |stack| ==> Place(s.lowest, stack[i]) > Place(s.lowest, stack[j]))
    && (forall k :: k in s.isr <==> k in stack)
  }

  lemma AckPushes(s: State, stack: seq<nat>)
    requires Valid(s) && Normal(s) && Refines(s, stack)
    ensures Valid(IntAck(s)) && Refines(IntAck(s), StackAfter(stack, s, Ack))
  {
    ScanFinds(s, 0);
    var k := Scan(s, 0);
    if k != 8 {
      var next := stack + [k];
      forall i, j | 0 <= i < j < |next|
        ensures Place(s.lowest, next[i]) > Place(s.lowest, next[j])
      {
        if j == |stack| {
          assert stack[i] in s.isr;
        }
      }
    }
  }

  /** The top of the stack has the highest priority in service. */
  lemma TopFirst(s: State, stack: seq<nat>, k: nat)
    requires s.lowest < 8 && Refines(s, stack) && k in s.isr
    requires forall j :: j in s.isr ==> j < 8 && Place(s.lowest, k) <= Place(s.lowest, j)
    ensures stack != [] && k == stack[|stack| - 1]
  {
    var i :| 0 <= i < |stack| && stack[i] == k;
    assert stack[|stack| - 1] in s.isr;
  }

  lemma PopRefines(s: State, stack: seq<nat>)
    requires s.lowest < 8 && Refines(s, stack) && stack != []
    ensures Refines(s.(isr := s.isr - {stack[|stack| - 1]}), stack[..|stack| - 1])
  {
    var top, rest := stack[|stack| - 1], stack[..|stack| - 1];
    assert stack == rest + [top];
    forall v | v in rest
      ensures v != top
    {
      var j :| 0 <= j < |rest| && rest[j] == v;
      assert Place(s.lowest, stack[j]) > Place(s.lowest, stack[|stack| - 1]);
    }
  }

  /** Non-specific EOI retires the line that was acknowledged last. */
  lemma EoiPops(s: State, stack: seq<nat>)
    requires Valid(s) && Normal(s) && Refines(s, stack)
    ensures stack != [] ==> ScanEoi(s, 0) == stack[|stack| - 1]
    ensures Valid(NonSpecificEoi(s)) && Refines(NonSpecificEoi(s), Popped(stack))
  {
    EoiFindsHighest(s);
    if stack != [] {
      assert stack[0] in s.isr;
      TopFirst(s, stack, ScanEoi(s, 0));
      PopRefines(s, stack);
    } else {
      assert s.isr == {};
    }
  }

  // ---------------------------------------------------------------- programming

  /** A masked line is not acknowledged, and the mask of the other lines does not matter to a line that is. */
  lemma MaskHides(s: State, m: set<nat>, k: nat)
    requires Valid(s) && k < 8
    ensures k in m ==> !Highest(Apply(s, WriteImr(m)), k)
    ensures Highest(s, k) && k !in m && s.imr <= m ==> Highest(Apply(s, WriteImr(m)), k)
  {
  }

  /** The trigger mode that is written decides whether a line stays pending. */
  lemma TriggerModeCounts(s: State, m: set<nat>, k: nat)
    requires Valid(s) && Normal(s) && Highest(s, k)
    ensures Highest(NonSpecificEoi(IntAck(Apply(s, WriteElcr(m)))), k) <==> k in m
  {
    var t := Apply(s, WriteElcr(m));
    assert Highest(t, k);
    AcknowledgedAgainIffLevel(t, k);
  }

  /** The command that switches rotation on automatic EOI on or off. */
  lemma RotationOnAutomaticEoi(s: State, r: bool, line: nat, k: nat)
    requires Valid(s) && !s.smm && !s.sfnm && s.aeoi && Highest(s, k) && line < 8
    ensures IntAck(Ocw2(s, r, false, false, line)).lowest == if r then (s.lowest + 1) % 8 else s.lowest
  {
    var t := Ocw2(s, r, false, false, line);
    assert Highest(t, k);
    AutomaticEoi(t, k);
  }

  // ---------------------------------------------------------------- rotation

  /** Two lines in service, one that the new lowest line overtakes and one that it does not. */
  ghost predicate Parts(s: State, low: nat, a: nat, b: nat)
    requires Valid(s) && low < 8
  {
    a in s.isr && b in s.isr && Place(s.lowest, a) <= Place(s.lowest, low) < Place(s.lowest, b)
  }

  /** Making `low` the lowest line leaves no line in service before it and another one behind it. */
  ghost predicate KeepsOrder(s: State, low: nat)
    requires Valid(s) && low < 8
  {
    forall a, b :: !Parts(s, low, a, b)
  }

  /** The places up to that of the new lowest line move behind the others. */
  lemma RotatedOrder(lowest: nat, low: nat, x: nat, y: nat)
    requires lowest < 8 && low < 8 && x < 8 && y < 8 && Place(lowest, x) > Place(lowest, y)
    ensures Place(low, x) > Place(low, y) <==> !(Place(lowest, y) <= Place(lowest, low) < Place(lowest, x))
  {
  }

  lemma UnpartedStaysNested(s: State, stack: seq<nat>, low: nat)
    requires Valid(s) && Refines(s, stack) && low < 8 && KeepsOrder(s, low)
    ensures Refines(s.(lowest := low), stack)
  {
    forall i, j | 0 <= i < j < |stack|
      ensures Place(low, stack[i]) > Place(low, stack[j])
    {
      RotatedOrder(s.lowest, low, stack[i], stack[j]);
      assert stack[i] in s.isr && stack[j] in s.isr;
      assert !Parts(s, low, stack[j], stack[i]);
    }
  }

  lemma PartedIsNotNested(s: State, stack: seq<nat>, low: nat, a: nat, b: nat)
    requires Valid(s) && Refines(s, stack) && low < 8 && Parts(s, low, a, b)
    ensures !Refines(s.(lowest := low), stack)
  {
    var i :| 0 <= i < |stack| && stack[i] == b;
    var j :| 0 <= j < |stack| && stack[j] == a;
    RotatedOrder(s.lowest, low, b, a);
    assert i < j && Place(low, stack[i]) <= Place(low, stack[j]);
  }

  /** A new lowest line keeps the lines in service nested if and only if it does not part them. */
  lemma RotationKeepsNestingIff(s: State, stack: seq<nat>, low: nat)
    requires Valid(s) && Refines(s, stack) && low < 8
    ensures Refines(s.(lowest := low), stack) <==> KeepsOrder(s, low)
  {
    if KeepsOrder(s, low) {
      UnpartedStaysNested(s, stack, low);
    } else {
      var a, b :| Parts(s, low, a, b);
      PartedIsNotNested(s, stack, low, a, b);
    }
  }

  /** After an EOI no line in service is at the first place, so that rotating by one line parts nothing. */
  lemma RotationOnEoiKeepsNesting(s: State, stack: seq<nat>)
    requires Valid(s) && Normal(s) && Refines(s, stack)
    ensures Refines(Rotate(NonSpecificEoi(s)), Popped(stack))
  {
    EoiPops(s, stack);
    var t, low := NonSpecificEoi(s), (s.lowest + 1) % 8;
    assert Place(s.lowest, low) == 0;
    forall a, b
      ensures !Parts(t, low, a, b)
    {
      if a in t.isr {
        assert a in Popped(stack);
        var i :| 0 <= i < |Popped(stack)| && Popped(stack)[i] == a;
        assert Place(s.lowest, stack[i]) > Place(s.lowest, stack[|stack| - 1]);
      }
    }
    RotationKeepsNestingIff(t, Popped(stack), low);
  }

  lemma {:induction false} WithoutHolds(stack: seq<nat>, k: nat, x: nat)
    ensures x in Without(stack, k) <==> x in stack && x != k
  {
    if stack != [] {
      var rest, top := stack[..|stack| - 1], stack[|stack| - 1];
      assert stack == rest + [top];
      WithoutHolds(rest, k, x);
    }
  }

  /** What is left of a stack of descending places descends. */
  lemma {:induction false} WithoutDescends(lowest: nat, stack: seq<nat>, k: nat)
    requires lowest < 8 && (forall i :: 0 <= i < |stack| ==> stack[i] < 8)
    requires forall i, j :: 0 <= i < j < |stack| ==> Place(lowest, stack[i]) > Place(lowest, stack[j])
    ensures forall i :: 0 <= i < |Without(stack, k)| ==> Without(stack, k)[i] < 8
    ensures forall i, j :: 0 <= i < j < |Without(stack, k)| ==>
              Place(lowest, Without(stack, k)[i]) > Place(lowest, Without(stack, k)[j])
  {
    if stack != [] {
      var rest, top := stack[..|stack| - 1], stack[|stack| - 1];
      WithoutDescends(lowest, rest, k);
      var w := Without(rest, k);
      forall i | 0 <= i < |w|
        ensures Place(lowest, w[i]) > Place(lowest, top)
      {
        WithoutHolds(rest, k, w[i]);
        var j :| 0 <= j < |rest| && rest[j] == w[i];
        assert stack[j] == w[i];
      }
    }
  }

  /** Specific EOI takes its line out of the stack, wherever it is. */
  lemma SpecificEoiRemoves(s: State, stack: seq<nat>, k: nat)
    requires Valid(s) && Refines(s, stack)
    ensures Refines(s.(isr := s.isr - {k}), Without(stack, k))
  {
    WithoutDescends(s.lowest, stack, k);
    forall x
      ensures x in s.isr - {k} <==> x in Without(stack, k)
    {
      WithoutHolds(stack, k, x);
    }
  }

  /** A command that sets the lowest line must not part the lines that it leaves in service. */
  ghost predicate Harmless(s: State, r: bool, sl: bool, eoi: bool, line: nat)
    requires Valid(s) && line < 8
  {
    r && sl ==> KeepsOrder(if eoi then s.(isr := s.isr - {line}) else s, line)
  }

  /** All OCW2 commands keep the lines in service nested if and only if they do not part them. */
  lemma CommandKeepsNestingIff(s: State, stack: seq<nat>, r: bool, sl: bool, eoi: bool, line: nat)
    requires Valid(s) && Normal(s) && Refines(s, stack) && line < 8
    ensures var t := Ocw2(s, r, sl, eoi, line);
            && Valid(t) && Normal(t)
            && (Refines(t, StackAfter(stack, s, Command(r, sl, eoi, line))) <==> Harmless(s, r, sl, eoi, line))
  {
    if sl {
      var s1 := if eoi then s.(isr := s.isr - {line}) else s;
      if eoi {
        SpecificEoiRemoves(s, stack, line);
      }
      RotationKeepsNestingIff(s1, if eoi then Without(stack, line) else stack, line);
    } else if eoi {
      EoiPops(s, stack);
      RotationOnEoiKeepsNesting(s, stack);
    }
  }

  /** Successive non-specific EOIs retire the lines in the reverse order of the stack. */
  predicate RetiresInOrder(s: State, stack: seq<nat>)
    decreases |stack|
  {
    stack == [] || (ScanEoi(s, 0) == stack[|stack| - 1] && RetiresInOrder(NonSpecificEoi(s), stack[..|stack| - 1]))
  }

  /** The stack holds each line in service once. */
  ghost predicate Lists(s: State, stack: seq<nat>) {
    && (forall i :: 0 <= i < |stack| ==> stack[i] < 8)
    && (forall i, j :: 0 <= i < j < |stack| ==> stack[i] != stack[j])
    && (forall k :: k in s.isr <==> k in stack)
  }

  /** EOIs retire the innermost line each time if and only if the lines in service are nested. */
  lemma {:induction false} RetiresInOrderIffNested(s: State, stack: seq<nat>)
    requires Valid(s) && Normal(s) && Lists(s, stack)
    ensures RetiresInOrder(s, stack) <==> Refines(s, stack)
    decreases |stack|
  {
    if stack != [] {
      if ScanEoi(s, 0) == stack[|stack| - 1] {
        RestListed(s, stack);
        RetiresInOrderIffNested(NonSpecificEoi(s), stack[..|stack| - 1]);
        if Refines(s, stack) {
          EoiPops(s, stack);
        } else if Refines(NonSpecificEoi(s), stack[..|stack| - 1]) {
          TopIsInnermost(s, stack);
        }
      } else if Refines(s, stack) {
        EoiPops(s, stack);
      }
    }
  }

  lemma RestListed(s: State, stack: seq<nat>)
    requires Valid(s) && Lists(s, stack) && stack != [] && ScanEoi(s, 0) == stack[|stack| - 1]
    ensures NonSpecificEoi(s) == s.(isr := s.isr - {stack[|stack| - 1]})
    ensures Lists(NonSpecificEoi(s), stack[..|stack| - 1])
  {
    assert stack == stack[..|stack| - 1] + [stack[|stack| - 1]];
  }

  lemma TopIsInnermost(s: State, stack: seq<nat>)
    requires Valid(s) && Normal(s) && Lists(s, stack) && stack != [] && ScanEoi(s, 0) == stack[|stack| - 1]
    requires Refines(s.(isr := s.isr - {stack[|stack| - 1]}), stack[..|stack| - 1])
    ensures Refines(s, stack)
  {
    var n := |stack| - 1;
    EoiFindsHighest(s);
    forall i, j | 0 <= i < j < |stack|
      ensures Place(s.lowest, stack[i]) > Place(s.lowest, stack[j])
    {
      if j == n {
        assert stack[i] in s.isr;
        if Place(s.lowest, stack[i]) == Place(s.lowest, stack[n]) {
          PlaceInjective(s.lowest, stack[i], stack[n]);
        }
      } else {
        assert stack[..n][i] == stack[i] && stack[..n][j] == stack[j];
      }
    }
  }

  // ---------------------------------------------------------------- all runs

  ghost function Run(s0: State, ops: seq<Op>): State
    decreases |ops|
  {
    if ops == [] then s0 else Apply(Run(s0, ops[..|ops| - 1]), ops[|ops| - 1])
  }

  ghost function RunStack(s0: State, ops: seq<Op>): seq<nat>
    decreases |ops|
  {
    if ops == [] then []
    else StackAfter(RunStack(s0, ops[..|ops| - 1]), Run(s0, ops[..|ops| - 1]), ops[|ops| - 1])
  }

  /** After `reset_values`: nothing pending or in service, line 7 has the lowest priority. */
  predicate Reset(s: State) { s.irr == {} && s.isr == {} && s.lowest == 7 && Normal(s) }

  /** The operation does not part the lines in service. */
  ghost predicate Allowed(s: State, op: Op) {
    Valid(s) && (op.Command? && op.line < 8 ==> Harmless(s, op.r, op.sl, op.eoi, op.line))
  }

  ghost predicate AllAllowed(s0: State, ops: seq<Op>)
    decreases |ops|
  {
    ops == [] || (AllAllowed(s0, ops[..|ops| - 1]) && Allowed(Run(s0, ops[..|ops| - 1]), ops[|ops| - 1]))
  }

  lemma StepKeepsNesting(s: State, stack: seq<nat>, op: Op)
    requires Valid(s) && Normal(s) && Refines(s, stack) && Allowed(s, op)
    ensures Valid(Apply(s, op)) && Normal(Apply(s, op)) && Refines(Apply(s, op), StackAfter(stack, s, op))
  {
    if op == Ack {
      AckPushes(s, stack);
    } else if op.Command? && op.line < 8 {
      CommandKeepsNestingIff(s, stack, op.r, op.sl, op.eoi, op.line);
    }
  }

  /** Over all such runs the lines in service nest, and EOIs would retire them from the innermost one on. */
  lemma {:induction false} NestingOverAllRuns(s0: State, ops: seq<Op>)
    requires Reset(s0) && AllAllowed(s0, ops)
    ensures var s := Run(s0, ops);
            Valid(s) && Normal(s) && Refines(s, RunStack(s0, ops)) && RetiresInOrder(s, RunStack(s0, ops))
    decreases |ops|
  {
    if ops != [] {
      var init := ops[..|ops| - 1];
      NestingOverAllRuns(s0, init);
      StepKeepsNesting(Run(s0, init), RunStack(s0, init), ops[|ops| - 1]);
    }
    RetiresInOrderIffNested(Run(s0, ops), RunStack(s0, ops));
  }

  /** Setting the priority between two lines in service: EOIs then retire the outer one before the inner one. */
  lemma RotationBreaksNesting(s0: State)
    requires Reset(s0) && s0.imr == {} && s0.elcr == {}
    ensures var ops := [Raise(3), Ack, Raise(1), Ack];
            && AllAllowed(s0, ops) && RunStack(s0, ops) == [3, 1]
            && !Allowed(Run(s0, ops), Command(true, true, false, 2))
            && ScanEoi(Run(s0, ops + [Command(true, true, false, 2)]), 0) == 3
  {
    var s := s0.(irr := {}, isr := {3, 1});
    TwoInService(s0);
    var ops := [Raise(3), Ack, Raise(1), Ack];
    assert (ops + [Command(true, true, false, 2)])[..4] == ops;
    assert Parts(s, 2, 1, 3);
    assert ScanEoi(s.(lowest := 2), 0) == 3;
  }

  lemma TwoInService(s0: State)
    requires Reset(s0) && s0.imr == {} && s0.elcr == {}
    ensures var ops := [Raise(3), Ack, Raise(1), Ack];
            && AllAllowed(s0, ops) && RunStack(s0, ops) == [3, 1]
            && Run(s0, ops) == s0.(irr := {}, isr := {3, 1})
  {
    OneInService(s0);
    var o2, o3, o4 := [Raise(3), Ack], [Raise(3), Ack, Raise(1)], [Raise(3), Ack, Raise(1), Ack];
    assert o3[..2] == o2 && o4[..3] == o3;
    var s3 := s0.(irr := {1}, isr := {3});
    assert Run(s0, o3) == s3 && RunStack(s0, o3) == [3];
    AcknowledgedIffHighest(s3, 1);
  }

  lemma OneInService(s0: State)
    requires Reset(s0) && s0.imr == {} && s0.elcr == {}
    ensures var ops := [Raise(3), Ack];
            && AllAllowed(s0, ops) && RunStack(s0, ops) == [3]
            && Run(s0, ops) == s0.(irr := {}, isr := {3})
  {
    var o1, o2 := [Raise(3)], [Raise(3), Ack];
    assert o1[..0] == [] && o2[..1] == o1;
    assert Run(s0, o1) == s0.(irr := {3}) && RunStack(s0, o1) == [];
    AcknowledgedIffHighest(s0.(irr := {3}), 3);
  }

  // ---------------------------------------------------------------- the device

  class Pic {
    var irr: set<nat>
    var isr: set<nat>
    var imr: set<nat>
    var elcr: set<nat>
    var lowest: nat
    var smm: bool
    var sfnm: bool
    var aeoi: bool
    var rotateOnAeoi: bool
    var icw3: set<nat>

    ghost function Model(): State
      reads this
    {
      State(irr, isr, imr, elcr, lowest, smm, sfnm, aeoi, rotateOnAeoi, icw3)
    }

    /** `prioritize_irq`; with `intAck` the line found is acknowledged. */
    method PrioritizeIrq(intAck: bool) returns (found: bool, line: nat)
      modifies this
      ensures found <==> Scan(old(Model()), 0) != 8
      ensures found ==> line == Scan(old(Model()), 0)
      ensures Model() == if intAck then IntAck(old(Model())) else old(Model())
    {
      ghost var s := Model();
      var i := 0;
      while i < 8
        invariant 0 <= i <= 8 && Scan(s, 0) == Scan(s, i)
      {
        line := (lowest + 1 + i) % 8;
        if !smm && line in isr && !(sfnm && line in icw3) {
          return false, line;
        }
        if line in irr && line !in imr {
          if intAck {
            AcknowledgeLine(line);
          }
          return true, line;
        }
        i := i + 1;
      }
      return false, 0;
    }

    method AcknowledgeLine(line: nat)
      modifies this
      ensures Model() == Acknowledge(old(Model()), line)
    {
      isr := isr + {line};
      if line !in elcr {
        irr := irr - {line};
      }
      if aeoi {
        EndOfInterrupt();
        if rotateOnAeoi {
          lowest := (lowest + 1) % 8;
        }
      }
    }

    /** `non_specific_eoi`. */
    method EndOfInterrupt()
      modifies this`isr
      ensures Model() == NonSpecificEoi(old(Model()))
    {
      ghost var s := Model();
      var i := 0;
      while i < 8
        invariant 0 <= i <= 8 && Model() == s && ScanEoi(s, 0) == ScanEoi(s, i)
      {
        var line := (lowest + 1 + i) % 8;
        if line in isr && !(smm && line !in imr) {
          isr := isr - {line};
          return;
        }
        i := i + 1;
      }
    }

    /**
     OCW2. Whatever stack of lines was in service, in normal mode the one that the command leaves
     is nested iff the command does not part it.
     */
    method WriteOcw2(r: bool, sl: bool, eoi: bool, line: nat, ghost stack: seq<nat>)
      requires line < 8
      modifies this
      ensures Model() == Ocw2(old(Model()), r, sl, eoi, line)
      ensures old(Valid(Model()) && Normal(Model()) && Refines(Model(), stack)) ==>
                && Valid(Model())
                && (Refines(Model(), StackAfter(stack, old(Model()), Command(r, sl, eoi, line)))
                    <==> old(Harmless(Model(), r, sl, eoi, line)))
    {
      ghost var s := Model();
      if Valid(s) && Normal(s) && Refines(s, stack) {
        CommandKeepsNestingIff(s, stack, r, sl, eoi, line);
      }
      if sl {
        if eoi {
          isr := isr - {line};
        }
        if r {
          lowest := line;
        }
      } else if eoi {
        EndOfInterrupt();
        if r {
          lowest := (lowest + 1) % 8;
        }
      } else {
        rotateOnAeoi := r;
      }
    }
  }
}
