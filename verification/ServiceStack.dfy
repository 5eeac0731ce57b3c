/**
 The stack of interrupts in service while an EOI is under way. The local APIC clears the ISR bit
 before it broadcasts the EOI and finds the next interrupt in service only after it, and in between the
 devices that the broadcast reaches may send messages: `_isrv` is then the vector that is being
 retired, and the ISR is what is left.
 */
module ServiceStack {
  import opened Common
  import opened Msi
  import L = LapicSpec
  import IO = IoApic
  import opened Routing

  /** The stack after a step: INTA pushes, the first half of an EOI pops, INIT empties it. */
  ghost function After(stack: seq<nat>, s: Sys, step: Step): seq<nat>
    requires L.Shape(s.lapic)
  {
    match step
    case Local(op) => L.StackAfter(stack, s.lapic, op)
    case EoiStart => if stack == [] then [] else stack[..|stack| - 1]
    case _ => stack
  }

  /** The ISR is the stack; `_isrv` is its top or, with an EOI under way, the vector that it retires. */
  ghost predicate InService(s: Sys, stack: seq<nat>) {
    && L.Nested(stack) && PendingOk(s.lapic)
    && (forall v :: v in s.lapic.isr <==> v in stack)
    && s.lapic.isrv == if s.eoi.None? then L.Top(stack) else s.eoi.value.vector
  }

  ghost predicate PendingOk(l: L.State) { forall v :: v in l.irr ==> 16 <= v < 256 }

  /** The interrupts in service stay, and whatever becomes pending has a vector that is not reserved. */
  ghost predicate Undisturbed(l: L.State, r: L.State) {
    r.isr == l.isr && r.isrv == l.isrv && forall v :: v in r.irr && v !in l.irr ==> 16 <= v < 256
  }

  lemma OtherOpsKeepService(l: L.State, op: L.Op)
    requires L.Shape(l) && L.ValidOp(op) && !op.IntaOp? && !op.EoiOp? && !op.InitOp?
    ensures Undisturbed(l, L.Apply(l, op))
  {
  }

  lemma DeliveryKeepsService(l: L.State, a: Address, before: IO.State, after: IO.State)
    requires L.Shape(l)
    ensures Undisturbed(l, DeliverNew(l, a, before, after))
  {
  }

  lemma StartOfEoi(s: Sys, a: Address, stack: seq<nat>)
    requires L.Shape(s.lapic) && IO.Shape(s.io) && Possible(s, EoiStart) && InService(s, stack)
    ensures stack != [] && InService(Next(s, a, EoiStart), After(stack, s, EoiStart))
    ensures Next(s, a, EoiStart).eoi.value.vector == L.Top(stack)
  {
    L.EoiBeginFacts(s.lapic);
    L.PopNested(stack);
  }

  lemma EndOfEoi(s: Sys, a: Address, stack: seq<nat>, expired: bool)
    requires L.Shape(s.lapic) && IO.Shape(s.io) && Possible(s, EoiFinish(expired)) && InService(s, stack)
    ensures InService(Next(s, a, EoiFinish(expired)), stack)
  {
    L.EoiEndFacts(s.lapic, expired);
    L.TopIsHighest(s.lapic.isr, stack);
  }

  /** Every step, also of the devices in the middle of an EOI, keeps the interrupts in service a stack. */
  lemma StepKeepsService(s: Sys, a: Address, step: Step, stack: seq<nat>)
    requires L.Shape(s.lapic) && IO.Shape(s.io) && Possible(s, step) && InService(s, stack)
    ensures InService(Next(s, a, step), After(stack, s, step))
  {
    match step
    case Pin(pin, t) => DeliveryKeepsService(s.lapic, a, s.io, IO.PinAssert(s.io, pin, t));
    case WriteEntry(index, value) => DeliveryKeepsService(s.lapic, a, s.io, IO.WriteRedir(s.io, index, value));
    case Local(op) =>
      if op.IntaOp? || op.InitOp? {
        L.StepKeepsStack(s.lapic, stack, op);
      } else {
        OtherOpsKeepService(s.lapic, op);
      }
    case EoiStart => StartOfEoi(s, a, stack);
    case EoiFinish(expired) => EndOfEoi(s, a, stack, expired);
    case _ =>
  }

  /** A run of all possible steps, whatever the guest has programmed, from a state without interrupts. */
  ghost predicate IsFreeRun(states: seq<Sys>, steps: seq<Step>, a: Address) {
    && |states| == |steps| + 1
    && states[0].eoi.None? && states[0].lapic.irr == states[0].lapic.isr == {} && states[0].lapic.isrv == 0
    && (forall i :: 0 <= i < |states| ==> L.Shape(states[i].lapic) && IO.Shape(states[i].io))
    && forall i :: 0 <= i < |steps| ==> Possible(states[i], steps[i]) && states[i + 1] == Next(states[i], a, steps[i])
  }

  ghost function StackOf(states: seq<Sys>, steps: seq<Step>, a: Address, i: nat): seq<nat>
    requires IsFreeRun(states, steps, a) && i < |states|
  {
    if i == 0 then [] else After(StackOf(states, steps, a, i - 1), states[i - 1], steps[i - 1])
  }

  /** In every reachable state the interrupts in service form a stack of at most 15 nested priority classes. */
  lemma {:induction false} ServiceOverAllRuns(states: seq<Sys>, steps: seq<Step>, a: Address, i: nat)
    requires IsFreeRun(states, steps, a) && i < |states|
    ensures InService(states[i], StackOf(states, steps, a, i))
    ensures |StackOf(states, steps, a, i)| <= 15
  {
    if i > 0 {
      ServiceOverAllRuns(states, steps, a, i - 1);
      StepKeepsService(states[i - 1], a, steps[i - 1], StackOf(states, steps, a, i - 1));
    }
    L.NestingBound(StackOf(states, steps, a, i));
  }

  /** An EOI retires the interrupt that was taken into service last. */
  lemma EoiRetiresTop(states: seq<Sys>, steps: seq<Step>, a: Address, i: nat)
    requires IsFreeRun(states, steps, a) && i < |steps| && steps[i] == EoiStart
    ensures var stack := StackOf(states, steps, a, i);
            && stack != [] && states[i + 1].eoi.Some? && states[i + 1].eoi.value.vector == L.Top(stack)
            && StackOf(states, steps, a, i + 1) == stack[..|stack| - 1]
  {
    ServiceOverAllRuns(states, steps, a, i);
    StartOfEoi(states[i], a, StackOf(states, steps, a, i));
  }
}
