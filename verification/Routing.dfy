/**
 Level-triggered interrupts across three devices: the I/O APIC (model/ioapic.cc) sends a
 message, msi.cc forwards it, the local APIC (model/lapic.cc) keeps it in the IRR and the
 ISR, and the EOI travels back to the I/O APIC.

 The interrupt of a pin is a token: the remote IRR of the pin is set exactly while the
 token is in one place, the IRR, the ISR or an EOI that is on its way. The EOI is taken
 apart into its steps, because the notifications that the I/O APIC sends in the middle of
 it let devices assert pins again.
 */
module Routing {
  import opened Common
  import opened Msi
  import L = LapicSpec
  import IO = IoApic

  /** An EOI that has left the local APIC and reached the pins below `next`. */
  datatype Broadcast = Broadcast(vector: nat, next: nat)

  datatype Sys = Sys(lapic: L.State, io: IO.State, eoi: Option<Broadcast>)

  // ---------------------------------------------------------------- message delivery

  function ModeNamed(mode: bv32): L.Mode {
    if mode == 0x200 then L.Smi else if mode == 0x400 then L.Nmi else if mode == 0x500 then L.InitMode else L.ExtInt
  }

  /** A memory write of the I/O APIC, through msi.cc to the local APIC with address `a`. */
  ghost function Deliver(l: L.State, a: Address, w: MemWrite): (r: L.State)
    requires L.Shape(l)
    ensures L.Shape(r)
  {
    match Arrives(a, w)
    case None => l
    case Some(FixedVector(v, level, assertion)) => L.AcceptVector(l, v, level, assertion)
    case Some(Event(mode)) => l.(events := l.events + [ModeNamed(mode)])
  }

  /** An entry with the mode SMI, NMI, INIT or EXTINT reaches the processor as that event. */
  lemma EventIsDelivered(l: L.State, a: Address, lo: bv32, hi: bv32)
    requires L.Shape(l) && Aimed(a, lo, hi)
    ensures ModeOf(lo) == 0x200 ==> Deliver(l, a, EntryMessage(lo, hi)) == l.(events := l.events + [L.Smi])
    ensures ModeOf(lo) == 0x400 ==> Deliver(l, a, EntryMessage(lo, hi)) == l.(events := l.events + [L.Nmi])
    ensures ModeOf(lo) == 0x500 ==> Deliver(l, a, EntryMessage(lo, hi)) == l.(events := l.events + [L.InitMode])
    ensures ModeOf(lo) == 0x700 ==> Deliver(l, a, EntryMessage(lo, hi)) == l.(events := l.events + [L.ExtInt])
  {
    ArrivesIff(a, lo, hi);
  }

  /** Delivers the message that an operation of the I/O APIC has sent, if it sent one. */
  ghost function DeliverNew(l: L.State, a: Address, before: IO.State, after: IO.State): (r: L.State)
    requires L.Shape(l)
    ensures L.Shape(r)
  {
    if |after.sent| > |before.sent| then Deliver(l, a, after.sent[|after.sent| - 1]) else l
  }

  // ---------------------------------------------------------------- programming

  predicate LevelPin(io: IO.State, p: nat)
    requires IO.Shape(io)
  {
    p < 24 && Level(IO.Lo(io, p))
  }

  function PinVector(io: IO.State, p: nat): (v: nat)
    requires IO.Shape(io) && p < 24
    ensures v < 256
  {
    VectorOf(IO.Lo(io, p))
  }

  /** The entry has a valid vector, a fixed or lowest-priority mode, and is aimed at the APIC. */
  predicate Deliverable(a: Address, lo: bv32, hi: bv32) {
    VectorOf(lo) >= 16 && (ModeOf(lo) == 0 || ModeOf(lo) == 0x100) && Aimed(a, lo, hi)
  }

  /** Level pins have different vectors, a fixed or lowest-priority mode and reach the APIC. */
  ghost predicate Programmed(io: IO.State, a: Address)
    requires IO.Shape(io)
  {
    && (forall p: nat :: LevelPin(io, p) ==> Deliverable(a, IO.Lo(io, p), IO.Hi(io, p)))
    && (forall p: nat, q: nat :: LevelPin(io, p) && LevelPin(io, q) && p != q ==> PinVector(io, p) != PinVector(io, q))
  }

  /**
   A message from elsewhere with the vector of a level pin is level triggered, and leaves the
   pending bit of the vector as it is.
   */
  ghost predicate MessageOk(s: Sys, v: nat, level: bool, value: bool)
    requires IO.Shape(s.io)
  {
    forall p: nat :: LevelPin(s.io, p) && PinVector(s.io, p) == v ==> level && (value <==> v in s.lapic.irr)
  }

  /** A write of the EOI register of the I/O APIC does not name a level pin whose interrupt is under way. */
  ghost predicate EoiRegisterOk(s: Sys, v: nat)
    requires IO.Shape(s.io)
  {
    forall p: nat :: LevelPin(s.io, p) && PinVector(s.io, p) == v ==> !s.io.rirr[p]
  }

  /** The vector belongs to no level pin. */
  ghost predicate Foreign(io: IO.State, v: nat)
    requires IO.Shape(io)
  {
    forall p: nat :: LevelPin(io, p) ==> PinVector(io, p) != v
  }

  /** What arrives at the local APIC when pin q sends its message. */
  function PinArrival(io: IO.State, a: Address, q: nat): Option<Arrival>
    requires IO.Shape(io) && q < 24
  {
    Arrives(a, EntryMessage(IO.Lo(io, q), IO.Hi(io, q)))
  }

  /** An open edge pin does not send the local APIC the vector of a level pin. */
  ghost predicate EdgeOk(io: IO.State, a: Address, q: nat)
    requires IO.Shape(io)
  {
    q < 24 && !LevelPin(io, q) && !Masked(IO.Lo(io, q)) ==>
      var r := PinArrival(io, a, q);
      r.Some? && r.value.FixedVector? ==> Foreign(io, r.value.vector)
  }

  // ---------------------------------------------------------------- steps

  datatype Step =
    | Pin(pin: nat, t: IO.Trigger)
    | WriteEntry(index: nat, value: bv32)
    | WriteEoi(vector: nat)
    | Local(op: L.Op)
    | EoiStart
    | EoiPin
    | EoiFinish(expired: bool)

  /** Two low words agree in vector, trigger mode, delivery mode and destination mode. */
  predicate SameWord(x: bv32, y: bv32) {
    VectorOf(x) == VectorOf(y) && Level(x) == Level(y) && ModeOf(x) == ModeOf(y) && x & 0x800 == y & 0x800
  }

  /** A write that changes at most the mask of an entry. */
  predicate KeepsEntry(io: IO.State, index: nat, value: bv32)
    requires IO.Shape(io) && index < 48
  {
    if index % 2 == 1 then IO.StoredWord(index, value) == io.redir[index]
    else SameWord(IO.StoredWord(index, value), io.redir[index])
  }

  /** Operations of the local APIC that leave the vectors of the level pins and the programming alone. */
  ghost predicate LocalOk(s: Sys, op: L.Op)
    requires IO.Shape(s.io)
  {
    && L.ValidOp(op)
    && match op
       case Message(v, level, value) => MessageOk(s, v, level, value)
       case WriteLvtOp(_, l, _) => Foreign(s.io, l.vector)
       case WriteSvr(_, _, suppress, _) => !suppress
       case IntaOp => s.eoi.None?
       case EoiOp(_) => false
       case InitOp => false
       case _ => true
  }

  /** The steps that the devices can take; an EOI is finished before the next INTA, EOI or INIT. */
  predicate Possible(s: Sys, step: Step) {
    match step
    case Pin(_, _) => true
    case WriteEntry(index, _) => index < 48
    case WriteEoi(_) => true
    case Local(op) => L.ValidOp(op) && !op.EoiOp? && (op.IntaOp? || op.InitOp? ==> s.eoi.None?)
    case EoiStart => s.eoi.None? && s.lapic.isrv != 0
    case EoiPin => s.eoi.Some? && s.eoi.value.next < 24
    case EoiFinish(_) => s.eoi.Some? && s.eoi.value.next >= 24
  }

  /** The steps under which the tokens are kept. */
  ghost predicate Enabled(s: Sys, a: Address, step: Step)
    requires IO.Shape(s.io)
  {
    && Possible(s, step)
    && match step
       case Pin(q, t) => t == IO.DeassertIrq || EdgeOk(s.io, a, q)
       case WriteEntry(index, value) => KeepsEntry(s.io, index, value)
       case WriteEoi(v) => EoiRegisterOk(s, v)
       case Local(op) => LocalOk(s, op)
       case _ => true
  }

  ghost function Next(s: Sys, a: Address, step: Step): (r: Sys)
    requires L.Shape(s.lapic) && IO.Shape(s.io) && Possible(s, step)
    ensures L.Shape(r.lapic) && IO.Shape(r.io)
  {
    match step
    case Pin(pin, t) =>
      var io := IO.PinAssert(s.io, pin, t);
      s.(io := io, lapic := DeliverNew(s.lapic, a, s.io, io))
    case WriteEntry(index, value) =>
      var io := IO.WriteRedir(s.io, index, value);
      s.(io := io, lapic := DeliverNew(s.lapic, a, s.io, io))
    case WriteEoi(v) => s.(io := IO.EoiPins(s.io, v, 24))
    case Local(op) => s.(lapic := L.Apply(s.lapic, op))
    case EoiStart =>
      s.(lapic := L.EoiBegin(s.lapic),
         eoi := Some(Broadcast(s.lapic.isrv, if L.EoiBroadcast(s.lapic) != None then 0 else 24)))
    case EoiPin =>
      s.(io := IO.EoiPin(s.io, s.eoi.value.vector, s.eoi.value.next),
         eoi := Some(Broadcast(s.eoi.value.vector, s.eoi.value.next + 1)))
    case EoiFinish(expired) => s.(lapic := L.EoiEnd(s.lapic, expired), eoi := None)
  }

  // ---------------------------------------------------------------- the invariant

  /** The EOI on its way has the vector of pin p and has not reached p. */
  predicate InFlight(s: Sys, p: nat)
    requires IO.Shape(s.io) && p < 24
  {
    s.eoi.Some? && s.eoi.value.vector == PinVector(s.io, p) && s.eoi.value.next <= p
  }

  /** In how many places the token of pin p is. */
  function Tokens(s: Sys, p: nat): nat
    requires IO.Shape(s.io) && p < 24
  {
    var v := PinVector(s.io, p);
    (if v in s.lapic.irr then 1 else 0) + (if v in s.lapic.isr then 1 else 0) + (if InFlight(s, p) then 1 else 0)
  }

  /** The remote IRR of a level pin is set exactly while its token is in exactly one place. */
  ghost predicate TokenOk(s: Sys, p: nat)
    requires IO.Shape(s.io) && LevelPin(s.io, p)
  {
    var v := PinVector(s.io, p);
    && Tokens(s, p) == (if s.io.rirr[p] then 1 else 0)
    && (v in s.lapic.irr || v in s.lapic.isr ==> v in s.lapic.tmr)
    && L.NotInLvt(s.lapic, v)
  }

  ghost predicate Inv(s: Sys, a: Address) {
    && L.Shape(s.lapic) && IO.Shape(s.io) && Programmed(s.io, a)
    && !s.lapic.svr.suppressEoi
    && (s.eoi.None? ==> L.IsHighest(s.lapic.isr, s.lapic.isrv))
    && (forall p: nat :: LevelPin(s.io, p) ==> TokenOk(s, p))
    && (forall p: nat :: p < 24 && !LevelPin(s.io, p) ==> !s.io.rirr[p])
  }

  /** A start state: nothing pending anywhere, and the LVT does not use the vectors of the level pins. */
  ghost predicate Start(s: Sys, a: Address) {
    && L.Shape(s.lapic) && IO.Shape(s.io) && Programmed(s.io, a)
    && !s.lapic.svr.suppressEoi && s.eoi.None?
    && s.lapic.irr == {} && s.lapic.isr == {} && s.lapic.isrv == 0
    && (forall p: nat :: p < 24 ==> !s.io.rirr[p])
    && (forall p: nat :: LevelPin(s.io, p) ==> L.NotInLvt(s.lapic, PinVector(s.io, p)))
  }

  lemma StartOk(s: Sys, a: Address)
    requires Start(s, a)
    ensures Inv(s, a)
  {
  }

  // ---------------------------------------------------------------- all runs

  lemma StepKeepsInv(s: Sys, a: Address, step: Step)
    requires Inv(s, a) && Enabled(s, a, step)
    ensures Inv(Next(s, a, step), a)
  {
    match step
    case Pin(pin, t) => PinStep(s, a, pin, t);
    case WriteEntry(index, value) => WriteStep(s, a, index, value);
    case WriteEoi(v) => EoiRegisterKeepsInvIff(s, a, v);
    case Local(op) => LocalStep(s, a, op);
    case EoiStart => EoiStartStep(s, a);
    case EoiPin => EoiPinStep(s, a);
    case EoiFinish(expired) => EoiFinishStep(s, a, expired);
  }

  /** The states of a run, each made from the one before by an enabled step. */
  ghost predicate IsRun(states: seq<Sys>, steps: seq<Step>, a: Address) {
    && |states| == |steps| + 1
    && Start(states[0], a)
    && forall i :: 0 <= i < |steps| ==>
         && L.Shape(states[i].lapic) && IO.Shape(states[i].io) && Enabled(states[i], a, steps[i])
         && states[i + 1] == Next(states[i], a, steps[i])
  }

  /** In every reachable state every level interrupt is in exactly one place, or nowhere. */
  lemma {:induction false} TokensOverAllRuns(states: seq<Sys>, steps: seq<Step>, a: Address, i: nat)
    requires IsRun(states, steps, a) && i < |states|
    ensures Inv(states[i], a)
    decreases i
  {
    if i == 0 {
      StartOk(states[0], a);
    } else {
      TokensOverAllRuns(states, steps, a, i - 1);
      StepKeepsInv(states[i - 1], a, steps[i - 1]);
    }
  }

  /** The step sends the message of pin p. */
  ghost predicate Sends(states: seq<Sys>, steps: seq<Step>, a: Address, i: nat, p: nat)
    requires IsRun(states, steps, a) && i < |steps|
  {
    && |states[i + 1].io.sent| > |states[i].io.sent|
    && ((steps[i].Pin? && steps[i].pin == p) || (steps[i].WriteEntry? && steps[i].index / 2 == p))
  }

  /** The step is the arrival of an EOI at pin p, with the vector of p. */
  ghost predicate EoiArrives(states: seq<Sys>, steps: seq<Step>, a: Address, i: nat, p: nat)
    requires IsRun(states, steps, a) && i < |steps| && p < 24
  {
    && steps[i] == EoiPin && states[i].eoi.value.next == p
    && states[i].eoi.value.vector == PinVector(states[i].io, p)
  }

  /** A message of a level pin finds its token nowhere and leaves it in the IRR. */
  lemma SendMakesToken(states: seq<Sys>, steps: seq<Step>, a: Address, i: nat, p: nat)
    requires IsRun(states, steps, a) && i < |steps| && LevelPin(states[i].io, p) && Sends(states, steps, a, i, p)
    ensures !states[i].io.rirr[p] && Tokens(states[i], p) == 0
    ensures IO.Shape(states[i + 1].io) && states[i + 1].io.rirr[p]
  {
    TokensOverAllRuns(states, steps, a, i);
    TokensOverAllRuns(states, steps, a, i + 1);
    var s, step := states[i], steps[i];
    assert TokenOk(s, p);
    if step.WriteEntry? {
      var index, value := step.index, step.value;
      var io1 := IO.Stored(s.io, index, value);
      StoredEntry(s.io, index, value, p);
      assert io1.sent == s.io.sent && io1.rirr == s.io.rirr;
    }
  }

  /** Only an EOI takes the remote IRR of a pin back. */
  lemma OnlyEoiClears(s: Sys, a: Address, step: Step, p: nat)
    requires Inv(s, a) && Enabled(s, a, step) && p < 24 && s.io.rirr[p] && !Next(s, a, step).io.rirr[p]
    ensures step == EoiPin && s.eoi.value.next == p && s.eoi.value.vector == PinVector(s.io, p)
  {
    if step.Pin? {
      AssertKeepsRemoteIrr(s.io, step.pin, step.t, p);
    } else if step.WriteEntry? {
      var io1 := IO.Stored(s.io, step.index, step.value);
      assert io1.rirr == s.io.rirr;
      AssertKeepsRemoteIrr(io1, step.index / 2, IO.AssertNotify, p);
    } else if step.WriteEoi? {
      EoiPinsClear(s.io, step.vector, 24, p);
    }
  }

  lemma AssertKeepsRemoteIrr(io: IO.State, pin: nat, t: IO.Trigger, p: nat)
    requires IO.Shape(io) && p < 24 && io.rirr[p]
    ensures IO.PinAssert(io, pin, t).rirr[p]
  {
  }

  /** Between two messages of a level pin there is always an EOI that reaches the pin. */
  lemma {:induction false} NoSecondMessageBeforeEoi(states: seq<Sys>, steps: seq<Step>, a: Address, i: nat, j: nat,
                                                    p: nat)
    requires IsRun(states, steps, a) && i < j < |steps|
    requires LevelPin(states[i].io, p) && LevelPin(states[j].io, p)
    requires Sends(states, steps, a, i, p) && Sends(states, steps, a, j, p)
    ensures exists k :: i < k < j && EoiArrives(states, steps, a, k, p)
  {
    SendMakesToken(states, steps, a, i, p);
    SendMakesToken(states, steps, a, j, p);
    ClearedBetween(states, steps, a, i + 1, j, p);
  }

  lemma {:induction false} ClearedBetween(states: seq<Sys>, steps: seq<Step>, a: Address, i: nat, j: nat, p: nat)
    requires IsRun(states, steps, a) && i <= j < |steps| && p < 24
    requires IO.Shape(states[i].io) && IO.Shape(states[j].io) && states[i].io.rirr[p] && !states[j].io.rirr[p]
    ensures exists k :: i <= k < j && EoiArrives(states, steps, a, k, p)
    decreases j - i
  {
    TokensOverAllRuns(states, steps, a, i);
    TokensOverAllRuns(states, steps, a, i + 1);
    if states[i + 1].io.rirr[p] {
      ClearedBetween(states, steps, a, i + 1, j, p);
    } else {
      OnlyEoiClears(states[i], a, steps[i], p);
      assert EoiArrives(states, steps, a, i, p);
    }
  }

  // ---------------------------------------------------------------- steps of the local APIC

  /** What a step of the local APIC alone must keep. */
  ghost predicate KeepsTokens(s: Sys, l: L.State)
    requires IO.Shape(s.io)
  {
    && L.Shape(l) && !l.svr.suppressEoi
    && (s.eoi.None? ==> L.IsHighest(l.isr, l.isrv))
    && forall p: nat :: LevelPin(s.io, p) ==> TokenOk(s.(lapic := l), p)
  }

  lemma LocalStep(s: Sys, a: Address, op: L.Op)
    requires Inv(s, a) && LocalOk(s, op)
    ensures KeepsTokens(s, L.Apply(s.lapic, op))
  {
    if op == L.IntaOp {
      IntaStep(s, a);
    } else {
      var r := L.Apply(s.lapic, op);
      forall p: nat | LevelPin(s.io, p)
        ensures TokenOk(s.(lapic := r), p)
      {
        OtherOp(s, a, op, p);
      }
      ServiceKept(s.lapic, op);
    }
  }

  lemma ServiceKept(l: L.State, op: L.Op)
    requires L.Shape(l) && L.ValidOp(op) && !op.IntaOp? && !op.EoiOp? && !op.InitOp?
    ensures var r := L.Apply(l, op);
            r.isr == l.isr && r.isrv == l.isrv && (op.WriteSvr? || r.svr == l.svr)
    ensures op.WriteSvr? ==> L.Apply(l, op).svr == L.Svr(op.spurious, op.enable, op.suppress)
  {
  }

  /** Operations other than INTA and EOI do not touch the token of a pin. */
  lemma OtherOp(s: Sys, a: Address, op: L.Op, p: nat)
    requires Inv(s, a) && LocalOk(s, op) && op != L.IntaOp && LevelPin(s.io, p)
    ensures TokenOk(s.(lapic := L.Apply(s.lapic, op)), p)
  {
    var v := PinVector(s.io, p);
    assert TokenOk(s, p);
    ServiceKept(s.lapic, op);
    if op.Message? && op.vector == v {
      assert v >= 16;
    } else {
      SameAfter(s.lapic, op, v);
    }
  }

  /** A message with the vector of a level pin keeps the tokens if and only if it satisfies the guard above. */
  lemma MessageKeepsInvIff(s: Sys, a: Address, v: nat, level: bool, value: bool)
    requires Inv(s, a) && v < 256
    ensures Inv(s.(lapic := L.Apply(s.lapic, L.Message(v, level, value))), a) <==> MessageOk(s, v, level, value)
  {
    if MessageOk(s, v, level, value) {
      LocalStep(s, a, L.Message(v, level, value));
    } else {
      var p: nat :| LevelPin(s.io, p) && PinVector(s.io, p) == v && !(level && (value <==> v in s.lapic.irr));
      MessageBreaksToken(s, a, p, level, value);
    }
  }

  lemma MessageBreaksToken(s: Sys, a: Address, p: nat, level: bool, value: bool)
    requires Inv(s, a) && LevelPin(s.io, p) && !(level && (value <==> PinVector(s.io, p) in s.lapic.irr))
    ensures !TokenOk(s.(lapic := L.Apply(s.lapic, L.Message(PinVector(s.io, p), level, value))), p)
  {
    var v := PinVector(s.io, p);
    assert TokenOk(s, p) && v >= 16;
    var r := L.Apply(s.lapic, L.Message(v, level, value));
    assert r.isr == s.lapic.isr && r.irr == L.SetBit(s.lapic.irr, v, !level || value);
    assert r.tmr == L.SetBit(s.lapic.tmr, v, level);
  }

  lemma SameAfter(l: L.State, op: L.Op, v: nat)
    requires L.Shape(l) && L.ValidOp(op) && !op.IntaOp? && !op.EoiOp? && !op.InitOp? && L.NotInLvt(l, v)
    requires op.Message? ==> op.vector != v
    requires op.WriteLvtOp? ==> op.lvt.vector != v
    ensures L.SameVector(l, L.Apply(l, op), v)
  {
    match op
    case Message(w, level, x) => L.AcceptLeavesAlone(l, w, level, x, v);
    case Lint(num) => L.TriggerLeavesAlone(l, num, v);
    case LegacyIntr => L.TriggerLeavesAlone(l.(lvtds := l.lvtds[L.LINT0 := true]), L.LINT0, v);
    case WriteLvtOp(num, e, expired) => WriteLvtSame(l, num, e, expired, v);
    case WriteSvr(x, enable, suppress, expired) => MaskSame(SvrWritten(l, op), 0, expired, v);
    case ErrorOp(bit) => L.ErrorLeavesAlone(l, bit, v);
    case _ =>
  }

  ghost function SvrWritten(l: L.State, op: L.Op): (r: L.State)
    requires L.Shape(l) && op.WriteSvr?
    ensures L.Shape(r) && forall v :: L.SameVector(l, r, v)
  {
    L.UpdateIrqs(l.(svr := L.Svr(op.spurious, op.enable, op.suppress)))
  }

  lemma WriteLvtSame(l: L.State, num: nat, e: L.Lvt, expired: bool, v: nat)
    requires L.Shape(l) && num < 6 && e.vector < 256 && e.vector != v && L.NotInLvt(l, v)
    ensures L.SameVector(l, L.WriteLvt(l, num, e, expired), v)
  {
    var l1 := l.(lvt := l.lvt[num := e.(masked := e.masked || !l.svr.enabled)]);
    assert L.SameVector(l, l1, v);
    var l2 := L.TriggerIf(l1, num, l1.lvtds[num]);
    L.TriggerLeavesAlone(l1, num, v);
    L.TriggerLeavesAlone(l2, L.TIMER, v);
  }

  lemma {:induction false} MaskSame(l: L.State, i: nat, expired: bool, v: nat)
    requires L.Shape(l) && i <= 6 && L.NotInLvt(l, v)
    ensures L.SameVector(l, L.MaskFrom(l, i, expired), v)
    decreases 6 - i
  {
    if i < 6 {
      WriteLvtSame(l, i, l.lvt[i], expired, v);
      MaskSame(L.WriteLvt(l, i, l.lvt[i], expired), i + 1, expired, v);
    }
  }

  /** INTA moves a token from the IRR to the ISR. */
  lemma IntaStep(s: Sys, a: Address)
    requires Inv(s, a) && s.eoi.None?
    ensures KeepsTokens(s, L.Inta(s.lapic))
  {
    var l := s.lapic;
    if L.Prioritize(l).Vector? {
      var v := L.Prioritize(l).v;
      assert L.IsHighest(l.irr, v);
      assert L.Class(v) > L.Class(l.isrv);
      assert forall w :: w in l.isr ==> w <= l.isrv;
    }
    forall p: nat | LevelPin(s.io, p)
      ensures TokenOk(s.(lapic := L.Inta(l)), p)
    {
      assert TokenOk(s, p);
    }
  }

  // ---------------------------------------------------------------- the three parts of an EOI

  /** The start of an EOI moves the token of its vector from the ISR onto its way back. */
  lemma EoiStartStep(s: Sys, a: Address)
    requires Inv(s, a) && Enabled(s, a, EoiStart)
    ensures Inv(Next(s, a, EoiStart), a)
  {
    var r := Next(s, a, EoiStart);
    assert s.lapic.isrv in s.lapic.isr;
    L.EoiBeginFacts(s.lapic);
    forall p: nat | LevelPin(r.io, p)
      ensures TokenOk(r, p)
    {
      assert TokenOk(s, p);
      assert r.lapic.lvt == s.lapic.lvt;
    }
  }

  /** An EOI that reaches its pin takes the token back and clears the remote IRR. */
  lemma EoiPinStep(s: Sys, a: Address)
    requires Inv(s, a) && Enabled(s, a, EoiPin)
    ensures Inv(Next(s, a, EoiPin), a)
  {
    var r := Next(s, a, EoiPin);
    assert r.io.redir == s.io.redir;
    forall p: nat | LevelPin(r.io, p)
      ensures TokenOk(r, p)
    {
      assert LevelPin(s.io, p) && TokenOk(s, p);
    }
    forall p: nat | p < 24 && !LevelPin(r.io, p)
      ensures !r.io.rirr[p]
    {
      assert !LevelPin(s.io, p);
    }
    SameEntries(s.io, r.io, a);
  }

  predicate SameEntry(io: IO.State, io': IO.State, p: nat)
    requires IO.Shape(io) && IO.Shape(io') && p < 24
  {
    SameWord(IO.Lo(io', p), IO.Lo(io, p)) && IO.Hi(io', p) == IO.Hi(io, p)
  }

  lemma SameDeliverable(a: Address, lo: bv32, lo': bv32, hi: bv32)
    requires SameWord(lo', lo) && Deliverable(a, lo, hi)
    ensures Deliverable(a, lo', hi)
  {
  }

  /** Programming is a matter of the redirection entries alone. */
  lemma SameEntries(io: IO.State, io': IO.State, a: Address)
    requires IO.Shape(io) && IO.Shape(io') && Programmed(io, a)
    requires forall p: nat :: p < 24 ==> SameEntry(io, io', p)
    ensures Programmed(io', a)
  {
    forall p: nat | LevelPin(io', p)
      ensures Deliverable(a, IO.Lo(io', p), IO.Hi(io', p))
    {
      assert SameEntry(io, io', p) && LevelPin(io, p);
      SameDeliverable(a, IO.Lo(io, p), IO.Lo(io', p), IO.Hi(io, p));
    }
    forall p: nat, q: nat | LevelPin(io', p) && LevelPin(io', q) && p != q
      ensures PinVector(io', p) != PinVector(io', q)
    {
      assert SameEntry(io, io', p) && SameEntry(io, io', q) && LevelPin(io, p) && LevelPin(io, q);
      assert PinVector(io, p) != PinVector(io, q);
    }
  }

  lemma EoiFinishStep(s: Sys, a: Address, expired: bool)
    requires Inv(s, a) && Enabled(s, a, EoiFinish(expired))
    ensures Inv(Next(s, a, EoiFinish(expired)), a)
  {
    var r := Next(s, a, EoiFinish(expired));
    var l := L.TriggerIf(s.lapic, L.TIMER, s.lapic.isrv == s.lapic.lvt[L.TIMER].vector && expired);
    assert r.lapic == L.UpdateIrqs(l.(isrv := L.Highest(l.isr)));
    forall p: nat | LevelPin(r.io, p)
      ensures TokenOk(r, p)
    {
      assert TokenOk(s, p);
      L.TriggerLeavesAlone(s.lapic, L.TIMER, PinVector(s.io, p));
    }
  }

  // ---------------------------------------------------------------- pins

  /** The message of a level pin sets its vector in the IRR, with the trigger mode level. */
  lemma LevelArrives(l: L.State, a: Address, lo: bv32, hi: bv32)
    requires L.Shape(l) && Level(lo) && VectorOf(lo) >= 16 && Aimed(a, lo, hi)
    requires ModeOf(lo) == 0 || ModeOf(lo) == 0x100
    ensures Deliver(l, a, EntryMessage(lo, hi))
            == L.UpdateIrqs(l.(irr := l.irr + {VectorOf(lo)}, tmr := l.tmr + {VectorOf(lo)}))
  {
    LevelEntryArrives(a, lo, hi);
  }

  /** A message of any pin leaves the vectors of all other pins alone. */
  lemma OthersUndisturbed(l: L.State, a: Address, w: MemWrite, v: nat)
    requires L.Shape(l) && L.NotInLvt(l, v)
    requires var r := Arrives(a, w); r.Some? && r.value.FixedVector? ==> r.value.vector != v
    ensures L.SameVector(l, Deliver(l, a, w), v)
  {
    match Arrives(a, w)
    case Some(FixedVector(x, level, assertion)) => L.AcceptLeavesAlone(l, x, level, assertion, v);
    case _ =>
  }

  lemma ServiceUndisturbed(l: L.State, a: Address, w: MemWrite)
    requires L.Shape(l)
    ensures var r := Deliver(l, a, w);
            r.isr == l.isr && r.isrv == l.isrv && r.svr == l.svr
  {
  }

  /** The state of one pin after `pin_assert` on pin q has sent a message. */
  lemma SentTokens(s: Sys, a: Address, q: nat, io: IO.State, p: nat)
    requires Inv(s, a) && q < 24 && !s.io.rirr[q] && IO.Shape(io) && io.redir == s.io.redir
    requires io.rirr == s.io.rirr[q := LevelPin(s.io, q)] && LevelPin(s.io, p)
    requires !Masked(IO.Lo(s.io, q)) && EdgeOk(s.io, a, q)
    ensures TokenOk(s.(io := io, lapic := Deliver(s.lapic, a, EntryMessage(IO.Lo(s.io, q), IO.Hi(s.io, q)))), p)
  {
    var lo, hi := IO.Lo(s.io, q), IO.Hi(s.io, q);
    var w := EntryMessage(lo, hi);
    assert TokenOk(s, p);
    ServiceUndisturbed(s.lapic, a, w);
    if p == q {
      LevelArrives(s.lapic, a, lo, hi);
    } else {
      EntryKeepsVector(a, lo, hi);
      assert LevelPin(s.io, q) ==> PinVector(s.io, p) != PinVector(s.io, q);
      OthersUndisturbed(s.lapic, a, w, PinVector(s.io, p));
    }
  }

  /** Asserting a pin creates a token, or does nothing to tokens. */
  lemma PinStep(s: Sys, a: Address, pin: nat, t: IO.Trigger)
    requires Inv(s, a) && (t == IO.DeassertIrq || EdgeOk(s.io, a, pin))
    ensures var io := IO.PinAssert(s.io, pin, t);
            Inv(s.(io := io, lapic := DeliverNew(s.lapic, a, s.io, io)), a)
  {
    var io := IO.PinAssert(s.io, pin, t);
    var r := s.(io := io, lapic := DeliverNew(s.lapic, a, s.io, io));
    assert io.redir == s.io.redir;
    SameEntries(s.io, io, a);
    if pin < 24 && t != IO.DeassertIrq && !s.io.rirr[pin] && !Masked(IO.Lo(s.io, pin)) {
      var w := EntryMessage(IO.Lo(s.io, pin), IO.Hi(s.io, pin));
      assert io.sent == s.io.sent + [w];
      assert io.rirr == s.io.rirr[pin := LevelPin(s.io, pin)];
      ServiceUndisturbed(s.lapic, a, w);
      forall p: nat | LevelPin(io, p)
        ensures TokenOk(r, p)
      {
        assert LevelPin(s.io, p);
        SentTokens(s, a, pin, io, p);
      }
    } else {
      assert io.sent == s.io.sent && io.rirr == s.io.rirr;
      forall p: nat | LevelPin(io, p)
        ensures TokenOk(r, p)
      {
        assert LevelPin(s.io, p) && TokenOk(s, p);
      }
    }
    forall p: nat | p < 24 && !LevelPin(io, p)
      ensures !io.rirr[p]
    {
      assert !LevelPin(s.io, p);
    }
  }

  /** Asserting an edge pin keeps the tokens if and only if it satisfies the guard above. */
  lemma EdgeKeepsInvIff(s: Sys, a: Address, q: nat, t: IO.Trigger)
    requires Inv(s, a) && q < 24 && !LevelPin(s.io, q) && t != IO.DeassertIrq
    ensures Inv(Next(s, a, Pin(q, t)), a) <==> EdgeOk(s.io, a, q)
  {
    if EdgeOk(s.io, a, q) {
      PinStep(s, a, q, t);
    } else {
      var v := PinArrival(s.io, a, q).value.vector;
      var p: nat :| LevelPin(s.io, p) && PinVector(s.io, p) == v;
      EdgeBreaksToken(s, a, q, t, p);
    }
  }

  lemma EdgeBreaksToken(s: Sys, a: Address, q: nat, t: IO.Trigger, p: nat)
    requires Inv(s, a) && q < 24 && !LevelPin(s.io, q) && !Masked(IO.Lo(s.io, q)) && t != IO.DeassertIrq
    requires LevelPin(s.io, p)
    requires var r := PinArrival(s.io, a, q); r.Some? && r.value.FixedVector? && r.value.vector == PinVector(s.io, p)
    ensures !Inv(Next(s, a, Pin(q, t)), a)
  {
    var r := PinArrival(s.io, a, q).value;
    EdgeEntryArrives(a, IO.Lo(s.io, q), IO.Hi(s.io, q));
    EdgeSends(s, a, q, t);
    MessageBreaksToken(s, a, p, false, r.assertion);
    var s1 := Next(s, a, Pin(q, t));
    SameToken(s.(lapic := L.Apply(s.lapic, L.Message(r.vector, false, r.assertion))), s1, p);
  }

  lemma EdgeSends(s: Sys, a: Address, q: nat, t: IO.Trigger)
    requires Inv(s, a) && q < 24 && !LevelPin(s.io, q) && !Masked(IO.Lo(s.io, q)) && t != IO.DeassertIrq
    ensures var s1 := Next(s, a, Pin(q, t));
            && s1.io.redir == s.io.redir && s1.io.rirr == s.io.rirr && s1.eoi == s.eoi
            && s1.lapic == Deliver(s.lapic, a, EntryMessage(IO.Lo(s.io, q), IO.Hi(s.io, q)))
  {
    var io := IO.PinAssert(s.io, q, t);
    assert !s.io.rirr[q] && io.rirr == s.io.rirr[q := false];
  }

  lemma SameToken(s: Sys, s1: Sys, p: nat)
    requires IO.Shape(s.io) && IO.Shape(s1.io) && LevelPin(s.io, p)
    requires s1.io.redir == s.io.redir && s1.io.rirr == s.io.rirr && s1.lapic == s.lapic && s1.eoi == s.eoi
    ensures LevelPin(s1.io, p) && (TokenOk(s1, p) <==> TokenOk(s, p))
  {
  }

  /** A write that keeps the entry but for its mask keeps all tokens where they are. */
  lemma StoreStep(s: Sys, a: Address, index: nat, value: bv32)
    requires Inv(s, a) && index < 48 && KeepsEntry(s.io, index, value)
    ensures Inv(s.(io := IO.Stored(s.io, index, value)), a)
  {
    var io := IO.Stored(s.io, index, value);
    forall p: nat | p < 24
      ensures SameEntry(s.io, io, p)
    {
      StoredEntry(s.io, index, value, p);
    }
    SameEntries(s.io, io, a);
    SameTokens(s, a, io);
  }

  lemma StoredEntry(io: IO.State, index: nat, value: bv32, p: nat)
    requires IO.Shape(io) && index < 48 && p < 24 && KeepsEntry(io, index, value)
    ensures SameEntry(io, IO.Stored(io, index, value), p)
  {
    UpdatedEntry(io.redir, index, IO.StoredWord(index, value), p);
  }

  lemma UpdatedEntry(redir: seq<bv32>, index: nat, w: bv32, p: nat)
    requires |redir| == 48 && index < 48 && p < 24
    requires if index % 2 == 1 then w == redir[index] else SameWord(w, redir[index])
    ensures SameWord(redir[index := w][2 * p], redir[2 * p]) && redir[index := w][2 * p + 1] == redir[2 * p + 1]
  {
    SameWordRefl(redir[2 * p]);
  }

  lemma SameWordRefl(x: bv32)
    ensures SameWord(x, x)
  {
  }

  /** Tokens depend on the vectors and trigger modes of the entries and on the remote IRRs. */
  lemma SameTokens(s: Sys, a: Address, io: IO.State)
    requires Inv(s, a) && IO.Shape(io) && Programmed(io, a) && io.rirr == s.io.rirr
    requires forall p: nat :: p < 24 ==> SameEntry(s.io, io, p)
    ensures Inv(s.(io := io), a)
  {
    forall p: nat | LevelPin(io, p)
      ensures TokenOk(s.(io := io), p)
    {
      assert SameEntry(s.io, io, p) && LevelPin(s.io, p) && TokenOk(s, p);
    }
    forall p: nat | p < 24 && !LevelPin(io, p)
      ensures !io.rirr[p]
    {
      assert SameEntry(s.io, io, p) && !LevelPin(s.io, p);
    }
  }

  lemma WriteStep(s: Sys, a: Address, index: nat, value: bv32)
    requires Inv(s, a) && Enabled(s, a, WriteEntry(index, value))
    ensures Inv(Next(s, a, WriteEntry(index, value)), a)
  {
    StoreStep(s, a, index, value);
    var io1 := IO.Stored(s.io, index, value);
    RetriggerStep(s.(io := io1), a, index / 2);
    SameSent(s.lapic, a, s.io, io1, IO.WriteRedir(s.io, index, value));
  }

  lemma SameSent(l: L.State, a: Address, x: IO.State, y: IO.State, after: IO.State)
    requires L.Shape(l) && x.sent == y.sent
    ensures DeliverNew(l, a, x, after) == DeliverNew(l, a, y, after)
  {
  }

  /** What an open entry does after it was written. */
  lemma RetriggerStep(s: Sys, a: Address, pin: nat)
    requires Inv(s, a) && pin < 24 && (s.io.ds[pin] ==> LevelPin(s.io, pin))
    ensures var io := if Masked(IO.Lo(s.io, pin)) then s.io else IO.Unmasked(s.io, pin);
            Inv(s.(io := io, lapic := DeliverNew(s.lapic, a, s.io, io)), a)
  {
    if !Masked(IO.Lo(s.io, pin)) {
      if s.io.ds[pin] {
        PinStep(s, a, pin, IO.AssertNotify);
      } else {
        NotifyStep(s, a, IO.Unmasked(s.io, pin));
      }
    }
  }

  lemma NotifyStep(s: Sys, a: Address, io: IO.State)
    requires Inv(s, a) && IO.Shape(io) && io.redir == s.io.redir && io.rirr == s.io.rirr
    ensures Inv(s.(io := io), a)
  {
    forall p: nat | p < 24
      ensures SameEntry(s.io, io, p)
    {
      SameWordRefl(IO.Lo(io, p));
    }
    SameEntries(s.io, io, a);
    SameTokens(s, a, io);
  }

  // ---------------------------------------------------------------- the EOI register of the I/O APIC

  /** The EOI loop clears the remote IRRs of one vector and keeps the entries. */
  lemma {:induction false} EoiPinsClear(io: IO.State, v: nat, n: nat, p: nat)
    requires IO.Shape(io) && n <= 24 && p < 24
    ensures var r := IO.EoiPins(io, v, n);
            r.redir == io.redir && (r.rirr[p] <==> io.rirr[p] && !(p < n && PinVector(io, p) == v))
  {
    if n > 0 {
      EoiPinsClear(io, v, n - 1, p);
      EoiPinsClear(io, v, n - 1, n - 1);
    }
  }

  /** A guest write of the EOI register keeps the tokens if and only if no interrupt of the vector is under way. */
  lemma EoiRegisterKeepsInvIff(s: Sys, a: Address, v: nat)
    requires Inv(s, a)
    ensures Inv(s.(io := IO.EoiPins(s.io, v, 24)), a) <==> EoiRegisterOk(s, v)
  {
    var io := IO.EoiPins(s.io, v, 24);
    forall p: nat | p < 24
      ensures io.redir == s.io.redir && (io.rirr[p] <==> s.io.rirr[p] && PinVector(s.io, p) != v)
    {
      EoiPinsClear(s.io, v, 24, p);
    }
    assert io.redir == s.io.redir by { EoiPinsClear(s.io, v, 24, 0); }
    if EoiRegisterOk(s, v) {
      forall p: nat | p < 24
        ensures io.rirr[p] == s.io.rirr[p]
      {
        assert !LevelPin(s.io, p) ==> !s.io.rirr[p];
      }
      assert io.rirr == s.io.rirr;
      NotifyStep(s, a, io);
    } else {
      var p: nat :| LevelPin(s.io, p) && PinVector(s.io, p) == v && s.io.rirr[p];
      assert TokenOk(s, p);
      assert !TokenOk(s.(io := io), p);
    }
  }

  /**
   With broadcasts suppressed the EOI of a level interrupt reaches no pin: the remote IRR stays set until the guest
   writes the vector to the EOI register of the I/O APIC.
   */
  lemma DirectedEoi(s: Sys, a: Address, p: nat, expired: bool)
    requires L.Shape(s.lapic) && IO.Shape(s.io) && p < 24 && s.io.rirr[p] && s.eoi.None?
    requires s.lapic.svr.suppressEoi && s.lapic.isrv == PinVector(s.io, p) != 0
    ensures var s1 := Next(s, a, EoiStart);
            && s1.eoi == Some(Broadcast(PinVector(s.io, p), 24)) && PinVector(s.io, p) !in s1.lapic.isr
            && Next(s1, a, EoiFinish(expired)).io == s.io
            && !Next(Next(s1, a, EoiFinish(expired)), a, WriteEoi(PinVector(s.io, p))).io.rirr[p]
  {
    L.EoiBeginFacts(s.lapic);
    EoiPinsClear(s.io, PinVector(s.io, p), 24, p);
  }

  // ---------------------------------------------------------------- shared vectors

  /**
   A message that the guard above excludes: an edge-triggered one with the vector of a level
   interrupt in service clears its trigger mode. The tokens are no longer as they should be, the
   EOI is not broadcast, and the pin stays blocked with its remote IRR set.
   */
  lemma SharedVectorStrandsToken(s: Sys, a: Address, p: nat, value: bool)
    requires Inv(s, a) && LevelPin(s.io, p) && s.eoi.None? && s.lapic.isrv == PinVector(s.io, p)
    ensures var v := PinVector(s.io, p);
            var l := L.Apply(s.lapic, L.Message(v, false, value));
            && !Inv(s.(lapic := l), a)
            && s.io.rirr[p]
            && L.EoiBroadcast(l) == None
            && v !in L.EoiBegin(l).isr
  {
    var v := PinVector(s.io, p);
    assert TokenOk(s, p);
    assert v in s.lapic.isr;
    var l := L.Apply(s.lapic, L.Message(v, false, value));
    assert !MessageOk(s, v, false, value);
    MessageKeepsInvIff(s, a, v, false, value);
    assert v !in l.tmr && l.isrv == v;
  }

  lemma {:induction false} NoExtInt(l: L.State, i: nat)
    requires |l.lvt| == 6 && |l.lvtds| == 6 && i <= 6 && forall k: nat :: k < 6 ==> !L.HasExtInt(l, k)
    ensures L.FirstExtInt(l, i) == 6
    decreases 6 - i
  {
    if i < 6 {
      NoExtInt(l, i + 1);
    }
  }

  /** Pin p is open, and the local APIC takes its vector as soon as it arrives. */
  ghost predicate Ready(s: Sys, p: nat)
    requires L.Shape(s.lapic) && IO.Shape(s.io)
  {
    && LevelPin(s.io, p) && !Masked(IO.Lo(s.io, p)) && L.Class(PinVector(s.io, p)) > s.lapic.tpr
    && forall k: nat :: k < 6 ==> !L.HasExtInt(s.lapic, k)
  }

  lemma PendingIsTaken(l: L.State, v: nat)
    requires L.Shape(l) && l.irr == {v} && l.isrv == 0 && v >= 16 && L.Class(v) > l.tpr
    requires forall k: nat :: k < 6 ==> !L.HasExtInt(l, k)
    ensures L.Inta(l).isrv == v
  {
    NoExtInt(l, 0);
    L.HighestUnique({v}, v);
  }

  /** Asserting the pin makes its vector pending. */
  lemma AssertedIsPending(s: Sys, a: Address, p: nat)
    requires Start(s, a) && Ready(s, p)
    ensures var v := PinVector(s.io, p);
            var r := Next(s, a, Pin(p, IO.AssertIrq));
            && r.lapic == L.UpdateIrqs(s.lapic.(irr := {v}, tmr := s.lapic.tmr + {v}))
            && r.io.redir == s.io.redir && r.eoi == None
  {
    LevelArrives(s.lapic, a, IO.Lo(s.io, p), IO.Hi(s.io, p));
    assert s.lapic.irr + {PinVector(s.io, p)} == {PinVector(s.io, p)};
  }

  lemma PendingIsServed(s0: Sys, a: Address, p: nat, s1: Sys)
    requires Start(s0, a) && Ready(s0, p) && Inv(s1, a) && s1 == Next(s0, a, Pin(p, IO.AssertIrq))
    ensures L.Inta(s1.lapic).isrv == PinVector(s1.io, p) && s1.eoi.None? && LevelPin(s1.io, p)
  {
    AssertedIsPending(s0, a, p);
    var v := PinVector(s0.io, p);
    assert Deliverable(a, IO.Lo(s0.io, p), IO.Hi(s0.io, p));
    forall k: nat | k < 6
      ensures !L.HasExtInt(s1.lapic, k)
    {
      assert !L.HasExtInt(s0.lapic, k);
    }
    PendingIsTaken(s1.lapic, v);
  }

  /** The state in which an interrupt is stranded is reached: a pin is asserted and its vector taken. */
  lemma ServiceReached(s0: Sys, a: Address, p: nat) returns (states: seq<Sys>, steps: seq<Step>)
    requires Start(s0, a) && Ready(s0, p)
    ensures IsRun(states, steps, a) && |steps| == 2 && states[0] == s0
    ensures var s := states[2];
            && Inv(s, a) && LevelPin(s.io, p) && s.eoi.None? && s.lapic.isrv == PinVector(s.io, p)
  {
    StartOk(s0, a);
    var s1 := Next(s0, a, Pin(p, IO.AssertIrq));
    StepKeepsInv(s0, a, Pin(p, IO.AssertIrq));
    PendingIsServed(s0, a, p, s1);
    var s2 := Next(s1, a, Local(L.IntaOp));
    StepKeepsInv(s1, a, Local(L.IntaOp));
    states, steps := RunOfTwo(s0, a, Pin(p, IO.AssertIrq), Local(L.IntaOp));
  }

  lemma RunOfTwo(s: Sys, a: Address, x: Step, y: Step) returns (states: seq<Sys>, steps: seq<Step>)
    requires Start(s, a) && Enabled(s, a, x) && Enabled(Next(s, a, x), a, y)
    ensures IsRun(states, steps, a) && steps == [x, y]
    ensures states == [s, Next(s, a, x), Next(Next(s, a, x), a, y)]
  {
    states, steps := [s, Next(s, a, x), Next(Next(s, a, x), a, y)], [x, y];
  }

  /** There is such a start: pin 0 is a level pin with vector 0x30, all other pins are masked. */
  ghost function ExampleStart(): Sys {
    Sys(L.State({}, {}, {}, 0, 0, L.Svr(0xff, true, false), {}, seq(6, _ => L.MASKED), seq(6, _ => false),
                seq(6, _ => false), false, []),
        IO.State(seq(48, i => if i == 0 then 0x8030 else if i % 2 == 0 then 0x1_0000 else 0),
                 seq(24, _ => false), seq(24, _ => false), seq(24, _ => false), [], []),
        None)
  }

  lemma ExampleIsReady()
    ensures Start(ExampleStart(), Address(0, 0, 0, false, 0)) && Ready(ExampleStart(), 0)
  {
    var s := ExampleStart();
    EntryBits();
    forall p: nat | p < 24
      ensures IO.Lo(s.io, p) == (if p == 0 then 0x8030 else 0x1_0000) && IO.Hi(s.io, p) == 0
    {
    }
  }

  lemma EntryBits()
    ensures Level(0x8030) && !Masked(0x8030) && VectorOf(0x8030) == 0x30 && ModeOf(0x8030) == 0
    ensures !Level(0x1_0000) && VectorOf(0x1_0000) == 0
    ensures Aimed(Address(0, 0, 0, false, 0), 0x8030, 0)
  {
  }
}
