/**
 The interrupt line of the local APIC (model/lapic.cc): the level that was sent to the processor last,
 against what is waiting there. Three operations do not send it again although they may change it: a write
 of the task priority, an INTA that is left to the PIC, and a masked source of an EXTINT.
 */
module InterruptLine {
  import opened Common
  import opened LapicSpec

  /** The line says whether something is waiting. */
  ghost predicate Reported(s: State)
    requires Shape(s)
  {
    s.line <==> Waiting(s)
  }

  // ---------------------------------------------------------------- what waiting depends on

  /** The same vectors, the same priorities, and the same EXTINTs. */
  ghost predicate SameWaiting(s: State, r: State)
    requires Shape(s) && Shape(r)
  {
    && r.irr == s.irr && r.isr == s.isr && r.tpr == s.tpr
    && forall i: nat :: i < 6 ==> HasExtInt(r, i) == HasExtInt(s, i)
  }

  lemma SameStaysReported(s: State, r: State)
    requires Shape(s) && Shape(r) && SameWaiting(s, r) && r.line == s.line
    ensures Reported(r) <==> Reported(s)
    ensures Waiting(r) <==> Waiting(s)
  {
    assert forall v :: Takeable(r, v) <==> Takeable(s, v);
  }

  lemma UpdateReports(s: State)
    requires Shape(s) && IsHighest(s.isr, s.isrv)
    ensures Reported(UpdateIrqs(s))
  {
    RaisedIffWaiting(s);
    SameStaysReported(UpdateIrqs(s), UpdateIrqs(s));
    assert SameWaiting(s, UpdateIrqs(s));
    assert forall v :: Takeable(UpdateIrqs(s), v) <==> Takeable(s, v);
  }

  // ---------------------------------------------------------------- local sources

  ghost predicate SameModes(s: State, r: State)
    requires Shape(s) && Shape(r)
  {
    forall i: nat :: i < 6 ==> r.lvt[i].mode == s.lvt[i].mode
  }

  lemma {:induction false} AcceptKeepsModes(s: State, vector: nat, level: bool, value: bool)
    requires Shape(s) && vector < 256
    ensures SameModes(s, AcceptVector(s, vector, level, value))
    decreases ErrorsLeft(s), 1
  {
    if vector < 16 && 6 !in s.esr {
      SmallerSet({4, 5, 6, 7} - (s.esr + {6}), {4, 5, 6, 7} - s.esr, 6);
      TriggerKeepsModes(s.(esr := s.esr + {6}), ERROR);
    }
  }

  lemma {:induction false} TriggerKeepsModes(s: State, num: nat)
    requires Shape(s) && num < 6
    ensures SameModes(s, TriggerLvt(s, num))
    decreases ErrorsLeft(s), 3
  {
    var l := s.lvt[num];
    var level := (l.level && l.mode == Fixed) || l.mode == ExtInt;
    var s1 := Latched(s, num, level);
    assert SameModes(s, s1);
    if !s.rirr[num] && !l.masked && l.mode == Fixed {
      AcceptKeepsModes(s1.(rirr := s1.rirr[num := level]), l.vector, level, true);
    }
  }

  lemma AcceptReports(s: State, vector: nat, level: bool, value: bool)
    requires Shape(s) && vector < 256 && IsHighest(s.isr, s.isrv)
    ensures Reported(AcceptVector(s, vector, level, value))
  {
    if vector < 16 {
      UpdateReports(SetError(s, 6));
    } else {
      UpdateReports(s.(irr := SetBit(s.irr, vector, !level || value), tmr := SetBit(s.tmr, vector, level)));
    }
  }

  lemma FixedReports(s: State, num: nat, vector: nat, level: bool)
    requires Shape(s) && num < 6 && vector < 256 && IsHighest(s.isr, s.isrv) && s.lvt[num].mode == Fixed
    ensures Reported(FixedFromLvt(s, num, vector, level))
  {
    var s0 := s.(rirr := s.rirr[num := level]);
    AcceptReports(s0, vector, level, true);
    AcceptKeepsModes(s0, vector, level, true);
    var s1 := AcceptVector(s0, vector, level, true);
    SameStaysReported(s1, s1.(lvtds := s1.lvtds[num := false]));
  }

  /** A masked source of an EXTINT is latched, which makes it waiting, but is not reported. */
  ghost predicate LatchesOnly(s: State, num: nat)
    requires Shape(s) && num < 6
  {
    s.lvt[num].mode == ExtInt && s.lvt[num].masked && !s.rirr[num] && !Waiting(s)
  }

  lemma LatchedExtInt(s: State, num: nat)
    requires Shape(s) && num < 6 && s.lvt[num].mode == ExtInt
    ensures Waiting(s.(lvtds := s.lvtds[num := true]))
  {
    assert HasExtInt(s.(lvtds := s.lvtds[num := true]), num);
  }

  lemma TriggerReportsIff(s: State, num: nat)
    requires Shape(s) && num < 6 && IsHighest(s.isr, s.isrv) && Reported(s)
    ensures Reported(TriggerLvt(s, num)) <==> !LatchesOnly(s, num)
  {
    var l := s.lvt[num];
    var level := (l.level && l.mode == Fixed) || l.mode == ExtInt;
    if !s.rirr[num] {
      var s1 := Latched(s, num, level);
      if l.mode == ExtInt {
        LatchedExtInt(s, num);
        if l.masked {
          assert s1 == s.(lvtds := s.lvtds[num := true]);
        } else {
          UpdateReports(s1);
        }
      } else {
        SameStaysReported(s, s1);
        if !l.masked {
          OpenSourceReports(s1, num, l, level);
        }
      }
    }
  }

  lemma OpenSourceReports(s: State, num: nat, l: Lvt, level: bool)
    requires Shape(s) && num < 6 && IsHighest(s.isr, s.isrv) && Reported(s)
    requires s.lvt[num].mode == l.mode && l.mode != ExtInt && l.vector < 256
    ensures l.mode == Fixed ==> Reported(FixedFromLvt(s, num, l.vector, level))
    ensures Reported(s.(events := s.events + [l.mode]))
  {
    if l.mode == Fixed {
      FixedReports(s, num, l.vector, level);
    }
    SameStaysReported(s, s.(events := s.events + [l.mode]));
  }

  lemma WriteLvtReports(s: State, num: nat, l: Lvt, expired: bool)
    requires Shape(s) && num < 6 && l.vector < 256 && IsHighest(s.isr, s.isrv)
    ensures Reported(WriteLvt(s, num, l, expired))
  {
    var s1 := s.(lvt := s.lvt[num := l.(masked := l.masked || !s.svr.enabled)]);
    var s2 := TriggerIf(s1, num, s1.lvtds[num]);
    UpdateReports(TriggerIf(s2, TIMER, num == TIMER && expired));
  }

  lemma {:induction false} MaskReports(s: State, i: nat, expired: bool)
    requires Shape(s) && i <= 6 && IsHighest(s.isr, s.isrv) && Reported(s)
    ensures Reported(MaskFrom(s, i, expired))
    decreases 6 - i
  {
    if i < 6 {
      WriteLvtReports(s, i, s.lvt[i], expired);
      MaskReports(WriteLvt(s, i, s.lvt[i], expired), i + 1, expired);
    }
  }

  // ---------------------------------------------------------------- all operations

  /** The operation changes whether something is waiting, and does not say so. */
  ghost predicate Silent(s: State, op: Op)
    requires Shape(s) && ValidOp(op)
  {
    match op
    case WriteTpr(t) => !ExtIntPending(s) && AnyTakeable(s.(tpr := t)) != AnyTakeable(s)
    case IntaOp => OneExtInt(s) && !AnyTakeable(s)
    case Lint(num) => LatchesOnly(s, num)
    case LegacyIntr => s.lvt[LINT0].mode == ExtInt && (s.lvt[LINT0].masked || s.rirr[LINT0]) && !Waiting(s)
    case ErrorOp(bit) => bit !in s.esr && LatchesOnly(s, ERROR)
    case _ => false
  }

  ghost predicate OneExtInt(s: State)
    requires Shape(s)
  {
    exists i: nat :: i < 6 && HasExtInt(s, i) && forall k: nat :: k < 6 && k != i ==> !HasExtInt(s, k)
  }

  lemma TprReportsIff(s: State, t: nat)
    requires Shape(s) && Reported(s)
    ensures Reported(s.(tpr := t)) <==> !(!ExtIntPending(s) && AnyTakeable(s.(tpr := t)) != AnyTakeable(s))
  {
    var r := s.(tpr := t);
    assert forall i: nat :: i < 6 ==> HasExtInt(r, i) == HasExtInt(s, i);
  }

  lemma IntaReportsIff(s: State)
    requires Shape(s) && IsHighest(s.isr, s.isrv) && Reported(s) && IsHighest(Inta(s).isr, Inta(s).isrv)
    ensures Reported(Inta(s)) <==> !(OneExtInt(s) && !AnyTakeable(s))
  {
    match Prioritize(s)
    case Vector(v) =>
      TakenIff(s, v);
      UpdateReports(s.(irr := s.irr - {v}, isr := s.isr + {v}, isrv := v));
    case Nothing =>
      FirstExtIntFinds(s, 0);
      UpdateReports(s);
    case ExtIntFrom(i) =>
      ExtIntIff(s, i);
      var r := s.(lvtds := s.lvtds[i := false]);
      assert forall v :: Takeable(r, v) <==> Takeable(s, v);
      forall k: nat | k < 6
        ensures HasExtInt(r, k) <==> HasExtInt(s, k) && k != i
      {
      }
  }

  lemma LegacyReportsIff(s: State)
    requires Shape(s) && IsHighest(s.isr, s.isrv) && Reported(s)
    ensures Reported(Apply(s, LegacyIntr)) <==> !Silent(s, LegacyIntr)
  {
    var s1 := s.(lvtds := s.lvtds[LINT0 := true]);
    if s.lvt[LINT0].mode == ExtInt {
      LatchedExtInt(s, LINT0);
      if !s.lvt[LINT0].masked && !s.rirr[LINT0] {
        UpdateReports(Latched(s1, LINT0, true));
      } else {
        SameStaysReported(s1, TriggerLvt(s1, LINT0));
      }
    } else {
      SameStaysReported(s, s1);
      TriggerReportsIff(s1, LINT0);
    }
  }

  lemma ErrorReportsIff(s: State, bit: nat)
    requires Shape(s) && IsHighest(s.isr, s.isrv) && Reported(s) && bit in {4, 5, 6, 7}
    ensures Reported(SetError(s, bit)) <==> !(bit !in s.esr && LatchesOnly(s, ERROR))
  {
    if bit !in s.esr {
      var s1 := s.(esr := s.esr + {bit});
      SameStaysReported(s, s1);
      TriggerReportsIff(s1, ERROR);
    }
  }

  lemma OtherOpsReport(s: State, op: Op)
    requires Shape(s) && ValidOp(op) && IsHighest(s.isr, s.isrv) && Reported(s)
    requires IsHighest(Apply(s, op).isr, Apply(s, op).isrv)
    requires !op.WriteTpr? && !op.IntaOp? && !op.Lint? && !op.LegacyIntr? && !op.ErrorOp?
    ensures Reported(Apply(s, op))
  {
    match op
    case Message(v, level, a) => AcceptReports(s, v, level, a);
    case LegacyDeassert => UpdateReports(s.(lvtds := s.lvtds[LINT0 := false]));
    case WriteLvtOp(num, l, expired) => WriteLvtReports(s, num, l, expired);
    case WriteSvr(v, enable, suppress, expired) =>
      var s1 := s.(svr := Svr(v, enable, suppress));
      UpdateReports(s1);
      MaskReports(UpdateIrqs(s1), 0, expired);
    case WriteEsr => SameStaysReported(s, s.(esr := {}));
    case EoiOp(expired) =>
      if s.isrv != 0 {
        EoiReports(EoiBegin(s), expired);
      }
    case InitOp => InitReports(s);
  }

  lemma EoiReports(s: State, expired: bool)
    requires Shape(s)
    ensures Reported(EoiEnd(s, expired))
  {
    var s1 := if s.isrv == s.lvt[TIMER].vector && expired then TriggerLvt(s, TIMER) else s;
    UpdateReports(s1.(isrv := Highest(s1.isr)));
  }

  lemma InitReports(s: State)
    requires Shape(s)
    ensures Reported(Init(s))
  {
    UpdateReports(Init(s));
    assert UpdateIrqs(Init(s)) == Init(s);
  }

  /** An operation keeps the line right if and only if it is not silent. */
  lemma ReportedIff(s: State, op: Op, stack: seq<nat>)
    requires Shape(s) && ValidOp(op) && Refines(s, stack) && Reported(s)
    ensures Reported(Apply(s, op)) <==> !Silent(s, op)
  {
    TopIsHighest(s.isr, stack);
    StepKeepsStack(s, stack, op);
    TopIsHighest(Apply(s, op).isr, StackAfter(stack, s, op));
    match op
    case WriteTpr(t) => TprReportsIff(s, t);
    case IntaOp => IntaReportsIff(s);
    case Lint(num) => TriggerReportsIff(s, num);
    case LegacyIntr => LegacyReportsIff(s);
    case ErrorOp(bit) => ErrorReportsIff(s, bit);
    case _ => OtherOpsReport(s, op);
  }

  ghost predicate NoneSilent(s0: State, ops: seq<Op>)
    requires Shape(s0) && forall i :: 0 <= i < |ops| ==> ValidOp(ops[i])
    decreases |ops|
  {
    ops == [] || (NoneSilent(s0, ops[..|ops| - 1]) && !Silent(Run(s0, ops[..|ops| - 1]), ops[|ops| - 1]))
  }

  /** Over all runs without such an operation the processor knows whether an interrupt is waiting. */
  lemma {:induction false} ReportedOverAllRuns(s0: State, ops: seq<Op>)
    requires Shape(s0) && (forall i :: 0 <= i < |ops| ==> ValidOp(ops[i])) && NoneSilent(s0, ops)
    ensures Reported(Run(s0, ops))
    decreases |ops|
  {
    if ops == [] {
      InitReports(s0);
    } else {
      var before := ops[..|ops| - 1];
      ReportedOverAllRuns(s0, before);
      StackOverAllRuns(s0, before);
      ReportedIff(Run(s0, before), ops[|ops| - 1], RunStack(s0, before));
    }
  }

  /** The processor lowers its task priority below a pending vector, and nothing happens. */
  lemma LoweredPriorityIsNotReported(s0: State, s1: State, s2: State, s3: State)
    requires Shape(s0) && s1 == Apply(Init(s0), WriteTpr(0x90)) && s2 == Apply(s1, Message(0x81, false, true))
    requires s3 == Apply(s2, WriteTpr(0))
    ensures Takeable(s3, 0x81) && !s3.line
  {
    NothingPendingAfterInit(s0);
    assert s2.irr == {0x81} && s2.isr == {} && s2.tpr == 0x90;
    UpdateReports(s1.(irr := {0x81}, tmr := s1.tmr - {0x81}));
    assert s1.irr + {0x81} == {0x81};
    assert forall i: nat :: i < 6 ==> !HasExtInt(s2, i);
    assert !AnyTakeable(s2);
  }

  lemma NothingPendingAfterInit(s0: State)
    requires Shape(s0)
    ensures var s := Init(s0);
            s.irr == {} && s.isr == {} && s.isrv == 0 && forall i: nat :: i < 6 ==> !HasExtInt(s, i)
  {
  }
}
