/**
 The interrupt core of the local APIC (model/lapic.cc) as state and transitions:
 acceptance into the IRR, LVT delivery, priorities, INTA and EOI.

 The main result is that the ISR together with the cached `_isrv` is a stack over all
 runs: INTA pushes the highest pending vector of a higher priority class, and EOI pops
 the vector that was accepted last.
 */
module LapicSpec {
  import opened Common

  // ---------------------------------------------------------------- state

  /** Delivery modes of an LVT entry or message, numbered as in the registers. */
  datatype Mode = Fixed | Lowest | Smi | Rrd | Nmi | InitMode | Sipi | ExtInt

  datatype Lvt = Lvt(vector: nat, mode: Mode, level: bool, masked: bool)

  const TIMER: nat := 0
  const PERF: nat := 2
  const LINT0: nat := 3
  const LINT1: nat := 4
  const ERROR: nat := 5

  /** The spurious vector register. */
  datatype Svr = Svr(spurious: nat, enabled: bool, suppressEoi: bool)

  /** `irr`, `isr`, `tmr` are the bits of `_vector`; `line` is the level sent upstream last. */
  datatype State = State(irr: set<nat>, isr: set<nat>, tmr: set<nat>, isrv: nat, tpr: nat,
                         svr: Svr, esr: set<nat>, lvt: seq<Lvt>, lvtds: seq<bool>, rirr: seq<bool>,
                         line: bool, events: seq<Mode>)

  ghost predicate Shape(s: State) {
    && |s.lvt| == 6 && |s.lvtds| == 6 && |s.rirr| == 6
    && (forall i :: 0 <= i < 6 ==> s.lvt[i].vector < 256)
    && s.esr <= {4, 5, 6, 7}
  }

  /** The priority class of a vector, `vector & 0xf0`. */
  function Class(v: nat): nat { v / 16 * 16 }

  predicate IsHighest(s: set<nat>, m: nat) {
    if s == {} then m == 0 else m in s && forall x :: x in s ==> x <= m
  }

  lemma {:induction false} HighestExists(s: set<nat>) returns (m: nat)
    ensures IsHighest(s, m)
    decreases |s|
  {
    if s == {} {
      return 0;
    }
    var x :| x in s;
    var rest := HighestExists(s - {x});
    m := if s - {x} == {} || x > rest then x else rest;
    assert forall y :: y in s ==> y == x || y in s - {x};
  }

  /** `get_highest_bit`: the greatest element, 0 for the empty set. */
  ghost function Highest(s: set<nat>): (m: nat)
    ensures IsHighest(s, m)
  {
    assert exists m :: IsHighest(s, m) by {
      var m := HighestExists(s);
    }
    var m :| IsHighest(s, m);
    m
  }

  lemma HighestUnique(s: set<nat>, m: nat)
    requires IsHighest(s, m)
    ensures m == Highest(s)
  {
  }

  // ---------------------------------------------------------------- priorities

  /** `processor_prio`. */
  function Ppr(s: State): nat {
    if s.tpr >= Class(s.isrv) then s.tpr else Class(s.isrv)
  }

  datatype Pending = Nothing | ExtIntFrom(lvt: nat) | Vector(v: nat)

  predicate HasExtInt(s: State, i: nat)
    requires i < |s.lvt| && i < |s.lvtds|
  {
    s.lvtds[i] && s.lvt[i].mode == ExtInt
  }

  /** The first LVT entry from i on with a pending EXTINT. */
  function FirstExtInt(s: State, i: nat): nat
    requires |s.lvt| == 6 && |s.lvtds| == 6 && i <= 6
    decreases 6 - i
  {
    if i == 6 || HasExtInt(s, i) then i else FirstExtInt(s, i + 1)
  }

  /** `prioritize_irq`. */
  ghost function Prioritize(s: State): Pending
    requires Shape(s)
  {
    var e := FirstExtInt(s, 0);
    var v := Highest(s.irr);
    if e < 6 then ExtIntFrom(e)
    else if v != 0 && Class(v) > Ppr(s) then Vector(v)
    else Nothing
  }

  /** An EXTINT is pending in the LVT. */
  ghost predicate ExtIntPending(s: State)
    requires Shape(s)
  {
    exists i: nat :: i < 6 && HasExtInt(s, i)
  }

  /** The highest pending vector, in a priority class above the task priority and above all vectors in service. */
  ghost predicate Takeable(s: State, v: nat) {
    && v in s.irr && (forall w :: w in s.irr ==> w <= v)
    && v / 16 * 16 > s.tpr && (forall w :: w in s.isr ==> v / 16 > w / 16)
  }

  ghost predicate AnyTakeable(s: State) { exists v :: Takeable(s, v) }

  /** There is something for the processor to take. */
  ghost predicate Waiting(s: State)
    requires Shape(s)
  {
    ExtIntPending(s) || AnyTakeable(s)
  }

  lemma {:induction false} FirstExtIntFinds(s: State, i: nat)
    requires |s.lvt| == 6 && |s.lvtds| == 6 && i <= 6
    ensures var e := FirstExtInt(s, i);
            i <= e <= 6 && (e < 6 ==> HasExtInt(s, e)) && forall k: nat :: i <= k < e ==> !HasExtInt(s, k)
    decreases 6 - i
  {
    if i < 6 && !HasExtInt(s, i) {
      FirstExtIntFinds(s, i + 1);
    }
  }

  /** A vector is chosen iff it can be taken and no EXTINT is pending. */
  lemma TakenIff(s: State, v: nat)
    requires Shape(s) && IsHighest(s.isr, s.isrv)
    ensures Prioritize(s) == Vector(v) <==> !ExtIntPending(s) && Takeable(s, v)
  {
    FirstExtIntFinds(s, 0);
    HighestIsTaken(s, v);
  }

  lemma HighestIsTaken(s: State, v: nat)
    requires IsHighest(s.isr, s.isrv)
    ensures v == Highest(s.irr) && v != 0 && Class(v) > Ppr(s) <==> Takeable(s, v)
  {
    if Takeable(s, v) {
      HighestUnique(s.irr, v);
      assert s.isr != {} ==> s.isrv in s.isr;
    }
  }

  /** An EXTINT is chosen iff it is the first one that is pending. */
  lemma ExtIntIff(s: State, i: nat)
    requires Shape(s)
    ensures Prioritize(s) == ExtIntFrom(i) <==> i < 6 && HasExtInt(s, i) && forall k: nat :: k < i ==> !HasExtInt(s, k)
  {
    FirstExtIntFinds(s, 0);
  }

  /** The output line is raised iff something is waiting. */
  lemma RaisedIffWaiting(s: State)
    requires Shape(s) && IsHighest(s.isr, s.isrv)
    ensures UpdateIrqs(s).line <==> Waiting(s)
  {
    FirstExtIntFinds(s, 0);
    forall v: nat
      ensures v == Highest(s.irr) && v != 0 && Class(v) > Ppr(s) <==> Takeable(s, v)
    {
      HighestIsTaken(s, v);
    }
  }

  /** The answer to an INTA: nothing for an EXTINT, the vector that can be taken, or the spurious vector. */
  ghost predicate Answers(s: State, answer: Option<nat>)
    requires Shape(s)
  {
    && (answer == None <==> ExtIntPending(s))
    && (answer.Some? && AnyTakeable(s) ==> Takeable(s, answer.value))
    && (answer.Some? && !AnyTakeable(s) ==> answer.value == s.svr.spurious)
  }

  lemma IntaAnswers(s: State)
    requires Shape(s) && IsHighest(s.isr, s.isrv)
    ensures Answers(s, IntaVector(s))
  {
    FirstExtIntFinds(s, 0);
    forall v: nat
      ensures v == Highest(s.irr) && v != 0 && Class(v) > Ppr(s) <==> Takeable(s, v)
    {
      HighestIsTaken(s, v);
    }
  }

  // ---------------------------------------------------------------- transitions

  /** `update_irqs`. */
  ghost function UpdateIrqs(s: State): State
    requires Shape(s)
  {
    s.(line := Prioritize(s) != Nothing)
  }

  /** Sets or clears an element. */
  function SetBit(s: set<nat>, v: nat, value: bool): set<nat> {
    if value then s + {v} else s - {v}
  }

  /** The state after `trigger_lvt` has set the delivery status and masked a performance interrupt. */
  ghost function Latched(s: State, num: nat, level: bool): (r: State)
    requires Shape(s) && num < 6
    ensures Shape(r) && KeepsService(s, r) && r.esr == s.esr
  {
    var s1 := if level then s.(lvtds := s.lvtds[num := true]) else s;
    if !s.lvt[num].masked && num == PERF then s1.(lvt := s1.lvt[num := s1.lvt[num].(masked := true)]) else s1
  }

  /** Errors that have not been reported yet. */
  ghost function ErrorsLeft(s: State): nat { |{4, 5, 6, 7} - s.esr| }

  /**
   `accept_vector`, `set_error` and `trigger_lvt` call each other: a reserved vector is an
   error, an error triggers the ERROR entry of the LVT, and that entry may hold a reserved
   vector itself. An error bit that is already set ends the recursion.
   */
  ghost function AcceptVector(s: State, vector: nat, level: bool, value: bool): (r: State)
    requires Shape(s) && vector < 256
    ensures Shape(r) && KeepsService(s, r)
    decreases ErrorsLeft(s), 1
  {
    if vector < 16 then UpdateIrqs(SetError(s, 6))
    else UpdateIrqs(s.(irr := SetBit(s.irr, vector, !level || value), tmr := SetBit(s.tmr, vector, level)))
  }

  ghost function SetError(s: State, bit: nat): (r: State)
    requires Shape(s) && bit in {4, 5, 6, 7}
    ensures Shape(r) && KeepsService(s, r)
    decreases ErrorsLeft(s), 0
  {
    if bit in s.esr then s
    else
      SmallerSet({4, 5, 6, 7} - (s.esr + {bit}), {4, 5, 6, 7} - s.esr, bit);
      TriggerLvt(s.(esr := s.esr + {bit}), ERROR)
  }

  /** A fixed interrupt from the LVT: a level-triggered one sets the remote IRR of the entry. */
  ghost function FixedFromLvt(s: State, num: nat, vector: nat, level: bool): (r: State)
    requires Shape(s) && num < 6 && vector < 256
    ensures Shape(r) && KeepsService(s, r)
    decreases ErrorsLeft(s), 2
  {
    var s1 := AcceptVector(s.(rirr := s.rirr[num := level]), vector, level, true);
    s1.(lvtds := s1.lvtds[num := false])
  }

  ghost function TriggerLvt(s: State, num: nat): (r: State)
    requires Shape(s) && num < 6
    ensures Shape(r) && KeepsService(s, r)
    decreases ErrorsLeft(s), 3
  {
    var l := s.lvt[num];
    var level := (l.level && l.mode == Fixed) || l.mode == ExtInt;
    if s.rirr[num] then s
    else
      var s1 := Latched(s, num, level);
      if l.masked then s1
      else if l.mode == Fixed then FixedFromLvt(s1, num, l.vector, level)
      else if l.mode == ExtInt then UpdateIrqs(s1)
      else if l.mode == Smi || l.mode == Nmi || l.mode == InitMode then s1.(events := s1.events + [l.mode])
      else s1
  }

  lemma SmallerSet(a: set<nat>, b: set<nat>, x: nat)
    requires a <= b && x in b && x !in a
    ensures |a| < |b|
  {
    assert |a + (b - a)| == |a| + |b - a| && a + (b - a) == b && x in b - a;
  }

  /** What acceptance does not touch: the interrupts in service and the priority threshold. */
  ghost predicate KeepsService(s: State, r: State) {
    && r.isr == s.isr && r.isrv == s.isrv && r.tpr == s.tpr
    && r.svr == s.svr
    && (forall v :: v in r.irr && v !in s.irr ==> 16 <= v < 256)
  }

  // ---------------------------------------------------------------- vectors that are left alone

  /** The pending bit and the trigger mode of v, and the vectors programmed into the LVT, are the same. */
  ghost predicate SameVector(s: State, r: State, v: nat) {
    && (v in r.irr <==> v in s.irr) && (v in r.tmr <==> v in s.tmr)
    && (NotInLvt(s, v) ==> NotInLvt(r, v))
  }

  ghost predicate NotInLvt(s: State, v: nat) {
    forall i :: 0 <= i < |s.lvt| ==> s.lvt[i].vector != v
  }

  /** Accepting one vector, errors included, changes nothing for a vector that the LVT does not use. */
  lemma {:induction false} AcceptLeavesAlone(s: State, vector: nat, level: bool, value: bool, v: nat)
    requires Shape(s) && vector < 256 && v != vector && NotInLvt(s, v)
    ensures SameVector(s, AcceptVector(s, vector, level, value), v)
    decreases ErrorsLeft(s), 1
  {
    if vector < 16 {
      ErrorLeavesAlone(s, 6, v);
    }
  }

  lemma {:induction false} ErrorLeavesAlone(s: State, bit: nat, v: nat)
    requires Shape(s) && bit in {4, 5, 6, 7} && NotInLvt(s, v)
    ensures SameVector(s, SetError(s, bit), v)
    decreases ErrorsLeft(s), 0
  {
    if bit !in s.esr {
      SmallerSet({4, 5, 6, 7} - (s.esr + {bit}), {4, 5, 6, 7} - s.esr, bit);
      TriggerLeavesAlone(s.(esr := s.esr + {bit}), ERROR, v);
    }
  }

  lemma {:induction false} TriggerLeavesAlone(s: State, num: nat, v: nat)
    requires Shape(s) && num < 6 && NotInLvt(s, v)
    ensures SameVector(s, TriggerLvt(s, num), v)
    decreases ErrorsLeft(s), 3
  {
    var l := s.lvt[num];
    var level := (l.level && l.mode == Fixed) || l.mode == ExtInt;
    var s1 := Latched(s, num, level);
    assert SameVector(s, s1, v);
    if !s.rirr[num] && !l.masked && l.mode == Fixed {
      AcceptLeavesAlone(s1.(rirr := s1.rirr[num := level]), l.vector, level, true, v);
    }
  }

  // ---------------------------------------------------------------- the processor side

  /** INTA: an EXTINT is left to the PIC, a pending vector is taken into service. */
  ghost function Inta(s: State): (r: State)
    requires Shape(s)
    ensures Shape(r)
  {
    match Prioritize(s)
    case ExtIntFrom(i) => s.(lvtds := s.lvtds[i := false])
    case Vector(v) => UpdateIrqs(s.(irr := s.irr - {v}, isr := s.isr + {v}, isrv := v))
    case Nothing => UpdateIrqs(s)
  }

  /** The vector that an INTA delivers; None if the PIC has to deliver it. */
  ghost function IntaVector(s: State): Option<nat>
    requires Shape(s)
  {
    match Prioritize(s)
    case ExtIntFrom(i) => None
    case Vector(v) => Some(v)
    case Nothing => Some(s.svr.spurious)
  }

  /** First half of an EOI: clears the ISR bit and the remote IRR of the local interrupt pins. */
  ghost function EoiBegin(s: State): (r: State)
    requires Shape(s)
    ensures Shape(r)
  {
    var v := s.isrv;
    var s1 := s.(isr := s.isr - {v});
    if v !in s.tmr then s1
    else s1.(rirr := s1.rirr[LINT0 := s1.rirr[LINT0] && v != s.lvt[LINT0].vector]
                     [LINT1 := s1.rirr[LINT1] && v != s.lvt[LINT1].vector])
  }

  /** The vector that an EOI broadcasts to the I/O APICs, if any. */
  ghost function EoiBroadcast(s: State): Option<nat> {
    if s.isrv != 0 && s.isrv in s.tmr && !s.svr.suppressEoi then Some(s.isrv) else None
  }

  /** Second half of an EOI: rearms the timer and finds the next interrupt in service. */
  ghost function EoiEnd(s: State, timerExpired: bool): (r: State)
    requires Shape(s)
    ensures Shape(r)
  {
    var s1 := if s.isrv == s.lvt[TIMER].vector && timerExpired then TriggerLvt(s, TIMER) else s;
    UpdateIrqs(s1.(isrv := Highest(s1.isr)))
  }

  /** The EOI register; nothing happens without an interrupt in service. */
  ghost function Eoi(s: State, timerExpired: bool): (r: State)
    requires Shape(s)
    ensures Shape(r)
  {
    if s.isrv == 0 then s else EoiEnd(EoiBegin(s), timerExpired)
  }

  const MASKED: Lvt := Lvt(0, Fixed, false, true)

  /** `init`: keeps the level of LINT0. */
  ghost function Init(s: State): (r: State)
    requires Shape(s)
    ensures Shape(r)
  {
    UpdateIrqs(State({}, {}, {}, 0, 0, Svr(0xff, false, false), {}, seq(6, _ => MASKED),
                     [false, false, false, s.lvtds[LINT0], false, false], seq(6, _ => false), s.line, s.events))
  }

  /** A write to an LVT register; entries stay masked while the APIC is disabled by software. */
  ghost function WriteLvt(s: State, num: nat, l: Lvt, timerExpired: bool): (r: State)
    requires Shape(s) && num < 6 && l.vector < 256
    ensures Shape(r) && KeepsService(s, r)
  {
    var s1 := s.(lvt := s.lvt[num := l.(masked := l.masked || !s.svr.enabled)]);
    var s2 := TriggerIf(s1, num, s1.lvtds[num]);
    UpdateIrqs(TriggerIf(s2, TIMER, num == TIMER && timerExpired))
  }

  ghost function TriggerIf(s: State, num: nat, condition: bool): (r: State)
    requires Shape(s) && num < 6
    ensures Shape(r) && KeepsService(s, r)
  {
    if condition then TriggerLvt(s, num) else s
  }

  /** Disabling the APIC by software masks all LVT entries. */
  ghost function MaskFrom(s: State, i: nat, timerExpired: bool): (r: State)
    requires Shape(s) && i <= 6
    ensures Shape(r) && KeepsService(s, r)
    decreases 6 - i
  {
    if i == 6 then s else MaskFrom(WriteLvt(s, i, s.lvt[i], timerExpired), i + 1, timerExpired)
  }

  // ---------------------------------------------------------------- runs

  datatype Op =
    | Message(vector: nat, level: bool, assert_: bool)
    | Lint(num: nat)
    | LegacyIntr
    | LegacyDeassert
    | WriteTpr(tpr: nat)
    | WriteLvtOp(num: nat, lvt: Lvt, expired: bool)
    | WriteSvr(spurious: nat, enable: bool, suppress: bool, expired: bool)
    | WriteEsr
    | ErrorOp(bit: nat)  // an IPI that cannot be sent, or an access to a register that does not exist
    | IntaOp
    | EoiOp(expired: bool)
    | InitOp

  predicate ValidOp(op: Op) {
    match op
    case Message(v, _, _) => v < 256
    case Lint(num) => num < 6
    case WriteTpr(t) => t < 256
    case WriteLvtOp(num, l, _) => num < 6 && l.vector < 256
    case ErrorOp(bit) => bit in {4, 5, 7}
    case _ => true
  }

  ghost function Apply(s: State, op: Op): (r: State)
    requires Shape(s) && ValidOp(op)
    ensures Shape(r)
  {
    match op
    case Message(v, level, a) => AcceptVector(s, v, level, a)
    case Lint(num) => TriggerLvt(s, num)
    case LegacyIntr => TriggerLvt(s.(lvtds := s.lvtds[LINT0 := true]), LINT0)
    case LegacyDeassert => UpdateIrqs(s.(lvtds := s.lvtds[LINT0 := false]))
    case WriteTpr(t) => s.(tpr := t)
    case WriteLvtOp(num, l, expired) => WriteLvt(s, num, l, expired)
    case WriteSvr(v, enable, suppress, expired) =>
      var s1 := UpdateIrqs(s.(svr := Svr(v, enable, suppress)));
      if enable then s1 else MaskFrom(s1, 0, expired)
    case WriteEsr => s.(esr := {})
    case ErrorOp(bit) => SetError(s, bit)
    case IntaOp => Inta(s)
    case EoiOp(expired) => Eoi(s, expired)
    case InitOp => Init(s)
  }

  /** The state after a sequence of operations on an APIC that has just been initialised. */
  ghost function Run(s0: State, ops: seq<Op>): (r: State)
    requires Shape(s0) && forall i :: 0 <= i < |ops| ==> ValidOp(ops[i])
    ensures Shape(r)
    decreases |ops|
  {
    if ops == [] then Init(s0) else Apply(Run(s0, ops[..|ops| - 1]), ops[|ops| - 1])
  }

  // ---------------------------------------------------------------- the stack of interrupts in service

  /** What an operation does to the stack of interrupts in service. */
  ghost function StackAfter(stack: seq<nat>, s: State, op: Op): seq<nat>
    requires Shape(s)
  {
    match op
    case IntaOp => (match Prioritize(s) case Vector(v) => stack + [v] case _ => stack)
    case EoiOp(_) => if stack == [] then [] else stack[..|stack| - 1]
    case InitOp => []
    case _ => stack
  }

  ghost function RunStack(s0: State, ops: seq<Op>): seq<nat>
    requires Shape(s0) && forall i :: 0 <= i < |ops| ==> ValidOp(ops[i])
    decreases |ops|
  {
    if ops == [] then []
    else StackAfter(RunStack(s0, ops[..|ops| - 1]), Run(s0, ops[..|ops| - 1]), ops[|ops| - 1])
  }

  function Top(stack: seq<nat>): nat {
    if stack == [] then 0 else stack[|stack| - 1]
  }

  /** The vectors of the stack lie in strictly increasing priority classes. */
  ghost predicate Nested(stack: seq<nat>) {
    && (forall i :: 0 <= i < |stack| ==> 16 <= stack[i] < 256)
    && (forall i, j :: 0 <= i < j < |stack| ==> Class(stack[i]) < Class(stack[j]))
  }

  ghost predicate Refines(s: State, stack: seq<nat>) {
    && Nested(stack)
    && (forall v :: v in s.irr ==> 16 <= v < 256)
    && (forall v :: v in s.isr <==> v in stack)
    && s.isrv == Top(stack)
  }

  lemma {:induction false} ClassGrows(stack: seq<nat>, i: nat)
    requires Nested(stack) && i < |stack|
    ensures Class(stack[i]) >= 16 * (i + 1)
    decreases i
  {
    if i > 0 {
      ClassGrows(stack, i - 1);
      assert Class(stack[i - 1]) < Class(stack[i]);
    }
  }

  /** There are 15 priority classes above the reserved one, so at most 15 interrupts nest. */
  lemma NestingBound(stack: seq<nat>)
    requires Nested(stack)
    ensures |stack| <= 15
  {
    if |stack| > 0 {
      ClassGrows(stack, |stack| - 1);
    }
  }

  /** The top of the stack is the highest interrupt in service. */
  lemma TopIsHighest(isr: set<nat>, stack: seq<nat>)
    requires Nested(stack) && forall v :: v in isr <==> v in stack
    ensures Highest(isr) == Top(stack)
  {
    if stack != [] {
      assert Top(stack) in isr;
      forall v | v in isr
        ensures v <= Top(stack)
      {
        var i :| 0 <= i < |stack| && stack[i] == v;
        if i < |stack| - 1 {
          assert Class(stack[i]) < Class(stack[|stack| - 1]);
        }
      }
    } else {
      assert isr == {};
    }
    HighestUnique(isr, Top(stack));
  }

  lemma BelowTop(stack: seq<nat>, v: nat)
    requires Nested(stack) && v in stack
    ensures Class(v) <= Class(Top(stack))
    ensures v != Top(stack) ==> Class(v) < Class(Top(stack))
  {
    var i :| 0 <= i < |stack| && stack[i] == v;
    if i < |stack| - 1 {
      assert Class(stack[i]) < Class(stack[|stack| - 1]);
    }
  }

  lemma PushNested(stack: seq<nat>, v: nat)
    requires Nested(stack) && 16 <= v < 256 && (stack != [] ==> Class(v) > Class(Top(stack)))
    ensures Nested(stack + [v])
  {
    var next := stack + [v];
    forall i, j | 0 <= i < j < |next|
      ensures Class(next[i]) < Class(next[j])
    {
      if j == |stack| {
        assert stack[i] in stack;
        BelowTop(stack, stack[i]);
      }
    }
  }

  lemma PopNested(stack: seq<nat>)
    requires Nested(stack) && stack != []
    ensures Nested(stack[..|stack| - 1])
    ensures forall v :: v in stack[..|stack| - 1] <==> v in stack && v != Top(stack)
  {
    var rest := stack[..|stack| - 1];
    assert stack == rest + [Top(stack)];
    forall v | v in rest
      ensures v != Top(stack)
    {
      var i :| 0 <= i < |rest| && rest[i] == v;
      assert Class(stack[i]) < Class(stack[|stack| - 1]);
    }
  }

  /** The vector that INTA takes is the highest pending one, of a class above TPR and all in service. */
  lemma PendingVector(s: State, stack: seq<nat>)
    requires Shape(s) && Refines(s, stack) && Prioritize(s).Vector?
    ensures var v := Prioritize(s).v;
            && v in s.irr && (forall w :: w in s.irr ==> w <= v)
            && Class(v) > s.tpr && (forall w :: w in s.isr ==> Class(v) > Class(w))
            && (stack != [] ==> Class(v) > Class(Top(stack)))
  {
    var v := Prioritize(s).v;
    assert IsHighest(s.irr, v);
    forall w | w in s.isr
      ensures Class(v) > Class(w)
    {
      BelowTop(stack, w);
    }
  }

  /** INTA pushes a vector, or leaves the stack alone if there is none to take. */
  lemma IntaPushes(s: State, stack: seq<nat>)
    requires Shape(s) && Refines(s, stack)
    ensures Refines(Inta(s), StackAfter(stack, s, IntaOp))
  {
    if Prioritize(s).Vector? {
      PendingVector(s, stack);
      PushNested(stack, Prioritize(s).v);
    }
  }

  /** EOI retires the vector that was taken into service last. */
  lemma EoiPops(s: State, stack: seq<nat>, expired: bool)
    requires Shape(s) && Refines(s, stack)
    ensures Refines(Eoi(s, expired), StackAfter(stack, s, EoiOp(expired)))
  {
    if stack != [] {
      PopNested(stack);
      var s1 := EoiBegin(s);
      EoiBeginFacts(s);
      EoiEndFacts(s1, expired);
      TopIsHighest(s1.isr, stack[..|stack| - 1]);
    }
  }

  lemma EoiBeginFacts(s: State)
    requires Shape(s)
    ensures var r := EoiBegin(s);
            r.isr == s.isr - {s.isrv} && r.irr == s.irr && r.tmr == s.tmr && r.isrv == s.isrv
  {
  }

  lemma EoiEndFacts(s: State, expired: bool)
    requires Shape(s)
    ensures var r := EoiEnd(s, expired);
            && r.isr == s.isr && r.isrv == Highest(s.isr)
            && forall v :: v in r.irr && v !in s.irr ==> 16 <= v < 256
  {
  }

  /** Every operation keeps the ISR and `_isrv` a stack. */
  lemma StepKeepsStack(s: State, stack: seq<nat>, op: Op)
    requires Shape(s) && ValidOp(op) && Refines(s, stack)
    ensures Refines(Apply(s, op), StackAfter(stack, s, op))
  {
    if op == IntaOp {
      IntaPushes(s, stack);
    } else if op.EoiOp? {
      EoiPops(s, stack, op.expired);
    }
  }

  /** Over all runs the interrupts in service form a stack of at most 15 nested priority classes. */
  lemma {:induction false} StackOverAllRuns(s0: State, ops: seq<Op>)
    requires Shape(s0) && forall i :: 0 <= i < |ops| ==> ValidOp(ops[i])
    ensures Refines(Run(s0, ops), RunStack(s0, ops))
    ensures |RunStack(s0, ops)| <= 15
    decreases |ops|
  {
    if ops != [] {
      var init := ops[..|ops| - 1];
      StackOverAllRuns(s0, init);
      StepKeepsStack(Run(s0, init), RunStack(s0, init), ops[|ops| - 1]);
    }
    NestingBound(RunStack(s0, ops));
  }
}
