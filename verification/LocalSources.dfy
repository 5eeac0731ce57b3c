/**
 The local interrupt sources of model/lapic.cc: what a timer, a pin or an error makes of its LVT entry, open,
 masked, blocked by its remote IRR or disabled, and how it is delivered later.
 */
module LocalSources {
  import opened Common
  import opened LapicSpec

  /** The entry delivers a vector that is not reserved. */
  predicate DeliversVector(l: Lvt) { l.mode == Fixed && 16 <= l.vector < 256 }

  /** Exactly v becomes pending, with its trigger mode; all other vectors stay as they are. */
  ghost predicate MakesPending(s: State, r: State, v: nat, level: bool) {
    && v in r.irr && (v in r.tmr <==> level)
    && forall w :: w != v ==> (w in r.irr <==> w in s.irr) && (w in r.tmr <==> w in s.tmr)
  }

  /** An open source makes its vector pending; a level one is blocked until its EOI. */
  lemma OpenSourceDelivers(s: State, num: nat)
    requires Shape(s) && num < 6 && !s.rirr[num] && !s.lvt[num].masked && DeliversVector(s.lvt[num])
    ensures var l, r := s.lvt[num], TriggerLvt(s, num);
            && MakesPending(s, r, l.vector, l.level) && r.events == s.events && r.esr == s.esr
            && r.rirr == s.rirr[num := l.level] && r.lvtds == s.lvtds[num := false]
            && r.lvt == s.lvt[num := l.(masked := num == PERF)]
  {
    var l := s.lvt[num];
    var s1 := Latched(s, num, l.level);
    OpenFixed(s, num);
    FixedSource(s1, num, l.vector, l.level);
    LatchedFixed(s, num, l.level);
  }

  lemma OpenFixed(s: State, num: nat)
    requires Shape(s) && num < 6 && !s.rirr[num] && !s.lvt[num].masked && s.lvt[num].mode == Fixed
    ensures TriggerLvt(s, num)
            == FixedFromLvt(Latched(s, num, s.lvt[num].level), num, s.lvt[num].vector, s.lvt[num].level)
  {
  }

  /** Latching touches the delivery status and the mask of the entry only. */
  lemma LatchedFixed(s: State, num: nat, level: bool)
    requires Shape(s) && num < 6 && !s.lvt[num].masked
    ensures var r := Latched(s, num, level);
            && r == s.(lvtds := r.lvtds, lvt := s.lvt[num := s.lvt[num].(masked := num == PERF)])
            && r.lvtds == s.lvtds[num := s.lvtds[num] || level]
  {
    assert s.lvt[num := s.lvt[num].(masked := false)] == s.lvt;
  }

  lemma FixedSource(s: State, num: nat, v: nat, level: bool)
    requires Shape(s) && num < 6 && 16 <= v < 256
    ensures var r := FixedFromLvt(s, num, v, level);
            && MakesPending(s, r, v, level)
            && r == s.(irr := r.irr, tmr := r.tmr, line := r.line, rirr := s.rirr[num := level],
                       lvtds := s.lvtds[num := false])
  {
    AcceptedVector(s.(rirr := s.rirr[num := level]), v, level);
  }

  lemma AcceptedVector(s: State, v: nat, level: bool)
    requires Shape(s) && 16 <= v < 256
    ensures var r := AcceptVector(s, v, level, true);
            MakesPending(s, r, v, level) && r == s.(irr := r.irr, tmr := r.tmr, line := r.line)
  {
  }

  /** The source of an event sends it to the processor; modes that are not allowed are dropped. */
  lemma EventSourceSends(s: State, num: nat)
    requires Shape(s) && num < 6 && !s.rirr[num] && !s.lvt[num].masked
    requires s.lvt[num].mode != Fixed && s.lvt[num].mode != ExtInt
    ensures var mode, r := s.lvt[num].mode, TriggerLvt(s, num);
            && r.events == s.events + (if mode in {Smi, Nmi, InitMode} then [mode] else [])
            && r.irr == s.irr && r.lvtds == s.lvtds && r.rirr == s.rirr
  {
  }

  /** A blocked source does nothing at all. */
  lemma BlockedSourceWaits(s: State, num: nat)
    requires Shape(s) && num < 6 && s.rirr[num]
    ensures TriggerLvt(s, num) == s
  {
  }

  /** A masked source delivers nothing now. */
  lemma MaskedSourceWaits(s: State, num: nat)
    requires Shape(s) && num < 6 && s.lvt[num].masked
    ensures var r := TriggerLvt(s, num);
            r.irr == s.irr && r.tmr == s.tmr && r.events == s.events && r.lvt == s.lvt && r.rirr == s.rirr
            && r.line == s.line && r.esr == s.esr
  {
  }

  /** The entry is written, with a level entry that delivers a vector while the APIC is enabled. */
  ghost predicate Opened(s: State, l: Lvt) { s.svr.enabled && !l.masked && l.level && DeliversVector(l) }

  /** A level source that was triggered while it was masked is delivered when it is opened. */
  lemma LatchedSourceDelivers(s: State, num: nat, l: Lvt, expired: bool)
    requires Shape(s) && num < 6 && s.lvt[num].masked && s.lvt[num].level && s.lvt[num].mode == Fixed && !s.rirr[num]
    requires Opened(s, l)
    ensures MakesPending(s, WriteLvt(TriggerLvt(s, num), num, l, expired), l.vector, true)
  {
    var t := TriggerLvt(s, num);
    OpenedSource(t, num, l, expired);
  }

  lemma OpenedSource(t: State, num: nat, l: Lvt, expired: bool)
    requires Shape(t) && num < 6 && t.lvtds[num] && !t.rirr[num] && Opened(t, l)
    ensures MakesPending(t, WriteLvt(t, num, l, expired), l.vector, true)
  {
    var t1 := t.(lvt := t.lvt[num := l.(masked := l.masked || !t.svr.enabled)]);
    OpenSourceDelivers(t1, num);
    var t2 := TriggerIf(t1, num, t1.lvtds[num]);
    BlockedSourceWaits(t2, num);
  }

  /** A source that was not triggered is not delivered by opening it. */
  lemma IdleSourceStaysIdle(s: State, num: nat, l: Lvt)
    requires Shape(s) && num < 6 && !s.lvtds[num] && l.vector < 256
    ensures var r := WriteLvt(s, num, l, false); r.irr == s.irr && r.events == s.events
  {
  }

  /** The legacy interrupt that goes away while LINT0 is masked is not delivered by opening LINT0. */
  lemma DeassertedLintStaysIdle(s: State, l: Lvt)
    requires Shape(s) && s.lvt[LINT0].masked && l.vector < 256
    ensures WriteLvt(Apply(Apply(s, LegacyIntr), LegacyDeassert), LINT0, l, false).irr == s.irr
  {
    var s1 := Apply(s, LegacyIntr);
    assert s1.irr == s.irr;
    IdleSourceStaysIdle(Apply(s1, LegacyDeassert), LINT0, l);
  }

  /** It is delivered if it is still there, whatever the trigger mode of the entry says. */
  lemma LegacyLintDelivers(s: State, l: Lvt)
    requires Shape(s) && s.lvt[LINT0].masked && !s.rirr[LINT0] && Opened(s, l)
    ensures MakesPending(s, WriteLvt(Apply(s, LegacyIntr), LINT0, l, false), l.vector, true)
  {
    OpenedSource(Apply(s, LegacyIntr), LINT0, l, false);
  }

  /** The EOI of a level interrupt unblocks the pins that use its vector, and nothing else does. */
  lemma EoiUnblocks(s: State, num: nat)
    requires Shape(s) && num < 6
    ensures var l := s.lvt[num];
            EoiBegin(s).rirr[num] <==>
              s.rirr[num] && !((num == LINT0 || num == LINT1) && s.isrv in s.tmr && s.isrv == l.vector)
  {
  }

  /** A pin can be delivered again after that. */
  lemma LintDeliversAgain(s: State, num: nat)
    requires Shape(s) && (num == LINT0 || num == LINT1) && !s.lvt[num].masked && DeliversVector(s.lvt[num])
    requires s.isrv == s.lvt[num].vector && s.isrv in s.tmr
    ensures s.lvt[num].vector in TriggerLvt(EoiBegin(s), num).irr
  {
    EoiUnblocks(s, num);
    OpenSourceDelivers(EoiBegin(s), num);
  }

  /** The EOI of the timer interrupt delivers it again if the timer has expired since. */
  lemma ExpiredTimerIsDelivered(s: State)
    requires Shape(s) && !s.rirr[TIMER] && !s.lvt[TIMER].masked && DeliversVector(s.lvt[TIMER])
    requires s.isrv == s.lvt[TIMER].vector
    ensures s.isrv in Eoi(s, true).irr
    ensures Eoi(s, false).irr == s.irr
  {
    EoiBeginFacts(s);
    OpenSourceDelivers(EoiBegin(s), TIMER);
  }

  /** An error is recorded, and delivered once until the error register is written. */
  lemma ErrorIsDelivered(s: State, bit: nat)
    requires Shape(s) && bit in {4, 5, 6, 7} && !s.rirr[ERROR] && !s.lvt[ERROR].masked && DeliversVector(s.lvt[ERROR])
    ensures bit in s.esr ==> SetError(s, bit) == s
    ensures bit !in s.esr ==> var r := SetError(s, bit);
                              && r.esr == s.esr + {bit} && SetError(r, bit) == r
                              && MakesPending(s, r, s.lvt[ERROR].vector, s.lvt[ERROR].level)
  {
    if bit !in s.esr {
      OpenSourceDelivers(s.(esr := s.esr + {bit}), ERROR);
    }
  }

  /** After a write of the error register the same error is delivered again. */
  lemma ErrorIsDeliveredAgain(s: State, bit: nat)
    requires Shape(s) && bit in {4, 5, 6, 7} && !s.rirr[ERROR] && !s.lvt[ERROR].masked && DeliversVector(s.lvt[ERROR])
    ensures s.lvt[ERROR].vector in SetError(Apply(s, WriteEsr), bit).irr
  {
    ErrorIsDelivered(Apply(s, WriteEsr), bit);
  }

  /** INIT clears all interrupts, masks all sources and disables the APIC, but keeps the level of LINT0. */
  lemma InitKeepsLint0(s: State, l: Lvt, svr: Svr)
    requires Shape(s) && !l.masked && l.level && DeliversVector(l) && svr.enabled
    ensures var r := Init(s);
            && r.irr == {} && r.isr == {} && r.tmr == {} && r.isrv == 0 && r.tpr == 0 && r.esr == {}
            && r.svr == Svr(0xff, false, false) && AllMasked(r, 6) && r.events == s.events
            && forall i: nat :: i < 6 ==> !r.rirr[i] && (r.lvtds[i] <==> i == 3 && s.lvtds[3])
    ensures var t := WriteLvt(Init(s).(svr := svr), LINT0, l, false);
            l.vector in t.irr <==> s.lvtds[LINT0]
  {
    var r := Init(s).(svr := svr);
    if s.lvtds[LINT0] {
      OpenedSource(r, LINT0, l, false);
    } else {
      IdleSourceStaysIdle(r, LINT0, l);
    }
  }

  lemma ReservedVectorIsError(s: State, vector: nat, level: bool, value: bool)
    requires Shape(s) && vector < 16 && s.lvt[ERROR].masked
    ensures var r := AcceptVector(s, vector, level, value);
            r.irr == s.irr && r.tmr == s.tmr && r.esr == s.esr + {6}
  {
    var s1 := s.(esr := s.esr + {6});
    MaskedSourceWaits(s1, ERROR);
    assert 6 !in s.esr ==> SetError(s, 6) == TriggerLvt(s1, ERROR);
    assert 6 in s.esr ==> SetError(s, 6) == s;
  }

  // ---------------------------------------------------------------- disabling the APIC

  ghost predicate AllMasked(s: State, n: nat)
    requires Shape(s) && n <= 6
  {
    forall i: nat :: i < n ==> s.lvt[i].masked
  }

  lemma {:induction false} AcceptKeepsMasks(s: State, vector: nat, level: bool, value: bool, i: nat)
    requires Shape(s) && vector < 256 && i < 6 && s.lvt[i].masked
    ensures AcceptVector(s, vector, level, value).lvt[i].masked
    decreases ErrorsLeft(s), 1
  {
    if vector < 16 && 6 !in s.esr {
      SmallerSet({4, 5, 6, 7} - (s.esr + {6}), {4, 5, 6, 7} - s.esr, 6);
      TriggerKeepsMasks(s.(esr := s.esr + {6}), ERROR, i);
    }
  }

  lemma {:induction false} TriggerKeepsMasks(s: State, num: nat, i: nat)
    requires Shape(s) && num < 6 && i < 6 && s.lvt[i].masked
    ensures TriggerLvt(s, num).lvt[i].masked
    decreases ErrorsLeft(s), 3
  {
    var l := s.lvt[num];
    var level := (l.level && l.mode == Fixed) || l.mode == ExtInt;
    var s1 := Latched(s, num, level);
    if !s.rirr[num] && !l.masked && l.mode == Fixed {
      AcceptKeepsMasks(s1.(rirr := s1.rirr[num := level]), l.vector, level, true, i);
    }
  }

  /** An entry that is written while the APIC is disabled is masked, and no write opens another one. */
  lemma DisabledStaysMasked(s: State, num: nat, l: Lvt, expired: bool, i: nat)
    requires Shape(s) && num < 6 && l.vector < 256 && !s.svr.enabled && i < 6 && (i == num || s.lvt[i].masked)
    ensures WriteLvt(s, num, l, expired).lvt[i].masked
  {
    var s1 := s.(lvt := s.lvt[num := l.(masked := l.masked || !s.svr.enabled)]);
    var s2 := TriggerIf(s1, num, s1.lvtds[num]);
    TriggerKeepsMasks(s1, num, i);
    TriggerKeepsMasks(s2, TIMER, i);
  }

  lemma {:induction false} MaskFromMasks(s: State, i: nat, expired: bool)
    requires Shape(s) && i <= 6 && !s.svr.enabled && AllMasked(s, i)
    ensures AllMasked(MaskFrom(s, i, expired), 6)
    decreases 6 - i
  {
    if i < 6 {
      var r := WriteLvt(s, i, s.lvt[i], expired);
      forall k: nat | k < i + 1
        ensures r.lvt[k].masked
      {
        DisabledStaysMasked(s, i, s.lvt[i], expired, k);
      }
      MaskFromMasks(r, i + 1, expired);
    }
  }

  /** Disabling the APIC by software masks all its sources. */
  lemma DisablingMasksAll(s: State, v: nat, suppress: bool, expired: bool)
    requires Shape(s)
    ensures AllMasked(Apply(s, WriteSvr(v, false, suppress, expired)), 6)
  {
    var s1 := UpdateIrqs(s.(svr := Svr(v, false, suppress)));
    MaskFromMasks(s1, 0, expired);
    assert Apply(s, WriteSvr(v, false, suppress, expired)) == MaskFrom(s1, 0, expired);
  }
}
