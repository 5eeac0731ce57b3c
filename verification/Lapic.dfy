/**
 The local APIC of model/lapic.cc as an object: the bit vectors in one array, scanned by
 `get_highest_bit`, the cached `_isrv` and the LVT state. Every method is proved to make
 the transition that LapicSpec gives for it.
 */
module Lapic {
  import opened Common
  import opened LapicSpec

  const OFS_ISR: nat := 0
  const OFS_TMR: nat := 256
  const OFS_IRR: nat := 512

  /** The 256 bits from offset `ofs` on as a set of vectors. */
  ghost function VectorsAt(bits: seq<bool>, ofs: nat): set<nat>
    requires |bits| == 768 && ofs <= 512
  {
    set v: nat | v < 256 && Has(bits, ofs, v)
  }

  predicate Has(bits: seq<bool>, ofs: nat, v: nat)
    requires |bits| == 768 && ofs <= 512 && v < 256
  {
    bits[ofs + v]
  }

  lemma UpdateVectors(bits: seq<bool>, ofs: nat, v: nat, value: bool)
    requires |bits| == 768 && ofs in {0, 256, 512} && v < 256
    ensures VectorsAt(bits[ofs + v := value], ofs) == SetBit(VectorsAt(bits, ofs), v, value)
    ensures forall o :: o in {0, 256, 512} && o != ofs ==> VectorsAt(bits[ofs + v := value], o) == VectorsAt(bits, o)
  {
    var next := bits[ofs + v := value];
    assert forall w: nat :: w < 256 ==> Has(next, ofs, w) == if w == v then value else Has(bits, ofs, w);
    forall o | o in {0, 256, 512} && o != ofs
      ensures VectorsAt(next, o) == VectorsAt(bits, o)
    {
      assert forall w: nat :: w < 256 ==> Has(next, o, w) == Has(bits, o, w);
    }
  }

  class LocalApic {
    const bits: array<bool>
    var isrv: nat
    var tpr: nat
    var svr: Svr
    var esr: set<nat>
    var lvt: seq<Lvt>
    var lvtds: seq<bool>
    var rirr: seq<bool>
    var line: bool
    var events: seq<Mode>
    /** Vectors broadcast to the I/O APICs. */
    var eois: seq<nat>
    ghost var model: State

    ghost predicate Valid()
      reads this, bits
    {
      && bits.Length == 768
      && Shape(model)
      && model == State(VectorsAt(bits[..], OFS_IRR), VectorsAt(bits[..], OFS_ISR), VectorsAt(bits[..], OFS_TMR),
                        isrv, tpr, svr, esr, lvt, lvtds, rirr, line, events)
    }

    /** The highest set bit of the 32-bit word at `word`, negative if the word is zero. */
    method BitScanReverse(word: nat) returns (b: int)
      requires bits.Length == 768 && word + 32 <= 768
      ensures -1 <= b < 32
      ensures b >= 0 ==> bits[word + b]
      ensures forall k :: word + b < k < word + 32 ==> !bits[k]
    {
      b := 31;
      while b >= 0 && !bits[word + b]
        invariant -1 <= b < 32
        invariant forall k :: word + b < k < word + 32 ==> !bits[k]
      {
        b := b - 1;
      }
    }

    /** `get_highest_bit`: scans the eight words of a bit vector from the top. */
    method GetHighestBit(ofs: nat) returns (m: nat)
      requires bits.Length == 768 && ofs in {0, 256, 512}
      ensures m == Highest(VectorsAt(bits[..], ofs))
    {
      ghost var vectors := VectorsAt(bits[..], ofs);
      var i := 7;
      while i >= 0
        invariant -1 <= i <= 7
        invariant forall k :: ofs + 32 * (i + 1) <= k < ofs + 256 ==> !bits[k]
      {
        var b := BitScanReverse(ofs + 32 * i);
        if b >= 0 {
          m := 32 * i + b;
          HighestFound(bits[..], ofs, m);
          return;
        }
        i := i - 1;
      }
      m := 0;
      assert forall v: nat :: v < 256 ==> !Has(bits[..], ofs, v);
      assert vectors == {};
      HighestUnique(vectors, 0);
    }

    /** `prioritize_irq`. */
    method PrioritizeIrq() returns (p: Pending)
      requires Valid()
      ensures p == Prioritize(model)
      ensures IsHighest(model.isr, model.isrv) ==>
              forall v :: p == Vector(v) <==> !ExtIntPending(model) && Takeable(model, v)
    {
      ChoiceOfVector(model);
      var i := 0;
      while i < 6
        invariant 0 <= i <= 6 && FirstExtInt(model, 0) == FirstExtInt(model, i)
      {
        if lvtds[i] && lvt[i].mode == ExtInt {
          return ExtIntFrom(i);
        }
        i := i + 1;
      }
      var irrv := GetHighestBit(OFS_IRR);
      var ppr := ProcessorPrio();
      p := if irrv != 0 && Class(irrv) > ppr then Vector(irrv) else Nothing;
    }

    /** `processor_prio`. */
    method ProcessorPrio() returns (prio: nat)
      requires Valid()
      ensures prio == Ppr(model)
    {
      prio := Class(isrv);
      if tpr >= prio {
        prio := tpr;
      }
    }

    /** `update_irqs`. */
    method UpdateLine()
      requires Valid()
      modifies this`line, this`model
      ensures Valid() && model == UpdateIrqs(old(model))
      ensures IsHighest(model.isr, model.isrv) ==> (line <==> old(Waiting(model)))
    {
      if IsHighest(model.isr, model.isrv) {
        RaisedIffWaiting(model);
      }
      var p := PrioritizeIrq();
      line := p != Nothing;
      model := UpdateIrqs(model);
    }

    /** Sets or clears a bit in one of the three vectors. */
    method WriteBit(ofs: nat, v: nat, value: bool)
      requires Valid() && ofs in {0, 256, 512} && v < 256
      modifies bits, this`model
      ensures Valid()
      ensures model == (if ofs == OFS_IRR then old(model).(irr := SetBit(old(model).irr, v, value))
                        else if ofs == OFS_ISR then old(model).(isr := SetBit(old(model).isr, v, value))
                        else old(model).(tmr := SetBit(old(model).tmr, v, value)))
    {
      UpdateVectors(bits[..], ofs, v, value);
      ghost var before := bits[..];
      bits[ofs + v] := value;
      assert bits[..] == before[ofs + v := value];
      model := if ofs == OFS_IRR then model.(irr := SetBit(model.irr, v, value))
               else if ofs == OFS_ISR then model.(isr := SetBit(model.isr, v, value))
               else model.(tmr := SetBit(model.tmr, v, value));
    }

    /** `accept_vector`. */
    method Accept(vector: nat, level: bool, value: bool)
      requires Valid() && vector < 256
      modifies this, bits
      ensures Valid() && model == AcceptVector(old(model), vector, level, value) && eois == old(eois)
      decreases ErrorsLeft(model), 1
    {
      if vector < 16 {
        ReportError(6);
      } else {
        WriteBit(OFS_IRR, vector, !level || value);
        WriteBit(OFS_TMR, vector, level);
      }
      UpdateLine();
    }

    /** `set_error`. */
    method ReportError(bit: nat)
      requires Valid() && bit in {4, 5, 6, 7}
      modifies this, bits
      ensures Valid() && model == SetError(old(model), bit) && eois == old(eois)
      decreases ErrorsLeft(model), 0
    {
      if bit in esr {
        return;
      }
      SmallerSet({4, 5, 6, 7} - (esr + {bit}), {4, 5, 6, 7} - esr, bit);
      esr := esr + {bit};
      model := model.(esr := esr);
      Trigger(ERROR);
    }

    /** The delivery status and the automatic mask, as `trigger_lvt` sets them first. */
    method Latch(num: nat, level: bool)
      requires Valid() && num < 6
      modifies this`lvtds, this`lvt, this`model
      ensures Valid() && model == Latched(old(model), num, level)
    {
      var masked := lvt[num].masked;
      if level {
        lvtds := lvtds[num := true];
      }
      if !masked && num == PERF {
        lvt := lvt[num := lvt[num].(masked := true)];
      }
      model := Latched(model, num, level);
    }

    /** A fixed interrupt from the LVT. */
    method DeliverFixed(num: nat, vector: nat, level: bool)
      requires Valid() && num < 6 && vector < 256
      modifies this, bits
      ensures Valid() && eois == old(eois)
      ensures model == FixedFromLvt(old(model), num, vector, level)
      decreases ErrorsLeft(model), 2
    {
      rirr := rirr[num := level];
      model := model.(rirr := rirr);
      Accept(vector, level, true);
      lvtds := lvtds[num := false];
      model := model.(lvtds := lvtds);
    }

    /** `trigger_lvt`. */
    method Trigger(num: nat)
      requires Valid() && num < 6
      modifies this, bits
      ensures Valid() && model == TriggerLvt(old(model), num) && eois == old(eois)
      decreases ErrorsLeft(model), 3
    {
      var l := lvt[num];
      var level := (l.level && l.mode == Fixed) || l.mode == ExtInt;
      if rirr[num] {
        return;
      }
      Latch(num, level);
      if l.masked {
        return;
      }
      if l.mode == Fixed {
        DeliverFixed(num, l.vector, level);
      } else if l.mode == ExtInt {
        UpdateLine();
      } else if l.mode == Smi || l.mode == Nmi || l.mode == InitMode {
        events := events + [l.mode];
        model := model.(events := events);
      }
    }

    /** A pending vector goes into service. */
    method TakeVector(v: nat)
      requires Valid() && v < 256
      modifies this, bits
      ensures Valid() && eois == old(eois)
      ensures model == old(model).(irr := old(model).irr - {v}, isr := old(model).isr + {v}, isrv := v)
    {
      WriteBit(OFS_IRR, v, false);
      WriteBit(OFS_ISR, v, true);
      isrv := v;
      model := model.(isrv := v);
    }

    /** INTA cycle of the processor; no value if the PIC has to answer. */
    method IntaCycle() returns (value: Option<nat>)
      requires Valid()
      modifies this, bits
      ensures Valid() && model == Inta(old(model)) && value == IntaVector(old(model)) && eois == old(eois)
      ensures old(IsHighest(model.isr, model.isrv)) ==> old(Answers(model, value))
    {
      if IsHighest(model.isr, model.isrv) {
        IntaAnswers(model);
      }
      var irrv := PrioritizeIrq();
      match irrv
      case ExtIntFrom(i) =>
        lvtds := lvtds[i := false];
        model := model.(lvtds := lvtds);
        return None;
      case Vector(v) =>
        assert v in model.irr;
        TakeVector(v);
        value := Some(v);
        UpdateLine();
      case Nothing =>
        value := Some(svr.spurious);
        UpdateLine();
    }

    /** `broadcast_eoi`, with the ISR bit cleared before. */
    method BroadcastEoi()
      requires Valid() && 0 < isrv < 256
      modifies this, bits
      ensures Valid() && model == EoiBegin(old(model))
      ensures eois == old(eois) + (match EoiBroadcast(old(model)) case Some(v) => [v] case None => [])
    {
      ghost var s := model;
      WriteBit(OFS_ISR, isrv, false);
      if bits[OFS_TMR + isrv] {
        assert isrv in s.tmr;
        if isrv == lvt[LINT0].vector {
          rirr := rirr[LINT0 := false];
        }
        if isrv == lvt[LINT1].vector {
          rirr := rirr[LINT1 := false];
        }
        model := model.(rirr := rirr);
        if !svr.suppressEoi {
          eois := eois + [isrv];
        }
      }
    }

    /** The EOI register; `timerExpired` says whether the timer is found expired when rearmed. */
    method WriteEoi(timerExpired: bool)
      requires Valid() && isrv < 256
      modifies this, bits
      ensures Valid() && model == Eoi(old(model), timerExpired)
      ensures eois == old(eois) + (match EoiBroadcast(old(model)) case Some(v) => [v] case None => [])
    {
      if isrv != 0 {
        BroadcastEoi();
        FinishEoi(timerExpired);
      }
    }

    /** The rest of the EOI: rearms the timer and scans the ISR for the next vector. */
    method FinishEoi(timerExpired: bool)
      requires Valid()
      modifies this, bits
      ensures Valid() && model == EoiEnd(old(model), timerExpired) && eois == old(eois)
    {
      if isrv == lvt[TIMER].vector && timerExpired {
        Trigger(TIMER);
      }
      isrv := GetHighestBit(OFS_ISR);
      model := model.(isrv := isrv);
      UpdateLine();
    }
  }

  /** The vector that `prioritize_irq` chooses, if the cached vector in service is up to date. */
  lemma ChoiceOfVector(s: State)
    requires Shape(s)
    ensures IsHighest(s.isr, s.isrv) ==>
            forall v :: Prioritize(s) == Vector(v) <==> !ExtIntPending(s) && Takeable(s, v)
  {
    if IsHighest(s.isr, s.isrv) {
      forall v
        ensures Prioritize(s) == Vector(v) <==> !ExtIntPending(s) && Takeable(s, v)
      {
        TakenIff(s, v);
      }
    }
  }

  lemma HighestFound(bits: seq<bool>, ofs: nat, m: nat)
    requires |bits| == 768 && ofs in {0, 256, 512} && m < 256 && bits[ofs + m]
    requires forall k :: ofs + m < k < ofs + 256 ==> !bits[k]
    ensures m == Highest(VectorsAt(bits, ofs))
  {
    assert Has(bits, ofs, m);
    assert m in VectorsAt(bits, ofs);
    HighestUnique(VectorsAt(bits, ofs), m);
  }
}
