/**
 The path of an interrupt message: the memory write that the I/O APIC makes out of a
 redirection entry (model/ioapic.cc), its translation by model/msi.cc, and the destination
 check of the local APIC (model/lapic.cc).
 */
module Msi {
  import opened Common

  const MSI_ADDRESS: bv32 := 0xfee0_0000

  /** A 32-bit write to memory. */
  datatype MemWrite = MemWrite(phys: bv32, value: bv32)

  /** A message on the APIC bus; `roundRobin` if it goes to the first APIC that accepts it. */
  datatype ApicMessage = ApicMessage(icr: bv32, dst: bv32, roundRobin: bool)

  // ---------------------------------------------------------------- redirection entries

  predicate Level(lo: bv32) { lo & 0x8000 != 0 }

  predicate Masked(lo: bv32) { lo & 0x1_0000 != 0 }

  function VectorOf(lo: bv32): (v: nat)
    ensures v < 256
  {
    (lo & 0xff) as nat
  }

  /** Delivery mode, 0 is fixed and 1 is lowest priority. */
  function ModeOf(lo: bv32): bv32 { lo & 0x700 }

  /** MSI_DM for a logical destination and MSI_RH for lowest priority, as `pin_assert` adds them. */
  function AddressFlags(lo: bv32): (f: bv32)
    ensures f == 0 || f == 4 || f == 8 || f == 12
    ensures f & 4 != 0 <==> lo & 0x800 != 0
    ensures f & 8 != 0 <==> ModeOf(lo) == 0x100
  {
    if lo & 0x800 != 0 then (if ModeOf(lo) == 0x100 then 12 else 4)
    else if ModeOf(lo) == 0x100 then 8 else 0
  }

  /** The message for a redirection entry, as `pin_assert` puts it together. */
  function EntryMessage(lo: bv32, hi: bv32): MemWrite {
    MemWrite(MSI_ADDRESS | ((hi >> 12) & 0xf_fff0) | AddressFlags(lo), if Level(lo) then lo | 0x4000 else lo)
  }

  // ---------------------------------------------------------------- msi.cc

  /** `Msi::receive`: the APIC message of a write, None if the write is not forwarded. */
  function Forward(w: MemWrite): Option<ApicMessage> {
    if !(0xfee0_0000 <= w.phys <= 0xfeef_ffff) then None
    else
      var dst := ((w.phys >> 12) & 0xff) | ((w.phys << 4) & 0xff00);
      var icr := w.value & 0xc7ff;
      if icr & 0x700 == 0x300 || icr & 0x700 == 0x600 then None
      else
        var icr1 := if w.phys & 4 != 0 then icr | 0x800 else icr;
        if w.phys & 8 != 0 || icr & 0x700 == 0x100 then Some(ApicMessage(icr1 & 0xffff_f8ff, dst, true))
        else Some(ApicMessage(icr1, dst, false))
  }

  /** Exactly the writes to the window with an allowed mode are forwarded. */
  lemma ForwardsIff(w: MemWrite)
    ensures Forward(w).Some? <==>
              0xfee0_0000 <= w.phys <= 0xfeef_ffff && w.value & 0x700 != 0x300 && w.value & 0x700 != 0x600
  {
    ModeBits(w.value);
  }

  /** The address of an entry message: destination bits and the two flags do not disturb each other. */
  lemma AddressBits(hi: bv32, f: bv32)
    requires f == 0 || f == 4 || f == 8 || f == 12
    ensures var phys := MSI_ADDRESS | ((hi >> 12) & 0xf_fff0) | f;
            phys & 0xc == f && 0xfee0_0000 <= phys <= 0xfeef_ffff
  {
  }

  lemma DestinationHigh(hi: bv32, f: bv32)
    requires f == 0 || f == 4 || f == 8 || f == 12
    ensures ((MSI_ADDRESS | ((hi >> 12) & 0xf_fff0) | f) >> 12) & 0xff == hi >> 24
  {
  }

  lemma DestinationLow(hi: bv32, f: bv32)
    requires f == 0 || f == 4 || f == 8 || f == 12
    ensures ((MSI_ADDRESS | ((hi >> 12) & 0xf_fff0) | f) << 4) & 0xff00 == (hi >> 8) & 0xff00
  {
  }

  lemma FlagBits(phys: bv32, f: bv32)
    requires phys & 0xc == f
    ensures (phys & 4 != 0 <==> f & 4 != 0) && (phys & 8 != 0 <==> f & 8 != 0)
  {
  }

  lemma KeptBits(value: bv32, dm: bv32)
    requires dm == 0 || dm == 0x800
    ensures ((value & 0xc7ff) | dm) & 0x700 == value & 0x700
    ensures ((value & 0xc7ff) | dm) & 0xff == value & 0xff
    ensures ((value & 0xc7ff) | dm) & 0x800 == dm
    ensures ((value & 0xc7ff) | dm) & 0x8000 == value & 0x8000
    ensures ((value & 0xc7ff) | dm) & 0x4000 == value & 0x4000
  {
  }

  lemma AssertBit(lo: bv32)
    ensures (lo | 0x4000) & 0x700 == lo & 0x700 && (lo | 0x4000) & 0xff == lo & 0xff
    ensures (lo | 0x4000) & 0x8000 == lo & 0x8000 && (lo | 0x4000) & 0x4000 != 0
  {
  }

  /** The data of an entry message, reduced to the bits that msi.cc uses. */
  lemma DataBits(value: bv32, lo: bv32, dm: bv32)
    requires value == (if Level(lo) then lo | 0x4000 else lo) && (dm == 0 || dm == 0x800)
    ensures var icr := (value & 0xc7ff) | dm;
            && value & 0x700 == lo & 0x700 && icr & 0x700 == lo & 0x700
            && icr & 0xff == lo & 0xff && icr & 0x800 == dm
            && (icr & 0x8000 != 0 <==> Level(lo)) && (icr & 0x4000 != 0 <==> Level(lo) || lo & 0x4000 != 0)
  {
    KeptBits(value, dm);
    AssertBit(lo);
  }

  /** Clearing the mode bits leaves the others alone. */
  lemma ClearMode(icr: bv32)
    ensures var c := icr & 0xffff_f8ff;
            && c & 0x700 == 0 && c & 0xff == icr & 0xff && c & 0x800 == icr & 0x800
            && c & 0x8000 == icr & 0x8000 && c & 0x4000 == icr & 0x4000
  {
  }

  /**
   A fixed or lowest-priority redirection entry arrives as a fixed message with the
   vector, trigger mode, destination mode and 16-bit destination of the entry; a level
   message carries the assert bit.
   */
  lemma EntryArrives(lo: bv32, hi: bv32)
    requires ModeOf(lo) == 0 || ModeOf(lo) == 0x100
    ensures Forward(EntryMessage(lo, hi)).Some?
    ensures Carries(Forward(EntryMessage(lo, hi)).value, lo, hi)
  {
    var w := EntryMessage(lo, hi);
    var f := AddressFlags(lo);
    AddressBits(hi, f);
    DestinationHigh(hi, f);
    DestinationLow(hi, f);
    FlagBits(w.phys, f);
    var dm: bv32 := if w.phys & 4 != 0 then 0x800 else 0;
    DataBits(w.value, lo, dm);
    ModeBits(w.value);
    ClearMode((w.value & 0xc7ff) | dm);
    var icr := w.value & 0xc7ff;
    assert icr | 0 == icr;
  }

  lemma ModeBits(value: bv32)
    ensures value & 0xc7ff & 0x700 == value & 0x700
  {
  }

  /** The message delivers the entry. */
  predicate Carries(m: ApicMessage, lo: bv32, hi: bv32) {
    && m.icr & 0xff == lo & 0xff
    && m.icr & 0x700 == 0
    && (m.icr & 0x8000 != 0 <==> Level(lo))
    && (m.icr & 0x4000 != 0 <==> Level(lo) || lo & 0x4000 != 0)
    && (m.icr & 0x800 != 0 <==> lo & 0x800 != 0)
    && m.dst == (hi >> 24) | ((hi >> 8) & 0xff00)
    && (m.roundRobin <==> ModeOf(lo) == 0x100)
  }

  // ---------------------------------------------------------------- accept_message

  /** The registers of a local APIC that decide about a destination. */
  datatype Address = Address(id: bv32, ldr: bv32, dfr: bv32, x2apic: bool, initialId: bv32)

  function LogicalId(initialId: bv32, bit: bv32): bv32 {
    ((initialId & 0xffff_fff0) << 12) | bit
  }

  predicate InCluster(ldr: bv32, destination: bv32) {
    (ldr ^ destination) & 0xffff_0000 == 0 && ldr & destination & 0xffff != 0
  }

  /** `accept_message` of an enabled APIC, for messages that are not sent to all others. */
  predicate Accepts(a: Address, logical: bool, destination: bv32) {
    if a.x2apic then
      if destination == 0xffff_ffff then true
      else if !logical then destination == a.id
      else InCluster(LogicalId(a.initialId, 1 << (a.initialId & 0xf) as bv5), destination)
    else
      var dst := destination << 24;
      if dst == 0xff00_0000 then true
      else if !logical then dst == a.id
      else if a.dfr >> 28 == 0xf then a.ldr & dst != 0
      else (a.ldr ^ dst) & 0xf000_0000 == 0 && a.ldr & dst & 0x0fff_ffff != 0
  }

  /** Bit i of an 8-bit destination, and bit i of the logical ID in the LDR. */
  predicate Selects(a: Address, dst: bv32, i: bv32)
    requires i < 8
  {
    (dst >> i as bv5) & 1 == 1 && (a.ldr >> (24 + i) as bv5) & 1 == 1
  }

  /** A physical destination is the ID, or all ones for everybody. */
  lemma PhysicalMode(a: Address, dst: bv32)
    requires !a.x2apic && dst < 0x100
    ensures Accepts(a, false, dst) <==> dst == 0xff || a.id == dst << 24
  {
  }

  /** In the flat model an APIC takes part iff its logical ID has a bit of the destination. */
  lemma FlatMode(a: Address, dst: bv32)
    requires !a.x2apic && a.dfr >> 28 == 0xf && dst < 0xff
    ensures Accepts(a, true, dst) <==>
              || Selects(a, dst, 0) || Selects(a, dst, 1) || Selects(a, dst, 2) || Selects(a, dst, 3)
              || Selects(a, dst, 4) || Selects(a, dst, 5) || Selects(a, dst, 6) || Selects(a, dst, 7)
  {
  }

  /** In the cluster model it takes part iff it is in the cluster and its logical ID has a bit of the destination. */
  lemma ClusterMode(a: Address, dst: bv32)
    requires !a.x2apic && a.dfr >> 28 != 0xf && dst < 0xff && a.ldr & 0x00ff_ffff == 0
    ensures Accepts(a, true, dst) <==>
              && a.ldr >> 28 == dst >> 4
              && (Selects(a, dst, 0) || Selects(a, dst, 1) || Selects(a, dst, 2) || Selects(a, dst, 3))
  {
  }

  /** The logical ID of an x2APIC has the cluster in its upper half and the bit in its lower half. */
  lemma ClusterAndBit(id: bv32, bit: bv32)
    requires bit < 0x1_0000
    ensures LogicalId(id, bit) & 0xffff_0000 == (id << 12) & 0xffff_0000 && LogicalId(id, bit) & 0xffff == bit
  {
  }

  lemma SameHighHalf(ldr: bv32, dst: bv32)
    ensures (ldr ^ dst) & 0xffff_0000 == 0 <==> dst & 0xffff_0000 == ldr & 0xffff_0000
  {
  }

  /** A logical destination matches an x2APIC of the same cluster that shares a bit with it. */
  lemma SameCluster(ldr: bv32, dst: bv32)
    ensures InCluster(ldr, dst) <==> dst & 0xffff_0000 == ldr & 0xffff_0000 && ldr & dst & 0xffff != 0
  {
    SameHighHalf(ldr, dst);
  }

  /** In x2APIC mode a physical destination is the ID and a logical one is matched with the logical ID. */
  lemma X2ApicMode(a: Address, dst: bv32)
    requires a.x2apic
    ensures Accepts(a, false, dst) <==> dst == 0xffff_ffff || dst == a.id
    ensures Accepts(a, true, dst) <==>
              dst == 0xffff_ffff || InCluster(LogicalId(a.initialId, 1 << (a.initialId & 0xf) as bv5), dst)
  {
  }

  /** A message as the local APIC takes it: a fixed vector, or an event for the processor. */
  datatype Arrival = FixedVector(vector: nat, level: bool, assertion: bool) | Event(mode: bv32)

  /** What arrives at the local APIC with address `a` when a message is written to memory. */
  function Arrives(a: Address, w: MemWrite): (r: Option<Arrival>)
    ensures r.Some? && r.value.FixedVector? ==> r.value.vector < 256
  {
    match Forward(w)
    case None => None
    case Some(m) =>
      if !Accepts(a, m.icr & 0x800 != 0, m.dst) then None
      else if m.icr & 0x700 == 0 then
        Some(FixedVector(VectorOf(m.icr), m.icr & 0x8000 != 0, m.icr & 0x4000 != 0))
      else Some(Event(m.icr & 0x700))
  }

  /** The entry is aimed at the local APIC with address `a`. */
  predicate Aimed(a: Address, lo: bv32, hi: bv32) {
    Accepts(a, lo & 0x800 != 0, (hi >> 24) | ((hi >> 8) & 0xff00))
  }

  /** A level entry that is aimed at the APIC arrives as its vector, level triggered and asserted. */
  lemma LevelEntryArrives(a: Address, lo: bv32, hi: bv32)
    requires Level(lo) && Aimed(a, lo, hi) && (ModeOf(lo) == 0 || ModeOf(lo) == 0x100)
    ensures Arrives(a, EntryMessage(lo, hi)) == Some(FixedVector(VectorOf(lo), true, true))
  {
    EntryArrives(lo, hi);
    var m := Forward(EntryMessage(lo, hi)).value;
    assert Carries(m, lo, hi);
    assert VectorOf(m.icr) == VectorOf(lo);
  }

  predicate FixedMode(lo: bv32) { ModeOf(lo) == 0 || ModeOf(lo) == 0x100 }

  /** The modes SMI, NMI, INIT and EXTINT. */
  predicate EventMode(lo: bv32) {
    ModeOf(lo) == 0x200 || ModeOf(lo) == 0x400 || ModeOf(lo) == 0x500 || ModeOf(lo) == 0x700
  }

  lemma EventForwards(lo: bv32, hi: bv32)
    requires !FixedMode(lo)
    ensures Forward(EntryMessage(lo, hi)).Some? <==> EventMode(lo)
    ensures EventMode(lo) ==>
              var m := Forward(EntryMessage(lo, hi)).value;
              && m.icr & 0x700 == ModeOf(lo) && (m.icr & 0x800 != 0 <==> lo & 0x800 != 0)
              && m.dst == (hi >> 24) | ((hi >> 8) & 0xff00)
  {
    var w := EntryMessage(lo, hi);
    EntryAddress(lo, hi);
    EntryMode(w.value, lo);
    ModeValues(lo);
  }

  /** The address of an entry message: the window, the destination and the flags. */
  lemma EntryAddress(lo: bv32, hi: bv32)
    ensures var phys := EntryMessage(lo, hi).phys;
            && 0xfee0_0000 <= phys <= 0xfeef_ffff
            && ((phys >> 12) & 0xff) | ((phys << 4) & 0xff00) == (hi >> 24) | ((hi >> 8) & 0xff00)
            && (phys & 4 != 0 <==> lo & 0x800 != 0) && (phys & 8 != 0 <==> ModeOf(lo) == 0x100)
  {
    var f := AddressFlags(lo);
    AddressBits(hi, f);
    DestinationHigh(hi, f);
    DestinationLow(hi, f);
    FlagBits(EntryMessage(lo, hi).phys, f);
  }

  /** The mode and the destination mode in the data of an entry message. */
  lemma EntryMode(value: bv32, lo: bv32)
    requires value == if Level(lo) then lo | 0x4000 else lo
    ensures var icr := value & 0xc7ff;
            && icr & 0x700 == ModeOf(lo) && (icr | 0x800) & 0x700 == ModeOf(lo)
            && icr & 0x800 == 0 && (icr | 0x800) & 0x800 != 0
  {
    AssertBit(lo);
    ModeAndDestination(value);
  }

  lemma ModeAndDestination(value: bv32)
    ensures value & 0xc7ff & 0x700 == value & 0x700 && ((value & 0xc7ff) | 0x800) & 0x700 == value & 0x700
    ensures value & 0xc7ff & 0x800 == 0 && ((value & 0xc7ff) | 0x800) & 0x800 != 0
  {
  }

  lemma ModeValues(lo: bv32)
    ensures FixedMode(lo) || EventMode(lo) || ModeOf(lo) == 0x300 || ModeOf(lo) == 0x600
  {
  }

  /**
   What arrives of a redirection entry: nothing if the entry is not aimed at the APIC or has a mode that is not
   allowed, its vector with its trigger mode in the fixed modes, and the event of its mode else.
   */
  lemma ArrivesIff(a: Address, lo: bv32, hi: bv32)
    ensures var r := Arrives(a, EntryMessage(lo, hi));
            && (r == None <==> !Aimed(a, lo, hi) || !(FixedMode(lo) || EventMode(lo)))
            && (r.Some? && FixedMode(lo) ==>
                  r.value == FixedVector(VectorOf(lo), Level(lo), Level(lo) || lo & 0x4000 != 0))
            && (r.Some? && EventMode(lo) ==> r.value == Event(ModeOf(lo)))
  {
    ModeValues(lo);
    if FixedMode(lo) {
      FixedArrives(a, lo, hi);
    } else {
      EventForwards(lo, hi);
    }
  }

  lemma FixedArrives(a: Address, lo: bv32, hi: bv32)
    requires FixedMode(lo)
    ensures var r := Arrives(a, EntryMessage(lo, hi));
            && (r == None <==> !Aimed(a, lo, hi))
            && (r.Some? ==> r.value == FixedVector(VectorOf(lo), Level(lo), Level(lo) || lo & 0x4000 != 0))
  {
    EntryArrives(lo, hi);
    var m := Forward(EntryMessage(lo, hi)).value;
    assert Carries(m, lo, hi);
    assert VectorOf(m.icr) == VectorOf(lo);
  }

  /** Whatever arrives from an entry has the vector of the entry. */
  lemma EntryKeepsVector(a: Address, lo: bv32, hi: bv32)
    ensures var r := Arrives(a, EntryMessage(lo, hi));
            r.Some? && r.value.FixedVector? ==> r.value.vector == VectorOf(lo)
  {
    if Forward(EntryMessage(lo, hi)).Some? {
      ForwardKeepsVector(lo, hi);
    }
  }

  /** Whatever arrives from an edge entry is edge triggered. */
  lemma EdgeEntryArrives(a: Address, lo: bv32, hi: bv32)
    requires !Level(lo)
    ensures var r := Arrives(a, EntryMessage(lo, hi));
            r.Some? && r.value.FixedVector? ==> !r.value.level
  {
    TriggerBit(lo);
  }

  lemma TriggerBit(value: bv32)
    ensures value & 0xc7ff & 0x8000 == value & 0x8000
    ensures ((value & 0xc7ff) | 0x800) & 0x8000 == value & 0x8000
    ensures value & 0xc7ff & 0xffff_f8ff & 0x8000 == value & 0x8000
    ensures ((value & 0xc7ff) | 0x800) & 0xffff_f8ff & 0x8000 == value & 0x8000
  {
  }

  /** Whatever is forwarded keeps the vector of the entry. */
  lemma ForwardKeepsVector(lo: bv32, hi: bv32)
    requires Forward(EntryMessage(lo, hi)).Some?
    ensures Forward(EntryMessage(lo, hi)).value.icr & 0xff == lo & 0xff
  {
    ForwardVector(EntryMessage(lo, hi));
    AssertBit(lo);
  }

  lemma ForwardVector(w: MemWrite)
    requires Forward(w).Some?
    ensures Forward(w).value.icr & 0xff == w.value & 0xff
  {
    VectorBits(w.value);
  }

  lemma VectorBits(value: bv32)
    ensures value & 0xc7ff & 0xff == value & 0xff
    ensures ((value & 0xc7ff) | 0x800) & 0xff == value & 0xff
    ensures value & 0xc7ff & 0xffff_f8ff & 0xff == value & 0xff
    ensures ((value & 0xc7ff) | 0x800) & 0xffff_f8ff & 0xff == value & 0xff
  {
  }
}
