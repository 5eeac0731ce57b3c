/**
 The I/O APIC of model/ioapic.cc: redirection entries, the remote-IRR, delivery-status and
 notify latches of its 24 pins, and the operations on them.
 */
module IoApic {
  import opened Msi

  datatype Trigger = AssertIrq | AssertNotify | DeassertIrq

  /** `sent` are the messages written to memory, `notified` the pins reported on the notify bus. */
  datatype State = State(redir: seq<bv32>, rirr: seq<bool>, ds: seq<bool>, notify: seq<bool>,
                         sent: seq<MemWrite>, notified: seq<nat>)

  predicate Shape(s: State) {
    |s.redir| == 48 && |s.rirr| == 24 && |s.ds| == 24 && |s.notify| == 24
  }

  function Lo(s: State, pin: nat): bv32
    requires Shape(s) && pin < 24
  {
    s.redir[2 * pin]
  }

  function Hi(s: State, pin: nat): bv32
    requires Shape(s) && pin < 24
  {
    s.redir[2 * pin + 1]
  }

  /** `notify`: reports a pin once. */
  function Notify(s: State, pin: nat): (r: State)
    requires Shape(s) && pin < 24
    ensures Shape(r)
  {
    if s.notify[pin] then s.(notify := s.notify[pin := false], notified := s.notified + [pin]) else s
  }

  /** `pin_assert`. */
  function PinAssert(s: State, pin: nat, t: Trigger): (r: State)
    requires Shape(s)
    ensures Shape(r)
  {
    if pin >= 24 then s
    else if t == DeassertIrq then s.(ds := s.ds[pin := false])
    else if s.rirr[pin] then s
    else
      var level := Level(Lo(s, pin));
      var s1 := s.(notify := s.notify[pin := t == AssertNotify]);
      if Masked(Lo(s, pin)) then
        if level then s1.(ds := s1.ds[pin := true]) else s1
      else
        var s2 := s1.(rirr := s1.rirr[pin := level], ds := s1.ds[pin := false],
                      sent := s1.sent + [EntryMessage(Lo(s, pin), Hi(s, pin))]);
        if level then s2 else Notify(s2, pin)
  }

  /** One round of the loop of `eoi`. */
  function EoiPin(s: State, vector: nat, pin: nat): (r: State)
    requires Shape(s) && pin < 24
    ensures Shape(r)
  {
    if VectorOf(Lo(s, pin)) == vector && s.rirr[pin] then Notify(s.(rirr := s.rirr[pin := false]), pin) else s
  }

  /** The rounds of `eoi` for the first n pins. */
  function EoiPins(s: State, vector: nat, n: nat): (r: State)
    requires Shape(s) && n <= 24
    ensures Shape(r)
  {
    if n == 0 then s else EoiPin(EoiPins(s, vector, n - 1), vector, n - 1)
  }

  /** The writable bits of an entry. */
  function StoredWord(index: nat, value: bv32): bv32 {
    if index % 2 == 1 then value & 0xffff_0000 else value & 0x1_afff
  }

  /** The redirection entry after a write of its half `index`; an edge entry loses its delivery status. */
  function Stored(s: State, index: nat, value: bv32): (r: State)
    requires Shape(s) && index < 48
    ensures Shape(r)
  {
    var pin := index / 2;
    var s1 := s.(redir := s.redir[index := StoredWord(index, value)]);
    s1.(ds := s1.ds[pin := s1.ds[pin] && Level(Lo(s1, pin))])
  }

  /** An unmasked entry sends the interrupt that was latched, or else reports that it is unmasked. */
  function Unmasked(s: State, pin: nat): (r: State)
    requires Shape(s) && pin < 24
    ensures Shape(r)
  {
    if s.ds[pin] then PinAssert(s, pin, AssertNotify)
    else Notify(s.(notify := s.notify[pin := true]), pin)
  }

  /** A write of register 0x10 + index, one half of a redirection entry. */
  function WriteRedir(s: State, index: nat, value: bv32): (r: State)
    requires Shape(s) && index < 48
    ensures Shape(r)
  {
    var s1 := Stored(s, index, value);
    if Masked(Lo(s1, index / 2)) then s1 else Unmasked(s1, index / 2)
  }

  /** `in_range`. */
  predicate InRange(x: nat, base: nat, size: nat) { base <= x <= base + size - 1 }

  /** The test of `write_data` for the registers of redirection entries. */
  predicate PassesTest(register: nat) { InRange(register, 0x10, 0x3f) }

  /** The register is half of one of the 24 entries. */
  predicate HasEntry(register: nat) { 0x10 <= register < 0x10 + 2 * 24 }

  /** The test lets all halves of entries through, and 15 registers that have no entry. */
  lemma TestOfRegisters(register: nat)
    ensures HasEntry(register) <==> PassesTest(register) && register < 0x40
    ensures PassesTest(register) && !HasEntry(register) <==> 0x40 <= register <= 0x4e
  {
  }

  class Device {
    const redir: array<bv32>
    const rirr: array<bool>
    const ds: array<bool>
    const notify: array<bool>
    var sent: seq<MemWrite>
    var notified: seq<nat>

    ghost predicate Valid()
      reads this
    {
      && redir.Length == 48 && rirr.Length == 24 && ds.Length == 24 && notify.Length == 24
      && rirr != ds && rirr != notify && ds != notify
    }

    ghost function Model(): (s: State)
      requires Valid()
      reads this, redir, rirr, ds, notify
      ensures Shape(s)
    {
      State(redir[..], rirr[..], ds[..], notify[..], sent, notified)
    }

    /** `reset` of the I/O APIC with the given first GSI. */
    constructor (gsibase: nat)
      ensures Valid() && fresh(redir) && fresh(rirr) && fresh(ds) && fresh(notify)
      ensures forall i :: 0 <= i < 24 ==> !rirr[i] && !ds[i] && !notify[i] && Masked(Lo(Model(), i))
      ensures sent == [] && notified == []
    {
      redir := new bv32[48](i => if i == 0 && gsibase == 0 then 0x1_0700
                                 else if i == 46 && gsibase == 0 then 0x1_0400
                                 else if i % 2 == 0 then 0x1_0000 else 0);
      rirr := new bool[24](_ => false);
      ds := new bool[24](_ => false);
      notify := new bool[24](_ => false);
      sent, notified := [], [];
    }

    method SendNotify(pin: nat)
      requires Valid() && pin < 24
      modifies this, notify
      ensures Valid() && Model() == Notify(old(Model()), pin)
    {
      if notify[pin] {
        ghost var before := notify[..];
        notify[pin] := false;
        assert notify[..] == before[pin := false];
        notified := notified + [pin];
      }
    }

    method AssertPin(pin: nat, t: Trigger) returns (handled: bool)
      requires Valid()
      modifies this, rirr, ds, notify
      ensures Valid() && Model() == PinAssert(old(Model()), pin, t) && handled == (pin < 24)
    {
      if pin >= 24 {
        return false;
      }
      ghost var s := Model();
      if t == DeassertIrq {
        ds[pin] := false;
        assert ds[..] == s.ds[pin := false];
      } else {
        if rirr[pin] {
          return true;
        }
        var value := redir[2 * pin];
        var level := Level(value);
        notify[pin] := t == AssertNotify;
        assert notify[..] == s.notify[pin := t == AssertNotify];
        if Masked(value) {
          if level {
            ds[pin] := true;
            assert ds[..] == s.ds[pin := true];
          }
        } else {
          rirr[pin] := level;
          ds[pin] := false;
          assert rirr[..] == s.rirr[pin := level] && ds[..] == s.ds[pin := false];
          sent := sent + [EntryMessage(value, redir[2 * pin + 1])];
          if !level {
            SendNotify(pin);
          }
        }
      }
      handled := true;
    }

    /** One round of the loop of `eoi`. */
    method EoiRound(vector: nat, pin: nat)
      requires Valid() && pin < 24
      modifies this, rirr, notify
      ensures Valid() && Model() == EoiPin(old(Model()), vector, pin)
    {
      ghost var s := Model();
      if VectorOf(redir[pin * 2]) == vector && rirr[pin] {
        rirr[pin] := false;
        assert rirr[..] == s.rirr[pin := false];
        SendNotify(pin);
      }
    }

    /** `eoi`: clears the remote IRR of the pins with this vector and notifies their devices. */
    method Eoi(vector: nat)
      requires Valid()
      modifies this, rirr, notify
      ensures Valid() && Model() == EoiPins(old(Model()), vector, 24)
    {
      ghost var s := Model();
      for i := 0 to 24
        invariant Valid() && Model() == EoiPins(s, vector, i)
      {
        EoiRound(vector, i);
      }
    }

    method StoreRedir(index: nat, value: bv32)
      requires Valid() && index < 48
      modifies redir, ds
      ensures Valid() && Model() == Stored(old(Model()), index, value)
    {
      ghost var s := Model();
      var pin := index / 2;
      var stored := StoredWord(index, value);
      redir[index] := stored;
      assert redir[..] == s.redir[index := stored];
      ds[pin] := ds[pin] && Level(redir[pin * 2]);
      assert ds[..] == s.ds[pin := s.ds[pin] && Level(redir[pin * 2])];
    }

    method RetriggerPin(pin: nat)
      requires Valid() && pin < 24
      modifies this, rirr, ds, notify
      ensures Valid() && Model() == Unmasked(old(Model()), pin)
    {
      if ds[pin] {
        var _ := AssertPin(pin, AssertNotify);
      } else {
        ghost var before := notify[..];
        notify[pin] := true;
        assert notify[..] == before[pin := true];
        SendNotify(pin);
      }
    }

    /** `write_data`: unmasking an entry retriggers a latched level interrupt. */
    method WriteData(register: nat, value: bv32)
      requires Valid() && (PassesTest(register) ==> HasEntry(register))
      modifies this, redir, rirr, ds, notify
      ensures Valid()
      ensures Model() == if HasEntry(register) then WriteRedir(old(Model()), register - 0x10, value) else old(Model())
    {
      if PassesTest(register) {
        var index := register - 0x10;
        var pin := index / 2;
        StoreRedir(index, value);
        if !Masked(redir[pin * 2]) {
          RetriggerPin(pin);
        }
      }
    }
  }
}
