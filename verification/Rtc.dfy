/**
 The MC146818 clock of model/rtc146818.cc: `get_ram_time`, `update_ram` and `update_cycle`.
 */
module Rtc {
  import opened Common
  import opened Calendar
  import opened Multiples
  import opened RtcRegisters

  const FREQ: int := 32768

  /** First second of the year 10000, from which on the century register is too small. */
  const YEAR_10000: int := (3652059 - EPOCH) * 86400

  // ---------------------------------------------------------------- time registers

  /** `get_ram_time`. */
  function RamTime(ram: Ram): u64 {
    MkTime(Fields(ram))
  }

  /** The hour register in the selected mode: PM in bit 7, and twelve instead of zero. */
  function EncodeHour(binary: bool, mode24: bool, hour: nat): byte
    requires hour < 24
  {
    if mode24 then Convert(binary, hour)
    else (if hour >= 12 then 0x80 else 0) + Convert(binary, Hour12(hour))
  }

  lemma HourLeavesPmFree(binary: bool, h: nat)
    requires h <= 12
    ensures Convert(binary, h) < 128
  {
  }

  /** The hour on a twelve hour dial. */
  function Hour12(hour: nat): (h: nat)
    requires hour < 24
    ensures 1 <= h <= 12 && h % 12 == hour % 12
  {
    if hour == 0 || hour == 12 then 12 else if hour < 12 then hour else hour - 12
  }

  /** The registers that hold the time. */
  const TIME_REGISTERS: set<int> := {0, 2, 4, 6, 7, 8, 9, 0x32}

  predicate Encodes(ram: Ram, tm: Tm)
    requires ValidTm(tm) && tm.year < 10000 && 0 <= tm.wday < 7
  {
    var binary := BinaryMode(ram);
    && ram[0] == Convert(binary, tm.sec)
    && ram[2] == Convert(binary, tm.min)
    && ram[4] == EncodeHour(binary, Mode24h(ram), tm.hour)
    && ram[6] == Convert(binary, tm.wday)
    && ram[7] == Convert(binary, tm.mday)
    && ram[8] == Convert(binary, tm.mon)
    && ram[9] == Convert(binary, tm.year % 100)
    && ram[0x32] == Convert(binary, tm.year / 100)
  }

  /** The time registers hold the date and time of the given second. */
  predicate EncodesSecond(ram: Ram, tm: Tm, seconds: int) {
    && ValidTm(tm) && DerivedFields(tm) && tm.year < 10000
    && SecondsOf(tm) == seconds
    && Encodes(ram, tm)
  }

  lemma RegisterRoundTrip(ram: Ram, index: nat, v: byte)
    requires (index < 0xa && index != 0 && index != 4 && index != 5) || index == 0x32
    requires v < 100 && ram[index] == Convert(BinaryMode(ram), v)
    ensures Value(ram, index) == v
  {
    ConvertRoundTrip(BinaryMode(ram), v);
  }

  lemma StripPm(reg: byte, c: byte)
    requires c < 128 && (reg == c || reg == c + 128)
    ensures reg % 128 == c
  {
  }

  lemma SecondRoundTrip(ram: Ram, v: byte)
    requires v < 60 && ram[0] == Convert(BinaryMode(ram), v)
    ensures Value(ram, 0) == v
  {
    ConvertRoundTrip(BinaryMode(ram), v);
    StripPm(ram[0], ram[0]);
  }

  lemma SmallBcd(h: nat)
    requires h <= 12
    ensures ToBcd(h) == (if h < 10 then h else h + 6)
    ensures FromBcd(ToBcd(h)) == h
  {
  }

  lemma Hour12RoundTrip(binary: bool, hour: nat, reg: byte)
    requires hour < 24
    requires reg == (if hour >= 12 then 0x80 else 0) + Convert(binary, Hour12(hour))
    ensures (reg >= 0x80) == (hour >= 12)
    ensures Decode(binary, reg % 128) == Hour12(hour)
  {
    var h := Hour12(hour);
    SmallBcd(h);
    StripPm(reg, Convert(binary, h));
  }

  lemma Dial(hour: nat)
    requires hour < 24
    ensures Hour12(hour) % 12 + (if hour >= 12 then 12 else 0) == hour
  {
  }

  lemma HourRoundTrip(ram: Ram, hour: nat)
    requires hour < 24 && ram[4] == EncodeHour(BinaryMode(ram), Mode24h(ram), hour)
    ensures Value(ram, 4) == hour
  {
    if Mode24h(ram) {
      ConvertRoundTrip(BinaryMode(ram), hour);
    } else {
      Hour12RoundTrip(BinaryMode(ram), hour, ram[4]);
      Dial(hour);
    }
  }

  /** The fields as `get_ram_time` reads them. */
  function Fields(ram: Ram): Tm {
    Tm(Value(ram, 0), Value(ram, 2), Value(ram, 4), Value(ram, 7), Value(ram, 8),
       Value(ram, 9) + Value(ram, 0x32) * 100, 0, 0)
  }

  lemma FieldsReadBack(ram: Ram, tm: Tm)
    requires ValidTm(tm) && tm.year < 10000 && 0 <= tm.wday < 7
    requires Encodes(ram, tm)
    ensures Fields(ram) == tm.(wday := 0, yday := 0)
  {
    SecondRoundTrip(ram, tm.sec);
    RegisterRoundTrip(ram, 2, tm.min);
    HourRoundTrip(ram, tm.hour);
    RegisterRoundTrip(ram, 7, tm.mday);
    RegisterRoundTrip(ram, 8, tm.mon);
    RegisterRoundTrip(ram, 9, tm.year % 100);
    RegisterRoundTrip(ram, 0x32, tm.year / 100);
  }

  /** Reading back an encoded time gives its seconds, in all four register modes. */
  lemma EncodedTimeReadsBack(ram: Ram, tm: Tm)
    requires ValidTm(tm) && 1970 <= tm.year < 10000 && 0 <= tm.wday < 7
    requires Encodes(ram, tm)
    ensures RamTime(ram) == SecondsOf(tm)
  {
    FieldsReadBack(ram, tm);
    MkTimeCountsSeconds(tm);
    MkTimeIgnoresDerivedFields(tm);
  }

  lemma MkTimeIgnoresDerivedFields(tm: Tm)
    ensures MkTime(tm.(wday := 0, yday := 0)) == MkTime(tm)
  {
  }

  lemma StoredYear(tm: Tm)
    requires ValidTm(tm) && DerivedFields(tm) && 0 <= SecondsOf(tm) < YEAR_10000
    ensures 1970 <= tm.year < 10000 && 0 <= tm.wday < 7
  {
    BeforeYear(tm, 1970, EPOCH);
    BeforeYear(tm, 10000, 3652059);
  }

  // ---------------------------------------------------------------- interrupt flags

  datatype Irq = AssertNotify | Deassert

  /** Sets the bit selected by `mask`. */
  function SetBit(v: byte, mask: nat): byte
    requires mask == 0x10 || mask == 0x20 || mask == 0x40 || mask == 0x80
  {
    if Bit(v, mask) then v else v + mask
  }

  /** Setting one bit leaves the flags of the other bits alone. */
  lemma SetBitSetsOnly(v: byte, mask: nat)
    requires mask == 0x10 || mask == 0x20 || mask == 0x40 || mask == 0x80
    ensures Bit(SetBit(v, mask), 0x10) <==> Bit(v, 0x10) || mask == 0x10
    ensures Bit(SetBit(v, mask), 0x20) <==> Bit(v, 0x20) || mask == 0x20
    ensures Bit(SetBit(v, mask), 0x40) <==> Bit(v, 0x40) || mask == 0x40
  {
    if !Bit(v, mask) {
      var b7 := if v >= 128 then 1 else 0;
      var b6 := if v - 128 * b7 >= 64 then 1 else 0;
      var b5 := if v - 128 * b7 - 64 * b6 >= 32 then 1 else 0;
      var b4 := if v - 128 * b7 - 64 * b6 - 32 * b5 >= 16 then 1 else 0;
      AddBit(v, b7, b6, b5, b4, v - 128 * b7 - 64 * b6 - 32 * b5 - 16 * b4, mask);
    }
  }

  lemma AddBit(v: byte, b7: nat, b6: nat, b5: nat, b4: nat, low: nat, mask: nat)
    requires v == 128 * b7 + 64 * b6 + 32 * b5 + 16 * b4 + low && b7 < 2 && b6 < 2 && b5 < 2 && b4 < 2 && low < 16
    requires mask == 0x10 || mask == 0x20 || mask == 0x40 || mask == 0x80
    requires !Bit(v, mask)
    ensures v + mask < 256
    ensures Bit(v + mask, 0x10) <==> Bit(v, 0x10) || mask == 0x10
    ensures Bit(v + mask, 0x20) <==> Bit(v, 0x20) || mask == 0x20
    ensures Bit(v + mask, 0x40) <==> Bit(v, 0x40) || mask == 0x40
  {
    BitsOf(v, b7, b6, b5, b4, low);
    match mask
    case 0x10 => BitsOf(v + 0x10, b7, b6, b5, 1, low);
    case 0x20 => BitsOf(v + 0x20, b7, b6, 1, b4, low);
    case 0x40 => BitsOf(v + 0x40, b7, 1, b5, b4, low);
    case _ => BitsOf(v + 0x80, 1, b6, b5, b4, low);
  }

  lemma BitsOf(v: int, b7: nat, b6: nat, b5: nat, b4: nat, low: nat)
    requires v == 128 * b7 + 64 * b6 + 32 * b5 + 16 * b4 + low && b7 < 2 && b6 < 2 && b5 < 2 && b4 < 2 && low < 16
    ensures v < 256 && (Bit(v, 0x80) <==> b7 == 1) && (Bit(v, 0x40) <==> b6 == 1)
    ensures (Bit(v, 0x20) <==> b5 == 1) && (Bit(v, 0x10) <==> b4 == 1)
  {
    assert v % 32 == 16 * b4 + low;
    assert v % 64 == 32 * b5 + 16 * b4 + low;
    assert v % 128 == 64 * b6 + 32 * b5 + 16 * b4 + low;
  }

  /** `get_periodic_tics`. */
  function PeriodicTics(a: byte): nat {
    if a % 16 != 0 && a / 32 % 4 != 3 then
      var tics := Pow2(a % 16 - 1);
      if tics < 3 then tics * 128 else tics
    else 0
  }

  /** The period of the periodic interrupt in 1/32768 seconds, for the rate bits of register A. */
  lemma PeriodicRates(a: byte)
    ensures PeriodicTics(a) ==
            if a / 32 % 4 == 3 then 0
            else [0, 128, 256, 4, 8, 16, 32, 64, 128, 256, 512, 1024, 2048, 4096, 8192, 16384][a % 16]
  {
    if a % 16 > 0 {
      SmallPowers(a % 16 - 1);
    }
  }

  /** The divider chain is held in reset. */
  predicate DividerReset(ram: Ram) { ram[0xa] / 32 % 4 == 3 }

  /** The SET bit, which stops the update cycles. */
  predicate SetMode(ram: Ram) { Bit(ram[0xb], 0x80) }

  predicate Running(ram: Ram) { !DividerReset(ram) && !SetMode(ram) }

  predicate AlarmFlag(ram: Ram) { Bit(ram[0xc], 0x20) }

  predicate UpdateFlag(ram: Ram) { Bit(ram[0xc], 0x10) }

  predicate PeriodicFlag(ram: Ram) { Bit(ram[0xc], 0x40) }

  /** The flag of `mask` is raised and the other two are as before. */
  predicate RaisedOnly(a: Ram, b: Ram, mask: nat) {
    && UpdateFlag(b) == (UpdateFlag(a) || mask == 0x10)
    && AlarmFlag(b) == (AlarmFlag(a) || mask == 0x20)
    && PeriodicFlag(b) == (PeriodicFlag(a) || mask == 0x40)
  }

  /** Nothing but the time registers and the flag register differs. */
  predicate SameProgramming(a: Ram, b: Ram) {
    forall i :: 0 <= i < 128 && i !in TIME_REGISTERS && i != 0xc ==> a[i] == b[i]
  }

  lemma SameProgrammingKeepsAlarm(a: Ram, b: Ram)
    requires SameProgramming(a, b)
    ensures AlarmOf(a) == AlarmOf(b)
    ensures DividerReset(a) == DividerReset(b) && SetMode(a) == SetMode(b)
  {
    assert a[0xa] == b[0xa] && a[0xb] == b[0xb];
    assert a[1] == b[1] && a[3] == b[3] && a[5] == b[5];
  }

  /** Whole seconds of a counter that runs at 32768 Hz. */
  function Sec(counter: nat): nat { counter / 32768 }

  lemma SecMonotone(a: nat, b: nat)
    requires a <= b
    ensures Sec(a) <= Sec(b)
  {
  }

  /** The difference of two 64-bit counters, in seconds, added to a 64-bit time. */
  function Advance(time: int, now: u64, last: u64): (t: u64)
    ensures 0 <= time + Sec(now) - Sec(last) <= NEVER ==> t == time + Sec(now) - Sec(last)
  {
    Wrap64(time + Sec(now) - Sec(last))
  }

  /** The counter passed the middle of a period; unsigned 32-bit arithmetic. */
  predicate PeriodicEdge(fnow: nat, flast: nat, tics: nat) {
    tics > 0 && (fnow - tics / 2) % TWO32 / tics != (flast - tics / 2) % TWO32 / tics
  }

  /** How many middles of periods lie in the first x ticks. */
  function Middles(x: nat, tics: nat): nat
    requires tics > 0
  {
    (x + tics / 2) / tics
  }

  /** The counter has passed the middle of a period between the two values. */
  predicate PassedMiddle(last: nat, now: nat, tics: nat)
    requires tics > 0
  {
    Middles(now, tics) != Middles(last, tics)
  }

  /** In one second of m periods of 2 * h ticks. */
  lemma MiddlesInSecond(f: nat, h: nat, m: nat)
    requires f < 32768 && h > 0 && 2 * (h * m) == 32768
    ensures var tics := 2 * h;
            && Middles(f, tics) <= m && (Middles(f, tics) == 0 <==> f < h)
            && (f - h) % 0x1_0000_0000 / tics == if f >= h then Middles(f, tics) - 1 else 131072 * m - 1
  {
    var tics, q, r := 2 * h, (f + h) / (2 * h), (f + h) % (2 * h);
    assert tics / 2 == h;
    assert f + h == tics * q + r;
    MiddleCount(f, h, m, q, r);
    if f >= h {
      DivideBy(f - h, tics, q - 1, r);
    } else {
      assert 0x1_0000_0000 + f - h == tics * (131072 * m - 1) + (f + h);
      DivideBy(0x1_0000_0000 + f - h, tics, 131072 * m - 1, f + h);
    }
  }

  lemma MiddleCount(f: nat, h: nat, m: nat, q: nat, r: nat)
    requires f < 32768 && h > 0 && 2 * (h * m) == 32768 && f + h == 2 * h * q + r && r < 2 * h
    ensures q <= m && (q == 0 <==> f < h)
  {
    assert (m + 1) * (2 * h) == 32768 + 2 * h;
    if q > m {
      MulMonotone(m + 1, q, 2 * h);
    }
    if q > 0 {
      MulMonotone(1, q, 2 * h);
    }
  }

  /** Whole seconds are whole numbers of periods. */
  lemma MiddlesOverSeconds(x: nat, h: nat, m: nat)
    requires h > 0 && 2 * (h * m) == 32768
    ensures Middles(x, 2 * h) == Sec(x) * m + Middles(x % 32768, 2 * h)
  {
    var f, q := x % 32768, Middles(x % 32768, 2 * h);
    var r := (f + h) % (2 * h);
    assert (2 * h) / 2 == h;
    assert f + h == 2 * h * q + r;
    assert x + h == Sec(x) * 32768 + f + h;
    SecondsInPeriods(Sec(x), h, m);
    assert 2 * h * (Sec(x) * m + q) == 2 * h * (Sec(x) * m) + 2 * h * q;
    DivideBy(x + h, 2 * h, Sec(x) * m + q, r);
  }

  lemma SecondsInPeriods(s: nat, h: nat, m: nat)
    requires 2 * (h * m) == 32768
    ensures 2 * h * (s * m) == s * 32768
  {
    assert 2 * h * (s * m) == s * (2 * (h * m));
  }

  /** A rate as periods of 2 * h ticks, m of them in a second. */
  lemma RateInSecond(a: byte) returns (h: nat, m: nat)
    requires PeriodicTics(a) > 0
    ensures h > 0 && PeriodicTics(a) == 2 * h && 2 * (h * m) == 32768
  {
    PeriodicRates(a);
    h := PeriodicTics(a) / 2;
    m := [0, 256, 128, 8192, 4096, 2048, 1024, 512, 256, 128, 64, 32, 16, 8, 4, 2][a % 16];
  }

  /**
   The test for the periodic flag looks at the position in the second only. It is right unless whole seconds passed
   and the position is between the same middles, or a second began and no middle was passed around its begin.
   */
  predicate PositionMisleads(last: nat, now: nat, tics: nat)
    requires tics > 0
  {
    var f, g := Middles(now % 32768, tics), Middles(last % 32768, tics);
    || (Sec(now) != Sec(last) && f == g)
    || (Sec(now) == Sec(last) + 1 && f == 0 && g == 32768 / tics)
  }

  lemma PeriodicFlagIff(last: u64, now: u64, a: byte)
    requires last <= now && PeriodicTics(a) > 0
    ensures var tics := PeriodicTics(a);
            (PeriodicEdge(now % FREQ, last % FREQ, tics) <==> PassedMiddle(last, now, tics))
            <==> !PositionMisleads(last, now, tics)
  {
    var h, m := RateInSecond(a);
    PositionsDecide(last, now, h, m);
  }

  lemma PositionsDecide(last: nat, now: nat, h: nat, m: nat)
    requires last <= now && h > 0 && 2 * (h * m) == 32768
    ensures (PeriodicEdge(now % 32768, last % 32768, 2 * h) <==> PassedMiddle(last, now, 2 * h))
            <==> !PositionMisleads(last, now, 2 * h)
  {
    var f, g := now % 32768, last % 32768;
    EdgeIffPositions(f, g, h, m);
    assert Middles(f, 2 * h) <= m && Middles(g, 2 * h) <= m by {
      MiddlesInSecond(f, h, m);
      MiddlesInSecond(g, h, m);
    }
    MiddlesOverSeconds(now, h, m);
    MiddlesOverSeconds(last, h, m);
    SecMonotone(last, now);
    PeriodsInSecond(h, m);
    PositionsOf(Sec(now), Sec(last), m, Middles(f, 2 * h), Middles(g, 2 * h));
  }

  lemma PeriodsInSecond(h: nat, m: nat)
    requires h > 0 && 2 * (h * m) == 32768
    ensures 32768 / (2 * h) == m && m > 0
  {
    assert 2 * h * m == 32768;
    DivideBy(32768, 2 * h, m, 0);
  }

  lemma EdgeIffPositions(f: nat, g: nat, h: nat, m: nat)
    requires f < 32768 && g < 32768 && h > 0 && 2 * (h * m) == 32768
    ensures PeriodicEdge(f, g, 2 * h) <==> Middles(f, 2 * h) != Middles(g, 2 * h)
  {
    MiddlesInSecond(f, h, m);
    MiddlesInSecond(g, h, m);
  }

  lemma PositionsOf(s: nat, t: nat, m: nat, f: nat, g: nat)
    requires t <= s && f <= m && g <= m && m > 0
    ensures (f != g <==> s * m + f != t * m + g) <==> !((s != t && f == g) || (s == t + 1 && f == 0 && g == m))
  {
    var d := s - t;
    assert s * m == t * m + d * m;
    if d > 1 {
      MulMonotone(2, d, m);
    }
  }

  /** Inside of one second the flag is raised iff the middle of a period was passed. */
  lemma PeriodicFlagInSecond(last: u64, now: u64, a: byte)
    requires last <= now && PeriodicTics(a) > 0 && Sec(last) == Sec(now)
    ensures PeriodicEdge(now % FREQ, last % FREQ, PeriodicTics(a)) <==> PassedMiddle(last, now, PeriodicTics(a))
  {
    PeriodicFlagIff(last, now, a);
  }

  /** A full second in which the flag is not raised, and a tick in which it is raised although nothing was passed. */
  lemma PeriodicFlagExamples(a: byte, tics: nat)
    requires tics == PeriodicTics(a) && tics == 1024
    ensures PassedMiddle(0, 32768, tics) && !PeriodicEdge(32768 % FREQ, 0 % FREQ, tics)
    ensures !PassedMiddle(32767, 32768, tics) && PeriodicEdge(32768 % FREQ, 32767 % FREQ, tics)
  {
  }

  /** Some second in (from, to] matches the alarm. */
  ghost predicate AlarmBetween(ram: Ram, from: int, to: int) {
    ValidAlarm(AlarmOf(ram)) && exists t: nat :: from < t <= to && Matches(AlarmOf(ram), t)
  }

  class Rtc146818 {
    const regs: array<byte>
    var last: u64
    var irqs: seq<Irq>

    ghost predicate Valid()
      reads this, regs
    {
      regs.Length == 128
    }

    function Contents(): Ram
      requires Valid()
      reads this, regs
    {
      regs[..]
    }

    /** `set_irqflags`: bit 7 summarises the enabled flags, and its changes drive the irq line. */
    method SetIrqFlags(value: byte)
      requires Valid()
      modifies this`irqs, regs
      ensures Valid()
      ensures forall i :: 0 <= i < 128 && i != 0xc ==> regs[i] == old(regs[i])
      ensures var b := regs[0xb];
              regs[0xc] == if (Bit(b, 0x10) && Bit(value, 0x10)) || (Bit(b, 0x20) && Bit(value, 0x20))
                              || (Bit(b, 0x40) && Bit(value, 0x40)) then SetBit(value, 0x80) else value
      ensures irqs == old(irqs) + (if Bit(old(regs[0xc]), 0x80) == Bit(regs[0xc], 0x80) then []
                                   else [if Bit(regs[0xc], 0x80) then AssertNotify else Deassert])
    {
      var oldValue := regs[0xc];
      regs[0xc] := value;
      if (Bit(regs[0xb], 0x10) && Bit(value, 0x10)) || (Bit(regs[0xb], 0x20) && Bit(value, 0x20))
         || (Bit(regs[0xb], 0x40) && Bit(value, 0x40)) {
        regs[0xc] := SetBit(regs[0xc], 0x80);
      }
      if Bit(oldValue, 0x80) != Bit(regs[0xc], 0x80) {
        irqs := irqs + [if Bit(regs[0xc], 0x80) then AssertNotify else Deassert];
      }
    }

    /** Raises one flag. */
    method RaiseFlag(mask: nat)
      requires Valid() && (mask == 0x10 || mask == 0x20 || mask == 0x40)
      modifies this`irqs, regs
      ensures Valid()
      ensures forall i :: 0 <= i < 128 && i != 0xc ==> regs[i] == old(regs[i])
      ensures RaisedOnly(old(Contents()), Contents(), mask)
    {
      SetBitSetsOnly(regs[0xc], mask);
      SetBitSetsOnly(SetBit(regs[0xc], mask), 0x80);
      SetIrqFlags(SetBit(regs[0xc], mask));
    }

    /** The hour register: in 12h format the PM bit is added and zero becomes twelve. */
    method WriteHour(binary: bool, mode24: bool, hour: nat)
      requires Valid() && hour < 24
      modifies regs
      ensures regs[4] == EncodeHour(binary, mode24, hour)
      ensures forall i :: 0 <= i < 128 && i != 4 ==> regs[i] == old(regs[i])
    {
      regs[4] := Convert(binary, hour);
      if !mode24 {
        var pm, h := if hour >= 12 then 0x80 else 0, hour % 12;
        if h == 0 {
          h := 12;
        }
        assert h == Hour12(hour);
        HourLeavesPmFree(binary, h);
        regs[4] := pm + Convert(binary, h);
      }
    }

    /** The register writes of `update_ram`. */
    method WriteTime(tm: Tm)
      requires Valid() && ValidTm(tm) && tm.year < 10000 && 0 <= tm.wday < 7
      modifies regs
      ensures Valid() && Encodes(Contents(), tm)
      ensures forall i :: 0 <= i < 128 && i !in TIME_REGISTERS ==> regs[i] == old(regs[i])
    {
      var binary, mode24 := BinaryMode(regs[..]), Mode24h(regs[..]);
      regs[0] := Convert(binary, tm.sec);
      regs[2] := Convert(binary, tm.min);
      WriteHour(binary, mode24, tm.hour);
      regs[6] := Convert(binary, tm.wday);
      regs[7] := Convert(binary, tm.mday);
      regs[8] := Convert(binary, tm.mon);
      regs[9] := Convert(binary, tm.year % 100);
      regs[0x32] := Convert(binary, tm.year / 100);
      assert BinaryMode(regs[..]) == binary && Mode24h(regs[..]) == mode24;
    }

    /** `update_ram`: for the years 1970 to 9999 the stored time is exactly `seconds`. */
    method UpdateRam(seconds: int) returns (ghost stored: Tm)
      requires Valid() && 0 <= seconds < YEAR_10000
      modifies this`irqs, regs
      ensures Valid()
      ensures RamTime(Contents()) == seconds
      ensures EncodesSecond(Contents(), stored, seconds)
      ensures SameProgramming(old(Contents()), Contents())
      ensures RaisedOnly(old(Contents()), Contents(), 0x10)
    {
      var tm := GmTime(seconds);
      StoredYear(tm);
      WriteTime(tm);
      ghost var written := Contents();
      RaiseFlag(0x10);
      EncodedSecond(written, Contents(), tm, seconds);
      stored := tm;
    }

    /**
     `update_cycle`: unless the clock is stopped, the stored time advances by the elapsed
     counter seconds, whatever the registers held before, and the alarm flag is raised
     iff a matching second passed. With SET only the periodic flag is served, and with
     the divider in reset nothing happens.
     */
    method UpdateCycle(now: u64) returns (fnow: nat)
      requires Valid()
      requires Running(Contents()) ==> RamTime(Contents()) + 2 * 86400 < NEVER
                                       && Advance(RamTime(Contents()), now, last) < YEAR_10000
      modifies this, regs
      ensures Valid() && fnow == now % FREQ
      ensures old(DividerReset(Contents())) ==> Contents() == old(Contents()) && last == old(last)
      ensures !old(DividerReset(Contents())) ==> last == now
      ensures RamTime(Contents()) == old(if Running(Contents()) then Advance(RamTime(Contents()), now, last)
                                         else RamTime(Contents()))
      ensures SameProgramming(old(Contents()), Contents())
      ensures AlarmFlag(Contents()) ==
              old(AlarmFlag(Contents()) ||
                  (Running(Contents()) &&
                   AlarmBetween(Contents(), RamTime(Contents()), Advance(RamTime(Contents()), now, last))))
      ensures UpdateFlag(Contents()) ==
              old(UpdateFlag(Contents()) || (Running(Contents()) && Sec(now) != Sec(last)))
      ensures PeriodicFlag(Contents()) ==
              old(PeriodicFlag(Contents()) ||
                  (!DividerReset(Contents()) &&
                   PeriodicEdge(now % FREQ, last % FREQ, PeriodicTics(Contents()[0xa]))))
    {
      fnow := now % FREQ;
      if DividerReset(regs[..]) {
        return;
      }
      var flast := last % FREQ;
      if PeriodicEdge(fnow, flast, PeriodicTics(regs[0xa])) {
        RaiseFlag(0x40);
      }
      ghost var before := Contents();
      TimeUnaffected(old(Contents()), before);
      SameProgrammingKeepsAlarm(old(Contents()), before);
      if !SetMode(regs[..]) && Sec(now) != Sec(last) {
        NextSecond(now);
      }
      last := now;
    }

    /** The update of the time and the alarm flag in `update_cycle`. */
    method NextSecond(now: u64)
      requires Valid()
      requires RamTime(Contents()) + 2 * 86400 < NEVER
      requires Advance(RamTime(Contents()), now, last) < YEAR_10000
      modifies this`irqs, regs
      ensures Valid()
      ensures RamTime(Contents()) == old(Advance(RamTime(Contents()), now, last))
      ensures SameProgramming(old(Contents()), Contents())
      ensures AlarmFlag(Contents()) ==
              old(AlarmFlag(Contents()) ||
                  AlarmBetween(Contents(), RamTime(Contents()), Advance(RamTime(Contents()), now, last)))
      ensures UpdateFlag(Contents()) && PeriodicFlag(Contents()) == old(PeriodicFlag(Contents()))
    {
      var lastSeconds := RamTime(regs[..]);
      var seconds := Advance(lastSeconds, now, last);
      var _ := UpdateRam(seconds);
      ghost var after := Contents();
      var next := NextAlarm(regs[..], lastSeconds);
      if next <= seconds {
        RaiseFlag(0x20);
      }
      TimeUnaffected(after, Contents());
      SameProgrammingKeepsAlarm(old(Contents()), after);
      if ValidAlarm(AlarmOf(after)) {
        AlarmPassed(AlarmOf(after), lastSeconds, next, seconds);
      }
    }
  }

  /** The flag register is not part of the time. */
  lemma TimeUnaffected(a: Ram, b: Ram)
    requires forall i :: 0 <= i < 128 && i != 0xc ==> a[i] == b[i]
    ensures RamTime(a) == RamTime(b)
  {
    assert a[0xb] == b[0xb];
    assert forall i :: 0 <= i < 10 || i == 0x32 ==> Value(a, i) == Value(b, i);
    assert Fields(a) == Fields(b);
  }

  /** The registers hold the second that was written, whatever happens to the flags. */
  lemma EncodedSecond(written: Ram, ram: Ram, tm: Tm, seconds: int)
    requires ValidTm(tm) && DerivedFields(tm) && SecondsOf(tm) == seconds && 0 <= seconds < YEAR_10000
    requires 1970 <= tm.year < 10000 && 0 <= tm.wday < 7
    requires Encodes(written, tm) && forall i :: 0 <= i < 128 && i != 0xc ==> written[i] == ram[i]
    ensures RamTime(ram) == seconds && EncodesSecond(ram, tm, seconds)
  {
    EncodedTimeReadsBack(written, tm);
    TimeUnaffected(written, ram);
    EncodesUnaffected(written, ram, tm);
  }

  lemma EncodesUnaffected(a: Ram, b: Ram, tm: Tm)
    requires forall i :: 0 <= i < 128 && i != 0xc ==> a[i] == b[i]
    requires ValidTm(tm) && tm.year < 10000 && 0 <= tm.wday < 7
    ensures Encodes(a, tm) ==> Encodes(b, tm)
  {
    assert a[0xb] == b[0xb];
    assert BinaryMode(a) == BinaryMode(b) && Mode24h(a) == Mode24h(b);
  }

  /**
   Over any sequence of update cycles the clock neither drifts nor misses an alarm: how
   often it is polled makes no difference to the time it holds or to the alarm flag.
   */
  method RunCycles(rtc: Rtc146818, nows: seq<u64>)
    requires rtc.Valid() && Running(rtc.Contents())
    requires forall i :: 0 <= i < |nows| ==> rtc.last <= nows[i]
    requires forall i, j :: 0 <= i < j < |nows| ==> nows[i] <= nows[j]
    requires |nows| > 0
    requires RamTime(rtc.Contents()) + Sec(nows[|nows| - 1]) - Sec(rtc.last) < YEAR_10000
    modifies rtc, rtc.regs
    ensures rtc.Valid() && InTime(old(rtc.Contents()), old(rtc.last), rtc.Contents(), nows[|nows| - 1])
  {
    ghost var ram0, last0 := rtc.Contents(), rtc.last;
    ghost var end := nows[|nows| - 1];
    StartsInTime(ram0, last0);
    for k := 0 to |nows|
      invariant rtc.Valid() && InTime(ram0, last0, rtc.Contents(), rtc.last)
      invariant rtc.last == (if k == 0 then last0 else nows[k - 1]) && last0 <= rtc.last <= end
    {
      SecMonotone(nows[k], end);
      OneCycle(rtc, nows[k], ram0, last0);
    }
  }

  /** What has happened since the registers were `ram0` at counter value `last0`. */
  ghost predicate InTime(ram0: Ram, last0: u64, ram: Ram, last: u64) {
    && SameProgramming(ram0, ram)
    && RamTime(ram) == RamTime(ram0) + Sec(last) - Sec(last0)
    && AlarmFlag(ram) == (AlarmFlag(ram0) || AlarmBetween(ram0, RamTime(ram0), RamTime(ram)))
  }

  lemma StartsInTime(ram: Ram, last: u64)
    ensures InTime(ram, last, ram, last)
  {
  }

  method OneCycle(rtc: Rtc146818, now: u64, ghost ram0: Ram, ghost last0: u64)
    requires rtc.Valid() && Running(ram0) && InTime(ram0, last0, rtc.Contents(), rtc.last)
    requires last0 <= rtc.last <= now && RamTime(ram0) + Sec(now) - Sec(last0) < YEAR_10000
    modifies rtc, rtc.regs
    ensures rtc.Valid() && rtc.last == now && InTime(ram0, last0, rtc.Contents(), now)
  {
    SecMonotone(last0, rtc.last);
    SecMonotone(rtc.last, now);
    ghost var ram1 := rtc.Contents();
    SameProgrammingKeepsAlarm(ram0, ram1);
    var _ := rtc.UpdateCycle(now);
    NextCycle(ram0, ram1, rtc.Contents(), RamTime(ram0), RamTime(ram1), RamTime(rtc.Contents()));
  }

  /** One more cycle: the programming stays, and the alarms of both parts are those of the whole. */
  lemma NextCycle(ram0: Ram, ram1: Ram, ram2: Ram, t0: int, t1: int, t2: int)
    requires SameProgramming(ram0, ram1) && SameProgramming(ram1, ram2) && t0 <= t1 <= t2
    ensures SameProgramming(ram0, ram2)
    ensures AlarmBetween(ram0, t0, t2) == (AlarmBetween(ram0, t0, t1) || AlarmBetween(ram1, t1, t2))
  {
    SameProgrammingKeepsAlarm(ram0, ram1);
    AlarmBetweenSplits(ram0, t0, t1, t2);
  }

  lemma AlarmBetweenSplits(ram: Ram, t0: int, t1: int, t2: int)
    requires t0 <= t1 <= t2
    ensures AlarmBetween(ram, t0, t2) == (AlarmBetween(ram, t0, t1) || AlarmBetween(ram, t1, t2))
  {
  }
}
