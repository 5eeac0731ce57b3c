/**
 The register encodings and the alarm search of model/rtc146818.cc.

 The alarm registers hold an hour/minute/second pattern in which any component may
 be a wildcard. `Matches` is what the pattern means; `NextAlarm` is the period and
 subrange arithmetic with which the source finds the next matching second.
 */
module RtcRegisters {
  import opened Common
  import opened Multiples

  type Ram = r: seq<byte> | |r| == 128 witness seq(128, _ => 0)

  /** The bit of `v` selected by `mask`, a power of two. */
  predicate Bit(v: byte, mask: nat)
    requires mask == 0x10 || mask == 0x20 || mask == 0x40 || mask == 0x80
  {
    if mask == 0x10 then v % 32 >= 16
    else if mask == 0x20 then v % 64 >= 32
    else if mask == 0x40 then v % 128 >= 64
    else v >= 128
  }

  predicate BinaryMode(ram: Ram) { ram[0xb] % 8 >= 4 }

  predicate Mode24h(ram: Ram) { ram[0xb] % 4 >= 2 }

  /** `to_bcd` and `from_bcd` on an unsigned char. */
  function ToBcd(v: byte): byte
    requires v < 100
  {
    v / 10 * 16 + v % 10
  }

  function FromBcd(v: byte): byte { v % 16 + v / 16 * 10 }

  /** Registers hold binary or BCD values, depending on a mode bit. */
  function Decode(binary: bool, v: byte): byte { if binary then v else FromBcd(v) }

  function Convert(binary: bool, v: byte): byte
    requires v < 100
  {
    if binary then v else ToBcd(v)
  }

  lemma BcdRoundTrip(v: byte)
    requires v < 100
    ensures FromBcd(ToBcd(v)) == v
    ensures v < 80 ==> ToBcd(v) < 0x80
  {
  }

  lemma ConvertRoundTrip(binary: bool, v: byte)
    requires v < 100
    ensures Decode(binary, Convert(binary, v)) == v
    ensures v < 80 ==> Convert(binary, v) < 0x80
  {
    BcdRoundTrip(v);
  }

  /** `ram`: a time register converted from BCD and from 12h format. */
  function Value(ram: Ram, index: nat): byte
    requires index < 0xa || index == 0x32
  {
    if (index == 4 || index == 5) && !Mode24h(ram) then
      var low := ram[index] % 128;
      var hour := Decode(BinaryMode(ram), low) % 12;
      if ram[index] >= 0x80 then hour + 12 else hour
    else if index == 0 then Decode(BinaryMode(ram), ram[0] % 128)
    else Decode(BinaryMode(ram), ram[index])
  }

  // ---------------------------------------------------------------- alarm pattern

  /** The alarm registers after decoding: a value and a wildcard mark for each component. */
  datatype Alarm = Alarm(wildSec: bool, sec: nat, wildMin: bool, min: nat, wildHour: bool, hour: nat)

  function AlarmOf(ram: Ram): Alarm {
    Alarm(ram[1] >= 0xc0, Value(ram, 1), ram[3] >= 0xc0, Value(ram, 3), ram[5] >= 0xc0, Value(ram, 5))
  }

  /** Every component is a wildcard or a possible time. */
  predicate ValidAlarm(a: Alarm) {
    (a.wildSec || a.sec < 60) && (a.wildMin || a.min < 60) && (a.wildHour || a.hour < 24)
  }

  function Second(t: nat): nat { t % 60 }

  function Minute(t: nat): nat { t / 60 % 60 }

  function Hour(t: nat): nat { t / 3600 % 24 }

  /** The alarm fires at second t. */
  predicate Matches(a: Alarm, t: nat) {
    && (a.wildSec || Second(t) == a.sec)
    && (a.wildMin || Minute(t) == a.min)
    && (a.wildHour || Hour(t) == a.hour)
  }

  ghost predicate IsNextAlarm(a: Alarm, s: nat, r: nat) {
    && s < r
    && Matches(a, r)
    && forall t :: s < t < r ==> !Matches(a, t)
  }

  // ---------------------------------------------------------------- period arithmetic

  function Period(w: nat): nat
    requires w < 8
  {
    if w < 4 then 86400 else if w < 6 then 3600 else if w == 6 then 60 else 1
  }

  function Subrange(w: nat): nat
    requires w < 8
  {
    if w == 1 || w == 5 then 59 else if w == 2 then 59 * 60 else if w == 3 then 3599 else 0
  }

  /** The bit field and the start that the loop of `next_alarm` gathers. */
  function Wildcards(a: Alarm): (w: nat)
    ensures w < 8
  {
    (if a.wildSec then 1 else 0) + (if a.wildMin then 2 else 0) + (if a.wildHour then 4 else 0)
  }

  function Start(a: Alarm): nat {
    (if a.wildSec then 0 else a.sec) + (if a.wildMin then 0 else 60 * a.min) + (if a.wildHour then 0 else 3600 * a.hour)
  }

  /** Where in its period a matching second lies. */
  predicate InPattern(w: nat, start: nat, x: nat)
    requires w < 8
  {
    start <= x <= start + Subrange(w) && (w == 2 ==> x % 60 == start % 60)
  }

  /** The offset of a second in the three longer periods. */
  lemma Decompose(t: nat)
    ensures t % 86400 == 3600 * Hour(t) + 60 * Minute(t) + Second(t)
    ensures t % 3600 == 60 * Minute(t) + Second(t)
    ensures Hour(t) < 24 && Minute(t) < 60 && Second(t) < 60
  {
    var minutes, s := t / 60, t % 60;
    var hours, m := minutes / 60, minutes % 60;
    var days, h := hours / 24, hours % 24;
    DivideBy(t, 3600, hours, 60 * m + s);
    DivideBy(t, 86400, days, 3600 * h + 60 * m + s);
  }

  predicate IsPeriod(p: int) { p == 86400 || p == 3600 || p == 60 || p == 1 }

  /** The offset of hour h, minute m, second s in the period. */
  function OffsetOf(w: nat, h: nat, m: nat, s: nat): nat {
    if w < 4 then 3600 * h + 60 * m + s else if w < 6 then 60 * m + s else if w == 6 then s else 0
  }

  lemma StartInPeriod(a: Alarm)
    requires ValidAlarm(a)
    ensures Start(a) + Subrange(Wildcards(a)) < Period(Wildcards(a))
  {
  }

  /** The pattern in terms of hour, minute and second. */
  lemma PatternByComponents(a: Alarm, h: nat, m: nat, s: nat)
    requires ValidAlarm(a) && h < 24 && m < 60 && s < 60
    ensures InPattern(Wildcards(a), Start(a), OffsetOf(Wildcards(a), h, m, s)) <==>
            (a.wildSec || s == a.sec) && (a.wildMin || m == a.min) && (a.wildHour || h == a.hour)
  {
    if Wildcards(a) == 2 {
      EveryMinutePattern(a.hour, a.sec, h, m, s);
    } else if !a.wildHour && !a.wildMin {
      assert Wildcards(a) < 2;
    }
  }

  /** With a wildcard in the minutes only, the pattern has a granularity of 60 seconds. */
  lemma EveryMinutePattern(hour: nat, sec: nat, h: nat, m: nat, s: nat)
    requires hour < 24 && sec < 60 && h < 24 && m < 60 && s < 60
    ensures InPattern(2, sec + 3600 * hour, 3600 * h + 60 * m + s) <==> h == hour && s == sec
  {
    SecondOf(h, m, s);
    SecondOf(hour, 0, sec);
    assert 3600 * hour + 60 * 0 + sec == sec + 3600 * hour;
  }

  lemma SecondOf(h: nat, m: nat, s: nat)
    requires s < 60
    ensures (3600 * h + 60 * m + s) % 60 == s
  {
    DivideBy(3600 * h + 60 * m + s, 60, 60 * h + m, s);
  }

  /** Matching is a condition on the offset in the period alone. */
  lemma MatchesByOffset(a: Alarm, t: nat)
    requires ValidAlarm(a)
    ensures Matches(a, t) <==> InPattern(Wildcards(a), Start(a), t % Period(Wildcards(a)))
    ensures Start(a) + Subrange(Wildcards(a)) < Period(Wildcards(a))
  {
    Decompose(t);
    StartInPeriod(a);
    PatternByComponents(a, Hour(t), Minute(t), Second(t));
  }

  /** The offset chosen by `next_alarm`, relative to the begin of the current period. */
  function Chosen(w: nat, start: nat, now: nat): nat
    requires w < 8
  {
    if now <= start then start
    else if now <= start + Subrange(w) then (if w == 2 then NextWithSecond(now, start % 60) else now)
    else Period(w) + start
  }

  /** The first offset not before `now` with the given second in its minute. */
  function NextWithSecond(now: nat, sec: nat): nat
    requires sec < 60
  {
    (if now % 60 > sec then now + 60 else now) + sec - now % 60
  }

  lemma NextWithSecondIsFirst(now: nat, sec: nat)
    requires sec < 60
    ensures now <= NextWithSecond(now, sec) < now + 60 && NextWithSecond(now, sec) % 60 == sec
    ensures forall y :: now <= y < NextWithSecond(now, sec) ==> y % 60 != sec
  {
    var k, r := now / 60, now % 60;
    assert now == 60 * k + r;
    SecondOf(0, if r > sec then k + 1 else k, sec);
  }

  lemma DivMod(t: nat, p: nat)
    requires IsPeriod(p)
    ensures t == (t / p) * p + t % p && t % p < p
  {
  }

  /** Offsets of at most two periods. */
  lemma OffsetMod(q: nat, p: nat, y: nat)
    requires IsPeriod(p) && y < 2 * p
    ensures (q * p + y) % p == (if y < p then y else y - p)
  {
    if y < p {
      DivideBy(q * p + y, p, q, y);
    } else {
      DivideBy(q * p + y, p, q + 1, y - p);
    }
  }

  predicate OffsetInPattern(w: nat, start: nat, y: nat)
    requires w < 8 && y < 2 * Period(w)
  {
    InPattern(w, start, if y < Period(w) then y else y - Period(w))
  }

  /** The chosen offset is the first one in the pattern not before `now`. */
  lemma ChosenIsFirst(w: nat, start: nat, now: nat)
    requires w < 8 && start + Subrange(w) < Period(w) && now < Period(w)
    ensures now <= Chosen(w, start, now) < 2 * Period(w)
    ensures OffsetInPattern(w, start, Chosen(w, start, now))
    ensures forall y :: now <= y < Chosen(w, start, now) ==> !OffsetInPattern(w, start, y)
  {
    if w == 2 && start < now <= start + Subrange(w) {
      NextWithSecondIsFirst(now, start % 60);
      NextInRange(now, start);
    }
  }

  /** The next offset with the second of the start is not after the last minute. */
  lemma NextInRange(now: nat, start: nat)
    requires now <= start + 59 * 60
    ensures NextWithSecond(now, start % 60) <= start + 59 * 60
  {
    NextWithSecondIsFirst(now, start % 60);
    SecondOf(0, start / 60 + 59, start % 60);
  }

  /** A second given by its period and its offset matches iff the offset is in the pattern. */
  lemma MatchesAt(a: Alarm, q: nat, y: nat)
    requires ValidAlarm(a) && y < 2 * Period(Wildcards(a))
    ensures Matches(a, q * Period(Wildcards(a)) + y) <==> OffsetInPattern(Wildcards(a), Start(a), y)
  {
    var p := Period(Wildcards(a));
    MatchesByOffset(a, q * p + y);
    OffsetMod(q, p, y);
  }

  lemma NextAlarmIsLeast(a: Alarm, base: nat, q: nat, now: nat)
    requires ValidAlarm(a) && now < Period(Wildcards(a)) && 1 <= base + now
    requires base == q * Period(Wildcards(a))
    ensures IsNextAlarm(a, base + now - 1, base + Chosen(Wildcards(a), Start(a), now))
    ensures Chosen(Wildcards(a), Start(a), now) < 2 * 86400
  {
    var x := Chosen(Wildcards(a), Start(a), now);
    MatchesByOffset(a, 0);
    ChosenIsFirst(Wildcards(a), Start(a), now);
    MatchesAt(a, q, x);
    forall t | base + now <= t < base + x
      ensures !Matches(a, t)
    {
      MatchesAt(a, q, t - base);
    }
  }

  /** The loop of `next_alarm`: gathers wildcards and start, or finds an impossible component. */
  method GatherAlarm(ram: Ram) returns (valid: bool, wildcards: nat, start: nat)
    ensures valid <==> ValidAlarm(AlarmOf(ram))
    ensures valid ==> wildcards == Wildcards(AlarmOf(ram)) && start == Start(AlarmOf(ram))
  {
    start, wildcards := 0, 0;
    ghost var a := AlarmOf(ram);
    var p: nat := 1;
    for i := 0 to 3
      invariant p == if i == 0 then 1 else if i == 1 then 60 else if i == 2 then 3600 else 216000
      invariant i > 0 ==> a.wildSec || a.sec < 60
      invariant i > 1 ==> a.wildMin || a.min < 60
      invariant i > 2 ==> a.wildHour || a.hour < 24
      invariant wildcards == (if i > 0 && a.wildSec then 1 else 0) + (if i > 1 && a.wildMin then 2 else 0)
                             + (if i > 2 && a.wildHour then 4 else 0)
      invariant start == (if i == 0 || a.wildSec then 0 else a.sec) + (if i <= 1 || a.wildMin then 0 else 60 * a.min)
                         + (if i <= 2 || a.wildHour then 0 else 3600 * a.hour)
    {
      if ram[2 * i + 1] >= 0xc0 {
        wildcards := wildcards + (if i == 0 then 1 else if i == 1 then 2 else 4);
      } else {
        var v: nat := Value(ram, 2 * i + 1);
        if v >= 60 || (i == 2 && v >= 24) {
          return false, 0, 0;
        }
        start := start + p * v;
      }
      p := p * 60;
    }
    valid := true;
  }

  /**
   `next_alarm`: the least second after `seconds` that matches the alarm pattern, for
   all eight combinations of wildcards, and ~0 exactly if a component is no time at all.
   */
  method NextAlarm(ram: Ram, seconds: nat) returns (r: nat)
    requires seconds + 2 * 86400 < NEVER
    ensures ValidAlarm(AlarmOf(ram)) <==> r != NEVER
    ensures ValidAlarm(AlarmOf(ram)) ==> IsNextAlarm(AlarmOf(ram), seconds, r)
  {
    ghost var a := AlarmOf(ram);
    var valid, wildcards, start := GatherAlarm(ram);
    if !valid {
      return NEVER;
    }
    r := FindAlarm(a, wildcards, start, seconds);
  }

  /** The part of `next_alarm` after the loop. */
  method FindAlarm(ghost a: Alarm, wildcards: nat, start: nat, seconds: nat) returns (r: nat)
    requires ValidAlarm(a) && wildcards == Wildcards(a) && start == Start(a)
    ensures IsNextAlarm(a, seconds, r) && r < seconds + 2 * 86400 + 1
  {
    var next := seconds + 1;
    var period := [86400, 86400, 86400, 86400, 3600, 3600, 60, 1][wildcards];
    var subrange := [0, 59, 59 * 60, 3599, 0, 59, 0, 0][wildcards];
    DivMod(next, period);
    var base, now := (next / period) * period, next % period;
    NextAlarmIsLeast(a, base, next / period, now);
    if now <= start {
      r := base + start;
    } else if now <= start + subrange {
      if wildcards == 2 {
        var r60 := now % 60;
        if r60 > start % 60 {
          now := now + 60;
        }
        now := now + (start % 60 - r60);
      }
      r := base + now;
    } else {
      r := base + period + start;
    }
  }

  /** The comparison in `update_cycle`: the next alarm is due iff a matching second was passed. */
  lemma AlarmPassed(a: Alarm, last: nat, r: nat, now: nat)
    requires IsNextAlarm(a, last, r)
    ensures r <= now <==> exists t :: last < t <= now && Matches(a, t)
  {
    if r <= now {
      assert last < r <= now && Matches(a, r);
    }
  }
}
