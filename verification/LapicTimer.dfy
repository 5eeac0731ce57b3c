/**
 The timer of the local APIC (model/lapic.cc): the current count is derived from the time of
 the last start, `get_ccr` moves that time forward by whole periods, `update_timer` programs
 a host timeout, and the divider can be changed while the timer runs.

 Times are 64-bit values that wrap, as in the source: a change of the divider can move the
 start of the period before time 0.
 */
module LapicTimer {
  import opened Common
  import opened Multiples

  /**
   `ict` is the initial count, `start` the begin of the current period or 0 if the timer is
   stopped, `unit` the clock ticks per count (a power of two, the source shifts instead).
   */
  datatype Timer = Timer(ict: nat, start: u64, unit: nat, periodic: bool, masked: bool)

  /** Result of `get_ccr`: the count, whether the LVT entry was triggered, and the new state. */
  datatype Reading = Reading(count: nat, fired: bool, timer: Timer)

  predicate Valid(t: Timer) { t.unit > 0 }

  predicate Armed(t: Timer) { t.ict != 0 && t.start != 0 }

  /** Ticks since the start of the period. */
  function Since(t: Timer, now: u64): u64 { Wrap64(now - t.start) }

  /** Counts since the start of the period. */
  function Elapsed(t: Timer, now: u64): nat
    requires Valid(t)
  {
    Quot(Since(t, now), t.unit)
  }

  /** The ticks of a period, ict * unit. */
  function Period(t: Timer): nat { Times(t.ict, t.unit) }

  /** The timer with its start moved by k periods. */
  function Moved(t: Timer, k: nat): Timer { t.(start := Wrap64(t.start + Times(k, Period(t)))) }

  /** `get_ccr`: the start moves by the whole periods that have passed. */
  function GetCcr(t: Timer, now: u64): Reading
    requires Valid(t)
  {
    if !Armed(t) then Reading(0, false, t)
    else
      var delta := Elapsed(t, now);
      if delta < t.ict then Reading(t.ict - delta, false, t)
      else if !t.periodic then Reading(0, true, t.(start := 0))
      else
        var k := Quot(delta, t.ict);
        QuotBounds(delta, t.ict);
        Reading(t.ict - (delta - Times(k, t.ict)), true, Moved(t, k))
  }

  // ---------------------------------------------------------------- readings in ticks

  /**
   A read in terms of the ticks since the start: it fires iff a whole period has passed, and counts down from the
   initial count in the current period; a one-shot timer then stops.
   */
  lemma ReadingInTicks(t: Timer, now: u64)
    requires Valid(t) && t.ict > 0 && t.start > 0
    ensures var since: nat := (now - t.start) % 0x1_0000_0000_0000_0000;
            var r := GetCcr(t, now);
            && (r.fired <==> since >= t.ict * t.unit)
            && (!r.fired ==> r.timer == t && r.count == t.ict - since / t.unit)
            && (r.fired && !t.periodic ==> r.timer == t.(start := 0) && r.count == 0)
            && (r.fired && t.periodic ==> r.count == t.ict - since / t.unit % t.ict)
  {
    var since := Since(t, now);
    QuotIsDivision(since, t.unit);
    QuotIsDivision(since / t.unit, t.ict);
    PeriodPassed(since, t.ict, t.unit);
  }

  lemma PeriodPassed(since: nat, ict: nat, unit: nat)
    requires unit > 0
    ensures since >= ict * unit <==> Quot(since, unit) >= ict
  {
    TimesIsProduct(ict, unit);
    QuotBounds(since, unit);
    TimesMonotone(ict, Quot(since, unit), unit);
    TimesMonotone(Quot(since, unit), ict, unit);
  }

  // ---------------------------------------------------------------- 64-bit times

  /** Moving the start by k ticks that have passed takes k off the time since the start. */
  lemma SinceMoved(now: u64, start: u64, k: nat)
    requires k <= Wrap64(now - start)
    ensures Wrap64(now - Wrap64(start + k)) == Wrap64(now - start) - k
  {
  }

  /** Where that start is. */
  lemma StartMoved(now: u64, start: u64, k: nat)
    requires k <= Wrap64(now - start)
    ensures start <= now ==> Wrap64(now - start) == now - start && Wrap64(start + k) == start + k
    ensures start > now ==>
              && Wrap64(now - start) == now + (0x1_0000_0000_0000_0000 - start)
              && Wrap64(start + k) == if start + k < 0x1_0000_0000_0000_0000 then start + k
                                      else start + k - 0x1_0000_0000_0000_0000
  {
  }

  /** Moving the start behind `now` by k ticks. */
  lemma SinceSet(now: u64, k: nat)
    ensures Wrap64(now - Wrap64(now - k)) == Wrap64(k)
    ensures Wrap64(now - k) == 0 <==> now == Wrap64(k)
  {
  }

  lemma AddPeriods(start: u64, a: nat, b: nat, period: nat)
    ensures Wrap64(Wrap64(start + Times(a, period)) + Times(b, period)) == Wrap64(start + Times(a + b, period))
  {
    TimesAdd(a, b, period);
    WrapSum(start + Times(a, period), Times(b, period));
  }

  lemma MovedTwice(t: Timer, a: nat, b: nat)
    ensures Moved(Moved(t, a), b) == Moved(t, a + b)
  {
    AddPeriods(t.start, a, b, Period(t));
  }

  // ---------------------------------------------------------------- the phase of a periodic timer

  /** `now` lies in the period, and `count` is what remains of it. */
  predicate InPeriod(t: Timer, now: u64, count: nat) {
    && t.unit > 0 && 0 < count <= t.ict
    && Times(t.ict - count, t.unit) <= Since(t, now) < Times(t.ict - count, t.unit) + t.unit
  }

  lemma WithinPeriod(t: Timer, now: u64, count: nat)
    requires InPeriod(t, now, count)
    ensures Since(t, now) < Period(t)
  {
    TimesMonotone(t.ict - count, t.ict, t.unit);
  }

  /** The whole periods in x ticks, and the counts of the rest. */
  lemma WholePeriods(x: nat, unit: nat, ict: nat)
    requires unit > 0 && ict > 0
    ensures var d := Quot(x, unit);
            var k := Quot(d, ict);
            var moved := Times(k, Times(ict, unit));
            && moved <= x < moved + Times(ict, unit)
            && 0 <= d - Times(k, ict) < ict
            && Times(d - Times(k, ict), unit) <= x - moved < Times(d - Times(k, ict), unit) + unit
  {
    var d := Quot(x, unit);
    var k := Quot(d, ict);
    QuotBounds(x, unit);
    QuotBounds(d, ict);
    TimesTimes(k, ict, unit);
    TimesAdd(Times(k, ict), d - Times(k, ict), unit);
    TimesMonotone(d - Times(k, ict), ict, unit);
  }

  lemma MovedIntoPeriod(t: Timer, now: u64)
    requires Valid(t) && t.ict > 0
    ensures var d := Elapsed(t, now);
            var k := Quot(d, t.ict);
            0 <= d - Times(k, t.ict) < t.ict && InPeriod(Moved(t, k), now, t.ict - (d - Times(k, t.ict)))
  {
    WholePeriods(Since(t, now), t.unit, t.ict);
    SinceMoved(now, t.start, Times(Quot(Elapsed(t, now), t.ict), Period(t)));
  }

  /** The timer fires on a read iff a period has passed, and `now` then lies in the period it moves to. */
  lemma ReadingFacts(t: Timer, now: u64)
    requires Valid(t) && Armed(t)
    ensures var r := GetCcr(t, now);
            && (r.fired <==> Since(t, now) >= Period(t))
            && (!r.fired ==> r.timer == t)
            && (if r.fired && !t.periodic then r == Reading(0, true, t.(start := 0))
                else InPeriod(r.timer, now, r.count))
  {
    var d := Elapsed(t, now);
    QuotBounds(Since(t, now), t.unit);
    TimesMonotone(d, t.ict, t.unit);
    TimesMonotone(t.ict, d, t.unit);
    MovedIntoPeriod(t, now);
  }

  /** The start of a periodic timer only moves by whole periods. */
  lemma PhaseKept(t: Timer, now: u64)
    requires Valid(t) && Armed(t) && t.periodic
    ensures GetCcr(t, now).timer == Moved(t, Quot(Elapsed(t, now), t.ict))
  {
  }

  lemma CountInPeriod(t: Timer, now: u64, count: nat)
    requires Armed(t) && InPeriod(t, now, count)
    ensures GetCcr(t, now) == Reading(count, false, t)
  {
    QuotUnique(Since(t, now), t.unit, t.ict - count);
  }

  // ---------------------------------------------------------------- reading twice

  /** The ticks that the start lies before time 0, if it was moved there. */
  function Before0(t: Timer): nat { 0x1_0000_0000_0000_0000 - t.start }

  /**
   The start lies before time 0 by whole periods, and time 0 begins the current period: a read
   moves the start to 0, which stops the timer.
   */
  predicate StopsAt0(t: Timer, now: u64)
    requires Valid(t)
  {
    t.start > now && now < Period(t) && Multiple(Before0(t), Period(t))
  }

  /** Moving from x ticks before time 0 by the whole periods passed, k in number. */
  lemma MovedTo0(x: nat, now: nat, period: nat, k: nat)
    requires 0 < x && period > 0 && Times(k, period) <= now + x < Times(k, period) + period
    ensures Times(k, period) == x <==> now < period && Multiple(x, period)
  {
    if now < period && Multiple(x, period) {
      TimesMonotone(Quot(x, period), k, period);
      TimesMonotone(k, Quot(x, period), period);
    } else if Times(k, period) == x {
      QuotUnique(x, period, k);
    }
  }

  /** The start that a read moves to is 0 if and only if it lies before time 0 as just described. */
  lemma MovesTo0Iff(t: Timer, now: u64)
    requires Valid(t) && Armed(t) && t.periodic
    ensures GetCcr(t, now).timer.start == 0 <==> StopsAt0(t, now)
  {
    var k, moved := MoveOfRead(t, now);
    if t.start > now {
      MovedTo0(Before0(t), now, Period(t), k);
    }
  }

  /** A read of a periodic timer moves the start by k periods, and where to. */
  lemma MoveOfRead(t: Timer, now: u64) returns (k: nat, moved: nat)
    requires Valid(t) && Armed(t) && t.periodic
    ensures moved == Times(k, Period(t)) && Period(t) > 0
    ensures t.start <= now ==> && GetCcr(t, now).timer.start == t.start + moved <= now
    ensures t.start > now ==>
              && moved <= now + Before0(t) < moved + Period(t)
              && GetCcr(t, now).timer.start == if moved < Before0(t) then t.start + moved else moved - Before0(t)
  {
    k := Quot(Elapsed(t, now), t.ict);
    moved := Times(k, Period(t));
    PhaseKept(t, now);
    WholePeriods(Since(t, now), t.unit, t.ict);
    TimesMonotone(1, t.ict, t.unit);
    StartMoved(now, t.start, moved);
  }

  predicate ReadsAlike(t: Timer, now: u64)
    requires Valid(t)
  {
    var r := GetCcr(t, now);
    GetCcr(r.timer, now) == Reading(r.count, false, r.timer)
  }

  /**
   Reading the counter again at the same instant changes nothing and fires nothing, if and only
   if the first read does not stop a periodic timer at time 0.
   */
  lemma ReadIsIdempotent(t: Timer, now: u64)
    requires Valid(t)
    ensures ReadsAlike(t, now) <==> !(Armed(t) && t.periodic && StopsAt0(t, now))
  {
    if Armed(t) {
      ReadingFacts(t, now);
      var r := GetCcr(t, now);
      if Armed(r.timer) {
        CountInPeriod(r.timer, now, r.count);
      }
      if t.periodic {
        MovesTo0Iff(t, now);
      }
    }
  }

  /** A timer whose start lies one period before time 0 gives its full count on the first read and stops. */
  lemma SecondReadDiffers(t: Timer)
    requires t == Timer(10, 0xffff_ffff_ffff_ff9c, 10, true, false)
    ensures GetCcr(t, 5).count == 10 && GetCcr(t, 5).timer.start == 0
    ensures GetCcr(GetCcr(t, 5).timer, 5).count == 0
  {
    assert Since(t, 5) == 105 && Before0(t) == 100;
    TimesIsProduct(10, 10);
    QuotUnique(105, 10, 10);
    QuotUnique(10, 10, 1);
    assert Times(1, 10) == 10 && Times(1, 100) == 100;
  }

  // ---------------------------------------------------------------- starts before time 0

  /** The timer does not run, or its start is not after `now`, or less than one period before time 0. */
  predicate Good(t: Timer, now: u64) {
    t.ict == 0 || t.start == 0 || t.start <= now || Before0(t) < Period(t)
  }

  lemma GoodLater(t: Timer, now: u64, later: u64)
    requires Good(t, now) && now <= later
    ensures Good(t, later)
  {
  }

  lemma GoodReadsAlike(t: Timer, now: u64)
    requires Valid(t) && Good(t, now)
    ensures ReadsAlike(t, now)
  {
    ReadIsIdempotent(t, now);
  }

  /** A read keeps a good timer good, and a periodic one running. */
  lemma ReadKeepsGood(t: Timer, now: u64)
    requires Valid(t) && Good(t, now)
    ensures Good(GetCcr(t, now).timer, now)
    ensures Armed(t) && t.periodic ==> Armed(GetCcr(t, now).timer)
  {
    if Armed(t) && t.periodic {
      var k, moved := MoveOfRead(t, now);
      GoodMove(t, now, GetCcr(t, now).timer, k, moved);
    }
  }

  lemma GoodMove(t: Timer, now: u64, r: Timer, k: nat, moved: nat)
    requires Good(t, now) && Armed(t) && r == t.(start := r.start) && moved == Times(k, Period(t))
    requires t.start <= now ==> r.start == t.start + moved <= now
    requires t.start > now ==>
               && moved <= now + Before0(t) < moved + Period(t)
               && r.start == if moved < Before0(t) then t.start + moved else moved - Before0(t)
    ensures Good(r, now) && Armed(r)
  {
    TimesMonotone(1, k, Period(t));
  }

  // ---------------------------------------------------------------- runs of reads

  /** The timer after reads at the given instants. */
  function ReadAll(t: Timer, nows: seq<u64>): (r: Timer)
    requires Valid(t)
    ensures Valid(r)
    decreases |nows|
  {
    if nows == [] then t else ReadAll(GetCcr(t, nows[0]).timer, nows[1..])
  }

  lemma {:induction false} StoppedStaysStopped(t: Timer, nows: seq<u64>)
    requires Valid(t) && !Armed(t)
    ensures ReadAll(t, nows) == t
    decreases |nows|
  {
    if nows != [] {
      StoppedStaysStopped(t, nows[1..]);
    }
  }

  lemma PhaseOfRead(t: Timer, now: u64) returns (t1: Timer, k: nat)
    requires Valid(t) && Armed(t) && t.periodic
    ensures t1 == GetCcr(t, now).timer && t1 == Moved(t, k) && Since(t1, now) < Period(t1)
  {
    PhaseKept(t, now);
    ReadingFacts(t, now);
    t1, k := GetCcr(t, now).timer, Quot(Elapsed(t, now), t.ict);
    WithinPeriod(t1, now, GetCcr(t, now).count);
  }

  /** However often and whenever the counter of a periodic timer is read, its phase stays what it was. */
  lemma {:induction false} PhaseOverAllReads(t: Timer, nows: seq<u64>) returns (k: nat)
    requires Valid(t) && Armed(t) && t.periodic
    ensures ReadAll(t, nows) == Moved(t, k)
    ensures nows != [] && Armed(ReadAll(t, nows)) ==> Since(ReadAll(t, nows), nows[|nows| - 1]) < Period(t)
    decreases |nows|
  {
    if nows == [] {
      k := 0;
    } else {
      var t1;
      t1, k := PhaseOfRead(t, nows[0]);
      if Armed(t1) {
        var k1 := PhaseOverAllReads(t1, nows[1..]);
        MovedTwice(t, k, k1);
        k := k + k1;
      } else {
        StoppedStaysStopped(t1, nows[1..]);
      }
    }
  }

  /** The instants rise from `now` on. */
  ghost predicate Rising(now: u64, nows: seq<u64>) {
    && (forall i :: 0 <= i < |nows| ==> now <= nows[i])
    && (forall i, j :: 0 <= i < j < |nows| ==> nows[i] <= nows[j])
  }

  /** Reads at rising instants keep a good periodic timer running, and every read could be repeated. */
  lemma {:induction false} RisingReadsKeepRunning(t: Timer, now: u64, nows: seq<u64>)
    requires Valid(t) && Armed(t) && t.periodic && Good(t, now) && Rising(now, nows)
    ensures var r := ReadAll(t, nows);
            var end := if nows == [] then now else nows[|nows| - 1];
            Armed(r) && r.periodic && Good(r, end) && ReadsAlike(r, end)
    decreases |nows|
  {
    if nows == [] {
      GoodReadsAlike(t, now);
    } else {
      GoodLater(t, now, nows[0]);
      ReadKeepsGood(t, nows[0]);
      RisingReadsKeepRunning(GetCcr(t, nows[0]).timer, nows[0], nows[1..]);
    }
  }

  // ---------------------------------------------------------------- host timeouts

  /** What is left of the current period, in ticks. */
  function Remaining(t: Timer, now: u64): int { Period(t) - Since(t, now) }

  /** How long `update_timer` waits. */
  function HostDelay(t: Timer, now: u64): nat
    requires Valid(t)
  {
    Times(GetCcr(t, now).count, t.unit)
  }

  /** `update_timer`: the timeout it programs, if any; a masked or stopped timer programs none. */
  function HostTimeout(t: Timer, now: u64): Option<u64>
    requires Valid(t)
  {
    if GetCcr(t, now).count == 0 || t.masked then None else Some(Wrap64(now + HostDelay(t, now)))
  }

  /** The host timeout is never before the expiry and late by less than one count. */
  lemma TimeoutMeetsExpiry(t: Timer, now: u64)
    requires Valid(t) && GetCcr(t, now).count > 0
    ensures var left := Remaining(GetCcr(t, now).timer, now);
            0 < left <= HostDelay(t, now) < left + t.unit
    ensures !t.masked ==> HostTimeout(t, now) == Some(Wrap64(now + HostDelay(t, now)))
  {
    ReadingFacts(t, now);
    var r := GetCcr(t, now);
    EndOfPeriod(r.timer, now, r.count);
  }

  /** In a period, the remaining counts last until its end and less than one count longer. */
  lemma EndOfPeriod(t: Timer, now: u64, count: nat)
    requires InPeriod(t, now, count)
    ensures 0 < Remaining(t, now) <= Times(count, t.unit) < Remaining(t, now) + t.unit
  {
    WithinPeriod(t, now, count);
    TimesAdd(t.ict - count, count, t.unit);
  }

  /** At its start a period has its full count left. */
  lemma FreshPeriod(t: Timer, now: u64)
    requires Valid(t) && t.start == now
    ensures GetCcr(t, now) == Reading(if now == 0 then 0 else t.ict, false, t)
  {
    QuotUnique(0, t.unit, 0);
  }

  // ---------------------------------------------------------------- changing the divider

  /** `_timer_dcr_shift` for a value of the divide configuration register. */
  function DividerShift(clockShift: nat, dcr: nat): nat { clockShift + DividerBits(dcr) }

  function DividerBits(dcr: nat): nat { (dcr % 4 + (dcr / 8 % 2) * 4 + 1) % 8 }

  /** The ticks per count that a value of the divide configuration register selects. */
  function DividerUnit(clockShift: nat, dcr: nat): (unit: nat)
    ensures unit > 0
  {
    Pow2(DividerShift(clockShift, dcr))
  }

  /** The values of the divide configuration register, and the logarithms of the divisors that they stand for. */
  predicate Selects(dcr: nat, log: nat) {
    || (dcr == 0 && log == 1) || (dcr == 1 && log == 2) || (dcr == 2 && log == 3) || (dcr == 3 && log == 4)
    || (dcr == 8 && log == 5) || (dcr == 9 && log == 6) || (dcr == 10 && log == 7) || (dcr == 11 && log == 0)
  }

  /** The clock of the timer is divided as the register says, by 2, 4, 8, 16, 32, 64, 128 or 1. */
  lemma DividerTable(clockShift: nat, dcr: nat, log: nat)
    requires Selects(dcr, log)
    ensures DividerUnit(clockShift, dcr) == Pow2(clockShift + log)
  {
    SelectedBits(dcr, log);
  }

  lemma SelectedBits(dcr: nat, log: nat)
    requires Selects(dcr, log)
    ensures DividerBits(dcr) == log
  {
  }

  lemma CountAtMostInitial(t: Timer, now: u64)
    requires Valid(t)
    ensures GetCcr(t, now).count <= t.ict && GetCcr(t, now).timer.ict == t.ict
  {
    if t.ict > 0 {
      QuotBounds(Elapsed(t, now), t.ict);
    }
  }

  /** The ticks that a new divider makes of the counts done so far. */
  function DoneTicks(t: Timer, now: u64, unit: nat): nat
    requires Valid(t)
  {
    CountAtMostInitial(t, now);
    Times(t.ict - GetCcr(t, now).count, unit)
  }

  /** The divider register: restarts the count in the past, as far as it has come already. */
  function WriteDcr(t: Timer, now: u64, unit: nat): Timer
    requires Valid(t)
  {
    GetCcr(t, now).timer.(unit := unit, start := Wrap64(now - DoneTicks(t, now, unit)))
  }

  /** The count is as before, and nothing is fired by reading it. */
  predicate KeepsCount(t: Timer, now: u64, unit: nat)
    requires Valid(t) && unit > 0
  {
    var after := GetCcr(WriteDcr(t, now, unit), now);
    after.count == GetCcr(t, now).count && !after.fired
  }

  /**
   A change of the divider keeps the current count and fires nothing in exactly these cases:
   there is no initial count; the timer runs, the ticks done fit 64 bits and are not exactly
   `now`; or the timer does not run and the ticks of its initial count are exactly `now`.
   */
  lemma DividerKeepsCount(t: Timer, now: u64, unit: nat)
    requires Valid(t) && unit > 0
    ensures KeepsCount(t, now, unit) <==>
              || t.ict == 0
              || (if GetCcr(t, now).count > 0
                  then DoneTicks(t, now, unit) < 0x1_0000_0000_0000_0000 && now != DoneTicks(t, now, unit)
                  else now == Wrap64(Times(t.ict, unit)))
  {
    CountAtMostInitial(t, now);
    if t.ict > 0 {
      ReadAfterDivider(WriteDcr(t, now, unit), now, t.ict - GetCcr(t, now).count);
    }
  }

  /** What a timer reads whose start was set `done` counts before `now`. */
  lemma ReadAfterDivider(t: Timer, now: u64, done: nat)
    requires Valid(t) && 0 < t.ict && done <= t.ict && t.start == Wrap64(now - Times(done, t.unit))
    ensures var ticks, r := Times(done, t.unit), GetCcr(t, now);
            && (t.start == 0 <==> now == Wrap64(ticks))
            && (t.start == 0 ==> r == Reading(0, false, t))
            && (t.start != 0 && ticks < 0x1_0000_0000_0000_0000 ==>
                  if done < t.ict then r == Reading(t.ict - done, false, t) else r.fired)
            && (t.start != 0 && ticks >= 0x1_0000_0000_0000_0000 ==> !r.fired && r.count > t.ict - done)
  {
    ElapsedAfter(t, now, done);
  }

  lemma ElapsedAfter(t: Timer, now: u64, done: nat)
    requires Valid(t) && t.start == Wrap64(now - Times(done, t.unit))
    ensures t.start == 0 <==> now == Wrap64(Times(done, t.unit))
    ensures Times(done, t.unit) < 0x1_0000_0000_0000_0000 ==> Elapsed(t, now) == done
    ensures Times(done, t.unit) >= 0x1_0000_0000_0000_0000 ==> Elapsed(t, now) < done
  {
    var ticks := Times(done, t.unit);
    SinceSet(now, ticks);
    WrapOfTicks(ticks);
    CountsIn(Since(t, now), ticks, done, t.unit);
  }

  lemma WrapOfTicks(k: nat)
    ensures k < 0x1_0000_0000_0000_0000 ==> Wrap64(k) == k
    ensures k >= 0x1_0000_0000_0000_0000 ==> Wrap64(k) < k
  {
  }

  /** The counts in as many ticks as `done` counts, or in fewer. */
  lemma CountsIn(x: nat, ticks: nat, done: nat, unit: nat)
    requires unit > 0 && ticks == Times(done, unit)
    ensures x == ticks ==> Quot(x, unit) == done
    ensures x < ticks ==> Quot(x, unit) < done
  {
    QuotBounds(x, unit);
    TimesMonotone(done, Quot(x, unit), unit);
    TimesMonotone(Quot(x, unit), done, unit);
  }

  /** A write to the divider rearms a one-shot timer that has expired; it fires at once iff its ticks fit 64 bits. */
  lemma ExpiredTimerFiresAgain(t: Timer, now: u64, unit: nat)
    requires Valid(t) && t.ict > 0 && t.start == 0 && unit > 0 && now != Wrap64(Times(t.ict, unit))
    ensures GetCcr(t, now) == Reading(0, false, t) && Armed(WriteDcr(t, now, unit))
    ensures GetCcr(WriteDcr(t, now, unit), now).fired <==> Times(t.ict, unit) < 0x1_0000_0000_0000_0000
  {
    ReadAfterDivider(WriteDcr(t, now, unit), now, t.ict);
  }

  /** A running timer whose ticks done are exactly `now` is stopped by a write to the divider. */
  lemma DividerStopsTimer(t: Timer)
    requires t == Timer(10, 100, 10, false, false)
    ensures GetCcr(t, 150).count == 5 && WriteDcr(t, 150, 30).start == 0
    ensures GetCcr(WriteDcr(t, 150, 30), 150) == Reading(0, false, WriteDcr(t, 150, 30))
  {
    TimesIsProduct(5, 10);
    TimesIsProduct(5, 30);
    CountInPeriod(t, 150, 5);
  }

  // ---------------------------------------------------------------- runs of all register accesses

  /** Accesses to the timer; all of them read the counter in the end. */
  datatype Access = Read | WriteIct(value: nat) | WriteDivide(unit: nat) | WriteLvt(periodic: bool, masked: bool)

  /** The registers as an access writes them, before it reads the counter. */
  function Written(t: Timer, a: Access, now: u64): Timer
    requires Valid(t)
  {
    match a
    case Read => t
    case WriteIct(value) => t.(ict := value, start := now)
    case WriteDivide(unit) => WriteDcr(t, now, unit)
    case WriteLvt(periodic, masked) => t.(periodic := periodic, masked := masked)
  }

  /** A divider is positive, and not changed at time 0 while a timer with an initial count does not run. */
  predicate Allowed(t: Timer, a: Access, now: u64)
    requires Valid(t)
  {
    a.WriteDivide? ==> a.unit > 0 && DividerOk(t, now, a.unit)
  }

  predicate DividerOk(t: Timer, now: u64, unit: nat)
    requires Valid(t)
  {
    now > 0 || t.ict == 0 || GetCcr(t, now).count > 0 || Times(t.ict, unit) >= 0x1_0000_0000_0000_0000
  }

  /** When a start that is set `ticks` before `now` is good for a period. */
  lemma StartIsGoodIff(now: u64, start: u64, ticks: nat, period: nat)
    requires start == Wrap64(now - ticks) && ticks <= period && period > 0
    ensures (start == 0 || start <= now || 0x1_0000_0000_0000_0000 - start < period)
            <==> (now > 0 || ticks < period || period >= 0x1_0000_0000_0000_0000)
  {
    if now < ticks < 0x1_0000_0000_0000_0000 {
      assert start == now - ticks + 0x1_0000_0000_0000_0000;
    }
  }

  /** A change of the divider leaves a good timer, whatever it was before, if and only if it is allowed. */
  lemma DividerMakesGoodIff(t: Timer, now: u64, unit: nat)
    requires Valid(t) && unit > 0
    ensures Good(WriteDcr(t, now, unit), now) <==> DividerOk(t, now, unit)
  {
    CountAtMostInitial(t, now);
    if t.ict > 0 {
      TimesMonotone(t.ict - GetCcr(t, now).count, t.ict, unit);
      TimesMonotone(0, t.ict, unit);
      StartIsGoodIff(now, WriteDcr(t, now, unit).start, DoneTicks(t, now, unit), Times(t.ict, unit));
    }
  }

  /** One access leaves a good timer that reads alike. */
  lemma AccessKeepsGood(t: Timer, a: Access, now: u64)
    requires Valid(t) && Good(t, now) && Allowed(t, a, now)
    ensures var w := Written(t, a, now);
            Valid(w) && Good(w, now) && Good(GetCcr(w, now).timer, now) && ReadsAlike(w, now)
  {
    if a.WriteDivide? {
      DividerMakesGoodIff(t, now, a.unit);
    }
    GoodReadsAlike(Written(t, a, now), now);
    ReadKeepsGood(Written(t, a, now), now);
  }

  /** An access and the instant of it. */
  datatype Timed = Timed(access: Access, at: u64)

  /** The timer goes from t, last read at `now`, to r through accesses at rising instants. */
  ghost predicate Run(t: Timer, now: u64, accesses: seq<Timed>, r: Timer, end: u64)
    requires Valid(t)
    decreases |accesses|
  {
    if accesses == [] then r == t && end == now
    else
      var x := accesses[0];
      && now <= x.at && Allowed(t, x.access, x.at) && Valid(Written(t, x.access, x.at))
      && Run(GetCcr(Written(t, x.access, x.at), x.at).timer, x.at, accesses[1..], r, end)
  }

  /** After any run of reads and register writes from a good timer, a stopped one for example, reads can be repeated. */
  lemma {:induction false} ReadsAlikeOverAllRuns(t: Timer, now: u64, accesses: seq<Timed>, r: Timer, end: u64,
                                                 later: u64)
    requires Valid(t) && Good(t, now) && Run(t, now, accesses, r, end) && end <= later
    ensures Valid(r) && Good(r, later) && ReadsAlike(r, later)
    decreases |accesses|
  {
    if accesses == [] {
      GoodLater(t, now, later);
      GoodReadsAlike(t, later);
    } else {
      var x := accesses[0];
      GoodLater(t, now, x.at);
      AccessKeepsGood(t, x.access, x.at);
      ReadsAlikeOverAllRuns(GetCcr(Written(t, x.access, x.at), x.at).timer, x.at, accesses[1..], r, end, later);
    }
  }

  // ---------------------------------------------------------------- the registers

  /** The count, the ticks and the start that the source computes with division and remainder. */
  lemma MoveByDivision(since: nat, ict: nat, unit: nat)
    requires ict > 0 && unit > 0
    ensures var delta := since / unit;
            && delta == Quot(since, unit)
            && delta % ict == delta - Times(Quot(delta, ict), ict)
            && (delta - delta % ict) * unit == Times(Quot(delta, ict), Times(ict, unit))
  {
    var delta := since / unit;
    QuotIsDivision(since, unit);
    QuotIsDivision(delta, ict);
    TimesIsProduct(delta - delta % ict, unit);
    TimesTimes(Quot(delta, ict), ict, unit);
  }

  /** How often a read triggers the timer entry of the LVT. */
  function Fires(t: Timer, now: u64): nat
    requires Valid(t)
  {
    if GetCcr(t, now).fired then 1 else 0
  }

  class TimerRegisters {
    const clockShift: nat
    var ict: nat
    var start: u64
    var unit: nat
    var periodic: bool
    var masked: bool
    /** How often the timer entry of the LVT was triggered, and the host timeouts requested. */
    var fired: nat
    var timeouts: seq<u64>

    ghost function Model(): Timer
      reads this
    {
      Timer(ict, start, unit, periodic, masked)
    }

    method ReadCcr(now: u64) returns (count: nat)
      requires Valid(Model())
      modifies this`start, this`fired
      ensures count == GetCcr(old(Model()), now).count && Model() == GetCcr(old(Model()), now).timer
      ensures fired == old(fired) + Fires(old(Model()), now)
    {
      if ict == 0 || start == 0 {
        return 0;
      }
      var delta, done, moved := Delta(Wrap64(now - start), ict, unit);
      if delta < ict {
        return ict - delta;
      }
      fired := fired + 1;
      if !periodic {
        start := 0;
        return 0;
      }
      start := Wrap64(start + moved);
      count := ict - done;
    }

    /** The counts since the start, those of the current period, and the ticks of the periods before it. */
    static method Delta(since: nat, ict: nat, unit: nat) returns (delta: nat, done: nat, moved: nat)
      requires ict > 0 && unit > 0
      ensures delta == Quot(since, unit) && done < ict && done == delta - Times(Quot(delta, ict), ict)
      ensures moved == Times(Quot(delta, ict), Times(ict, unit))
    {
      MoveByDivision(since, ict, unit);
      delta := since / unit;
      done := delta % ict;
      moved := (delta - done) * unit;
    }

    method UpdateTimer(now: u64)
      requires Valid(Model())
      modifies this`start, this`fired, this`timeouts
      ensures After(old(Model()), now, old(timeouts), old(fired))
    {
      var value := ReadCcr(now);
      if value == 0 || masked {
        return;
      }
      TimesIsProduct(value, unit);
      timeouts := timeouts + [Wrap64(now + value * unit)];
    }

    /** Writes the initial count: a new period starts now. */
    method WriteIct(value: nat, now: u64)
      requires Valid(Model())
      modifies this
      ensures Model() == old(Model()).(ict := value, start := now) && fired == old(fired)
      ensures timeouts == old(timeouts)
                          + (if value == 0 || now == 0 || masked then [] else [Wrap64(now + Times(value, unit))])
    {
      ict, start := value, now;
      FreshPeriod(Model(), now);
      UpdateTimer(now);
    }

    /** Writes the divider register. */
    method WriteDivider(dcr: nat, now: u64)
      requires Valid(Model())
      modifies this
      ensures After(WriteDcr(old(Model()), now, DividerUnit(clockShift, dcr)), now,
                    old(timeouts), old(fired) + Fires(old(Model()), now))
    {
      ChangeDivider(DividerUnit(clockShift, dcr), now);
    }

    /** The registers after `update_timer` on the timer t. */
    ghost predicate After(t: Timer, now: u64, timeouts0: seq<u64>, fired0: nat)
      requires Valid(t)
      reads this
    {
      && Model() == GetCcr(t, now).timer && fired == fired0 + Fires(t, now)
      && timeouts == timeouts0 + (match HostTimeout(t, now) case None => [] case Some(x) => [x])
    }

    method ChangeDivider(divider: nat, now: u64)
      requires Valid(Model()) && divider > 0
      modifies this
      ensures After(WriteDcr(old(Model()), now, divider), now, old(timeouts), old(fired) + Fires(old(Model()), now))
    {
      ghost var t := WriteDcr(Model(), now, divider);
      CountAtMostInitial(Model(), now);
      var count := ReadCcr(now);
      Restart(ict - count, divider, now);
      assert Model() == t;
      UpdateTimer(now);
    }

    /** Sets the divider and the start such that `done` counts have passed. */
    method Restart(done: nat, divider: nat, now: u64)
      modifies this`unit, this`start
      ensures Model() == old(Model()).(unit := divider, start := Wrap64(now - Times(done, divider)))
    {
      TimesIsProduct(done, divider);
      unit := divider;
      start := Wrap64(now - done * divider);
    }
  }
}
