/** The real-time clock: a nested rollover of seconds, minutes, hours, days,
    months and years, shown to be the successor function on seconds. */
module Calendar {
  import opened Arith

  const DAYS_IN_MONTH: seq<int> := [31, 28, 31, 30, 31, 30, 31, 31, 30, 31, 30, 31]

  predicate IsLeap(year: int) {
    if year % 400 == 0 then true
    else if year % 100 == 0 then false
    else year % 4 == 0
  }

  function GetDays(month: int, year: int): int
    requires 1 <= month <= 12
  {
    if month != 2 then DAYS_IN_MONTH[month - 1] else if IsLeap(year) then 29 else 28
  }

  datatype DateTime = DateTime(year: int, month: int, day: int, hour: int, min: int, sec: int)

  /** Day 0 is what the clock starts from when it is not set from the host; it
      then stands for the last day of the month before. */
  predicate Running(t: DateTime) {
    1 <= t.month <= 12 && 0 <= t.day <= GetDays(t.month, t.year) && 0 <= t.hour < 24 && 0 <= t.min < 60
        && 0 <= t.sec < 60
  }

  predicate ValidTime(t: DateTime) {
    Running(t) && t.day >= 1
  }

  // ----- the proleptic Gregorian count ---------------------------------------

  /** Days from the epoch to the first day of a year, counting the leap years. */
  function DaysToYear(y: int): int {
    365 * y + (y - 1) / 4 - (y - 1) / 100 + (y - 1) / 400
  }

  /** Days from the first day of the year to the first day of a month. */
  function DaysToMonth(m: int, leap: bool): int
    requires 1 <= m <= 12
  {
    [0, 31, 59, 90, 120, 151, 181, 212, 243, 273, 304, 334][m - 1] + if leap && m > 2 then 1 else 0
  }

  function DayNumber(t: DateTime): int
    requires 1 <= t.month <= 12
  {
    DaysToYear(t.year) + DaysToMonth(t.month, IsLeap(t.year)) + t.day
  }

  function Seconds(t: DateTime): int
    requires 1 <= t.month <= 12
  {
    ((DayNumber(t) * 24 + t.hour) * 60 + t.min) * 60 + t.sec
  }

  lemma {:induction false} YearLength(y: int)
    ensures DaysToYear(y + 1) - DaysToYear(y) == if IsLeap(y) then 366 else 365
    ensures IsLeap(y) <==> y % 4 == 0 && (y % 100 != 0 || y % 400 == 0)
  {
    StepDiv(y, 4);
    StepDiv(y, 100);
    StepDiv(y, 400);
    MultipleOf(y, 100, 4);
    MultipleOf(y, 4, 25);
  }

  lemma {:induction false} MultipleOf(y: int, k: int, j: int)
    requires k > 0 && j > 0 && k * j > 0
    ensures y % (k * j) == 0 ==> y % k == 0
  {
    if y % (k * j) == 0 {
      var q := y / (k * j);
      assert y == (q * j) * k;
      DivIs(y, k, q * j, 0);
    }
  }

  lemma {:induction false} StepDiv(y: int, k: int)
    requires k == 4 || k == 100 || k == 400
    ensures y / k - (y - 1) / k == if y % k == 0 then 1 else 0
  {
  }

  lemma {:induction false} YearsApart(y: int, y': int)
    requires y < y'
    ensures DaysToYear(y) + (if IsLeap(y) then 366 else 365) <= DaysToYear(y')
    decreases y' - y
  {
    YearLength(y);
    if y + 1 == y' {
    } else {
      YearsApart(y + 1, y');
    }
  }

  /** Thirty days has September. */
  lemma {:induction false} DaysOfMonth(m: int, y: int)
    requires 1 <= m <= 12
    ensures GetDays(m, y) == if m == 2 then (if y % 4 == 0 && (y % 100 != 0 || y % 400 == 0) then 29 else 28)
                             else if m == 4 || m == 6 || m == 9 || m == 11 then 30 else 31
  {
    YearLength(y);
  }

  /** A month ends where the next one, or the next year, begins. */
  lemma {:induction false} MonthLength(m: int, y: int)
    requires 1 <= m <= 12
    ensures DaysToYear(y) + DaysToMonth(m, IsLeap(y)) + GetDays(m, y) ==
            if m < 12 then DaysToYear(y) + DaysToMonth(m + 1, IsLeap(y)) else DaysToYear(y + 1)
  {
    YearLength(y);
  }

  lemma {:induction false} MonthsApart(m: int, m': int, y: int)
    requires 1 <= m < m' <= 12
    ensures DaysToMonth(m, IsLeap(y)) + GetDays(m, y) <= DaysToMonth(m', IsLeap(y))
    decreases m' - m
  {
    if m + 1 == m' {
    } else {
      MonthsApart(m + 1, m', y);
    }
  }

  lemma {:induction false} WithinYear(t: DateTime)
    requires ValidTime(t)
    ensures DaysToYear(t.year) < DayNumber(t) <= DaysToYear(t.year) + if IsLeap(t.year) then 366 else 365
  {
    if t.month < 12 {
      MonthsApart(t.month, 12, t.year);
    }
  }

  /** Two valid times with the same second count are the same time. */
  lemma {:induction false} SecondsAreUnique(t: DateTime, u: DateTime)
    requires ValidTime(t) && ValidTime(u) && Seconds(t) == Seconds(u)
    ensures t == u
  {
    assert DayNumber(t) == DayNumber(u) && t.hour == u.hour && t.min == u.min && t.sec == u.sec;
    WithinYear(t);
    WithinYear(u);
    if t.year < u.year {
      YearsApart(t.year, u.year);
    } else if u.year < t.year {
      YearsApart(u.year, t.year);
    } else if t.month < u.month {
      MonthsApart(t.month, u.month, t.year);
    } else if u.month < t.month {
      MonthsApart(u.month, t.month, t.year);
    }
  }

  class Clock {
    var sec: int
    var min: int
    var hour: int
    var mday: int
    var mon: int
    var year: int

    function Time(): DateTime
      reads this
    {
      DateTime(year, mon, mday, hour, min, sec)
    }

    /** One second passes: a running clock counts one second further, and a valid
        time is followed by a valid time. */
    method Tick()
      requires Running(Time())
      modifies this
      ensures Running(Time()) && Seconds(Time()) == old(Seconds(Time())) + 1
      ensures old(ValidTime(Time())) ==> ValidTime(Time())
      ensures sec == if old(sec) == 59 then 0 else old(sec) + 1
      ensures min == if old(sec) < 59 then old(min) else if old(min) == 59 then 0 else old(min) + 1
      ensures hour == if old(sec) < 59 || old(min) < 59 then old(hour) else if old(hour) == 23 then 0 else old(hour) + 1
      ensures old(sec) < 59 || old(min) < 59 || old(hour) < 23 ==>
                mday == old(mday) && mon == old(mon) && year == old(year)
    {
      sec := sec + 1;
      if sec == 60 {
        sec := 0;
        min := min + 1;
        if min == 60 {
          min := 0;
          hour := hour + 1;
          if hour == 24 {
            hour := 0;
            NextDay();
          }
        }
      }
    }

    /** The day part of Tick. */
    method NextDay()
      requires Running(Time())
      modifies this`mday, this`mon, this`year
      ensures ValidTime(Time()) && DayNumber(Time()) == old(DayNumber(Time())) + 1
      ensures if old(mday) < GetDays(old(mon), old(year)) then
                mday == old(mday) + 1 && mon == old(mon) && year == old(year)
              else
                mday == 1 && mon == old(mon) % 12 + 1 && year == old(year) + if old(mon) == 12 then 1 else 0
    {
      MonthLength(mon, year);
      mday := mday + 1;
      if mday == GetDays(mon, year) + 1 {
        mday := 1;
        mon := mon + 1;
        if mon == 13 {
          assert forall leap :: DaysToMonth(1, leap) == 0;
          mon := 1;
          year := year + 1;
        }
      }
    }
  }

  /** The n seconds after second s. */
  function Following(s: int, n: nat): (r: seq<int>)
    ensures |r| == n
  {
    seq(n, i => s + i + 1)
  }

  /** The one-second timer of the NVR device runs a hundred times a second. */
  class Nvr {
    const clock: Clock
    var onesecCnt: int
    var onesecTime: int
    const period: nat
    const hasTick: bool             // does the device want to be told of each second?
    var told: seq<int>              // the seconds it has been told of, oldest first

    constructor (clock: Clock, period: nat, hasTick: bool)
      ensures this.clock == clock && this.period == period && onesecCnt == 0 && onesecTime == 0
      ensures this.hasTick == hasTick && told == []
    {
      this.clock, this.period, this.hasTick := clock, period, hasTick;
      onesecCnt, onesecTime, told := 0, 0, [];
    }

    /** onesec_timer: every hundredth time the clock ticks, and then the device is
        told, if it wants to be. */
    method OneSec()
      requires Running(clock.Time()) && 0 <= onesecCnt < 100
      modifies this, clock
      ensures Running(clock.Time()) && (old(ValidTime(clock.Time())) ==> ValidTime(clock.Time()))
      ensures 0 <= onesecCnt < 100
      ensures 100 * Seconds(clock.Time()) + onesecCnt == old(100 * Seconds(clock.Time()) + onesecCnt) + 1
      ensures onesecCnt > 0 ==> told == old(told)
      ensures onesecCnt == 0 ==> told == old(told) + if hasTick then [Seconds(clock.Time())] else []
      ensures onesecTime == old(onesecTime) + period
    {
      onesecCnt := onesecCnt + 1;
      if onesecCnt >= 100 {
        clock.Tick();
        if hasTick {
          told := told + [Seconds(clock.Time())];
        }
        onesecCnt := 0;
      }
      onesecTime := onesecTime + period;
    }

    /** What the device has been told of n seconds after second s. */
    function ToldOf(before: seq<int>, s: int, n: nat): seq<int> {
      before + if hasTick then Following(s, n) else []
    }

    lemma {:induction false} ToldOnce(before: seq<int>, s: int, n: nat)
      ensures ToldOf(before, s, n + 1) == ToldOf(before, s, n) + if hasTick then [s + n + 1] else []
    {
      assert Following(s, n + 1) == Following(s, n) + [s + n + 1];
    }

    /** k firings from a zero counter advance the clock by floor(k / 100) seconds,
        and the device is told of each of these once and in order. */
    method Firings(k: nat)
      requires Running(clock.Time()) && 0 <= onesecCnt < 100
      modifies this, clock
      ensures Running(clock.Time()) && (old(ValidTime(clock.Time())) ==> ValidTime(clock.Time()))
      ensures Seconds(clock.Time()) == old(Seconds(clock.Time())) + (old(onesecCnt) + k) / 100
      ensures onesecCnt == (old(onesecCnt) + k) % 100
      ensures told == ToldOf(old(told), old(Seconds(clock.Time())), (old(onesecCnt) + k) / 100)
      ensures onesecTime == old(onesecTime) + k * period
    {
      ghost var s0, n: nat, t0 := Seconds(clock.Time()), 0, told;
      for i := 0 to k
        invariant Running(clock.Time()) && (old(ValidTime(clock.Time())) ==> ValidTime(clock.Time()))
        invariant 0 <= onesecCnt < 100 && Seconds(clock.Time()) == s0 + n
        invariant 100 * n + onesecCnt == old(onesecCnt) + i
        invariant told == ToldOf(t0, s0, n)
        invariant onesecTime == old(onesecTime) + i * period
      {
        assert (i + 1) * period == i * period + period;
        ToldOnce(t0, s0, n);
        n := n + if onesecCnt == 99 then 1 else 0;
        OneSec();
      }
      DivIs(old(onesecCnt) + k, 100, n, onesecCnt);
    }
  }
}
