/** UTC calendar time from 1970 on, and the broken-down time (`struct tm`) that
  * `cron_mktime` normalises in place. */
module CronCalendar {

  const SECOND := 0
  const MINUTE := 1
  const HOUR_OF_DAY := 2
  const DAY_OF_WEEK := 3
  const DAY_OF_MONTH := 4
  const MONTH := 5
  const YEAR := 6

  // ----- months and days -----

  predicate IsLeap(year: nat) {
    year % 4 == 0 && (year % 100 != 0 || year % 400 == 0)
  }

  /** The length of month `k`, counted from January 1970. */
  function MonthLen(k: nat): (n: nat)
    ensures 28 <= n <= 31
  {
    var mon := k % 12;
    if mon == 1 then (if IsLeap(1970 + k / 12) then 29 else 28)
    else if mon == 3 || mon == 5 || mon == 8 || mon == 10 then 30 else 31
  }

  /** The number of the first day of month `k`, counted from 1 January 1970. */
  function MonthDay(k: nat): nat {
    if k == 0 then 0 else MonthDay(k - 1) + MonthLen(k - 1)
  }

  function MonthFrom(day: nat, k: nat): (r: nat)
    requires MonthDay(k) <= day
    ensures MonthDay(r) <= day < MonthDay(r + 1)
    decreases day - MonthDay(k)
  {
    if day < MonthDay(k + 1) then k else MonthFrom(day, k + 1)
  }

  /** The month a day is in. */
  function MonthOf(day: nat): (k: nat)
    ensures MonthDay(k) <= day < MonthDay(k + 1)
  {
    MonthFrom(day, 0)
  }

  function MDay(day: nat): (d: nat)
    ensures 1 <= d <= MonthLen(MonthOf(day))
  {
    day - MonthDay(MonthOf(day)) + 1
  }

  function Mon(day: nat): nat {
    MonthOf(day) % 12
  }

  /** 1 January 1970 was a Thursday. */
  function WDay(day: nat): nat {
    (day + 4) % 7
  }

  lemma {:induction false} MonthDayGrows(a: nat, b: nat)
    requires a <= b
    ensures MonthDay(a) + 28 * (b - a) <= MonthDay(b)
    decreases b
  {
    if a < b { MonthDayGrows(a, b - 1); }
  }

  lemma MonthOfIs(day: nat, k: nat)
    requires MonthDay(k) <= day
    ensures k <= MonthOf(day)
    ensures day < MonthDay(k + 1) ==> MonthOf(day) == k
  {
    var r := MonthOf(day);
    if r < k { MonthDayGrows(r + 1, k); }
    if k < r { MonthDayGrows(k + 1, r); }
  }

  lemma MonthOfGrows(a: nat, b: nat)
    requires a <= b
    ensures MonthOf(a) <= MonthOf(b)
  {
    MonthOfIs(b, MonthOf(a));
  }

  // ----- instants -----

  datatype Moment = Moment(day: nat, hour: nat, min: nat, sec: nat)

  predicate Clock(c: Moment) {
    c.hour < 24 && c.min < 60 && c.sec < 60
  }

  /** Seconds since the epoch. */
  function Time(c: Moment): nat {
    86400 * c.day + 3600 * c.hour + 60 * c.min + c.sec
  }

  lemma DayIsFirst(a: Moment, b: Moment)
    requires Clock(a) && Clock(b) && a.day < b.day
    ensures Time(a) < Time(b)
  {
  }

  lemma TimeIsUnique(a: Moment, b: Moment)
    requires Clock(a) && Clock(b) && Time(a) == Time(b)
    ensures a == b
  {
    if a.day < b.day { DayIsFirst(a, b); }
    if b.day < a.day { DayIsFirst(b, a); }
    assert a.day == b.day;
    assert 60 * (60 * a.hour + a.min) + a.sec == 60 * (60 * b.hour + b.min) + b.sec;
    assert 60 * a.hour + a.min == 60 * b.hour + b.min;
  }

  lemma Split(t: nat)
    ensures t == 86400 * (t / 86400) + 3600 * (t / 3600 % 24) + 60 * (t / 60 % 60) + t % 60
  {
    var m, h := t / 60, t / 3600;
    assert t == 60 * m + t % 60;
    assert h == m / 60;
    assert m == 60 * h + m % 60;
    assert t / 86400 == h / 24;
    assert h == 24 * (h / 24) + h % 24;
  }

  class Tm {
    var tm_sec: int
    var tm_min: int
    var tm_hour: int
    var tm_mday: int
    var tm_mon: int
    var tm_year: int   // since 1900
    var tm_wday: int

    constructor () {
    }

    /** What `mktime` is given here: fields that may have run over, but not under. */
    ghost predicate Readable()
      reads this
    {
      tm_sec >= 0 && tm_min >= 0 && tm_hour >= 0 && tm_mday >= 1 && tm_mon >= 0 && tm_year >= 70
    }

    function Day(): nat
      requires Readable()
      reads this
    {
      MonthDay(12 * (tm_year - 70) + tm_mon) + tm_mday - 1
    }

    function Now(): Moment
      requires Readable()
      reads this
    {
      Moment(Day(), tm_hour, tm_min, tm_sec)
    }

    /** Every field in its range, and the weekday that of the date. */
    ghost predicate Normal()
      reads this
    {
      && Readable() && Clock(Now())
      && tm_mon < 12 && tm_mday <= MonthLen(12 * (tm_year - 70) + tm_mon)
      && tm_wday == WDay(Day())
    }

    /** The fields of a normal time are those of its instant. */
    lemma NormalFields()
      requires Normal()
      ensures 12 * (tm_year - 70) + tm_mon == MonthOf(Day()) && tm_mday == MDay(Day())
      ensures tm_mon == Mon(Day()) && tm_year == 70 + MonthOf(Day()) / 12
    {
      MonthOfIs(Day(), 12 * (tm_year - 70) + tm_mon);
    }

    /** `gmtime_r`: breaks down `t` seconds since the epoch. */
    method GmTime(t: nat)
      modifies this
      ensures Normal() && Time(Now()) == t
    {
      tm_sec, tm_min, tm_hour := t % 60, t / 60 % 60, t / 3600 % 24;
      var day := t / 86400;
      tm_year, tm_mon, tm_mday := 70 + MonthOf(day) / 12, Mon(day), MDay(day);
      tm_wday := WDay(day);
      Split(t);
      assert 12 * (tm_year - 70) + tm_mon == MonthOf(day);
      assert Day() == day;
    }

    /** `cron_mktime`: normalises the fields and gives the instant they stand for. */
    method MkTime() returns (t: nat)
      requires Readable()
      modifies this
      ensures Normal() && t == Time(Now()) == old(Time(Now()))
      ensures Clock(old(Now())) ==> Now() == old(Now())
    {
      ghost var read := Now();
      t := Time(Now());
      GmTime(t);
      if Clock(read) { TimeIsUnique(read, Now()); }
    }
  }
}
