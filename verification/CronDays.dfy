/** The days a cron expression is open on, and where the day search stops. */
module CronDays {
  import opened Arithmetic
  import opened CronBits
  import opened CronCalendar
  import opened CronSearch

  // ----- days with a given number or weekday -----

  /** Every second month has 31 days. */
  lemma LongMonth(k: nat)
    ensures MonthLen(k) == 31 || MonthLen(k + 1) == 31
  {
  }

  lemma DayOfMonth(k: nat, j: nat)
    requires 1 <= j <= MonthLen(k)
    ensures var d := MonthDay(k) + j - 1; MonthOf(d) == k && MDay(d) == j
  {
    hide MonthOf, MonthLen;
    assert MonthDay(k + 1) == MonthDay(k) + MonthLen(k);
    MonthOfIs(MonthDay(k) + j - 1, k);
  }

  /** A day with number `j` comes within 93 days. */
  lemma NextNumber(day: nat, j: nat) returns (next: nat)
    requires 1 <= j <= 31
    ensures day < next <= day + 93 && MDay(next) == j
  {
    var k := MonthOf(day);
    LongMonth(k + 1);
    hide MonthOf, MonthLen, MDay;
    assert MonthDay(k + 1) == MonthDay(k) + MonthLen(k);
    assert MonthDay(k + 2) == MonthDay(k + 1) + MonthLen(k + 1);
    var k' := if j <= MonthLen(k + 1) then k + 1 else k + 2;
    DayOfMonth(k', j);
    next := MonthDay(k') + j - 1;
  }

  /** A weekday comes within 7 days. */
  lemma NextWeekday(day: nat, w: nat) returns (next: nat)
    requires w < 7
    ensures day < next <= day + 7 && WDay(next) == w
  {
    var x := w - day - 5;
    next := day + 1 + x % 7;
    assert (day + 5 + x % 7) % 7 == (day + 5 + x) % 7;
  }

  lemma WeekdayRange(day: nat)
    ensures 0 <= WDay(day) < 7
  {
  }

  lemma NumberRange(day: nat)
    ensures 1 <= MDay(day) < 32
  {
  }

  lemma WithinAWeek(day: nat, n: nat)
    requires 0 < n <= 7
    ensures MDay(day + n) != MDay(day)
  {
    var k := MonthOf(day);
    MonthOfGrows(day, day + n);
    hide MonthLen, MonthOf;
    assert MonthDay(k + 1) == MonthDay(k) + MonthLen(k);
    if MonthOf(day + n) != k { MonthDayGrows(k + 1, MonthOf(day + n)); }
  }

  // ----- days with a given number and weekday -----

  /** Days from the start of the year to the start of month `j`. */
  function Offset(leap: bool, j: nat): nat
    requires j <= 12
  {
    var n := [0, 31, 59, 90, 120, 151, 181, 212, 243, 273, 304, 334, 365][j];
    if leap && j >= 2 then n + 1 else n
  }

  lemma MonthLenAt(y: nat, j: nat)
    requires j < 12
    ensures Offset(IsLeap(1970 + y), j) + MonthLen(12 * y + j) == Offset(IsLeap(1970 + y), j + 1)
  {
    assert (12 * y + j) % 12 == j && (12 * y + j) / 12 == y;
  }

  lemma {:induction false} MonthDayAt(y: nat, j: nat)
    requires j <= 12
    ensures MonthDay(12 * y + j) == MonthDay(12 * y) + Offset(IsLeap(1970 + y), j)
  {
    if j > 0 {
      MonthDayAt(y, j - 1);
      MonthLenAt(y, j - 1);
      hide MonthLen, Offset, IsLeap;
      assert 12 * y + j == 12 * y + (j - 1) + 1;
    }
  }

  /** The days before a year, by the Gregorian rule. */
  lemma {:induction false} YearStart(y: nat)
    ensures MonthDay(12 * y) == 365 * y + (y + 1) / 4 - (y + 69) / 100 + (y + 369) / 400
    decreases y
  {
    if y > 0 {
      YearStart(y - 1);
      MonthDayAt(y - 1, 12);
      assert 12 * (y - 1) + 12 == 12 * y;
      hide MonthDay, MonthLen;
      LeapRule(y - 1);
    }
  }

  lemma LeapRule(y: nat)
    ensures (y + 2) / 4 - (y + 70) / 100 + (y + 370) / 400 ==
      (y + 1) / 4 - (y + 69) / 100 + (y + 369) / 400 + if IsLeap(1970 + y) then 1 else 0
  {
    NextQuotient(y + 1, 4);
    NextQuotient(y + 69, 100);
    NextQuotient(y + 369, 400);
    assert (1970 + y) % 4 == (y + 2) % 4 && (1970 + y) % 100 == (y + 70) % 100 && (1970 + y) % 400 == (y + 370) % 400;
    assert (1970 + y) % 100 == 0 ==> (1970 + y) % 4 == 0;
    assert (1970 + y) % 400 == 0 ==> (1970 + y) % 100 == 0;
  }

  lemma NextQuotient(n: nat, d: nat)
    requires d > 1
    ensures (n + 1) / d == n / d + if (n + 1) % d == 0 then 1 else 0
  {
    var q, r := n / d, n % d;
    assert n == q * d + r;
    if r + 1 < d {
      DivMod(n + 1, d, q, r + 1);
    } else {
      assert n + 1 == (q + 1) * d;
      DivMod(n + 1, d, q + 1, 0);
    }
  }

  /** A month with at least 30 days that starts `r` weekdays after the year does. */
  function MonthAtOffset(leap: bool, r: nat): nat
    requires r < 7
  {
    if leap then [0, 9, 4, 7, 2, 5, 11][r] else [0, 4, 7, 2, 5, 11, 6][r]
  }

  lemma MonthAtOffsetIs(leap: bool, r: nat)
    requires r < 7
    ensures var j := MonthAtOffset(leap, r);
      && j < 12 && Offset(leap, j) % 7 == r
      && Offset(leap, j + 1) - Offset(leap, j) >= 30
      && (r != (if leap then 5 else 4) ==> Offset(leap, j + 1) - Offset(leap, j) == 31)
  {
  }

  /** In year `y` no 31st is a weekday `w`. */
  predicate Skips(y: nat, w: nat) {
    (w + 7 - WDay(MonthDay(12 * y) + 30)) % 7 == if IsLeap(1970 + y) then 5 else 4
  }

  /** The day with number `j` and weekday `w` in year `y`, where there is one. */
  lemma InYear(y: nat, j: nat, w: nat) returns (next: nat)
    requires 1 <= j <= 31 && w < 7
    requires j == 31 ==> !Skips(y, w)
    ensures MonthDay(12 * y) <= next && MDay(next) == j && WDay(next) == w
  {
    hide MDay, MonthOf, MonthDay, MonthLen, Offset, MonthAtOffset, WDay, IsLeap;
    var leap, start := IsLeap(1970 + y), MonthDay(12 * y);
    var r := (w + 7 - WDay(start + j - 1)) % 7;
    var k := MonthAtOffset(leap, r);
    MonthAtOffsetIs(leap, r);
    MonthDayAt(y, k);
    MonthLenAt(y, k);
    DayOfMonth(12 * y + k, j);
    next := MonthDay(12 * y + k) + j - 1;
    Weekdays(start + j - 1, Offset(leap, k), w, r);
  }

  lemma Weekdays(day: nat, d: nat, w: nat, r: nat)
    requires w < 7 && r == (w + 7 - WDay(day)) % 7 && d % 7 == r
    ensures WDay(day + d) == w
  {
    WeekdayLater(day, d);
    WeekdayRange(day);
    hide WDay;
  }

  /** `d` days later the weekday is `d % 7` further, going round the week. */
  lemma WeekdayLater(day: nat, d: nat)
    ensures WDay(day + d) == if WDay(day) + d % 7 < 7 then WDay(day) + d % 7 else WDay(day) + d % 7 - 7
  {
    var q, r := (day + 4) / 7 + d / 7, WDay(day) + d % 7;
    assert day + d + 4 == q * 7 + r;
    if r < 7 {
      DivMod(day + d + 4, 7, q, r);
    } else {
      DivMod(day + d + 4, 7, q + 1, r - 7);
    }
  }

  /** Every day number meets every weekday, again and again: the 31st within two
    * calendar years, the others in each. */
  lemma NextBoth(day: nat, j: nat, w: nat) returns (next: nat)
    requires 1 <= j <= 31 && w < 7
    ensures day < next && MDay(next) == j && WDay(next) == w
  {
    hide MDay, MonthOf, WDay, Skips;
    var y := MonthOf(day) / 12 + 1;
    AfterYear(MonthOf(day));
    MonthDayGrows(MonthOf(day) + 1, 12 * y);
    if j == 31 && Skips(y, w) {
      NotTwice(y, w);
      MonthDayGrows(12 * y, 12 * (y + 1));
      next := InYear(y + 1, j, w);
    } else {
      next := InYear(y, j, w);
    }
  }

  lemma AfterYear(k: nat)
    ensures k < 12 * (k / 12 + 1)
  {
  }

  lemma NotTwice(y: nat, w: nat)
    requires w < 7 && Skips(y, w)
    ensures !Skips(y + 1, w)
  {
    hide MonthDay, IsLeap, Offset, WDay;
    var leap, day := IsLeap(1970 + y), MonthDay(12 * y) + 30;
    MonthDayAt(y, 12);
    assert 12 * (y + 1) == 12 * y + 12;
    assert MonthDay(12 * (y + 1)) + 30 == day + Offset(leap, 12);
    YearLater(day, w, leap);
  }

  lemma YearLater(day: nat, w: nat, leap: bool)
    requires w < 7 && (w + 7 - WDay(day)) % 7 == if leap then 5 else 4
    ensures (w + 7 - WDay(day + Offset(leap, 12))) % 7 == 3
  {
    WeekdayLater(day, Offset(leap, 12));
    WeekdayRange(day);
    hide WDay;
  }

  /** No field being empty, some later day matches. */
  lemma NextDay(e: CronExpr, day: nat) returns (next: nat)
    requires Usable(e)
    ensures day < next && DayOk(e, next)
  {
    hide MDay, WDay;
    next := NextBoth(day, First(Members(e.days_of_month), 1, 32), First(Members(e.days_of_week), 0, 7));
  }

  // ----- where the day search stops -----

  function StopFrom(e: CronExpr, day: nat, n: nat): nat
    decreases n
  {
    if n == 0 || DayOk(e, day) then day else StopFrom(e, day + 1, n - 1)
  }

  /** The first matching day from `day` on, or the 366th when there is none before. */
  function StopDay(e: CronExpr, day: nat): nat {
    StopFrom(e, day, 366)
  }

  lemma {:induction false} StopIs(e: CronExpr, day: nat, n: nat, k: nat)
    requires k <= n && forall i :: day <= i < day + k ==> !DayOk(e, i)
    requires k < n ==> DayOk(e, day + k)
    ensures StopFrom(e, day, n) == day + k
    decreases n
  {
    hide DayOk;
    if k > 0 {
      assert !DayOk(e, day);
      StopIs(e, day + 1, n - 1, k - 1);
    }
  }

  lemma {:induction false} StopFound(e: CronExpr, day: nat, n: nat) returns (k: nat)
    ensures k <= n && StopFrom(e, day, n) == day + k
    ensures forall i :: day <= i < day + k ==> !DayOk(e, i)
    ensures k < n ==> DayOk(e, day + k)
    decreases n
  {
    hide DayOk;
    if n == 0 || DayOk(e, day) {
      k := 0;
    } else {
      var k' := StopFound(e, day + 1, n - 1);
      k := k' + 1;
    }
  }

  /** The search from `day` stops at a day with the same number in an open month:
    * `do_next` then takes the day for one that has not moved. */
  predicate Stalls(e: CronExpr, day: nat) {
    && !DayOk(e, day)
    && MDay(StopDay(e, day)) == MDay(day)
    && Mon(StopDay(e, day)) in Members(e.months)
  }

  /** Wherever the day search stalls, midnight matches. */
  ghost predicate Settled(e: CronExpr) {
    forall day: nat :: Stalls(e, day) ==> Matches(e, Moment(StopDay(e, day), 0, 0, 0))
  }

  // ----- one day field open -----

  /** One of the two day fields accepts every day. */
  predicate OneDayField(e: CronExpr) {
    || (forall i :: 1 <= i < 32 ==> i in Members(e.days_of_month))
    || (forall i :: 0 <= i < 7 ==> i in Members(e.days_of_week))
  }

  /** With one day field open, a day soon after any day matches. */
  lemma NextOpenDay(e: CronExpr, day: nat) returns (next: nat)
    requires Usable(e) && OneDayField(e)
    ensures day < next <= day + 93 && DayOk(e, next)
  {
    hide MonthOf, MonthLen, MDay, WDay, MonthDay;
    if forall i :: 0 <= i < 7 ==> i in Members(e.days_of_week) {
      next := NextNumber(day, First(Members(e.days_of_month), 1, 32));
      WeekdayRange(next);
    } else {
      next := NextWeekday(day, First(Members(e.days_of_week), 0, 7));
      NumberRange(next);
    }
  }

  lemma OtherNumber(e: CronExpr, day: nat, n: nat)
    requires Usable(e) && OneDayField(e) && !DayOk(e, day) && DayOk(e, day + n) && 0 < n
    requires forall i :: day <= i < day + n ==> !DayOk(e, i)
    ensures MDay(day + n) != MDay(day)
  {
    hide Members, MDay, WDay, MonthOf, MonthLen, MonthDay;
    WeekdayRange(day);
    NumberRange(day);
    if MDay(day) in Members(e.days_of_month) {
      // every number is open, so the weekday decides within a week
      forall i | day <= i < day + n
        ensures WDay(i) !in Members(e.days_of_week)
      {
        NumberRange(i);
        assert !DayOk(e, i);
      }
      var next := NextWeekday(day, First(Members(e.days_of_week), 0, 7));
      WithinAWeek(day, n);
    }
  }

  lemma OpenDayMoves(e: CronExpr, day: nat)
    requires Usable(e) && OneDayField(e) && !DayOk(e, day)
    ensures MDay(StopDay(e, day)) != MDay(day)
  {
    hide MDay, DayOk, StopFrom, OneDayField, Usable;
    var n := StopFound(e, day, 366);
    var next := NextOpenDay(e, day);
    OtherNumber(e, day, n);
  }

  /** One open day field is enough: the search then always stops at another number. */
  lemma OpenDaySettles(e: CronExpr)
    requires Usable(e) && OneDayField(e)
    ensures Settled(e)
  {
    hide MDay, Mon, DayOk, StopDay, OneDayField, Usable, Matches;
    forall day: nat ensures !Stalls(e, day) {
      if !DayOk(e, day) { OpenDayMoves(e, day); }
    }
  }

  /** One day field open, and some number of the month that every month has. */
  predicate Tame(e: CronExpr) {
    OneDayField(e) && Any(Members(e.days_of_month), 1, 29)
  }

  /** Then every month has an open day before the 29th. */
  lemma OpenDayInMonth(e: CronExpr, day: nat) returns (open: nat)
    requires Usable(e) && Tame(e) && MDay(day) == 1
    ensures day <= open && DayOk(e, open) && MonthOf(open) == MonthOf(day) && MDay(open) <= 28
  {
    hide MonthOf, MonthLen, MDay, WDay, MonthDay, Members;
    FirstOfMonth(day);
    if forall i :: 0 <= i < 7 ==> i in Members(e.days_of_week) {
      open := day + First(Members(e.days_of_month), 1, 29) - 1;
      WeekdayRange(open);
    } else {
      open := WeekdayFrom(day, First(Members(e.days_of_week), 0, 7));
    }
    DayOfMonth(MonthOf(day), open - day + 1);
  }

  lemma WeekdayFrom(day: nat, w: nat) returns (next: nat)
    requires w < 7
    ensures day <= next <= day + 6 && WDay(next) == w
  {
    if WDay(day) == w {
      next := day;
    } else {
      next := NextWeekday(day, w);
      WeekdayLater(day, 7);
    }
  }

  lemma FirstOfMonth(day: nat)
    requires MDay(day) == 1
    ensures day == MonthDay(MonthOf(day))
  {
  }
}
