/** When the search for the next time passes over a match. */
module CronEarliest {
  import opened CronBits
  import opened CronCalendar
  import opened CronDays
  import opened CronMonths
  import opened CronSearch

  // ----- no match in between -----

  predicate Before(a: Moment, b: Moment) {
    || a.day < b.day
    || (a.day == b.day &&
        (|| a.hour < b.hour
         || (a.hour == b.hour && (a.min < b.min || (a.min == b.min && a.sec < b.sec)))))
  }

  lemma BeforeIsEarlier(a: Moment, b: Moment)
    requires Clock(a) && Clock(b)
    ensures Before(a, b) <==> Time(a) < Time(b)
  {
    if a.day < b.day { DayIsFirst(a, b); }
    if b.day < a.day { DayIsFirst(b, a); }
  }

  /** Nothing matches from `c` on before `c'`. */
  ghost predicate NoneFrom(e: CronExpr, c: Moment, c': Moment) {
    forall x :: Clock(x) && Matches(e, x) && !Before(x, c) ==> !Before(x, c')
  }

  lemma NoneOn(e: CronExpr, a: Moment, b: Moment, c: Moment)
    requires NoneFrom(e, a, b) && NoneFrom(e, b, c)
    ensures NoneFrom(e, a, c)
  {
    hide Matches, Before;
  }

  /** The seconds of `c` are no later than they have to be, or nothing in this minute
    * matches. */
  predicate Clean(e: CronExpr, c: Moment)
    requires Filled(e)
  {
    || c.sec == 0 || c.sec == First(Members(e.seconds), 0, 60)
    || (c.sec in Members(e.seconds) && !Matches(e, c))
  }

  lemma NoneInMinute(e: CronExpr, c: Moment, x: Moment)
    requires Filled(e) && Clean(e, c) && x == c.(sec := x.sec) && x.sec < c.sec
    ensures !Matches(e, x)
  {
    hide Members, OnDay;
  }

  lemma SecondMisses(e: CronExpr, c: Moment)
    requires Filled(e) && Clock(c) && c.sec !in Members(e.seconds)
    ensures NoneFrom(e, c, Advanced(c, Members(e.seconds), 60, SECOND))
  {
    hide Members, OnDay, Mon, MonthDay, MonthOf, SetMonth;
    var s, c' := Members(e.seconds), Advanced(c, Members(e.seconds), 60, SECOND);
    forall x | Clock(x) && Matches(e, x) && !Before(x, c) ensures !Before(x, c') {
      assert x.sec in s;
    }
  }

  lemma MinuteMisses(e: CronExpr, c: Moment, c': Moment)
    requires Filled(e) && Clock(c) && c.min !in Members(e.minutes)
    requires c' == Advanced(c, Members(e.minutes), 60, MINUTE).(sec := c'.sec) && Clean(e, c')
    ensures NoneFrom(e, c, c')
  {
    hide Members, OnDay, Mon, MonthDay, MonthOf, SetMonth, Clean;
    var s := Members(e.minutes);
    forall x | Clock(x) && Matches(e, x) && !Before(x, c) ensures !Before(x, c') {
      assert x.min in s;
      if x == c'.(sec := x.sec) && x.sec < c'.sec { NoneInMinute(e, c', x); }
    }
  }

  lemma HourMisses(e: CronExpr, c: Moment, c': Moment)
    requires Filled(e) && Clock(c) && c.hour !in Members(e.hours)
    requires c' == Advanced(c, Members(e.hours), 24, HOUR_OF_DAY).(min := 0, sec := c'.sec) && Clean(e, c')
    ensures NoneFrom(e, c, c')
  {
    hide Members, OnDay, Mon, MonthDay, MonthOf, SetMonth, Clean;
    var s := Members(e.hours);
    forall x | Clock(x) && Matches(e, x) && !Before(x, c) ensures !Before(x, c') {
      assert x.hour in s;
      if x == c'.(sec := x.sec) && x.sec < c'.sec { NoneInMinute(e, c', x); }
    }
  }

  lemma DayMisses(e: CronExpr, c: Moment, c': Moment)
    requires Filled(e) && c' == Moment(c'.day, 0, 0, c'.sec) && Clean(e, c')
    requires forall d: nat :: c.day <= d < c'.day && DayOk(e, d) ==> Mon(d) !in Members(e.months)
    ensures NoneFrom(e, c, c')
  {
    hide Members, OnDay, Mon, Clean;
    forall x | Clock(x) && Matches(e, x) && !Before(x, c) ensures !Before(x, c') {
      if x == c'.(sec := x.sec) && x.sec < c'.sec { NoneInMinute(e, c', x); }
    }
  }

  // ----- the first move above the seconds -----

  /** The day search ends at `day` without the day counting as moved. */
  ghost predicate Reached(e: CronExpr, day: nat) {
    exists from: nat :: StopDay(e, from) == day && MDay(from) == MDay(day)
  }

  /** Where the month step from `day` leads. */
  function MonthAfter(e: CronExpr, day: nat): nat
    requires Filled(e)
  {
    MonthDay(MonthOf(Advanced(Moment(day, 0, 0, 0), Members(e.months), 12, MONTH).day))
  }

  /** The month step from `day` passes over day `d`, which is open: setting the month
    * of a day from the 29th on can run over into the month behind. */
  ghost predicate Skips(e: CronExpr, day: nat, d: nat)
    requires Filled(e)
  {
    && Reached(e, day) && Mon(day) !in Members(e.months) && day < d < MonthAfter(e, day)
    && DayOk(e, d) && Mon(d) in Members(e.months)
  }

  /** No month step passes over an open day. */
  ghost predicate Unskipped(e: CronExpr)
    requires Filled(e)
  {
    forall day: nat, d: nat :: !Skips(e, day, d)
  }

  /** From a time whose seconds match, the time after the first move of a higher field;
    * the seconds are put to 0 unless they are to be kept. */
  function Landed(e: CronExpr, c: Moment, keep: bool): Moment
    requires Filled(e)
  {
    var sec := if keep then c.sec else 0;
    var stop := StopDay(e, c.day);
    if c.min !in Members(e.minutes) then
      Advanced(c, Members(e.minutes), 60, MINUTE).(sec := sec)
    else if c.hour !in Members(e.hours) then
      Advanced(c, Members(e.hours), 24, HOUR_OF_DAY).(min := 0, sec := sec)
    else if DayOk(e, c.day) && Mon(c.day) in Members(e.months) then c
    else if !DayOk(e, c.day) && (MDay(stop) != MDay(c.day) || Mon(stop) in Members(e.months)) then
      Moment(stop, 0, 0, sec)
    else Moment(MonthAfter(e, stop), 0, 0, sec)
  }

  /** Kept seconds make the search late: it ends right after that move, at a match
    * that is not the first of its minute. */
  predicate Rushed(e: CronExpr, c: Moment, keep: bool)
    requires Filled(e)
  {
    && keep && c.sec != First(Members(e.seconds), 0, 60)
    && !Matches(e, c) && Matches(e, Landed(e, c, true))
  }

  /** The time after the seconds have moved. */
  function SecondsMoved(e: CronExpr, c: Moment): Moment
    requires Filled(e)
  {
    if c.sec in Members(e.seconds) then c else Advanced(c, Members(e.seconds), 60, SECOND)
  }

  /** The seconds are put back only by a move that found them matching.  When they
    * have just moved, the move of a higher field leaves them. */
  predicate Hurried(e: CronExpr, c: Moment)
    requires Filled(e)
  {
    c.sec !in Members(e.seconds) && Rushed(e, SecondsMoved(e, c), true)
  }

  lemma LandedMisses(e: CronExpr, c: Moment, keep: bool)
    requires Filled(e) && Unskipped(e) && Clock(c) && c.sec in Members(e.seconds) && !Rushed(e, c, keep)
    ensures NoneFrom(e, c, Landed(e, c, keep))
  {
    hide Members, OnDay, MDay, Mon, MonthAfter, Advanced, StopFrom, Unskipped;
    var c', stop := Landed(e, c, keep), StopDay(e, c.day);
    if Matches(e, c) { return; }
    assert Clean(e, c');
    if c.min !in Members(e.minutes) {
      MinuteMisses(e, c, c');
    } else if c.hour !in Members(e.hours) {
      HourMisses(e, c, c');
    } else {
      var n := StopFound(e, c.day, 366);
      if c'.day != stop {
        JumpMisses(e, c.day, c'.day);
      }
      DayMisses(e, c, c');
    }
  }

  lemma JumpMisses(e: CronExpr, day: nat, day': nat)
    requires Filled(e) && Unskipped(e) && day' == MonthAfter(e, StopDay(e, day))
    requires MDay(StopDay(e, day)) == MDay(day) && Mon(StopDay(e, day)) !in Members(e.months)
    ensures forall d: nat :: day <= d < day' && DayOk(e, d) ==> Mon(d) !in Members(e.months)
  {
    hide MDay, Mon, DayOk, MonthAfter, StopFrom;
    var stop := StopDay(e, day);
    var n := StopFound(e, day, 366);
    assert Reached(e, stop);
    forall d: nat | day <= d < day' && DayOk(e, d) ensures Mon(d) !in Members(e.months) {
      if d > stop { assert !Skips(e, stop, d); }
    }
  }

  // ----- what the code's steps have to do with it -----

  lemma LandedMinute(e: CronExpr, c: Moment, fields: set<int>)
    requires Filled(e) && c.min !in Members(e.minutes) && fields <= {SECOND}
    ensures Reset(Advanced(c, Members(e.minutes), 60, MINUTE), fields) == Landed(e, c, SECOND !in fields)
  {
    hide Members, OnDay, MDay, Mon, StopFrom, MonthAfter, Carry;
    AdvancedSeconds(c, Members(e.minutes), 60, MINUTE);
  }

  lemma AdvancedSeconds(c: Moment, s: set<int>, max: int, field: int)
    requires Any(s, 0, max) && (field == MINUTE || field == HOUR_OF_DAY)
    ensures Advanced(c, s, max, field).sec == c.sec
  {
  }

  lemma LandedHour(e: CronExpr, c: Moment, fields: set<int>)
    requires Filled(e) && c.min in Members(e.minutes) && c.hour !in Members(e.hours)
    requires MINUTE in fields && fields <= {SECOND, MINUTE}
    ensures Reset(Advanced(c, Members(e.hours), 24, HOUR_OF_DAY), fields) == Landed(e, c, SECOND !in fields)
  {
    hide Members, OnDay, MDay, Mon, StopFrom, MonthAfter, Carry;
    AdvancedSeconds(c, Members(e.hours), 24, HOUR_OF_DAY);
  }

  /** The month step, with everything below the month put to its minimum. */
  lemma LandedMonth(e: CronExpr, c: Moment, fields: set<int>)
    requires Filled(e) && {MINUTE, HOUR_OF_DAY, DAY_OF_MONTH} <= fields
    ensures Reset(Advanced(c, Members(e.months), 12, MONTH), fields) ==
      Moment(MonthAfter(e, c.day), 0, 0, if SECOND in fields then 0 else c.sec)
  {
    hide Members, MonthDay, MonthOf, SetMonth, AddYear;
  }

  /** The seconds that match, or 0, are never late. */
  lemma FineNotHurried(e: CronExpr, c: Moment)
    requires Filled(e) && (c.sec == 0 || c.sec in Members(e.seconds))
    ensures !Hurried(e, c)
  {
    hide Members, Landed, Matches;
  }

  // ----- every result the earliest match -----

  /** Nothing can make the search pass over a match. */
  ghost predicate Punctual(e: CronExpr)
    requires Filled(e)
  {
    Settled(e) && Unskipped(e) && forall c :: Clock(c) ==> !Hurried(e, c)
  }

  lemma MonthAfterIsLater(e: CronExpr, day: nat)
    requires Filled(e) && Mon(day) !in Members(e.months)
    ensures day < MonthAfter(e, day)
  {
    hide Members, MonthDay, MonthOf, SetMonth, AddYear, Mon, MDay, Advanced;
    var fields := {MINUTE, HOUR_OF_DAY, DAY_OF_MONTH};
    var c := Moment(day, 0, 0, 0);
    MonthStep(e, c, fields);
    LandedMonth(e, c, fields);
    if MonthAfter(e, day) <= day { MonthOfGrows(MonthAfter(e, day), day); }
  }

  /** The first move reaches a later minute. */
  lemma LandedLater(e: CronExpr, c: Moment, keep: bool)
    requires Filled(e) && Clock(c) && c.sec in Members(e.seconds) && !Matches(e, c)
    ensures var c' := Landed(e, c, keep); Clock(c') && forall v: nat :: Before(c, c'.(sec := v))
  {
    hide Members, OnDay, MDay, Mon, StopFrom, MonthAfter, SetMonth, AddYear;
    if c.min in Members(e.minutes) && c.hour in Members(e.hours) {
      var n := StopFound(e, c.day, 366);
      if Mon(c.day + n) !in Members(e.months) { MonthAfterIsLater(e, c.day + n); }
    }
  }

  /** ... and does not go far. */
  lemma LandedNear(e: CronExpr, c: Moment, keep: bool)
    requires Filled(e) && Clock(c)
    ensures MonthOf(Landed(e, c, keep).day) <= MonthOf(c.day) + 26
  {
    hide Members, OnDay, MDay, Mon, MonthOf, MonthDay, StopFrom, MonthAfter, SetMonth, AddYear;
    var n := StopFound(e, c.day, 366);
    MonthsPast(c.day, c.day + n);
    MonthsPast(c.day, c.day + 1);
    if Mon(c.day + n) !in Members(e.months) { MonthAfterIsNear(e, c.day + n); }
  }

  lemma MonthAfterIsNear(e: CronExpr, day: nat)
    requires Filled(e) && Mon(day) !in Members(e.months)
    ensures MonthOf(MonthAfter(e, day)) <= MonthOf(day) + 12
  {
    hide Members, MonthDay, MonthOf, SetMonth, AddYear, Mon, MDay, Advanced;
    var fields := {MINUTE, HOUR_OF_DAY, DAY_OF_MONTH};
    MonthStep(e, Moment(day, 0, 0, 0), fields);
    LandedMonth(e, Moment(day, 0, 0, 0), fields);
  }

  lemma MonthsPast(a: nat, b: nat)
    requires a <= b <= a + 366
    ensures MonthOf(b) <= MonthOf(a) + 14
  {
    var k := MonthOf(a);
    hide MonthOf;
    if MonthOf(b) > k + 14 { MonthDayGrows(k + 1, MonthOf(b)); }
  }

  lemma SecondsMovedNear(e: CronExpr, c: Moment)
    requires Filled(e)
    ensures MonthOf(SecondsMoved(e, c).day) <= MonthOf(c.day) + 14
  {
    hide Members, MonthOf, MonthDay, SetMonth, AddYear;
    MonthsPast(c.day, c.day);
    MonthsPast(c.day, c.day + 1);
  }

  lemma SecondsMovedLater(e: CronExpr, c: Moment)
    requires Filled(e) && Clock(c) && c.sec !in Members(e.seconds)
    ensures var c' := SecondsMoved(e, c); Clock(c') && c'.sec in Members(e.seconds) && Before(c, c')
  {
    hide Members, MonthDay, MonthOf, SetMonth;
  }

  /** A late search has passed over a match. */
  lemma HurryMisses(e: CronExpr, c: Moment) returns (x: Moment)
    requires Filled(e) && Clock(c) && Hurried(e, c)
    ensures var c' := Landed(e, SecondsMoved(e, c), true);
      Clock(x) && Clock(c') && Matches(e, x) && Before(c, x) && Before(x, c')
  {
    hide OnDay, Mon, Members, SecondsMoved, Landed;
    var c1 := SecondsMoved(e, c);
    x := Landed(e, c1, true).(sec := First(Members(e.seconds), 0, 60));
    SecondsMovedLater(e, c);
    LandedLater(e, c1, true);
    KeptSeconds(e, c1);
  }

  lemma KeptSeconds(e: CronExpr, c: Moment)
    requires Filled(e)
    ensures Landed(e, c, true).sec == c.sec
  {
    hide OnDay, Mon, MDay, Members, Advanced, StopFrom, MonthAfter;
  }

  lemma LandedSeconds(e: CronExpr, c: Moment, keep: bool)
    requires Filled(e)
    ensures Landed(e, c, keep).sec == 0 || Landed(e, c, keep).sec == c.sec
  {
    hide OnDay, Mon, MDay, Members, Advanced, StopFrom, MonthAfter;
  }

  /** A skipped day is skipped from some date whose time of day matches. */
  lemma SkipMisses(e: CronExpr) returns (c: Moment, x: Moment)
    requires Filled(e) && !Unskipped(e)
    ensures Clock(c) && c.sec in Members(e.seconds) && !Matches(e, c)
    ensures Clock(x) && Matches(e, x) && Before(c, x) && Before(x, Landed(e, c, false))
  {
    hide OnDay, Mon, MDay, StopFrom, MonthAfter, Members;
    var day: nat, d: nat :| Skips(e, day, d);
    var from: nat :| StopDay(e, from) == day && MDay(from) == MDay(day);
    var h, m, s := First(Members(e.hours), 0, 24), First(Members(e.minutes), 0, 60), First(Members(e.seconds), 0, 60);
    c, x := Moment(from, h, m, s), Moment(d, h, m, s);
    var n := StopFound(e, from, 366);
  }

  /** With every month open there is no month step. */
  lemma OpenMonthsUnskipped(e: CronExpr)
    requires Filled(e) && forall i :: 0 <= i < 12 ==> i in Members(e.months)
    ensures Unskipped(e)
  {
    hide Members, OnDay, MonthAfter, StopFrom, MonthOf;
    forall day: nat, d: nat ensures !Skips(e, day, d) {
      assert Mon(day) in Members(e.months);
    }
  }

  /** With one second of the minute allowed the seconds are never late. */
  lemma OneSecondNotHurried(e: CronExpr, c: Moment)
    requires Filled(e) && forall s :: s in Members(e.seconds) ==> s == First(Members(e.seconds), 0, 60)
    ensures !Hurried(e, c)
  {
    hide OnDay, Members, Landed;
  }
}
