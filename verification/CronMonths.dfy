/** Where the month step of the search leads. */
module CronMonths {
  import opened CronBits
  import opened CronCalendar
  import opened CronDays
  import opened CronSearch

  /** The month step reaches a later month, at most twelve on.  From a day before the
    * 29th it is at most eleven on, and an open one. */
  lemma MonthStep(e: CronExpr, c: Moment, fields: set<int>)
    requires Filled(e) && Clock(c) && Mon(c.day) !in Members(e.months) && CronSearch.Lower(fields)
    ensures var c', k := Reset(Advanced(c, Members(e.months), 12, MONTH), fields), MonthOf(c.day);
      && Clock(c') && k < MonthOf(c'.day) <= k + 12
      && (MDay(c.day) <= 28 ==> MonthOf(c'.day) <= k + 11 && Mon(c'.day) in Members(e.months))
      && (DAY_OF_MONTH in fields ==> MDay(c'.day) == 1)
      && (MINUTE in fields && HOUR_OF_DAY in fields ==>
            c'.min == 0 == c'.hour && (c'.sec == 0 || c'.sec == c.sec))
  {
    hide Members, MonthLen, MonthOf, MonthDay, SetMonth, AddYear, MDay;
    var s, k, mon := Members(e.months), MonthOf(c.day), Mon(c.day);
    var c' := Advanced(c, s, 12, MONTH);
    if Any(s, mon, 12) {
      LaterInYear(c.day, First(s, mon, 12));
    } else {
      assert First(s, 0, 12) < mon;
      InNextYear(c.day, First(s, 0, 12));
    }
    hide Mon, Advanced;
    InMonth(c'.day);
  }

  /** From month number `k` to a later one, and to month `mon` at once from an early day. */
  ghost predicate MonthGoes(k: nat, day: nat, day': nat, mon: nat) {
    && k < MonthOf(day') <= k + 12
    && (MDay(day) <= 28 ==> MonthOf(day') <= k + 11 && Mon(day') == mon)
  }

  lemma LaterInYear(day: nat, f: nat)
    requires Mon(day) < f < 12
    ensures MonthGoes(MonthOf(day), day, SetMonth(day, f), f)
  {
    hide MonthLen, MonthOf, MonthDay, SetMonth, MDay;
    SetMonthGoes(day, f);
  }

  lemma InNextYear(day: nat, f: nat)
    requires f < Mon(day)
    ensures MonthGoes(MonthOf(day), day, SetMonth(SetMonth(AddYear(day), 0), f), f)
  {
    hide MonthLen, MonthOf, MonthDay, SetMonth, AddYear, MDay;
    AddYearGoes(day);
    SetMonthGoes(AddYear(day), 0);
    SetMonthGoes(SetMonth(AddYear(day), 0), f);
  }

  /** The first of the month. */
  lemma InMonth(day: nat)
    ensures var first := MonthDay(MonthOf(day)); MonthOf(first) == MonthOf(day) && MDay(first) == 1
  {
    hide MonthOf, MonthLen;
    DayOfMonth(MonthOf(day), 1);
  }

  lemma SetMonthGoes(day: nat, mon: nat)
    requires mon < 12
    ensures var k, k' := 12 * (MonthOf(day) / 12) + mon, MonthOf(SetMonth(day, mon));
      && k <= k' <= k + 1 && k' / 12 <= k / 12 + 1
      && (MDay(day) <= MonthLen(k) ==>
            && k' == k && k' / 12 == MonthOf(day) / 12 && k' % 12 == mon
            && MDay(SetMonth(day, mon)) == MDay(day))
  {
    hide MonthOf, MonthLen;
    var k := 12 * (MonthOf(day) / 12) + mon;
    YearAndMonth(MonthOf(day) / 12, mon);
    if MDay(day) <= MonthLen(k) {
      DayOfMonth(k, MDay(day));
    } else {
      NumberRange(day);
      DayOfMonth(k + 1, MDay(day) - MonthLen(k));
    }
  }

  lemma YearAndMonth(y: nat, mon: nat)
    requires mon < 12
    ensures var k := 12 * y + mon; k / 12 == y && k % 12 == mon && (k + 1) / 12 <= y + 1
  {
  }

  /** A year on is the same month, or March for 29 February. */
  lemma AddYearGoes(day: nat)
    ensures MonthOf(AddYear(day)) / 12 == MonthOf(day) / 12 + 1
    ensures MDay(day) <= 28 ==> MDay(AddYear(day)) == MDay(day)
  {
    var k := MonthOf(day);
    YearOn(k);
    hide MonthOf, MonthLen;
    if MDay(day) <= MonthLen(k + 12) {
      DayOfMonth(k + 12, MDay(day));
    } else {
      DayOfMonth(k + 13, 1);
    }
  }

  lemma YearOn(k: nat)
    ensures (k + 12) / 12 == k / 12 + 1
    ensures MonthLen(k + 12) < MonthLen(k) ==> MonthLen(k) == MonthLen(k + 12) + 1 && (k + 13) / 12 == k / 12 + 1
  {
    assert (k + 12) % 12 == k % 12;
    assert k % 12 == 1 ==> (k + 13) / 12 == k / 12 + 1;
  }
}
