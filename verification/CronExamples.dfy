/** Three concrete searches that go wrong. */
module CronExamples {
  import opened CronBits
  import opened CronCalendar
  import opened CronDays
  import opened CronEarliest
  import opened CronNext
  import opened CronSearch

  const EVERY_MONTH: Bits := [0xff, 0x0f]

  /** 09:00 on every Friday the 13th. */
  const UNLUCKY := CronExpr([1, 0, 0, 0, 0, 0, 0, 0], [1, 0, 0, 0, 0, 0, 0, 0], [0, 2, 0],
                            [0x20], [0, 0x20, 0, 0], EVERY_MONTH)

  /** The day search goes from Tuesday 13 January 1970 to Friday 13 February.
    * `do_next` takes the day for unmoved, and leaves the time of day at midnight. */
  lemma SameNumberMissed()
    ensures Usable(UNLUCKY) && Stuck(UNLUCKY, Moment(12, 9, 0, 0)) && StopDay(UNLUCKY, 12) == 43
    ensures !Matches(UNLUCKY, Moment(43, 0, 0, 0))
  {
    UnluckyFields();
    FirstDays();
    hide Members, MDay, Mon, StopFrom;
    assert WDay(43) == 5;
    forall i | 12 <= i < 12 + 31 ensures !DayOk(UNLUCKY, i) {
      if MDay(i) == 13 { assert WDay(i) == 2; }
    }
    StopIs(UNLUCKY, 12, 366, 31);
  }

  lemma FirstDays()
    ensures forall i: nat :: i < 59 ==>
      MDay(i) == (if i < 31 then i + 1 else i - 30) && Mon(i) == (if i < 31 then 0 else 1)
  {
    assert MonthDay(1) == 31 && MonthDay(2) == 59;
    assert MonthDay(0) == 0;
    hide MonthDay, MonthOf;
    forall i: nat | i < 59
      ensures MDay(i) == (if i < 31 then i + 1 else i - 30) && Mon(i) == (if i < 31 then 0 else 1)
    {
      MonthOfIs(i, if i < 31 then 0 else 1);
    }
  }

  lemma UnluckyFields()
    ensures Usable(UNLUCKY)
    ensures 0 in Members(UNLUCKY.seconds) && 0 in Members(UNLUCKY.minutes)
    ensures 9 in Members(UNLUCKY.hours) && 0 !in Members(UNLUCKY.hours)
    ensures forall j :: j in Members(UNLUCKY.days_of_month) <==> j == 13
    ensures 5 in Members(UNLUCKY.days_of_week) && 2 !in Members(UNLUCKY.days_of_week)
    ensures 0 in Members(EVERY_MONTH) && 1 in Members(EVERY_MONTH)
  {
    var e := UNLUCKY;
    assert GetBit(e.seconds, 0) && GetBit(e.minutes, 0) && GetBit(e.hours, 9) && !GetBit(e.hours, 0);
    assert GetBit(e.days_of_month, 13) && GetBit(e.days_of_week, 5) && !GetBit(e.days_of_week, 2);
    assert GetBit(EVERY_MONTH, 0) && GetBit(EVERY_MONTH, 1);
    assert 0 in Members(e.seconds) && 0 in Members(e.minutes) && 9 in Members(e.hours);
    assert 13 in Members(e.days_of_month) && 5 in Members(e.days_of_week) && 0 in Members(EVERY_MONTH);
    forall j | 0 <= j < 32 && j != 13
      ensures !GetBit(e.days_of_month, j)
    {
      if j / 8 == 1 {
        assert e.days_of_month[1] == 0x20;
        assert j % 8 != 5;
      }
    }
  }

  /** So from 13 January 1970, 09:00, the answer is 13 February at midnight. */
  method UnluckyNext() returns (next: int)
    ensures next == 86400 * 43 && !Matches(UNLUCKY, At(next))
  {
    SameNumberMissed();
    var c := Moment(12, 9, 0, 0);
    AtIs(Time(c), c);
    AtIs(86400 * 43, Moment(43, 0, 0, 0));
    hide At, Matches, Stuck, Usable, StopDay;
    next := CronNext.CronNext(UNLUCKY, Time(c));
  }

  /** Seconds 5 and 10 of the first minute of every day. */
  const HURRIED := CronExpr([0x20, 4, 0, 0, 0, 0, 0, 0], [2, 0, 0, 0, 0, 0, 0, 0], [1, 0, 0],
                            [0x7f], [0xff, 0xff, 0xff, 0xff], EVERY_MONTH)

  lemma HurriedTimes()
    ensures var s := HURRIED.seconds;
      GetBit(s, 5) && GetBit(s, 10) && forall i :: 0 <= i < 10 && i != 5 ==> !GetBit(s, i)
    ensures GetBit(HURRIED.minutes, 1) && !GetBit(HURRIED.minutes, 0) && GetBit(HURRIED.hours, 0)
  {
  }

  lemma HurriedDays()
    ensures GetBit(HURRIED.days_of_month, 1) && GetBit(HURRIED.days_of_week, 4) && GetBit(EVERY_MONTH, 0)
    ensures MDay(0) == 1 && WDay(0) == 4 && Mon(0) == 0
  {
    FirstDays();
  }

  lemma HurriedFields()
    ensures Usable(HURRIED) && HurriedField(HURRIED)
  {
    HurriedTimes();
    HurriedDays();
    AllDays();
    hide GetBit, Mon, MDay, WDay;
    var e := HURRIED;
    assert 5 in Members(e.seconds) && 1 in Members(e.minutes) && 0 in Members(e.hours);
    assert 1 in Members(e.days_of_month) && 4 in Members(e.days_of_week) && 0 in Members(e.months);
  }

  predicate HurriedField(e: CronExpr) {
    && 5 in Members(e.seconds) && 10 in Members(e.seconds)
    && (forall j :: 0 <= j < 10 && j != 5 ==> j !in Members(e.seconds))
    && 0 !in Members(e.minutes) && 1 in Members(e.minutes) && 0 in Members(e.hours)
    && DayOk(e, 0) && Mon(0) in Members(e.months) && OneDayField(e)
  }

  /** An advance within the unit above. */
  lemma AdvancedTo(c: Moment, s: set<int>, field: int, v: nat)
    requires (field == SECOND && c.sec <= v) || (field == MINUTE && c.min <= v)
    requires v < 60 && v in s && forall j :: Get(c, field) <= j < v ==> j !in s
    ensures Any(s, 0, 60)
    ensures Advanced(c, s, 60, field) == if field == SECOND then c.(sec := v) else c.(min := v)
  {
    hide Carry;
    assert Any(s, Get(c, field), 60);
    PutClock(c, v);
  }

  lemma HurriedMoved(e: CronExpr)
    requires Filled(e) && HurriedField(e)
    ensures var c := Moment(0, 0, 0, 7);
      Hurried(e, c) && !Matches(e, c) && Landed(e, SecondsMoved(e, c), true) == Moment(0, 0, 1, 10)
  {
    hide Members, Mon, DayOk, Advanced, Filled, MonthAfter, StopFrom;
    AdvancedTo(Moment(0, 0, 0, 7), Members(e.seconds), SECOND, 10);
    AdvancedTo(Moment(0, 0, 0, 10), Members(e.minutes), MINUTE, 1);
  }

  lemma AtSeconds()
    ensures At(7) == Moment(0, 0, 0, 7) && At(65) == Moment(0, 0, 1, 5)
  {
    AtIs(7, Moment(0, 0, 0, 7));
    AtIs(65, Moment(0, 0, 1, 5));
  }

  method NextFromSeven(e: CronExpr) returns (next: int)
    requires Usable(e) && HurriedField(e)
    ensures next == 70 && Matches(e, At(65))
  {
    hide At, Filled, SecondsMoved, Hurried, Settled, Stuck, StopDay, Tame, Members, DayOk, Mon, Landed, Misleads;
    hide Right, OneDayField;
    AtSeconds();
    HurriedMoved(e);
    OpenDaySettles(e);
    next := CronNext.CronNext(e, 7);
  }

  /** From 00:00:07 the seconds move to 10 and stay there when the minute moves: the
    * answer is 00:01:10, although 00:01:05 matches as well. */
  method HurriedNext() returns (next: int)
    ensures next == 70 && Matches(HURRIED, At(65)) && 7 < 65 < next
  {
    HurriedFields();
    hide Usable, HurriedField, Matches;
    next := NextFromSeven(HURRIED);
  }

  // ----- a month passed over -----

  /** Midnight of every day of February. */
  const FEBRUARY := CronExpr([1, 0, 0, 0, 0, 0, 0, 0], [1, 0, 0, 0, 0, 0, 0, 0], [1, 0, 0],
                             [0x7f], [0xff, 0xff, 0xff, 0xff], [2, 0])

  predicate FebruaryField(e: CronExpr) {
    && 0 in Members(e.seconds) && 0 in Members(e.minutes) && 0 in Members(e.hours)
    && 0 !in Members(e.months) && 1 in Members(e.months)
    && (forall i :: 1 <= i < 32 ==> i in Members(e.days_of_month))
    && (forall i :: 0 <= i < 7 ==> i in Members(e.days_of_week))
  }

  lemma FebruaryFields()
    ensures Usable(FEBRUARY) && FebruaryField(FEBRUARY)
  {
    var e := FEBRUARY;
    assert GetBit(e.seconds, 0) && GetBit(e.minutes, 0) && GetBit(e.hours, 0);
    assert !GetBit(e.months, 0) && GetBit(e.months, 1);
    AllDays();
    hide GetBit;
    assert 0 in Members(e.seconds) && 0 in Members(e.minutes) && 0 in Members(e.hours) && 1 in Members(e.months);
    assert 1 in Members(e.days_of_month) && 1 in Members(e.days_of_week);
  }

  lemma AllDays()
    ensures forall i :: 0 <= i < 7 ==> GetBit([0x7f], i)
    ensures forall i :: 0 <= i < 32 ==> GetBit([0xff, 0xff, 0xff, 0xff], i)
  {
  }

  /** The month of 31 January set to February runs over into March. */
  lemma FebruarySkipped(e: CronExpr)
    requires Filled(e) && FebruaryField(e)
    ensures !Matches(e, Moment(30, 0, 0, 0)) && Landed(e, Moment(30, 0, 0, 0), false) == Moment(59, 0, 0, 0)
    ensures Matches(e, Moment(31, 0, 0, 0)) && Tame(e)
  {
    FirstDays();
    EveryDay(e, 30);
    EveryDay(e, 31);
    FebruaryStep(e);
    hide Members, MDay, WDay, Mon, DayOk, MonthAfter;
  }

  lemma EveryDay(e: CronExpr, day: nat)
    requires FebruaryField(e)
    ensures DayOk(e, day) && StopDay(e, day) == day
  {
    hide Members, MonthOf;
    NumberRange(day);
    WeekdayRange(day);
  }

  lemma FebruaryStep(e: CronExpr)
    requires Filled(e) && FebruaryField(e)
    ensures MonthAfter(e, 30) == 59
  {
    assert MonthDay(1) == 31 && MonthDay(2) == 59 && MonthDay(3) == 90;
    MonthOfIs(30, 0);
    MonthOfIs(61, 2);
    hide Members, MonthOf, MonthDay, Carry;
    assert Any(Members(e.months), 0, 12) && First(Members(e.months), 0, 12) == 1;
    assert SetMonth(30, 1) == 61;
  }

  method NextFromJanuary(e: CronExpr) returns (next: int)
    requires Usable(e) && FebruaryField(e)
    ensures next >= 86400 * 59 && Matches(e, At(86400 * 31))
  {
    hide At, Filled, SecondsMoved, Hurried, Settled, Stuck, StopDay, Members, DayOk, Mon, Landed, Misleads;
    hide Right, OneDayField, MonthAfter, Unskipped;
    FebruarySkipped(e);
    AtIs(86400 * 30, Moment(30, 0, 0, 0));
    AtIs(86400 * 31, Moment(31, 0, 0, 0));
    OpenDaySettles(e);
    next := CronNext.CronNext(e, 86400 * 30);
  }

  /** From midnight of 31 January 1970 the answer is not before March, although
    * every midnight of February matches. */
  method FebruaryNext() returns (next: int)
    ensures next >= 86400 * 59 && Matches(FEBRUARY, At(86400 * 31)) && !Right(FEBRUARY, 86400 * 30, next)
  {
    FebruaryFields();
    hide Usable, FebruaryField, Matches;
    next := NextFromJanuary(FEBRUARY);
  }
}
