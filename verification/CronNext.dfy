/** Why the search ends, and at a time that matches. */
module CronNext {
  import opened CronBits
  import opened CronCalendar
  import opened CronDays
  import opened CronEarliest
  import opened CronMonths
  import opened CronSearch

  // ----- what is left of a day -----

  /** A second not before `s` matches. */
  predicate SecLeft(e: CronExpr, s: int) {
    Any(Members(e.seconds), s, 60)
  }

  predicate MinLeft(e: CronExpr, m: int, s: int) {
    Any(Members(e.minutes), m + 1, 60) || (m in Members(e.minutes) && SecLeft(e, s))
  }

  /** A time of day not before that of `c` matches. */
  predicate TimeLeft(e: CronExpr, c: Moment) {
    Any(Members(e.hours), c.hour + 1, 24) || (c.hour in Members(e.hours) && MinLeft(e, c.min, c.sec))
  }

  /** Before the next change of month the search cannot get past day `last`. */
  predicate Room(e: CronExpr, c: Moment, last: nat) {
    DayOk(e, last) && (c.day < last || (c.day == last && TimeLeft(e, c)))
  }

  // ----- every step goes forward and leaves room -----

  ghost predicate Onward(e: CronExpr, c: Moment, c': Moment, last: nat) {
    Clock(c') && Time(c) < Time(c') && c.day <= c'.day && Room(e, c', last)
  }

  lemma SecondStep(e: CronExpr, c: Moment, last: nat)
    requires Filled(e) && Clock(c) && Room(e, c, last) && c.sec !in Members(e.seconds)
    ensures var c' := Advanced(c, Members(e.seconds), 60, SECOND);
      Onward(e, c, c', last) && c'.sec in Members(e.seconds)
  {
    hide Members, OnDay, Put;
    var s := Members(e.seconds);
    var c' := Advanced(c, s, 60, SECOND);
    if Any(s, c.sec, 60) {
      assert c' == c.(sec := First(s, c.sec, 60)) by { PutClock(c, First(s, c.sec, 60)); }
      assert SecLeft(e, c'.sec);
    } else {
      var carried := Carry(c, MINUTE);
      assert c' == carried.(sec := First(s, 0, 60)) by {
        PutClock(carried, 0);
        PutClock(carried.(sec := 0), First(s, 0, 60));
      }
      assert SecLeft(e, c'.sec);
      assert Any(Members(e.minutes), 0, 60) && Any(Members(e.hours), 0, 24);
      assert MinLeft(e, 0, c'.sec);
    }
  }

  lemma MinuteStep(e: CronExpr, c: Moment, fields: set<int>, last: nat)
    requires Filled(e) && Clock(c) && Room(e, c, last)
    requires SecFine(e, c.sec) && c.min !in Members(e.minutes) && fields <= {SECOND}
    ensures Onward(e, c, Reset(Advanced(c, Members(e.minutes), 60, MINUTE), fields), last)
  {
    hide Members, OnDay, Put;
    var s := Members(e.minutes);
    var c' := Reset(Advanced(c, s, 60, MINUTE), fields);
    FromStart(e, c, fields);
    if Any(s, c.min, 60) {
      PutClock(c, First(s, c.min, 60));
      assert MinLeft(e, c'.min, c'.sec);
    } else {
      var carried := Carry(c, HOUR_OF_DAY);
      PutClock(carried, 0);
      PutClock(carried.(min := 0), First(s, 0, 60));
      assert MinLeft(e, c'.min, c'.sec);
      assert Any(Members(e.hours), 0, 24);
    }
  }

  lemma HourStep(e: CronExpr, c: Moment, fields: set<int>, last: nat)
    requires Filled(e) && Clock(c) && Room(e, c, last)
    requires SecFine(e, c.sec) && (c.min == 0 || MINUTE in fields) && c.hour !in Members(e.hours)
    requires fields <= {SECOND, MINUTE}
    ensures Onward(e, c, Reset(Advanced(c, Members(e.hours), 24, HOUR_OF_DAY), fields), last)
  {
    hide Members, OnDay, Put;
    var s := Members(e.hours);
    var c' := Reset(Advanced(c, s, 24, HOUR_OF_DAY), fields);
    FromStart(e, c, fields);
    if Any(s, c.hour, 24) {
      PutClock(c, First(s, c.hour, 24));
    } else {
      var carried := Carry(c, DAY_OF_WEEK);
      PutClock(carried, 0);
      PutClock(carried.(hour := 0), First(s, 0, 24));
    }
  }

  predicate SecFine(e: CronExpr, s: int) {
    s == 0 || s in Members(e.seconds)
  }

  /** The seconds, kept because they match or put to 0, leave a second to come; so does
    * minute 0 leave a minute, and hour 0 an hour. */
  lemma FromStart(e: CronExpr, c: Moment, fields: set<int>)
    requires Filled(e) && SecFine(e, c.sec) && Clock(c)
    ensures var s := if SECOND in fields then 0 else c.sec;
      SecLeft(e, s) && MinLeft(e, 0, s) && TimeLeft(e, Moment(c.day, 0, 0, s))
  {
    var s := if SECOND in fields then 0 else c.sec;
    assert Any(Members(e.seconds), s, 60);
    assert Any(Members(e.minutes), 0, 60);
    assert Any(Members(e.hours), 0, 24);
    assert MinLeft(e, 0, s);
  }

  /** The day search goes forward, to midnight of the day it stops at, and not past
    * the next day that matches. */
  lemma DayStep(e: CronExpr, c: Moment, n: nat, fields: set<int>, last: nat)
    requires Usable(e) && Clock(c) && Room(e, c, last) && 0 < n <= 366
    requires SecFine(e, c.sec) && fields <= {SECOND, MINUTE, HOUR_OF_DAY}
    requires (c.min == 0 || MINUTE in fields) && (c.hour == 0 || HOUR_OF_DAY in fields)
    requires forall i :: c.day <= i < c.day + n ==> !DayOk(e, i)
    ensures var c' := Reset(c.(day := c.day + n), fields);
      && Onward(e, c, c', last)
      && c' == Moment(c.day + n, 0, 0, if SECOND in fields then 0 else c.sec)
  {
    hide Members, MDay, WDay, MonthOf, MonthLen, MonthDay;
    FromStart(e, c.(day := c.day + n), fields);
    assert c.day + n <= last;
    assert !DayOk(e, c.day);
  }

  lemma PutClock(c: Moment, val: nat)
    ensures Put(c, SECOND, val) == c.(sec := val)
    ensures Put(c, MINUTE, val) == c.(min := val)
    ensures Put(c, HOUR_OF_DAY, val) == c.(hour := val)
  {
  }

  // ----- the search -----

  /** The search gives up when a month step reaches this month. */
  function MonthLimit(dot: int): int {
    12 * (dot + 5 - 70)
  }

  /** Months to go until the search gives up. */
  function MonthsLeft(dot: int, day: nat): nat {
    var limit := MonthLimit(dot);
    if MonthOf(day) < limit then limit - MonthOf(day) else 0
  }

  /** Seconds to go until the end of day `last`. */
  function TimeTo(last: nat, c: Moment): nat {
    var end := 86400 * (last + 1);
    if Time(c) < end then end - Time(c) else 0
  }

  lemma Measure(e: CronExpr, dot: int, c: Moment, c': Moment, last: nat)
    requires c == c' || Onward(e, c, c', last)
    requires Clock(c) && Room(e, c, last)
    ensures MonthsLeft(dot, c'.day) <= MonthsLeft(dot, c.day)
    ensures 0 < TimeTo(last, c') <= TimeTo(last, c)
    ensures MonthOf(c.day) / 12 <= MonthOf(c'.day) / 12
    ensures Clock(c') && Room(e, c', last) && Time(c) <= Time(c') && c.day <= c'.day
    ensures Onward(e, c, c', last) ==> TimeTo(last, c') < TimeTo(last, c)
  {
    hide MonthOf, OnDay;
    MonthOfGrows(c.day, c'.day);
  }

  lemma MonthMeasure(dot: int, day: nat, day': nat)
    requires MonthOf(day) < MonthOf(day') && MonthOf(day') / 12 + 70 - dot <= 4
    ensures MonthsLeft(dot, day') < MonthsLeft(dot, day)
  {
    hide MonthOf;
  }

  /** Midnight of a day in an open month, left when the day search stalls. */
  ghost predicate Midnight(e: CronExpr, c: Moment) {
    && !Settled(e)
    && c.hour == 0 == c.min && SecFine(e, c.sec) && Mon(c.day) in Members(e.months)
  }

  /** Where a search ends. */
  ghost predicate Done(e: CronExpr, c: Moment) {
    Matches(e, c) || Midnight(e, c)
  }

  /** The fields below the hour are searched, and the minutes will be put to 0 when a
    * higher field moves; or the search is over. */
  ghost predicate UpToMinutes(e: CronExpr, c: Moment, fields: set<int>) {
    || Done(e, c)
    || (c.sec in Members(e.seconds) && c.min in Members(e.minutes) && MINUTE in fields)
  }

  ghost predicate UpToHours(e: CronExpr, c: Moment, fields: set<int>) {
    || Done(e, c)
    || (&& c.sec in Members(e.seconds) && c.min in Members(e.minutes) && c.hour in Members(e.hours)
        && MINUTE in fields && HOUR_OF_DAY in fields)
  }

  /** Only the month can still move. */
  ghost predicate UpToDays(e: CronExpr, c: Moment, fields: set<int>) {
    && (Mon(c.day) in Members(e.months) ==> Done(e, c))
    && (Tame(e) && Mon(c.day) !in Members(e.months) ==>
          SecFine(e, c.sec) && {MINUTE, HOUR_OF_DAY, DAY_OF_MONTH} <= fields)
  }

  /** A nested search that starts here ends over, in a later month, or still with room. */
  ghost predicate Progress(e: CronExpr, dot: int, last: nat, c: Moment, c': Moment) {
    Matches(e, c') || MonthsLeft(dot, c'.day) < MonthsLeft(dot, c.day) || Room(e, c', last)
  }

  /** Where the day search stalls, when the time of day matches. */
  ghost predicate Stuck(e: CronExpr, c: Moment) {
    && c.sec in Members(e.seconds) && c.min in Members(e.minutes) && c.hour in Members(e.hours)
    && Stalls(e, c.day)
  }

  /** What the search makes of `c`, whose seconds match, ending at `c'`: it does not stop
    * before its first move ends, stops there at a match, and passes over no match
    * unless it is rushed or skips a day. */
  ghost predicate Found(e: CronExpr, c: Moment, keep: bool, c': Moment)
    requires Filled(e)
  {
    && !Before(c', Landed(e, c, keep))
    && (Matches(e, Landed(e, c, keep)) ==> c' == Landed(e, c, keep))
    && (Unskipped(e) && !Rushed(e, c, keep) ==> NoneFrom(e, c, c'))
  }

  lemma FoundHere(e: CronExpr, c: Moment, keep: bool)
    requires Filled(e) && Clock(c) && c.sec in Members(e.seconds)
    ensures Found(e, c, keep, Landed(e, c, keep))
  {
    hide Members, OnDay, Landed, Rushed, Unskipped, NoneFrom;
    if Unskipped(e) && !Rushed(e, c, keep) { LandedMisses(e, c, keep); }
  }

  /** After the first move the search goes on from there. */
  lemma FoundLater(e: CronExpr, c: Moment, keep: bool, c2: Moment, c': Moment)
    requires Filled(e) && Clock(c) && c.sec in Members(e.seconds) && Clock(c2) && Clock(c')
    requires c2 == Landed(e, c, keep) && Time(c2) <= Time(c') && (Matches(e, c2) ==> c' == c2)
    requires Unskipped(e) && !Hurried(e, c2) ==> NoneFrom(e, c2, c')
    ensures Found(e, c, keep, c')
  {
    BeforeIsEarlier(c', c2);
    LandedSeconds(e, c, keep);
    hide Members, OnDay, Landed, Rushed, Unskipped, NoneFrom, Hurried, Time;
    FineNotHurried(e, c2);
    if Unskipped(e) && !Rushed(e, c, keep) {
      LandedMisses(e, c, keep);
      NoneOn(e, c, c2, c');
    }
  }

  /** What `do_next` makes of `c`. */
  ghost predicate SearchedFrom(e: CronExpr, c: Moment, c': Moment)
    requires Filled(e)
  {
    && Found(e, SecondsMoved(e, c), c.sec !in Members(e.seconds), c')
    && (Unskipped(e) && !Hurried(e, c) ==> NoneFrom(e, c, c'))
  }

  lemma FoundFrom(e: CronExpr, c: Moment, c': Moment)
    requires Filled(e) && Clock(c) && Found(e, SecondsMoved(e, c), c.sec !in Members(e.seconds), c')
    ensures SearchedFrom(e, c, c')
  {
    hide Members, OnDay, Landed, Unskipped, NoneFrom, Before;
    if c.sec !in Members(e.seconds) && Unskipped(e) && !Hurried(e, c) {
      SecondMisses(e, c);
      NoneOn(e, c, SecondsMoved(e, c), c');
    }
  }

  /** With one day field open a search does not get far past the point where it would
    * give up. */
  ghost predicate Bounded(e: CronExpr, dot: int, last: nat, c: Moment) {
    OneDayField(e) ==> c.day <= last || MonthOf(c.day) < MonthLimit(dot) + 4
  }

  /** Nothing matches from `c` on before the search gives up. */
  ghost predicate NoneInTime(e: CronExpr, c: Moment, dot: int) {
    forall x :: Clock(x) && Matches(e, x) && !Before(x, c) ==> MonthOf(x.day) >= MonthLimit(dot)
  }

  /** The search gives up where its first move has led. */
  lemma GivenUp(e: CronExpr, c: Moment, keep: bool, c2: Moment, dot: int)
    requires Filled(e) && Clock(c) && c.sec in Members(e.seconds) && c2 == Landed(e, c, keep)
    requires MonthOf(c2.day) >= MonthLimit(dot)
    ensures Unskipped(e) && !Rushed(e, c, keep) ==> NoneInTime(e, c, dot)
  {
    hide Members, OnDay, Landed, Rushed, Unskipped, MonthOf, Mon;
    if Unskipped(e) && !Rushed(e, c, keep) {
      LandedMisses(e, c, keep);
      forall x | Clock(x) && Matches(e, x) && !Before(x, c) ensures MonthOf(x.day) >= MonthLimit(dot) {
        MonthOfGrows(c2.day, x.day);
      }
    }
  }

  /** The nested search has given up. */
  lemma LostLater(e: CronExpr, c: Moment, keep: bool, c2: Moment, dot: int)
    requires Filled(e) && Clock(c) && c.sec in Members(e.seconds) && c2 == Landed(e, c, keep)
    requires Unskipped(e) && !Hurried(e, c2) ==> NoneInTime(e, c2, dot)
    ensures Unskipped(e) && !Rushed(e, c, keep) ==> NoneInTime(e, c, dot)
  {
    LandedSeconds(e, c, keep);
    hide Members, OnDay, Landed, Rushed, Unskipped, Hurried, MonthOf, Before, Matches;
    FineNotHurried(e, c2);
    if Unskipped(e) && !Rushed(e, c, keep) { LandedMisses(e, c, keep); }
  }

  lemma LostFrom(e: CronExpr, c: Moment, dot: int)
    requires Filled(e) && Clock(c)
    requires Unskipped(e) && !Rushed(e, SecondsMoved(e, c), c.sec !in Members(e.seconds)) ==>
      NoneInTime(e, SecondsMoved(e, c), dot)
    ensures Unskipped(e) && !Hurried(e, c) ==> NoneInTime(e, c, dot)
  {
    hide Members, OnDay, Landed, Unskipped, MonthOf, Before, Matches;
    if c.sec !in Members(e.seconds) { SecondMisses(e, c); }
  }

  /** In a search that cannot stall, the seconds match from the minutes on. */
  lemma SecondsMatch(e: CronExpr, c: Moment, fields: set<int>)
    requires Usable(e) && (UpToMinutes(e, c, fields) || UpToHours(e, c, fields))
    ensures Filled(e) && (Settled(e) ==> c.sec in Members(e.seconds))
  {
    hide Members, Settled, OnDay;
  }

  /** What is left to the month step: nothing in an open month. */
  ghost predicate Pending(e: CronExpr, c: Moment, keep: bool, c1: Moment, fields: set<int>)
    requires Filled(e)
  {
    && c.sec in Members(e.seconds)
    && Landed(e, c, keep) ==
         if Mon(c1.day) in Members(e.months) then c1
         else Reset(Advanced(c1, Members(e.months), 12, MONTH), fields)
  }

  /** The search cannot fail before its first move has reached the limit. */
  ghost predicate Within(e: CronExpr, c: Moment, keep: bool, dot: int)
    requires Filled(e)
  {
    Matches(e, Landed(e, c, keep)) && MonthOf(Landed(e, c, keep).day) < MonthLimit(dot)
  }

  /** Why the search cannot fail: this month is open, or the next month step leads to
    * one, or there are two years left. */
  ghost predicate Hopeful(e: CronExpr, dot: int, c: Moment, last: nat) {
    Tame(e) ==>
      || (MonthOf(c.day) == MonthOf(last) && Mon(last) in Members(e.months))
      || (MonthOf(c.day) == MonthOf(last) && MDay(last) <= 28 && MonthOf(last) + 11 < MonthLimit(dot))
      || MonthOf(last) + 24 < MonthLimit(dot)
  }

  ghost predicate Slots(arr: array<int>, used: nat)
    reads arr
  {
    arr.Length == CRON_CF_ARR_LEN && forall i :: used <= i < arr.Length ==> arr[i] == -1
  }

  method SecondPart(e: CronExpr, calendar: Tm, resets: array<int>, empty_list: array<int>, ghost last: nat)
    requires Usable(e) && calendar.Normal() && Room(e, calendar.Now(), last)
    requires Slots(resets, 0) && Slots(empty_list, 0) && resets != empty_list
    modifies calendar, resets
    ensures calendar.Normal() && calendar.Now().sec in Members(e.seconds) && Room(e, calendar.Now(), last)
    ensures calendar.Now() == old(calendar.Now()) || Onward(e, old(calendar.Now()), calendar.Now(), last)
    ensures Slots(resets, 1) && Fields(resets[..]) <= {SECOND}
    ensures var c := old(calendar.Now());
      if c.sec in Members(e.seconds) then calendar.Now() == c && SECOND in Fields(resets[..])
      else calendar.Now() == Advanced(c, Members(e.seconds), 60, SECOND) && Fields(resets[..]) == {}
    ensures calendar.Now() == SecondsMoved(e, old(calendar.Now()))
  {
    hide Members, OnDay, Room, Advanced, MonthOf, MDay;
    ghost var c := calendar.Now();
    NoFields(resets[..]);
    NoFields(empty_list[..]);
    ResetNone(Advanced(c, Members(e.seconds), 60, SECOND));
    var second := calendar.tm_sec;
    var update_second := FindNext(e.seconds, CRON_MAX_SECONDS, second, calendar, SECOND, MINUTE, empty_list);
    if second == update_second {
      PushToFieldsArr(resets, SECOND, 0);
    } else {
      SecondStep(e, c, last);
    }
  }

  lemma NoFields(s: seq<int>)
    requires forall i :: 0 <= i < |s| ==> s[i] == -1
    ensures Fields(s) == {}
  {
  }

  method MinutePart(e: CronExpr, calendar: Tm, resets: array<int>, ghost last: nat) returns (moved: bool)
    requires Usable(e) && calendar.Normal() && Room(e, calendar.Now(), last)
    requires calendar.Now().sec in Members(e.seconds)
    requires Slots(resets, 1) && Fields(resets[..]) <= {SECOND}
    modifies calendar, resets
    ensures calendar.Normal() && Slots(resets, 2) && Fields(resets[..]) <= {SECOND, MINUTE}
    ensures moved <==> old(calendar.Now()).min !in Members(e.minutes)
    ensures moved ==>
      && Onward(e, old(calendar.Now()), calendar.Now(), last)
      && calendar.Now() == Landed(e, old(calendar.Now()), SECOND !in old(Fields(resets[..])))
    ensures !moved ==>
      && calendar.Now() == old(calendar.Now()) && UpToMinutes(e, calendar.Now(), Fields(resets[..]))
      && (SECOND in old(Fields(resets[..])) <==> SECOND in Fields(resets[..]))
  {
    hide Members, OnDay, Room, Advanced, Reset, MonthOf, MDay, Matches, Midnight, Landed;
    ghost var c := calendar.Now();
    var minute := calendar.tm_min;
    var update_minute := FindNext(e.minutes, CRON_MAX_MINUTES, minute, calendar, MINUTE, HOUR_OF_DAY, resets);
    moved := minute != update_minute;
    if moved {
      MinuteStep(e, c, Fields(resets[..]), last);
      LandedMinute(e, c, Fields(resets[..]));
    } else {
      PushToFieldsArr(resets, MINUTE, 1);
    }
  }

  method HourPart(e: CronExpr, calendar: Tm, resets: array<int>, ghost last: nat) returns (moved: bool)
    requires Usable(e) && calendar.Normal() && (Matches(e, calendar.Now()) || Room(e, calendar.Now(), last))
    requires UpToMinutes(e, calendar.Now(), Fields(resets[..]))
    requires Slots(resets, 2) && Fields(resets[..]) <= {SECOND, MINUTE}
    modifies calendar, resets
    ensures calendar.Normal() && Slots(resets, 3) && Fields(resets[..]) <= {SECOND, MINUTE, HOUR_OF_DAY}
    ensures moved <==> old(calendar.Now()).hour !in Members(e.hours)
    ensures moved ==>
      && Onward(e, old(calendar.Now()), calendar.Now(), last)
      && (Settled(e) ==> calendar.Now() == Landed(e, old(calendar.Now()), SECOND !in old(Fields(resets[..]))))
    ensures !moved ==>
      && calendar.Now() == old(calendar.Now()) && UpToHours(e, calendar.Now(), Fields(resets[..]))
      && (SECOND in old(Fields(resets[..])) <==> SECOND in Fields(resets[..]))
  {
    hide Members, OnDay, Room, Advanced, Reset, MonthOf, MDay, Settled, Landed;
    ghost var c := calendar.Now();
    var hour := calendar.tm_hour;
    var update_hour := FindNext(e.hours, CRON_MAX_HOURS, hour, calendar, HOUR_OF_DAY, DAY_OF_WEEK, resets);
    moved := hour != update_hour;
    if moved {
      HourStep(e, c, Fields(resets[..]), last);
      if Settled(e) { LandedHour(e, c, Fields(resets[..])); }
    } else {
      PushToFieldsArr(resets, HOUR_OF_DAY, 2);
    }
  }

  method DayPart(e: CronExpr, calendar: Tm, resets: array<int>, ghost last: nat) returns (moved: bool)
    requires Usable(e) && calendar.Normal() && (Matches(e, calendar.Now()) || Room(e, calendar.Now(), last))
    requires UpToHours(e, calendar.Now(), Fields(resets[..]))
    requires Slots(resets, 3) && Fields(resets[..]) <= {SECOND, MINUTE, HOUR_OF_DAY}
    modifies calendar, resets
    ensures calendar.Normal() && CronSearch.Lower(Fields(resets[..]))
    ensures moved ==> Onward(e, old(calendar.Now()), calendar.Now(), last) && !Matches(e, old(calendar.Now()))
    ensures !moved ==> UpToDays(e, calendar.Now(), Fields(resets[..]))
    ensures calendar.Now() == old(calendar.Now()) || Onward(e, old(calendar.Now()), calendar.Now(), last)
    ensures !moved && Tame(e) ==> calendar.Now() == old(calendar.Now())
    ensures Matches(e, old(calendar.Now())) ==> !moved && calendar.Now() == old(calendar.Now())
    ensures Stuck(e, old(calendar.Now())) && SECOND in old(Fields(resets[..])) ==>
      !moved && calendar.Now() == Moment(StopDay(e, old(calendar.Now()).day), 0, 0, 0)
    ensures Settled(e) ==>
      var c, keep := old(calendar.Now()), SECOND !in old(Fields(resets[..]));
      if moved then calendar.Now() == Landed(e, c, keep)
      else Pending(e, c, keep, calendar.Now(), Fields(resets[..]))
  {
    hide Members, Room, Reset, MonthOf, MDay, WDay, OneDayField, StopDay, Settled, Landed, Pending, UpToHours, UpToDays;
    hide Matches, Stuck, Onward, OnDay, Tame;
    calendar.NormalFields();
    ghost var c, fields := calendar.Now(), Fields(resets[..]);
    var day_of_week := calendar.tm_wday;
    var day_of_month := calendar.tm_mday;
    var update_day_of_month, n :=
      FindNextDay(calendar, e.days_of_month, day_of_month, e.days_of_week, day_of_week, resets);
    moved := day_of_month != update_day_of_month;
    DayFacts(e, c, n, fields, last, calendar.Now());
    if !moved { PushToFieldsArr(resets, DAY_OF_MONTH, 3); }
  }

  /** What the day search means for the search as a whole. */
  lemma DayFacts(e: CronExpr, c: Moment, n: nat, fields: set<int>, last: nat, c': Moment)
    requires Usable(e) && Clock(c) && UpToHours(e, c, fields) && (Matches(e, c) || Room(e, c, last))
    requires fields <= {SECOND, MINUTE, HOUR_OF_DAY} && n <= 366
    requires forall i :: c.day <= i < c.day + n ==> !OnDay(e.days_of_month, e.days_of_week, i)
    requires n < 366 ==> OnDay(e.days_of_month, e.days_of_week, c.day + n)
    requires c' == if n == 0 then c else Reset(c.(day := c.day + n), fields)
    ensures var moved := MDay(c.day + n) != MDay(c.day);
      && (c' == c || Onward(e, c, c', last))
      && (if moved then Onward(e, c, c', last) && !Matches(e, c) else UpToDays(e, c', fields + {DAY_OF_MONTH}))
      && ((!moved && Tame(e)) || Matches(e, c) ==> !moved && c' == c)
      && (Stuck(e, c) && SECOND in fields ==> !moved && c' == Moment(StopDay(e, c.day), 0, 0, 0))
      && (Settled(e) ==>
            if moved then c' == Landed(e, c, SECOND !in fields)
            else Pending(e, c, SECOND !in fields, c', fields + {DAY_OF_MONTH}))
  {
    hide Members, Room, Reset, MonthOf, MDay, WDay, OneDayField, StopFrom, Settled, Landed, Pending;
    StopIs(e, c.day, 366, n);
    if n > 0 {
      assert !DayOk(e, c.day);
      DayStep(e, c, n, fields, last);
    }
    if Settled(e) { DayLanded(e, c, n, fields, c'); }
    if MDay(c.day + n) == MDay(c.day) { DayUnmoved(e, c, n, fields, c'); }
  }

  /** What the day search does, and the month step after a day taken for unmoved. */
  lemma DayLanded(e: CronExpr, c: Moment, n: nat, fields: set<int>, c': Moment)
    requires Usable(e) && Settled(e) && UpToHours(e, c, fields) && StopDay(e, c.day) == c.day + n
    requires n == 0 ==> c' == c && DayOk(e, c.day)
    requires n > 0 ==>
      c' == Moment(c.day + n, 0, 0, if SECOND in fields then 0 else c.sec) && !DayOk(e, c.day)
    ensures if MDay(c.day + n) != MDay(c.day) then c' == Landed(e, c, SECOND !in fields)
      else Pending(e, c, SECOND !in fields, c', fields + {DAY_OF_MONTH})
  {
    hide Members, MDay, Mon, OnDay, StopFrom, MonthAfter, Advanced, Reset, Settled;
    if !Matches(e, c) && Mon(c.day + n) !in Members(e.months) && MDay(c.day + n) == MDay(c.day) {
      LandedMonth(e, c', fields + {DAY_OF_MONTH});
    }
  }

  /** What an unmoved day leaves: the search is over unless the month is closed. */
  lemma DayUnmoved(e: CronExpr, c: Moment, n: nat, fields: set<int>, c': Moment)
    requires Usable(e) && UpToHours(e, c, fields) && StopDay(e, c.day) == c.day + n
    requires n == 0 ==> c' == c && DayOk(e, c.day)
    requires n > 0 ==>
      && c' == Moment(c.day + n, 0, 0, c'.sec) && (c'.sec == 0 || c'.sec in Members(e.seconds))
      && !DayOk(e, c.day)
    requires MDay(c.day + n) == MDay(c.day)
    ensures UpToDays(e, c', fields + {DAY_OF_MONTH}) && (Tame(e) ==> n == 0)
  {
    hide Members, MDay, WDay, MonthOf, DayOk, StopFrom, OneDayField, Settled;
    if n > 0 {
      if OneDayField(e) { OpenDayMoves(e, c.day); }
      if Settled(e) && Mon(c'.day) in Members(e.months) { MidnightMatches(e, c.day); }
    }
  }

  lemma MidnightMatches(e: CronExpr, day: nat)
    requires Settled(e) && Stalls(e, day)
    ensures Matches(e, Moment(StopDay(e, day), 0, 0, 0))
  {
  }

  method MonthPart(e: CronExpr, calendar: Tm, resets: array<int>) returns (moved: bool)
    requires Usable(e) && calendar.Normal() && UpToDays(e, calendar.Now(), Fields(resets[..]))
    requires CronSearch.Lower(Fields(resets[..]))
    modifies calendar
    ensures calendar.Normal()
    ensures moved <==> Mon(old(calendar.Now()).day) !in Members(e.months)
    ensures moved ==> MonthMoved(e, old(calendar.Now()), calendar.Now())
    ensures moved ==>
      calendar.Now() == Reset(Advanced(old(calendar.Now()), Members(e.months), 12, MONTH), Fields(resets[..]))
    ensures !moved ==> calendar.Now() == old(calendar.Now()) && Done(e, calendar.Now())
  {
    hide Members, Reset, MonthOf, MDay, WDay, Advanced, Matches, Midnight, Tame;
    calendar.NormalFields();
    ghost var c := calendar.Now();
    var month := calendar.tm_mon;
    var update_month := FindNext(e.months, CRON_MAX_MONTHS, month, calendar, MONTH, YEAR, resets);
    moved := month != update_month;
    if moved {
      MonthStep(e, c, Fields(resets[..]));
    }
  }

  ghost predicate MonthMoved(e: CronExpr, c: Moment, c': Moment) {
    && MonthOf(c.day) < MonthOf(c'.day) <= MonthOf(c.day) + 12
    && (MDay(c.day) <= 28 ==> MonthOf(c'.day) <= MonthOf(c.day) + 11 && Mon(c'.day) in Members(e.months))
    && (Tame(e) ==> MDay(c'.day) == 1 && c' == Moment(c'.day, 0, 0, c'.sec) && SecFine(e, c'.sec))
  }

  /** What a step forward in the search does to its measure. */
  lemma Earlier(dot: int, c: Moment, c': Moment, last: nat)
    requires Clock(c) && Clock(c') && Time(c) <= Time(c')
    ensures c.day <= c'.day && MonthsLeft(dot, c'.day) <= MonthsLeft(dot, c.day)
    ensures TimeTo(last, c') <= TimeTo(last, c)
  {
    hide MonthOf;
    if c'.day < c.day { DayIsFirst(c', c); }
    MonthOfGrows(c.day, c'.day);
  }

  lemma HopefulOn(e: CronExpr, dot: int, c: Moment, c': Moment, last: nat)
    requires Hopeful(e, dot, c, last) && c.day <= c'.day <= last
    ensures Hopeful(e, dot, c', last)
  {
    hide MonthOf, MDay, Tame;
    MonthOfGrows(c.day, c'.day);
    MonthOfGrows(c'.day, last);
  }

  /** The search can go on from here, towards day `last`, or is over. */
  ghost predicate Ready(e: CronExpr, dot: int, c: Moment, last: nat) {
    Matches(e, c) || (Room(e, c, last) && Hopeful(e, dot, c, last))
  }

  lemma Forward(e: CronExpr, dot: int, c: Moment, c': Moment, last: nat)
    requires Onward(e, c, c', last) && Hopeful(e, dot, c, last)
    ensures Room(e, c', last) && Hopeful(e, dot, c', last)
  {
    hide Hopeful, OnDay;
    HopefulOn(e, dot, c, c', last);
  }

  /** After a nested search: how to go on. */
  lemma Again(e: CronExpr, dot: int, c: Moment, c': Moment, last: nat) returns (last': nat)
    requires Usable(e) && Clock(c') && Done(e, c') && Progress(e, dot, last, c, c')
    ensures Ready(e, dot, c', last')
    ensures last' == last || MonthsLeft(dot, c'.day) < MonthsLeft(dot, c.day)
  {
    hide Matches, MonthsLeft, Room, Settled, OneDayField, Usable;
    last' := last;
    if OneDayField(e) { OpenDaySettles(e); }
    if !Matches(e, c') && !Room(e, c', last) {
      last' := NextRoom(e, c');
    }
  }

  lemma ProgressOn(e: CronExpr, dot: int, last: nat, last': nat, c: Moment, c': Moment, c'': Moment)
    requires last' == last || MonthsLeft(dot, c'.day) < MonthsLeft(dot, c.day)
    requires Clock(c) && Clock(c') && Clock(c'') && Time(c) <= Time(c') <= Time(c'')
    requires Progress(e, dot, last', c', c'')
    ensures Progress(e, dot, last, c, c'')
  {
    hide MonthsLeft, Room, Matches, Time;
    Earlier(dot, c, c', last);
    Earlier(dot, c', c'', last);
  }

  /** `do_next`: until the month has to change the search does not get past day `last`. */
  method DoNext(e: CronExpr, calendar: Tm, dot: int, ghost last: nat) returns (res: int)
    requires Usable(e) && calendar.Normal() && Room(e, calendar.Now(), last)
    requires 70 <= dot <= calendar.tm_year && Hopeful(e, dot, calendar.Now(), last)
    modifies calendar
    ensures calendar.Normal() && Time(old(calendar.Now())) <= Time(calendar.Now()) && dot <= calendar.tm_year
    ensures res == 0 || res == -1
    ensures res == 0 ==> Done(e, calendar.Now()) && Progress(e, dot, last, old(calendar.Now()), calendar.Now())
    ensures Matches(e, old(calendar.Now())) ==> res == 0 && calendar.Now() == old(calendar.Now())
    ensures Tame(e) ==> res == 0
    ensures Settled(e) && res == 0 ==> SearchedFrom(e, old(calendar.Now()), calendar.Now())
    ensures Settled(e) && Unskipped(e) && !Hurried(e, old(calendar.Now())) && res != 0 ==>
      NoneInTime(e, old(calendar.Now()), dot)
    ensures res == 0 ==> Bounded(e, dot, last, calendar.Now())
    ensures var c := old(calendar.Now());
      Settled(e) && Within(e, SecondsMoved(e, c), c.sec !in Members(e.seconds), dot) ==> res == 0
    ensures Stuck(e, old(calendar.Now())) ==>
      res == 0 && calendar.Now() == Moment(StopDay(e, old(calendar.Now()).day), 0, 0, 0)
    decreases MonthsLeft(dot, calendar.Now().day), TimeTo(last, calendar.Now()), 4
  {
    hide Members, OnDay, MonthOf, MonthDay, MonthLen, MDay, WDay, Reset, Room, Filled, Sized, Onward, MonthsLeft;
    hide TimeTo, UpToMinutes, UpToHours, UpToDays, Time, Fields, CronSearch.Lower, Advanced, Stalls, Hopeful;
    hide Tame, Progress, Midnight;
    var resets := new int[CRON_CF_ARR_LEN](_ => -1);
    var empty_list := new int[CRON_CF_ARR_LEN](_ => -1);
    ghost var c := calendar.Now();
    calendar.NormalFields();
    SecondPart(e, calendar, resets, empty_list, last);
    ghost var c1 := calendar.Now();
    Measure(e, dot, c, c1, last);
    if c1 != c { Forward(e, dot, c, c1, last); }
    calendar.NormalFields();
    res := FromMinutes(e, calendar, dot, resets, last);
    if res == 0 {
      RoomBounded(e, dot, c1, last);
      ProgressOn(e, dot, last, last, c, c1, calendar.Now());
      if Settled(e) { FoundFrom(e, c, calendar.Now()); }
    } else if Settled(e) {
      LostFrom(e, c, dot);
    }
  }

  /** `do_next` from the minutes on. */
  method FromMinutes(e: CronExpr, calendar: Tm, dot: int, resets: array<int>, ghost last: nat) returns (res: int)
    requires Usable(e) && calendar.Normal() && Room(e, calendar.Now(), last)
    requires 70 <= dot <= calendar.tm_year && Hopeful(e, dot, calendar.Now(), last)
    requires calendar.Now().sec in Members(e.seconds)
    requires Slots(resets, 1) && Fields(resets[..]) <= {SECOND}
    modifies calendar, resets
    ensures calendar.Normal() && Time(old(calendar.Now())) <= Time(calendar.Now()) && dot <= calendar.tm_year
    ensures res == 0 || res == -1
    ensures res == 0 ==> Done(e, calendar.Now()) && Progress(e, dot, last, old(calendar.Now()), calendar.Now())
    ensures Matches(e, old(calendar.Now())) ==> res == 0 && calendar.Now() == old(calendar.Now())
    ensures Tame(e) ==> res == 0
    ensures Settled(e) && res == 0 ==>
      Found(e, old(calendar.Now()), SECOND !in old(Fields(resets[..])), calendar.Now())
    ensures var c := old(calendar.Now());
      Settled(e) && Unskipped(e) && !Rushed(e, c, SECOND !in old(Fields(resets[..]))) && res != 0 ==>
      NoneInTime(e, c, dot)
    ensures res == 0 ==> calendar.Now() == old(calendar.Now()) || Bounded(e, dot, last, calendar.Now())
    ensures Settled(e) && Within(e, old(calendar.Now()), SECOND !in old(Fields(resets[..])), dot) ==> res == 0
    ensures Stuck(e, old(calendar.Now())) && SECOND in old(Fields(resets[..])) ==>
      res == 0 && calendar.Now() == Moment(StopDay(e, old(calendar.Now()).day), 0, 0, 0)
    decreases MonthsLeft(dot, calendar.Now().day), TimeTo(last, calendar.Now()), 3
  {
    hide Members, OnDay, MonthOf, MonthDay, MonthLen, MDay, WDay, Reset, Room, Filled, Sized, Onward, MonthsLeft;
    hide UpToMinutes, UpToHours, UpToDays, Time, TimeTo, Fields, CronSearch.Lower, Advanced, Stalls, Hopeful;
    hide Tame, Progress, Midnight, SecondsMoved;
    ghost var c, last', keep := calendar.Now(), last, SECOND !in Fields(resets[..]);
    calendar.NormalFields();
    var moved := MinutePart(e, calendar, resets, last);
    calendar.NormalFields();
    if moved {
      ghost var c1 := calendar.Now();
      Measure(e, dot, c, c1, last);
      Forward(e, dot, c, c1, last);
      res := DoNext(e, calendar, dot, last);
      if res != 0 {
        if Settled(e) { LostLater(e, c, keep, c1, dot); }
        return;
      }
      Earlier(dot, c, calendar.Now(), last);
      Over(e, calendar.Now(), Fields(resets[..]));
      OpenSettles(e);
      last' := Again(e, dot, c1, calendar.Now(), last);
      DoneMatches(e, calendar.Now());
      if Settled(e) { FoundLater(e, c, keep, c1, calendar.Now()); }
    }
    ghost var c2 := calendar.Now();
    res := FromHours(e, calendar, dot, resets, last');
    if res == 0 { ProgressOn(e, dot, last, last', c, c2, calendar.Now()); }
  }

  /** `do_next` from the hours on. */
  method FromHours(e: CronExpr, calendar: Tm, dot: int, resets: array<int>, ghost last: nat) returns (res: int)
    requires Usable(e) && calendar.Normal() && Ready(e, dot, calendar.Now(), last)
    requires 70 <= dot <= calendar.tm_year
    requires UpToMinutes(e, calendar.Now(), Fields(resets[..]))
    requires Slots(resets, 2) && Fields(resets[..]) <= {SECOND, MINUTE}
    modifies calendar, resets
    ensures calendar.Normal() && Time(old(calendar.Now())) <= Time(calendar.Now()) && dot <= calendar.tm_year
    ensures res == 0 || res == -1
    ensures res == 0 ==> Done(e, calendar.Now()) && Progress(e, dot, last, old(calendar.Now()), calendar.Now())
    ensures Matches(e, old(calendar.Now())) ==> res == 0 && calendar.Now() == old(calendar.Now())
    ensures Tame(e) ==> res == 0
    ensures Settled(e) && res == 0 ==>
      Found(e, old(calendar.Now()), SECOND !in old(Fields(resets[..])), calendar.Now())
    ensures var c := old(calendar.Now());
      Settled(e) && Unskipped(e) && !Rushed(e, c, SECOND !in old(Fields(resets[..]))) && res != 0 ==>
      NoneInTime(e, c, dot)
    ensures res == 0 ==> calendar.Now() == old(calendar.Now()) || Bounded(e, dot, last, calendar.Now())
    ensures Settled(e) && Within(e, old(calendar.Now()), SECOND !in old(Fields(resets[..])), dot) ==> res == 0
    ensures Stuck(e, old(calendar.Now())) && SECOND in old(Fields(resets[..])) ==>
      res == 0 && calendar.Now() == Moment(StopDay(e, old(calendar.Now()).day), 0, 0, 0)
    decreases MonthsLeft(dot, calendar.Now().day), TimeTo(last, calendar.Now()), 2
  {
    hide Members, OnDay, MonthOf, MonthDay, MonthLen, MDay, WDay, Reset, Room, Filled, Sized, Onward, MonthsLeft;
    hide TimeTo, UpToMinutes, UpToHours, UpToDays, Time, Fields, CronSearch.Lower, Advanced, Stalls, Hopeful;
    hide Tame, Progress, Midnight;
    ghost var c, last', keep := calendar.Now(), last, SECOND !in Fields(resets[..]);
    calendar.NormalFields();
    SecondsMatch(e, c, Fields(resets[..]));
    var moved := HourPart(e, calendar, resets, last);
    calendar.NormalFields();
    if moved {
      ghost var c1 := calendar.Now();
      Measure(e, dot, c, c1, last);
      Forward(e, dot, c, c1, last);
      res := DoNext(e, calendar, dot, last);
      if res != 0 {
        if Settled(e) { LostLater(e, c, keep, c1, dot); }
        return;
      }
      Earlier(dot, c, calendar.Now(), last);
      Over(e, calendar.Now(), Fields(resets[..]));
      OpenSettles(e);
      last' := Again(e, dot, c1, calendar.Now(), last);
      DoneMatches(e, calendar.Now());
      if Settled(e) { FoundLater(e, c, keep, c1, calendar.Now()); }
    }
    ghost var c2 := calendar.Now();
    res := FromDays(e, calendar, dot, resets, last');
    if res == 0 { ProgressOn(e, dot, last, last', c, c2, calendar.Now()); }
  }

  /** `do_next` from the days on. */
  method FromDays(e: CronExpr, calendar: Tm, dot: int, resets: array<int>, ghost last: nat) returns (res: int)
    requires Usable(e) && calendar.Normal() && Ready(e, dot, calendar.Now(), last)
    requires 70 <= dot <= calendar.tm_year
    requires UpToHours(e, calendar.Now(), Fields(resets[..]))
    requires Slots(resets, 3) && Fields(resets[..]) <= {SECOND, MINUTE, HOUR_OF_DAY}
    modifies calendar, resets
    ensures calendar.Normal() && Time(old(calendar.Now())) <= Time(calendar.Now()) && dot <= calendar.tm_year
    ensures res == 0 || res == -1
    ensures res == 0 ==> Done(e, calendar.Now()) && Progress(e, dot, last, old(calendar.Now()), calendar.Now())
    ensures Matches(e, old(calendar.Now())) ==> res == 0 && calendar.Now() == old(calendar.Now())
    ensures Tame(e) ==> res == 0
    ensures Settled(e) && res == 0 ==>
      Found(e, old(calendar.Now()), SECOND !in old(Fields(resets[..])), calendar.Now())
    ensures var c := old(calendar.Now());
      Settled(e) && Unskipped(e) && !Rushed(e, c, SECOND !in old(Fields(resets[..]))) && res != 0 ==>
      NoneInTime(e, c, dot)
    ensures res == 0 ==> calendar.Now() == old(calendar.Now()) || Bounded(e, dot, last, calendar.Now())
    ensures Settled(e) && Within(e, old(calendar.Now()), SECOND !in old(Fields(resets[..])), dot) ==> res == 0
    ensures Stuck(e, old(calendar.Now())) && SECOND in old(Fields(resets[..])) ==>
      res == 0 && calendar.Now() == Moment(StopDay(e, old(calendar.Now()).day), 0, 0, 0)
    decreases MonthsLeft(dot, calendar.Now().day), TimeTo(last, calendar.Now()), 1
  {
    hide Members, OnDay, MonthOf, MonthDay, MonthLen, MDay, WDay, Reset, Room, Filled, Sized, Onward, MonthsLeft;
    hide TimeTo, UpToHours, UpToDays, Time, Fields, CronSearch.Lower, Advanced, Hopeful;
    hide Tame, Midnight, MonthMoved;
    ghost var c, keep := calendar.Now(), SECOND !in Fields(resets[..]);
    calendar.NormalFields();
    SecondsMatch(e, c, Fields(resets[..]));
    var moved := DayPart(e, calendar, resets, last);
    calendar.NormalFields();
    if moved {
      Measure(e, dot, c, calendar.Now(), last);
      Forward(e, dot, c, calendar.Now(), last);
      ghost var c1 := calendar.Now();
      res := DoNext(e, calendar, dot, last);
      if res != 0 {
        if Settled(e) { LostLater(e, c, keep, c1, dot); }
        return;
      }
      ProgressOn(e, dot, last, last, c, c1, calendar.Now());
      Earlier(dot, c, calendar.Now(), last);
      Over(e, calendar.Now(), Fields(resets[..]));
      if Settled(e) { FoundLater(e, c, keep, c1, calendar.Now()); }
    } else {
      DaysDone(e, dot, c, calendar.Now(), last);
      if calendar.Now() != c { OnwardBounded(e, dot, c, calendar.Now(), last); }
    }
    res := FromMonth(e, calendar, dot, resets, c, !moved, keep, last);
  }

  lemma OpenSettles(e: CronExpr)
    requires Usable(e)
    ensures OneDayField(e) ==> Settled(e)
  {
    hide OneDayField, Settled;
    if OneDayField(e) { OpenDaySettles(e); }
  }

  lemma OnwardBounded(e: CronExpr, dot: int, c: Moment, c': Moment, last: nat)
    requires Onward(e, c, c', last)
    ensures Bounded(e, dot, last, c')
  {
  }

  lemma DaysDone(e: CronExpr, dot: int, c: Moment, c': Moment, last: nat)
    requires Ready(e, dot, c, last) && (c' == c || Onward(e, c, c', last)) && Clock(c)
    ensures Progress(e, dot, last, c, c') && Time(c) <= Time(c') && MonthOf(c.day) / 12 <= MonthOf(c'.day) / 12
    ensures MonthsLeft(dot, c'.day) <= MonthsLeft(dot, c.day) && TimeTo(last, c') <= TimeTo(last, c)
    ensures Tame(e) && c' == c && Mon(c.day) !in Members(e.months) ==> Hopeful(e, dot, c, last) && c.day <= last
  {
    hide Hopeful, Members, OnDay, MonthsLeft, MonthOf, Mon;
    Earlier(dot, c, c', last);
    MonthOfGrows(c.day, c'.day);
  }

  /** `do_next` from the month on; it started at `c`. */
  method FromMonth(e: CronExpr, calendar: Tm, dot: int, resets: array<int>, ghost c: Moment, ghost first: bool,
                   ghost keep: bool, ghost last: nat) returns (res: int)
    requires Usable(e) && calendar.Normal() && 70 <= dot <= calendar.tm_year
    requires Clock(c) && Time(c) <= Time(calendar.Now()) && Progress(e, dot, last, c, calendar.Now())
    requires UpToDays(e, calendar.Now(), Fields(resets[..])) && CronSearch.Lower(Fields(resets[..]))
    requires Settled(e) && first ==> Pending(e, c, keep, calendar.Now(), Fields(resets[..]))
    requires Tame(e) && Mon(calendar.Now().day) !in Members(e.months) ==>
      Hopeful(e, dot, calendar.Now(), last) && calendar.Now().day <= last
    modifies calendar
    ensures calendar.Normal() && Time(c) <= Time(calendar.Now()) && dot <= calendar.tm_year
    ensures res == 0 || res == -1
    ensures res == 0 ==> Done(e, calendar.Now()) && Progress(e, dot, last, c, calendar.Now())
    ensures Tame(e) ==> res == 0
    ensures Mon(old(calendar.Now()).day) in Members(e.months) ==> res == 0 && calendar.Now() == old(calendar.Now())
    ensures Settled(e) && first && res == 0 ==> Found(e, c, keep, calendar.Now())
    ensures Settled(e) && first && Unskipped(e) && !Rushed(e, c, keep) && res != 0 ==> NoneInTime(e, c, dot)
    ensures res == 0 ==> calendar.Now() == old(calendar.Now()) || Bounded(e, dot, last, calendar.Now())
    ensures Settled(e) && first && Within(e, c, keep, dot) ==> res == 0
    decreases MonthsLeft(dot, calendar.Now().day), TimeTo(last, calendar.Now()), 0
  {
    hide Members, OnDay, MonthOf, MonthDay, MonthLen, MDay, WDay, Room, Filled, Sized, MonthsLeft, TimeTo, Mon;
    hide Matches, UpToDays, Time, Fields, CronSearch.Lower, Hopeful, Tame, Midnight, MonthMoved, Progress;
    calendar.NormalFields();
    ghost var c1 := calendar.Now();
    var moved := MonthPart(e, calendar, resets);
    calendar.NormalFields();
    res := 0;
    if moved {
      ghost var c2 := calendar.Now();
      MonthLater(e, dot, c1, c2, last);
      if calendar.tm_year - dot > 4 {
        if Settled(e) && first { GivenUp(e, c, keep, c2, dot); }
        return -1;
      }
      MonthMeasure(dot, c1.day, c2.day);
      ghost var next := MonthRoom(e, dot, c1, c2, last);
      res := DoNext(e, calendar, dot, next);
      if res != 0 {
        if Settled(e) && first { LostLater(e, c, keep, c2, dot); }
        return;
      }
      Sooner(e, dot, c, c1, c2, calendar.Now(), last);
      BoundedOn(e, dot, next, last, MonthOf(c2.day), calendar.Now());
      if Settled(e) && first { FoundLater(e, c, keep, c2, calendar.Now()); }
    } else if Settled(e) && first {
      FoundHere(e, c, keep);
    }
  }

  lemma Sooner(e: CronExpr, dot: int, c: Moment, c1: Moment, c2: Moment, c3: Moment, last: nat)
    requires Clock(c) && Clock(c1) && Clock(c2) && Clock(c3) && Time(c) <= Time(c1) && Time(c2) <= Time(c3)
    requires MonthsLeft(dot, c2.day) < MonthsLeft(dot, c1.day)
    ensures Progress(e, dot, last, c, c3)
  {
    hide MonthsLeft, Time;
    Earlier(dot, c, c1, last);
    Earlier(dot, c2, c3, last);
  }

  /** A month step goes forward; while there is hope it stays below the limit. */
  lemma MonthLater(e: CronExpr, dot: int, c: Moment, c': Moment, last: nat)
    requires Clock(c) && Clock(c') && MonthMoved(e, c, c') && Mon(c.day) !in Members(e.months)
    requires Tame(e) ==> Hopeful(e, dot, c, last) && c.day <= last
    ensures c.day < c'.day && Time(c) < Time(c') && MonthOf(c.day) / 12 <= MonthOf(c'.day) / 12
    ensures MonthOf(c.day) < MonthOf(c'.day)
    ensures Tame(e) ==> MonthOf(c'.day) < MonthLimit(dot)
  {
    hide MonthOf, MDay, Tame, Members;
    if c'.day <= c.day { MonthOfGrows(c'.day, c.day); }
    if c.day <= last { MonthOfGrows(c.day, last); }
    if c.day <= last && MonthOf(c.day) == MonthOf(last) { SameMonth(c.day, last); }
  }

  lemma SameMonth(a: nat, b: nat)
    requires a <= b && MonthOf(a) == MonthOf(b)
    ensures MDay(a) <= MDay(b)
  {
    hide MonthOf;
  }

  /** The room after a month step; there still is hope. */
  lemma MonthRoom(e: CronExpr, dot: int, c: Moment, c': Moment, last: nat) returns (next: nat)
    requires Usable(e) && Clock(c) && Clock(c') && MonthMoved(e, c, c') && Mon(c.day) !in Members(e.months)
    requires Tame(e) ==> Hopeful(e, dot, c, last) && c.day <= last
    ensures Room(e, c', next) && Hopeful(e, dot, c', next)
    ensures OneDayField(e) ==> MonthOf(next) <= MonthOf(c'.day) + 4
  {
    hide MonthOf, MDay, Tame, Members, OnDay, Usable;
    if Tame(e) {
      next := OpenDayInMonth(e, c'.day);
      FirstRoom(e, c', next);
      MonthOfGrows(c.day, last);
      if MonthOf(c.day) == MonthOf(last) { SameMonth(c.day, last); }
    } else {
      next := NextRoom(e, c');
      RoomIsAhead(e, c', next);
      if OneDayField(e) { MonthsWithin(c'.day, next); }
    }
  }

  lemma RoomIsAhead(e: CronExpr, c: Moment, last: nat)
    requires Room(e, c, last)
    ensures c.day <= last
  {
  }

  /** While the month has not moved the search stays before day `last`. */
  lemma RoomBounded(e: CronExpr, dot: int, c: Moment, last: nat)
    requires Room(e, c, last)
    ensures Bounded(e, dot, last, c)
  {
  }

  /** From the month a step leads to, a search is bounded by its last day there. */
  lemma BoundedOn(e: CronExpr, dot: int, next: nat, last: nat, month: nat, c: Moment)
    requires Bounded(e, dot, next, c) && month < MonthLimit(dot)
    requires OneDayField(e) ==> MonthOf(next) <= month + 4
    ensures Bounded(e, dot, last, c)
  {
    hide MonthOf, OneDayField;
    if c.day <= next { MonthOfGrows(c.day, next); }
  }

  lemma FirstRoom(e: CronExpr, c: Moment, last: nat)
    requires Usable(e) && Clock(c) && c == Moment(c.day, 0, 0, c.sec) && SecFine(e, c.sec)
    requires DayOk(e, last) && c.day <= last
    ensures Room(e, c, last)
  {
    hide OnDay, Members;
    FromStart(e, c, {});
  }

  lemma NextRoom(e: CronExpr, c: Moment) returns (last: nat)
    requires Usable(e) && Clock(c)
    ensures Room(e, c, last)
    ensures OneDayField(e) ==> last <= c.day + 93
  {
    hide OneDayField, OnDay, Usable, Members;
    if OneDayField(e) { last := NextOpenDay(e, c.day); } else { last := NextDay(e, c.day); }
  }

  lemma Over(e: CronExpr, c: Moment, fields: set<int>)
    requires Done(e, c)
    ensures UpToMinutes(e, c, fields) && UpToHours(e, c, fields) && UpToDays(e, c, fields)
    ensures Mon(c.day) in Members(e.months)
  {
    hide Members, Settled, OnDay, MDay;
  }

  const CRON_INVALID_INSTANT := -1

  /** The time the search for a date sets out from. */
  function Begin(e: CronExpr, date: nat): Moment {
    if Matches(e, At(date)) then At(date + 1) else At(date)
  }

  /** What is asked for: the earliest match after `date`. */
  ghost predicate Right(e: CronExpr, date: nat, next: int) {
    date < next && Matches(e, At(next)) && forall t: nat :: date < t < next ==> !Matches(e, At(t))
  }

  ghost predicate MatchWithin(e: CronExpr, a: nat, b: nat) {
    exists t: nat :: a < t < b && Matches(e, At(t))
  }

  /** A date from which the search goes wrong: the day search stalls, the seconds are
    * late, or the first move passes over a match. */
  ghost predicate Misleads(e: CronExpr, date: nat)
    requires Filled(e)
  {
    || (Stuck(e, At(date)) && !Matches(e, At(86400 * StopDay(e, At(date).day))))
    || (Settled(e) && Hurried(e, Begin(e, date)) &&
        MatchWithin(e, date, Time(Landed(e, SecondsMoved(e, Begin(e, date)), true))))
    || (Settled(e) && At(date).sec in Members(e.seconds) && !Matches(e, At(date)) &&
        MatchWithin(e, date, Time(Landed(e, At(date), false))))
  }

  /** `cron_next`.  A result is later than `date`, and with one day field open and a
    * number below 29 allowed there always is one.
    * - All six fields match if the day search never stalls; from a time where it does
    *   stall the result is midnight of the day it stops at.
    * - It is the earliest match if no month step skips a day and the search is not
    *   hurried; a hurried one ends at its first move.
    * - The search never ends before its first move does, and gives up only when there
    *   is no match in this year and the four after it; with one day field open it does
    *   not go further than one more. */
  method CronNext(e: CronExpr, date: nat) returns (next: int)
    requires Usable(e)
    ensures next == CRON_INVALID_INSTANT || next > date
    ensures Tame(e) ==> next != CRON_INVALID_INSTANT
    ensures next != CRON_INVALID_INSTANT && Settled(e) ==> Matches(e, At(next))
    ensures Stuck(e, At(date)) ==> next == 86400 * StopDay(e, At(date).day)
    ensures next != CRON_INVALID_INSTANT && Settled(e) && Unskipped(e) && !Hurried(e, Begin(e, date)) ==>
      Right(e, date, next)
    ensures next == CRON_INVALID_INSTANT && Settled(e) && Unskipped(e) && !Hurried(e, Begin(e, date)) ==>
      forall t: nat :: date < t && Matches(e, At(t)) ==> Year(At(t)) > Year(Begin(e, date)) + 4
    ensures next != CRON_INVALID_INSTANT && OneDayField(e) ==> Year(At(next)) <= Year(Begin(e, date)) + 5
    ensures Misleads(e, date) ==> !Right(e, date, next)
    ensures Settled(e) && Hurried(e, Begin(e, date)) ==>
      next == Time(Landed(e, SecondsMoved(e, Begin(e, date)), true))
    ensures next != CRON_INVALID_INSTANT && Settled(e) ==>
      At(date).sec in Members(e.seconds) && !Matches(e, At(date)) ==> Time(Landed(e, At(date), false)) <= next
  {
    hide Members, OnDay, MonthOf, MonthDay, MonthLen, MDay, WDay, Filled, Matches, Stuck, Hurried, At, Tame, Begin;
    hide Settled, Unskipped, StopDay, SecondsMoved, SearchedFrom, Landed, Misleads, Right;
    var calendar := new Tm();
    calendar.GmTime(date);
    var original := calendar.MkTime();
    ghost var c := calendar.Now();
    AtIs(date, c);
    var res := Search(e, calendar);
    if !Matches(e, c) { BeginIs(e, date, c); }
    if res != 0 {
      NoAnswer(e, date);
      if Settled(e) { NoAnswerInTime(e, date); }
      return CRON_INVALID_INSTANT;
    }
    if Stuck(e, c) { StuckMoves(e, c); }
    var calculated := calendar.MkTime();
    if calculated == original {
      TimeIsUnique(c, calendar.Now());
      CarryTime(calendar.Now());
      AddToField(calendar, SECOND);
      AtIs(date + 1, calendar.Now());
      if Matches(e, c) { BeginIs(e, date, calendar.Now()); }
      res := Search(e, calendar);
      if res != 0 {
        NoAnswer(e, date);
        if Settled(e) { NoAnswerInTime(e, date); }
        return CRON_INVALID_INSTANT;
      }
    }
    next := calendar.MkTime();
    AtIs(next, calendar.Now());
    OpenSettles(e);
    if Settled(e) { Answer(e, date, next); }
    if Misleads(e, date) { Misled(e, date, next); }
  }

  /** One search, with four years to go. */
  method Search(e: CronExpr, calendar: Tm) returns (res: int)
    requires Usable(e) && calendar.Normal()
    modifies calendar
    ensures calendar.Normal() && Time(old(calendar.Now())) <= Time(calendar.Now())
    ensures Tame(e) ==> res == 0
    ensures Matches(e, old(calendar.Now())) ==> res == 0 && calendar.Now() == old(calendar.Now())
    ensures Settled(e) && res == 0 ==>
      Matches(e, calendar.Now()) && SearchedFrom(e, old(calendar.Now()), calendar.Now())
    ensures Settled(e) && Hurried(e, old(calendar.Now())) ==> res == 0
    ensures Settled(e) && Unskipped(e) && !Hurried(e, old(calendar.Now())) && res != 0 ==>
      NoneInTime(e, old(calendar.Now()), 70 + MonthOf(old(calendar.Now()).day) / 12)
    ensures OneDayField(e) && res == 0 ==> Year(calendar.Now()) <= Year(old(calendar.Now())) + 5
    ensures Stuck(e, old(calendar.Now())) ==>
      res == 0 && calendar.Now() == Moment(StopDay(e, old(calendar.Now()).day), 0, 0, 0)
  {
    hide Members, OnDay, MonthOf, MonthDay, MonthLen, MDay, WDay, Room, Filled, Matches, Stuck, Hurried, Tame;
    hide Progress, Hopeful, Settled, StopDay, SecondsMoved, SearchedFrom, Within, Landed;
    ghost var c := calendar.Now();
    calendar.NormalFields();
    ghost var last := Start(e, calendar.tm_year, c);
    FirstMoveInTime(e, c, calendar.tm_year);
    res := DoNext(e, calendar, calendar.tm_year, last);
    if res == 0 {
      DoneMatches(e, calendar.Now());
      InTime(e, c, last, calendar.Now());
    }
  }

  lemma InTime(e: CronExpr, c: Moment, last: nat, c': Moment)
    requires Bounded(e, 70 + MonthOf(c.day) / 12, last, c')
    requires OneDayField(e) ==> c.day <= last <= c.day + 93
    ensures OneDayField(e) ==> Year(c') <= Year(c) + 5
  {
    hide MonthOf, OneDayField;
    if OneDayField(e) {
      MonthsWithin(c.day, last);
      if c'.day <= last { MonthOfGrows(c'.day, last); }
    }
  }

  /** Years after 1970. */
  function Year(c: Moment): nat {
    MonthOf(c.day) / 12
  }

  lemma NoAnswerInTime(e: CronExpr, date: nat)
    requires Filled(e)
    requires Unskipped(e) && !Hurried(e, Begin(e, date)) ==>
      NoneInTime(e, Begin(e, date), 70 + MonthOf(Begin(e, date).day) / 12)
    ensures Unskipped(e) && !Hurried(e, Begin(e, date)) ==>
      forall t: nat :: date < t && Matches(e, At(t)) ==> Year(At(t)) > Year(Begin(e, date)) + 4
  {
    hide Members, At, OnDay, Mon, Unskipped, Time, Hurried, MonthOf;
    var c := Begin(e, date);
    if Unskipped(e) && !Hurried(e, c) {
      forall t: nat | date < t && Matches(e, At(t)) ensures Year(At(t)) > Year(c) + 4 {
        BeforeIsEarlier(At(t), c);
      }
    }
  }

  lemma NoAnswer(e: CronExpr, date: nat)
    ensures !Right(e, date, CRON_INVALID_INSTANT)
  {
  }

  lemma Misled(e: CronExpr, date: nat, next: nat)
    requires Filled(e) && Misleads(e, date)
    requires Stuck(e, At(date)) ==> next == 86400 * StopDay(e, At(date).day)
    requires Settled(e) && Hurried(e, Begin(e, date)) ==>
      next == Time(Landed(e, SecondsMoved(e, Begin(e, date)), true))
    requires Settled(e) && At(date).sec in Members(e.seconds) && !Matches(e, At(date)) ==>
      Time(Landed(e, At(date), false)) <= next
    ensures !Right(e, date, next)
  {
    hide Stuck, Settled, Hurried, Begin, Landed, SecondsMoved, Matches, At, StopDay, Time;
  }

  lemma BeginIs(e: CronExpr, date: nat, c: Moment)
    requires c == if Matches(e, At(date)) then At(date + 1) else At(date)
    ensures c == Begin(e, date)
  {
  }

  /** What the search from a date says of the result. */
  lemma Answer(e: CronExpr, date: nat, next: nat)
    requires Usable(e) && date < next && Matches(e, At(next)) && SearchedFrom(e, Begin(e, date), At(next))
    ensures Unskipped(e) && !Hurried(e, Begin(e, date)) ==> Right(e, date, next)
    ensures Hurried(e, Begin(e, date)) ==> next == Time(Landed(e, SecondsMoved(e, Begin(e, date)), true))
    ensures At(date).sec in Members(e.seconds) && !Matches(e, At(date)) ==> Time(Landed(e, At(date), false)) <= next
  {
    hide Members, At, Landed, OnDay, Mon, Unskipped, Time;
    var c, c' := Begin(e, date), At(next);
    if Unskipped(e) && !Hurried(e, c) {
      forall t: nat | date < t < next ensures !Matches(e, At(t)) {
        BeforeIsEarlier(At(t), c);
        BeforeIsEarlier(At(t), c');
      }
    }
    if At(date).sec in Members(e.seconds) && !Matches(e, At(date)) {
      LandedLater(e, c, false);
      BeforeIsEarlier(c', Landed(e, c, false));
    }
  }

  /** A hurried search ends at its first move, long before it would give up. */
  lemma FirstMoveInTime(e: CronExpr, c: Moment, dot: int)
    requires Usable(e) && Clock(c) && dot == 70 + MonthOf(c.day) / 12
    ensures Hurried(e, c) ==> Within(e, SecondsMoved(e, c), c.sec !in Members(e.seconds), dot)
  {
    hide Members, MonthOf, Landed, OnDay, SecondsMoved;
    if Hurried(e, c) {
      SecondsMovedNear(e, c);
      SecondsMovedLater(e, c);
      LandedNear(e, SecondsMoved(e, c), true);
    }
  }

  /** The calendar time of an instant. */
  function At(t: nat): (c: Moment)
    ensures Clock(c) && Time(c) == t
  {
    Split(t);
    Moment(t / 86400, t / 3600 % 24, t / 60 % 60, t % 60)
  }

  lemma AtIs(t: nat, c: Moment)
    requires Clock(c) && Time(c) == t
    ensures At(t) == c
  {
    hide At;
    TimeIsUnique(At(t), c);
  }

  lemma DoneMatches(e: CronExpr, c: Moment)
    requires Done(e, c)
    ensures Settled(e) ==> Matches(e, c)
  {
  }

  lemma StuckMoves(e: CronExpr, c: Moment)
    requires Stuck(e, c) && Clock(c)
    ensures c.day < StopDay(e, c.day) && Time(c) < 86400 * StopDay(e, c.day)
  {
    hide Members, MDay, Mon, OnDay;
    assert StopFrom(e, c.day, 366) == StopFrom(e, c.day + 1, 365);
    var k := StopFound(e, c.day + 1, 365);
  }

  /** The first room of a search, and why it can hope. */
  lemma Start(e: CronExpr, dot: int, c: Moment) returns (last: nat)
    requires Usable(e) && Clock(c) && dot == 70 + MonthOf(c.day) / 12
    ensures Room(e, c, last) && Hopeful(e, dot, c, last)
    ensures OneDayField(e) ==> c.day <= last <= c.day + 93
  {
    hide MonthOf, MDay, MonthDay, Members, OnDay, Usable, OneDayField;
    if Tame(e) {
      last := NextOpenDay(e, c.day);
      MonthsWithin(c.day, last);
    } else {
      last := NextRoom(e, c);
    }
  }

  lemma MonthsWithin(a: nat, b: nat)
    requires a <= b <= a + 93
    ensures MonthOf(b) <= MonthOf(a) + 4
  {
    var k := MonthOf(a);
    hide MonthOf;
    if MonthOf(b) > k + 4 { MonthDayGrows(k + 1, MonthOf(b)); }
  }

  // ----- exactly when every result matches -----

  /** A stall that midnight does not match is met by some date. */
  lemma Unsettled(e: CronExpr) returns (date: nat)
    requires Usable(e) && !Settled(e)
    ensures Stuck(e, At(date)) && !Matches(e, At(86400 * StopDay(e, At(date).day)))
  {
    hide MDay, Mon, OnDay, Members, At, StopDay, DayOk;
    var day: nat :| Stalls(e, day) && !Matches(e, Moment(StopDay(e, day), 0, 0, 0));
    var c := Moment(day, First(Members(e.hours), 0, 24), First(Members(e.minutes), 0, 60),
                    First(Members(e.seconds), 0, 60));
    date := Time(c);
    AtIs(date, c);
    AtIs(86400 * StopDay(e, day), Moment(StopDay(e, day), 0, 0, 0));
  }

  /** An expression that is not punctual misleads the search from some date. */
  lemma Unpunctual(e: CronExpr) returns (date: nat)
    requires Usable(e) && !Punctual(e)
    ensures Misleads(e, date)
  {
    hide Members, OnDay, Mon, MDay, At, Landed, Stuck, Settled, Unskipped, SecondsMoved, Hurried;
    if !Settled(e) {
      date := Unsettled(e);
    } else if !Unskipped(e) {
      var c, x := SkipMisses(e);
      date := Time(c);
      AtIs(date, c);
      LandedLater(e, c, false);
      MatchIsWithin(e, c, x, Landed(e, c, false));
    } else {
      var c :| Clock(c) && Hurried(e, c);
      var x := HurryMisses(e, c);
      date := Time(c);
      AtIs(date, c);
      HurriedIsNoMatch(e, c);
      MatchIsWithin(e, c, x, Landed(e, SecondsMoved(e, c), true));
    }
  }

  lemma HurriedIsNoMatch(e: CronExpr, c: Moment)
    requires Filled(e) && Hurried(e, c)
    ensures !Matches(e, c)
  {
    hide Members, Landed, OnDay;
  }

  lemma MatchIsWithin(e: CronExpr, c: Moment, x: Moment, c': Moment)
    requires Clock(c) && Clock(x) && Clock(c') && Matches(e, x) && Before(c, x) && Before(x, c')
    ensures MatchWithin(e, Time(c), Time(c'))
  {
    BeforeIsEarlier(c, x);
    BeforeIsEarlier(x, c');
    AtIs(Time(x), x);
    hide At, Matches, Before;
  }
}
