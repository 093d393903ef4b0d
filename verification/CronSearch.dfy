/** The search for the next time a cron expression fires. */
module CronSearch {
  import opened CronBits
  import opened CronCalendar

  datatype CronExpr = CronExpr(seconds: Bits, minutes: Bits, hours: Bits,
                               days_of_week: Bits, days_of_month: Bits, months: Bits)

  const CRON_MAX_SECONDS := 60
  const CRON_MAX_MINUTES := 60
  const CRON_MAX_HOURS := 24
  const CRON_MAX_MONTHS := 12
  const CRON_CF_ARR_LEN := 7

  // ----- sets of field values -----

  predicate Any(s: set<int>, from: int, max: int) {
    exists i :: from <= i < max && i in s
  }

  /** The smallest member of `s` from `from` on. */
  function First(s: set<int>, from: int, max: int): (i: int)
    requires Any(s, from, max)
    ensures from <= i < max && i in s
    ensures forall j :: from <= j < i ==> j !in s
    decreases max - from
  {
    if from in s then from else First(s, from + 1, max)
  }

  /** `next_set_bit`. */
  method NextSetBit(bits: Bits, max: int, from_index: int) returns (i: int, notfound: bool)
    requires 0 <= from_index && max <= 8 * |bits|
    ensures notfound <==> !Any(Members(bits), from_index, max)
    ensures i == if notfound then 0 else First(Members(bits), from_index, max)
  {
    i := from_index;
    while i < max
      invariant from_index <= i
      invariant forall j :: from_index <= j < i && j < max ==> j !in Members(bits)
    {
      if GetBit(bits, i) {
        assert i in Members(bits);
        return i, false;
      }
      i := i + 1;
    }
    return 0, true;
  }

  // ----- what an expression asks for -----

  predicate OnDay(days_of_month: Bits, days_of_week: Bits, day: nat) {
    MDay(day) in Members(days_of_month) && WDay(day) in Members(days_of_week)
  }

  predicate DayOk(e: CronExpr, day: nat) {
    OnDay(e.days_of_month, e.days_of_week, day)
  }

  /** All six fields. */
  predicate Matches(e: CronExpr, c: Moment) {
    && c.sec in Members(e.seconds) && c.min in Members(e.minutes) && c.hour in Members(e.hours)
    && DayOk(e, c.day) && Mon(c.day) in Members(e.months)
  }

  predicate Sized(e: CronExpr) {
    && |e.seconds| == 8 && |e.minutes| == 8 && |e.hours| == 3
    && |e.days_of_week| == 1 && |e.days_of_month| == 4 && |e.months| == 2
  }

  /** No field is empty. */
  predicate Filled(e: CronExpr) {
    && Any(Members(e.seconds), 0, 60) && Any(Members(e.minutes), 0, 60) && Any(Members(e.hours), 0, 24)
    && Any(Members(e.days_of_week), 0, 7) && Any(Members(e.days_of_month), 1, 32)
    && Any(Members(e.months), 0, 12)
  }

  predicate Usable(e: CronExpr) {
    Sized(e) && Filled(e)
  }

  // ----- changing one field -----

  function Get(c: Moment, field: int): int {
    if field == SECOND then c.sec else if field == MINUTE then c.min
    else if field == HOUR_OF_DAY then c.hour else if field == DAY_OF_MONTH then MDay(c.day)
    else Mon(c.day)
  }

  /** A field set to `val` and the rest read as `mktime` does: days past the end of a
    * month run into the next one, and the weekday is ignored. */
  function Put(c: Moment, field: int, val: nat): Moment {
    if field == SECOND then c.(sec := val) else if field == MINUTE then c.(min := val)
    else if field == HOUR_OF_DAY then c.(hour := val)
    else if field == DAY_OF_MONTH && val >= 1 then c.(day := MonthDay(MonthOf(c.day)) + val - 1)
    else if field == MONTH then c.(day := SetMonth(c.day, val))
    else c
  }

  function SetMonth(day: nat, mon: nat): nat {
    MonthDay(12 * (MonthOf(day) / 12) + mon) + MDay(day) - 1
  }

  function AddYear(day: nat): nat {
    MonthDay(MonthOf(day) + 12) + MDay(day) - 1
  }

  /** One more of the unit `field`, of days for the day of the week. */
  function Carry(c: Moment, field: int): Moment
    decreases YEAR - field
  {
    if field == SECOND then
      if c.sec < 59 then c.(sec := c.sec + 1) else Carry(c.(sec := 0), MINUTE)
    else if field == MINUTE then
      if c.min < 59 then c.(min := c.min + 1) else Carry(c.(min := 0), HOUR_OF_DAY)
    else if field == HOUR_OF_DAY then
      if c.hour < 23 then c.(hour := c.hour + 1) else c.(hour := 0, day := c.day + 1)
    else if field == YEAR then c.(day := AddYear(c.day))
    else c.(day := c.day + 1)
  }

  /** One added to the field itself, before `mktime` carries. */
  function Bumped(c: Moment, field: int): Moment {
    if field == SECOND then c.(sec := c.sec + 1) else if field == MINUTE then c.(min := c.min + 1)
    else if field == HOUR_OF_DAY then c.(hour := c.hour + 1)
    else if field == YEAR then c.(day := AddYear(c.day))
    else c.(day := c.day + 1)
  }

  lemma BumpedIsCarry(c: Moment, field: int, now: Moment)
    requires Clock(c) && Clock(now) && Time(now) == Time(Bumped(c, field)) && 0 <= field <= YEAR
    ensures now == Carry(c, field)
  {
    TimeIsUnique(now, Carry(c, field));
  }

  lemma CarryTime(c: Moment)
    requires Clock(c)
    ensures Time(Carry(c, SECOND)) == Time(c) + 1 && Clock(Carry(c, SECOND))
  {
  }

  predicate InRange(field: int, val: int) {
    && 0 <= val
    && (field == SECOND || field == MINUTE ==> val < 60) && (field == HOUR_OF_DAY ==> val < 24)
    && (field == DAY_OF_MONTH ==> 1 <= val)
  }

  /** `set_field`. */
  method SetField(calendar: Tm, field: int, val: int)
    requires calendar.Normal() && 0 <= field < YEAR && InRange(field, val)
    modifies calendar
    ensures calendar.Normal() && calendar.Now() == Put(old(calendar.Now()), field, val)
  {
    hide MonthOf, MonthDay, MonthLen;
    calendar.NormalFields();
    if field == SECOND { calendar.tm_sec := val; }
    else if field == MINUTE { calendar.tm_min := val; }
    else if field == HOUR_OF_DAY { calendar.tm_hour := val; }
    else if field == DAY_OF_WEEK { calendar.tm_wday := val; }
    else if field == DAY_OF_MONTH { calendar.tm_mday := val; }
    else { calendar.tm_mon := val; }
    ghost var now := calendar.Now();
    assert now == Put(old(calendar.Now()), field, val);
    hide Put;
    var t := calendar.MkTime();
    TimeIsUnique(now, calendar.Now());
  }

  /** `reset_min`. */
  method ResetMin(calendar: Tm, field: int)
    requires calendar.Normal() && 0 <= field < YEAR
    modifies calendar
    ensures calendar.Normal()
    ensures calendar.Now() == Put(old(calendar.Now()), field, if field == DAY_OF_MONTH then 1 else 0)
  {
    SetField(calendar, field, if field == DAY_OF_MONTH then 1 else 0);
  }

  /** `add_to_field` by one; one more day of the week is one more day. */
  method AddToField(calendar: Tm, field: int)
    requires calendar.Normal() && 0 <= field <= YEAR && field != MONTH
    modifies calendar
    ensures calendar.Normal()
    ensures calendar.Now() == Carry(old(calendar.Now()), field)
  {
    hide MonthOf, MonthDay, MonthLen, Carry;
    calendar.NormalFields();
    ghost var was := calendar.Now();
    if field == SECOND { calendar.tm_sec := calendar.tm_sec + 1; }
    else if field == MINUTE { calendar.tm_min := calendar.tm_min + 1; }
    else if field == HOUR_OF_DAY { calendar.tm_hour := calendar.tm_hour + 1; }
    else if field == YEAR { calendar.tm_year := calendar.tm_year + 1; }
    else { calendar.tm_mday := calendar.tm_mday + 1; }
    assert calendar.Now() == Bumped(was, field);
    var t := calendar.MkTime();
    BumpedIsCarry(was, field, calendar.Now());
  }

  // ----- resetting lower fields -----

  /** The fields listed in `s`, where -1 is an empty slot. */
  function Fields(s: seq<int>): set<int> {
    set f | f in s && f != -1
  }

  predicate Lower(s: set<int>) {
    s <= {SECOND, MINUTE, HOUR_OF_DAY, DAY_OF_MONTH}
  }

  /** The fields of `fields` put to their minimum. */
  function Reset(c: Moment, fields: set<int>): Moment {
    Moment(if DAY_OF_MONTH in fields then MonthDay(MonthOf(c.day)) else c.day,
           if HOUR_OF_DAY in fields then 0 else c.hour,
           if MINUTE in fields then 0 else c.min,
           if SECOND in fields then 0 else c.sec)
  }

  lemma ResetOne(c: Moment, fields: set<int>, f: int)
    requires Lower(fields) && Lower({f})
    ensures Reset(c, fields + {f}) == Put(Reset(c, fields), f, if f == DAY_OF_MONTH then 1 else 0)
  {
    hide MonthOf;
    assert f in {f};
    var first := MonthDay(MonthOf(c.day));
    MonthOfIs(first, MonthOf(c.day));
    assert MonthDay(MonthOf(c.day)) < MonthDay(MonthOf(c.day) + 1);
  }

  /** `reset_all_min`. */
  method ResetAllMin(calendar: Tm, fields: array<int>)
    requires calendar.Normal() && Lower(Fields(fields[..]))
    modifies calendar
    ensures calendar.Normal() && calendar.Now() == Reset(old(calendar.Now()), Fields(fields[..]))
  {
    hide Reset, Put;
    ghost var was := calendar.Now();
    var i := 0;
    assert Reset(was, Fields(fields[..0])) == was by { ResetNone(was); }
    while i < fields.Length
      invariant 0 <= i <= fields.Length && calendar.Normal()
      invariant calendar.Now() == Reset(was, Fields(fields[..i]))
    {
      assert fields[..i+1] == fields[..i] + [fields[i]];
      if -1 == fields[i] {
        assert Fields(fields[..i+1]) == Fields(fields[..i]);
      } else {
        assert Fields(fields[..i+1]) == Fields(fields[..i]) + {fields[i]};
        assert fields[i] in Fields(fields[..]) && Fields(fields[..i]) <= Fields(fields[..]);
        ResetOne(was, Fields(fields[..i]), fields[i]);
        ResetMin(calendar, fields[i]);
      }
      i := i + 1;
    }
    assert fields[..fields.Length] == fields[..];
  }

  lemma ResetNone(c: Moment)
    ensures Reset(c, {}) == c && Fields([]) == {}
  {
  }

  /** `push_to_fields_arr`; of the slots, those from `used` on are empty. */
  method PushToFieldsArr(arr: array<int>, fi: int, ghost used: nat)
    requires fi != -1 && used < arr.Length && forall i :: used <= i < arr.Length ==> arr[i] == -1
    modifies arr
    ensures Fields(arr[..]) == old(Fields(arr[..])) + {fi}
    ensures forall i :: used < i < arr.Length ==> arr[i] == -1
  {
    for i := 0 to arr.Length
      invariant fi !in arr[..i]
    {
      if arr[i] == fi {
        assert arr[i] in arr[..];
        return;
      }
    }
    ghost var was := arr[..];
    for i := 0 to arr.Length
      invariant i <= used && arr[..] == was
    {
      if -1 == arr[i] {
        arr[i] := fi;
        assert arr[..] == was[..i] + [fi] + was[i+1..];
        assert was == was[..i] + [-1] + was[i+1..];
        return;
      }
    }
  }

  // ----- the next value of a field -----

  function Above(field: int): int {
    if field == SECOND then MINUTE else if field == MINUTE then HOUR_OF_DAY
    else if field == HOUR_OF_DAY then DAY_OF_WEEK else YEAR
  }

  /** The next time whose `field` is in `s`: later in the same unit above, or from the
    * start of the next one. */
  function Advanced(c: Moment, s: set<int>, max: int, field: int): Moment
    requires Any(s, 0, max) && Get(c, field) >= 0
  {
    if Any(s, Get(c, field), max) then Put(c, field, First(s, Get(c, field), max))
    else Put(Put(Carry(c, Above(field)), field, 0), field, First(s, 0, max))
  }

  function MaxOf(field: int): int {
    if field == HOUR_OF_DAY then 24 else if field == MONTH then 12 else 60
  }

  predicate Searched(field: int) {
    field == SECOND || field == MINUTE || field == HOUR_OF_DAY || field == MONTH
  }

  /** `find_next`. */
  method FindNext(bits: Bits, max: int, value: int, calendar: Tm, field: int, nextField: int, lower_orders: array<int>)
    returns (next_value: int)
    requires Searched(field) && nextField == Above(field) && max == MaxOf(field) <= 8 * |bits|
    requires calendar.Normal() && value == Get(calendar.Now(), field)
    requires Any(Members(bits), 0, max) && Lower(Fields(lower_orders[..]))
    modifies calendar
    ensures calendar.Normal()
    ensures next_value == value <==> value in Members(bits)
    ensures calendar.Now() == if value in Members(bits) then old(calendar.Now())
      else Reset(Advanced(old(calendar.Now()), Members(bits), max, field), Fields(lower_orders[..]))
  {
    hide Put, Carry, Reset;
    var notfound;
    next_value, notfound := NextSetBit(bits, max, value);
    if notfound {
      AddToField(calendar, nextField);
      ResetMin(calendar, field);
      next_value, notfound := NextSetBit(bits, max, 0);
    }
    if notfound || next_value != value {
      SetField(calendar, field, next_value);
      ResetAllMin(calendar, lower_orders);
    }
  }

  /** `find_next_day`: tries at most 366 days after the current one; `n` days are gone. */
  method FindNextDay(calendar: Tm, days_of_month: Bits, day: int, days_of_week: Bits, weekday: int, resets: array<int>)
    returns (day_of_month: int, ghost n: nat)
    requires |days_of_month| == 4 && |days_of_week| == 1
    requires calendar.Normal() && day == MDay(calendar.Now().day) && weekday == WDay(calendar.Now().day)
    requires Fields(resets[..]) <= {SECOND, MINUTE, HOUR_OF_DAY}
    modifies calendar
    ensures calendar.Normal() && n <= 366 && day_of_month == MDay(old(calendar.Now()).day + n)
    ensures forall i :: old(calendar.Now()).day <= i < old(calendar.Now()).day + n ==>
      !OnDay(days_of_month, days_of_week, i)
    ensures n < 366 ==> OnDay(days_of_month, days_of_week, old(calendar.Now()).day + n)
    ensures var was := old(calendar.Now());
      calendar.Now() == if n == 0 then was else Reset(was.(day := was.day + n), Fields(resets[..]))
  {
    hide MonthOf, MonthDay, MonthLen, MDay, Members;
    ghost var was := calendar.Now();
    var count, max := 0, 366;
    var day_of_week := weekday;
    day_of_month := day;
    n := 0;
    while true
      invariant calendar.Normal() && count == n <= 366
      invariant day_of_month == MDay(was.day + n) && day_of_week == WDay(was.day + n)
      invariant forall i :: was.day <= i < was.day + n ==> !OnDay(days_of_month, days_of_week, i)
      invariant calendar.Now() == if n == 0 then was else Reset(was.(day := was.day + n), Fields(resets[..]))
      decreases 366 - n
    {
      DayInBits(was.day + n, days_of_month, days_of_week);
      if GetBit(days_of_month, day_of_month) && GetBit(days_of_week, day_of_week) { break; }
      count := count + 1;
      if count - 1 >= max { break; }
      AddToField(calendar, DAY_OF_MONTH);
      calendar.NormalFields();
      day_of_month := calendar.tm_mday;
      day_of_week := calendar.tm_wday;
      ResetAllMin(calendar, resets);
      n := n + 1;
    }
  }

  lemma DayInBits(day: nat, days_of_month: Bits, days_of_week: Bits)
    requires |days_of_month| == 4 && |days_of_week| == 1
    ensures MDay(day) < 32 && WDay(day) < 7
    ensures OnDay(days_of_month, days_of_week, day)
      <==> GetBit(days_of_month, MDay(day)) && GetBit(days_of_week, WDay(day))
  {
  }
}
