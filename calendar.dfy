/**
 * The Greyhawk calendar: the month, holiday and weekday tables and the
 * weekday arithmetic the calendar grid and the current-date banner use
 * (scripts/calendar.js).
 */
module Calendar {
  import opened Wrappers

  /** A month of the table; `isFestival` is absent (falsy) on ordinary months. */
  datatype Month = Month(id: int, name: string, days: int, isFestival: bool)

  /** A holiday recurs on the same month and day every year: it has no year. */
  datatype Holiday = Holiday(name: string, month: int, day: int, holidayType: string, description: string)

  const Months: seq<Month> := [
    Month(0, "Needfest", 7, true),
    Month(1, "Fireseek", 28, false),
    Month(2, "Readying", 28, false),
    Month(3, "Coldeven", 28, false),
    Month(4, "Growfest", 7, true),
    Month(5, "Planting", 28, false),
    Month(6, "Flocktime", 28, false),
    Month(7, "Wealsun", 28, false),
    Month(8, "Richfest", 7, true),
    Month(9, "Reaping", 28, false),
    Month(10, "Goodmonth", 28, false),
    Month(11, "Harvester", 28, false),
    Month(12, "Brewfest", 7, true),
    Month(13, "Patchwall", 28, false),
    Month(14, "Ready'reat", 28, false),
    Month(15, "Sunsebb", 28, false)
  ]

  const Holidays: seq<Holiday> := [
    Holiday("Midwinter's Night", 0, 4, "holiday", "The longest night of the year, many believe the veil between worlds is thin on this night."),
    Holiday("Feast of Allitur", 1, 7, "holiday", "Sacred to the god of ethics and propriety. A day for solemn oaths and promises."),
    Holiday("Melorian Memorial", 2, 17, "holiday", "Day of remembrance for those who died in the Battle of Emridy Meadows against the Temple of Elemental Evil."),
    Holiday("Day of the Sun", 7, 14, "holiday", "Celebration of Pelor at the height of summer when the sun is most powerful."),
    Holiday("Midsummer Night", 8, 4, "holiday", "Night of mystical power when magic is said to be stronger. Many witches and wizards perform rituals."),
    Holiday("Feast of Edoira", 10, 4, "holiday", "A day of peace and fellowship dedicated to Rao, god of peace and reason."),
    Holiday("Eternal Harvest", 12, 5, "holiday", "Festival dedicated to Beory the Oerth Mother and Obad-Hai, celebrating the bounty of the land."),
    Holiday("Night of Long Shadows", 15, 11, "holiday", "Solemn night when the undead are said to walk more freely. Many stay indoors with protective candles lit.")
  ]

  const Weekdays: seq<string> := ["Starday", "Sunday", "Moonday", "Godsday", "Waterday", "Earthday", "Freeday"]

  /** The number of months in a year. */
  const MonthCount := 16

  /** The length rule behind the table: every fourth month, from the first, is a 7-day festival. */
  function MonthLength(i: int): int {
    if i % 4 == 0 then 7 else 28
  }

  /** The shape of the month table: ids are positions, every fourth month is a 7-day festival. */
  ghost predicate WellFormedMonth(i: int)
    requires 0 <= i < |Months|
  {
    && Months[i].id == i
    && (Months[i].isFestival <==> i % 4 == 0)
    && Months[i].days == MonthLength(i)
  }

  lemma MonthTable()
    ensures |Months| == MonthCount && |Weekdays| == 7
    ensures forall i :: 0 <= i < |Months| ==> WellFormedMonth(i)
  {
    forall i | 0 <= i < |Months| ensures WellFormedMonth(i) {
      if i < 4 {
        if i == 0 {} else if i == 1 {} else if i == 2 {} else {}
      } else if i < 8 {
        if i == 4 {} else if i == 5 {} else if i == 6 {} else {}
      } else if i < 12 {
        if i == 8 {} else if i == 9 {} else if i == 10 {} else {}
      } else {
        if i == 12 {} else if i == 13 {} else if i == 14 {} else {}
      }
    }
  }

  /** `GREYHAWK_MONTHS.find(m => m.id === id)`: the first month whose id is `id`. */
  function FindMonthIn(ms: seq<Month>, id: int): (r: Option<Month>)
    ensures r.Some? ==> r.value in ms && r.value.id == id
    ensures r.None? ==> forall m :: m in ms ==> m.id != id
    ensures r.Some? ==> exists k :: 0 <= k < |ms| && ms[k] == r.value && forall j :: 0 <= j < k ==> ms[j].id != id
  {
    if ms == [] then None
    else if ms[0].id == id then Some(ms[0])
    else
      var r := FindMonthIn(ms[1..], id);
      if r.Some? then
        var k :| 0 <= k < |ms[1..]| && ms[1..][k] == r.value && forall j :: 0 <= j < k ==> ms[1..][j].id != id;
        assert ms[k + 1] == r.value && forall j :: 0 <= j < k + 1 ==> ms[j].id != id;
        r
      else r
  }

  /** In a table whose ids count up from `first`, the lookup is positional. */
  lemma {:induction false} FindMonthInPositional(ms: seq<Month>, first: int, id: int)
    requires forall k :: 0 <= k < |ms| ==> ms[k].id == first + k
    ensures FindMonthIn(ms, id) == if first <= id < first + |ms| then Some(ms[id - first]) else None
  {
    if ms != [] && ms[0].id != id {
      FindMonthInPositional(ms[1..], first + 1, id);
    }
  }

  function FindMonth(id: int): (r: Option<Month>)
    ensures r.Some? <==> 0 <= id < |Months|
    ensures r.Some? ==> r.value == Months[id]
  {
    MonthTable();
    FindMonthInPositional(Months, 0, id);
    FindMonthIn(Months, id)
  }

  /** A date the calendar can show: a month of the table and a day within it. */
  ghost predicate ValidDate(month: int, day: int) {
    0 <= month < |Months| && 1 <= day <= Months[month].days
  }

  /**
   * Days in the months before `m`, by the length rule; the summing loops
   * below add up the table itself and reach the same total.
   */
  function DaysBefore(m: int): int
    requires m <= MonthCount
  {
    if m <= 0 then 0 else DaysBefore(m - 1) + MonthLength(m - 1)
  }

  /** Days in a year: the sum over the whole month table. */
  function DaysPerYear(): int {
    DaysBefore(MonthCount)
  }

  /**
   * JavaScript's `x % 7`: the remainder is truncated toward zero and takes the
   * sign of the dividend (Dafny's `%` is Euclidean).
   */
  function JsRem7(a: int): (r: int)
    ensures (a - r) % 7 == 0
    ensures a >= 0 ==> 0 <= r < 7
    ensures a < 0 ==> -7 < r <= 0
  {
    if a >= 0 then a % 7
    else
      var q := (-a) / 7;
      assert a + (-a) % 7 == -7 * q;
      -((-a) % 7)
  }

  /** `calculateYearStartDay`: every year starts on Starday, as the day count confirms. */
  function YearStartDay(year: int): (d: int)
    ensures d == Ordinal(year, 0, 1) % 7
  {
    YearIsWholeWeeks();
    assert year * DaysPerYear() == year * 364;
    ShiftByWeeks(Ordinal(year, 0, 1), 0, year * 52);
    0
  }

  /** `calculateMonthStartDay` as a value: the weekday the month's first day falls on. */
  function MonthStartWeekday(monthId: int, yearStartDay: int): int
    requires monthId <= MonthCount
  {
    JsRem7(yearStartDay + DaysBefore(monthId))
  }

  /** The weekday formula of the current-date banner. */
  function DateWeekday(month: int, day: int): int
    requires month <= MonthCount
  {
    JsRem7(DaysBefore(month) + day - 1)
  }

  /** The weekday formula of the festival layout of the calendar grid. */
  function FestivalWeekday(year: int, month: int, day: int): (weekday: int)
    requires month <= MonthCount
    ensures 0 <= month && day >= 1 ==> weekday == (day - 1) % 7 && weekday == DateWeekday(month, day)
  {
    var start := YearStartDay(year);
    var weekday := JsRem7(MonthStartWeekday(month, start) + day - 1);
    if 0 <= month && day >= 1 then
      assert start == 0;
      StardayLayout(month, day);
      weekday
    else
      weekday
  }

  /** In a year that starts on Starday, the festival layout and the banner agree. */
  lemma StardayLayout(month: int, day: int)
    requires 0 <= month <= MonthCount && day >= 1
    ensures JsRem7(MonthStartWeekday(month, 0) + day - 1) == (day - 1) % 7 == DateWeekday(month, day)
  {
    EveryMonthStartsOnYearStart(month, 0);
    DateWeekdayClosedForm(month, day);
  }

  /**
   * A day count from year 0, month 0, day 1. The program has no such
   * function; it is the yardstick the weekday and ordering lemmas use.
   */
  function Ordinal(year: int, month: int, day: int): int
    requires 0 <= month <= MonthCount
  {
    year * DaysPerYear() + DaysBefore(month) + day - 1
  }

  /** The table follows the length rule. */
  lemma MonthDays(i: int)
    requires 0 <= i < |Months|
    ensures Months[i].days == MonthLength(i)
  {
    MonthTable();
    assert WellFormedMonth(i);
  }

  /** Closed form of the prefix sums: `m` months hold 28m days less 21 per festival. */
  lemma {:induction false} DaysBeforeClosedForm(m: int)
    requires 0 <= m <= MonthCount
    ensures DaysBefore(m) == 7 * (4 * m - 3 * ((m + 3) / 4))
  {
    if m > 0 {
      DaysBeforeClosedForm(m - 1);
      var q, q' := (m + 2) / 4, (m + 3) / 4;
      assert DaysBefore(m) == DaysBefore(m - 1) + MonthLength(m - 1);
      assert DaysBefore(m - 1) == 7 * (4 * (m - 1) - 3 * q);
      if (m - 1) % 4 == 0 {
        assert q' == q + 1;
      } else {
        assert q' == q;
      }
    }
  }

  /** The whole weeks in the months before `m`. */
  function WeeksBefore(m: int): int {
    4 * m - 3 * ((m + 3) / 4)
  }

  /** The closed form in whole weeks, none of them negative. */
  lemma DaysBeforeIsWeeks(m: int)
    requires 0 <= m <= MonthCount
    ensures DaysBefore(m) == 7 * WeeksBefore(m) && WeeksBefore(m) >= 0
  {
    DaysBeforeClosedForm(m);
  }

  /** Every month length is a multiple of 7, so every prefix sum is too. */
  lemma DaysBeforeWholeWeeks(m: int)
    requires 0 <= m <= MonthCount
    ensures DaysBefore(m) % 7 == 0 && DaysBefore(m) >= 0
  {
    DaysBeforeIsWeeks(m);
    WholeWeeksMod(DaysBefore(m), WeeksBefore(m));
  }

  lemma WholeWeeksMod(x: int, w: int)
    requires x == 7 * w
    ensures x % 7 == 0
  {
  }

  /** Adding whole weeks does not change a weekday. */
  lemma ShiftByWeeks(x: int, a: int, w: int)
    requires x == a + 7 * w
    ensures x % 7 == a % 7
  {
  }

  /** The JavaScript remainder of a non-negative count shifted by whole weeks. */
  lemma JsRem7ShiftByWeeks(x: int, a: int, w: int)
    requires a >= 0 && w >= 0 && x == a + 7 * w
    ensures JsRem7(x) == a % 7
  {
    ShiftByWeeks(x, a, w);
  }

  /** A year is 364 days, exactly 52 weeks. */
  lemma YearIsWholeWeeks()
    ensures DaysPerYear() == 364 == 52 * 7
  {
    DaysBeforeClosedForm(16);
  }

  /** A month's days follow directly after the previous months'. */
  lemma {:induction false} DaysBeforeMonotone(m1: int, m2: int)
    requires 0 <= m1 < m2 <= MonthCount
    ensures DaysBefore(m1) + MonthLength(m1) <= DaysBefore(m2)
  {
    if m1 + 1 < m2 {
      DaysBeforeMonotone(m1, m2 - 1);
    }
  }

  /** With the year starting on weekday `s`, every month starts on weekday `s % 7`. */
  lemma EveryMonthStartsOnYearStart(monthId: int, yearStartDay: int)
    requires 0 <= monthId <= MonthCount && yearStartDay >= 0
    ensures MonthStartWeekday(monthId, yearStartDay) == yearStartDay % 7
  {
    DaysBeforeIsWeeks(monthId);
    JsRem7ShiftByWeeks(yearStartDay + DaysBefore(monthId), yearStartDay, WeeksBefore(monthId));
  }

  /** Every month of every year starts on Starday. */
  lemma EveryMonthStartsOnStarday(year: int, monthId: int)
    requires 0 <= monthId <= MonthCount
    ensures MonthStartWeekday(monthId, YearStartDay(year)) == 0
    ensures Weekdays[MonthStartWeekday(monthId, YearStartDay(year))] == "Starday"
  {
    EveryMonthStartsOnYearStart(monthId, 0);
  }

  /** On a shown date the banner's weekday depends on the day of the month alone. */
  lemma DateWeekdayClosedForm(month: int, day: int)
    requires 0 <= month <= MonthCount && day >= 1
    ensures DateWeekday(month, day) == (day - 1) % 7
    ensures 0 <= DateWeekday(month, day) < 7
  {
    DaysBeforeIsWeeks(month);
    JsRem7ShiftByWeeks(DaysBefore(month) + day - 1, day - 1, WeeksBefore(month));
  }

  /** The banner's weekday is the day count from the epoch, modulo 7, in every year. */
  lemma DateWeekdayIsOrdinalWeekday(year: int, month: int, day: int)
    requires 0 <= month <= MonthCount && day >= 1
    ensures DateWeekday(month, day) == Ordinal(year, month, day) % 7
  {
    YearIsWholeWeeks();
    DateWeekdayClosedForm(month, day);
    DaysBeforeIsWeeks(month);
    assert year * DaysPerYear() == year * 364;
    ShiftByWeeks(Ordinal(year, month, day), day - 1, year * 52 + WeeksBefore(month));
  }

  /**
   * The loop `calculateMonthStartDay` and `updateCurrentDateDisplay` share:
   * the lengths of the months before `count`, read off the table one by one.
   */
  method SumMonthDays(count: int) returns (totalDays: int)
    requires count <= MonthCount
    ensures totalDays == DaysBefore(count)
  {
    MonthTable();
    totalDays := 0;
    var i := 0;
    while i < count
      invariant 0 <= i <= if count < 0 then 0 else count
      invariant totalDays == DaysBefore(i)
    {
      MonthDays(i);
      totalDays := totalDays + Months[i].days;
      i := i + 1;
    }
  }

  /** `calculateMonthStartDay`: the year's first weekday moved on by the earlier months' days. */
  method CalculateMonthStartDay(monthId: int, yearStartDay: int) returns (weekday: int)
    requires monthId <= MonthCount
    ensures weekday == MonthStartWeekday(monthId, yearStartDay)
    ensures yearStartDay >= 0 ==> 0 <= weekday < 7
  {
    var totalDays := SumMonthDays(monthId);
    if monthId >= 0 {
      DaysBeforeWholeWeeks(monthId);
    }
    weekday := JsRem7(yearStartDay + totalDays);
  }

  /** The weekday block of `updateCurrentDateDisplay`. */
  method CurrentDateWeekday(currentMonth: int, currentDay: int) returns (weekdayIndex: int)
    requires currentMonth <= MonthCount
    ensures weekdayIndex == DateWeekday(currentMonth, currentDay)
    ensures currentDay >= 1 ==> 0 <= weekdayIndex < 7
  {
    var totalDays := SumMonthDays(currentMonth);
    totalDays := totalDays + currentDay - 1;
    if currentMonth >= 0 {
      DaysBeforeWholeWeeks(currentMonth);
    }
    weekdayIndex := JsRem7(totalDays);
  }

  /** `updateAdminDayOptions`: the selectable days of a month, 1 up to its length. */
  method DayOptions(monthId: int) returns (options: seq<int>)
    requires 0 <= monthId < |Months|
    ensures |options| == Months[monthId].days
    ensures forall i :: 0 <= i < |options| ==> options[i] == i + 1
    ensures forall d :: d in options <==> ValidDate(monthId, d)
  {
    var month := FindMonth(monthId).value;
    MonthDays(monthId);
    options := CountDays(month.days);
  }

  /** The loop of `updateAdminDayOptions`: the days 1 up to `last`, in order. */
  method CountDays(last: int) returns (options: seq<int>)
    requires last >= 0
    ensures |options| == last
    ensures forall i :: 0 <= i < |options| ==> options[i] == i + 1
    ensures forall d :: d in options <==> 1 <= d <= last
  {
    options := [];
    var day := 1;
    while day <= last
      invariant 1 <= day <= last + 1
      invariant |options| == day - 1
      invariant forall i :: 0 <= i < |options| ==> options[i] == i + 1
    {
      options := options + [day];
      day := day + 1;
    }
    forall d | 1 <= d <= last ensures d in options {
      assert options[d - 1] == d;
    }
  }
}
