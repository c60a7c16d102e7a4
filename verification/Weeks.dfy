/** Week numbers and their inverse. A week rule is the first day of the week
    (dow) and the day whose first occurrence in a year lies in week 1 (doy);
    section 4.1.4 of ISO 8601:2004 has dow 1 and doy 4. */
module Weeks {
  import opened Gregorian
  import opened MomentValues

  datatype WeekOfYear = WeekOfYear(week: int, year: int)

  datatype DayOfYear = DayOfYear(year: int, dayOfYear: int)

  datatype OptionalWeekday = NoWeekday | OnWeekday(weekday: int)

  predicate WeekRule(dow: int, doy: int) {
    0 <= dow <= 6 && dow <= doy <= dow + 6
  }

  function OrdinalDay(day: int): (n: int)
    ensures n >= 1
  {
    day - YearStart(DayYear(day)) + 1
  }

  function WeekOf(day: int, dow: int, doy: int): WeekOfYear {
    var end := doy - dow;
    var d0 := doy - Weekday(day);
    var d1 := if d0 > end then d0 - 7 else d0;
    var d2 := if d1 < end - 7 then d1 + 7 else d1;
    var adjusted := day + d2;
    WeekOfYear((OrdinalDay(adjusted) + 6) / 7, DayYear(adjusted))
  }

  // Date.UTC, with the year put back afterwards for the years before 1970.
  function CreateUTCDate(y: int, month: int, date: int): int {
    var day := MakeDay(FullYear(y), month, date);
    if y < 1970 then MakeDay(y, DayMonth(day), DayOfMonth(day)) else day
  }

  function WeeksInYear(year: int, dow: int, doy: int): int {
    WeekOf(CreateUTCDate(year, 11, 31 + dow - doy), dow, doy).week
  }

  function DayOfYearFromWeeks(year: int, week: int, weekday: OptionalWeekday, doy: int, dow: int): DayOfYear {
    var week1Jan := 6 + dow - doy;
    var janX := CreateUTCDate(year, 0, 1 + week1Jan);
    var d := if Weekday(janX) < dow then Weekday(janX) + 7 else Weekday(janX);
    var wd := if weekday.OnWeekday? then weekday.weekday else dow;
    var dayOfYear := 1 + week1Jan + 7 * (week - 1) - d + wd;
    if dayOfYear > 0 then DayOfYear(year, dayOfYear) else DayOfYear(year - 1, DaysInYear(year - 1) + dayOfYear)
  }

  // The day that a year and a day number counted from its 1 January stand for.
  function DayNumber(d: DayOfYear): int {
    YearStart(d.year) + d.dayOfYear - 1
  }

  // The weekday counted so that a week runs from dow to dow + 6.
  function WeekdayFrom(day: int, dow: int): (w: int)
    requires 0 <= dow <= 6
    ensures dow <= w <= dow + 6
  {
    if Weekday(day) < dow then Weekday(day) + 7 else Weekday(day)
  }

  // The first day of week 1 of a week-year: the start of the week that holds
  // the first occurrence of the day doy in the calendar year.
  function FirstDay(year: int, dow: int, doy: int): int
    requires WeekRule(dow, doy)
  {
    var jan := YearStart(year) + 6 + dow - doy;
    jan - (WeekdayFrom(jan, dow) - dow)
  }

  lemma FirstDayNearNewYear(year: int, dow: int, doy: int)
    requires WeekRule(dow, doy)
    ensures YearStart(year) <= FirstDay(year, dow, doy) + doy - dow <= YearStart(year) + 6
    ensures Weekday(FirstDay(year, dow, doy)) == dow
  {
    hide YearStart;
  }

  // Week-years are whole weeks, 52 or 53 of them.
  lemma WeekYearLength(year: int, dow: int, doy: int)
    requires WeekRule(dow, doy)
    ensures var n := FirstDay(year + 1, dow, doy) - FirstDay(year, dow, doy); n == 7 * 52 || n == 7 * 53
  {
    hide YearStart, FirstDay, Weekday;
    YearStep(year);
    FirstDayNearNewYear(year, dow, doy);
    FirstDayNearNewYear(year + 1, dow, doy);
    WholeWeeks(FirstDay(year, dow, doy), FirstDay(year + 1, dow, doy));
  }

  lemma WholeWeeks(a: int, b: int)
    requires Weekday(a) == Weekday(b) && 359 <= b - a <= 372
    ensures b - a == 7 * 52 || b - a == 7 * 53
  {
    WeeksApart(b, a);
    hide Weekday;
  }

  // What weekOfYear computes: the week-year that the day lies in, and the
  // number of its week there.
  lemma WeekOfMeaning(day: int, dow: int, doy: int)
    requires WeekRule(dow, doy)
    ensures var w := WeekOf(day, dow, doy); var first := FirstDay(w.year, dow, doy);
      first <= day < FirstDay(w.year + 1, dow, doy) && w.week == (day - first) / 7 + 1
  {
    hide YearStart, FirstDay, DayYear;
    var start := day - (WeekdayFrom(day, dow) - dow);
    var y := DayYear(start + doy - dow);
    var first := FirstDay(y, dow, doy);
    FirstDayNearNewYear(y, dow, doy);
    FirstDayNearNewYear(y + 1, dow, doy);
    WeekStartsOn(day, dow);
    assert WeekOf(day, dow, doy) == WeekOfYear((start + doy - dow - YearStart(y) + 7) / 7, y);
    WeeksApart(start, first);
    WeeksApart(FirstDay(y + 1, dow, doy), start);
  }

  lemma WeekStartsOn(day: int, dow: int)
    requires 0 <= dow <= 6
    ensures Weekday(day - (WeekdayFrom(day, dow) - dow)) == dow
  {
  }

  lemma WeeksApart(a: int, b: int)
    requires Weekday(a) == Weekday(b)
    ensures (a - b) % 7 == 0 && a - b == 7 * ((a - b) / 7)
  {
    assert a - b == 7 * ((a + 4) / 7 - (b + 4) / 7);
  }

  // The day that lies q weeks and r days after the start of a week.
  lemma WeekdayAfter(start: int, q: int, r: int, dow: int)
    requires 0 <= dow <= 6 && Weekday(start) == dow && 0 <= r < 7
    ensures WeekdayFrom(start + 7 * q + r, dow) == dow + r
    ensures (7 * q + r) / 7 == q
  {
    assert start + 7 * q + r + 4 == 7 * ((start + 4) / 7 + q) + (dow + r);
  }

  lemma {:induction false} FirstDaysIncrease(y: int, z: int, dow: int, doy: int)
    requires WeekRule(dow, doy) && y <= z
    ensures FirstDay(y, dow, doy) <= FirstDay(z, dow, doy)
    decreases z - y
  {
    hide FirstDay;
    if y < z {
      FirstDaysIncrease(y, z - 1, dow, doy);
      WeekYearLength(z - 1, dow, doy);
    }
  }

  // The week-years divide the days: each day lies in exactly one.
  lemma WeekOfUnique(day: int, year: int, dow: int, doy: int)
    requires WeekRule(dow, doy)
    requires FirstDay(year, dow, doy) <= day < FirstDay(year + 1, dow, doy)
    ensures WeekOf(day, dow, doy) == WeekOfYear((day - FirstDay(year, dow, doy)) / 7 + 1, year)
  {
    hide FirstDay, WeekOf;
    WeekOfMeaning(day, dow, doy);
    var y := WeekOf(day, dow, doy).year;
    if y < year {
      FirstDaysIncrease(y + 1, year, dow, doy);
    } else if year < y {
      FirstDaysIncrease(year + 1, y, dow, doy);
    }
  }

  // Days of January and December survive the detour over another year.
  lemma CreateUTCDateExact(y: int, month: int, date: int)
    requires (month == 0 || month == 11) && 1 <= date <= 31
    ensures CreateUTCDate(y, month, date) == MakeDay(y, month, date)
  {
    hide MonthStart, MonthIndex;
    var i := 12 * FullYear(y) + month;
    DayLanding(i, date);
    assert MonthLength(i) == 31 by { assert i % 12 == month; }
  }

  lemma NewYearDays(y: int, n: int)
    ensures MakeDay(y, 0, 1 + n) == YearStart(y) + n
    ensures MakeDay(y, 11, 31 - n) == YearStart(y + 1) - 1 - n
  {
    hide YearStart, MonthStart;
    YearStep(y);
    MonthStartClosedForm(12 * y);
    MonthStartClosedForm(12 * y + 11);
    assert (12 * y) / 12 == y && (12 * y + 11) / 12 == y;
  }

  // weeksInYear counts the weeks of the week-year.
  lemma WeeksInYearExact(year: int, dow: int, doy: int)
    requires WeekRule(dow, doy)
    ensures WeeksInYear(year, dow, doy) == 52 || WeeksInYear(year, dow, doy) == 53
    ensures FirstDay(year + 1, dow, doy) == FirstDay(year, dow, doy) + 7 * WeeksInYear(year, dow, doy)
  {
    hide FirstDay, WeekOf, YearStart, CreateUTCDate, MakeDay;
    var last := CreateUTCDate(year, 11, 31 + dow - doy);
    CreateUTCDateExact(year, 11, 31 + dow - doy);
    NewYearDays(year, doy - dow);
    FirstDayNearNewYear(year, dow, doy);
    FirstDayNearNewYear(year + 1, dow, doy);
    WeekYearLength(year, dow, doy);
    WeekOfUnique(last, year, dow, doy);
  }

  // A week and a weekday of a week-year stand for the day that many weeks and
  // days after its first one, whatever the week number.
  lemma DayFromWeeksExact(year: int, week: int, weekday: OptionalWeekday, doy: int, dow: int)
    requires WeekRule(dow, doy)
    ensures DayNumber(DayOfYearFromWeeks(year, week, weekday, doy, dow))
         == FirstDay(year, dow, doy) + 7 * (week - 1) + (if weekday.OnWeekday? then weekday.weekday - dow else 0)
  {
    hide YearStart, MakeDay, CreateUTCDate;
    CreateUTCDateExact(year, 0, 1 + (6 + dow - doy));
    NewYearDays(year, 6 + dow - doy);
    YearStep(year - 1);
  }

  // The day is counted from 1 January of its own calendar year: of the given
  // one, or of the year before when the day lies before it.
  lemma DayFromWeeksYear(year: int, week: int, weekday: OptionalWeekday, doy: int, dow: int)
    requires WeekRule(dow, doy)
    ensures var r := DayOfYearFromWeeks(year, week, weekday, doy, dow); var day := DayNumber(r);
      && r.year == (if day >= YearStart(year) then year else year - 1)
      && r.dayOfYear == day - YearStart(r.year) + 1
      && (1 <= week <= WeeksInYear(year, dow, doy) && (weekday.OnWeekday? ==> dow <= weekday.weekday <= dow + 6) ==> r.dayOfYear >= 1)
  {
    hide MakeDay, CreateUTCDate, FirstDay, WeeksInYear, YearStart;
    YearStep(year - 1);
    FirstDayNearNewYear(year, dow, doy);
    DayFromWeeksExact(year, week, weekday, doy, dow);
  }

  // A week number, a week-year and a weekday come back from their date exactly
  // when the week is one of the week-year's.
  lemma WeekRoundTrip(year: int, week: int, weekday: int, doy: int, dow: int)
    requires WeekRule(dow, doy) && dow <= weekday <= dow + 6
    ensures var day := DayNumber(DayOfYearFromWeeks(year, week, OnWeekday(weekday), doy, dow));
      && WeekdayFrom(day, dow) == weekday
      && (WeekOf(day, dow, doy) == WeekOfYear(week, year) <==> 1 <= week <= WeeksInYear(year, dow, doy))
  {
    hide FirstDay, WeekOf, WeeksInYear, DayNumber, DayOfYearFromWeeks;
    DayFromWeeksExact(year, week, OnWeekday(weekday), doy, dow);
    WeeksInYearExact(year, dow, doy);
    FirstDayNearNewYear(year, dow, doy);
    var day := DayNumber(DayOfYearFromWeeks(year, week, OnWeekday(weekday), doy, dow));
    WeekdayAfter(FirstDay(year, dow, doy), week - 1, weekday - dow, dow);
    hide WeekdayFrom, Weekday;
    if 1 <= week <= WeeksInYear(year, dow, doy) {
      WeekOfUnique(day, year, dow, doy);
    } else {
      WeekOfMeaning(day, dow, doy);
    }
  }

  // 31 December 2012 was the Monday of the first ISO week of 2013.
  lemma IsoWeekExample()
    ensures var r := DayOfYearFromWeeks(2013, 1, OnWeekday(1), 4, 1);
      && r == DayOfYear(2012, 366)
      && DayNumber(r) == MakeDay(2012, 11, 31) && Weekday(DayNumber(r)) == 1
      && WeekOf(DayNumber(r), 1, 4) == WeekOfYear(1, 2013)
  {
    hide *;
    NewYearDays(2012, 0);
    Year2013();
    DayFromWeeksExact(2013, 1, OnWeekday(1), 4, 1);
    DayFromWeeksYear(2013, 1, OnWeekday(1), 4, 1);
    WeeksInYearExact(2013, 1, 4);
    WeekRoundTrip(2013, 1, 1, 4, 1);
  }

  lemma Year2013()
    ensures YearStart(2012) == 15340 && YearStart(2013) == 15706
    ensures WeekRule(1, 4) && FirstDay(2013, 1, 4) == 15705 && Weekday(15705) == 1
  {
  }

  // Every day comes from its week-year, week and weekday, and from no other triple.
  lemma DayRoundTrip(day: int, dow: int, doy: int)
    requires WeekRule(dow, doy)
    ensures var w := WeekOf(day, dow, doy);
      && 1 <= w.week <= WeeksInYear(w.year, dow, doy)
      && DayNumber(DayOfYearFromWeeks(w.year, w.week, OnWeekday(WeekdayFrom(day, dow)), doy, dow)) == day
      && forall year, week, weekday ::
           1 <= week <= WeeksInYear(year, dow, doy) && dow <= weekday <= dow + 6
           && DayNumber(DayOfYearFromWeeks(year, week, OnWeekday(weekday), doy, dow)) == day
           ==> year == w.year && week == w.week && weekday == WeekdayFrom(day, dow)
  {
    hide FirstDay, WeekOf, WeeksInYear, DayNumber, DayOfYearFromWeeks;
    var w := WeekOf(day, dow, doy);
    WeekOfMeaning(day, dow, doy);
    WeeksInYearExact(w.year, dow, doy);
    FirstDayNearNewYear(w.year, dow, doy);
    DayFromWeeksExact(w.year, w.week, OnWeekday(WeekdayFrom(day, dow)), doy, dow);
    var first := FirstDay(w.year, dow, doy);
    WeekdayAfter(first, (day - first) / 7, (day - first) % 7, dow);
    hide WeekdayFrom, Weekday;
    forall year, week, weekday |
        1 <= week <= WeeksInYear(year, dow, doy) && dow <= weekday <= dow + 6
        && DayNumber(DayOfYearFromWeeks(year, week, OnWeekday(weekday), doy, dow)) == day
      ensures year == w.year && week == w.week && weekday == WeekdayFrom(day, dow)
    {
      WeekRoundTrip(year, week, weekday, doy, dow);
    }
  }
}
