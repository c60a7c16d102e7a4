/** The proleptic Gregorian calendar in UTC, as section 20.3.1 of ECMA-262,
    6th edition, defines it: days and months are counted from a fixed origin. */
module Gregorian {
  const MS_PER_DAY := 86_400_000

  predicate IsLeap(y: int) {
    (y % 4 == 0 && y % 100 != 0) || y % 400 == 0
  }

  function DaysInYear(y: int): int {
    if IsLeap(y) then 366 else 365
  }

  // Day number of 1 January, where 1 January 1970 is day 0.
  function YearStart(y: int): int {
    365 * (y - 1970) + (y - 1969) / 4 - (y - 1901) / 100 + (y - 1601) / 400
  }

  lemma YearStep(y: int)
    ensures YearStart(y + 1) == YearStart(y) + DaysInYear(y)
  {
    assert (y - 1968) / 4 - (y - 1969) / 4 == if y % 4 == 0 then 1 else 0;
    assert (y - 1900) / 100 - (y - 1901) / 100 == if y % 100 == 0 then 1 else 0;
    assert (y - 1600) / 400 - (y - 1601) / 400 == if y % 400 == 0 then 1 else 0;
  }

  // Days of the year before month m, with January as month 0.
  function DaysBefore(leap: bool, m: int): int
    requires 0 <= m < 12
  {
    if m < 2 then 31 * m else DaysBeforeCommon(m) + (if leap then 1 else 0)
  }

  function DaysBeforeCommon(m: int): int
    requires 2 <= m < 12
  {
    if m == 2 then 59 else if m == 3 then 90 else if m == 4 then 120 else if m == 5 then 151
    else if m == 6 then 181 else if m == 7 then 212 else if m == 8 then 243
    else if m == 9 then 273 else if m == 10 then 304 else 334
  }

  // Months are numbered through: month m of year y is month 12 * y + m.
  function MonthLength(i: int): (n: int)
    ensures 28 <= n <= 31
  {
    var m := i % 12;
    if m == 1 then (if IsLeap(i / 12) then 29 else 28)
    else if m == 3 || m == 5 || m == 8 || m == 10 then 30
    else 31
  }

  const EPOCH_MONTH := 12 * 1970

  // The first day of a month: the days of all months from the epoch on, or back to it.
  function MonthStart(i: int): int
    decreases if i < EPOCH_MONTH then EPOCH_MONTH - i else i - EPOCH_MONTH
  {
    if i == EPOCH_MONTH then 0
    else if i > EPOCH_MONTH then MonthStart(i - 1) + MonthLength(i - 1)
    else MonthStart(i + 1) - MonthLength(i)
  }

  lemma MonthStep(i: int)
    ensures MonthStart(i) + MonthLength(i) == MonthStart(i + 1)
  {
  }

  lemma NextMonth(i: int)
    ensures if i % 12 == 11 then (i + 1) / 12 == i / 12 + 1 && (i + 1) % 12 == 0
            else (i + 1) / 12 == i / 12 && (i + 1) % 12 == i % 12 + 1
  {
  }

  // The closed form of the standard: the day of the year's first of January,
  // and the days before the month.
  function ClosedForm(i: int): int {
    YearStart(i / 12) + DaysBefore(IsLeap(i / 12), i % 12)
  }

  lemma ClosedFormStep(i: int)
    ensures ClosedForm(i) + MonthLength(i) == ClosedForm(i + 1)
  {
    hide YearStart;
    YearStep(i / 12);
    NextMonth(i);
  }

  lemma EpochMonth()
    ensures ClosedForm(EPOCH_MONTH) == 0
  {
  }

  // Counting the days month by month gives the closed form.
  lemma {:induction false} MonthStartClosedForm(i: int)
    ensures MonthStart(i) == ClosedForm(i)
    decreases if i < EPOCH_MONTH then EPOCH_MONTH - i else i - EPOCH_MONTH
  {
    hide ClosedForm, MonthLength;
    if i == EPOCH_MONTH {
      EpochMonth();
    } else if i > EPOCH_MONTH {
      MonthStartClosedForm(i - 1);
      ClosedFormStep(i - 1);
    } else {
      MonthStartClosedForm(i + 1);
      ClosedFormStep(i);
    }
  }

  lemma {:induction false} MonthStartsIncrease(i: int, j: int)
    requires i <= j
    ensures MonthStart(i) + 28 * (j - i) <= MonthStart(j)
    decreases j - i
  {
    if i < j {
      MonthStartsIncrease(i, j - 1);
      MonthStep(j - 1);
    }
  }

  // The month that a day falls in, by walking from a month nearby.
  function FindMonth(day: int, i: int): (r: int)
    ensures MonthStart(r) <= day < MonthStart(r + 1)
    decreases if day < MonthStart(i) then 1 else 0, if day < MonthStart(i) then MonthStart(i) - day else day - MonthStart(i)
  {
    hide *;
    MonthStep(i);
    MonthStep(i - 1);
    if day < MonthStart(i) then FindMonth(day, i - 1)
    else if day >= MonthStart(i + 1) then FindMonth(day, i + 1)
    else i
  }

  function MonthIndex(day: int): (r: int)
    ensures MonthStart(r) <= day < MonthStart(r + 1)
  {
    FindMonth(day, 12 * 1970 + day / 30)
  }

  lemma MonthIndexUnique(day: int, i: int)
    requires MonthStart(i) <= day < MonthStart(i + 1)
    ensures MonthIndex(day) == i
  {
    hide *;
    var r := MonthIndex(day);
    if r < i {
      MonthStartsIncrease(r + 1, i);
    } else {
      MonthStartsIncrease(i, r);
      if i < r {
        MonthStartsIncrease(i + 1, r);
      }
    }
  }

  // Earlier days fall in earlier months.
  lemma MonthIndexMonotone(d: int, e: int)
    requires d <= e
    ensures MonthIndex(d) <= MonthIndex(e)
  {
    hide *;
    var i, j := MonthIndex(d), MonthIndex(e);
    if j < i {
      MonthStartsIncrease(j + 1, i);
    }
  }

  lemma MonthInYear(i: int)
    ensures YearStart(i / 12) <= MonthStart(i) && MonthStart(i + 1) <= YearStart(i / 12 + 1)
  {
    hide YearStart, MonthStart;
    MonthStartClosedForm(i);
    MonthStartClosedForm(i + 1);
    YearStep(i / 12);
    NextMonth(i);
  }

  function DayYear(day: int): (y: int)
    ensures YearStart(y) <= day < YearStart(y + 1)
  {
    hide *;
    var i := MonthIndex(day);
    MonthInYear(i);
    i / 12
  }

  function DayMonth(day: int): (m: int)
    ensures 0 <= m < 12
  {
    MonthIndex(day) % 12
  }

  function DayOfMonth(day: int): (d: int)
    ensures 1 <= d <= MonthLength(MonthIndex(day))
  {
    day - MonthStart(MonthIndex(day)) + 1
  }

  // 0 is Sunday; 1 January 1970 was a Thursday.
  function Weekday(day: int): (w: int)
    ensures 0 <= w < 7
  {
    (day + 4) % 7
  }

  // MakeDay: month and day may lie outside their ranges.
  function MakeDay(y: int, m: int, d: int): int {
    MonthStart(12 * y + m) + d - 1
  }

  function Day(t: int): int {
    t / MS_PER_DAY
  }

  function TimeInDay(t: int): (r: int)
    ensures 0 <= r < MS_PER_DAY
    ensures t == Day(t) * MS_PER_DAY + r
  {
    t % MS_PER_DAY
  }

  function MakeDate(day: int, time: int): int {
    day * MS_PER_DAY + time
  }

  lemma MakeDateParts(day: int, time: int)
    requires 0 <= time < MS_PER_DAY
    ensures Day(MakeDate(day, time)) == day && TimeInDay(MakeDate(day, time)) == time
  {
  }
}
