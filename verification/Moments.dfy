/** Values of a UTC moment: milliseconds since the epoch, read and set through
    the calendar. */
module MomentValues {
  import opened Gregorian

  function Year(t: int): int {
    DayYear(Day(t))
  }

  function Month(t: int): (m: int)
    ensures 0 <= m < 12
  {
    DayMonth(Day(t))
  }

  function Date(t: int): (d: int)
    ensures 1 <= d <= 31
  {
    DayOfMonth(Day(t))
  }

  // Months numbered through from year 0.
  function Index(t: int): (i: int)
    ensures i == 12 * Year(t) + Month(t)
  {
    MonthIndex(Day(t))
  }

  // Date.UTC takes the years 0 to 99 for 1900 to 1999.
  function FullYear(y: int): int {
    if 0 <= y <= 99 then 1900 + y else y
  }

  // The day of the month before the first of the next month, as Date.UTC finds it.
  function DaysInMonth(year: int, month: int): int {
    DayOfMonth(MakeDay(FullYear(year), month + 1, 0))
  }

  lemma DaysInMonthIsLength(year: int, month: int)
    ensures DaysInMonth(year, month) == MonthLength(12 * FullYear(year) + month)
  {
    var i := 12 * FullYear(year) + month;
    MonthStep(i);
    hide MonthStart;
    MonthIndexUnique(MonthStart(i + 1) - 1, i);
  }

  // The month lengths that the two-digit year rule gets wrong: February of the
  // years divisible by 400, and of those that are 100 above such a year.
  predicate Misjudged(year: int, month: int) {
    0 <= year <= 99 && month % 12 == 1 && (year + month / 12) % 400 in {0, 100}
  }

  lemma DaysInMonthExact(year: int, month: int)
    ensures DaysInMonth(year, month) == MonthLength(12 * year + month) <==> !Misjudged(year, month)
    ensures Misjudged(year, month) && (year + month / 12) % 400 == 0
      ==> DaysInMonth(year, month) == 28 && MonthLength(12 * year + month) == 29
    ensures Misjudged(year, month) && (year + month / 12) % 400 == 100
      ==> DaysInMonth(year, month) == 29 && MonthLength(12 * year + month) == 28
  {
    hide MonthStart, DaysInMonth;
    DaysInMonthIsLength(year, month);
    if 0 <= year <= 99 {
      var y := year + month / 12;
      assert (12 * year + month) / 12 == y && (12 * year + month) % 12 == month % 12;
      assert (12 * (1900 + year) + month) / 12 == 1900 + y && (12 * (1900 + year) + month) % 12 == month % 12;
      LeapAfter1900Years(y);
    }
  }

  lemma LeapAfter1900Years(y: int)
    ensures IsLeap(1900 + y) == IsLeap(y) <==> y % 400 != 0 && y % 400 != 100
    ensures y % 400 == 0 ==> IsLeap(y) && !IsLeap(1900 + y)
    ensures y % 400 == 100 ==> !IsLeap(y) && IsLeap(1900 + y)
  {
    var r := y % 400;
    assert y == 400 * (y / 400) + r;
    assert (1900 + y) % 400 == (300 + r) % 400;
    assert (1900 + y) % 100 == y % 100 == r % 100;
    assert (1900 + y) % 4 == y % 4;
  }

  function Min(a: int, b: int): int {
    if a < b then a else b
  }

  // setUTCMonth with a month and a day
  function SetUTCMonth(t: int, month: int, day: int): int {
    MakeDate(MakeDay(Year(t), month, day), TimeInDay(t))
  }

  // setUTCDate
  function SetUTCDate(t: int, day: int): int {
    MakeDate(MakeDay(Year(t), Month(t), day), TimeInDay(t))
  }

  // The same time of day, in the month numbered i, on the same day of the
  // month or on the last one when that month is shorter.
  function Clamped(t: int, i: int): int {
    MakeDate(MonthStart(i) + Min(Date(t), MonthLength(i)) - 1, TimeInDay(t))
  }

  // What setMonth leaves.
  function WithMonth(t: int, value: int): int {
    SetUTCMonth(t, value, Min(Date(t), DaysInMonth(Year(t), value)))
  }

  // A month set to a value lands on the clamped day, except that the last days
  // of a misjudged February go to the 28th of a leap one or past the end of a
  // common one.
  lemma WithMonthExact(t: int, value: int)
    ensures WithMonth(t, value) == Clamped(t, 12 * Year(t) + value)
      <==> !(Misjudged(Year(t), value) && Date(t) >= 29)
  {
    hide MonthStart, MonthLength, DaysInMonth, Year, Date, TimeInDay;
    DaysInMonthExact(Year(t), value);
  }

  // A common February that is taken for a leap one.
  predicate TakenForLeap(year: int, month: int) {
    Misjudged(year, month) && (year + month / 12) % 400 == 100
  }

  predicate Spills(t: int, value: int) {
    TakenForLeap(Year(t), value) && Date(t) >= 29
  }

  // The month index moves by exactly the requested number of months, and the
  // day never grows, except that the last days of a misjudged common February
  // go to 1 March.
  lemma WithMonthLands(t: int, value: int)
    ensures TimeInDay(WithMonth(t, value)) == TimeInDay(t)
    ensures Index(WithMonth(t, value)) == 12 * Year(t) + value <==> !Spills(t, value)
    ensures !Spills(t, value) ==> Min(Date(t), 28) <= Date(WithMonth(t, value)) <= Date(t)
    ensures Spills(t, value) ==> Index(WithMonth(t, value)) == 12 * Year(t) + value + 1 && Date(WithMonth(t, value)) == 1
  {
    hide MonthLength, DaysInMonth, SetUTCMonth, Index, Year, Date, TimeInDay, Min, TakenForLeap;
    var d := Min(Date(t), DaysInMonth(Year(t), value));
    ClampedDay(Year(t), value, Date(t));
    SetUTCMonthLands(t, value, d);
  }

  // The clamped day fits the month unless the month is a misjudged common February.
  lemma ClampedDay(year: int, month: int, date: int)
    requires 1 <= date
    ensures var d, n := Min(date, DaysInMonth(year, month)), MonthLength(12 * year + month);
      && 1 <= d && Min(date, 28) <= d <= date
      && d <= n + 1
      && (d == n + 1 <==> TakenForLeap(year, month) && date >= 29)
  {
    DaysInMonthExact(year, month);
    DaysInMonthIsLength(year, month);
    hide MonthLength, DaysInMonth;
  }

  lemma SetUTCMonthLands(t: int, month: int, d: int)
    requires 1 <= d <= MonthLength(12 * Year(t) + month) + 1
    ensures TimeInDay(SetUTCMonth(t, month, d)) == TimeInDay(t)
    ensures d <= MonthLength(12 * Year(t) + month) ==>
      Index(SetUTCMonth(t, month, d)) == 12 * Year(t) + month && Date(SetUTCMonth(t, month, d)) == d
    ensures d == MonthLength(12 * Year(t) + month) + 1 ==>
      Index(SetUTCMonth(t, month, d)) == 12 * Year(t) + month + 1 && Date(SetUTCMonth(t, month, d)) == 1
  {
    hide MonthStart, MonthLength, MonthIndex, DayOfMonth, Year, Day, TimeInDay, MakeDate;
    var i := 12 * Year(t) + month;
    DayLanding(i, d);
    MakeDateParts(MonthStart(i) + d - 1, TimeInDay(t));
  }

  // Where the d-th day counted from the start of month i falls.
  lemma DayLanding(i: int, d: int)
    requires 1 <= d <= MonthLength(i) + 1
    ensures d <= MonthLength(i) ==>
      MonthIndex(MonthStart(i) + d - 1) == i && DayOfMonth(MonthStart(i) + d - 1) == d
    ensures d == MonthLength(i) + 1 ==>
      MonthIndex(MonthStart(i) + d - 1) == i + 1 && DayOfMonth(MonthStart(i) + d - 1) == 1
  {
    hide MonthStart, MonthLength, MonthIndex;
    MonthStep(i);
    MonthStep(i + 1);
    if d <= MonthLength(i) {
      MonthIndexUnique(MonthStart(i) + d - 1, i);
    } else {
      MonthIndexUnique(MonthStart(i) + d - 1, i + 1);
    }
  }

  // Moving a moment by n months; nothing happens for n == 0.
  function AddMonths(t: int, n: int): int {
    if n == 0 then t else WithMonth(t, Month(t) + n)
  }

  // Setting the day of the month n days further moves the moment by n days.
  lemma SetUTCDateShifts(t: int, n: int)
    ensures SetUTCDate(t, Date(t) + n) == t + n * MS_PER_DAY
  {
    hide MonthStart, MonthIndex;
  }
}

/** The difference of two moments in months and milliseconds. */
module MonthDifference {
  import opened Gregorian
  import opened MomentValues

  datatype Difference = Difference(milliseconds: int, months: int)

  function PositiveDifference(base: int, other: int): Difference {
    var months := Month(other) - Month(base) + (Year(other) - Year(base)) * 12;
    var n := if AddMonths(base, months) > other then months - 1 else months;
    Difference(other - AddMonths(base, n), n)
  }

  function SignedDifference(base: int, other: int): Difference {
    if base < other then PositiveDifference(base, other)
    else
      var r := PositiveDifference(other, base);
      Difference(-r.milliseconds, -r.months)
  }

  // The month, day and time of day that base reaches after n months: n months
  // further, or the first of the month after that when the day spills.
  predicate SpillsAfter(base: int, n: int) {
    n != 0 && Spills(base, Month(base) + n)
  }

  lemma AddMonthsLands(base: int, n: int)
    ensures TimeInDay(AddMonths(base, n)) == TimeInDay(base)
    ensures Index(AddMonths(base, n)) == Index(base) + n + (if SpillsAfter(base, n) then 1 else 0)
    ensures if SpillsAfter(base, n) then Date(AddMonths(base, n)) == 1
            else Min(Date(base), 28) <= Date(AddMonths(base, n))
  {
    hide WithMonth, Index, Year, Month, Date, TimeInDay, Spills;
    WithMonthLands(base, Month(base) + n);
  }

  // Moments in earlier months, or on earlier days of the same month, are earlier.
  lemma LaterIndexIsLater(s: int, t: int)
    requires Index(s) < Index(t) || (Index(s) == Index(t) && Date(s) < Date(t))
    ensures s < t
  {
    hide MonthStart, MonthIndex;
    if s >= t {
      assert Day(s) >= Day(t);
      MonthIndexMonotone(Day(t), Day(s));
    }
  }

  lemma SameDate(s: int, t: int)
    requires Index(s) == Index(t) && Date(s) == Date(t)
    ensures s <= t <==> TimeInDay(s) <= TimeInDay(t)
  {
    hide MonthStart, MonthIndex;
    assert Day(s) == Day(t);
  }

  // More months lead to a later moment, spilling or not.
  lemma AddMonthsIncreases(base: int, j: int, k: int)
    requires j < k
    ensures AddMonths(base, j) < AddMonths(base, k)
  {
    AddMonthsLands(base, j);
    AddMonthsLands(base, k);
    hide AddMonths, Index, Year, Month, Date, TakenForLeap;
    LaterIndexIsLater(AddMonths(base, j), AddMonths(base, k));
  }

  // Subtracting undoes adding exactly when the day of the month was kept and the
  // month to come back to is not a misjudged February with one of the last days.
  lemma SubtractUndoesAdd(t: int, n: int)
    ensures var s := AddMonths(t, n);
      AddMonths(s, -n) == t <==>
        n == 0 || (Date(s) == Date(t) && !(Misjudged(Year(s), Month(s) - n) && Date(t) >= 29))
  {
    hide WithMonth, Index, Year, Month, Date, TimeInDay, Misjudged, TakenForLeap;
    if n != 0 {
      var s := AddMonths(t, n);
      WithMonthLands(t, Month(t) + n);
      if Spills(t, Month(t) + n) {
        WithMonthLands(s, Month(s) - n);
      } else {
        SetBack(t, s, Month(s) - n);
      }
    }
  }

  // Setting the month back to that of t, from a moment that is no later in its month.
  lemma SetBack(t: int, s: int, value: int)
    requires 12 * Year(s) + value == Index(t) && TimeInDay(s) == TimeInDay(t) && Date(s) <= Date(t)
    ensures WithMonth(s, value) == t <==> Date(s) == Date(t) && !(Misjudged(Year(s), value) && Date(t) >= 29)
  {
    hide WithMonth, Index, Year, Date, TimeInDay, Misjudged, TakenForLeap, Clamped;
    if Date(s) == Date(t) {
      ClampedKeepsDate(s, t);
      WithMonthExact(s, value);
    } else {
      WithMonthLands(s, value);
    }
  }

  lemma ClampedKeepsDate(s: int, t: int)
    requires TimeInDay(s) == TimeInDay(t) && Date(s) == Date(t)
    ensures Clamped(s, Index(t)) == t
  {
    hide MonthStart, MonthIndex;
  }

  // A base on the last days of a month of the years 0 to 99 and an other on
  // 1 March after a misjudged common February, earlier in the day than base.
  predicate Overshoots(base: int, other: int) {
    && 0 <= Year(base) <= 99 && Date(base) >= 29
    && Year(other) % 400 == 100 && Month(other) == 2 && Date(other) == 1
    && TimeInDay(other) < TimeInDay(base)
  }

  lemma OvershootSpills(base: int, other: int)
    requires Year(other) % 400 == 100 && Month(other) == 2
    ensures SpillsAfter(base, Index(other) - Index(base) - 1) <==> 0 <= Year(base) <= 99 && Date(base) >= 29
  {
    hide Index, Year, Month, Date;
    var n := Index(other) - Index(base) - 1;
    assert Month(base) + n == 12 * (Year(other) - Year(base)) + 1;
    assert Year(base) + (Month(base) + n) / 12 == Year(other);
  }

  lemma SpillsBeforeMarch(base: int, other: int)
    requires SpillsAfter(base, Index(other) - Index(base) - 1)
    ensures Year(other) % 400 == 100 && Month(other) == 2
  {
    hide Index, Year, Month, Date;
    var n := Index(other) - Index(base) - 1;
    assert 12 * (Year(base) + (Month(base) + n) / 12) + 1 == 12 * Year(base) + Month(base) + n;
  }

  // The months are the most that do not lead from start past end, and the
  // milliseconds are what is then left.
  ghost predicate Spans(start: int, end: int, milliseconds: int, months: int) {
    && months >= 0 && AddMonths(start, months) + milliseconds == end
    && forall k :: k > months ==> AddMonths(start, k) > end
  }

  // For base <= other the months are the most that do not pass other, and
  // adding the months and then the milliseconds leads to other. The
  // milliseconds are negative exactly when the months overshoot.
  lemma PositiveDifferenceExact(base: int, other: int)
    requires base <= other
    ensures var r := PositiveDifference(base, other);
      && Spans(base, other, r.milliseconds, r.months)
      && (r.milliseconds >= 0 <==> !Overshoots(base, other))
  {
    var m := Index(other) - Index(base);
    var r := PositiveDifference(base, other);
    AddMonthsLands(base, m);
    AddMonthsLands(base, m - 1);
    forall k | k > r.months
      ensures AddMonths(base, k) > other
    {
      NotReached(base, other, k);
    }
    assert r.months < 0 ==> AddMonths(base, 0) > other;
    RemainderSign(base, other);
  }

  lemma NotReached(base: int, other: int, k: int)
    requires k > PositiveDifference(base, other).months
    ensures AddMonths(base, k) > other
  {
    hide AddMonths, Index, Year, Month, Date;
    var m := Index(other) - Index(base);
    if k > m {
      AddMonthsLands(base, k);
      LaterIndexIsLater(other, AddMonths(base, k));
    }
  }

  lemma RemainderSign(base: int, other: int)
    ensures PositiveDifference(base, other).milliseconds >= 0 <==> !Overshoots(base, other)
  {
    hide AddMonths, Index, Year, Month, Date, TimeInDay, SpillsAfter;
    var m := Index(other) - Index(base);
    var late, early := AddMonths(base, m), AddMonths(base, m - 1);
    AddMonthsLands(base, m);
    AddMonthsLands(base, m - 1);
    if late > other {
      if SpillsAfter(base, m - 1) {
        SpillsBeforeMarch(base, other);
        OvershootSpills(base, other);
        if Date(other) > 1 {
          LaterIndexIsLater(early, other);
        } else {
          SameDate(early, other);
        }
      } else {
        LaterIndexIsLater(early, other);
        if Overshoots(base, other) {
          OvershootSpills(base, other);
        }
      }
    } else if Overshoots(base, other) {
      LaterIndexIsLater(other, late);
    }
  }

  // From 31 January 99, one millisecond after midnight, to midnight of 1 March 100.
  lemma OvershootExample()
    ensures var base, other := MakeDate(MakeDay(99, 0, 31), 1), MakeDate(MakeDay(100, 2, 1), 0);
      base < other && PositiveDifference(base, other).milliseconds < 0
  {
    var base, other := MakeDate(MakeDay(99, 0, 31), 1), MakeDate(MakeDay(100, 2, 1), 0);
    hide MonthStart, MonthLength, MonthIndex, PositiveDifference, AddMonths;
    JanuaryHas31Days(99);
    DayLanding(12 * 99, 31);
    DayLanding(12 * 100 + 2, 1);
    MonthStartsIncrease(12 * 99 + 1, 12 * 100 + 2);
    MakeDateParts(MakeDay(99, 0, 31), 1);
    MakeDateParts(MakeDay(100, 2, 1), 0);
    assert Overshoots(base, other);
    RemainderSign(base, other);
  }

  lemma JanuaryHas31Days(y: int)
    ensures MonthLength(12 * y) == 31 && MonthStart(12 * y + 1) == MonthStart(12 * y) + 31
  {
  }

  // Forwards the difference leads from base to other; backwards both of its
  // parts are the negated ones that lead from other to base.
  lemma SignedDifferenceExact(base: int, other: int)
    ensures var r := SignedDifference(base, other);
      && (base < other ==> Spans(base, other, r.milliseconds, r.months) && (r.milliseconds >= 0 <==> !Overshoots(base, other)))
      && (other <= base ==> Spans(other, base, -r.milliseconds, -r.months) && (r.milliseconds <= 0 <==> !Overshoots(other, base)))
  {
    hide PositiveDifference, Spans, Overshoots;
    if base < other {
      PositiveDifferenceExact(base, other);
    } else {
      PositiveDifferenceExact(other, base);
    }
  }

  // Swapping the two moments negates the difference.
  lemma SignedDifferenceIsOdd(a: int, b: int)
    ensures SignedDifference(a, b).months == -SignedDifference(b, a).months
    ensures SignedDifference(a, b).milliseconds == -SignedDifference(b, a).milliseconds
  {
    if a == b {
      assert PositiveDifference(a, a) == Difference(0, 0);
    }
  }
}

/** Moments that are changed in place, and the units of the calendar. */
module Moments {
  import opened Congruence
  import opened Gregorian
  import opened MomentValues
  import opened MonthDifference

  datatype Unit = Millisecond | Second | Minute | Hour | DayUnit | Week | IsoWeek | MonthUnit | Quarter | YearUnit

  datatype Period = Period(milliseconds: int, days: int, months: int)

  // What a duration of n units is made of.
  function PeriodOf(n: int, u: Unit): Period {
    match u
    case Millisecond => Period(n, 0, 0)
    case Second => Period(n * 1000, 0, 0)
    case Minute => Period(n * 60_000, 0, 0)
    case Hour => Period(n * 3_600_000, 0, 0)
    case DayUnit => Period(0, n, 0)
    case Week => Period(0, n * 7, 0)
    case IsoWeek => Period(0, n * 7, 0)
    case MonthUnit => Period(0, 0, n)
    case Quarter => Period(0, 0, n * 3)
    case YearUnit => Period(0, 0, n * 12)
  }

  // Adding a period: first its milliseconds and days, then its months.
  function Added(t: int, p: Period, sign: int): int {
    AddMonths(t + p.milliseconds * sign + p.days * sign * MS_PER_DAY, p.months * sign)
  }

  // n units are made of n times what one unit is made of.
  lemma PeriodScales(n: int, u: Unit)
    ensures var one, p := PeriodOf(1, u), PeriodOf(n, u);
      p.milliseconds == n * one.milliseconds && p.days == n * one.days && p.months == n * one.months
  {
  }

  // Adding moves forwards by every part of the period, subtracting backwards.
  lemma AddedExact(t: int, p: Period)
    ensures Added(t, p, 1) == AddMonths(t + p.milliseconds + p.days * MS_PER_DAY, p.months)
    ensures Added(t, p, -1) == AddMonths(t - p.milliseconds - p.days * MS_PER_DAY, -p.months)
    ensures p.months == 0 ==> Added(Added(t, p, 1), p, -1) == t
  {
    hide AddMonths;
    AddNoMonths(t + p.milliseconds + p.days * MS_PER_DAY);
    AddNoMonths(t);
  }

  predicate MonthBased(u: Unit) {
    u.MonthUnit? || u.Quarter? || u.YearUnit?
  }

  function MonthsIn(u: Unit): (n: int)
    requires MonthBased(u)
    ensures n > 0 && 12 % n == 0
  {
    match u
    case MonthUnit => 1
    case Quarter => 3
    case YearUnit => 12
  }

  function Length(u: Unit): (n: int)
    requires !MonthBased(u)
    ensures n > 0
  {
    match u
    case Millisecond => 1
    case Second => 1000
    case Minute => 60_000
    case Hour => 3_600_000
    case DayUnit => MS_PER_DAY
    case Week => 7 * MS_PER_DAY
    case IsoWeek => 7 * MS_PER_DAY
  }

  // A moment at which a unit of fixed length starts; 4 January 1970 was a Sunday.
  function Origin(u: Unit, dow: int): int
    requires !MonthBased(u)
  {
    if u.Week? then (3 + dow) * MS_PER_DAY else if u.IsoWeek? then 4 * MS_PER_DAY else 0
  }

  // The units of one kind divide time into intervals; the one that holds t
  // starts here, when weeks start on the weekday dow.
  function UnitStart(u: Unit, dow: int, t: int): int {
    if MonthBased(u) then MakeDate(MonthStart(Index(t) - Index(t) % MonthsIn(u)), 0)
    else t - (t - Origin(u, dow)) % Length(u)
  }

  // ... and ends where the next one starts.
  function NextStart(u: Unit, dow: int, t: int): int {
    if MonthBased(u) then MakeDate(MonthStart(Index(t) - Index(t) % MonthsIn(u) + MonthsIn(u)), 0)
    else UnitStart(u, dow, t) + Length(u)
  }

  lemma UnitHoldsMoment(u: Unit, dow: int, t: int)
    ensures UnitStart(u, dow, t) <= t < NextStart(u, dow, t)
  {
    hide Length, Origin, MonthsIn, MonthStart, Index, MakeDate;
    if MonthBased(u) {
      MonthUnitHoldsMoment(MonthsIn(u), t);
    } else {
      var r := (t - Origin(u, dow)) % Length(u);
      assert 0 <= r < Length(u);
    }
  }

  lemma MonthUnitHoldsMoment(w: int, t: int)
    requires w > 0
    ensures var i := Index(t) - Index(t) % w;
      MakeDate(MonthStart(i), 0) <= t < MakeDate(MonthStart(i + w), 0)
  {
    hide MonthStart, MonthIndex;
    var i := Index(t) - Index(t) % w;
    MonthStartsIncrease(i, Index(t));
    MonthStartsIncrease(Index(t) + 1, i + w);
  }

  // Every moment of a unit has the same unit.
  lemma UnitIsShared(u: Unit, dow: int, t: int, s: int)
    requires UnitStart(u, dow, t) <= s < NextStart(u, dow, t)
    ensures UnitStart(u, dow, s) == UnitStart(u, dow, t)
    ensures NextStart(u, dow, s) == NextStart(u, dow, t)
  {
    hide UnitStart, NextStart;
    if MonthBased(u) {
      MonthBasedIsShared(u, dow, t, s);
    } else {
      FixedIsShared(u, dow, t, s);
    }
  }

  lemma MonthBasedIsShared(u: Unit, dow: int, t: int, s: int)
    requires MonthBased(u) && UnitStart(u, dow, t) <= s < NextStart(u, dow, t)
    ensures UnitStart(u, dow, s) == UnitStart(u, dow, t) && NextStart(u, dow, s) == NextStart(u, dow, t)
  {
    hide MonthsIn, MonthStart, Index, MakeDate;
    var w := MonthsIn(u);
    MonthUnitIsShared(w, t, s);
  }

  lemma FixedIsShared(u: Unit, dow: int, t: int, s: int)
    requires !MonthBased(u) && UnitStart(u, dow, t) <= s < NextStart(u, dow, t)
    ensures UnitStart(u, dow, s) == UnitStart(u, dow, t) && NextStart(u, dow, s) == NextStart(u, dow, t)
  {
    hide Length, Origin;
    ShiftedUnitIsShared(Length(u), Origin(u, dow), t, s);
  }

  lemma ShiftedUnitIsShared(n: int, o: int, t: int, s: int)
    requires n > 0 && t - (t - o) % n <= s < t - (t - o) % n + n
    ensures s - (s - o) % n == t - (t - o) % n
  {
    FixedUnitIsShared(n, t - o, s - o);
  }

  lemma FixedUnitIsShared(n: int, t: int, s: int)
    requires n > 0 && t - t % n <= s < t - t % n + n
    ensures s - s % n == t - t % n
  {
    SameMultiple(n, t / n, s / n, s % n);
  }

  lemma SameMultiple(n: int, q: int, p: int, r: int)
    requires n > 0 && 0 <= r < n && n * q <= n * p + r < n * q + n
    ensures q == p
  {
    var d := p - q;
    assert n * d == n * p - n * q;
    assert d >= 1 ==> n * d >= n;
    assert d <= -1 ==> n * d <= -n;
  }

  lemma MonthUnitIsShared(w: int, t: int, s: int)
    requires w > 0
    requires var i := Index(t) - Index(t) % w;
      MakeDate(MonthStart(i), 0) <= s < MakeDate(MonthStart(i + w), 0)
    ensures Index(s) - Index(s) % w == Index(t) - Index(t) % w
  {
    hide MonthStart, Index, MakeDate;
    IndexBetween(Index(t) - Index(t) % w, Index(t) - Index(t) % w + w, s);
    FixedUnitIsShared(w, Index(t), Index(s));
  }

  lemma IndexBetween(i: int, k: int, s: int)
    requires MakeDate(MonthStart(i), 0) <= s < MakeDate(MonthStart(k), 0)
    ensures i <= Index(s) < k
  {
    hide MonthStart, MonthIndex;
    var j := Index(s);
    if j < i {
      MonthStartsIncrease(j + 1, i);
    }
    if j >= k {
      MonthStartsIncrease(k, j);
    }
  }

  lemma UnitStartIdempotent(u: Unit, dow: int, t: int)
    ensures UnitStart(u, dow, UnitStart(u, dow, t)) == UnitStart(u, dow, t)
  {
    hide UnitStart, NextStart;
    UnitHoldsMoment(u, dow, t);
    UnitIsShared(u, dow, t, UnitStart(u, dow, t));
  }

  // The moment after the end of a unit starts the next one, so units neither
  // overlap nor leave a gap.
  lemma NextStartIsStart(u: Unit, dow: int, t: int)
    ensures UnitStart(u, dow, NextStart(u, dow, t)) == NextStart(u, dow, t)
  {
    hide UnitStart, NextStart;
    if MonthBased(u) {
      NextMonthStart(u, dow, t);
    } else {
      NextFixedStart(u, dow, t);
    }
  }

  lemma NextMonthStart(u: Unit, dow: int, t: int)
    requires MonthBased(u)
    ensures UnitStart(u, dow, NextStart(u, dow, t)) == NextStart(u, dow, t)
  {
    hide MonthStart, Index, MakeDate, MonthsIn;
    var w := MonthsIn(u);
    var j := Index(t) - Index(t) % w + w;
    NextMonthUnit(w, Index(t), j);
    var s := NextStart(u, dow, t);
    assert s == MakeDate(MonthStart(j), 0);
    assert UnitStart(u, dow, s) == MakeDate(MonthStart(Index(s) - Index(s) % w), 0);
  }

  lemma NextFixedStart(u: Unit, dow: int, t: int)
    requires !MonthBased(u)
    ensures UnitStart(u, dow, NextStart(u, dow, t)) == NextStart(u, dow, t)
  {
    var n, o := Length(u), Origin(u, dow);
    var s := t - (t - o) % n + n;
    NextFixedUnit(n, o, t);
    hide Length, Origin;
    assert NextStart(u, dow, t) == s;
    assert UnitStart(u, dow, s) == s - (s - o) % n;
  }

  lemma NextMonthUnit(w: int, i: int, j: int)
    requires w > 0 && j == i - i % w + w
    ensures Index(MakeDate(MonthStart(j), 0)) - Index(MakeDate(MonthStart(j), 0)) % w == j
  {
    hide MonthStart, Index;
    FirstOfMonth(j);
    NextMultiple(w, i);
  }

  lemma NextFixedUnit(n: int, o: int, t: int)
    requires n > 0
    ensures var s := t - (t - o) % n + n; s - (s - o) % n == s
  {
    var x := t - o;
    NextMultiple(n, x);
    assert t - x % n + n - o == x - x % n + n;
  }

  lemma NextMultiple(n: int, t: int)
    requires n > 0
    ensures (t - t % n + n) % n == 0
  {
    FixedUnitIsShared(n, t, t - t % n);
    var q := t / n;
    SameMultiple(n, q + 1, (t - t % n + n) / n, (t - t % n + n) % n);
    assert n * (q + 1) == n * q + n;
  }

  lemma FirstOfMonth(i: int)
    ensures Index(MakeDate(MonthStart(i), 0)) == i && Date(MakeDate(MonthStart(i), 0)) == 1
    ensures TimeInDay(MakeDate(MonthStart(i), 0)) == 0
  {
    DayLanding(i, 1);
    hide MonthStart, MonthLength, MonthIndex;
    MakeDateParts(MonthStart(i), 0);
  }

  // From the first of a month, setting the month leads to the first of
  // another, also where the month lengths are misjudged.
  lemma WithMonthFromFirst(i: int, value: int)
    ensures WithMonth(MakeDate(MonthStart(i), 0), value) == MakeDate(MonthStart(i - i % 12 + value), 0)
  {
    hide MonthStart, MonthLength, DaysInMonth, Index, Year, Month, Date, TimeInDay;
    var t := MakeDate(MonthStart(i), 0);
    FirstOfMonth(i);
    DaysInMonthIsLength(Year(t), value);
  }

  lemma AddMonthsFromFirst(i: int, n: int)
    ensures AddMonths(MakeDate(MonthStart(i), 0), n) == MakeDate(MonthStart(i + n), 0)
  {
    hide MonthStart, WithMonth, Index, Year, Month;
    FirstOfMonth(i);
    WithMonthFromFirst(i, Month(MakeDate(MonthStart(i), 0)) + n);
  }

  // Setting the day to 1 and clearing the time leads to the start of the month.
  lemma FirstOfThisMonth(t: int)
    ensures var s := SetUTCDate(t, 1); s - s % MS_PER_DAY == MakeDate(MonthStart(Index(t)), 0)
  {
    hide MonthStart, Index, Year, Month;
  }

  lemma FirstOfThisYear(t: int)
    ensures Index(WithMonth(t, 0)) == Index(t) - Index(t) % 12
  {
    hide WithMonth, Index, Year, Month, Date;
    WithMonthLands(t, 0);
  }

  // The first day of the week that holds t.
  lemma WeekStartOf(t: int, dow: int)
    requires 0 <= dow < 7
    ensures t - (t - (3 + dow) * MS_PER_DAY) % (7 * MS_PER_DAY)
         == t - t % MS_PER_DAY - (Weekday(Day(t)) + 7 - dow) % 7 * MS_PER_DAY
  {
    var x, r := Day(t) - 3 - dow, TimeInDay(t);
    assert (Weekday(Day(t)) + 7 - dow) % 7 == x % 7;
    DaysToWeeks(x, r);
    assert t - (3 + dow) * MS_PER_DAY == x * MS_PER_DAY + r;
  }

  lemma DaysToWeeks(x: int, r: int)
    requires 0 <= r < MS_PER_DAY
    ensures (x * MS_PER_DAY + r) % (7 * MS_PER_DAY) == x % 7 * MS_PER_DAY + r
  {
    assert x == 7 * (x / 7) + x % 7;
    assert x * MS_PER_DAY + r == 7 * MS_PER_DAY * (x / 7) + (x % 7 * MS_PER_DAY + r);
  }

  lemma AddOneUnit(u: Unit, dow: int, t: int)
    ensures Added(UnitStart(u, dow, t), PeriodOf(1, u), 1) == NextStart(u, dow, t)
  {
    hide AddMonths, MonthStart, Index, Origin;
    if MonthBased(u) {
      AddMonthsFromFirst(Index(t) - Index(t) % MonthsIn(u), MonthsIn(u));
    } else {
      AddNoMonths(NextStart(u, dow, t));
    }
  }

  lemma AddNoMonths(t: int)
    ensures AddMonths(t, 0) == t
  {
  }

  // The second moment lies within the unit of the first.
  predicate SameUnit(u: Unit, dow: int, a: int, b: int) {
    UnitStart(u, dow, a) <= b < NextStart(u, dow, a)
  }

  // Being in the same unit is an equivalence.
  lemma SameUnitIsEquivalence(u: Unit, dow: int, a: int, b: int, c: int)
    ensures SameUnit(u, dow, a, a)
    ensures SameUnit(u, dow, a, b) ==> SameUnit(u, dow, b, a)
    ensures SameUnit(u, dow, a, b) && SameUnit(u, dow, b, c) ==> SameUnit(u, dow, a, c)
  {
    hide UnitStart, NextStart;
    UnitHoldsMoment(u, dow, a);
    if SameUnit(u, dow, a, b) {
      UnitIsShared(u, dow, a, b);
    }
  }

  // Two moments are in the same unit exactly when their units start together.
  lemma SameUnitExact(u: Unit, dow: int, a: int, b: int)
    ensures SameUnit(u, dow, a, b) <==> UnitStart(u, dow, a) == UnitStart(u, dow, b)
  {
    hide UnitStart, NextStart;
    UnitHoldsMoment(u, dow, b);
    if SameUnit(u, dow, a, b) {
      UnitIsShared(u, dow, a, b);
    } else if UnitStart(u, dow, a) == UnitStart(u, dow, b) {
      UnitHoldsMoment(u, dow, a);
      UnitIsShared(u, dow, a, UnitStart(u, dow, a));
      UnitIsShared(u, dow, b, UnitStart(u, dow, b));
    }
  }

  // What starting a unit means: the time of day and all smaller parts of the date
  // are cleared, and the larger ones are those of the moment.
  predicate StartFields(u: Unit, dow: int, t: int, s: int) {
    match u
    case Millisecond => s == t
    case Second => s % 1000 == 0 && 0 <= t - s < 1000
    case Minute => s % 60_000 == 0 && 0 <= t - s < 60_000
    case Hour => s % 3_600_000 == 0 && 0 <= t - s < 3_600_000
    case DayUnit => TimeInDay(s) == 0 && Day(s) == Day(t)
    case Week => TimeInDay(s) == 0 && Weekday(Day(s)) == dow && 0 <= Day(t) - Day(s) < 7
    case IsoWeek => TimeInDay(s) == 0 && Weekday(Day(s)) == 1 && 0 <= Day(t) - Day(s) < 7
    case MonthUnit => TimeInDay(s) == 0 && Date(s) == 1 && Month(s) == Month(t) && Year(s) == Year(t)
    case Quarter => TimeInDay(s) == 0 && Date(s) == 1 && Month(s) in {0, 3, 6, 9} && 0 <= Month(t) - Month(s) < 3 && Year(s) == Year(t)
    case YearUnit => TimeInDay(s) == 0 && Date(s) == 1 && Month(s) == 0 && Year(s) == Year(t)
  }

  lemma UnitStartFields(u: Unit, dow: int, t: int)
    requires 0 <= dow < 7
    ensures StartFields(u, dow, t, UnitStart(u, dow, t))
  {
    hide UnitStart, StartFields;
    if MonthBased(u) {
      MonthUnitFields(u, dow, t);
    } else if u.Week? || u.IsoWeek? {
      WeekUnitFields(u, dow, t);
    } else {
      ClockUnitFields(u, dow, t);
    }
  }

  lemma MonthUnitFields(u: Unit, dow: int, t: int)
    requires MonthBased(u)
    ensures StartFields(u, dow, t, UnitStart(u, dow, t))
  {
    hide MonthStart, Index, Date, Year, Month, Day, TimeInDay, MakeDate;
    MonthStartFields(t, MonthsIn(u));
  }

  lemma WeekUnitFields(u: Unit, dow: int, t: int)
    requires 0 <= dow < 7 && (u.Week? || u.IsoWeek?)
    ensures StartFields(u, dow, t, UnitStart(u, dow, t))
  {
    var first := if u.Week? then dow else 1;
    WeekStartOf(t, first);
    WeekFields(t, first);
    assert UnitStart(u, dow, t) == t - (t - (3 + first) * MS_PER_DAY) % (7 * MS_PER_DAY);
    hide Weekday, Day, TimeInDay, UnitStart;
  }

  lemma ClockUnitFields(u: Unit, dow: int, t: int)
    requires !MonthBased(u) && !u.Week? && !u.IsoWeek?
    ensures StartFields(u, dow, t, UnitStart(u, dow, t))
  {
    ClockFields(t, Length(u));
    DayOfClearedTime(t);
  }

  lemma ClockFields(t: int, n: int)
    requires n > 0
    ensures (t - t % n) % n == 0 && 0 <= t - (t - t % n) < n
  {
    FixedUnitIsShared(n, t, t - t % n);
  }

  lemma WeekFields(t: int, dow: int)
    requires 0 <= dow < 7
    ensures var s := t - t % MS_PER_DAY - (Weekday(Day(t)) + 7 - dow) % 7 * MS_PER_DAY;
      TimeInDay(s) == 0 && Weekday(Day(s)) == dow && 0 <= Day(t) - Day(s) < 7
  {
    var day, w := Day(t), Weekday(Day(t));
    var back := (w + 7 - dow) % 7;
    assert t - t % MS_PER_DAY == day * MS_PER_DAY;
    MakeDateParts(day - back, 0);
    assert (day - back) * MS_PER_DAY == day * MS_PER_DAY - back * MS_PER_DAY;
    assert Weekday(day - back) == dow by {
      assert back == if w >= dow then w - dow else w + 7 - dow;
    }
    hide Day, TimeInDay, Weekday;
  }

  lemma MonthStartFields(t: int, w: int)
    requires w == 1 || w == 3 || w == 12
    ensures var s := MakeDate(MonthStart(Index(t) - Index(t) % w), 0);
      TimeInDay(s) == 0 && Date(s) == 1 && Year(s) == Year(t) && Month(s) == Month(t) - Month(t) % w
  {
    hide MonthStart, Index, MakeDate, TimeInDay, Date;
    var i := Index(t);
    FirstOfMonth(i - i % w);
    MonthInUnit(i, w);
  }

  lemma MonthInUnit(i: int, w: int)
    requires w == 1 || w == 3 || w == 12
    ensures (i - i % w) / 12 == i / 12 && (i - i % w) % 12 == i % 12 - i % 12 % w
  {
    if w == 3 {
      QuarterOfIndex(i);
    }
  }

  function ClearHours(t: int): int {
    t - (t / 3_600_000) % 24 * 3_600_000
  }

  function ClearMinutes(t: int): int {
    t - (t / 60_000) % 60 * 60_000
  }

  function ClearSeconds(t: int): int {
    t - (t / 1000) % 60 * 1000
  }

  function ClearMilliseconds(t: int): int {
    t - t % 1000
  }

  lemma ClearFields(t: int)
    ensures ClearMilliseconds(t) == t - t % 1000
    ensures ClearMilliseconds(ClearSeconds(t)) == t - t % 60_000
    ensures ClearMilliseconds(ClearSeconds(ClearMinutes(t))) == t - t % 3_600_000
    ensures ClearMilliseconds(ClearSeconds(ClearMinutes(ClearHours(t)))) == t - t % MS_PER_DAY
  {
    ClearInner(t);
    ClearInner(ClearMinutes(t));
    ClearInner(ClearMinutes(ClearHours(t)));
    ClearMiddle(t);
    ClearMiddle(ClearHours(t));
    ClearOuter(t);
  }

  lemma ClearInner(t: int)
    ensures ClearMilliseconds(ClearSeconds(t)) == t - t % 60_000
  {
    var s, r := t / 1000, t % 1000;
    ModUnique(ClearSeconds(t), 1000, 60 * (s / 60), r);
    ModUnique(t, 60_000, s / 60, s % 60 * 1000 + r);
  }

  lemma ClearMiddle(t: int)
    ensures ClearMinutes(t) - ClearMinutes(t) % 60_000 == t - t % 3_600_000
  {
    var m, r := t / 60_000, t % 60_000;
    ModUnique(ClearMinutes(t), 60_000, 60 * (m / 60), r);
    ModUnique(t, 3_600_000, m / 60, m % 60 * 60_000 + r);
  }

  lemma ClearOuter(t: int)
    ensures ClearHours(t) - ClearHours(t) % 3_600_000 == t - t % MS_PER_DAY
  {
    var h, r := t / 3_600_000, t % 3_600_000;
    ModUnique(ClearHours(t), 3_600_000, 24 * (h / 24), r);
    ModUnique(t, MS_PER_DAY, h / 24, h % 24 * 3_600_000 + r);
  }

  // The part of the clock time that startOf clears for a unit.
  function ClockStep(u: Unit): (n: int)
    ensures n > 0
  {
    match u
    case Millisecond => 1
    case Second => 1000
    case Minute => 60_000
    case Hour => 3_600_000
    case _ => MS_PER_DAY
  }

  // The start of a unit, computed the way startOf does.
  lemma UnitStartCases(u: Unit, dow: int, t: int)
    requires 0 <= dow < 7
    ensures u.MonthUnit? ==> UnitStart(u, dow, t) == MakeDate(MonthStart(Index(t)), 0)
    ensures u.YearUnit? ==> UnitStart(u, dow, t) == MakeDate(MonthStart(Index(t) - Index(t) % 12), 0)
    ensures u.Week? ==> UnitStart(u, dow, t) == t - t % MS_PER_DAY - (Weekday(Day(t)) + 7 - dow) % 7 * MS_PER_DAY
    ensures u.IsoWeek? ==> UnitStart(u, dow, t) == t - t % MS_PER_DAY - (Weekday(Day(t)) + 6) % 7 * MS_PER_DAY
    ensures !MonthBased(u) && !u.Week? && !u.IsoWeek? ==> UnitStart(u, dow, t) == t - t % ClockStep(u)
  {
    hide MonthStart, Index, Weekday;
    WeekStartOf(t, dow);
    WeekStartOf(t, 1);
  }

  lemma QuarterStart(dow: int, t: int)
    ensures var s := MakeDate(MonthStart(Index(t)), 0);
      WithMonth(s, Month(s) / 3 * 3) == UnitStart(Quarter, dow, t)
  {
    hide MonthStart, Index, WithMonth, Month, Year, MakeDate;
    var i, s := Index(t), MakeDate(MonthStart(Index(t)), 0);
    FirstOfMonth(i);
    assert Month(s) == i % 12;
    WithMonthFromFirst(i, Month(s) / 3 * 3);
    QuarterOfIndex(i);
    assert UnitStart(Quarter, dow, t) == MakeDate(MonthStart(i - i % 3), 0);
  }

  lemma QuarterOfIndex(i: int)
    ensures i - i % 3 == i - i % 12 + i % 12 / 3 * 3
  {
  }

  lemma DayOfClearedTime(t: int)
    ensures Day(t - t % MS_PER_DAY) == Day(t)
  {
  }

  // A moment in UTC mode: d is the time value of its date object.
  class Moment {
    var d: int

    constructor (t: int)
      ensures d == t
    {
      d := t;
    }

    method SetMonth(value: int)
      modifies this
      ensures d == WithMonth(old(d), value)
    {
      var dayOfMonth := Min(Date(d), DaysInMonth(Year(d), value));
      d := SetUTCMonth(d, value, dayOfMonth);
    }

    method AddSubtract(p: Period, isAdding: int)
      requires isAdding == 1 || isAdding == -1
      modifies this
      ensures d == Added(old(d), p, isAdding)
    {
      hide WithMonth, SetUTCDate, Date, Month;
      if p.milliseconds != 0 {
        d := d + p.milliseconds * isAdding;
      }
      if p.days != 0 {
        SetUTCDateShifts(d, p.days * isAdding);
        d := SetUTCDate(d, Date(d) + p.days * isAdding);
      }
      if p.months != 0 {
        SetMonth(Month(d) + p.months * isAdding);
      }
    }
  
    // The fall-through cases of startOf that set the date.
    method ClearDate(u: Unit)
      requires MonthBased(u)
      modifies this
      ensures d - d % MS_PER_DAY
        == MakeDate(MonthStart(if u.YearUnit? then Index(old(d)) - Index(old(d)) % 12 else Index(old(d))), 0)
    {
      hide *;
      if u.YearUnit? {
        FirstOfThisYear(d);
        SetMonth(0);
      }
      FirstOfThisMonth(d);
      d := SetUTCDate(d, 1);
    }

    // The fall-through cases of startOf that set the time.
    method ClearTime(u: Unit)
      modifies this
      ensures d == old(d) - old(d) % ClockStep(u)
    {
      hide ClearHours, ClearMinutes, ClearSeconds, ClearMilliseconds;
      ClearFields(d);
      if !u.Hour? && !u.Minute? && !u.Second? && !u.Millisecond? {
        d := ClearHours(d);
      }
      if !u.Minute? && !u.Second? && !u.Millisecond? {
        d := ClearMinutes(d);
      }
      if !u.Second? && !u.Millisecond? {
        d := ClearSeconds(d);
      }
      if !u.Millisecond? {
        d := ClearMilliseconds(d);
      }
    }

    // dow is the first day of the week in the moment's locale.
    method StartOf(u: Unit, dow: int)
      requires 0 <= dow < 7
      modifies this
      ensures d == UnitStart(u, dow, old(d))
    {
      hide UnitStart, MonthStart, Index, WithMonth, Weekday, Month;
      ghost var t := d;
      UnitStartCases(u, dow, t);
      DayOfClearedTime(t);
      if MonthBased(u) {
        ClearDate(u);
      }
      ClearTime(u);
      if u.Week? {
        ToWeekday(dow);
      }
      if u.IsoWeek? {
        ToMonday();
      }
      if u.Quarter? {
        QuarterStart(dow, t);
        SetMonth(Month(d) / 3 * 3);
      }
    }

    // weekday(0)
    method ToWeekday(dow: int)
      requires 0 <= dow < 7
      modifies this
      ensures d == old(d) - (Weekday(Day(old(d))) + 7 - dow) % 7 * MS_PER_DAY
    {
      var weekday := (Weekday(Day(d)) + 7 - dow) % 7;
      AddSubtract(PeriodOf(0 - weekday, DayUnit), 1);
    }

    // isoWeekday(1): Sunday belongs to the week that started six days before.
    method ToMonday()
      modifies this
      ensures d == old(d) - (Weekday(Day(old(d))) + 6) % 7 * MS_PER_DAY
    {
      var day := Weekday(Day(d));
      var input := if day % 7 != 0 then 1 else 1 - 7;
      AddSubtract(PeriodOf(input - day, DayUnit), 1);
    }

    method EndOf(u: Unit, dow: int)
      requires 0 <= dow < 7
      modifies this
      ensures d == NextStart(u, dow, old(d)) - 1
    {
      hide UnitStart, NextStart, AddMonths;
      if u.Millisecond? {
        MillisecondUnit(d, dow);
        return;
      }
      AddOneUnit(u, dow, d);
      StartOf(u, dow);
      AddSubtract(PeriodOf(1, if u.IsoWeek? then Week else u), 1);
      AddNoMonths(d - 1);
      AddSubtract(PeriodOf(1, Millisecond), -1);
    }

    method IsSame(input: Moment, u: Unit, dow: int) returns (same: bool)
      requires 0 <= dow < 7
      ensures same <==> UnitStart(u, dow, d) == UnitStart(u, dow, input.d)
    {
      SameUnitExact(u, dow, d, input.d);
      hide UnitStart, NextStart;
      if u.Millisecond? {
        MillisecondUnit(d, dow);
        return d == input.d;
      }
      var inputMs := input.d;
      var first := new Moment(d);
      first.StartOf(u, dow);
      var last := new Moment(d);
      last.EndOf(u, dow);
      return first.d <= inputMs && inputMs <= last.d;
    }
  }

  lemma MillisecondUnit(t: int, dow: int)
    ensures UnitStart(Millisecond, dow, t) == t && NextStart(Millisecond, dow, t) == t + 1
  {
  }

  method PositiveMomentsDifference(base: Moment, other: Moment) returns (res: Difference)
    ensures res == PositiveDifference(base.d, other.d)
    ensures base.d <= other.d ==> Spans(base.d, other.d, res.milliseconds, res.months)
  {
    hide AddMonths, Year, Month, Spans, Overshoots;
    if base.d <= other.d {
      PositiveDifferenceExact(base.d, other.d);
    }
    var months := Month(other.d) - Month(base.d) + (Year(other.d) - Year(base.d)) * 12;
    var clone := new Moment(base.d);
    clone.AddSubtract(PeriodOf(months, MonthUnit), 1);
    if clone.d > other.d {
      months := months - 1;
    }
    clone := new Moment(base.d);
    clone.AddSubtract(PeriodOf(months, MonthUnit), 1);
    var milliseconds := other.d - clone.d;
    return Difference(milliseconds, months);
  }

  method MomentsDifference(base: Moment, other: Moment) returns (res: Difference)
    ensures res == SignedDifference(base.d, other.d)
    ensures base.d < other.d ==> Spans(base.d, other.d, res.milliseconds, res.months)
    ensures other.d <= base.d ==> Spans(other.d, base.d, -res.milliseconds, -res.months)
  {
    hide PositiveDifference, Spans;
    if base.d < other.d {
      res := PositiveMomentsDifference(base, other);
    } else {
      res := PositiveMomentsDifference(other, base);
      res := Difference(-res.milliseconds, -res.months);
    }
  }
}
