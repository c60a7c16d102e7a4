/** Durations and their normalisation into calendar fields, on exact
    rationals: a month is 146097 / 4800 days. */
module Durations {
  import opened Congruence
  import opened Gregorian

  datatype Data = Data(milliseconds: int, seconds: int, minutes: int, hours: int, days: int, months: int, years: int)

  // The % of the source language, and division rounded towards zero or away from it.
  function Rem(a: int, b: int): int
    requires b > 0
  {
    if a >= 0 then a % b else -(-a % b)
  }

  function Trunc(a: int, b: int): int
    requires b > 0
  {
    if a >= 0 then a / b else -(-a / b)
  }

  function Away(a: int, b: int): int
    requires b > 0
  {
    if a >= 0 then (a + b - 1) / b else -((-a + b - 1) / b)
  }

  // Days of m months, rounded away from zero.
  function MonthDays(m: int): int {
    Away(m * 146097, 4800)
  }

  predicate SameSign(a: int, b: int, c: int) {
    (a >= 0 && b >= 0 && c >= 0) || (a <= 0 && b <= 0 && c <= 0)
  }

  // The milliseconds that a mix of signs is bubbled down to.
  function BubbledDown(ms: int, days: int, months: int): int {
    ms + Away(months * 146097 + days * 4800, 4800) * MS_PER_DAY
  }

  function BubbledUp(ms: int, days: int, months: int): Data {
    var seconds := Trunc(ms, 1000);
    var minutes := Trunc(seconds, 60);
    var hours := Trunc(minutes, 60);
    var allDays := days + Trunc(hours, 24);
    var fromDays := Trunc(allDays * 4800, 146097);
    var allMonths := months + fromDays;
    Data(Rem(ms, 1000), Rem(seconds, 60), Rem(minutes, 60), Rem(hours, 24),
         allDays - MonthDays(fromDays), Rem(allMonths, 12), Trunc(allMonths, 12))
  }

  function Bubbled(ms: int, days: int, months: int): Data {
    if SameSign(ms, days, months) then BubbledUp(ms, days, months)
    else BubbledUp(BubbledDown(ms, days, months), 0, 0)
  }

  function Negated(d: Data): Data {
    Data(-d.milliseconds, -d.seconds, -d.minutes, -d.hours, -d.days, -d.months, -d.years)
  }

  // Milliseconds of the clock fields, and months of the calendar fields.
  function Clock(d: Data): int {
    d.milliseconds + 1000 * (d.seconds + 60 * (d.minutes + 60 * d.hours))
  }

  function AllMonths(d: Data): int {
    d.months + 12 * d.years
  }

  predicate NonNegative(d: Data) {
    && 0 <= d.milliseconds < 1000 && 0 <= d.seconds < 60 && 0 <= d.minutes < 60
    && 0 <= d.hours < 24 && 0 <= d.days <= 30 && 0 <= d.months < 12 && 0 <= d.years
  }

  // Normal fields have one sign and stay below the next unit.
  predicate Normal(d: Data) {
    NonNegative(d) || NonNegative(Negated(d))
  }

  // Normalising is odd: negating the duration negates every field.
  lemma BubbledUpIsOdd(ms: int, days: int, months: int)
    ensures BubbledUp(-ms, -days, -months) == Negated(BubbledUp(ms, days, months))
  {
    hide Rem, Trunc, Away;
    RoundingIsOdd(ms, 1000);
    var seconds := Trunc(ms, 1000);
    RoundingIsOdd(seconds, 60);
    var minutes := Trunc(seconds, 60);
    RoundingIsOdd(minutes, 60);
    var hours := Trunc(minutes, 60);
    RoundingIsOdd(hours, 24);
    var allDays := days + Trunc(hours, 24);
    RoundingIsOdd(allDays * 4800, 146097);
    var fromDays := Trunc(allDays * 4800, 146097);
    RoundingIsOdd(fromDays * 146097, 4800);
    RoundingIsOdd(months + fromDays, 12);
  }

  lemma RoundingIsOdd(a: int, b: int)
    requires b > 0
    ensures Rem(-a, b) == -Rem(a, b) && Trunc(-a, b) == -Trunc(a, b) && Away(-a, b) == -Away(a, b)
  {
  }

  lemma BubbledIsOdd(ms: int, days: int, months: int)
    ensures Bubbled(-ms, -days, -months) == Negated(Bubbled(ms, days, months))
  {
    hide Rem, Trunc, Away, BubbledUp;
    if SameSign(ms, days, months) {
      BubbledUpIsOdd(ms, days, months);
    } else {
      RoundingIsOdd(months * 146097 + days * 4800, 4800);
      BubbledUpIsOdd(BubbledDown(ms, days, months), 0, 0);
    }
  }

  // q is a / b, rounded away from zero to an integer.
  predicate RoundsAway(a: int, b: int, q: int) {
    && (a > 0 ==> q > 0 && b * (q - 1) < a <= b * q)
    && (a < 0 ==> q < 0 && b * (-q - 1) < -a <= b * -q)
    && (a == 0 ==> q == 0)
  }

  lemma AwayRounds(a: int, b: int)
    requires b > 0
    ensures RoundsAway(a, b, Away(a, b))
  {
    if a > 0 {
      CeilingBounds(a, b);
    } else if a < 0 {
      CeilingBounds(-a, b);
    } else {
      ModUnique(b - 1, b, 0, b - 1);
    }
  }

  lemma CeilingBounds(a: int, b: int)
    requires a > 0 && b > 0
    ensures var q := (a + b - 1) / b; q > 0 && b * (q - 1) < a <= b * q
  {
    var q := (a + b - 1) / b;
    assert a + b - 1 == b * q + (a + b - 1) % b;
    assert q <= 0 ==> b * q <= 0;
    assert b * (q - 1) == b * q - b;
  }

  // The days of months are those of the calendar in the long run, rounded up:
  // 4800 months have the days of any 400 years.
  lemma MonthDaysExact(m: int, y: int)
    ensures RoundsAway(m * (YearStart(y + 400) - YearStart(y)), 400 * 12, MonthDays(m))
  {
    FourHundredYears(y);
    hide YearStart;
    AwayRounds(m * 146097, 4800);
  }

  lemma FourHundredYears(y: int)
    ensures YearStart(y + 400) - YearStart(y) == 146097
  {
    ShiftedQuotient(y - 1969, 4, 100);
    ShiftedQuotient(y - 1901, 100, 4);
    ShiftedQuotient(y - 1601, 400, 1);
  }

  lemma ShiftedQuotient(a: int, n: int, k: int)
    requires n > 0
    ensures (a + n * k) / n == a / n + k
  {
    assert a + n * k == n * (a / n + k) + a % n;
    ModUnique(a + n * k, n, a / n + k, a % n);
  }

  // The whole months in n days: the most whose days, rounded up, do not pass n.
  lemma MonthsInDays(n: nat)
    ensures var m := Trunc(n * 4800, 146097);
      m >= 0 && MonthDays(m) <= n < MonthDays(m + 1) && n - MonthDays(m) <= 30
  {
    var m := n * 4800 / 146097;
    assert n * 4800 == 146097 * m + n * 4800 % 146097;
  }

  // For non-negative inputs: the fields are normal, and the clock, the days and
  // the months account for the input, m months having been taken out of the days.
  lemma BubbledUpNonNegative(ms: nat, days: nat, months: nat)
    ensures var d := BubbledUp(ms, days, months); var m := AllMonths(d) - months;
      && NonNegative(d) && m >= 0
      && Clock(d) + (d.days + MonthDays(m) - days) * MS_PER_DAY == ms
      && MonthDays(m) <= d.days + MonthDays(m) < MonthDays(m + 1)
  {
    hide MonthDays;
    var seconds, minutes, hours := ms / 1000, ms / 1000 / 60, ms / 1000 / 60 / 60;
    var n := days + hours / 24;
    MonthsInDays(n);
  }

  // Conservation for inputs of one sign.
  lemma BubbledConserves(ms: int, days: int, months: int)
    requires SameSign(ms, days, months)
    ensures var d := Bubbled(ms, days, months); var m := AllMonths(d) - months;
      && Normal(d)
      && Clock(d) + (d.days + MonthDays(m) - days) * MS_PER_DAY == ms
  {
    hide BubbledUp, Away;
    if ms >= 0 && days >= 0 && months >= 0 {
      BubbledUpNonNegative(ms, days, months);
    } else {
      BubbledUpNonNegative(-ms, -days, -months);
      BubbledUpIsOdd(-ms, -days, -months);
      var d := BubbledUp(-ms, -days, -months);
      var m := AllMonths(d) + months;
      RoundingIsOdd(m * 146097, 4800);
    }
  }

  // Inputs of mixed sign are normalised as milliseconds: the fields account for
  // the milliseconds and for the days of the months and days together, rounded
  // away from zero.
  lemma BubbledMixed(ms: int, days: int, months: int)
    requires !SameSign(ms, days, months)
    ensures Normal(Bubbled(ms, days, months))
    ensures var d := Bubbled(ms, days, months);
      exists n :: RoundsAway(months * 146097 + days * 4800, 4800, n)
        && Clock(d) + (d.days + MonthDays(AllMonths(d))) * MS_PER_DAY == ms + n * MS_PER_DAY
  {
    hide BubbledUp, Away, RoundsAway;
    BubbledConserves(BubbledDown(ms, days, months), 0, 0);
    AwayRounds(months * 146097 + days * 4800, 4800);
  }

  // Normal fields are left as they are.
  lemma NormalIsStable(d: Data)
    requires Normal(d)
    ensures Bubbled(Clock(d), d.days, AllMonths(d)) == d
  {
    hide Bubbled;
    if NonNegative(d) {
      NonNegativeIsStable(d);
    } else {
      var e := Negated(d);
      NonNegativeIsStable(e);
      BubbledIsOdd(Clock(e), e.days, AllMonths(e));
      assert -Clock(e) == Clock(d) && -AllMonths(e) == AllMonths(d);
    }
  }

  lemma NonNegativeIsStable(d: Data)
    requires NonNegative(d)
    ensures Bubbled(Clock(d), d.days, AllMonths(d)) == d
  {
    var s := d.seconds + 60 * (d.minutes + 60 * d.hours);
    var t := d.minutes + 60 * d.hours;
    assert Clock(d) / 1000 == s && s / 60 == t && t / 60 == d.hours && d.hours / 24 == 0;
  }

  // Normalising twice is normalising once.
  lemma BubbledIdempotent(ms: int, days: int, months: int)
    ensures var d := Bubbled(ms, days, months); Bubbled(Clock(d), d.days, AllMonths(d)) == d
  {
    hide Bubbled;
    if SameSign(ms, days, months) {
      BubbledConserves(ms, days, months);
    } else {
      BubbledMixed(ms, days, months);
    }
    NormalIsStable(Bubbled(ms, days, months));
  }

  class Duration {
    var milliseconds: int
    var days: int
    var months: int
    var data: Data

    constructor (milliseconds: int, days: int, months: int)
      ensures this.milliseconds == milliseconds && this.days == days && this.months == months
      ensures data == Bubbled(milliseconds, days, months)
    {
      this.milliseconds, this.days, this.months := milliseconds, days, months;
      data := Data(0, 0, 0, 0, 0, 0, 0);
      new;
      Bubble();
    }

    method Bubble()
      modifies this`data
      ensures data == Bubbled(milliseconds, days, months)
    {
      hide Rem, Trunc, Away;
      var ms, ds, mons := milliseconds, days, months;
      if !((ms >= 0 && ds >= 0 && mons >= 0) || (ms <= 0 && ds <= 0 && mons <= 0)) {
        ms := ms + Away(mons * 146097 + ds * 4800, 4800) * MS_PER_DAY;
        ds := 0;
        mons := 0;
      }
      data := data.(milliseconds := Rem(ms, 1000));
      var seconds := Trunc(ms, 1000);
      data := data.(seconds := Rem(seconds, 60));
      var minutes := Trunc(seconds, 60);
      data := data.(minutes := Rem(minutes, 60));
      var hours := Trunc(minutes, 60);
      data := data.(hours := Rem(hours, 24));
      ds := ds + Trunc(hours, 24);
      var monthsFromDays := Trunc(ds * 4800, 146097);
      mons := mons + monthsFromDays;
      ds := ds - Away(monthsFromDays * 146097, 4800);
      var years := Trunc(mons, 12);
      mons := Rem(mons, 12);
      data := data.(days := ds, months := mons, years := years);
    }

    // add and subtract, with direction 1 and -1
    method AddSubtract(other: Duration, direction: int)
      requires direction == 1 || direction == -1
      modifies this
      ensures milliseconds == old(milliseconds) + direction * old(other.milliseconds)
      ensures days == old(days) + direction * old(other.days)
      ensures months == old(months) + direction * old(other.months)
      ensures data == Bubbled(milliseconds, days, months)
    {
      var m, d, n := other.milliseconds, other.days, other.months;
      milliseconds := milliseconds + direction * m;
      days := days + direction * d;
      months := months + direction * n;
      Bubble();
    }
  }
}
