/**
  The proleptic Gregorian calendar in UTC and calendar-month addition
  (packages/api-types/src/ai-credits.ts), with the ECMAScript time value of a date as its meaning.
 */
module Calendar {
  import opened Wrappers

  const MAX_SAFE: int := 0x1F_FFFF_FFFF_FFFF
  const MS_PER_DAY: int := 86_400_000

  /** The last instant a JavaScript Date can hold, and the negated first. */
  const MAX_TIME: int := 100_000_000 * MS_PER_DAY

  predicate SafeInteger(n: int)
  {
    -MAX_SAFE <= n <= MAX_SAFE
  }

  // ---------------------------------------------------------------- dates

  /** A date's UTC fields; `month` counts from 0, `ms` is the time of day. */
  datatype Date = Date(year: int, month: int, day: int, ms: int)

  predicate IsLeap(year: int)
  {
    (year % 4 == 0 && year % 100 != 0) || year % 400 == 0
  }

  function DaysInUtcMonth(year: int, month: int): (days: nat)
    requires 0 <= month < 12
    ensures 28 <= days <= 31
  {
    if month == 1 then (if IsLeap(year) then 29 else 28)
    else [31, 28, 31, 30, 31, 30, 31, 31, 30, 31, 30, 31][month]
  }

  predicate Valid(d: Date)
  {
    && 0 <= d.month < 12
    && 1 <= d.day <= DaysInUtcMonth(d.year, d.month)
    && 0 <= d.ms < MS_PER_DAY
  }

  type CivilDate = d: Date | Valid(d) witness Date(1970, 0, 1, 0)

  /** ECMAScript's DayFromYear: days from 1970-01-01 to the first day of `year`. */
  function DayFromYear(year: int): int
  {
    365 * (year - 1970) + (year - 1969) / 4 - (year - 1901) / 100 + (year - 1601) / 400
  }

  function DaysBeforeMonth(year: int, month: int): nat
    requires 0 <= month <= 12
  {
    if month == 0 then 0 else DaysBeforeMonth(year, month - 1) + DaysInUtcMonth(year, month - 1)
  }

  /** Months counted from year 0. */
  function MonthNumber(d: Date): int
  {
    d.year * 12 + d.month
  }

  /** The day number of the first day of a month. */
  function MonthStart(n: int): int
  {
    DayFromYear(n / 12) + DaysBeforeMonth(n / 12, n % 12)
  }

  function MonthLength(n: int): (days: nat)
    ensures 28 <= days <= 31
  {
    DaysInUtcMonth(n / 12, n % 12)
  }

  function DayNumber(d: CivilDate): int
  {
    MonthStart(MonthNumber(d)) + d.day - 1
  }

  /** The time value: milliseconds from the start of 1970, as `getTime` gives it. */
  function Time(d: CivilDate): int
  {
    DayNumber(d) * MS_PER_DAY + d.ms
  }

  // ---------------------------------------------------------------- the calendar is a count of days

  lemma MonthFields(d: CivilDate)
    ensures MonthNumber(d) / 12 == d.year && MonthNumber(d) % 12 == d.month
    ensures MonthLength(MonthNumber(d)) == DaysInUtcMonth(d.year, d.month)
  {
  }

  lemma By4(y: int)
    ensures (y - 1968) / 4 == (y - 1969) / 4 + (if y % 4 == 0 then 1 else 0)
  {
  }

  lemma By100(y: int)
    ensures (y - 1900) / 100 == (y - 1901) / 100 + (if y % 100 == 0 then 1 else 0)
    ensures y % 100 == 0 ==> y % 4 == 0
  {
    if y % 100 == 0 {
      HundredsAreFours(y / 100);
    }
  }

  lemma HundredsAreFours(q: int)
    ensures 100 * q % 4 == 0
  {
  }

  lemma By400(y: int)
    ensures (y - 1600) / 400 == (y - 1601) / 400 + (if y % 400 == 0 then 1 else 0)
    ensures y % 400 == 0 ==> y % 100 == 0
  {
  }

  lemma YearLength(year: int)
    ensures DayFromYear(year + 1) == DayFromYear(year) + (if IsLeap(year) then 366 else 365)
  {
    By4(year);
    By100(year);
    By400(year);
    YearSum(year, (year - 1969) / 4, (year - 1901) / 100, (year - 1601) / 400);
  }

  /** The sum in `DayFromYear`, with the three quotients named. */
  lemma YearSum(year: int, by4: int, by100: int, by400: int)
    requires by4 == (year - 1969) / 4 && by100 == (year - 1901) / 100 && by400 == (year - 1601) / 400
    ensures DayFromYear(year) == 365 * (year - 1970) + by4 - by100 + by400
    ensures DayFromYear(year + 1) ==
            365 * (year - 1969) + (year - 1968) / 4 - (year - 1900) / 100 + (year - 1600) / 400
  {
  }

  /** ECMAScript's MonthFromTime: the day of a common year on which each month starts. */
  const MONTH_BOUNDARIES: seq<int> := [0, 31, 59, 90, 120, 151, 181, 212, 243, 273, 304, 334, 365]

  lemma DaysBeforeMonthTable(year: int)
    ensures forall m :: 0 <= m <= 12 ==>
              DaysBeforeMonth(year, m) == MONTH_BOUNDARIES[m] + (if m >= 2 && IsLeap(year) then 1 else 0)
  {
    hide IsLeap;
    assert DaysBeforeMonth(year, 1) == 31;
    assert DaysBeforeMonth(year, 2) == 31 + DaysInUtcMonth(year, 1);
    assert DaysBeforeMonth(year, 3) == DaysBeforeMonth(year, 2) + 31;
    assert DaysBeforeMonth(year, 4) == DaysBeforeMonth(year, 3) + 30;
    assert DaysBeforeMonth(year, 5) == DaysBeforeMonth(year, 4) + 31;
    assert DaysBeforeMonth(year, 6) == DaysBeforeMonth(year, 5) + 30;
    assert DaysBeforeMonth(year, 7) == DaysBeforeMonth(year, 6) + 31;
    assert DaysBeforeMonth(year, 8) == DaysBeforeMonth(year, 7) + 31;
    assert DaysBeforeMonth(year, 9) == DaysBeforeMonth(year, 8) + 30;
    assert DaysBeforeMonth(year, 10) == DaysBeforeMonth(year, 9) + 31;
    assert DaysBeforeMonth(year, 11) == DaysBeforeMonth(year, 10) + 30;
    assert DaysBeforeMonth(year, 12) == DaysBeforeMonth(year, 11) + 31;
  }

  /** Every month of every year starts on the day ECMAScript's tables say, one later from March on in a leap year. */
  lemma MonthStartsOnBoundary(year: int, month: int)
    requires 0 <= month < 12
    ensures MonthStart(12 * year + month) ==
            DayFromYear(year) + MONTH_BOUNDARIES[month] + (if month >= 2 && IsLeap(year) then 1 else 0)
  {
    hide DayFromYear, IsLeap;
    assert (12 * year + month) / 12 == year && (12 * year + month) % 12 == month;
    DaysBeforeMonthTable(year);
  }

  /** Each month starts where the one before it ends, across year ends and leap days. */
  lemma NextMonth(n: int)
    ensures MonthStart(n + 1) == MonthStart(n) + MonthLength(n)
  {
    var y, m := n / 12, n % 12;
    if m < 11 {
      assert (n + 1) / 12 == y && (n + 1) % 12 == m + 1;
    } else {
      assert (n + 1) / 12 == y + 1 && (n + 1) % 12 == 0;
      YearLength(y);
      DaysBeforeMonthTable(y);
    }
  }

  lemma {:induction false} MonthStartGrows(m: int, n: int)
    requires m <= n
    ensures MonthStart(m) + 28 * (n - m) <= MonthStart(n)
    decreases n - m
  {
    hide MonthStart;
    if m < n {
      MonthStartGrows(m, n - 1);
      NextMonth(n - 1);
    }
  }

  /** Earlier by month, then day, then time of day. */
  predicate Before(a: Date, b: Date)
  {
    || MonthNumber(a) < MonthNumber(b)
    || (MonthNumber(a) == MonthNumber(b) && a.day < b.day)
    || (MonthNumber(a) == MonthNumber(b) && a.day == b.day && a.ms < b.ms)
  }

  lemma DayOrder(a: CivilDate, b: CivilDate)
    requires MonthNumber(a) < MonthNumber(b)
    ensures DayNumber(a) < DayNumber(b)
  {
    MonthFields(a);
    NextMonth(MonthNumber(a));
    MonthStartGrows(MonthNumber(a) + 1, MonthNumber(b));
  }

  /** Time values order dates as their fields do. */
  lemma TimeOrder(a: CivilDate, b: CivilDate)
    ensures Time(a) < Time(b) <==> Before(a, b)
    ensures Time(a) == Time(b) <==> a == b
  {
    MonthFields(a);
    MonthFields(b);
    if MonthNumber(a) < MonthNumber(b) {
      DayOrder(a, b);
    } else if MonthNumber(b) < MonthNumber(a) {
      DayOrder(b, a);
    }
  }

  /** Some month holds every day number. */
  lemma {:induction false} MonthOfDay(day: int, guess: int) returns (n: int)
    ensures MonthStart(n) <= day < MonthStart(n + 1)
    decreases if day < MonthStart(guess) then MonthStart(guess) - day else day - MonthStart(guess)
  {
    NextMonth(guess);
    NextMonth(guess - 1);
    hide MonthStart;
    if day < MonthStart(guess - 1) {
      n := MonthOfDay(day, guess - 1);
    } else if day < MonthStart(guess) {
      n := guess - 1;
    } else if day < MonthStart(guess + 1) {
      n := guess;
    } else {
      n := MonthOfDay(day, guess + 1);
    }
  }

  /** Every time value is exactly one date's. */
  lemma DateAt(t: int) returns (d: CivilDate)
    ensures Time(d) == t
    ensures forall e: CivilDate :: Time(e) == t ==> e == d
  {
    var day, ms := t / MS_PER_DAY, t % MS_PER_DAY;
    var n := MonthOfDay(day, 0);
    NextMonth(n);
    d := Date(n / 12, n % 12, day - MonthStart(n) + 1, ms);
    assert MonthNumber(d) == n;
    forall e: CivilDate | Time(e) == t ensures e == d {
      TimeOrder(e, d);
    }
  }

  // ---------------------------------------------------------------- adding months

  function Min(a: int, b: int): int
  {
    if a <= b then a else b
  }

  /** `months` calendar months after `anchor`, the day clamped to the target month's length. */
  function AddMonths(anchor: CivilDate, months: int): (d: CivilDate)
    ensures MonthNumber(d) == MonthNumber(anchor) + months
    ensures d.day == Min(anchor.day, MonthLength(MonthNumber(d))) && d.ms == anchor.ms
  {
    var total := anchor.year * 12 + anchor.month + months;
    var year := total / 12;
    var month := total - year * 12;
    Date(year, month, Min(anchor.day, DaysInUtcMonth(year, month)), anchor.ms)
  }

  /** A result past the last instant a Date can hold is refused. */
  predicate Representable(d: CivilDate)
  {
    -MAX_TIME <= Time(d) <= MAX_TIME
  }

  type Instant = d: CivilDate | Representable(d) witness (EpochIsZero(); Date(1970, 0, 1, 0))

  lemma EpochIsZero()
    ensures Time(Date(1970, 0, 1, 0)) == 0
  {
    EpochYear();
    FirstOfYear(1970);
    hide MonthStart;
  }

  lemma FirstOfYear(year: int)
    ensures DayNumber(Date(year, 0, 1, 0)) == DayFromYear(year)
  {
    MonthFields(Date(year, 0, 1, 0));
    hide DayFromYear;
  }

  lemma EpochYear()
    ensures DayFromYear(1970) == 0
  {
  }

  /** The first and the last millisecond a Date can hold: April 20 of the year -271821 and September 13 of 275760. */
  lemma RepresentableEnds()
    ensures Time(Date(-271821, 3, 20, 0)) == -8_640_000_000_000_000
    ensures Time(Date(275760, 8, 13, 0)) == 8_640_000_000_000_000
    ensures Representable(Date(-271821, 3, 20, 0)) && !Representable(Date(-271821, 3, 19, MS_PER_DAY - 1))
    ensures Representable(Date(275760, 8, 13, 0)) && !Representable(Date(275760, 8, 13, 1))
  {
    DayOf(-271821, 3, 20, 0);
    DayOf(-271821, 3, 19, MS_PER_DAY - 1);
    DayOf(275760, 8, 13, 0);
    DayOf(275760, 8, 13, 1);
    EndYears();
    hide Time, DayFromYear;
  }

  lemma DayOf(year: int, month: int, day: int, ms: int)
    requires Valid(Date(year, month, day, ms))
    ensures Time(Date(year, month, day, ms)) ==
            (DayFromYear(year) + MONTH_BOUNDARIES[month] + (if month >= 2 && IsLeap(year) then 1 else 0) + day - 1)
            * MS_PER_DAY + ms
  {
    MonthStartsOnBoundary(year, month);
    hide MonthStart, DayFromYear, IsLeap;
  }

  lemma EndYears()
    ensures DayFromYear(-271821) == -100_000_109 && DayFromYear(275760) == 99_999_744
    ensures !IsLeap(-271821) && IsLeap(275760)
  {
  }

  /** Exactly the date `months` months on, or a refusal for an invalid date, an inexact count or a date out of range. */
  lemma AddUtcMonthsExactly(anchor: DateArgument, months: int)
    ensures AddUtcMonths(anchor, months).Ok? <==>
            && anchor.DateAt? && -9_007_199_254_740_991 <= months <= 9_007_199_254_740_991
            && -8_640_000_000_000_000 <= Time(AddMonths(anchor.at, months)) <= 8_640_000_000_000_000
    ensures AddUtcMonths(anchor, months).Ok? ==> AddUtcMonths(anchor, months).value == AddMonths(anchor.at, months)
  {
  }

  /** The day is kept, or clamped to 30 in April, June, September and November and to 28 or 29 in February. */
  lemma AddMonthsDay(a: CivilDate, k: int)
    ensures var d := AddMonths(a, k);
      d.day == Min(a.day,
                   if d.month in {3, 5, 8, 10} then 30
                   else if d.month == 1 then
                     (if d.year % 400 == 0 || (d.year % 4 == 0 && d.year % 100 != 0) then 29 else 28)
                   else 31)
  {
    MonthFields(AddMonths(a, k));
  }

  /** A `Date` argument as callers may pass it. */
  datatype DateArgument = InvalidDate | DateAt(at: Instant)

  function AddUtcMonths(anchor: DateArgument, months: int): Result<Instant>
  {
    if anchor.InvalidDate? || !SafeInteger(months) then RangeError
    else
      var out := AddMonths(anchor.at, months);
      if Representable(out) then Ok(out) else RangeError
  }

  lemma AddNothing(a: CivilDate)
    ensures AddMonths(a, 0) == a
  {
    MonthFields(a);
  }

  /** Later month counts give strictly later instants. */
  lemma AddMonthsIncreases(a: CivilDate, j: int, k: int)
    ensures j < k <==> Time(AddMonths(a, j)) < Time(AddMonths(a, k))
  {
    TimeOrder(AddMonths(a, j), AddMonths(a, k));
  }

  /**
    Chaining never passes the direct sum, and reaches it exactly when the month in between is long enough
    for the day the sum needs.
   */
  lemma ChainingNeverPasses(a: CivilDate, j: int, k: int)
    ensures Time(AddMonths(AddMonths(a, j), k)) <= Time(AddMonths(a, j + k))
    ensures AddMonths(AddMonths(a, j), k) == AddMonths(a, j + k) <==>
            Min(a.day, MonthLength(MonthNumber(a) + j + k)) <= MonthLength(MonthNumber(a) + j)
    ensures a.day <= 28 ==> AddMonths(AddMonths(a, j), k) == AddMonths(a, j + k)
  {
    hide Time, AddMonths;
    TimeOrder(AddMonths(AddMonths(a, j), k), AddMonths(a, j + k));
    MonthFields(AddMonths(AddMonths(a, j), k));
    MonthFields(AddMonths(a, j + k));
  }

  /**
    Adding the same number of months to a later anchor gives an earlier instant in exactly one case: the two
    anchors lie in one month, the earlier one already falls on or past the end of the target month, and it
    has the later time of day.
   */
  lemma AnchorOrderReversed(a: CivilDate, b: CivilDate, k: int)
    requires Time(a) < Time(b)
    ensures Time(AddMonths(b, k)) < Time(AddMonths(a, k)) <==>
            && MonthNumber(a) == MonthNumber(b)
            && MonthLength(MonthNumber(a) + k) <= a.day
            && b.ms < a.ms
  {
    hide Time, AddMonths;
    TimeOrder(a, b);
    TimeOrder(AddMonths(b, k), AddMonths(a, k));
  }

  /** Jan 30 12:00 and Jan 31 00:00, one month on. */
  lemma AnchorOrderReversedExample()
    ensures var a, b := Date(2023, 0, 30, MS_PER_DAY / 2), Date(2023, 0, 31, 0);
      Time(a) < Time(b) && Time(AddMonths(b, 1)) < Time(AddMonths(a, 1))
  {
    hide Time;
    var a: CivilDate, b: CivilDate := Date(2023, 0, 30, MS_PER_DAY / 2), Date(2023, 0, 31, 0);
    TimeOrder(a, b);
    AnchorOrderReversed(a, b, 1);
  }
}
