/**
 Calendar arithmetic of the ECMAScript `Date` object, restricted to local
 midnights: a date is a proleptic Gregorian (year, month, day) triple, its
 time value is a whole number of days (`DayNumber`, days since 1970-01-01),
 and the constructor `new Date(y, m, d)` as well as `setMonth`/`setFullYear`
 go through `MakeDate`, which normalises an out-of-range month or day by
 rolling it into the neighbouring months, never by clamping.
 */
module Calendar {

  /** A calendar date; `month` is 1-based (January is 1). */
  datatype Date = Date(year: int, month: int, day: int)

  predicate IsLeapYear(y: int) {
    y % 4 == 0 && (y % 100 != 0 || y % 400 == 0)
  }

  function DaysInYear(y: int): int {
    if IsLeapYear(y) then 366 else 365
  }

  function DaysInMonth(y: int, m: int): (n: int)
    requires 1 <= m <= 12
    ensures 28 <= n <= 31
    ensures n == 29 <==> m == 2 && IsLeapYear(y)
  {
    if m == 2 then (if IsLeapYear(y) then 29 else 28)
    else if m == 4 || m == 6 || m == 9 || m == 11 then 30
    else 31
  }

  /** A date that names an existing day. */
  predicate Valid(d: Date) {
    1 <= d.month <= 12 && 1 <= d.day <= DaysInMonth(d.year, d.month)
  }

  /** Days in the months of year `y` before month `m`, month by month. */
  function DaysBeforeMonth(y: int, m: int): int
    requires 1 <= m <= 12
  {
    if m == 1 then 0 else DaysBeforeMonth(y, m - 1) + DaysInMonth(y, m - 1)
  }

  /** The cumulative month lengths of ECMAScript DayFromMonth. */
  lemma {:induction false} DaysBeforeMonthTable(y: int, m: int)
    requires 1 <= m <= 12
    ensures DaysBeforeMonth(y, m) == [0, 31, 59, 90, 120, 151, 181, 212, 243, 273, 304, 334][m - 1]
                                     + (if m > 2 && IsLeapYear(y) then 1 else 0)
  {
    if m > 1 {
      DaysBeforeMonthTable(y, m - 1);
    }
  }

  /** A month ends no later than any later month begins. */
  lemma {:induction false} DaysBeforeMonthGrows(y: int, m1: int, m2: int)
    requires 1 <= m1 < m2 <= 12
    ensures DaysBeforeMonth(y, m1) + DaysInMonth(y, m1) <= DaysBeforeMonth(y, m2)
    decreases m2
  {
    if m1 + 1 < m2 {
      DaysBeforeMonthGrows(y, m1, m2 - 1);
    }
  }

  /** Day number of January 1st of year `y` (ECMAScript DayFromYear). */
  function DayFromYear(y: int): int {
    365 * (y - 1970) + (y - 1969) / 4 - (y - 1901) / 100 + (y - 1601) / 400
  }

  /** Day number of day `d` (possibly out of range) of month `m` of year `y`. */
  function Serial(y: int, m: int, d: int): int
    requires 1 <= m <= 12
  {
    DayFromYear(y) + DaysBeforeMonth(y, m) + d - 1
  }

  /** The time value of the date at local midnight, in days since 1970-01-01. */
  function DayNumber(d: Date): int
    requires 1 <= d.month <= 12
  {
    Serial(d.year, d.month, d.day)
  }

  /** The dates that name an existing day. */
  type ValidDate = d: Date | Valid(d) witness Date(1970, 1, 1)

  /** Strict chronological order on triples: by year, then month, then day. */
  predicate Precedes(a: Date, b: Date) {
    a.year < b.year
    || (a.year == b.year && a.month < b.month)
    || (a.year == b.year && a.month == b.month && a.day < b.day)
  }

  /** Euclidean division by a positive constant moves by at most one per unit step. */
  lemma FloorStep(a: int, k: int)
    requires k == 4 || k == 100 || k == 400
    ensures (a + 1) / k == a / k + (if (a + 1) % k == 0 then 1 else 0)
  {
    var q, r := a / k, a % k;
    assert a == k * q + r && 0 <= r < k;
    if r + 1 < k {
      assert a + 1 == k * q + (r + 1);
    } else {
      assert a + 1 == k * (q + 1) + 0;
    }
  }

  /** Year `y` is a multiple of 4, 100 or 400 exactly when the offsets used by DayFromYear are. */
  lemma LeapOffsets(y: int)
    ensures (y - 1968) % 4 == 0 <==> y % 4 == 0
    ensures (y - 1900) % 100 == 0 <==> y % 100 == 0
    ensures (y - 1600) % 400 == 0 <==> y % 400 == 0
  {
    var q4, q100, q400 := y / 4, y / 100, y / 400;
    assert y - 1968 == 4 * (q4 - 492) + y % 4;
    assert y - 1900 == 100 * (q100 - 19) + y % 100;
    assert y - 1600 == 400 * (q400 - 4) + y % 400;
  }

  /** Each of the leap-year counts in DayFromYear steps up exactly at a multiple of 4, 100 or 400. */
  lemma LeapCountsStep(y: int)
    ensures (y + 1 - 1969) / 4 == (y - 1969) / 4 + (if y % 4 == 0 then 1 else 0)
    ensures (y + 1 - 1901) / 100 == (y - 1901) / 100 + (if y % 100 == 0 then 1 else 0)
    ensures (y + 1 - 1601) / 400 == (y - 1601) / 400 + (if y % 400 == 0 then 1 else 0)
  {
    FloorStep(y - 1969, 4);
    FloorStep(y - 1901, 100);
    FloorStep(y - 1601, 400);
    LeapOffsets(y);
  }

  /** Multiples of 400 are multiples of 100, and those are multiples of 4. */
  lemma LeapNesting(y: int)
    ensures y % 400 == 0 ==> y % 100 == 0
    ensures y % 100 == 0 ==> y % 4 == 0
  {
    var q400, q100, q4 := y / 400, y / 100, y / 4;
    assert y == 400 * q400 + y % 400 && y == 100 * q100 + y % 100 && y == 4 * q4 + y % 4;
    if y % 400 == 0 {
      var k := 4 * q400 - q100;
      assert 100 * k == y % 100;
    }
    if y % 100 == 0 {
      var k := 25 * q100 - q4;
      assert 4 * k == y % 4;
    }
  }

  /** Consecutive New Year's days are one year's length apart. */
  lemma DayFromYearStep(y: int)
    ensures DayFromYear(y + 1) == DayFromYear(y) + DaysInYear(y)
  {
    LeapCountsStep(y);
    LeapNesting(y);
  }

  /** Counting on past the end of a month reaches the next month's days. */
  lemma NextMonthSerial(y: int, m: int, d: int)
    requires 1 <= m < 12
    ensures Serial(y, m, d + DaysInMonth(y, m)) == Serial(y, m + 1, d)
  {
  }

  /** Counting on from 31 December reaches the next year's January days. */
  lemma NewYearSerial(y: int, d: int)
    ensures Serial(y, 12, d + 31) == Serial(y + 1, 1, d)
  {
    DaysBeforeMonthTable(y, 12);
    DayFromYearStep(y);
  }

  /** Carries a day past the end of its month into the following months. */
  function RollForward(y: int, m: int, d: int): (r: Date)
    requires 1 <= m <= 12 && 1 <= d
    ensures Valid(r)
    decreases d
  {
    var n := DaysInMonth(y, m);
    if d <= n then Date(y, m, d)
    else if m < 12 then RollForward(y, m + 1, d - n)
    else RollForward(y + 1, 1, d - n)
  }

  /** Carrying days forward keeps the time value: day `d` of month `m` is the date found. */
  lemma {:induction false} RollForwardSerial(y: int, m: int, d: int)
    requires 1 <= m <= 12 && 1 <= d
    ensures DayNumber(RollForward(y, m, d)) == Serial(y, m, d)
    decreases d
  {
    var n := DaysInMonth(y, m);
    if n < d {
      if m < 12 {
        NextMonthSerial(y, m, d - n);
        RollForwardSerial(y, m + 1, d - n);
      } else {
        NewYearSerial(y, d - n);
        RollForwardSerial(y + 1, 1, d - n);
      }
    }
  }

  /** Carries a day before the first of its month into the preceding months. */
  function RollBack(y: int, m: int, d: int): (r: Date)
    requires 1 <= m <= 12 && d <= DaysInMonth(y, m)
    ensures Valid(r)
    decreases 1 - d
  {
    if 1 <= d then Date(y, m, d)
    else if m > 1 then RollBack(y, m - 1, d + DaysInMonth(y, m - 1))
    else RollBack(y - 1, 12, d + 31)
  }

  /** Carrying days back keeps the time value. */
  lemma {:induction false} RollBackSerial(y: int, m: int, d: int)
    requires 1 <= m <= 12 && d <= DaysInMonth(y, m)
    ensures DayNumber(RollBack(y, m, d)) == Serial(y, m, d)
    decreases 1 - d
  {
    if d < 1 {
      if m > 1 {
        NextMonthSerial(y, m - 1, d);
        RollBackSerial(y, m - 1, d + DaysInMonth(y, m - 1));
      } else {
        NewYearSerial(y - 1, d);
        RollBackSerial(y - 1, 12, d + 31);
      }
    }
  }

  /**
   ECMAScript MakeDay, which the `Date` constructor applies after its rule
   that reads a year of 0..99 as 1900..1999: `monthIndex` is 0-based and,
   like `d`, may lie outside its range.
   */
  function MakeDate(y: int, monthIndex: int, d: int): (r: Date)
    ensures Valid(r)
  {
    var year, month := y + monthIndex / 12, monthIndex % 12 + 1;
    if 1 <= d then RollForward(year, month, d) else RollBack(year, month, d)
  }

  /**
   MakeDate finds the valid date whose time value is that of day `d` of the
   normalised month, counted from its first day as ECMAScript MakeDay does.
   */
  lemma MakeDateSerial(y: int, monthIndex: int, d: int)
    ensures DayNumber(MakeDate(y, monthIndex, d)) == Serial(y + monthIndex / 12, monthIndex % 12 + 1, d)
  {
    var year, month := y + monthIndex / 12, monthIndex % 12 + 1;
    if 1 <= d {
      RollForwardSerial(year, month, d);
    } else {
      RollBackSerial(year, month, d);
    }
  }

  /** `date.setMonth(date.getMonth() + n)` */
  function AddMonths(date: Date, n: int): Date {
    MakeDate(date.year, date.month - 1 + n, date.day)
  }

  /** `date.setFullYear(date.getFullYear() + n)` */
  function AddYears(date: Date, n: int): Date {
    MakeDate(date.year + n, date.month - 1, date.day)
  }

  /** A valid date lies between its own New Year's day and the next one. */
  lemma DayNumberWithinYear(d: Date)
    requires Valid(d)
    ensures DayFromYear(d.year) <= DayNumber(d) < DayFromYear(d.year + 1)
  {
    if 1 < d.month {
      DaysBeforeMonthGrows(d.year, 1, d.month);
    }
    if d.month < 12 {
      DaysBeforeMonthGrows(d.year, d.month, 12);
    }
    DaysBeforeMonthTable(d.year, 12);
    DayFromYearStep(d.year);
    assert DaysBeforeMonth(d.year, 12) + DaysInMonth(d.year, 12) == DaysInYear(d.year);
  }

  lemma {:induction false} DayFromYearIncreasing(y1: int, y2: int)
    requires y1 < y2
    ensures DayFromYear(y1 + 1) <= DayFromYear(y2)
    decreases y2 - y1
  {
    if y1 + 1 < y2 {
      DayFromYearIncreasing(y1, y2 - 1);
      DayFromYearStep(y2 - 1);
    }
  }

  /** Comparing time values compares valid dates chronologically. */
  lemma DayNumberOrder(a: Date, b: Date)
    requires Valid(a) && Valid(b)
    ensures DayNumber(a) < DayNumber(b) <==> Precedes(a, b)
  {
    DayNumberWithinYear(a);
    DayNumberWithinYear(b);
    if a.year == b.year {
      if a.month < b.month {
        DaysBeforeMonthGrows(a.year, a.month, b.month);
      } else if b.month < a.month {
        DaysBeforeMonthGrows(a.year, b.month, a.month);
      }
    } else if a.year < b.year {
      DayFromYearIncreasing(a.year, b.year);
    } else if b.year < a.year {
      DayFromYearIncreasing(b.year, a.year);
    }
  }

  /** Two valid dates have the same time value exactly when they are the same date. */
  lemma DayNumberInjective(a: Date, b: Date)
    requires Valid(a) && Valid(b)
    ensures DayNumber(a) == DayNumber(b) <==> a == b
  {
    DayNumberOrder(a, b);
    DayNumberOrder(b, a);
  }

  /** On a valid date, MakeDate is the identity. */
  lemma MakeDateOfValid(d: Date)
    requires Valid(d)
    ensures MakeDate(d.year, d.month - 1, d.day) == d
  {
    var m := d.month - 1;
    assert m / 12 == 0 && m % 12 == m;
  }

  /**
   Advancing by `n` months keeps the day of the month when the target month
   has it, and otherwise rolls the surplus days into the month after it
   (31 August + 6 months is 3 March when that February has 28 days, not 28 February).
   */
  lemma AddMonthsRollsOver(date: Date, n: int)
    requires Valid(date)
    ensures var year, month := date.year + (date.month - 1 + n) / 12, (date.month - 1 + n) % 12 + 1;
            var length := DaysInMonth(year, month);
            AddMonths(date, n) ==
              if date.day <= length then Date(year, month, date.day)
              else if month < 12 then Date(year, month + 1, date.day - length)
              else Date(year + 1, 1, date.day - length)
  {
    var year, month := date.year + (date.month - 1 + n) / 12, (date.month - 1 + n) % 12 + 1;
    var length := DaysInMonth(year, month);
    RollForwardOnce(year, month, date.day);
  }

  /** A day of the month that some month has overflows into the next month at most. */
  lemma RollForwardOnce(y: int, m: int, d: int)
    requires 1 <= m <= 12 && 1 <= d <= 31
    ensures var length := DaysInMonth(y, m);
            RollForward(y, m, d) ==
              if d <= length then Date(y, m, d)
              else if m < 12 then Date(y, m + 1, d - length)
              else Date(y + 1, 1, d - length)
  {
    var length := DaysInMonth(y, m);
    if length < d {
      if m < 12 {
        assert RollForward(y, m + 1, d - length) == Date(y, m + 1, d - length);
      } else {
        assert RollForward(y + 1, 1, d - length) == Date(y + 1, 1, d - length);
      }
    }
  }

  /**
   Advancing by `n` years keeps month and day, except that 29 February
   becomes 1 March when the target year is a common year.
   */
  lemma AddYearsRollsOver(date: Date, n: int)
    requires Valid(date)
    ensures AddYears(date, n) ==
              if date.month == 2 && date.day == 29 && !IsLeapYear(date.year + n)
              then Date(date.year + n, 3, 1)
              else Date(date.year + n, date.month, date.day)
  {
    var m := date.month - 1;
    assert m / 12 == 0 && m % 12 == m;
    assert AddYears(date, n) == RollForward(date.year + n, date.month, date.day);
    if DaysInMonth(date.year + n, date.month) < date.day {
      assert RollForward(date.year + n, 3, 1) == Date(date.year + n, 3, 1);
    }
  }

  /** Worked case: 1 January 2020 + 6 months is 1 July 2020. */
  lemma HalfYearExample()
    ensures AddMonths(Date(2020, 1, 1), 6) == Date(2020, 7, 1)
  {
    AddMonthsRollsOver(Date(2020, 1, 1), 6);
    assert (1 - 1 + 6) / 12 == 0 && (1 - 1 + 6) % 12 + 1 == 7;
  }

  /** Worked case: 31 August 2020 + 6 months is 3 March 2021, February 2021 having 28 days. */
  lemma MonthEndExample()
    ensures AddMonths(Date(2020, 8, 31), 6) == Date(2021, 3, 3)
  {
    AddMonthsRollsOver(Date(2020, 8, 31), 6);
    assert (8 - 1 + 6) / 12 == 1 && (8 - 1 + 6) % 12 + 1 == 2;
    assert !IsLeapYear(2021) by {
      assert 2021 % 4 == 1;
    }
  }

  /** Worked case: 29 February 2020 + 3 years is 1 March 2023. */
  lemma LeapDayExample()
    ensures AddYears(Date(2020, 2, 29), 3) == Date(2023, 3, 1)
  {
    assert IsLeapYear(2020) by {
      assert 2020 % 4 == 0 && 2020 % 100 == 20;
    }
    assert !IsLeapYear(2023) by {
      assert 2023 % 4 == 3;
    }
    AddYearsRollsOver(Date(2020, 2, 29), 3);
  }

  /** Adding a positive count to a month index moves it into a later year or a later month. */
  lemma MonthIndexAdvances(index: int, n: int)
    requires 0 <= index < 12 && n > 0
    ensures (index + n) / 12 > 0 || (index + n) % 12 > index
  {
    var m := index + n;
    assert m == 12 * (m / 12) + m % 12 && 0 <= m % 12 < 12;
  }

  /** A positive number of months moves a date strictly later. */
  lemma AddMonthsIsLater(date: Date, n: int)
    requires Valid(date) && n > 0
    ensures DayNumber(date) < DayNumber(AddMonths(date, n))
  {
    var r := AddMonths(date, n);
    AddMonthsRollsOver(date, n);
    MonthIndexAdvances(date.month - 1, n);
    assert Precedes(date, r);
    DayNumberOrder(date, r);
  }

  /** A positive number of years moves a date strictly later. */
  lemma AddYearsIsLater(date: Date, n: int)
    requires Valid(date) && n > 0
    ensures DayNumber(date) < DayNumber(AddYears(date, n))
  {
    var r := AddYears(date, n);
    AddYearsRollsOver(date, n);
    assert Precedes(date, r);
    DayNumberOrder(date, r);
  }
}
