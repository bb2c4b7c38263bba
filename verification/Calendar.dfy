/** The proleptic Gregorian calendar in UTC: dates and day numbers, each computed from the other.
    Day 0 is the first of January of the year 0. */
module Calendar {
  datatype Date = Date(y: int, m: int, d: int)

  predicate IsLeap(y: int) {
    y % 4 == 0 && (y % 100 != 0 || y % 400 == 0)
  }

  function DaysInYear(y: int): int {
    if IsLeap(y) then 366 else 365
  }

  function DaysInMonth(y: int, m: int): (n: int)
    ensures 28 <= n <= 31
  {
    if m == 2 then if IsLeap(y) then 29 else 28
    else if m == 4 || m == 6 || m == 9 || m == 11 then 30
    else 31
  }

  predicate Valid(x: Date) {
    1 <= x.m <= 12 && 1 <= x.d <= DaysInMonth(x.y, x.m)
  }

  /** Leap years from the year 0 up to y, negative before it. */
  function LeapsBefore(y: int): int {
    (y + 3) / 4 - (y + 99) / 100 + (y + 399) / 400
  }

  /** Days from day 0 to the first of January of the year y. */
  function DaysBeforeYear(y: int): int
    decreases if y < 0 then -y else y
  {
    if y == 0 then 0
    else if y > 0 then DaysBeforeYear(y - 1) + DaysInYear(y - 1)
    else DaysBeforeYear(y + 1) - DaysInYear(y)
  }

  function DaysBeforeMonth(y: int, m: int): (n: int)
    requires 1 <= m <= 13
    ensures 28 * (m - 1) <= n
    decreases m
  {
    if m == 1 then 0 else DaysBeforeMonth(y, m - 1) + DaysInMonth(y, m - 1)
  }

  function DayNumber(x: Date): int
    requires 1 <= x.m <= 12
  {
    DaysBeforeYear(x.y) + DaysBeforeMonth(x.y, x.m) + x.d - 1
  }

  lemma FourStep(y: int)
    ensures (y + 4) / 4 == (y + 3) / 4 + if y % 4 == 0 then 1 else 0
  {
  }

  lemma HundredStep(y: int)
    ensures (y + 100) / 100 == (y + 99) / 100 + if y % 100 == 0 then 1 else 0
    ensures y % 100 == 0 ==> y % 4 == 0
  {
    assert y == 100 * (y / 100) + y % 100;
  }

  lemma FourHundredStep(y: int)
    ensures (y + 400) / 400 == (y + 399) / 400 + if y % 400 == 0 then 1 else 0
    ensures y % 400 == 0 ==> y % 100 == 0
  {
    assert y == 400 * (y / 400) + y % 400;
  }

  lemma YearStep(y: int)
    ensures DaysBeforeYear(y + 1) == DaysBeforeYear(y) + DaysInYear(y)
  {
  }

  lemma LeapStep(y: int)
    ensures LeapsBefore(y + 1) == LeapsBefore(y) + if IsLeap(y) then 1 else 0
  {
    FourStep(y);
    HundredStep(y);
    FourHundredStep(y);
  }

  /** The days before a year, counted without going through the years before it. */
  lemma {:induction false} YearsCounted(y: int)
    ensures DaysBeforeYear(y) == 365 * y + LeapsBefore(y)
    decreases if y < 0 then -y else y
  {
    if y > 0 {
      YearsCounted(y - 1);
      LeapStep(y - 1);
    } else if y < 0 {
      YearsCounted(y + 1);
      LeapStep(y);
    }
  }

  /** Days of an ordinary year before each month, and before the next year. */
  const BEFORE_MONTH: seq<int> := [0, 31, 59, 90, 120, 151, 181, 212, 243, 273, 304, 334, 365]

  /** The days before a month of a year, looked up. */
  function DaysUntil(y: int, m: int): int
    requires 1 <= m <= 13
  {
    BEFORE_MONTH[m - 1] + if m >= 3 && IsLeap(y) then 1 else 0
  }

  lemma MonthsCounted(y: int, m: int)
    requires 1 <= m <= 13
    ensures DaysBeforeMonth(y, m) == DaysUntil(y, m)
  {
    assert DaysBeforeMonth(y, 3) == 59 + if IsLeap(y) then 1 else 0;
    assert DaysBeforeMonth(y, 5) == 120 + if IsLeap(y) then 1 else 0;
    assert DaysBeforeMonth(y, 7) == 181 + if IsLeap(y) then 1 else 0;
    assert DaysBeforeMonth(y, 9) == 243 + if IsLeap(y) then 1 else 0;
    assert DaysBeforeMonth(y, 11) == 304 + if IsLeap(y) then 1 else 0;
  }

  lemma MonthsFillYear(y: int)
    ensures DaysBeforeMonth(y, 13) == DaysInYear(y)
  {
    MonthsCounted(y, 13);
  }

  lemma {:induction false} DayInYearOfItsNumber(y: int)
    requires y <= 0
    ensures DaysBeforeYear(y) <= y
    decreases -y
  {
    if y < 0 {
      DayInYearOfItsNumber(y + 1);
    }
  }

  // ---------------------------------------------------------------- from day number to date

  function YearFrom(n: int, y: int): (r: int)
    requires DaysBeforeYear(y) <= n
    ensures DaysBeforeYear(r) <= n < DaysBeforeYear(r + 1)
    decreases n - DaysBeforeYear(y)
  {
    YearStep(y);
    if n < DaysBeforeYear(y + 1) then y else YearFrom(n, y + 1)
  }

  function YearOf(n: int): (r: int)
    ensures DaysBeforeYear(r) <= n < DaysBeforeYear(r + 1)
  {
    var y := if n >= 0 then 0 else n;
    DayInYearOfItsNumber(if n >= 0 then 0 else n);
    YearFrom(n, y)
  }

  function MonthFrom(y: int, rest: int, m: int): (r: int)
    requires 1 <= m <= 12 && DaysBeforeMonth(y, m) <= rest < DaysBeforeMonth(y, 13)
    ensures 1 <= r <= 12 && DaysBeforeMonth(y, r) <= rest < DaysBeforeMonth(y, r + 1)
    decreases 12 - m
  {
    if m == 12 || rest < DaysBeforeMonth(y, m + 1) then m else MonthFrom(y, rest, m + 1)
  }

  /** The date of a day: the one valid date with that number. */
  function DateOf(n: int): (x: Date)
    ensures Valid(x) && DayNumber(x) == n
  {
    var y := YearOf(n);
    YearStep(y);
    MonthsFillYear(y);
    var rest := n - DaysBeforeYear(y);
    var m := MonthFrom(y, rest, 1);
    Date(y, m, rest - DaysBeforeMonth(y, m) + 1)
  }

  predicate Before(a: Date, b: Date) {
    a.y < b.y || (a.y == b.y && (a.m < b.m || (a.m == b.m && a.d < b.d)))
  }

  lemma {:induction false} YearsMonotone(a: int, b: int)
    requires a <= b
    ensures DaysBeforeYear(a) <= DaysBeforeYear(b)
    decreases b - a
  {
    if a < b {
      YearStep(a);
      YearsMonotone(a + 1, b);
    }
  }

  lemma {:induction false} MonthsMonotone(y: int, a: int, b: int)
    requires 1 <= a <= b <= 13
    ensures DaysBeforeMonth(y, a) <= DaysBeforeMonth(y, b)
    decreases b
  {
    if a < b {
      MonthsMonotone(y, a, b - 1);
    }
  }

  /** Day numbers order dates as the calendar does. */
  lemma DayNumberMonotone(a: Date, b: Date)
    requires Valid(a) && Valid(b)
    ensures DayNumber(a) < DayNumber(b) <==> Before(a, b)
  {
    if Before(a, b) {
      DayNumberIncreases(a, b);
    } else if Before(b, a) {
      DayNumberIncreases(b, a);
    }
  }

  lemma EndOfMonthInYear(x: Date)
    requires Valid(x)
    ensures DayNumber(x) < DaysBeforeYear(x.y) + DaysBeforeMonth(x.y, x.m + 1)
    ensures DayNumber(x) < DaysBeforeYear(x.y + 1)
  {
    MonthsMonotone(x.y, x.m + 1, 13);
    MonthsFillYear(x.y);
    YearStep(x.y);
  }

  lemma DayNumberIncreases(a: Date, b: Date)
    requires Valid(a) && Valid(b) && Before(a, b)
    ensures DayNumber(a) < DayNumber(b)
  {
    EndOfMonthInYear(a);
    if a.y < b.y {
      YearsMonotone(a.y + 1, b.y);
    } else if a.m < b.m {
      MonthsMonotone(a.y, a.m + 1, b.m);
    }
  }

  /** The round trip the other way: a valid date is found again from its number. */
  lemma DateOfDayNumber(x: Date)
    requires Valid(x)
    ensures DateOf(DayNumber(x)) == x
  {
    DayNumberMonotone(x, DateOf(DayNumber(x)));
    DayNumberMonotone(DateOf(DayNumber(x)), x);
  }

  lemma DayOrder(a: int, b: int)
    ensures a < b <==> Before(DateOf(a), DateOf(b))
  {
    DayNumberMonotone(DateOf(a), DateOf(b));
  }

  lemma YearFollows(y: int)
    ensures DayNumber(Date(y, 12, 31)) + 1 == DayNumber(Date(y + 1, 1, 1))
  {
    MonthsFillYear(y);
    YearStep(y);
  }

  /** The day after the last of a month is the first of the next. */
  lemma MonthFollows(y: int, m: int)
    requires 1 <= m <= 12
    ensures DayNumber(Date(y, m, DaysInMonth(y, m))) + 1
         == if m == 12 then DayNumber(Date(y + 1, 1, 1)) else DayNumber(Date(y, m + 1, 1))
  {
    if m == 12 {
      YearFollows(y);
    }
  }

}
