/** The date windows of the statistics pages, for the UTC time zone. An instant is a number of
    milliseconds since day 0 of the calendar. */
module DateRanges {
  import opened Calendar

  const DAY: int := 86_400_000

  /** Where the Unix epoch lies on this scale, in days. */
  const EPOCH_DAY: int := 719_528

  lemma EpochDay()
    ensures DateOf(EPOCH_DAY) == Date(1970, 1, 1)
  {
    YearsCounted(1970);
    assert DayNumber(Date(1970, 1, 1)) == EPOCH_DAY;
    DateOfDayNumber(Date(1970, 1, 1));
  }

  // ---------------------------------------------------------------- the operations of the date library

  function DayOf(t: int): int {
    t / DAY
  }

  function At(x: Date): int
    requires 1 <= x.m <= 12
  {
    DayNumber(x) * DAY
  }

  function StartOfDay(t: int): int {
    DayOf(t) * DAY
  }

  function EndOfDay(t: int): int {
    StartOfDay(t) + DAY - 1
  }

  function StartOfMonth(t: int): int {
    At(DateOf(DayOf(t)).(d := 1))
  }

  function EndOfMonth(t: int): int {
    var x := DateOf(DayOf(t));
    At(x.(d := DaysInMonth(x.y, x.m))) + DAY - 1
  }

  function StartOfYear(t: int): int {
    At(Date(DateOf(DayOf(t)).y, 1, 1))
  }

  function EndOfYear(t: int): int {
    At(Date(DateOf(DayOf(t)).y, 12, 31)) + DAY - 1
  }

  function SubtractDays(t: int, n: int): int {
    t - n * DAY
  }

  function Min(a: int, b: int): int {
    if a < b then a else b
  }

  /** The month before, on the same day of the month or, failing that, on its last day. */
  function PreviousMonth(x: Date): Date {
    var y, m := if x.m == 1 then x.y - 1 else x.y, if x.m == 1 then 12 else x.m - 1;
    Date(y, m, Min(x.d, DaysInMonth(y, m)))
  }

  function PreviousYear(x: Date): Date {
    Date(x.y - 1, x.m, Min(x.d, DaysInMonth(x.y - 1, x.m)))
  }

  /** Moves an instant to another date, at the same time of day. */
  function Moved(t: int, x: Date): int
    requires 1 <= x.m <= 12
  {
    At(x) + t % DAY
  }

  function SubtractMonth(t: int): int
  {
    Moved(t, PreviousMonth(DateOf(DayOf(t))))
  }

  function SubtractYear(t: int): int
  {
    Moved(t, PreviousYear(DateOf(DayOf(t))))
  }

  // ---------------------------------------------------------------- the windows

  datatype Ranges = Ranges(previousStart: int, previousEnd: int, currentStart: int, currentEnd: int)

  function CalendarMonthRanges(now: int): Ranges {
    var previous := SubtractMonth(now);
    Ranges(StartOfMonth(previous), EndOfMonth(previous), StartOfMonth(now), EndOfDay(now))
  }

  function CalendarYearRanges(now: int): Ranges {
    var previous := SubtractYear(now);
    Ranges(StartOfYear(previous), EndOfYear(previous), StartOfYear(now), EndOfDay(now))
  }

  function LastDaysRanges(now: int, back: int): Ranges {
    var currentStart := StartOfDay(SubtractDays(now, back));
    var previousEnd := EndOfDay(SubtractDays(currentStart, 1));
    Ranges(StartOfDay(SubtractDays(previousEnd, back)), previousEnd, currentStart, EndOfDay(now))
  }

  function Last30DaysRanges(now: int): Ranges {
    LastDaysRanges(now, 29)
  }

  function LastTwoWeeksRanges(now: int): Ranges {
    LastDaysRanges(now, 6)
  }

  function DateRange(now: int, substractDays: int): (int, int) {
    (SubtractDays(StartOfDay(now), substractDays), SubtractDays(EndOfDay(now), substractDays))
  }

  // ---------------------------------------------------------------- what they cover

  /** The windows adjoin, in order, and the current one contains now and ends with today. */
  predicate Adjoin(r: Ranges, now: int) {
    && r.previousStart <= r.previousEnd
    && r.previousEnd + 1 == r.currentStart
    && r.currentStart <= now <= r.currentEnd
    && r.currentEnd < now + DAY
    && r.currentEnd % DAY == DAY - 1
  }

  /** Moving by whole days moves the day. */
  lemma DaysBack(t: int, back: int)
    ensures DayOf(SubtractDays(t, back)) == DayOf(t) - back
  {
    assert t - back * DAY == (DayOf(t) - back) * DAY + t % DAY;
  }

  lemma LastDaysAre(now: int, back: nat)
    ensures var start := (DayOf(now) - back) * DAY;
            LastDaysRanges(now, back) == Ranges(start - (back + 1) * DAY, start - 1, start, EndOfDay(now))
  {
    var n := DayOf(now);
    DaysBack(now, back);
    var start := (n - back) * DAY;
    assert DayOf(start) == n - back;
    DaysBack(start, 1);
    var end := (n - back - 1) * DAY + DAY - 1;
    assert DayOf(end) == n - back - 1;
    DaysBack(end, back);
    assert (n - back - 1 - back) * DAY == start - (back + 1) * DAY;
  }

  lemma LastDaysAdjoin(now: int, back: nat)
    ensures var r := LastDaysRanges(now, back);
            && Adjoin(r, now)
            && r.currentEnd + 1 - r.currentStart == (back + 1) * DAY
            && r.previousEnd + 1 - r.previousStart == (back + 1) * DAY
  {
    LastDaysAre(now, back);
    assert StartOfDay(now) - (DayOf(now) - back) * DAY == back * DAY;
  }

  lemma Last30DaysAdjoin(now: int)
    ensures var r := Last30DaysRanges(now);
            && Adjoin(r, now)
            && r.currentEnd + 1 - r.currentStart == 30 * 86_400_000
            && r.previousEnd + 1 - r.previousStart == 30 * 86_400_000
  {
    LastDaysAdjoin(now, 29);
  }

  lemma LastTwoWeeksAdjoin(now: int)
    ensures var r := LastTwoWeeksRanges(now);
            && Adjoin(r, now)
            && r.currentEnd + 1 - r.currentStart == 7 * 86_400_000
            && r.previousEnd + 1 - r.previousStart == 7 * 86_400_000
  {
    LastDaysAdjoin(now, 6);
  }

  lemma MovedDay(t: int, x: Date)
    requires Valid(x)
    ensures DayOf(Moved(t, x)) == DayNumber(x)
  {
  }

  /** Windows of whole days: first to last, then start to today. */
  lemma DaysAdjoin(first: int, last: int, start: int, now: int)
    requires first <= last && last + 1 == start <= DayOf(now)
    ensures var r := Ranges(first * DAY, last * DAY + DAY - 1, start * DAY, EndOfDay(now));
            Adjoin(r, now) && r.previousEnd + 1 - r.previousStart == (start - first) * DAY
  {
  }

  lemma MonthDays(x: Date)
    requires Valid(x)
    ensures var y := PreviousMonth(x);
            var first, last := DayNumber(Date(y.y, y.m, 1)), DayNumber(Date(y.y, y.m, DaysInMonth(y.y, y.m)));
            last + 1 == DayNumber(Date(x.y, x.m, 1)) <= DayNumber(x) && last + 1 - first == DaysInMonth(y.y, y.m)
  {
    var y := PreviousMonth(x);
    MonthFollows(y.y, y.m);
  }

  /** The first of a month, by the table of months. */
  function FirstOfMonth(y: int, m: int): int
    requires 1 <= m <= 12
  {
    (DaysBeforeYear(y) + DaysUntil(y, m)) * DAY
  }

  function FirstOfPreviousMonth(y: int, m: int): int
    requires 1 <= m <= 12
  {
    if m == 1 then FirstOfMonth(y - 1, 12) else FirstOfMonth(y, m - 1)
  }

  lemma FirstOfMonthAt(x: Date)
    requires 1 <= x.m <= 12
    ensures At(Date(x.y, x.m, 1)) == FirstOfMonth(x.y, x.m)
    ensures var p := PreviousMonth(x);
            1 <= p.m <= 12 && At(Date(p.y, p.m, 1)) == FirstOfPreviousMonth(x.y, x.m)
  {
    MonthsCounted(x.y, x.m);
    MonthsCounted(PreviousMonth(x).y, PreviousMonth(x).m);
  }

  /** The current window is the calendar month so far, the previous one the whole month before it, in
      every month, across new year and at the end of long months. */
  lemma MonthRangesAdjoin(now: int)
    ensures var r := CalendarMonthRanges(now);
            var x := DateOf(DayOf(now));
            && Adjoin(r, now)
            && r.currentStart == FirstOfMonth(x.y, x.m) && r.previousStart == FirstOfPreviousMonth(x.y, x.m)
  {
    var x := DateOf(DayOf(now));
    var y := PreviousMonth(x);
    MovedDay(now, y);
    DateOfDayNumber(y);
    MonthDays(x);
    var first, last := DayNumber(Date(y.y, y.m, 1)), DayNumber(Date(y.y, y.m, DaysInMonth(y.y, y.m)));
    DaysAdjoin(first, last, DayNumber(Date(x.y, x.m, 1)), now);
    FirstOfMonthAt(x);
  }

  lemma EdgesOfYear(t: int)
    ensures var y := DateOf(DayOf(t)).y;
            StartOfYear(t) == DaysBeforeYear(y) * DAY && EndOfYear(t) == DaysBeforeYear(y + 1) * DAY - 1
  {
    YearFollows(DateOf(DayOf(t)).y);
  }

  lemma YearBefore(t: int)
    ensures DateOf(DayOf(SubtractYear(t))).y == DateOf(DayOf(t)).y - 1
  {
    MovedDay(t, PreviousYear(DateOf(DayOf(t))));
    DateOfDayNumber(PreviousYear(DateOf(DayOf(t))));
  }

  lemma YearRangesAre(now: int)
    ensures var y := DateOf(DayOf(now)).y;
            CalendarYearRanges(now) ==
            Ranges(DaysBeforeYear(y - 1) * DAY, DaysBeforeYear(y) * DAY - 1, DaysBeforeYear(y) * DAY, EndOfDay(now))
  {
    YearBefore(now);
    EdgesOfYear(now);
    EdgesOfYear(SubtractYear(now));
  }

  lemma YearHoldsDay(day: int)
    ensures DaysBeforeYear(DateOf(day).y) <= day
  {
  }

  /** Likewise for years, with 365 or 366 days in the previous one. */
  lemma YearRangesAdjoin(now: int)
    ensures var r := CalendarYearRanges(now);
            var y := DateOf(DayOf(now)).y;
            && Adjoin(r, now)
            && r.currentStart == DaysBeforeYear(y) * DAY
            && r.previousStart == DaysBeforeYear(y - 1) * DAY
            && r.previousEnd + 1 - r.previousStart == DaysInYear(y - 1) * DAY
  {
    var y := DateOf(DayOf(now)).y;
    YearRangesAre(now);
    YearStep(y - 1);
    YearHoldsDay(DayOf(now));
    DaysAdjoin(DaysBeforeYear(y - 1), DaysBeforeYear(y) - 1, DaysBeforeYear(y), now);
  }

  /** A day's window is exactly one day, the one that many days before today. */
  lemma DateRangeIsOneDay(now: int, substractDays: int)
    ensures var (start, end) := DateRange(now, substractDays);
            && start <= now - substractDays * DAY <= end && end + 1 - start == DAY && start % DAY == 0
            && DayOf(start) == DayOf(now) - substractDays
  {
  }
}
