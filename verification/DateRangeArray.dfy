/** The printed dates of a range of days, for the charts of the statistics pages. */
module DateRangeArrays {
  import opened Calendar
  import opened DateRanges
  import opened Text

  // ---------------------------------------------------------------- printing a date

  function Padded(n: int, width: nat): string {
    PadStart(IntToString(n), width)
  }

  /** The format YYYY-MM-DD. */
  function Format(x: Date): string {
    Padded(x.y, 4) + "-" + Padded(x.m, 2) + "-" + Padded(x.d, 2)
  }

  /** The order of strings: the first unit in which they differ decides. */
  predicate LexLess(a: string, b: string)
    decreases |a|
  {
    b != [] && (a == [] || a[0] < b[0] || (a[0] == b[0] && LexLess(a[1..], b[1..])))
  }

  lemma {:induction false} LexIrreflexive(a: string)
    ensures !LexLess(a, a)
    decreases |a|
  {
    if a != [] {
      LexIrreflexive(a[1..]);
    }
  }

  lemma {:induction false} LexSamePrefix(p: string, a: string, b: string)
    requires LexLess(a, b)
    ensures LexLess(p + a, p + b)
    decreases |p|
  {
    if p == [] {
      assert p + a == a && p + b == b;
    } else {
      assert (p + a)[1..] == p[1..] + a && (p + b)[1..] == p[1..] + b;
      LexSamePrefix(p[1..], a, b);
    }
  }

  lemma {:induction false} LexAppend(a: string, b: string, u: string, v: string)
    requires |a| == |b| && LexLess(a, b)
    ensures LexLess(a + u, b + v)
    decreases |a|
  {
    if a[0] == b[0] {
      assert (a + u)[1..] == a[1..] + u && (b + v)[1..] == b[1..] + v;
      LexAppend(a[1..], b[1..], u, v);
    }
  }

  function Pow10(w: nat): nat {
    if w == 0 then 1 else 10 * Pow10(w - 1)
  }

  /** A number that fits is printed digit by digit, leading zeros included. */
  lemma PaddedStep(n: nat, width: nat)
    requires width >= 1
    ensures Padded(n, width + 1) == Padded(n / 10, width) + [DecimalDigit(n % 10)]
  {
  }

  lemma {:induction false} PaddedLength(n: nat, width: nat)
    requires width >= 1 && n < Pow10(width)
    ensures |Padded(n, width)| == width
    decreases width
  {
    if width > 1 {
      PaddedStep(n, width - 1);
      PaddedLength(n / 10, width - 1);
    }
  }

  lemma {:induction false} PaddedOrder(a: nat, b: nat, width: nat)
    requires width >= 1 && a < b < Pow10(width)
    ensures LexLess(Padded(a, width), Padded(b, width))
    decreases width
  {
    if width > 1 {
      PaddedStep(a, width - 1);
      PaddedStep(b, width - 1);
      PaddedLength(a / 10, width - 1);
      PaddedLength(b / 10, width - 1);
      var c, d := [DecimalDigit(a % 10)], [DecimalDigit(b % 10)];
      if a / 10 == b / 10 {
        LexSamePrefix(Padded(a / 10, width - 1), c, d);
      } else {
        PaddedOrder(a / 10, b / 10, width - 1);
        LexAppend(Padded(a / 10, width - 1), Padded(b / 10, width - 1), c, d);
      }
    }
  }

  predicate Printable(x: Date) {
    Valid(x) && 0 <= x.y <= 9999
  }

  lemma Widths(x: Date)
    requires Printable(x)
    ensures x.y < Pow10(4) && x.m < Pow10(2) && x.d < Pow10(2)
    ensures |Padded(x.y, 4)| == 4 && |Padded(x.m, 2)| == 2
  {
    assert Pow10(1) == 10;
    assert Pow10(2) == 100;
    assert Pow10(3) == 1000;
    PaddedLength(x.y, 4);
    PaddedLength(x.m, 2);
  }

  lemma {:induction false} ZerosInFront(k: nat, t: string)
    requires AllDecimal(t)
    ensures AllDecimal(Zeros(k) + t) && Decimal(Zeros(k) + t) == Decimal(t)
    decreases |t|
  {
    if t == [] {
      assert Zeros(k) + t == Zeros(k);
      DecimalZeros(k);
    } else {
      var front := t[..|t| - 1];
      ZerosInFront(k, front);
      assert (Zeros(k) + t)[..k + |t| - 1] == Zeros(k) + front;
    }
  }

  lemma {:induction false} DecimalZeros(k: nat)
    ensures AllDecimal(Zeros(k)) && Decimal(Zeros(k)) == 0
  {
    if k > 0 {
      DecimalZeros(k - 1);
      assert Zeros(k)[..k - 1] == Zeros(k - 1);
    }
  }

  lemma PaddedSpells(n: nat, width: nat)
    ensures AllDecimal(Padded(n, width)) && Decimal(Padded(n, width)) == n
  {
    var t := NatToString(n);
    NatToStringSpells(n);
    assert IntToString(n) == t;
    if |t| < width {
      ZerosInFront(width - |t|, t);
      assert Padded(n, width) == Zeros(width - |t|) + t;
    } else {
      assert Padded(n, width) == t;
    }
  }

  /** Within four-digit years: four digits that spell the year, two the month and two the day. */
  lemma FormatSpells(x: Date)
    requires Printable(x)
    ensures var t := Format(x);
            && |t| == 10 && t[4] == '-' && t[7] == '-'
            && AllDecimal(t[..4]) && Decimal(t[..4]) == x.y
            && AllDecimal(t[5..7]) && Decimal(t[5..7]) == x.m
            && AllDecimal(t[8..]) && Decimal(t[8..]) == x.d
  {
    Widths(x);
    PaddedLength(x.d, 2);
    PaddedSpells(x.y, 4);
    PaddedSpells(x.m, 2);
    PaddedSpells(x.d, 2);
    var t := Format(x);
    assert t[..4] == Padded(x.y, 4) && t[5..7] == Padded(x.m, 2) && t[8..] == Padded(x.d, 2);
  }

  lemma LexParts(ya: string, ma: string, da: string, yb: string, mb: string, db: string)
    requires |ya| == |yb| && |ma| == |mb|
    requires LexLess(ya, yb) || (ya == yb && (LexLess(ma, mb) || (ma == mb && LexLess(da, db))))
    ensures LexLess(ya + "-" + ma + "-" + da, yb + "-" + mb + "-" + db)
  {
    var dateA, dateB := ya + "-" + ma + "-" + da, yb + "-" + mb + "-" + db;
    if LexLess(ya, yb) {
      assert dateA == ya + ("-" + ma + "-" + da) && dateB == yb + ("-" + mb + "-" + db);
      LexAppend(ya, yb, "-" + ma + "-" + da, "-" + mb + "-" + db);
    } else if LexLess(ma, mb) {
      assert dateA == (ya + "-") + (ma + ("-" + da)) && dateB == (ya + "-") + (mb + ("-" + db));
      LexAppend(ma, mb, "-" + da, "-" + db);
      LexSamePrefix(ya + "-", ma + ("-" + da), mb + ("-" + db));
    } else {
      LexSamePrefix(ya + "-" + ma + "-", da, db);
    }
  }

  /** Printed dates of four-digit years are ordered as strings exactly as the dates are. */
  lemma PrintedOrder(a: Date, b: Date)
    requires Printable(a) && Printable(b) && Before(a, b)
    ensures LexLess(Format(a), Format(b))
  {
    Widths(a);
    Widths(b);
    if a.y < b.y {
      PaddedOrder(a.y, b.y, 4);
    } else if a.m < b.m {
      PaddedOrder(a.m, b.m, 2);
    } else {
      PaddedOrder(a.d, b.d, 2);
    }
    LexParts(Padded(a.y, 4), Padded(a.m, 2), Padded(a.d, 2), Padded(b.y, 4), Padded(b.m, 2), Padded(b.d, 2));
  }

  // ---------------------------------------------------------------- the dates of a range

  /** The days of the years 0 to 9999 are those from 0 to one before this. */
  const PRINTABLE_DAYS: int := 3_652_425

  lemma YearStarts(n: int, y: int)
    ensures DateOf(n).y < y <==> n < DaysBeforeYear(y)
  {
    EndOfMonthInYear(DateOf(n));
    if DateOf(n).y < y {
      YearsMonotone(DateOf(n).y + 1, y);
    } else {
      YearsMonotone(y, DateOf(n).y);
    }
  }

  lemma YearTenThousand(y: int)
    requires y == 10000
    ensures DaysBeforeYear(y) == PRINTABLE_DAYS
  {
    YearsCounted(y);
  }

  lemma PrintableDays(n: int)
    ensures 0 <= n < PRINTABLE_DAYS <==> Printable(DateOf(n))
  {
    var y := 10000;
    YearStarts(n, 0);
    YearStarts(n, y);
    YearTenThousand(y);
  }

  function PrintDay(n: int): string {
    Format(DateOf(n))
  }

  lemma PrintedDaysAscend(a: nat, b: nat)
    requires a < b < PRINTABLE_DAYS
    ensures LexLess(PrintDay(a), PrintDay(b))
  {
    PrintableDays(a);
    PrintableDays(b);
    DayOrder(a, b);
    PrintedOrder(DateOf(a), DateOf(b));
  }

  lemma PrintedDaysInjective(a: nat, b: nat)
    requires a < PRINTABLE_DAYS && b < PRINTABLE_DAYS && PrintDay(a) == PrintDay(b)
    ensures a == b
  {
    LexIrreflexive(PrintDay(a));
    if a < b {
      PrintedDaysAscend(a, b);
    } else if b < a {
      PrintedDaysAscend(b, a);
    }
  }

  /** The difference in whole days, rounded toward zero. */
  function DiffDays(later: int, earlier: int): int {
    var ms := later - earlier;
    if ms < 0 then -(-ms / DAY) else ms / DAY
  }

  function Days(start: int, end: int): int {
    DiffDays(EndOfDay(end), StartOfDay(start)) + 1
  }

  /** A string for each day; a negative number of days gives an empty array. */
  function DaysPrinted(start: int, end: int, printed: int -> string): seq<string> {
    var days := Days(start, end);
    seq(if days < 0 then 0 else days, i => printed(DayOf(StartOfDay(start) + i * DAY)))
  }

  function Dates(start: int, end: int): seq<string> {
    DaysPrinted(start, end, PrintDay)
  }

  lemma DaysPrintedAre(start: int, end: int, printed: int -> string)
    ensures var k := DayOf(end) - DayOf(start);
            var r := DaysPrinted(start, end, printed);
            && |r| == (if k >= 0 then k + 1 else if k == -1 then 1 else 0)
            && forall i: nat :: i < |r| ==> r[i] == printed(DayOf(start) + i)
  {
  }

  /** There are as many dates as days in the range, unless the range ends on the day before it starts:
      then the difference of minus one millisecond is rounded to no days, and one date is printed. */
  lemma OneDatePerDayExactly(start: int, end: int)
    ensures var days := if DayOf(end) < DayOf(start) then 0 else DayOf(end) - DayOf(start) + 1;
            |Dates(start, end)| == days <==> DayOf(end) != DayOf(start) - 1
    ensures DayOf(end) == DayOf(start) - 1 ==> Dates(start, end) == [PrintDay(DayOf(start))]
  {
    DaysPrintedAre(start, end, PrintDay);
  }

  /** A list begins and ends with these strings. */
  predicate Spans(r: seq<string>, first: string, last: string) {
    r != [] && r[0] == first && r[|r| - 1] == last
  }

  lemma DaysPrintedSpan(start: int, end: int, printed: int -> string)
    requires DayOf(start) <= DayOf(end)
    ensures Spans(DaysPrinted(start, end, printed), printed(DayOf(start)), printed(DayOf(end)))
  {
  }

  /** The first and the last date are those of the two end points. */
  lemma DatesEndPoints(start: int, end: int)
    requires DayOf(start) <= DayOf(end)
    ensures Spans(Dates(start, end), PrintDay(DayOf(start)), PrintDay(DayOf(end)))
  {
    DaysPrintedSpan(start, end, PrintDay);
  }

  lemma DaysPrintedAscend(start: int, end: int, printed: int -> string, i: nat, j: nat)
    requires DayOf(start) <= DayOf(end) && i < j < |DaysPrinted(start, end, printed)|
    requires forall a, b :: DayOf(start) <= a < b <= DayOf(end) ==> LexLess(printed(a), printed(b))
    ensures var r := DaysPrinted(start, end, printed);
            LexLess(r[i], r[j]) && r[i] != r[j]
  {
    DaysPrintedAre(start, end, printed);
    LexIrreflexive(printed(DayOf(start) + i));
  }

  /** Within four-digit years the dates ascend strictly as strings, and so are distinct. */
  lemma DatesAscend(start: int, end: int, i: nat, j: nat)
    requires 0 <= DayOf(start) <= DayOf(end) < PRINTABLE_DAYS
    requires i < j < |Dates(start, end)|
    ensures LexLess(Dates(start, end)[i], Dates(start, end)[j])
    ensures Dates(start, end)[i] != Dates(start, end)[j]
  {
    forall a, b | DayOf(start) <= a < b <= DayOf(end) ensures LexLess(PrintDay(a), PrintDay(b)) {
      PrintedDaysAscend(a, b);
    }
    DaysPrintedAscend(start, end, PrintDay, i, j);
  }

  lemma DaysPrintedCover(start: int, end: int, printed: int -> string, day: int)
    requires DayOf(start) <= DayOf(end)
    requires forall d :: DayOf(start) <= d <= DayOf(end) && printed(d) == printed(day) ==> d == day
    ensures printed(day) in DaysPrinted(start, end, printed) <==> DayOf(start) <= day <= DayOf(end)
  {
    DaysPrintedAre(start, end, printed);
    if DayOf(start) <= day <= DayOf(end) {
      assert DaysPrinted(start, end, printed)[day - DayOf(start)] == printed(day);
    }
  }

  /** An instant falls in the range exactly when the date of its day is among the dates. */
  lemma DatesCoverExactly(start: int, end: int, t: int)
    requires 0 <= DayOf(start) <= DayOf(end) < PRINTABLE_DAYS && 0 <= DayOf(t) < PRINTABLE_DAYS
    ensures PrintDay(DayOf(t)) in Dates(start, end) <==> StartOfDay(start) <= t <= EndOfDay(end)
  {
    var day := DayOf(t);
    assert StartOfDay(start) <= t <= EndOfDay(end) <==> DayOf(start) <= day <= DayOf(end);
    forall d | DayOf(start) <= d <= DayOf(end) && PrintDay(d) == PrintDay(day) ensures d == day {
      PrintedDaysInjective(d, day);
    }
    DaysPrintedCover(start, end, PrintDay, day);
  }
}
