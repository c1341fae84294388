/** Calendar dates numbered the way Python's `datetime.date` numbers them
    (proleptic Gregorian ordinals, day 1 = 0001-01-01, weekday 0 = Monday). */
module Calendar {
  import opened Text

  datatype Date = Date(year: int, month: int, day: int) {
    /** A date `datetime.date` accepts. */
    predicate Valid() {
      1 <= year <= 9999 && 1 <= month <= 12 && 1 <= day <= DaysInMonth(year, month)
    }

    /** Chronological order on dates. */
    predicate OnOrBefore(other: Date) {
      year < other.year
      || (year == other.year && month < other.month)
      || (year == other.year && month == other.month && day <= other.day)
    }
  }

  type CalendarDate = d: Date | d.Valid() witness Date(1, 1, 1)

  predicate IsLeapYear(y: int) {
    y % 4 == 0 && (y % 100 != 0 || y % 400 == 0)
  }

  function DaysInMonth(y: int, m: int): (n: int)
    requires 1 <= m <= 12
    ensures 28 <= n <= 31
  {
    if m == 2 then (if IsLeapYear(y) then 29 else 28)
    else if m == 4 || m == 6 || m == 9 || m == 11 then 30
    else 31
  }

  function DaysBeforeMonth(y: int, m: int): (n: int)
    requires 1 <= m <= 12
  {
    [0, 31, 59, 90, 120, 151, 181, 212, 243, 273, 304, 334][m - 1]
      + (if m > 2 && IsLeapYear(y) then 1 else 0)
  }

  function DaysBeforeYear(y: int): int {
    var p := y - 1;
    p * 365 + p / 4 - p / 100 + p / 400
  }

  /** Python's `date.toordinal()`. */
  function Ordinal(d: CalendarDate): int {
    DaysBeforeYear(d.year) + DaysBeforeMonth(d.year, d.month) + d.day
  }

  /** Python's `date.weekday()` of the date with ordinal `ordinal`: 0 is Monday. */
  function Weekday(ordinal: int): (w: int)
    ensures 0 <= w < 7
  {
    (ordinal + 6) % 7
  }

  /** 2024-01-01 is day 738886 of the proleptic Gregorian calendar. */
  lemma OrdinalAnchor()
    ensures Ordinal(Date(2024, 1, 1)) == 738886
  {
    assert DaysBeforeYear(2024) == 738885;
  }

  /** Weekday 0 is a real Monday: 2024-01-01 was a Monday, and `WeekdayShift`
      carries this to every other day. */
  lemma WeekdayAnchor()
    ensures Weekday(Ordinal(Date(2024, 1, 1))) == 0
    ensures DayName(Weekday(Ordinal(Date(2024, 1, 1)))) == "Monday"
  {
    OrdinalAnchor();
  }

  /** What `strftime("%A")` prints for a weekday. */
  function DayName(w: int): string
    requires 0 <= w < 7
  {
    ["Monday", "Tuesday", "Wednesday", "Thursday", "Friday", "Saturday", "Sunday"][w]
  }

  /** The date as `YYYY-MM-DD` text, the form deadlines take in the curriculum. */
  function IsoText(d: CalendarDate): (s: string)
    ensures |s| == 10
  {
    Digits(d.year, 4) + "-" + Digits(d.month, 2) + "-" + Digits(d.day, 2)
  }

  /** Comparing deadline texts as strings compares the dates chronologically. */
  lemma IsoTextOrder(a: CalendarDate, b: CalendarDate)
    ensures StrLe(IsoText(a), IsoText(b)) <==> a.OnOrBefore(b)
  {
    DigitsOrder(a.year, b.year, 4);
    var ya, yb := Digits(a.year, 4), Digits(b.year, 4);
    var ta, tb := MonthDayText(a), MonthDayText(b);
    assert IsoText(a) == ya + ta;
    assert IsoText(b) == yb + tb;
    StrLeBlocks(ya, ta, yb, tb);
    MonthDayOrder(a, b);
  }

  /** The `-MM-DD` tail of a date's text. */
  function MonthDayText(d: CalendarDate): string {
    "-" + Digits(d.month, 2) + "-" + Digits(d.day, 2)
  }

  /** The `-MM-DD` tails compare as the (month, day) pairs do. */
  lemma MonthDayOrder(a: CalendarDate, b: CalendarDate)
    ensures StrLe(MonthDayText(a), MonthDayText(b))
            <==> a.month < b.month || (a.month == b.month && a.day <= b.day)
    ensures MonthDayText(a) == MonthDayText(b) <==> a.month == b.month && a.day == b.day
  {
    DigitsOrder(a.month, b.month, 2);
    DigitsOrder(a.day, b.day, 2);
    var ma, mb := Digits(a.month, 2), Digits(b.month, 2);
    var da, db := Digits(a.day, 2), Digits(b.day, 2);
    assert MonthDayText(a) == "-" + (ma + ("-" + da));
    assert MonthDayText(b) == "-" + (mb + ("-" + db));
    StrLeBlocks("-", ma + ("-" + da), "-", mb + ("-" + db));
    StrLeBlocks(ma, "-" + da, mb, "-" + db);
    StrLeBlocks("-", da, "-", db);
  }

  /** Later dates have larger ordinals, so ordinal differences count days forward. */
  lemma OrdinalMonotone(a: CalendarDate, b: CalendarDate)
    ensures a.OnOrBefore(b) <==> Ordinal(a) <= Ordinal(b)
  {
    if a.year < b.year {
      DaysBeforeYearGrows(a.year, b.year);
      DaysBeforeMonthBound(a.year, a.month);
    } else if b.year < a.year {
      DaysBeforeYearGrows(b.year, a.year);
      DaysBeforeMonthBound(b.year, b.month);
    } else if a.month < b.month {
      DaysBeforeMonthGrows(a.year, a.month, b.month);
    } else if b.month < a.month {
      DaysBeforeMonthGrows(a.year, b.month, a.month);
    }
  }

  /** The calendar day after `d`; 9999-12-31, the last date `datetime.date`
      accepts, has none. */
  function NextDay(d: CalendarDate): (n: CalendarDate)
    requires !(d.year == 9999 && d.month == 12 && d.day == 31)
  {
    if d.day < DaysInMonth(d.year, d.month) then Date(d.year, d.month, d.day + 1)
    else if d.month < 12 then Date(d.year, d.month + 1, 1)
    else Date(d.year + 1, 1, 1)
  }

  /** The next calendar day has the next ordinal, so the difference of two
      ordinals is the number of days from one date to the other. */
  lemma OrdinalNextDay(d: CalendarDate)
    requires !(d.year == 9999 && d.month == 12 && d.day == 31)
    ensures Ordinal(NextDay(d)) == Ordinal(d) + 1
    ensures d.OnOrBefore(NextDay(d)) && NextDay(d) != d
  {
    if d.day < DaysInMonth(d.year, d.month) {
    } else if d.month < 12 {
      DaysBeforeMonthStep(d.year, d.month);
    } else {
      DaysBeforeMonthStep(d.year, 12);
      DaysBeforeYearStep(d.year);
    }
  }

  /** The table of days before each month adds up the month lengths. */
  lemma DaysBeforeMonthStep(y: int, m: int)
    requires 1 <= m <= 12
    ensures DaysBeforeMonth(y, m) + DaysInMonth(y, m)
            == if m < 12 then DaysBeforeMonth(y, m + 1) else 365 + (if IsLeapYear(y) then 1 else 0)
  {
  }

  lemma {:induction false} DaysBeforeMonthBound(y: int, m: int)
    requires 1 <= m <= 12
    ensures DaysBeforeMonth(y, m) + DaysInMonth(y, m) <= 365 + (if IsLeapYear(y) then 1 else 0)
    decreases 12 - m
  {
    DaysBeforeMonthStep(y, m);
    if m < 12 {
      DaysBeforeMonthBound(y, m + 1);
    }
  }

  lemma {:induction false} DaysBeforeMonthGrows(y: int, m: int, n: int)
    requires 1 <= m < n <= 12
    ensures DaysBeforeMonth(y, m) + DaysInMonth(y, m) <= DaysBeforeMonth(y, n)
    decreases n - m
  {
    DaysBeforeMonthStep(y, m);
    if m + 1 < n {
      DaysBeforeMonthGrows(y, m + 1, n);
    }
  }

  lemma {:induction false} DaysBeforeYearGrows(y: int, z: int)
    requires 1 <= y < z
    ensures DaysBeforeYear(y) + 365 + (if IsLeapYear(y) then 1 else 0) <= DaysBeforeYear(z)
    decreases z - y
  {
    if y + 1 < z {
      DaysBeforeYearGrows(y + 1, z);
    }
    DaysBeforeYearStep(y);
  }

  lemma DaysBeforeYearStep(y: int)
    requires y >= 1
    ensures DaysBeforeYear(y + 1) == DaysBeforeYear(y) + 365 + (if IsLeapYear(y) then 1 else 0)
  {
    QuotientStep(y, 4);
    QuotientStep(y, 100);
    QuotientStep(y, 400);
    DivisorChain(y);
  }

  /** Moving from `y - 1` to `y` raises the quotient by `d` exactly when `d` divides `y`. */
  lemma QuotientStep(y: int, d: int)
    requires d == 4 || d == 100 || d == 400
    ensures y / d == (y - 1) / d + (if y % d == 0 then 1 else 0)
  {
    if d == 4 {
    } else if d == 100 {
    } else {
    }
  }

  lemma DivisorChain(y: int)
    ensures y % 400 == 0 ==> y % 100 == 0
    ensures y % 100 == 0 ==> y % 4 == 0
  {
  }
}
