/** Proleptic Gregorian dates as Python's `datetime.date` has them: years 1..9999, the day
    ordinal of `date.toordinal()` (0001-01-01 is day 1), the previous day (`d - timedelta(days=1)`),
    and the `YYYY-MM-DD` text form written by `strftime("%Y-%m-%d")` and read by `fromisoformat`. */
module Calendar {
  import opened Wrappers
  import opened Text

  const MinYear: int := 1
  const MaxYear: int := 9999
  const MinutesPerDay: int := 1440

  datatype Date = Date(year: int, month: int, day: int)

  predicate IsLeap(y: int) {
    y % 4 == 0 && (y % 100 != 0 || y % 400 == 0)
  }

  function DaysInMonth(y: int, m: int): int
    requires 1 <= m <= 12
  {
    if m == 2 then (if IsLeap(y) then 29 else 28)
    else if m == 4 || m == 6 || m == 9 || m == 11 then 30
    else 31
  }

  function DaysInYear(y: int): int {
    if IsLeap(y) then 366 else 365
  }

  predicate ValidDate(d: Date) {
    && MinYear <= d.year <= MaxYear
    && 1 <= d.month <= 12
    && 1 <= d.day <= DaysInMonth(d.year, d.month)
  }

  /** Days in the years before year `y`, year by year. */
  function DaysBeforeYear(y: int): (n: nat)
    requires y >= 1
    decreases y
  {
    if y == 1 then 0 else DaysBeforeYear(y - 1) + DaysInYear(y - 1)
  }

  /** Days in the months of year `y` before month `m`, month by month. */
  function DaysBeforeMonth(y: int, m: int): (n: nat)
    requires 1 <= m <= 12
    decreases m
  {
    if m == 1 then 0 else DaysBeforeMonth(y, m - 1) + DaysInMonth(y, m - 1)
  }

  /** The year count agrees with Python's closed form `_days_before_year`. */
  lemma {:induction false} DaysBeforeYearFormula(y: int)
    requires y >= 1
    ensures var p := y - 1; DaysBeforeYear(y) == p * 365 + p / 4 - p / 100 + p / 400
    decreases y
  {
    if y > 1 {
      DaysBeforeYearFormula(y - 1);
      var before := DaysBeforeYear(y - 1);
      assert DaysBeforeYear(y) == before + DaysInYear(y - 1);
      LeapCount(y - 1);
      FormulaStep(y - 2, before);
    }
  }

  /** The closed form, advanced by one year. */
  lemma FormulaStep(p: int, n: int)
    requires n == p * 365 + p / 4 - p / 100 + p / 400
    ensures n + 365 + (if (p + 1) % 4 == 0 then 1 else 0) - (if (p + 1) % 100 == 0 then 1 else 0)
              + (if (p + 1) % 400 == 0 then 1 else 0)
         == (p + 1) * 365 + (p + 1) / 4 - (p + 1) / 100 + (p + 1) / 400
  {
    NextQuotients(p);
  }

  /** Counting one more number adds one multiple of 4, 100 or 400 exactly when it is one. */
  lemma NextQuotients(p: int)
    ensures (p + 1) / 4 == p / 4 + (if (p + 1) % 4 == 0 then 1 else 0)
    ensures (p + 1) / 100 == p / 100 + (if (p + 1) % 100 == 0 then 1 else 0)
    ensures (p + 1) / 400 == p / 400 + (if (p + 1) % 400 == 0 then 1 else 0)
  {
  }

  /** Multiples of 400 are multiples of 100. */
  lemma MultipleOf400(x: int)
    requires x % 400 == 0
    ensures x % 100 == 0
  {
    var q := x / 400;
    assert x == 400 * q;
    assert x == 100 * (4 * q) + 0;
  }

  /** Multiples of 100 are multiples of 4. */
  lemma MultipleOf100(x: int)
    requires x % 100 == 0
    ensures x % 4 == 0
  {
    var q := x / 100;
    assert x == 100 * q;
    assert x == 4 * (25 * q) + 0;
  }

  /** A year's length, counted the way the closed form counts it. */
  lemma LeapCount(x: int)
    ensures DaysInYear(x) == 365 + (if x % 4 == 0 then 1 else 0) - (if x % 100 == 0 then 1 else 0)
                                 + (if x % 400 == 0 then 1 else 0)
  {
    if x % 400 == 0 {
      MultipleOf400(x);
    }
    if x % 100 == 0 {
      MultipleOf100(x);
    }
  }

  /** The month count agrees with Python's `_DAYS_BEFORE_MONTH` table plus the leap day. */
  lemma DaysBeforeMonthTable(y: int, m: int)
    requires 1 <= m <= 12
    ensures DaysBeforeMonth(y, m)
         == [0, 31, 59, 90, 120, 151, 181, 212, 243, 273, 304, 334][m - 1]
            + (if m > 2 && IsLeap(y) then 1 else 0)
  {
    var leap := if IsLeap(y) then 1 else 0;
    assert DaysBeforeMonth(y, 1) == 0;
    assert DaysBeforeMonth(y, 2) == 31;
    assert DaysBeforeMonth(y, 3) == 59 + leap;
    assert DaysBeforeMonth(y, 4) == 90 + leap;
    assert DaysBeforeMonth(y, 5) == 120 + leap;
    assert DaysBeforeMonth(y, 6) == 151 + leap;
    assert DaysBeforeMonth(y, 7) == 181 + leap;
    assert DaysBeforeMonth(y, 8) == 212 + leap;
    assert DaysBeforeMonth(y, 9) == 243 + leap;
    assert DaysBeforeMonth(y, 10) == 273 + leap;
    assert DaysBeforeMonth(y, 11) == 304 + leap;
  }

  /** Python's `date.toordinal()`. */
  function Ordinal(d: Date): int
    requires ValidDate(d)
  {
    DaysBeforeYear(d.year) + DaysBeforeMonth(d.year, d.month) + d.day
  }

  /** Wall-clock minutes from 0001-01-01 00:00 to 00:00 of `d`. */
  function MidnightMinutes(d: Date): int
    requires ValidDate(d)
  {
    (Ordinal(d) - 1) * MinutesPerDay
  }

  // ---------------------------------------------------------------------------------------
  // Facts about the ordinal
  // ---------------------------------------------------------------------------------------

  /** The days before a year and the months of that year never exceed the year's length. */
  lemma {:induction false} DaysBeforeMonthWithin(y: int, m: int)
    requires 1 <= m <= 12
    ensures DaysBeforeMonth(y, m) + DaysInMonth(y, m) <= DaysInYear(y)
    decreases 12 - m
  {
    if m < 12 {
      DaysBeforeMonthWithin(y, m + 1);
    } else {
      DaysBeforeMonthTable(y, m);
    }
  }

  lemma {:induction false} DaysBeforeMonthMonotone(y: int, m1: int, m2: int)
    requires 1 <= m1 < m2 <= 12
    ensures DaysBeforeMonth(y, m1) + DaysInMonth(y, m1) <= DaysBeforeMonth(y, m2)
    decreases m2 - m1
  {
    if m1 + 1 < m2 {
      DaysBeforeMonthMonotone(y, m1 + 1, m2);
    }
  }

  lemma {:induction false} DaysBeforeYearMonotone(y1: int, y2: int)
    requires 1 <= y1 < y2
    ensures DaysBeforeYear(y1) + DaysInYear(y1) <= DaysBeforeYear(y2)
    decreases y2 - y1
  {
    if y1 + 1 < y2 {
      DaysBeforeYearMonotone(y1 + 1, y2);
    }
  }

  /** Strictly earlier dates (in year, month, day order) have strictly smaller ordinals. */
  lemma OrdinalMonotone(d1: Date, d2: Date)
    requires ValidDate(d1) && ValidDate(d2)
    requires d1.year < d2.year
          || (d1.year == d2.year && d1.month < d2.month)
          || (d1.year == d2.year && d1.month == d2.month && d1.day < d2.day)
    ensures Ordinal(d1) < Ordinal(d2)
  {
    if d1.year < d2.year {
      DaysBeforeMonthWithin(d1.year, d1.month);
      DaysBeforeYearMonotone(d1.year, d2.year);
    } else if d1.month < d2.month {
      DaysBeforeMonthMonotone(d1.year, d1.month, d2.month);
    }
  }

  /** Two valid dates with the same ordinal are the same date. */
  lemma OrdinalInjective(d1: Date, d2: Date)
    requires ValidDate(d1) && ValidDate(d2)
    requires Ordinal(d1) == Ordinal(d2)
    ensures d1 == d2
  {
    if d1 != d2 {
      if d1.year < d2.year || (d1.year == d2.year && d1.month < d2.month)
         || (d1.year == d2.year && d1.month == d2.month && d1.day < d2.day) {
        OrdinalMonotone(d1, d2);
      } else {
        OrdinalMonotone(d2, d1);
      }
    }
  }

  /** The first and last days a Python `date` can hold, and the ordinal of the last one
      (`date.max.toordinal()`). */
  const FirstDate: Date := Date(MinYear, 1, 1)
  const LastDate: Date := Date(MaxYear, 12, 31)
  const LastOrdinal: int := 3652059

  /** The closed form of the days before a year grows with the year. */
  lemma ClosedFormMonotone(p: int, q: int)
    requires 0 <= p <= q
    ensures p * 365 + p / 4 - p / 100 + p / 400 <= q * 365 + q / 4 - q / 100 + q / 400
  {
    assert q / 4 >= p / 4;
    assert q / 400 >= p / 400;
    assert q / 100 - p / 100 <= q - p;
  }

  /** Only the first day has ordinal 1. */
  lemma FirstOrdinal(d: Date)
    requires ValidDate(d)
    ensures Ordinal(d) >= 1
    ensures Ordinal(d) == 1 <==> d == FirstDate
  {
    if d.year > MinYear {
      assert DaysBeforeYear(d.year) >= DaysInYear(d.year - 1);
    } else if d.month > 1 {
      assert DaysBeforeMonth(d.year, d.month) >= DaysInMonth(d.year, d.month - 1);
    }
  }

  /** Every valid date has an ordinal of at most `LastOrdinal`, and only the last day reaches it. */
  lemma LastOrdinalBound(d: Date)
    requires ValidDate(d)
    ensures Ordinal(d) <= LastOrdinal
    ensures Ordinal(d) == LastOrdinal <==> d == LastDate
  {
    DaysBeforeMonthWithin(d.year, d.month);
    if d.year < MaxYear {
      EarlyYearBound(d.year);
    } else {
      LastYearDays(d.year);
      if d.month < 12 {
        DaysBeforeMonthMonotone(d.year, d.month, 12);
      }
    }
  }

  /** The days before the end of any year before 9999 number fewer than those before 9999. */
  lemma EarlyYearBound(y: int)
    requires MinYear <= y < MaxYear
    ensures DaysBeforeYear(y) + DaysInYear(y) <= 3651694
  {
    DaysBeforeYearFormula(y + 1);
    ClosedFormMonotone(y, MaxYear - 1);
    assert DaysBeforeYear(y + 1) == DaysBeforeYear(y) + DaysInYear(y);
  }

  /** Year 9999 starts after 3651694 days, is not a leap year, and its December starts on day 334. */
  lemma LastYearDays(y: int)
    requires y == MaxYear
    ensures DaysBeforeYear(y) == 3651694 && DaysInYear(y) == 365
    ensures DaysBeforeMonth(y, 12) == 334 && DaysInMonth(y, 12) == 31
  {
    DaysBeforeYearFormula(y);
    DaysBeforeMonthTable(y, 12);
  }

  // ---------------------------------------------------------------------------------------
  // The previous day
  // ---------------------------------------------------------------------------------------

  /** Python's `d - timedelta(days=1)`, which raises OverflowError before 0001-01-01. */
  function PrevDay(d: Date): (r: Result<Date>)
    requires ValidDate(d)
  {
    if d.day > 1 then Ok(Date(d.year, d.month, d.day - 1))
    else if d.month > 1 then Ok(Date(d.year, d.month - 1, DaysInMonth(d.year, d.month - 1)))
    else if d.year > MinYear then Ok(Date(d.year - 1, 12, 31))
    else Raised(OverflowError("date value out of range"))
  }

  /** No day has 9999-12-31 as its previous day. */
  lemma PrevDayNotLast(d: Date)
    requires ValidDate(d)
    ensures PrevDay(d).Ok? ==> PrevDay(d).value != LastDate
  {
  }

  /** The previous day is the valid date whose ordinal is one less; only 0001-01-01 has none. */
  lemma PrevDayOrdinal(d: Date)
    requires ValidDate(d)
    ensures PrevDay(d).Raised? <==> d == Date(MinYear, 1, 1)
    ensures PrevDay(d).Ok? ==> ValidDate(PrevDay(d).value)
                               && Ordinal(PrevDay(d).value) == Ordinal(d) - 1
  {
    if d.day > 1 {
      PrevDayInMonth(d);
    } else if d.month > 1 {
      PrevDayAcrossMonth(d);
    } else if d.year > MinYear {
      PrevDayAcrossYear(d);
    }
  }

  lemma PrevDayInMonth(d: Date)
    requires ValidDate(d) && d.day > 1
    ensures PrevDay(d) == Ok(Date(d.year, d.month, d.day - 1))
    ensures ValidDate(Date(d.year, d.month, d.day - 1))
    ensures Ordinal(Date(d.year, d.month, d.day - 1)) == Ordinal(d) - 1
  {
  }

  lemma PrevDayAcrossMonth(d: Date)
    requires ValidDate(d) && d.day == 1 && d.month > 1
    ensures var p := Date(d.year, d.month - 1, DaysInMonth(d.year, d.month - 1));
      && PrevDay(d) == Ok(p)
      && ValidDate(p)
      && Ordinal(p) == Ordinal(d) - 1
  {
    assert DaysBeforeMonth(d.year, d.month)
        == DaysBeforeMonth(d.year, d.month - 1) + DaysInMonth(d.year, d.month - 1);
  }

  lemma PrevDayAcrossYear(d: Date)
    requires ValidDate(d) && d.day == 1 && d.month == 1 && d.year > MinYear
    ensures var p := Date(d.year - 1, 12, 31);
      && PrevDay(d) == Ok(p)
      && ValidDate(p)
      && Ordinal(p) == Ordinal(d) - 1
  {
    YearEndOrdinal(d.year - 1);
  }

  /** The last day of a year is the day before the first day of the next. */
  lemma YearEndOrdinal(y: int)
    requires MinYear <= y < MaxYear
    ensures ValidDate(Date(y, 12, 31))
    ensures Ordinal(Date(y, 12, 31)) == DaysBeforeYear(y + 1)
  {
    DaysBeforeMonthTable(y, 12);
    assert DaysBeforeYear(y + 1) == DaysBeforeYear(y) + DaysInYear(y);
  }

  // ---------------------------------------------------------------------------------------
  // YYYY-MM-DD
  // ---------------------------------------------------------------------------------------

  /** `strftime("%Y-%m-%d")`: four-digit year, two-digit month and day, joined by '-'. */
  function FormatDate(d: Date): (s: string)
    requires ValidDate(d)
    ensures |s| == 10
  {
    PadDigits(d.year, 4) + "-" + PadDigits(d.month, 2) + "-" + PadDigits(d.day, 2)
  }

  /** The date part of `fromisoformat`: exactly `YYYY-MM-DD` in ASCII digits, naming a valid date. */
  function ParseDate(s: string): (r: Option<Date>)
  {
    if |s| == 10 && s[4] == '-' && s[7] == '-'
       && AllDigits(s[..4]) && AllDigits(s[5..7]) && AllDigits(s[8..])
    then
      var d := Date(ParseDigits(s[..4]), ParseDigits(s[5..7]), ParseDigits(s[8..]));
      if ValidDate(d) then Some(d) else None
    else None
  }

  /** `ParseDate` accepts exactly the formatted valid dates, and reads each back as itself. */
  lemma ParseDateFormat(s: string, d: Date)
    ensures ParseDate(s) == Some(d) <==> ValidDate(d) && s == FormatDate(d)
  {
    if ValidDate(d) && s == FormatDate(d) {
      assert s[..4] == PadDigits(d.year, 4);
      assert s[5..7] == PadDigits(d.month, 2);
      assert s[8..] == PadDigits(d.day, 2);
    }
    if ParseDate(s) == Some(d) {
      PadParseDigits(s[..4]);
      PadParseDigits(s[5..7]);
      PadParseDigits(s[8..]);
      assert s == s[..4] + "-" + s[5..7] + "-" + s[8..];
    }
  }

  /** Formatted dates are ASCII digits and dashes only. */
  lemma FormatDateChars(d: Date)
    requires ValidDate(d)
    ensures forall k :: 0 <= k < 10 ==> IsDigit(FormatDate(d)[k]) || FormatDate(d)[k] == '-'
  {
  }
}
