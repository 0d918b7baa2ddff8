/** The proleptic Gregorian calendar and `FORMAT_TIMESTAMP`'s rendering of a date, as
    used to bucket readings by day or by month. Days are counted from 1970-01-01. */
module Calendar {
  import opened Text

  predicate IsLeapYear(y: int) {
    y % 4 == 0 && (y % 100 != 0 || y % 400 == 0)
  }

  function DaysInYear(y: int): int {
    if IsLeapYear(y) then 366 else 365
  }

  function DaysInMonth(y: int, m: int): int
    requires 1 <= m <= 12
  {
    if m == 2 then (if IsLeapYear(y) then 29 else 28)
    else if m == 4 || m == 6 || m == 9 || m == 11 then 30
    else 31
  }

  datatype Date = Date(year: int, month: int, day: int)

  predicate Valid(d: Date) {
    1 <= d.month <= 12 && 1 <= d.day <= DaysInMonth(d.year, d.month)
  }

  /** The number of days of year `y` before the first of month `m` (13 stands for the end
      of the year). */
  function DaysBeforeMonth(y: int, m: int): (n: int)
    requires 1 <= m <= 13
    ensures n >= 0
    decreases m
  {
    if m == 1 then 0 else DaysBeforeMonth(y, m - 1) + DaysInMonth(y, m - 1)
  }

  /** The twelve months make up the year. */
  lemma YearIsTwelveMonths(y: int)
    ensures DaysBeforeMonth(y, 13) == DaysInYear(y)
  {
    assert DaysBeforeMonth(y, 2) == 31;
    assert DaysBeforeMonth(y, 3) == 31 + DaysInMonth(y, 2);
    assert DaysBeforeMonth(y, 4) == 62 + DaysInMonth(y, 2);
    assert DaysBeforeMonth(y, 5) == 92 + DaysInMonth(y, 2);
    assert DaysBeforeMonth(y, 6) == 123 + DaysInMonth(y, 2);
    assert DaysBeforeMonth(y, 7) == 153 + DaysInMonth(y, 2);
    assert DaysBeforeMonth(y, 8) == 184 + DaysInMonth(y, 2);
    assert DaysBeforeMonth(y, 9) == 215 + DaysInMonth(y, 2);
    assert DaysBeforeMonth(y, 10) == 245 + DaysInMonth(y, 2);
    assert DaysBeforeMonth(y, 11) == 276 + DaysInMonth(y, 2);
    assert DaysBeforeMonth(y, 12) == 306 + DaysInMonth(y, 2);
  }

  /** Later months start later. */
  lemma {:induction false} DaysBeforeMonthGrows(y: int, m: int, k: int)
    requires 1 <= m < k <= 13
    ensures DaysBeforeMonth(y, m) + DaysInMonth(y, m) <= DaysBeforeMonth(y, k)
    decreases k
  {
    if k > m + 1 {
      DaysBeforeMonthGrows(y, m, k - 1);
    }
  }

  /** The position of a date within its year, counted from 0. */
  function DayOfYear(d: Date): int
    requires 1 <= d.month <= 12
  {
    DaysBeforeMonth(d.year, d.month) + d.day - 1
  }

  /** The date that is day `n` of year `y` (counted from 0), looking from month `m` on. */
  function MonthDayFrom(y: int, m: int, n: int): (d: Date)
    requires 1 <= m <= 12
    requires DaysBeforeMonth(y, m) <= n < DaysInYear(y)
    ensures Valid(d) && d.year == y && DayOfYear(d) == n
    decreases 12 - m
  {
    if n < DaysBeforeMonth(y, m) + DaysInMonth(y, m) then Date(y, m, n - DaysBeforeMonth(y, m) + 1)
    else
      assert m < 12 by {
        YearIsTwelveMonths(y);
      }
      MonthDayFrom(y, m + 1, n)
  }

  /** The number of days from 1970-01-01 to January 1 of year `y`. */
  function YearStart(y: int): int
    decreases if y < 1970 then 1970 - y else y - 1970
  {
    if y == 1970 then 0
    else if y > 1970 then YearStart(y - 1) + DaysInYear(y - 1)
    else YearStart(y + 1) - DaysInYear(y)
  }

  /** Each year starts where the previous one ends. */
  lemma YearStartStep(y: int)
    ensures YearStart(y + 1) == YearStart(y) + DaysInYear(y)
  {
  }

  /** Later years start at least a full year later. */
  lemma {:induction false} YearStartGrows(y: int, z: int)
    requires y < z
    ensures YearStart(y) + DaysInYear(y) <= YearStart(z)
    decreases z - y
  {
    YearStartStep(y);
    if z > y + 1 {
      YearStartGrows(y + 1, z);
      YearStartStep(y + 1);
    }
  }

  /** Days since 1970-01-01 of a date. */
  function DaysFromCivil(d: Date): int
    requires Valid(d)
  {
    YearStart(d.year) + DayOfYear(d)
  }

  /** The date `n` days after January 1 of year `y`; `n` may be negative or exceed the year. */
  function CivilFrom(y: int, n: int): (d: Date)
    ensures Valid(d)
    decreases if n < 0 then 1 else 0, if n < 0 then -n else n
  {
    if n < 0 then CivilFrom(y - 1, n + DaysInYear(y - 1))
    else if n >= DaysInYear(y) then CivilFrom(y + 1, n - DaysInYear(y))
    else MonthDayFrom(y, 1, n)
  }

  /** The calendar date of day `z`, counted from 1970-01-01. */
  function CivilFromDays(z: int): (d: Date)
    ensures Valid(d)
  {
    CivilFrom(1970, z)
  }

  lemma {:induction false} CivilFromCounts(y: int, n: int)
    ensures DaysFromCivil(CivilFrom(y, n)) == YearStart(y) + n
    decreases if n < 0 then 1 else 0, if n < 0 then -n else n
  {
    if n < 0 {
      CivilFromCounts(y - 1, n + DaysInYear(y - 1));
      YearStartStep(y - 1);
    } else if n >= DaysInYear(y) {
      CivilFromCounts(y + 1, n - DaysInYear(y));
      YearStartStep(y);
    }
  }

  /** A valid date lies within its year. */
  lemma DayOfYearBounds(d: Date)
    requires Valid(d)
    ensures 0 <= DayOfYear(d) < DaysInYear(d.year)
  {
    YearIsTwelveMonths(d.year);
    if d.month < 12 {
      DaysBeforeMonthGrows(d.year, d.month, 13);
    }
  }

  /** Different valid dates are different days. */
  lemma DaysFromCivilInjective(a: Date, b: Date)
    requires Valid(a) && Valid(b) && DaysFromCivil(a) == DaysFromCivil(b)
    ensures a == b
  {
    DayOfYearBounds(a);
    DayOfYearBounds(b);
    if a.year < b.year {
      YearStartGrows(a.year, b.year);
      assert false;
    } else if b.year < a.year {
      YearStartGrows(b.year, a.year);
      assert false;
    }
    if a.month < b.month {
      DaysBeforeMonthGrows(a.year, a.month, b.month);
      assert false;
    } else if b.month < a.month {
      DaysBeforeMonthGrows(b.year, b.month, a.month);
      assert false;
    }
  }

  /** Day numbers and valid dates correspond one to one: converting a day number to a
      date and back gives the day number, and converting a valid date to its day number
      and back gives the date. */
  lemma CivilRoundTrip(z: int, d: Date)
    requires Valid(d)
    ensures DaysFromCivil(CivilFromDays(z)) == z
    ensures CivilFromDays(DaysFromCivil(d)) == d
  {
    CivilFromCounts(1970, z);
    var z' := DaysFromCivil(d);
    CivilFromCounts(1970, z');
    DaysFromCivilInjective(CivilFromDays(z'), d);
  }

  // -----------------------------------------------------------------------------------
  // FORMAT_TIMESTAMP

  /** `%Y`: the year with at least four digits. */
  function YearText(y: int): string {
    if y >= 0 then ZeroPad(y, 4) else "-" + ZeroPad(-y, 4)
  }

  /** The text of one format element `%c`: `%Y`, `%m` (two-digit month), `%d` (two-digit
      day) and `%%`; any other element is kept as written. */
  function Element(c: char, d: Date): string
    requires Valid(d)
  {
    if c == 'Y' then YearText(d.year)
    else if c == 'm' then ZeroPad(d.month, 2)
    else if c == 'd' then ZeroPad(d.day, 2)
    else if c == '%' then "%"
    else ['%', c]
  }

  /** `FORMAT_TIMESTAMP(fmt, ...)` of a date: format elements replaced, other characters
      copied. */
  function Format(fmt: string, d: Date): string
    requires Valid(d)
    decreases |fmt|
  {
    if fmt == [] then []
    else if fmt[0] == '%' && |fmt| >= 2 then
      var rest := Format(fmt[2..], d);
      Element(fmt[1], d) + rest
    else
      var rest := Format(fmt[1..], d);
      [fmt[0]] + rest
  }

  /** The monthly bucket format. */
  const MonthFormat := "%Y-%m"
  /** The daily bucket format. */
  const DayFormat := "%Y-%m-%d"

  lemma FormatLiteral(c: char, rest: string, d: Date)
    requires Valid(d) && c != '%'
    ensures Format([c] + rest, d) == [c] + Format(rest, d)
  {
    assert ([c] + rest)[1..] == rest;
  }

  lemma FormatElement(c: char, rest: string, d: Date)
    requires Valid(d)
    ensures Format(['%', c] + rest, d) == Element(c, d) + Format(rest, d)
  {
    assert (['%', c] + rest)[2..] == rest;
  }

  lemma MonthFormatText(d: Date)
    requires Valid(d)
    ensures Format(MonthFormat, d) == YearText(d.year) + ("-" + ZeroPad(d.month, 2))
  {
    FormatElement('m', [], d);
    assert ['%', 'm'] + [] == "%m";
    FormatLiteral('-', "%m", d);
    assert ['-'] + "%m" == "-%m";
    FormatElement('Y', "-%m", d);
    assert ['%', 'Y'] + "-%m" == MonthFormat;
  }

  lemma DayFormatText(d: Date)
    requires Valid(d)
    ensures Format(DayFormat, d) == YearText(d.year) + ("-" + (ZeroPad(d.month, 2) + ("-" + ZeroPad(d.day, 2))))
  {
    FormatElement('d', [], d);
    assert ['%', 'd'] + [] == "%d";
    FormatLiteral('-', "%d", d);
    assert ['-'] + "%d" == "-%d";
    FormatElement('m', "-%d", d);
    assert ['%', 'm'] + "-%d" == "%m-%d";
    FormatLiteral('-', "%m-%d", d);
    assert ['-'] + "%m-%d" == "-%m-%d";
    FormatElement('Y', "-%m-%d", d);
    assert ['%', 'Y'] + "-%m-%d" == DayFormat;
  }

  /** The two bucket formats render as the year, month and day they name, and the
      monthly text is the daily text without its day. */
  lemma BucketFormats(d: Date)
    requires Valid(d)
    ensures Format(MonthFormat, d) == YearText(d.year) + "-" + ZeroPad(d.month, 2)
    ensures Format(DayFormat, d) == Format(MonthFormat, d) + "-" + ZeroPad(d.day, 2)
  {
    MonthFormatText(d);
    DayFormatText(d);
  }

  /** For the years 0 to 9999 the daily text names one date: equal texts come from equal
      dates, so no two days share a daily bucket. */
  lemma DayKeyInjective(a: Date, b: Date)
    requires Valid(a) && Valid(b) && 0 <= a.year <= 9999 && 0 <= b.year <= 9999
    requires Format(DayFormat, a) == Format(DayFormat, b)
    ensures a == b
  {
    DayKeyFields(a);
    DayKeyFields(b);
  }

  /** A two-digit or four-digit field of the daily text reads back as its value. */
  lemma FieldReadsBack(n: nat, width: nat)
    requires width == 2 || width == 4
    requires n < (if width == 2 then 100 else 10000)
    ensures |ZeroPad(n, width)| == width && ParseDecimal(ZeroPad(n, width)) == n
  {
    assert Pow10(2) == 100;
    assert Pow10(4) == 10000;
    ZeroPadFits(n, width);
    ZeroPadRoundTrip(n, width);
  }

  /** Cutting `y-m-d` apart at fixed positions. */
  lemma SplitDashed(y: string, m: string, dd: string)
    requires |y| == 4 && |m| == 2 && |dd| == 2
    ensures var k := y + ("-" + (m + ("-" + dd)));
      |k| == 10 && k[..4] == y && k[5..7] == m && k[8..] == dd
  {
  }

  /** The year, month and day can be read back from fixed positions of the daily text. */
  lemma DayKeyFields(d: Date)
    requires Valid(d) && 0 <= d.year <= 9999
    ensures var k := Format(DayFormat, d);
      |k| == 10 && AllDigits(k[..4]) && AllDigits(k[5..7]) && AllDigits(k[8..])
      && ParseDecimal(k[..4]) == d.year && ParseDecimal(k[5..7]) == d.month
      && ParseDecimal(k[8..]) == d.day
  {
    DayFormatText(d);
    FieldReadsBack(d.year, 4);
    FieldReadsBack(d.month, 2);
    FieldReadsBack(d.day, 2);
    SplitDashed(ZeroPad(d.year, 4), ZeroPad(d.month, 2), ZeroPad(d.day, 2));
  }
}
