/**
 * The date filter of the rate table view and the year, month and day lists offered beside it
 * (fx-rates.service.ts, dateFilter and getTable). The filter is a range of days; the lists are
 * built by testing text prefixes of ISO dates.
 */
module FxFilter {
  import opened Prelude
  import opened Calendar

  datatype DateFilter = Everything | Between(from: int, to: int) | Refused

  /** Date.UTC reads years 0 to 99 as 1900 to 1999. */
  function DateUtc(year: int, month0: int, day: int): int {
    MakeDay(if 0 <= year <= 99 then 1900 + year else year, month0, day)
  }

  /** The filter for a query; an exact day is a range of one day. */
  function FilterFor(year: Option<int>, month: Option<int>, day: Option<int>): DateFilter {
    match (year, month, day)
    case (None, None, None) => Everything
    case (Some(y), Some(m), Some(d)) => Between(MakeDay(y, m - 1, d), MakeDay(y, m - 1, d))
    case (Some(y), Some(m), None) => Between(DateUtc(y, m - 1, 1), DateUtc(y, m, 0))
    case (Some(y), None, _) => Between(DateUtc(y, 0, 1), DateUtc(y, 11, 31))
    case _ => Refused
  }

  predicate Selects(f: DateFilter, day: int) {
    f.Everything? || (f.Between? && f.from <= day <= f.to)
  }

  /**
   * Without a year: no filter at all when nothing is asked, and a refusal for a month or a day alone.
   * With a year and a day but no month the day is ignored, though the refusal's text asks for a month.
   */
  lemma FilterWithoutMonth(month: Option<int>, day: Option<int>, shown: int, year: int)
    ensures Selects(FilterFor(None, None, None), shown)
    ensures month.Some? || day.Some? ==> FilterFor(None, month, day) == Refused && !Selects(FilterFor(None, month, day), shown)
    ensures FilterFor(Some(year), None, day) == FilterFor(Some(year), None, None)
  {
  }

  /** `${year}-` for a year that prints with four digits. */
  function YearPrefix(year: int): string
    requires 1000 <= year <= 9999
  {
    Two(year / 100) + Two(year % 100) + "-"
  }

  function MonthPrefix(year: int, month: int): string
    requires 1000 <= year <= 9999 && 1 <= month <= 12
  {
    YearPrefix(year) + Two(month) + "-"
  }

  lemma PrefixNames(c: Civil, year: int, month: int)
    requires Valid(c) && 1000 <= year <= 9999 && 1 <= month <= 12
    ensures YearPrefix(year) <= Iso(c) <==> c.year == year
    ensures MonthPrefix(year, month) <= Iso(c) <==> c.year == year && c.month == month
  {
    IsoChars(c);
    var s := Iso(c);
    var p := MonthPrefix(year, month);
    assert YearPrefix(year) <= s <==> s[0..2] == Two(year / 100) && s[2..4] == Two(year % 100) by {
      assert s[..5] == s[0..2] + s[2..4] + "-";
    }
    assert s[0..2] == Two(c.year / 100) && s[2..4] == Two(c.year % 100) && s[5..7] == Two(c.month);
    TwoOrder(c.year / 100, year / 100);
    TwoOrder(c.year % 100, year % 100);
    TwoOrder(c.month, month);
    assert p <= s <==> YearPrefix(year) <= s && s[5..7] == Two(month) by {
      assert s[..8] == s[..5] + s[5..7] + "-";
    }
  }

  lemma YearEnds(year: int)
    requires 1000 <= year <= 9999
    ensures DateUtc(year, 0, 1) == DayFromYear(year) && DateUtc(year, 11, 31) == DayFromYear(year + 1) - 1
  {
    MakeDayInYear(year, 1, 1);
    MakeDayInYear(year, 12, 31);
    YearStep(year);
  }

  lemma YearRange(c: Civil, year: int)
    requires Valid(c) && 1000 <= year <= 9999
    ensures Selects(FilterFor(Some(year), None, None), ToDay(c)) <==> c.year == year
  {
    ToDayBounds(c);
    YearEnds(year);
    if c.year < year { YearsIncrease(c.year + 1, year); }
    if c.year > year { YearsIncrease(year + 1, c.year); }
  }

  lemma FirstDayOfMonth(year: int, month: int)
    requires 1000 <= year <= 9999 && 1 <= month <= 12
    ensures DateUtc(year, month - 1, 1) == ToDay(Civil(year, month, 1))
  {
    hide BeforeMonth, DayFromYear;
  }

  /** Date.UTC(year, month, 0) is the day before the next month starts: the last of the month. */
  lemma LastDayOfMonth(year: int, month: int)
    requires 1000 <= year <= 9999 && 1 <= month <= 12
    ensures DateUtc(year, month, 0) == ToDay(Civil(year, month, DaysInMonth(year, month)))
  {
    if month < 12 {
      NextMonth(year, month);
      NextStart(year, month);
    } else {
      YearEnd(year);
      YearStart(year);
    }
  }

  lemma NextStart(year: int, month: int)
    requires 1000 <= year <= 9999 && 1 <= month < 12
    ensures DateUtc(year, month, 0) == ToDay(Civil(year, month + 1, 1)) - 1
  {
    hide BeforeMonth, DayFromYear;
  }

  lemma YearStart(year: int)
    requires 1000 <= year <= 9999
    ensures DateUtc(year, 12, 0) == DayFromYear(year + 1) - 1
  {
    hide DayFromYear;
  }

  lemma MonthRange(c: Civil, year: int, month: int)
    requires Valid(c) && 1000 <= year <= 9999 && 1 <= month <= 12
    ensures Selects(FilterFor(Some(year), Some(month), None), ToDay(c)) <==> c.year == year && c.month == month
  {
    hide ToDay, DateUtc, MakeDay;
    FirstDayOfMonth(year, month);
    LastDayOfMonth(year, month);
    InMonth(c, year, month);
  }

  lemma InMonth(c: Civil, year: int, month: int)
    requires Valid(c) && 1000 <= year <= 9999 && 1 <= month <= 12
    ensures ToDay(Civil(year, month, 1)) <= ToDay(c) <= ToDay(Civil(year, month, DaysInMonth(year, month)))
      <==> c.year == year && c.month == month
  {
    DayOrder(c, Civil(year, month, 1));
    DayOrder(Civil(year, month, DaysInMonth(year, month)), c);
  }

  /** The range filter selects exactly the dates the prefix test keeps. */
  lemma FilterAgreesWithPrefix(c: Civil, year: int, month: int)
    requires Valid(c) && 1000 <= year <= 9999 && 1 <= month <= 12
    ensures Selects(FilterFor(Some(year), None, None), ToDay(c)) <==> YearPrefix(year) <= Iso(c)
    ensures Selects(FilterFor(Some(year), Some(month), None), ToDay(c)) <==> MonthPrefix(year, month) <= Iso(c)
  {
    PrefixNames(c, year, month);
    YearRange(c, year);
    MonthRange(c, year, month);
  }

  predicate AllIso(dates: seq<string>) {
    forall s | s in dates :: IsIso(s)
  }

  /** availableYears: the years cut out of the dates. */
  function YearsOffered(dates: seq<string>): set<int>
    requires AllIso(dates)
  {
    set s | s in dates :: 100 * Number2(s[0], s[1]) + Number2(s[2], s[3])
  }

  /** availableMonths: the months cut out of the dates that carry the year's prefix. */
  function MonthsOffered(dates: seq<string>, year: int): set<int>
    requires AllIso(dates) && 1000 <= year <= 9999
  {
    set s | s in dates && YearPrefix(year) <= s :: Number2(s[5], s[6])
  }

  /** availableDays: the days cut out of the dates that carry the month's prefix. */
  function DaysOffered(dates: seq<string>, year: int, month: int): set<int>
    requires AllIso(dates) && 1000 <= year <= 9999 && 1 <= month <= 12
  {
    set s | s in dates && MonthPrefix(year, month) <= s :: Number2(s[8], s[9])
  }

  predicate Shows(year: int, month: int, day: Option<int>, s: string)
    requires IsIso(s)
  {
    Selects(FilterFor(Some(year), Some(month), day), IsoDay(s))
  }

  /** A year is offered exactly when filtering by it shows some stored date. */
  lemma OfferedYearsSelect(dates: seq<string>, year: int)
    requires AllIso(dates) && 1000 <= year <= 9999
    ensures year in YearsOffered(dates) <==>
      exists s :: s in dates && Selects(FilterFor(Some(year), None, None), IsoDay(s))
  {
    forall s | s in dates
      ensures 100 * Number2(s[0], s[1]) + Number2(s[2], s[3]) == year <==> Selects(FilterFor(Some(year), None, None), IsoDay(s))
    {
      YearRange(Parse(s), year);
    }
  }

  lemma ShownDate(year: int, month: int, s: string)
    requires IsIso(s) && 1000 <= year <= 9999 && 1 <= month <= 12
    ensures Shows(year, month, None, s) <==> YearPrefix(year) <= s && Number2(s[5], s[6]) == month
    ensures MonthPrefix(year, month) <= s <==> YearPrefix(year) <= s && Number2(s[5], s[6]) == month
  {
    IsoParse(s);
    PrefixNames(Parse(s), year, month);
    MonthRange(Parse(s), year, month);
  }

  lemma DayRange(c: Civil, p: Civil)
    requires Valid(c) && Valid(p)
    ensures Selects(FilterFor(Some(c.year), Some(c.month), Some(c.day)), ToDay(p)) <==> p == c
  {
    DayOrder(p, c);
    assert ToDay(c) == MakeDay(c.year, c.month - 1, c.day);
  }

  /** A month is offered exactly when choosing it shows at least one stored date. */
  lemma OfferedMonthsSelect(dates: seq<string>, year: int, month: int)
    requires AllIso(dates) && 1000 <= year <= 9999 && 1 <= month <= 12
    ensures month in MonthsOffered(dates, year) <==> exists s :: s in dates && Shows(year, month, None, s)
  {
    hide Shows, YearPrefix;
    forall s | s in dates { ShownDate(year, month, s); }
    if month in MonthsOffered(dates, year) {
      var s :| s in dates && YearPrefix(year) <= s && Number2(s[5], s[6]) == month;
      assert Shows(year, month, None, s);
    }
  }

  /** A day is offered exactly when the full date is stored, and choosing it shows that date. */
  lemma OfferedDaysSelect(dates: seq<string>, c: Civil)
    requires AllIso(dates) && Valid(c) && 1000 <= c.year
    ensures c.day in DaysOffered(dates, c.year, c.month) <==> exists s :: s in dates && Shows(c.year, c.month, Some(c.day), s)
    ensures c.day in DaysOffered(dates, c.year, c.month) <==> Iso(c) in dates
  {
    forall s | s in dates
      ensures Shows(c.year, c.month, Some(c.day), s) <==> s == Iso(c)
      ensures MonthPrefix(c.year, c.month) <= s && Number2(s[8], s[9]) == c.day <==> s == Iso(c)
    {
      IsoParse(s);
      ParseIso(c);
      DayRange(c, Parse(s));
      PrefixNames(Parse(s), c.year, c.month);
    }
    if c.day in DaysOffered(dates, c.year, c.month) {
      var s :| s in dates && MonthPrefix(c.year, c.month) <= s && Number2(s[8], s[9]) == c.day;
      assert Shows(c.year, c.month, Some(c.day), s);
    }
  }
}
