/**
 * Calendar dates as fx-fetch.ts uses them: ten-character ISO strings that are parsed to a
 * UTC day number, moved by whole days and printed again. Day numbers, years and months
 * follow the Date arithmetic of ECMA-262 (section "Time-related Constants" onwards).
 */
module Calendar {
  import opened Prelude

  datatype Civil = Civil(year: int, month: int, day: int)

  predicate Leap(y: int) {
    y % 4 == 0 && (y % 100 != 0 || y % 400 == 0)
  }

  function YearLength(y: int): int {
    if Leap(y) then 366 else 365
  }

  function DaysInMonth(y: int, m: int): int {
    if m == 2 then (if Leap(y) then 29 else 28)
    else if m == 4 || m == 6 || m == 9 || m == 11 then 30
    else 31
  }

  /** The dates a four-digit ISO string can name. */
  predicate Valid(c: Civil) {
    0 <= c.year <= 9999 && 1 <= c.month <= 12 && 1 <= c.day <= DaysInMonth(c.year, c.month)
  }

  /** Day number of 1 January, counted from 1970-01-01. */
  function DayFromYear(y: int): int {
    365 * (y - 1970) + (y - 1969) / 4 - (y - 1901) / 100 + (y - 1601) / 400
  }

  /** Days of the year before month m; m == 13 gives the whole year. */
  function BeforeMonth(y: int, m: int): int
    requires 1 <= m <= 13
  {
    var plain := match m
      case 1 => 0
      case 2 => 31
      case 3 => 59
      case 4 => 90
      case 5 => 120
      case 6 => 151
      case 7 => 181
      case 8 => 212
      case 9 => 243
      case 10 => 273
      case 11 => 304
      case 12 => 334
      case _ => 365;
    plain + if m > 2 && Leap(y) then 1 else 0
  }

  /** Date.UTC(y, m0, d): month counted from 0, day possibly outside the month. */
  function MakeDay(y: int, m0: int, d: int): int {
    DayFromYear(y + m0 / 12) + BeforeMonth(y + m0 / 12, m0 % 12 + 1) + d - 1
  }

  function ToDay(c: Civil): int
    requires Valid(c)
  {
    MakeDay(c.year, c.month - 1, c.day)
  }

  const FIRST_DAY := DayFromYear(0)
  const LAST_DAY := DayFromYear(10000) - 1

  /** The largest year, at most `from`, that starts on or before day n. */
  function YearFromDay(n: int, from: int): (y: int)
    requires FIRST_DAY <= n && 0 <= from
    ensures 0 <= y <= from && DayFromYear(y) <= n
    ensures y < from ==> n < DayFromYear(y + 1)
    decreases from
  {
    if from == 0 || DayFromYear(from) <= n then from else YearFromDay(n, from - 1)
  }

  /** The month holding the k-th day (from 0) of year y. */
  function MonthFromDay(y: int, k: int): (m: int)
    requires 0 <= k < YearLength(y)
    ensures 1 <= m <= 12 && BeforeMonth(y, m) <= k < BeforeMonth(y, m + 1)
  {
    if k < BeforeMonth(y, 2) then 1
    else if k < BeforeMonth(y, 3) then 2
    else if k < BeforeMonth(y, 4) then 3
    else if k < BeforeMonth(y, 5) then 4
    else if k < BeforeMonth(y, 6) then 5
    else if k < BeforeMonth(y, 7) then 6
    else if k < BeforeMonth(y, 8) then 7
    else if k < BeforeMonth(y, 9) then 8
    else if k < BeforeMonth(y, 10) then 9
    else if k < BeforeMonth(y, 11) then 10
    else if k < BeforeMonth(y, 12) then 11
    else 12
  }

  lemma YearStep(y: int)
    ensures DayFromYear(y + 1) == DayFromYear(y) + YearLength(y)
  {
    FourthYears(y);
    Centuries(y);
    FourthCenturies(y);
  }

  lemma FourthYears(y: int)
    ensures (y - 1968) / 4 == (y - 1969) / 4 + if y % 4 == 0 then 1 else 0
  {
    assert y == 4 * (y / 4) + y % 4;
  }

  lemma Centuries(y: int)
    ensures (y - 1900) / 100 == (y - 1901) / 100 + if y % 100 == 0 then 1 else 0
    ensures y % 100 == 0 ==> y % 4 == 0
  {
    assert y == 100 * (y / 100) + y % 100;
  }

  lemma FourthCenturies(y: int)
    ensures (y - 1600) / 400 == (y - 1601) / 400 + if y % 400 == 0 then 1 else 0
    ensures y % 400 == 0 ==> y % 100 == 0
  {
    assert y == 400 * (y / 400) + y % 400;
  }

  lemma {:induction false} YearsIncrease(y: int, z: int)
    requires y <= z
    ensures DayFromYear(y) + 365 * (z - y) <= DayFromYear(z)
    decreases z - y
  {
    if y < z {
      YearsIncrease(y, z - 1);
      YearStep(z - 1);
    }
  }

  lemma MonthStep(y: int, m: int)
    requires 1 <= m <= 12
    ensures BeforeMonth(y, m + 1) == BeforeMonth(y, m) + DaysInMonth(y, m)
  {
  }

  lemma MakeDayInYear(y: int, m: int, d: int)
    requires 1 <= m <= 12
    ensures MakeDay(y, m - 1, d) == DayFromYear(y) + BeforeMonth(y, m) + d - 1
  {
    assert (m - 1) / 12 == 0 && (m - 1) % 12 == m - 1;
  }

  /** The date of the n-th day, given its year and month. */
  lemma DateInMonth(y: int, m: int, n: int)
    requires 0 <= y <= 9999 && 1 <= m <= 12
    requires DayFromYear(y) + BeforeMonth(y, m) <= n < DayFromYear(y) + BeforeMonth(y, m + 1)
    ensures var c := Civil(y, m, n - DayFromYear(y) - BeforeMonth(y, m) + 1);
      Valid(c) && ToDay(c) == n
  {
    MonthStep(y, m);
    MakeDayInYear(y, m, n - DayFromYear(y) - BeforeMonth(y, m) + 1);
  }

  function FromDay(n: int): (c: Civil)
    requires FIRST_DAY <= n <= LAST_DAY
    ensures Valid(c)
    ensures ToDay(c) == n
  {
    var y := YearFromDay(n, 9999);
    YearStep(y);
    var m := MonthFromDay(y, n - DayFromYear(y));
    DateInMonth(y, m, n);
    Civil(y, m, n - DayFromYear(y) - BeforeMonth(y, m) + 1)
  }

  predicate Earlier(a: Civil, b: Civil) {
    a.year < b.year || (a.year == b.year && (a.month < b.month || (a.month == b.month && a.day < b.day)))
  }

  lemma {:induction false} MonthsIncrease(y: int, m: int, n: int)
    requires 1 <= m <= n <= 13
    ensures BeforeMonth(y, m) <= BeforeMonth(y, n)
    decreases n - m
  {
    if m < n {
      MonthsIncrease(y, m, n - 1);
      MonthStep(y, n - 1);
    }
  }

  /** A valid date lies inside its year. */
  lemma ToDayBounds(c: Civil)
    requires Valid(c)
    ensures ToDay(c) == DayFromYear(c.year) + BeforeMonth(c.year, c.month) + c.day - 1
    ensures DayFromYear(c.year) <= ToDay(c) < DayFromYear(c.year + 1)
    ensures FIRST_DAY <= ToDay(c) <= LAST_DAY
  {
    MakeDayInYear(c.year, c.month, c.day);
    MonthStep(c.year, c.month);
    MonthsIncrease(c.year, c.month + 1, 13);
    YearStep(c.year);
    YearsIncrease(0, c.year);
    YearsIncrease(c.year + 1, 10000);
  }

  lemma EarlierIsSmaller(a: Civil, b: Civil)
    requires Valid(a) && Valid(b) && Earlier(a, b)
    ensures ToDay(a) < ToDay(b)
  {
    ToDayBounds(a);
    ToDayBounds(b);
    if a.year < b.year {
      YearsIncrease(a.year + 1, b.year);
    } else if a.month < b.month {
      MonthStep(a.year, a.month);
      MonthsIncrease(a.year, a.month + 1, b.month);
    }
  }

  /** Day numbers order dates exactly as (year, month, day) does. */
  lemma DayOrder(a: Civil, b: Civil)
    requires Valid(a) && Valid(b)
    ensures Earlier(a, b) <==> ToDay(a) < ToDay(b)
    ensures a == b <==> ToDay(a) == ToDay(b)
  {
    if Earlier(a, b) { EarlierIsSmaller(a, b); }
    if Earlier(b, a) { EarlierIsSmaller(b, a); }
  }

  // ----- ISO strings -----

  function Two(n: int): (s: string)
    requires 0 <= n <= 99
    ensures |s| == 2
  {
    [Digit(n / 10), Digit(n % 10)]
  }

  function Iso(c: Civil): (s: string)
    requires Valid(c)
    ensures |s| == 10
  {
    Two(c.year / 100) + (Two(c.year % 100) + ("-" + (Two(c.month) + ("-" + Two(c.day)))))
  }

  function Number2(a: char, b: char): int
    requires IsDigit(a) && IsDigit(b)
  {
    10 * (a as int - '0' as int) + (b as int - '0' as int)
  }

  predicate IsoShape(s: string) {
    && |s| == 10 && s[4] == '-' && s[7] == '-'
    && IsDigit(s[0]) && IsDigit(s[1]) && IsDigit(s[2]) && IsDigit(s[3])
    && IsDigit(s[5]) && IsDigit(s[6]) && IsDigit(s[8]) && IsDigit(s[9])
  }

  /** The date an ISO-shaped string spells, valid or not. */
  function Parse(s: string): Civil
    requires IsoShape(s)
  {
    Civil(100 * Number2(s[0], s[1]) + Number2(s[2], s[3]), Number2(s[5], s[6]), Number2(s[8], s[9]))
  }

  predicate IsIso(s: string) {
    IsoShape(s) && Valid(Parse(s))
  }

  lemma IsoChars(c: Civil)
    requires Valid(c)
    ensures var s := Iso(c);
      s == [Digit(c.year / 100 / 10), Digit(c.year / 100 % 10), Digit(c.year % 100 / 10), Digit(c.year % 100 % 10), '-',
            Digit(c.month / 10), Digit(c.month % 10), '-', Digit(c.day / 10), Digit(c.day % 10)]
  {
  }

  /** Printing and parsing are inverse, in both directions. */
  lemma ParseIso(c: Civil)
    requires Valid(c)
    ensures IsIso(Iso(c)) && Parse(Iso(c)) == c
  {
    IsoChars(c);
  }

  lemma TwoNumber(a: char, b: char)
    requires IsDigit(a) && IsDigit(b)
    ensures 0 <= Number2(a, b) <= 99 && Two(Number2(a, b)) == [a, b]
  {
    var x, y := a as int - '0' as int, b as int - '0' as int;
    assert (10 * x + y) / 10 == x && (10 * x + y) % 10 == y;
  }

  lemma IsoParse(s: string)
    requires IsIso(s)
    ensures Iso(Parse(s)) == s
  {
    var c := Parse(s);
    TwoNumber(s[0], s[1]);
    TwoNumber(s[2], s[3]);
    TwoNumber(s[5], s[6]);
    TwoNumber(s[8], s[9]);
    assert c.year / 100 == Number2(s[0], s[1]) && c.year % 100 == Number2(s[2], s[3]);
    assert s == [s[0], s[1], s[2], s[3], s[4], s[5], s[6], s[7], s[8], s[9]];
  }

  lemma TwoOrder(m: int, n: int)
    requires 0 <= m <= 99 && 0 <= n <= 99
    ensures LexLess(Two(m), Two(n)) <==> m < n
    ensures Two(m) == Two(n) <==> m == n
  {
    var a, b := Two(m), Two(n);
    assert a[1..] == [a[1]] && b[1..] == [b[1]];
    assert a[1..][1..] == [] && b[1..][1..] == [];
    assert LexLess(a[1..], b[1..]) <==> a[1] < b[1];
    if a == b { assert a[0] == b[0] && a[1] == b[1]; }
  }

  lemma DashOrder(s: string, t: string)
    ensures LexLess("-" + s, "-" + t) <==> LexLess(s, t)
    ensures "-" + s == "-" + t <==> s == t
  {
    LexConcat("-", "-", s, t);
    LexIrreflexive("-");
    assert ("-" + s)[1..] == s && ("-" + t)[1..] == t;
  }

  lemma TwoThen(m: int, s: string, n: int, t: string)
    requires 0 <= m <= 99 && 0 <= n <= 99
    ensures LexLess(Two(m) + s, Two(n) + t) <==> m < n || (m == n && LexLess(s, t))
  {
    LexConcat(Two(m), Two(n), s, t);
    TwoOrder(m, n);
  }

  /** Comparing four-digit ISO strings as text compares the dates as days. */
  lemma IsoOrder(a: Civil, b: Civil)
    requires Valid(a) && Valid(b)
    ensures LexLess(Iso(a), Iso(b)) <==> ToDay(a) < ToDay(b)
    ensures Iso(a) == Iso(b) <==> ToDay(a) == ToDay(b)
  {
    var (a3, b3) := (Two(a.month) + ("-" + Two(a.day)), Two(b.month) + ("-" + Two(b.day)));
    TwoThen(a.year / 100, Two(a.year % 100) + ("-" + a3), b.year / 100, Two(b.year % 100) + ("-" + b3));
    TwoThen(a.year % 100, "-" + a3, b.year % 100, "-" + b3);
    DashOrder(a3, b3);
    TwoThen(a.month, "-" + Two(a.day), b.month, "-" + Two(b.day));
    DashOrder(Two(a.day), Two(b.day));
    TwoOrder(a.day, b.day);
    DayOrder(a, b);
    ParseIso(a);
    ParseIso(b);
  }

  // ----- moving by days -----

  function IsoDay(s: string): int
    requires IsIso(s)
  {
    ToDay(Parse(s))
  }

  lemma MakeDayShift(y: int, m0: int, d: int, n: int)
    ensures MakeDay(y, m0, d + n) == MakeDay(y, m0, d) + n
  {
  }

  lemma IsoBounds(s: string)
    requires IsIso(s)
    ensures FIRST_DAY <= IsoDay(s) <= LAST_DAY
  {
    ToDayBounds(Parse(s));
  }

  lemma MovedDay(s: string, n: int)
    requires IsIso(s)
    ensures var c := Parse(s); MakeDay(c.year, c.month - 1, c.day + n) == IsoDay(s) + n
  {
    hide DayFromYear, BeforeMonth;
    var c := Parse(s);
    MakeDayShift(c.year, c.month - 1, c.day, n);
  }

  /** setUTCDate(getUTCDate() + n): the day of the month may leave the month. */
  function AddDays(s: string, n: int): (r: string)
    requires IsIso(s)
    requires FIRST_DAY <= IsoDay(s) + n <= LAST_DAY
    ensures IsIso(r) && IsoDay(r) == IsoDay(s) + n
  {
    hide MakeDay, DayFromYear, BeforeMonth, Iso, IsIso, Valid, Parse;
    var c := Parse(s);
    MovedDay(s, n);
    var moved := FromDay(MakeDay(c.year, c.month - 1, c.day + n));
    ParseIso(moved);
    Iso(moved)
  }

  /** The string of a day is determined by the day. */
  lemma SameDaySameText(s: string, t: string)
    requires IsIso(s) && IsIso(t) && IsoDay(s) == IsoDay(t)
    ensures s == t
  {
    DayOrder(Parse(s), Parse(t));
    IsoParse(s);
    IsoParse(t);
  }

  lemma AddDaysComposes(s: string, m: int, n: int)
    requires IsIso(s)
    requires FIRST_DAY <= IsoDay(s) + m <= LAST_DAY
    requires FIRST_DAY <= IsoDay(s) + m + n <= LAST_DAY
    ensures AddDays(AddDays(s, m), n) == AddDays(s, m + n)
  {
    var t := AddDays(s, m);
    SameDaySameText(AddDays(t, n), AddDays(s, m + n));
  }

  lemma AddDaysUndone(s: string, n: int)
    requires IsIso(s) && FIRST_DAY <= IsoDay(s) + n <= LAST_DAY
    ensures FIRST_DAY <= IsoDay(s) <= LAST_DAY
    ensures AddDays(AddDays(s, n), -n) == s
  {
    ToDayBounds(Parse(s));
    var t := AddDays(s, n);
    SameDaySameText(AddDays(t, -n), s);
  }

  /** Tomorrow, by the rules of the wall calendar alone. */
  function Tomorrow(c: Civil): Civil {
    if c.day < DaysInMonth(c.year, c.month) then Civil(c.year, c.month, c.day + 1)
    else if c.month < 12 then Civil(c.year, c.month + 1, 1)
    else Civil(c.year + 1, 1, 1)
  }

  function Later(c: Civil, n: nat): Civil {
    if n == 0 then c else Tomorrow(Later(c, n - 1))
  }

  lemma NextInMonth(y: int, m: int, d: int)
    requires Valid(Civil(y, m, d)) && d < DaysInMonth(y, m)
    ensures ToDay(Civil(y, m, d + 1)) == ToDay(Civil(y, m, d)) + 1
  {
  }

  lemma NextMonth(y: int, m: int)
    requires 0 <= y <= 9999 && 1 <= m < 12
    ensures Valid(Civil(y, m, DaysInMonth(y, m))) && Valid(Civil(y, m + 1, 1))
    ensures ToDay(Civil(y, m + 1, 1)) == ToDay(Civil(y, m, DaysInMonth(y, m))) + 1
  {
    MakeDayInYear(y, m, DaysInMonth(y, m));
    MakeDayInYear(y, m + 1, 1);
    MonthStep(y, m);
  }

  lemma NewYear(y: int)
    requires 0 <= y < 9999
    ensures ToDay(Civil(y + 1, 1, 1)) == ToDay(Civil(y, 12, 31)) + 1
  {
    MakeDayInYear(y, 12, 31);
    MakeDayInYear(y + 1, 1, 1);
    YearStep(y);
  }

  lemma TomorrowIsNextDay(c: Civil)
    requires Valid(c) && c != Civil(9999, 12, 31)
    ensures Valid(Tomorrow(c)) && ToDay(Tomorrow(c)) == ToDay(c) + 1
  {
    hide ToDay;
    if c.day < DaysInMonth(c.year, c.month) {
      NextInMonth(c.year, c.month, c.day);
    } else if c.month < 12 {
      NextMonth(c.year, c.month);
    } else {
      NewYear(c.year);
    }
  }

  lemma YearEnd(y: int)
    requires 0 <= y <= 9999
    ensures ToDay(Civil(y, 12, 31)) == DayFromYear(y + 1) - 1
  {
    MakeDayInYear(y, 12, 31);
    YearStep(y);
  }

  /** 31 December 9999 is the last day a four-digit year can name. */
  lemma LastDate(c: Civil)
    requires Valid(c)
    ensures c == Civil(9999, 12, 31) <==> ToDay(c) == LAST_DAY
  {
    YearEnd(9999);
    DayOrder(c, Civil(9999, 12, 31));
  }

  lemma {:induction false} LaterDays(c: Civil, n: nat)
    requires Valid(c) && ToDay(c) + n <= LAST_DAY
    ensures Valid(Later(c, n)) && ToDay(Later(c, n)) == ToDay(c) + n
  {
    if n > 0 {
      LaterDays(c, n - 1);
      LastDate(Later(c, n - 1));
      TomorrowIsNextDay(Later(c, n - 1));
    }
  }

  /** addDays(s, n) is n calendar steps, across month, leap-day and year ends. */
  lemma AddDaysWalks(s: string, n: nat)
    requires IsIso(s) && IsoDay(s) + n <= LAST_DAY
    ensures FIRST_DAY <= IsoDay(s) && Valid(Later(Parse(s), n))
    ensures AddDays(s, n) == Iso(Later(Parse(s), n))
  {
    ToDayBounds(Parse(s));
    var e := Later(Parse(s), n);
    LaterDays(Parse(s), n);
    ParseIso(e);
    SameDaySameText(AddDays(s, n), Iso(e));
  }

  function MinIso(a: string, b: string): string {
    if LexLess(a, b) then a else b
  }

  function MaxIso(a: string, b: string): string {
    if LexLess(b, a) then a else b
  }

  /** minIso and maxIso pick the earlier and the later day. */
  lemma MinMaxIso(a: string, b: string)
    requires IsIso(a) && IsIso(b)
    ensures IsIso(MinIso(a, b)) && IsoDay(MinIso(a, b)) == Min(IsoDay(a), IsoDay(b))
    ensures IsIso(MaxIso(a, b)) && IsoDay(MaxIso(a, b)) == Max(IsoDay(a), IsoDay(b))
  {
    IsoTextOrder(a, b);
    IsoTextOrder(b, a);
  }

  lemma IsoTextOrder(a: string, b: string)
    requires IsIso(a) && IsIso(b)
    ensures LexLess(a, b) <==> IsoDay(a) < IsoDay(b)
  {
    IsoParse(a);
    IsoParse(b);
    IsoOrder(Parse(a), Parse(b));
  }

  /** FX_HISTORY_START, 2020-01-01. */
  const HISTORY_START := ToDay(Civil(2020, 1, 1))
}
