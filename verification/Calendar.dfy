/** Day numbers: the closed form from a date, and the estimate that is corrected on the way back. */
module Calendar {
  import opened Arithmetic

  /** The C operator, which truncates towards zero. */
  function TDiv(a: int, b: int): int
    requires b > 0
  {
    if a >= 0 then a / b else -((-a) / b)
  }

  const DAYS_IN_MONTH: seq<nat> := [31, 28, 31, 30, 31, 30, 31, 31, 30, 31, 30, 31, 0]

  /** calc_days_in_year */
  function DaysInYear(y: nat): nat {
    if y % 4 == 0 && (y % 100 != 0 || (y % 400 == 0 && y != 0)) then 366 else 365
  }

  /** calc_daynr */
  function CalcDaynr(year: nat, month: nat, day: nat): int {
    if year == 0 && month == 0 then 0
    else
      var y := if month <= 2 then year - 1 else year;
      var delsum := 365 * year + 31 * (month - 1) + day - if month <= 2 then 0 else (month * 4 + 23) / 10;
      delsum + TDiv(y, 4) - TDiv((TDiv(y, 100) + 1) * 3, 4)
  }

  function MonthDays(y: nat, m: nat): nat
    requires 1 <= m <= 12
  {
    if m == 2 && DaysInYear(y) == 366 then 29 else DAYS_IN_MONTH[m - 1]
  }

  predicate ValidDate(y: nat, m: nat, d: nat) {
    y >= 1 && 1 <= m <= 12 && 1 <= d <= MonthDays(y, m)
  }

  // ---------- years ----------

  /** The day number before the first of January. */
  function YearStart(y: nat): int
    requires y >= 1
  {
    365 * y + (y - 1) / 4 - ((y - 1) / 100 + 1) * 3 / 4
  }

  /** A year has a day more just when the closed form has. */
  lemma NextYear(y: nat)
    requires y >= 1
    ensures YearStart(y + 1) == YearStart(y) + DaysInYear(y)
  {
    Fours(y);
    Hundreds(y);
    var k := y / 100;
    if y % 100 == 0 {
      Centuries(k);
      FourHundreds(y);
    }
  }

  lemma Fours(y: nat)
    requires y >= 1
    ensures y / 4 == (y - 1) / 4 + if y % 4 == 0 then 1 else 0
  {
  }

  lemma Hundreds(y: nat)
    requires y >= 1
    ensures y / 100 == (y - 1) / 100 + if y % 100 == 0 then 1 else 0
    ensures y % 100 == 0 ==> y % 4 == 0
  {
    var q, r := (y - 1) / 100, (y - 1) % 100;
    if r == 99 {
      DivMod(y, q + 1, 100, 0);
      DivMod(y, 25 * (q + 1), 4, 0);
    } else {
      DivMod(y, q, 100, r + 1);
    }
  }

  lemma Centuries(k: nat)
    requires k >= 1
    ensures (k + 1) * 3 / 4 - k * 3 / 4 == if k % 4 == 0 then 0 else 1
  {
    var q, r := k / 4, k % 4;
    assert k == 4 * q + r;
    assert k * 3 == 4 * (3 * q) + 3 * r && (k + 1) * 3 == 4 * (3 * q) + 3 * r + 3;
  }

  lemma FourHundreds(y: nat)
    requires y % 100 == 0
    ensures y % 400 == 0 <==> y / 100 % 4 == 0
  {
    var k := y / 100;
    assert y == 100 * k && k == 4 * (k / 4) + k % 4;
    assert y == 400 * (k / 4) + 100 * (k % 4);
  }

  lemma {:induction false} YearsGrow(y: nat, z: nat)
    requires 1 <= y < z
    ensures YearStart(z) >= YearStart(y) + DaysInYear(y)
    decreases z
  {
    hide YearStart, DaysInYear;
    if z == y + 1 {
      NextYear(y);
    } else {
      YearsGrow(y, z - 1);
      NextYear(z - 1);
      AYear(z - 1);
    }
  }

  lemma AYear(y: nat)
    ensures 365 <= DaysInYear(y) <= 366
  {
  }

  // ---------- months ----------

  function DaysBefore(y: nat, m: nat): nat
    requires 1 <= m <= 13
  {
    if m == 1 then 0 else DaysBefore(y, m - 1) + MonthDays(y, m - 1)
  }

  /** The days before a month: 31 for each, less what calc_daynr takes off behind February. */
  lemma {:induction false} DaysBeforeIs(y: nat, m: nat)
    requires 1 <= m <= 13
    ensures DaysBefore(y, m) == 31 * (m - 1) - if m <= 2 then 0 else (m * 4 + 23) / 10 - (DaysInYear(y) - 365)
    ensures DaysBefore(y, 13) == DaysInYear(y) || m < 13
    decreases m
  {
    AYear(y);
    hide DaysInYear;
    if m > 1 { DaysBeforeIs(y, m - 1); }
  }

  lemma {:induction false} MonthsGrow(y: nat, m: nat, n: nat)
    requires 1 <= m < n <= 13
    ensures DaysBefore(y, n) >= DaysBefore(y, m) + MonthDays(y, m)
    decreases n
  {
    hide MonthDays;
    if n > m + 1 { MonthsGrow(y, m, n - 1); }
  }

  /** The closed form counts the days of the years and months before. */
  lemma DaynrIs(y: nat, m: nat, d: nat)
    requires y >= 1 && 1 <= m <= 12
    ensures CalcDaynr(y, m, d) == YearStart(y) + DaysBefore(y, m) + d
  {
    DaysBeforeIs(y, m);
    NextYear(y);
    hide DaysInYear, DaysBefore;
  }

  lemma YearBounds(y: nat, m: nat, d: nat)
    requires ValidDate(y, m, d)
    ensures YearStart(y) < CalcDaynr(y, m, d) <= YearStart(y) + DaysInYear(y)
    ensures 1 <= DaysBefore(y, m) + d <= DaysInYear(y)
  {
    DaynrIs(y, m, d);
    DaysBeforeIs(y, 13);
    MonthsGrow(y, m, 13);
    hide YearStart, CalcDaynr, DaysBefore, DaysInYear, MonthDays;
  }

  /** Different dates have different day numbers. */
  lemma DateIsUnique(y: nat, m: nat, d: nat, y': nat, m': nat, d': nat)
    requires ValidDate(y, m, d) && ValidDate(y', m', d') && CalcDaynr(y, m, d) == CalcDaynr(y', m', d')
    ensures y == y' && m == m' && d == d'
  {
    YearBounds(y, m, d);
    YearBounds(y', m', d');
    DaynrIs(y, m, d);
    DaynrIs(y', m', d');
    hide YearStart, CalcDaynr, DaysBefore, DaysInYear, MonthDays;
    if y < y' { YearsGrow(y, y'); } else if y' < y { YearsGrow(y', y); }
    if m < m' { MonthsGrow(y, m, m'); } else if m' < m { MonthsGrow(y, m', m); }
  }

  // ---------- from a day number to its date ----------

  /** The estimate is never too late. */
  lemma Estimate(daynr: nat, e: nat)
    requires daynr > 365 && e == daynr * 100 / 36525
    ensures e >= 1 && YearStart(e) < daynr
  {
    assert 36525 * e <= daynr * 100;
    var q, r := (e - 1) / 4, (e - 1) % 4;
    assert e == 4 * q + r + 1;
    assert ((e - 1) / 100 + 1) * 3 / 4 >= 0;
  }

  /** The year a day is in, and its place in the year. */
  method YearOf(daynr: nat) returns (year: nat, dayOfYear: nat)
    requires daynr > 365
    ensures year >= 1 && 1 <= dayOfYear <= DaysInYear(year) && daynr == YearStart(year) + dayOfYear
  {
    year := daynr * 100 / 36525;
    Estimate(daynr, year);
    var temp := ((year - 1) / 100 + 1) * 3 / 4;
    dayOfYear := daynr - year * 365 - (year - 1) / 4 + temp;
    var daysInYear := DaysInYear(year);
    while dayOfYear > daysInYear
      invariant year >= 1 && dayOfYear >= 1 && daynr == YearStart(year) + dayOfYear && daysInYear == DaysInYear(year)
      decreases dayOfYear
    {
      NextYear(year);
      AYear(year);
      dayOfYear := dayOfYear - daysInYear;
      year := year + 1;
      daysInYear := DaysInYear(year);
    }
  }

  /** The date of any day after year 0, for years without bound. */
  method DateOf(daynr: nat) returns (year: nat, month: nat, day: nat)
    requires daynr > 365
    ensures ValidDate(year, month, day) && CalcDaynr(year, month, day) == daynr
  {
    var dayOfYear;
    year, dayOfYear := YearOf(daynr);
    hide YearStart;
    ghost var n := dayOfYear;
    var leapDay := 0;
    if DaysInYear(year) == 366 {
      if dayOfYear > 31 + 28 {
        dayOfYear := dayOfYear - 1;
        if dayOfYear == 31 + 28 { leapDay := 1; }
      }
    }
    month := 1;
    CommonYear(13);
    while dayOfYear > DAYS_IN_MONTH[month - 1]
      invariant 1 <= month <= 12 && dayOfYear >= 1
      invariant dayOfYear + CommonBefore(month) == n - if DaysInYear(year) == 366 && n > 59 then 1 else 0
      decreases dayOfYear
    {
      CommonYear(month + 1);
      dayOfYear := dayOfYear - DAYS_IN_MONTH[month - 1];
      month := month + 1;
    }
    day := dayOfYear + leapDay;
    CommonYear(month);
    DateFound(year, month, day, n, leapDay, dayOfYear);
    DaynrIs(year, month, day);
  }

  /** The days before a month of a year without a leap day. */
  function CommonBefore(m: nat): int {
    31 * (m - 1) - if m <= 2 then 0 else (m * 4 + 23) / 10
  }

  lemma CommonYear(m: nat)
    ensures CommonBefore(13) == 365
    ensures 2 <= m <= 13 ==> CommonBefore(m) == CommonBefore(m - 1) + DAYS_IN_MONTH[m - 2]
    ensures 1 <= m <= 2 ==> CommonBefore(m) <= 31
    ensures 3 <= m <= 13 ==> CommonBefore(m) >= 59
  {
  }

  lemma DateFound(year: nat, month: nat, day: nat, n: nat, leapDay: nat, dayOfYear: nat)
    requires 1 <= month <= 12 && 1 <= dayOfYear <= DAYS_IN_MONTH[month - 1] && day == dayOfYear + leapDay && year >= 1
    requires var l := DaysInYear(year) == 366;
             && dayOfYear + CommonBefore(month) == n - (if l && n > 59 then 1 else 0)
             && leapDay == if l && n == 60 then 1 else 0
    ensures ValidDate(year, month, day) && DaysBefore(year, month) + day == n
  {
    DaysBeforeIs(year, month);
    CommonYear(month);
    AYear(year);
    hide DaysBefore, DaysInYear;
  }

  /** get_date_from_daynr: a date up to the end of year 9999, or zeros. */
  method GetDateFromDaynr(daynr: int) returns (year: nat, month: nat, day: nat)
    ensures 365 < daynr < 3652500 ==> ValidDate(year, month, day) && CalcDaynr(year, month, day) == daynr
    ensures !(365 < daynr < 3652500) ==> year == 0 && month == 0 && day == 0
  {
    if daynr <= 365 || daynr >= 3652500 {
      return 0, 0, 0;
    }
    year, month, day := DateOf(daynr);
  }

  /** calc_daynr and back. */
  method ThereAndBack(y: nat, m: nat, d: nat) returns (year: nat, month: nat, day: nat)
    requires ValidDate(y, m, d)
    ensures (year == y && month == m && day == d) <==> CalcDaynr(y, m, d) < 3652500
  {
    YearBounds(y, m, d);
    FirstYear(y);
    year, month, day := GetDateFromDaynr(CalcDaynr(y, m, d));
    if CalcDaynr(y, m, d) < 3652500 { DateIsUnique(y, m, d, year, month, day); }
  }

  lemma FirstYear(y: nat)
    requires y >= 1
    ensures YearStart(y) >= 365
  {
    if y > 1 {
      YearsGrow(1, y);
    }
  }

  /** The last day of year 9999 is the largest number a date up to then has. */
  lemma LastDay(y: nat, m: nat, d: nat)
    requires ValidDate(y, m, d)
    ensures CalcDaynr(9999, 12, 31) == 3652424 && (y <= 9999 <==> CalcDaynr(y, m, d) <= 3652424)
  {
    YearBounds(y, m, d);
    NextYear(9999);
    if y < 10000 {
      if y < 9999 { YearsGrow(y, 9999); }
    } else if y > 10000 {
      YearsGrow(10000, y);
    }
    hide CalcDaynr;
    assert YearStart(10000) == 3652424;
  }
}
