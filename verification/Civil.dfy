/**
 capa-x/src/api.rs: the date of a day number, against the proleptic Gregorian calendar (section 3.2.1 of ISO 8601:2004).
 */
module Civil {

  datatype Date = Date(year: int, month: int, day: int)

  // ---- the calendar ----

  predicate IsLeap(year: int) {
    year % 4 == 0 && (year % 100 != 0 || year % 400 == 0)
  }

  function DaysInMonth(year: int, month: int): int {
    if month == 2 then (if IsLeap(year) then 29 else 28)
    else if month in {4, 6, 9, 11} then 30
    else 31
  }

  predicate IsValid(date: Date) {
    1 <= date.month <= 12 && 1 <= date.day <= DaysInMonth(date.year, date.month)
  }

  function Next(date: Date): Date {
    if date.day < DaysInMonth(date.year, date.month) then date.(day := date.day + 1)
    else if date.month < 12 then Date(date.year, date.month + 1, 1)
    else Date(date.year + 1, 1, 1)
  }

  // ---- the algorithm ----

  /** Division that rounds toward zero. */
  function TruncatedDiv(a: int, b: nat): int
    requires b > 0
  {
    if a >= 0 then a / b else -(-a / b)
  }

  const DAYS_PER_ERA := 146097

  /** The 400-year era of a day counted from 0000-03-01. */
  function Era(z: int): int {
    TruncatedDiv(if z >= 0 then z else z - 146096, DAYS_PER_ERA)
  }

  function YearOfEra(doe: nat): int {
    (doe - doe / 1460 + doe / 36524 - doe / 146096) / 365
  }

  /** Month and day of a day of the year that begins on 1 March of year `y`. */
  function DateInYear(doy: int, y: int): Date {
    var mp := (5 * doy + 2) / 153;
    var d := doy - (153 * mp + 2) / 5 + 1;
    var m := if mp < 10 then mp + 3 else mp - 9;
    Date(if m <= 2 then y + 1 else y, m, d)
  }

  /** Day, month and year within an era. */
  function DateInEra(doe: nat, era: int): Date {
    var yoe := YearOfEra(doe);
    DateInYear(doe - (365 * yoe + yoe / 4 - yoe / 100), yoe + era * 400)
  }

  /** `civil_from_days`: the date `z` days after 1970-01-01. */
  function CivilFromDays(z: int): Date {
    var shifted := z + 719468;
    var era := Era(shifted);
    EraIsFloor(shifted);
    DateInEra(shifted - era * DAYS_PER_ERA, era)
  }

  lemma EraIsFloor(z: int)
    ensures Era(z) == z / DAYS_PER_ERA
    ensures 0 <= z - Era(z) * DAYS_PER_ERA < DAYS_PER_ERA
  {
  }

  // ---- years that begin in March ----

  /** The day of the era on which its year `y` begins. */
  function YearStart(y: int): int {
    365 * y + y / 4 - y / 100 + y / 400
  }

  /**
   A day of the era by century, four-year group and day of the group; the last day of the era ends its last century.
   */
  lemma SplitDay(doe: nat) returns (c: int, f: int, s: int)
    requires doe < DAYS_PER_ERA
    ensures 0 <= c <= 3 && 0 <= f <= 24 && 0 <= s <= 1460
    ensures doe == 36524 * c + 1461 * f + s
    ensures f == 24 && s == 1460 ==> c == 3
    ensures doe / 36524 - doe / 146096 == c
  {
    c := if doe == 146096 then 3 else doe / 36524;
    f := (doe - 36524 * c) / 1461;
    s := doe - 36524 * c - 1461 * f;
  }

  /** Which of the four years of a group a day falls in. */
  function YearOfGroup(s: int): int {
    if s < 365 then 0 else if s < 730 then 1 else if s < 1095 then 2 else 3
  }

  lemma YearOfSplitDay(doe: nat, c: int, f: int, s: int)
    requires 0 <= c <= 3 && 0 <= f <= 24 && 0 <= s <= 1460 && doe == 36524 * c + 1461 * f + s
    requires doe / 36524 - doe / 146096 == c
    ensures YearOfEra(doe) == 100 * c + 4 * f + YearOfGroup(s)
  {
    var extra := if 24 * c + f + s >= 1460 then 1 else 0;
    assert doe == 1460 * (25 * c + f + extra) + (24 * c + f + s - 1460 * extra);
    assert doe / 1460 == 25 * c + f + extra;
    var numerator := doe - doe / 1460 + doe / 36524 - doe / 146096;
    var rest := s - extra - 365 * YearOfGroup(s);
    assert numerator == 365 * (100 * c + 4 * f + YearOfGroup(s)) + rest;
    assert 0 <= rest < 365;
  }

  lemma StartOfSplitYear(c: int, f: int, a: int)
    requires 0 <= c <= 3 && 0 <= f <= 24 && 0 <= a <= 3
    ensures YearStart(100 * c + 4 * f + a) == 36524 * c + 1461 * f + 365 * a
  {
    var y := 100 * c + 4 * f + a;
    assert y / 4 == 25 * c + f && y / 100 == c && y / 400 == 0;
  }

  /** The year of the era is the one whose days include `doe`. */
  lemma YearOfEraIsRight(doe: nat)
    requires doe < DAYS_PER_ERA
    ensures 0 <= YearOfEra(doe) <= 399
    ensures YearStart(YearOfEra(doe)) <= doe < YearStart(YearOfEra(doe) + 1)
  {
    var c, f, s := SplitDay(doe);
    var a := YearOfGroup(s);
    YearOfSplitDay(doe, c, f, s);
    StartOfSplitYear(c, f, a);
    if a < 3 {
      StartOfSplitYear(c, f, a + 1);
    } else if f < 24 {
      StartOfSplitYear(c, f + 1, 0);
    } else if c < 3 {
      StartOfSplitYear(c + 1, 0, 0);
    }
  }

  // ---- day numbers of dates ----

  function DaysBeforeYear(year: int): int {
    365 * (year - 1) + (year - 1) / 4 - (year - 1) / 100 + (year - 1) / 400
  }

  function DaysBeforeMonth(year: int, month: int): int {
    if month <= 1 then 0 else DaysBeforeMonth(year, month - 1) + DaysInMonth(year, month - 1)
  }

  /** The day number of a date, counted year by year and month by month. */
  function DaysFromCivil(date: Date): int {
    DaysBeforeYear(date.year) + DaysBeforeMonth(date.year, date.month) + date.day - 1 - 719162
  }

  lemma YearLength(year: int)
    ensures DaysBeforeYear(year + 1) == DaysBeforeYear(year) + (if IsLeap(year) then 366 else 365)
    ensures YearStart(year) == DaysBeforeYear(year + 1)
  {
    assert year / 4 - (year - 1) / 4 == if year % 4 == 0 then 1 else 0;
    assert year / 100 - (year - 1) / 100 == if year % 100 == 0 then 1 else 0;
    assert year / 400 - (year - 1) / 400 == if year % 400 == 0 then 1 else 0;
    Multiples(year);
  }

  lemma Multiples(year: int)
    ensures year % 400 == 0 ==> year % 100 == 0
    ensures year % 100 == 0 ==> year % 4 == 0
  {
    FourHundreds(year / 400);
    Hundreds(year / 100);
  }

  lemma FourHundreds(k: int)
    ensures (400 * k) % 100 == 0
  {
    assert 400 * k == 100 * (4 * k);
  }

  lemma Hundreds(k: int)
    ensures (100 * k) % 4 == 0
  {
    assert 100 * k == 4 * (25 * k);
  }

  lemma {:induction false} MonthTable(year: int, month: int)
    requires 1 <= month <= 13
    ensures var leap := if IsLeap(year) then 1 else 0;
            DaysBeforeMonth(year, month)
            == if month == 1 then 0 else if month == 2 then 31 else 59 + leap + (153 * (month - 3) + 2) / 5
  {
    if month > 1 {
      MonthTable(year, month - 1);
    }
  }

  /** The calendar's own count: the next date has the next day number. */
  lemma NextDayNumber(date: Date)
    requires IsValid(date)
    ensures IsValid(Next(date)) && DaysFromCivil(Next(date)) == DaysFromCivil(date) + 1
  {
    MonthTable(date.year, 13);
    YearLength(date.year);
  }

  // ---- the algorithm is exact ----

  /** The days of a March year: month and day follow from the table of month lengths. */
  lemma MonthOfYear(doy: int, y: int)
    requires 0 <= doy < (if IsLeap(y + 1) then 366 else 365)
    ensures IsValid(DateInYear(doy, y))
    ensures DaysFromCivil(DateInYear(doy, y)) == YearStart(y) + doy - 719468
  {
    var mp := (5 * doy + 2) / 153;
    var m := if mp < 10 then mp + 3 else mp - 9;
    YearLength(y);
    MonthTable(y, m);
    MonthTable(y + 1, m);
    assert 0 <= mp <= 11;
  }

  lemma EraShift(y: int, era: int)
    ensures YearStart(y + era * 400) == YearStart(y) + era * DAYS_PER_ERA
    ensures IsLeap(y + era * 400) <==> IsLeap(y)
  {
    var shifted := y + era * 400;
    assert shifted / 4 == y / 4 + 100 * era && shifted % 4 == y % 4;
    assert shifted / 100 == y / 100 + 4 * era && shifted % 100 == y % 100;
    assert shifted / 400 == y / 400 + era && shifted % 400 == y % 400;
  }

  /** The day of the year lies within its year. */
  lemma DayOfYear(doe: nat, era: int)
    requires doe < DAYS_PER_ERA
    ensures var yoe := YearOfEra(doe);
            var doy := doe - (365 * yoe + yoe / 4 - yoe / 100);
            && 0 <= doy < (if IsLeap(yoe + era * 400 + 1) then 366 else 365)
            && YearStart(yoe + era * 400) + doy == doe + era * DAYS_PER_ERA
  {
    var yoe := YearOfEra(doe);
    YearOfEraIsRight(doe);
    assert yoe / 400 == 0;
    YearLength(yoe + 1);
    EraShift(yoe, era);
    EraShift(yoe + 1, era);
    assert YearStart(yoe + 1) == DaysBeforeYear(yoe + 2) && YearStart(yoe) == DaysBeforeYear(yoe + 1) by {
      YearLength(yoe);
    }
  }

  lemma DateInEraIsExact(doe: nat, era: int)
    requires doe < DAYS_PER_ERA
    ensures IsValid(DateInEra(doe, era)) && DaysFromCivil(DateInEra(doe, era)) == doe + era * DAYS_PER_ERA - 719468
  {
    var yoe := YearOfEra(doe);
    var doy, y := doe - (365 * yoe + yoe / 4 - yoe / 100), yoe + era * 400;
    DayOfYear(doe, era);
    MonthOfYear(doy, y);
    assert DateInEra(doe, era) == DateInYear(doy, y);
  }

  /** For every integer day number the result is a valid date with that day number. */
  lemma CivilIsExact(z: int)
    ensures IsValid(CivilFromDays(z)) && DaysFromCivil(CivilFromDays(z)) == z
  {
    var shifted := z + 719468;
    EraIsFloor(shifted);
    var era := Era(shifted);
    var doe := shifted - era * DAYS_PER_ERA;
    DateInEraIsExact(doe, era);
    assert CivilFromDays(z) == DateInEra(doe, era);
  }

  lemma {:induction false} YearsGrow(a: int, b: int)
    requires a <= b
    ensures DaysBeforeYear(a) <= DaysBeforeYear(b)
    decreases b - a
  {
    if a < b {
      YearsGrow(a, b - 1);
      YearLength(b - 1);
    }
  }

  lemma {:induction false} MonthsGrow(year: int, a: int, b: int)
    requires 1 <= a <= b
    ensures DaysBeforeMonth(year, a) <= DaysBeforeMonth(year, b)
    decreases b - a
  {
    if a < b {
      MonthsGrow(year, a, b - 1);
    }
  }

  lemma LaterYearIsLater(a: Date, b: Date)
    requires IsValid(a) && IsValid(b) && a.year < b.year
    ensures DaysFromCivil(a) < DaysFromCivil(b)
  {
    MonthTable(a.year, 13);
    MonthsGrow(a.year, a.month + 1, 13);
    MonthsGrow(b.year, 1, b.month);
    YearLength(a.year);
    YearsGrow(a.year + 1, b.year);
  }

  lemma LaterMonthIsLater(a: Date, b: Date)
    requires IsValid(a) && IsValid(b) && a.year == b.year && a.month < b.month
    ensures DaysFromCivil(a) < DaysFromCivil(b)
  {
    MonthsGrow(a.year, a.month + 1, b.month);
  }

  /** No two valid dates have the same day number. */
  lemma DayNumbersDiffer(a: Date, b: Date)
    requires IsValid(a) && IsValid(b) && DaysFromCivil(a) == DaysFromCivil(b)
    ensures a == b
  {
    if a.year < b.year {
      LaterYearIsLater(a, b);
    } else if b.year < a.year {
      LaterYearIsLater(b, a);
    } else if a.month < b.month {
      LaterMonthIsLater(a, b);
    } else if b.month < a.month {
      LaterMonthIsLater(b, a);
    }
  }

  /** The algorithm inverts the calendar's count: every valid date is found from its day number. */
  lemma CivilInverts(date: Date)
    requires IsValid(date)
    ensures CivilFromDays(DaysFromCivil(date)) == date
  {
    CivilIsExact(DaysFromCivil(date));
    DayNumbersDiffer(CivilFromDays(DaysFromCivil(date)), date);
  }

  lemma EpochIsDayZero()
    ensures IsValid(Date(1970, 1, 1)) && DaysFromCivil(Date(1970, 1, 1)) == 0
  {
  }

  lemma NextIsDetermined(a: Date, b: Date)
    requires IsValid(a) && IsValid(b) && DaysFromCivil(b) == DaysFromCivil(a) + 1
    ensures b == Next(a)
  {
    NextDayNumber(a);
    DayNumbersDiffer(b, Next(a));
  }

  /** Day 0 is 1970-01-01, and the next day is the next date: this alone fixes every result. */
  lemma CivilCounts(z: int)
    ensures CivilFromDays(0) == Date(1970, 1, 1)
    ensures CivilFromDays(z + 1) == Next(CivilFromDays(z))
  {
    EpochIsDayZero();
    CivilInverts(Date(1970, 1, 1));
    CivilIsExact(z);
    CivilIsExact(z + 1);
    NextIsDetermined(CivilFromDays(z), CivilFromDays(z + 1));
  }
}
