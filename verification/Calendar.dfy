/**
 Civil dates and day numbers: the closed forms of systemd-analyze, in both directions, and the
 year-and-month counting loop of coredumpctl.  All three are one bijection between the integers
 and the dates of the proleptic Gregorian calendar.
 */
module Calendar {
  import opened Division

  datatype Date = Date(year: int, month: int, day: int)

  // ---------- the calendar itself ----------

  predicate IsLeapYear(y: int) { (y % 4 == 0 && y % 100 != 0) || y % 400 == 0 }

  function DaysInYear(y: int): int { if IsLeapYear(y) then 366 else 365 }

  function DaysInMonth(y: int, m: int): int
  {
    if m == 2 then (if IsLeapYear(y) then 29 else 28) else if m == 4 || m == 6 || m == 9 || m == 11 then 30 else 31
  }

  predicate Valid(d: Date) { 1 <= d.month <= 12 && 1 <= d.day <= DaysInMonth(d.year, d.month) }

  function NextDate(d: Date): Date
  {
    if d.day < DaysInMonth(d.year, d.month) then d.(day := d.day + 1)
    else if d.month < 12 then Date(d.year, d.month + 1, 1)
    else Date(d.year + 1, 1, 1)
  }

  // ---------- the closed forms ----------

  /** Division that truncates toward zero, as the original's integers do. */
  function TruncatedDiv(a: int, b: int): int
    requires b > 0
  {
    if a >= 0 then a / b else -(-a / b)
  }

  /** Days before year `yoe` of a 400-year era, years counted from March. */
  function DaysBeforeYear(yoe: int): int { yoe * 365 + yoe / 4 - yoe / 100 }

  /** Days before month `mp` of a year counted from March, `mp` 0 for March. */
  function DaysBeforeMonth(mp: int): int { (153 * mp + 2) / 5 }

  function DaysFromCivil(date: Date): int
  {
    var y := if date.month <= 2 then date.year - 1 else date.year;
    var m := if date.month <= 2 then date.month + 9 else date.month - 3;
    var era := TruncatedDiv(if y >= 0 then y else y - 399, 400);
    var yoe := y - era * 400;
    var doy := DaysBeforeMonth(m) + date.day - 1;
    var doe := DaysBeforeYear(yoe) + doy;
    era * 146097 + doe - 719468
  }

  function YearOfEra(doe: int): int { (doe - doe / 1460 + doe / 36524 - doe / 146096) / 365 }

  function CivilFromDays(days: int): Date
  {
    var z := days + 719468;
    var era := TruncatedDiv(if z >= 0 then z else z - 146096, 146097);
    var doe := z - era * 146097;
    var yoe := YearOfEra(doe);
    var doy := doe - DaysBeforeYear(yoe);
    var mp := (5 * doy + 2) / 153;
    var d := doy - DaysBeforeMonth(mp) + 1;
    var m := if mp < 10 then mp + 3 else mp - 9;
    var y := yoe + era * 400;
    Date(if m <= 2 then y + 1 else y, m, d)
  }

  // ---------- the era arithmetic ----------

  /** The truncating era computation is a floor division, negative years included. */
  lemma EraIsFloor(y: int, size: int)
    requires size > 0
    ensures TruncatedDiv(if y >= 0 then y else y - (size - 1), size) == y / size
  {
    if y < 0 {
      var a := size - 1 - y;
      var q := a / size;
      assert a == q * size + a % size;
      assert y == -q * size + (size - 1 - a % size);
      QuotientUnique(y, size, -q, size - 1 - a % size);
    }
  }

  /**
   A day of the era given as century `c`, four-year cycle `q`, year `y` of the cycle and day `doy`
   of the year: the closed form finds the year.
   */
  lemma YearOfEraFinds(c: int, q: int, y: int, doy: int)
    requires 0 <= c < 4 && 0 <= q < 25 && 0 <= y < 4 && 0 <= doy
    requires doy < 365 || (doy == 365 && y == 3 && (q < 24 || c == 3))
    ensures var yoe, doe := 100 * c + 4 * q + y, 36524 * c + 1461 * q + 365 * y + doy;
      YearOfEra(doe) == yoe && doe == DaysBeforeYear(yoe) + doy && 0 <= doe < 146097
  {
    var s := 365 * y + doy;
    var doe := 36524 * c + 1461 * q + s;
    var last := if doe == 146096 then 1 else 0;
    var e := if 24 * c + q + s >= 1460 then 1 else 0;
    assert doe / 1460 == 25 * c + q + e by {
      QuotientUnique(doe, 1460, 25 * c + q + e, 24 * c + q + s - 1460 * e);
    }
    assert doe / 36524 == c + last by {
      QuotientUnique(doe, 36524, c + last, 1461 * q + s - 36524 * last);
    }
    assert doe / 146096 == last;
    assert doe - doe / 1460 + doe / 36524 - doe / 146096 == 365 * (100 * c + 4 * q + y) + (doy - e);
    QuotientUnique(365 * (100 * c + 4 * q + y) + (doy - e), 365, 100 * c + 4 * q + y, doy - e);
    var yoe := 100 * c + 4 * q + y;
    QuotientUnique(yoe, 4, 25 * c + q, y);
    QuotientUnique(yoe, 100, c, 4 * q + y);
  }

  /** The same coordinates of any day of the era. */
  lemma DayOfEra(doe: int) returns (c: int, q: int, y: int, doy: int)
    requires 0 <= doe < 146097
    ensures 0 <= c < 4 && 0 <= q < 25 && 0 <= y < 4 && 0 <= doy
    ensures doy < 365 || (doy == 365 && y == 3 && (q < 24 || c == 3))
    ensures doe == 36524 * c + 1461 * q + 365 * y + doy
  {
    c := if doe == 146096 then 3 else doe / 36524;
    var r := doe - 36524 * c;
    q := r / 1461;
    var s := r - 1461 * q;
    y := if s == 1460 then 3 else s / 365;
    doy := s - 365 * y;
  }

  /** The month formula and its inverse, over the days of a year counted from March. */
  lemma MonthOfDay(doy: int)
    requires 0 <= doy <= 365
    ensures var mp := (5 * doy + 2) / 153;
      0 <= mp < 12 && DaysBeforeMonth(mp) <= doy < DaysBeforeMonth(mp + 1)
  {
  }

  lemma DayInMonth(mp: int, day: int)
    requires 0 <= mp < 12 && 1 <= day <= DaysBeforeMonth(mp + 1) - DaysBeforeMonth(mp)
    ensures (5 * (DaysBeforeMonth(mp) + day - 1) + 2) / 153 == mp
  {
  }

  // ---------- one bijection ----------

  /** The closed form with floor division for the era. */
  lemma CivilUnfolds(n: int, era: int, doe: int)
    requires n + 719468 == era * 146097 + doe && 0 <= doe < 146097
    ensures var yoe := YearOfEra(doe);
      var doy := doe - DaysBeforeYear(yoe);
      var mp := (5 * doy + 2) / 153;
      CivilFromDays(n) == Date(yoe + era * 400 + (if mp < 10 then 0 else 1), if mp < 10 then mp + 3 else mp - 9,
                               doy - DaysBeforeMonth(mp) + 1)
  {
    hide YearOfEra, DaysBeforeYear, DaysBeforeMonth, TruncatedDiv;
    EraIsFloor(n + 719468, 146097);
    QuotientUnique(n + 719468, 146097, era, doe);
    MonthIndexBound(doe);
  }

  lemma MonthIndexBound(doe: int)
    requires 0 <= doe < 146097
    ensures 0 <= (5 * (doe - DaysBeforeYear(YearOfEra(doe))) + 2) / 153 < 12
  {
    var c, q, y, doy := DayOfEra(doe);
    YearOfEraFinds(c, q, y, doy);
    hide YearOfEra, DaysBeforeYear;
    MonthOfDay(doy);
  }

  /** The closed form by coordinates: era, century, cycle, year, month and day of the month. */
  lemma CivilOfCoordinates(era: int, c: int, q: int, y: int, mp: int, day: int)
    requires 0 <= c < 4 && 0 <= q < 25 && 0 <= y < 4
    requires 0 <= mp < 12 && 1 <= day <= DaysBeforeMonth(mp + 1) - DaysBeforeMonth(mp)
    requires var doy := DaysBeforeMonth(mp) + day - 1;
      0 <= doy && (doy < 365 || (doy == 365 && y == 3 && (q < 24 || c == 3)))
    ensures var yoe := 100 * c + 4 * q + y;
      CivilFromDays(era * 146097 + DaysBeforeYear(yoe) + DaysBeforeMonth(mp) + day - 1 - 719468)
      == Date(era * 400 + yoe + (if mp < 10 then 0 else 1), if mp < 10 then mp + 3 else mp - 9, day)
  {
    hide CivilFromDays, YearOfEra, DaysBeforeYear, DaysBeforeMonth;
    var doy := DaysBeforeMonth(mp) + day - 1;
    YearOfEraFinds(c, q, y, doy);
    DayInMonth(mp, day);
    var doe := DaysBeforeYear(100 * c + 4 * q + y) + doy;
    CivilUnfolds(era * 146097 + doe - 719468, era, doe);
  }

  /** A month counted from March has the length the calendar gives it. */
  lemma MonthLength(date: Date)
    requires 1 <= date.month <= 12
    ensures var mp := if date.month <= 2 then date.month + 9 else date.month - 3;
      && (mp < 11 ==> DaysInMonth(date.year, date.month) == DaysBeforeMonth(mp + 1) - DaysBeforeMonth(mp))
      && (mp == 11 ==> DaysInMonth(date.year, date.month)
                       == DaysBeforeMonth(12) - DaysBeforeMonth(11) - (if IsLeapYear(date.year) then 1 else 2))
      && 0 <= DaysBeforeMonth(mp) && (mp < 11 ==> DaysBeforeMonth(mp + 1) <= 337)
      && DaysBeforeMonth(11) == 337 && DaysBeforeMonth(12) == 367
  {
  }

  /** The other closed form with floor division for the era. */
  lemma DaysUnfold(date: Date, era: int, yoe: int)
    requires (if date.month <= 2 then date.year - 1 else date.year) == era * 400 + yoe && 0 <= yoe < 400
    ensures var mp := if date.month <= 2 then date.month + 9 else date.month - 3;
      DaysFromCivil(date) == era * 146097 + DaysBeforeYear(yoe) + DaysBeforeMonth(mp) + date.day - 1 - 719468
  {
    hide DaysBeforeYear, DaysBeforeMonth, TruncatedDiv;
    EraIsFloor(era * 400 + yoe, 400);
    QuotientUnique(era * 400 + yoe, 400, era, yoe);
  }

  /** Every date is the date of its day number. */
  lemma CivilOfDays(date: Date)
    requires Valid(date)
    ensures CivilFromDays(DaysFromCivil(date)) == date
  {
    hide DaysFromCivil, CivilFromDays, DaysBeforeYear, DaysBeforeMonth, DaysInMonth, IsLeapYear;
    var Date(year, month, day) := date;
    var y := if month <= 2 then year - 1 else year;
    var mp := if month <= 2 then month + 9 else month - 3;
    var era, yoe := y / 400, y % 400;
    var c, q, k := yoe / 100, yoe % 100 / 4, yoe % 4;
    assert yoe == 100 * c + 4 * q + k;
    DaysUnfold(date, era, yoe);
    MonthLength(date);
    LeapByCoordinates(era, c, q, k);
    CivilOfCoordinates(era, c, q, k, mp, day);
  }

  /** The calendar year that ends a March year is leap just when the March year is the last of its cycle. */
  lemma LeapByCoordinates(era: int, c: int, q: int, y: int)
    requires 0 <= c < 4 && 0 <= q < 25 && 0 <= y < 4
    ensures IsLeapYear(era * 400 + 100 * c + 4 * q + y + 1) <==> y == 3 && (q < 24 || c == 3)
  {
    var n := era * 400 + 100 * c + 4 * q + y + 1;
    var k, m := if y < 3 then y + 1 else 0, 4 * q + y + 1;
    var h := if m < 100 then m else 0;
    QuotientUnique(n, 4, 100 * era + 25 * c + q + (if y < 3 then 0 else 1), k);
    QuotientUnique(n, 100, 4 * era + c + (if m < 100 then 0 else 1), h);
    var f := 100 * c + m;
    QuotientUnique(n, 400, era + (if f < 400 then 0 else 1), if f < 400 then f else 0);
  }

  /** Every day number is the day number of its date, which exists. */
  lemma DaysOfCivil(n: int)
    ensures Valid(CivilFromDays(n)) && DaysFromCivil(CivilFromDays(n)) == n
  {
    hide DaysFromCivil, CivilFromDays, YearOfEra, DaysBeforeYear, DaysBeforeMonth, DaysInMonth, IsLeapYear;
    var era, doe := (n + 719468) / 146097, (n + 719468) % 146097;
    var c, q, y, doy := DayOfEra(doe);
    var yoe := 100 * c + 4 * q + y;
    MonthOfDay(doy);
    var mp := (5 * doy + 2) / 153;
    YearOfEraFinds(c, q, y, doy);
    CivilUnfolds(n, era, doe);
    LeapByCoordinates(era, c, q, y);
    MonthLength(CivilFromDays(n));
    DaysUnfold(CivilFromDays(n), era, yoe);
  }

  /** Days before March of year `y`, with the leap days counted by flooring divisions. */
  function DaysBeforeMarch(y: int): int { 365 * y + y / 4 - y / 100 + y / 400 }

  /** Day numbers without eras. */
  lemma DaysFromCivilFloors(date: Date)
    ensures var y := if date.month <= 2 then date.year - 1 else date.year;
      var m := if date.month <= 2 then date.month + 9 else date.month - 3;
      DaysFromCivil(date) == DaysBeforeMarch(y) + DaysBeforeMonth(m) + date.day - 719469
  {
    var y := if date.month <= 2 then date.year - 1 else date.year;
    EraIsFloor(y, 400);
    var era, yoe := y / 400, y % 400;
    QuotientUnique(y, 4, 100 * era + yoe / 4, yoe % 4);
    QuotientUnique(y, 100, 4 * era + yoe / 100, yoe % 100);
  }

  lemma QuotientStep(y: int, d: int)
    requires d > 0
    ensures y / d - (y - 1) / d == if y % d == 0 then 1 else 0
  {
    if y % d == 0 {
      QuotientUnique(y - 1, d, y / d - 1, d - 1);
    } else {
      QuotientUnique(y - 1, d, y / d, y % d - 1);
    }
  }

  /** From one March to the next there are as many days as in the calendar year of the second. */
  lemma MarchToMarch(y: int)
    ensures DaysBeforeMarch(y) - DaysBeforeMarch(y - 1) == DaysInYear(y)
  {
    QuotientStep(y, 4);
    QuotientStep(y, 100);
    QuotientStep(y, 400);
  }

  /** The first of the next year and of the next month, by their lengths. */
  lemma FirstOfNext(y: int, m: int)
    requires 1 <= m <= 12
    ensures DaysFromCivil(Date(y + 1, 1, 1)) == DaysFromCivil(Date(y, 1, 1)) + DaysInYear(y)
    ensures DaysFromCivil(if m < 12 then Date(y, m + 1, 1) else Date(y + 1, 1, 1))
         == DaysFromCivil(Date(y, m, 1)) + DaysInMonth(y, m)
  {
    hide DaysFromCivil, DaysBeforeMarch, IsLeapYear;
    DaysFromCivilFloors(Date(y, 1, 1));
    DaysFromCivilFloors(Date(y + 1, 1, 1));
    DaysFromCivilFloors(Date(y, m, 1));
    DaysFromCivilFloors(if m < 12 then Date(y, m + 1, 1) else Date(y + 1, 1, 1));
    MarchToMarch(y);
  }

  /** The next date has the next day number. */
  lemma NextDateIsNextDay(date: Date)
    requires Valid(date)
    ensures Valid(NextDate(date))
    ensures DaysFromCivil(NextDate(date)) == DaysFromCivil(date) + 1
  {
    hide DaysFromCivil, IsLeapYear;
    DayOfMonthAdds(date.year, date.month, date.day);
    DayOfMonthAdds(date.year, date.month, date.day + 1);
    FirstOfNext(date.year, date.month);
  }

  // ---------- the counting loop ----------

  lemma DayOfMonthAdds(y: int, m: int, day: int)
    ensures DaysFromCivil(Date(y, m, day)) == DaysFromCivil(Date(y, m, 1)) + day - 1
  {
  }

  lemma EpochIsDayZero()
    ensures DaysFromCivil(Date(1970, 1, 1)) == 0
  {
  }

  /** Whole years off first, then whole months: the closed form again, for every day from the epoch on. */
  method DaysToYmd(n: nat) returns (date: Date)
    ensures date == CivilFromDays(n)
    ensures Valid(date)
  {
    hide DaysFromCivil, CivilFromDays, IsLeapYear, DaysInMonth;
    EpochIsDayZero();
    var days, year := n, 1970;
    while days >= DaysInYear(year)
      invariant 0 <= days
      invariant DaysFromCivil(Date(year, 1, 1)) + days == n
      decreases days
    {
      FirstOfNext(year, 1);
      days, year := days - DaysInYear(year), year + 1;
    }
    var month := 1;
    FirstOfNext(year, 12);
    while month <= 12 && days >= DaysInMonth(year, month)
      invariant 1 <= month <= 13 && 0 <= days
      invariant DaysFromCivil(if month <= 12 then Date(year, month, 1) else Date(year + 1, 1, 1)) + days == n
      invariant n < DaysFromCivil(Date(year + 1, 1, 1))
    {
      FirstOfNext(year, month);
      days, month := days - DaysInMonth(year, month), month + 1;
    }
    date := Date(year, month, days + 1);
    DayOfMonthAdds(year, month, days + 1);
    CivilOfDays(date);
  }
}
