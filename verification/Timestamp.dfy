/**
 Timestamps as text: systemd-analyze prints whole seconds since the epoch and reads them back; the
 printer of coredumpctl, built on the counting loop, writes the same text but for the weekday.
 */
module Timestamp {
  import opened Bytes
  import opened Text
  import opened Decimal
  import opened Calendar

  const SECONDS_PER_DAY: nat := 86400
  const WEEKDAYS: seq<string> := ["Thu", "Fri", "Sat", "Sun", "Mon", "Tue", "Wed"]

  /** The first second of the year 10000. */
  const YEAR_10000: nat := 253402300800

  /** Days since a Thursday, modulo the week. */
  function WeekdayName(days: int): (s: string)
    ensures s in WEEKDAYS && |s| == 3
  {
    WEEKDAYS[days % 7]
  }

  // ---------- printing ----------

  function TwoDigits(n: nat): string { ZeroPad(ToDecimal(n), 2) }

  function DateText(date: Date): string
    requires date.year >= 0 && Valid(date)
  {
    DateFields(date.year, date.month, date.day)
  }

  function DateFields(y: nat, m: nat, d: nat): string { ToDecimal(y) + "-" + TwoDigits(m) + "-" + TwoDigits(d) }

  function ClockText(tod: nat): string { ClockFields(tod / 3600, tod % 3600 / 60, tod % 60) }

  function ClockFields(h: nat, m: nat, s: nat): string { TwoDigits(h) + ":" + TwoDigits(m) + ":" + TwoDigits(s) }

  /** The timestamp text for a whole number of seconds since the epoch. */
  function FormatTimestamp(seconds: nat): string
  {
    var days := seconds / SECONDS_PER_DAY;
    YearsFromEpoch(days);
    WeekdayName(days) + " " + (DateText(CivilFromDays(days)) + " " + ClockText(seconds % SECONDS_PER_DAY)) + " UTC"
  }

  /** The printer of coredumpctl, which pads the year to four digits. */
  method FormatTimestampCounting(seconds: nat) returns (s: string)
    ensures FormatTimestamp(seconds) == WeekdayName(seconds / SECONDS_PER_DAY) + " " + s
  {
    var date := DaysToYmd(seconds / SECONDS_PER_DAY);
    YearsFromEpoch(seconds / SECONDS_PER_DAY);
    FourDigits(date.year);
    s := ZeroPad(ToDecimal(date.year), 4) + "-" + TwoDigits(date.month) + "-" + TwoDigits(date.day)
      + " " + ClockText(seconds % SECONDS_PER_DAY) + " UTC";
    assert s == DateText(date) + " " + ClockText(seconds % SECONDS_PER_DAY) + " UTC";
  }

  lemma FourDigits(n: nat)
    requires n >= 1000
    ensures ZeroPad(ToDecimal(n), 4) == ToDecimal(n)
  {
    assert |ToDecimal(n)| == |ToDecimal(n / 10)| + 1 && |ToDecimal(n / 10)| == |ToDecimal(n / 10 / 10)| + 1;
    assert |ToDecimal(n / 10 / 10)| == |ToDecimal(n / 10 / 10 / 10)| + 1;
  }

  // ---------- years by day number ----------

  lemma {:induction false} YearStarts(y: int, k: nat)
    ensures DaysFromCivil(Date(y + k, 1, 1)) >= DaysFromCivil(Date(y, 1, 1)) + 365 * k
  {
    if k > 0 {
      hide DaysFromCivil, IsLeapYear;
      YearStarts(y, k - 1);
      FirstOfNext(y + k - 1, 1);
    }
  }

  lemma {:induction false} MonthStarts(y: int, m: int)
    requires 1 <= m <= 12
    ensures DaysFromCivil(Date(y, 1, 1)) <= DaysFromCivil(Date(y, m, 1))
         <= DaysFromCivil(Date(y + 1, 1, 1)) - DaysInMonth(y, m)
  {
    hide DaysFromCivil, IsLeapYear;
    if m > 1 {
      MonthStarts(y, m - 1);
      FirstOfNext(y, m - 1);
    }
    MonthEnds(y, m);
  }

  lemma {:induction false} MonthEnds(y: int, m: int)
    requires 1 <= m <= 12
    ensures DaysFromCivil(Date(y, m, 1)) <= DaysFromCivil(Date(y + 1, 1, 1)) - DaysInMonth(y, m)
    decreases 12 - m
  {
    hide DaysFromCivil, IsLeapYear;
    FirstOfNext(y, m);
    if m < 12 {
      MonthEnds(y, m + 1);
    }
  }

  /** A date lies in its year. */
  lemma WithinYear(date: Date)
    requires Valid(date)
    ensures DaysFromCivil(Date(date.year, 1, 1)) <= DaysFromCivil(date) < DaysFromCivil(Date(date.year + 1, 1, 1))
  {
    hide DaysFromCivil, IsLeapYear;
    MonthStarts(date.year, date.month);
    DayOfMonthAdds(date.year, date.month, date.day);
  }

  /** Days from the epoch on have dates from 1970 on, and the year 10000 starts where it should. */
  lemma YearsFromEpoch(days: nat)
    ensures Valid(CivilFromDays(days)) && CivilFromDays(days).year >= 1970
    ensures CivilFromDays(days).year <= 9999 <==> days < YEAR_10000 / SECONDS_PER_DAY
  {
    hide DaysFromCivil, CivilFromDays;
    var date := CivilFromDays(days);
    DaysOfCivil(days);
    WithinYear(date);
    Landmarks();
    if date.year < 1970 {
      YearStarts(date.year + 1, 1970 - date.year - 1);
    }
    if date.year <= 9999 {
      YearStarts(date.year + 1, 10000 - date.year - 1);
    } else {
      YearStarts(10000, date.year - 10000);
    }
  }

  lemma Landmarks()
    ensures DaysFromCivil(Date(1970, 1, 1)) == 0
    ensures DaysFromCivil(Date(10000, 1, 1)) == YEAR_10000 / SECONDS_PER_DAY
  {
  }

  // ---------- reading ----------

  predicate EqualIgnoringCase(a: string, b: string)
  {
    |a| == |b| && forall k :: 0 <= k < |a| ==> LowerAscii(a[k]) == LowerAscii(b[k])
  }

  predicate IsWeekdayAbbreviation(s: string) { exists w :: w in WEEKDAYS && EqualIgnoringCase(s, w) }

  /** Drops a last word that is UTC in any case. */
  function StripZone(s: string): string
  {
    match RSplitOnce(s, ' ')
    case Some((head, zone)) => if EqualIgnoringCase(zone, "UTC") then TrimEnd(head) else s
    case None => s
  }

  /** Splits off a first word that is a weekday abbreviation. */
  function StripWeekday(s: string): (Option<string>, string)
  {
    match SplitOnce(s, ' ')
    case Some((word, rest)) => if IsWeekdayAbbreviation(word) then (Some(word), TrimStart(rest)) else (None, s)
    case None => (None, s)
  }

  /** The date and, after the first space or `T`, the time of day. */
  function SplitDateTime(s: string): (string, Option<string>)
  {
    var space, tee := IndexOf(s, ' '), IndexOf(s, 'T');
    var k := if space <= tee then space else tee;
    if k == |s| then (s, None) else (s[..k], Some(s[k + 1..]))
  }

  /** A signed 64-bit number. */
  function ParseSigned(s: string): Option<int>
  {
    if s != [] && s[0] == '-' then
      var n: int := if s[1..] != [] && Digits(s[1..]) then NumberOf(s[1..]) else U64_LIMIT;
      if n <= U64_LIMIT / 2 then Some(-n) else None
    else
      match ParseUnsigned(s, U64_LIMIT / 2)
      case Some(n) => Some(n)
      case None => None
  }

  function ParseDate(s: string): Option<Date>
  {
    var parts := Split(s, '-');
    if |parts| != 3 then None
    else match (ParseSigned(parts[0]), ParseUnsigned(parts[1], U32_LIMIT), ParseUnsigned(parts[2], U32_LIMIT))
      case (Some(y), Some(m), Some(d)) => Some(Date(y, m, d))
      case _ => None
  }

  function RightPad(s: string): string
    decreases 6 - |s|
  {
    if |s| < 6 then RightPad(s + "0") else s
  }

  /** The digits after the point as microseconds; further digits are cut off. */
  function ParseFraction(frac: string): Option<nat>
  {
    if !Digits(frac) then None
    else if frac == [] then Some(0)
    else ParseUnsigned(RightPad(if |frac| < 6 then frac else frac[..6]), U64_LIMIT)
  }

  datatype Clock = Clock(hour: nat, minute: nat, second: nat, micros: nat)

  /** An hour or minute that does not parse counts as 0; a second that does not parse is refused. */
  function ParseClock(s: string): Option<Clock>
  {
    var parts := Split(s, ':');
    var hour := match ParseUnsigned(parts[0], U32_LIMIT) case Some(n) => n case None => 0;
    var minute :=
      if |parts| < 2 then 0 else match ParseUnsigned(parts[1], U32_LIMIT) case Some(n) => n case None => 0;
    if |parts| < 3 then Some(Clock(hour, minute, 0, 0))
    else
      var (whole, frac) := match SplitOnce(parts[2], '.') case Some(p) => p case None => (parts[2], "");
      match (ParseUnsigned(whole, U32_LIMIT), ParseFraction(frac))
      case (Some(second), Some(micros)) => Some(Clock(hour, minute, second, micros))
      case _ => None
  }

  /** A date and time of day in range, with the weekday that was written, if any, checked. */
  function Combine(date: Date, clock: Clock, weekday: Option<string>): Option<nat>
  {
    if !(1970 <= date.year <= 9999 && 1 <= date.month <= 12 && 1 <= date.day <= 31) then None
    else if clock.hour > 23 || clock.minute > 59 || clock.second > 60 then None
    else
      var days := DaysFromCivil(date);
      FromEpochOn(date);
      if weekday.Some? && !EqualIgnoringCase(weekday.value, WeekdayName(days)) then None
      else
        Some((days * SECONDS_PER_DAY + clock.hour * 3600 + clock.minute * 60 + clock.second) * 1000000 + clock.micros)
  }

  lemma FromEpochOn(date: Date)
    requires 1970 <= date.year && 1 <= date.month <= 12 && 1 <= date.day
    ensures DaysFromCivil(date) >= 0
  {
    hide DaysFromCivil, IsLeapYear;
    Landmarks();
    YearStarts(1970, date.year - 1970);
    MonthStarts(date.year, date.month);
    DayOfMonthAdds(date.year, date.month, date.day);
  }

  /** Microseconds since the epoch; `today` stands for the clock, which a bare time of day asks for. */
  function TryParseDatetime(input: string, today: Option<Date>): Option<nat>
  {
    var (weekday, text) := StripWeekday(StripZone(Trim(input)));
    var (first, second) := SplitDateTime(text);
    if second.None? && ':' in first then
      match (today, ParseClock(first))
      case (Some(date), Some(clock)) => Combine(date, clock, weekday)
      case _ => None
    else
      match (ParseDate(first), ParseClock(if second.Some? then second.value else "00:00:00"))
      case (Some(date), Some(clock)) => Combine(date, clock, weekday)
      case _ => None
  }

  // ---------- reading what was printed ----------

  lemma DigitsHave(s: string, c: char)
    requires Digits(s) && !IsDigit(c)
    ensures c !in s
  {
  }

  lemma NumbersParse(n: nat, limit: nat)
    requires n < limit
    ensures ParseUnsigned(ToDecimal(n), limit) == Some(n)
    ensures Digits(TwoDigits(n)) && TwoDigits(n) != [] && ParseUnsigned(TwoDigits(n), limit) == Some(n)
  {
    ZeroPadDenotes(ToDecimal(n), 2);
    assert IsDigit(ToDecimal(n)[0]) && IsDigit(TwoDigits(n)[0]);
  }

  lemma ParseDateFields(y: nat, m: nat, d: nat)
    requires y < U64_LIMIT / 2 && m < U32_LIMIT && d < U32_LIMIT
    ensures ParseDate(DateFields(y, m, d)) == Some(Date(y, m, d))
  {
    hide ToDecimal, ZeroPad, Split, TwoDigits;
    var ys, ms, ds := ToDecimal(y), TwoDigits(m), TwoDigits(d);
    NumbersParse(y, U64_LIMIT / 2);
    NumbersParse(m, U32_LIMIT);
    NumbersParse(d, U32_LIMIT);
    DigitsHave(ys, '-');
    DigitsHave(ms, '-');
    DigitsHave(ds, '-');
    assert DateFields(y, m, d) == ys + ['-'] + (ms + ['-'] + ds);
    SplitThree(ys, ms, ds, '-');
    assert IsDigit(ys[0]);
  }

  lemma ParseDateText(date: Date)
    requires 0 <= date.year < U64_LIMIT / 2 && Valid(date)
    ensures ParseDate(DateText(date)) == Some(date)
  {
    hide DateFields, ParseDate;
    ParseDateFields(date.year, date.month, date.day);
  }

  lemma DateFieldsCharacters(y: nat, m: nat, d: nat)
    ensures var s := DateFields(y, m, d);
      s != [] && IsDigit(s[0]) && ' ' !in s && 'T' !in s && ':' !in s
  {
    hide ToDecimal, ZeroPad, TwoDigits, ParseUnsigned;
    NumbersParse(m, m + 1);
    NumbersParse(d, d + 1);
    var s := DateFields(y, m, d);
    assert forall k :: 0 <= k < |s| ==> IsDigit(s[k]) || s[k] == '-';
  }

  lemma ParseClockFields(h: nat, m: nat, s: nat)
    requires h < U32_LIMIT && m < U32_LIMIT && s < U32_LIMIT
    ensures ParseClock(ClockFields(h, m, s)) == Some(Clock(h, m, s, 0))
  {
    hide ToDecimal, ZeroPad, Split, TwoDigits;
    var hs, ms, ss := TwoDigits(h), TwoDigits(m), TwoDigits(s);
    NumbersParse(h, U32_LIMIT);
    NumbersParse(m, U32_LIMIT);
    NumbersParse(s, U32_LIMIT);
    DigitsHave(hs, ':');
    DigitsHave(ms, ':');
    DigitsHave(ss, ':');
    DigitsHave(ss, '.');
    assert ClockFields(h, m, s) == hs + [':'] + (ms + [':'] + ss);
    SplitThree(hs, ms, ss, ':');
  }

  lemma ParseClockText(tod: nat)
    requires tod < SECONDS_PER_DAY
    ensures ParseClock(ClockText(tod)) == Some(Clock(tod / 3600, tod % 3600 / 60, tod % 60, 0))
  {
    hide ClockFields, ParseClock;
    ParseClockFields(tod / 3600, tod % 3600 / 60, tod % 60);
  }

  lemma ClockFieldsCharacters(h: nat, m: nat, s: nat)
    ensures var t := ClockFields(h, m, s); t != [] && IsDigit(t[|t| - 1]) && 'T' !in t
  {
    hide ToDecimal, ZeroPad, TwoDigits, ParseUnsigned;
    NumbersParse(h, h + 1);
    NumbersParse(m, m + 1);
    NumbersParse(s, s + 1);
    var t := ClockFields(h, m, s);
    assert forall k :: 0 <= k < |t| ==> IsDigit(t[k]) || t[k] == ':';
  }

  lemma ZoneComesOff(head: string)
    requires Tight(head)
    ensures StripZone(Trim(head + " UTC")) == head
  {
    var input := head + " UTC";
    assert Tight(input) by {
      assert input[0] == head[0] && input[|input| - 1] == 'C';
    }
    TrimTight(input);
    assert input == head + [' '] + "UTC";
    RSplitOnceLast(head, ' ', "UTC");
    TrimTight(head);
  }

  lemma WeekdayComesOff(days: int, body: string)
    requires body != [] && IsDigit(body[0])
    ensures StripWeekday(WeekdayName(days) + " " + body) == (Some(WeekdayName(days)), body)
  {
    var w := WeekdayName(days);
    assert w + " " + body == w + [' '] + body;
    assert ' ' !in w;
    SplitOnceFirst(w, ' ', body);
    assert EqualIgnoringCase(w, w);
  }

  /** The frame of a timestamp text comes off again. */
  lemma StripFrame(days: int, date: string, clock: string)
    requires date != [] && IsDigit(date[0]) && clock != [] && IsDigit(clock[|clock| - 1])
    ensures StripWeekday(StripZone(Trim(WeekdayName(days) + " " + (date + " " + clock) + " UTC")))
         == (Some(WeekdayName(days)), date + " " + clock)
  {
    hide StripZone, StripWeekday, Trim;
    var w, body := WeekdayName(days), date + " " + clock;
    var head := w + " " + body;
    assert Tight(head) by {
      assert head[0] == w[0] && head[|head| - 1] == clock[|clock| - 1];
    }
    ZoneComesOff(head);
    assert body[0] == date[0];
    WeekdayComesOff(days, body);
  }

  lemma SplitAtSpace(date: string, clock: string)
    requires ' ' !in date && 'T' !in date && 'T' !in clock
    ensures SplitDateTime(date + " " + clock) == (date, Some(clock))
  {
    var s := date + [' '] + clock;
    assert s == date + " " + clock;
    IndexOfFirst(date, ' ', clock);
    IndexOfAbsent(s, 'T');
    assert s[..|date|] == date && s[|date| + 1..] == clock;
  }

  /**
   Reading a printed timestamp gives back its second, weekday and all, up to the end of the year
   9999; a later one is refused.
   */
  lemma ReadsBack(seconds: nat, today: Option<Date>)
    requires seconds < U64_LIMIT
    ensures TryParseDatetime(FormatTimestamp(seconds), today)
         == if seconds < YEAR_10000 then Some(seconds * 1000000) else None
  {
    hide DaysFromCivil, CivilFromDays, DateFields, ClockFields, ParseDate, ParseClock, StripWeekday, StripZone, Trim,
      SplitDateTime, WeekdayName, IsLeapYear;
    var days, tod := seconds / SECONDS_PER_DAY, seconds % SECONDS_PER_DAY;
    var date := CivilFromDays(days);
    YearBound(days);
    DaysOfCivil(days);
    DateFieldsCharacters(date.year, date.month, date.day);
    ClockFieldsCharacters(tod / 3600, tod % 3600 / 60, tod % 60);
    StripFrame(days, DateText(date), ClockText(tod));
    SplitAtSpace(DateText(date), ClockText(tod));
    ParseDateText(date);
    ParseClockText(tod);
    CombineAll(days, tod);
  }

  lemma CombineAll(days: nat, tod: nat)
    requires tod < SECONDS_PER_DAY
    ensures Combine(CivilFromDays(days), Clock(tod / 3600, tod % 3600 / 60, tod % 60, 0), Some(WeekdayName(days)))
         == if days * SECONDS_PER_DAY + tod < YEAR_10000 then Some((days * SECONDS_PER_DAY + tod) * 1000000) else None
  {
    hide DaysFromCivil, CivilFromDays, WeekdayName, IsLeapYear;
    YearsFromEpoch(days);
    DaysOfCivil(days);
    assert EqualIgnoringCase(WeekdayName(days), WeekdayName(days));
    assert tod == tod / 3600 * 3600 + tod % 3600 / 60 * 60 + tod % 60;
  }

  lemma YearBound(days: nat)
    requires days < U64_LIMIT
    ensures Valid(CivilFromDays(days)) && 1970 <= CivilFromDays(days).year < U64_LIMIT / 2
  {
    hide DaysFromCivil, CivilFromDays;
    YearsFromEpoch(days);
    DaysOfCivil(days);
    WithinYear(CivilFromDays(days));
    Landmarks();
    YearStarts(1970, CivilFromDays(days).year - 1970);
  }

  // ---------- weekdays, fields and ranges ----------

  /** Zeller's congruence: the weekday of a date, 0 for Saturday. */
  function Zeller(date: Date): int
  {
    var y := if date.month <= 2 then date.year - 1 else date.year;
    var m := if date.month <= 2 then date.month + 12 else date.month;
    (date.day + 13 * (m + 1) / 5 + y + y / 4 - y / 100 + y / 400) % 7
  }

  /** The weekday of every date is the one of Zeller's congruence. */
  lemma WeekdayOfDate(date: Date)
    requires Valid(date)
    ensures WeekdayName(DaysFromCivil(date)) == ["Sat", "Sun", "Mon", "Tue", "Wed", "Thu", "Fri"][Zeller(date)]
  {
    hide DaysFromCivil, IsLeapYear;
    DaysFromCivilFloors(date);
    var y := if date.month <= 2 then date.year - 1 else date.year;
    var m := if date.month <= 2 then date.month + 12 else date.month;
    var sum := date.day + 13 * (m + 1) / 5 + y + y / 4 - y / 100 + y / 400;
    var days := DaysFromCivil(date);
    assert 13 * (m + 1) / 5 == (153 * (m - 3) + 2) / 5 - 28 * (m - 3) + 10;
    assert days == sum + 2 + 7 * (52 * y + 4 * (m - 3) - 102783);
    SevenDaysOn(sum, days, 52 * y + 4 * (m - 3) - 102783);
  }

  lemma SevenDaysOn(sum: int, days: int, weeks: int)
    requires days == sum + 2 + 7 * weeks
    ensures days % 7 == (sum % 7 + 2) % 7
  {
  }

  lemma FieldWidths(n: nat)
    ensures n < 100 ==> |TwoDigits(n)| == 2
    ensures 1000 <= n < 10000 ==> |ToDecimal(n)| == 4
    ensures Digits(TwoDigits(n)) && NumberOf(TwoDigits(n)) == n
  {
    ZeroPadDenotes(ToDecimal(n), 2);
    if n < 100 {
      assert |ToDecimal(n)| == if n < 10 then 1 else |ToDecimal(n / 10)| + 1;
    }
    if 1000 <= n < 10000 {
      assert |ToDecimal(n / 1000)| == 1 && n / 10 / 10 / 10 == n / 1000;
      assert |ToDecimal(n / 10 / 10)| == |ToDecimal(n / 1000)| + 1;
      assert |ToDecimal(n / 10)| == |ToDecimal(n / 10 / 10)| + 1;
    }
  }

  /** The printed text, place by place, up to the end of the year 9999. */
  lemma PrintedFields(seconds: nat)
    requires seconds < 253402300800
    ensures var t, date, tod := FormatTimestamp(seconds), CivilFromDays(seconds / 86400), seconds % 86400;
      && |t| == 27 && Valid(date)
      && t[..3] == ["Sat", "Sun", "Mon", "Tue", "Wed", "Thu", "Fri"][Zeller(date)]
      && t[3] == ' ' && t[8] == '-' && t[11] == '-' && t[14] == ' ' && t[17] == ':' && t[20] == ':' && t[23..] == " UTC"
      && Digits(t[4..8]) && NumberOf(t[4..8]) == date.year
      && Digits(t[9..11]) && NumberOf(t[9..11]) == date.month
      && Digits(t[12..14]) && NumberOf(t[12..14]) == date.day
      && Digits(t[15..17]) && NumberOf(t[15..17]) == tod / 3600
      && Digits(t[18..20]) && NumberOf(t[18..20]) == tod / 60 % 60
      && Digits(t[21..23]) && NumberOf(t[21..23]) == tod % 60
  {
    hide DaysFromCivil, CivilFromDays, IsLeapYear, ToDecimal, TwoDigits, NumberOf, Digits, Zeller, WeekdayName, FormatTimestamp, Valid;
    var days, tod := seconds / 86400, seconds % 86400;
    var date := CivilFromDays(days);
    YearsFromEpoch(days);
    DaysOfCivil(days);
    WeekdayOfDate(date);
    DayAndMonthBelow(date);
    FieldWidths(date.year);
    FieldWidths(date.month);
    FieldWidths(date.day);
    FieldWidths(tod / 3600);
    FieldWidths(tod % 3600 / 60);
    FieldWidths(tod % 60);
    ClockBounds(seconds);
    TextOfParts(seconds);
    Places(WeekdayName(days), ToDecimal(date.year), TwoDigits(date.month), TwoDigits(date.day),
           TwoDigits(tod / 3600), TwoDigits(tod % 3600 / 60), TwoDigits(tod % 60));
  }

  lemma ClockBounds(seconds: nat)
    ensures var tod := seconds % 86400;
      tod / 3600 < 24 && tod % 3600 / 60 == tod / 60 % 60 < 60 && 0 <= tod % 60 < 60
    ensures seconds < 253402300800 ==> seconds / 86400 < YEAR_10000 / SECONDS_PER_DAY
  {
  }

  lemma DayAndMonthBelow(date: Date)
    requires Valid(date)
    ensures 1 <= date.month <= 12 && 1 <= date.day <= 31
  {
  }

  lemma TextOfParts(seconds: nat)
    ensures var days, tod := seconds / 86400, seconds % 86400;
      var date := CivilFromDays(days);
      && date.year >= 0 && date.month >= 0 && date.day >= 0
      && FormatTimestamp(seconds)
         == WeekdayName(days) + " "
            + ((ToDecimal(date.year) + "-" + TwoDigits(date.month) + "-" + TwoDigits(date.day)) + " "
               + (TwoDigits(tod / 3600) + ":" + TwoDigits(tod % 3600 / 60) + ":" + TwoDigits(tod % 60)))
            + " UTC"
  {
    hide CivilFromDays, IsLeapYear, ToDecimal, TwoDigits, WeekdayName;
    YearsFromEpoch(seconds / 86400);
  }

  lemma Places(w: string, y: string, m: string, d: string, h: string, mi: string, s: string)
    requires |w| == 3 && |y| == 4 && |m| == |d| == |h| == |mi| == |s| == 2
    ensures var t := w + " " + ((y + "-" + m + "-" + d) + " " + (h + ":" + mi + ":" + s)) + " UTC";
      && |t| == 27 && t[..3] == w && t[4..8] == y && t[9..11] == m && t[12..14] == d
      && t[15..17] == h && t[18..20] == mi && t[21..23] == s && t[23..] == " UTC"
      && t[3] == ' ' && t[8] == '-' && t[11] == '-' && t[14] == ' ' && t[17] == ':' && t[20] == ':'
  {
    var front := w + " " + ((y + "-" + m + "-" + d) + " " + (h + ":" + mi + ":" + s));
    assert |front| == 23 && (front + " UTC")[23..] == " UTC";
    assert forall i, j :: 0 <= i <= j <= 23 ==> (front + " UTC")[i..j] == front[i..j];
  }

  lemma SameWeekday(k: int, days: int)
    ensures EqualIgnoringCase(WeekdayName(k), WeekdayName(days)) <==> k % 7 == days % 7
  {
    var a, b := WeekdayName(k), WeekdayName(days);
    assert EqualIgnoringCase(a, b) ==> LowerAscii(a[0]) == LowerAscii(b[0]) && LowerAscii(a[1]) == LowerAscii(b[1]);
  }

  /** A full timestamp is read exactly when every field is in range and the weekday is the date's, and then gives its microsecond. */
  lemma AcceptsExactly(k: int, y: nat, m: nat, d: nat, h: nat, mi: nat, s: nat, today: Option<Date>)
    requires y < U64_LIMIT / 2 && m < U32_LIMIT && d < U32_LIMIT && h < U32_LIMIT && mi < U32_LIMIT && s < U32_LIMIT
    ensures var text := WeekdayName(k) + " " + (DateFields(y, m, d) + " " + ClockFields(h, mi, s)) + " UTC";
      var days := DaysFromCivil(Date(y, m, d));
      var inRange := 1970 <= y <= 9999 && 1 <= m <= 12 && 1 <= d <= 31 && h <= 23 && mi <= 59 && s <= 60;
      && (inRange ==> days >= 0)
      && TryParseDatetime(text, today)
         == if inRange && k % 7 == days % 7 then Some((days * 86400 + h * 3600 + mi * 60 + s) * 1000000) else None
  {
    hide DaysFromCivil, DateFields, ClockFields, ParseDate, ParseClock, StripWeekday, StripZone, Trim, SplitDateTime,
      WeekdayName, EqualIgnoringCase;
    DateFieldsCharacters(y, m, d);
    ClockFieldsCharacters(h, mi, s);
    StripFrame(k, DateFields(y, m, d), ClockFields(h, mi, s));
    SplitAtSpace(DateFields(y, m, d), ClockFields(h, mi, s));
    ParseDateFields(y, m, d);
    ParseClockFields(h, mi, s);
    SameWeekday(k, DaysFromCivil(Date(y, m, d)));
    if 1970 <= y && 1 <= m <= 12 && 1 <= d {
      FromEpochOn(Date(y, m, d));
    }
  }

  // ---------- other ways to write a timestamp ----------

  /** The microseconds of a fraction: its first six digits, zeros put behind. */
  function FractionMicros(frac: string): nat
    requires Digits(frac)
  {
    NumberOf((frac + "000000")[..6])
  }

  lemma {:induction false} RightPadded(s: string)
    requires |s| <= 6
    ensures RightPad(s) == (s + "000000")[..6]
    decreases 6 - |s|
  {
    if |s| < 6 {
      RightPadded(s + "0");
      assert (s + "0" + "000000")[..6] == (s + "000000")[..6];
    } else {
      assert (s + "000000")[..6] == s;
    }
  }

  lemma {:induction false} NumberBelow(s: string)
    requires Digits(s) && |s| <= 6
    ensures NumberOf(s) < 1000000 && (|s| <= 5 ==> NumberOf(s) < 100000) && (|s| <= 4 ==> NumberOf(s) < 10000)
    ensures (|s| <= 3 ==> NumberOf(s) < 1000) && (|s| <= 2 ==> NumberOf(s) < 100) && (|s| <= 1 ==> NumberOf(s) < 10)
    ensures s == "" ==> NumberOf(s) == 0
  {
    if s != "" {
      NumberBelow(s[..|s| - 1]);
    }
  }

  lemma FractionParses(frac: string)
    requires Digits(frac) && frac != ""
    ensures ParseFraction(frac) == Some(FractionMicros(frac))
  {
    hide NumberOf, RightPad;
    var head := if |frac| < 6 then frac else frac[..6];
    RightPadded(head);
    assert (head + "000000")[..6] == (frac + "000000")[..6];
    var six := (frac + "000000")[..6];
    assert Digits(six) && IsDigit(six[0]);
    NumberBelow(six);
  }

  /** A time of day with a fraction. */
  lemma ParseClockFraction(h: nat, m: nat, s: nat, frac: string)
    requires h < U32_LIMIT && m < U32_LIMIT && s < U32_LIMIT && Digits(frac) && frac != ""
    ensures ParseClock(ClockFields(h, m, s) + "." + frac) == Some(Clock(h, m, s, FractionMicros(frac)))
  {
    hide ToDecimal, ZeroPad, Split, TwoDigits, ParseFraction, NumberOf, FractionMicros;
    var hs, ms, ss := TwoDigits(h), TwoDigits(m), TwoDigits(s);
    NumbersParse(h, U32_LIMIT);
    NumbersParse(m, U32_LIMIT);
    NumbersParse(s, U32_LIMIT);
    DigitsHave(hs, ':');
    DigitsHave(ms, ':');
    DigitsHave(ss, ':');
    DigitsHave(frac, ':');
    DigitsHave(ss, '.');
    var last := ss + ['.'] + frac;
    assert ClockFields(h, m, s) + "." + frac == hs + [':'] + (ms + [':'] + last);
    SplitThree(hs, ms, last, ':');
    SplitOnceFirst(ss, '.', frac);
    FractionParses(frac);
  }

  lemma PlainFrame(date: string, sep: char, clock: string)
    requires date != "" && IsDigit(date[0]) && ' ' !in date && 'T' !in date && (sep == ' ' || sep == 'T')
    requires |clock| > 3 && IsDigit(clock[|clock| - 1]) && ' ' !in clock && 'T' !in clock
    ensures var text := date + [sep] + clock;
      && StripWeekday(StripZone(Trim(text))) == (None, text) && SplitDateTime(text) == (date, Some(clock))
  {
    var text := date + [sep] + clock;
    assert text[0] == date[0] && text[|text| - 1] == clock[|clock| - 1];
    TrimTight(text);
    hide IsWhitespace;
    if sep == ' ' {
      RSplitOnceLast(date, ' ', clock);
      SplitOnceFirst(date, ' ', clock);
      NotAWeekday(date);
      IndexOfFirst(date, ' ', clock);
      IndexOfAbsent(text, 'T');
    } else {
      IndexOfAbsent(text, ' ');
      IndexOfFirst(date, 'T', clock);
    }
    assert text[..|date|] == date && text[|date| + 1..] == clock;
  }

  lemma NotAWeekday(word: string)
    requires word != "" && IsDigit(word[0])
    ensures !IsWeekdayAbbreviation(word)
  {
    forall w | w in WEEKDAYS
      ensures !EqualIgnoringCase(word, w)
    {
      assert LowerAscii(word[0]) == word[0];
    }
  }

  /** Without weekday and zone, with a space or a T, and with a fraction or not. */
  lemma AcceptsPlain(y: nat, m: nat, d: nat, sep: char, h: nat, mi: nat, s: nat, frac: string, today: Option<Date>)
    requires y < U64_LIMIT / 2 && m < U32_LIMIT && d < U32_LIMIT && h < U32_LIMIT && mi < U32_LIMIT && s < U32_LIMIT
    requires (sep == ' ' || sep == 'T') && Digits(frac)
    ensures var clock := ClockFields(h, mi, s) + (if frac == "" then "" else "." + frac);
      var micros := if frac == "" then 0 else FractionMicros(frac);
      var inRange := 1970 <= y <= 9999 && 1 <= m <= 12 && 1 <= d <= 31 && h <= 23 && mi <= 59 && s <= 60;
      var days := DaysFromCivil(Date(y, m, d));
      && (inRange ==> days >= 0)
      && TryParseDatetime(DateFields(y, m, d) + [sep] + clock, today)
         == if inRange then Some((days * 86400 + h * 3600 + mi * 60 + s) * 1000000 + micros) else None
  {
    hide DaysFromCivil, DateFields, ClockFields, ParseDate, ParseClock, StripWeekday, StripZone, Trim, SplitDateTime,
      FractionMicros;
    var clock := ClockFields(h, mi, s) + (if frac == "" then "" else "." + frac);
    DateFieldsCharacters(y, m, d);
    ClockWithFraction(h, mi, s, frac);
    PlainFrame(DateFields(y, m, d), sep, clock);
    ParseDateFields(y, m, d);
    if 1970 <= y && 1 <= m <= 12 && 1 <= d {
      FromEpochOn(Date(y, m, d));
    }
  }

  lemma ClockWithFraction(h: nat, m: nat, s: nat, frac: string)
    requires h < U32_LIMIT && m < U32_LIMIT && s < U32_LIMIT && Digits(frac)
    ensures var clock := ClockFields(h, m, s) + (if frac == "" then "" else "." + frac);
      && |clock| > 3 && IsDigit(clock[|clock| - 1]) && ' ' !in clock && 'T' !in clock
      && ParseClock(clock) == Some(Clock(h, m, s, if frac == "" then 0 else FractionMicros(frac)))
  {
    hide ParseClock, FractionMicros, TwoDigits;
    ClockFieldsCharacters(h, m, s);
    ClockHasNoSpace(h, m, s);
    if frac == "" {
      ParseClockFields(h, m, s);
      assert ClockFields(h, m, s) + "" == ClockFields(h, m, s);
    } else {
      ParseClockFraction(h, m, s, frac);
      assert ClockFields(h, m, s) + ("." + frac) == ClockFields(h, m, s) + "." + frac;
      DigitsHave(frac, ' ');
      DigitsHave(frac, 'T');
    }
  }

  lemma ClockHasNoSpace(h: nat, m: nat, s: nat)
    ensures ' ' !in ClockFields(h, m, s) && |ClockFields(h, m, s)| > 3
  {
    hide ToDecimal, ZeroPad, TwoDigits, ParseUnsigned;
    NumbersParse(h, h + 1);
    NumbersParse(m, m + 1);
    NumbersParse(s, s + 1);
    var t := ClockFields(h, m, s);
    assert forall k :: 0 <= k < |t| ==> IsDigit(t[k]) || t[k] == ':';
  }

  /** A date alone is its midnight. */
  lemma AcceptsDateOnly(y: nat, m: nat, d: nat, today: Option<Date>)
    requires y < U64_LIMIT / 2 && m < U32_LIMIT && d < U32_LIMIT
    ensures var inRange := 1970 <= y <= 9999 && 1 <= m <= 12 && 1 <= d <= 31;
      var days := DaysFromCivil(Date(y, m, d));
      && (inRange ==> days >= 0)
      && TryParseDatetime(DateFields(y, m, d), today) == if inRange then Some(days * 86400 * 1000000) else None
  {
    hide DaysFromCivil, DateFields, ClockFields, ParseDate, ParseClock, StripWeekday, StripZone, Trim, SplitDateTime;
    DateFieldsCharacters(y, m, d);
    DateEndsInDigit(y, m, d);
    OneWord(DateFields(y, m, d));
    ParseDateFields(y, m, d);
    MidnightText();
    ParseClockFields(0, 0, 0);
    if 1970 <= y && 1 <= m <= 12 && 1 <= d {
      FromEpochOn(Date(y, m, d));
    }
  }

  lemma DateEndsInDigit(y: nat, m: nat, d: nat)
    ensures var s := DateFields(y, m, d); IsDigit(s[|s| - 1])
  {
    hide ToDecimal, ZeroPad, TwoDigits, ParseUnsigned;
    NumbersParse(d, d + 1);
  }

  lemma MidnightText()
    ensures "00:00:00" == ClockFields(0, 0, 0)
  {
    assert ToDecimal(0) == "0" && TwoDigits(0) == "00";
  }

  /** A word of digits and marks is no weekday, zone or pair of words. */
  lemma OneWord(word: string)
    requires word != "" && IsDigit(word[0]) && IsDigit(word[|word| - 1]) && ' ' !in word && 'T' !in word
    ensures StripWeekday(StripZone(Trim(word))) == (None, word) && SplitDateTime(word) == (word, None)
  {
    TrimTight(word);
    hide IsWhitespace;
    IndexOfAbsent(word, ' ');
    IndexOfAbsent(word, 'T');
  }

  /** A time of day alone is today's; without today's date there is none. */
  lemma AcceptsClockOnly(h: nat, mi: nat, s: nat, today: Option<Date>)
    requires h < U32_LIMIT && mi < U32_LIMIT && s < U32_LIMIT
    ensures TryParseDatetime(ClockFields(h, mi, s), today)
         == if today.Some? then Combine(today.value, Clock(h, mi, s, 0), None) else None
  {
    hide ClockFields, ParseDate, ParseClock, StripWeekday, StripZone, Trim, SplitDateTime, Combine;
    ClockFieldsCharacters(h, mi, s);
    ClockHasNoSpace(h, mi, s);
    ClockStarts(h, mi, s);
    OneWord(ClockFields(h, mi, s));
    ParseClockFields(h, mi, s);
  }

  lemma ClockStarts(h: nat, m: nat, s: nat)
    ensures var t := ClockFields(h, m, s); IsDigit(t[0]) && ':' in t
  {
    hide ToDecimal, ZeroPad, TwoDigits, ParseUnsigned;
    NumbersParse(h, h + 1);
    var t := ClockFields(h, m, s);
    assert t[|TwoDigits(h)|] == ':';
  }
}
