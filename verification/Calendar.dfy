/** Day numbers and civil dates (firmware/src/ui.rs).

    `CivilFromDays` is the firmware's closed formula. It is proved against the proleptic
    Gregorian calendar stated on its own: leap years (RFC 3339, Appendix C), month lengths
    (RFC 3339, section 5.7), the successor of a date, and the weekday of a date
    (RFC 3339, Appendix B). `DaysFromCivil` exists only in the specification. */
module Calendar {

  datatype Date = Date(year: int, month: int, day: int)

  // ---------- The calendar, stated independently of the formula ----------

  predicate IsLeapYear(year: int) {
    (year % 4 == 0 && year % 100 != 0) || year % 400 == 0
  }

  /** Month lengths. The catch-all of 30 days is the firmware's fallback for a month
      number that a valid date never has. */
  function DaysInMonth(year: int, month: int): int {
    match month
    case 1 | 3 | 5 | 7 | 8 | 10 | 12 => 31
    case 4 | 6 | 9 | 11 => 30
    case 2 => if IsLeapYear(year) then 29 else 28
    case _ => 30
  }

  predicate ValidDate(d: Date) {
    1 <= d.month <= 12 && 1 <= d.day <= DaysInMonth(d.year, d.month)
  }

  function NextDate(d: Date): Date {
    if d.day < DaysInMonth(d.year, d.month) then Date(d.year, d.month, d.day + 1)
    else if d.month < 12 then Date(d.year, d.month + 1, 1)
    else Date(d.year + 1, 1, 1)
  }

  /** RFC 3339, Appendix B, with floor division so that it covers every year. 0 is Sunday. */
  function DayOfWeek(d: Date): int {
    var early := d.month <= 2;
    var m := if early then d.month + 10 else d.month - 2;
    var y := if early then d.year - 1 else d.year;
    var cent := y / 100;
    var yy := y % 100;
    ((26 * m - 2) / 10 + d.day + yy + yy / 4 + cent / 4 + 5 * cent) % 7
  }

  // ---------- The firmware's formula ----------

  function CivilFromDays(days: int): Date {
    var z := days + 719_468;
    var era := z / 146_097;
    DateOfEraDay(era, z - era * 146_097)
  }

  function DateOfEraDay(era: int, doe: int): Date {
    var yoe := YearOfEra(doe);
    var doy := doe - (365 * yoe + yoe / 4 - yoe / 100);
    DateOfYearDay(yoe + era * 400, doy)
  }

  function YearOfEra(doe: int): int {
    (doe - doe / 1_460 + doe / 36_524 - doe / 146_096) / 365
  }

  /** The date of day `doy` of the year that starts on 1 March of `y`. */
  function DateOfYearDay(y: int, doy: int): Date {
    var mp := (5 * doy + 2) / 153;
    var d := doy - (153 * mp + 2) / 5 + 1;
    var m := if mp < 10 then mp + 3 else mp - 9;
    Date(if m <= 2 then y + 1 else y, m, d)
  }

  /** The weekday index the firmware uses for a day number. 0 is Sunday. */
  function Weekday(days: int): int {
    (days + 4) % 7
  }

  // ---------- Position inside the 400-year era ----------

  /** Year `100 * c + 4 * q + t` of an era that starts on 1 March, and the day inside it. */
  datatype EraDay = EraDay(c: int, q: int, t: int, doy: int) {
    predicate Valid() {
      && 0 <= c <= 3 && 0 <= q <= 24 && 0 <= t <= 3
      && 0 <= doy <= (if EndsInLeapDay() then 365 else 364)
    }

    /** Whether the March-based year ends with 29 February. */
    predicate EndsInLeapDay() {
      t == 3 && (q == 24 ==> c == 3)
    }

    function Year(): int {
      100 * c + 4 * q + t
    }

    function DayOfEra(): int {
      36_524 * c + 1_461 * q + 365 * t + doy
    }
  }

  /** Every day of an era has a position. */
  function Locate(doe: int): (e: EraDay)
    requires 0 <= doe < 146_097
    ensures e.Valid() && e.DayOfEra() == doe
  {
    var c := if doe == 146_096 then 3 else doe / 36_524;
    var r := doe - 36_524 * c;
    var q := r / 1_461;
    var s := r - 1_461 * q;
    var t := if s == 1_460 then 3 else s / 365;
    EraDay(c, q, t, s - 365 * t)
  }

  /** The formula's year of era and day of year are the position's. */
  lemma YearOfEraIsExact(e: EraDay)
    requires e.Valid()
    ensures 0 <= e.DayOfEra() < 146_097 && 0 <= e.Year() < 400
    ensures YearOfEra(e.DayOfEra()) == e.Year()
    ensures e.DayOfEra() == 365 * e.Year() + e.Year() / 4 - e.Year() / 100 + e.doy
  {
    var doe := e.DayOfEra();
    var k := 24 * e.c + e.q + 365 * e.t + e.doy;
    var e1 := if k >= 1_460 then 1 else 0;
    assert doe == 1_460 * (25 * e.c + e.q) + k;
    assert doe / 1_460 == 25 * e.c + e.q + e1;
    var last := if doe == 146_096 then 1 else 0;
    assert 0 <= 1_461 * e.q + 365 * e.t + e.doy <= 36_524;
    assert doe / 36_524 == e.c + last;
    assert doe / 146_096 == last;
    assert 0 <= e.doy - e1 < 365;
    assert doe - doe / 1_460 + doe / 36_524 - doe / 146_096 == 365 * e.Year() + (e.doy - e1);
    assert e.Year() / 4 == 25 * e.c + e.q;
    assert e.Year() / 100 == e.c;
  }

  // ---------- Year-days and dates ----------

  function MarchYear(d: Date): int {
    if d.month <= 2 then d.year - 1 else d.year
  }

  function YearDay(d: Date): int {
    var mp := if d.month > 2 then d.month - 3 else d.month + 9;
    (153 * mp + 2) / 5 + d.day - 1
  }

  function LastYearDay(y: int): int {
    if IsLeapYear(y + 1) then 365 else 364
  }

  lemma DateOfYearDayIsValid(y: int, doy: int)
    requires 0 <= doy <= LastYearDay(y)
    ensures var d := DateOfYearDay(y, doy);
      ValidDate(d) && MarchYear(d) == y && YearDay(d) == doy
  {
    var mp := (5 * doy + 2) / 153;
    assert 0 <= mp <= 11;
  }

  lemma YearDayOfDate(d: Date)
    requires ValidDate(d)
    ensures 0 <= YearDay(d) <= LastYearDay(MarchYear(d))
    ensures DateOfYearDay(MarchYear(d), YearDay(d)) == d
  {
    var mp := if d.month > 2 then d.month - 3 else d.month + 9;
    assert 0 <= mp <= 11;
    assert (5 * YearDay(d) + 2) / 153 == mp;
  }

  lemma EraOfSum(era: int, doe: int)
    requires 0 <= doe < 146_097
    ensures (146_097 * era + doe) / 146_097 == era
  {
  }

  /** A day count inside an era, for any era. */
  lemma CivilAt(era: int, e: EraDay)
    requires e.Valid()
    ensures CivilFromDays(146_097 * era + e.DayOfEra() - 719_468)
         == DateOfYearDay(400 * era + e.Year(), e.doy)
  {
    hide CivilFromDays, DateOfEraDay, DateOfYearDay, YearOfEra;
    var doe := e.DayOfEra();
    YearOfEraIsExact(e);
    SplitDays(era, doe);
    DateOfKnownYear(era, doe, e.Year(), e.doy);
  }

  lemma SplitDays(era: int, doe: int)
    requires 0 <= doe < 146_097
    ensures CivilFromDays(146_097 * era + doe - 719_468) == DateOfEraDay(era, doe)
  {
    hide DateOfEraDay;
    EraOfSum(era, doe);
  }

  lemma DateOfKnownYear(era: int, doe: int, yoe: int, doy: int)
    requires YearOfEra(doe) == yoe
    requires doe == 365 * yoe + yoe / 4 - yoe / 100 + doy
    ensures DateOfEraDay(era, doe) == DateOfYearDay(400 * era + yoe, doy)
  {
  }

  lemma LeapYearOfEra(era: int, e: EraDay)
    requires e.Valid()
    ensures e.EndsInLeapDay() <==> IsLeapYear(400 * era + e.Year() + 1)
  {
    hide IsLeapYear;
    assert 400 * era + e.Year() + 1 == 100 * (4 * era + e.c) + (4 * e.q + e.t + 1);
    LeapYearOfCentury(4 * era + e.c, 4 * e.q + e.t + 1);
    FourthOfYear(e.q, e.t + 1);
    FourthOfYear(era, e.c + 1);
  }

  lemma LeapYearOfCentury(cent: int, yy: int)
    requires 1 <= yy <= 100
    ensures IsLeapYear(100 * cent + yy) <==> yy % 4 == 0 && (yy == 100 ==> (cent + 1) % 4 == 0)
  {
    var y := 100 * cent + yy;
    if yy < 100 {
      CenturyOfYear(cent, yy);
      FourthOfYear(25 * cent, yy);
      FourCenturies(y);
    } else {
      CenturyOfYear(cent + 1, 0);
      FourthOfYear(25 * (cent + 1), 0);
      FourthCentury(cent + 1);
    }
  }

  lemma FourthOfYear(k: int, yy: int)
    ensures (4 * k + yy) % 4 == yy % 4
  {
  }

  lemma FourCenturies(y: int)
    ensures y % 400 == 0 ==> y % 100 == 0
  {
    if y % 400 == 0 { CenturyOfYear(4 * (y / 400), 0); }
  }

  lemma FourthCentury(c: int)
    ensures (100 * c) % 400 == 0 <==> c % 4 == 0
  {
    EraOfYear(c / 4, 100 * (c % 4));
  }

  // ---------- The inverse, and the theorems ----------

  /** The day number of a date; 1970-01-01 is day 0. Used in proofs only. */
  ghost function DaysFromCivil(d: Date): int {
    YearStart(MarchYear(d)) + YearDay(d) - 719_468
  }

  /** The era position behind a day number, and what the formula makes of it. */
  lemma CivilPosition(days: int) returns (era: int, e: EraDay)
    ensures e.Valid() && days == 146_097 * era + e.DayOfEra() - 719_468
    ensures ValidDate(CivilFromDays(days))
    ensures MarchYear(CivilFromDays(days)) == 400 * era + e.Year()
    ensures YearDay(CivilFromDays(days)) == e.doy
  {
    hide CivilFromDays, DateOfYearDay;
    var z := days + 719_468;
    era, e := z / 146_097, Locate(z % 146_097);
    CivilAt(era, e);
    LeapYearOfEra(era, e);
    DateOfYearDayIsValid(400 * era + e.Year(), e.doy);
  }

  /** Every integer yields a real date, and the date determines the integer. */
  lemma CivilIsValidAndInvertible(days: int)
    ensures ValidDate(CivilFromDays(days))
    ensures DaysFromCivil(CivilFromDays(days)) == days
  {
    hide CivilFromDays, YearStart, YearDay, MarchYear, YearOfEra, ValidDate;
    hide EraDay.Valid, EraDay.Year, EraDay.DayOfEra;
    var era, e := CivilPosition(days);
    YearOfEraIsExact(e);
    YearStartOfSum(era, e.Year());
  }

  /** Every real date is produced by exactly the day number `DaysFromCivil` names. */
  lemma CivilOfDays(d: Date)
    requires ValidDate(d)
    ensures CivilFromDays(DaysFromCivil(d)) == d
  {
    hide CivilFromDays, DateOfEraDay, DateOfYearDay, YearOfEra, YearStart, YearDay;
    var y := MarchYear(d);
    var era, yoe := y / 400, y % 400;
    var e := EraDay(yoe / 100, yoe % 100 / 4, yoe % 4, YearDay(d));
    assert e.Year() == yoe;
    YearDayOfDate(d);
    var e0 := e.(doy := 0);
    LeapYearOfEra(era, e0);
    CivilAt(era, e);
    YearOfEraIsExact(e);
    YearStartOfSum(era, yoe);
  }

  lemma NextDateIsNextDay(d: Date)
    requires ValidDate(d)
    ensures ValidDate(NextDate(d))
    ensures DaysFromCivil(NextDate(d)) == DaysFromCivil(d) + 1
  {
    hide YearStart;
    if d.month == 2 && d.day == DaysInMonth(d.year, 2) {
      var y := d.year - 1;
      assert MarchYear(d) == y && MarchYear(NextDate(d)) == y + 1;
      StartOfYear(y);
    }
  }

  /** Day number of 1 March of `y`, up to a constant. */
  ghost function YearStart(y: int): int {
    var yoe := y % 400;
    146_097 * (y / 400) + 365 * yoe + yoe / 4 - yoe / 100
  }

  lemma StartOfYear(y: int)
    ensures YearStart(y + 1) == YearStart(y) + LastYearDay(y) + 1
  {
    hide YearStart, IsLeapYear, EraDay.Valid, EraDay.Year;
    var era, e := y / 400, YearPosition(y % 400);
    LeapYearOfEra(era, e);
    StartOfNextYear(era, e);
  }

  lemma StartOfNextYear(era: int, e: EraDay)
    requires e.Valid()
    ensures var y := 400 * era + e.Year();
      YearStart(y + 1) == YearStart(y) + (if e.EndsInLeapDay() then 366 else 365)
  {
    hide YearStart, EraDay.Year;
    var yoe := e.Year();
    QuartersAndCenturies(e);
    YearStartOfSum(era, yoe);
    if yoe < 399 {
      YearStartOfSum(era, yoe + 1);
    } else {
      YearStartOfSum(era + 1, 0);
    }
  }

  ghost function YearPosition(yoe: int): (e: EraDay)
    requires 0 <= yoe < 400
    ensures e.Valid() && e.Year() == yoe && e.doy == 0
  {
    EraDay(yoe / 100, yoe % 100 / 4, yoe % 4, 0)
  }

  lemma QuartersAndCenturies(e: EraDay)
    requires e.Valid()
    ensures 0 <= e.Year() < 400 && (e.Year() == 399 <==> e.c == 3 && e.q == 24 && e.t == 3)
    ensures e.Year() / 4 == 25 * e.c + e.q && e.Year() / 100 == e.c
    ensures (e.Year() + 1) / 4 == 25 * e.c + e.q + (if e.t == 3 then 1 else 0)
    ensures (e.Year() + 1) / 100 == e.c + (if e.t == 3 && e.q == 24 then 1 else 0)
  {
  }

  lemma YearStartOfSum(era: int, yoe: int)
    requires 0 <= yoe < 400
    ensures YearStart(400 * era + yoe) == 146_097 * era + 365 * yoe + yoe / 4 - yoe / 100
  {
    EraOfYear(era, yoe);
  }

  lemma EraOfYear(era: int, yoe: int)
    requires 0 <= yoe < 400
    ensures (400 * era + yoe) / 400 == era && (400 * era + yoe) % 400 == yoe
  {
  }

  /** The formula is the Gregorian calendar: it starts at 1970-01-01 and each day is
      followed by the calendar's next date. */
  lemma CivilFollowsTheCalendar(days: int)
    ensures CivilFromDays(0) == Date(1970, 1, 1)
    ensures CivilFromDays(days + 1) == NextDate(CivilFromDays(days))
  {
    hide *;
    CivilAtEpoch();
    CivilStep(days);
  }

  lemma CivilAtEpoch()
    ensures CivilFromDays(0) == Date(1970, 1, 1)
  {
    hide CivilFromDays;
    CivilOfDays(Date(1970, 1, 1));
  }

  lemma CivilStep(days: int)
    ensures CivilFromDays(days + 1) == NextDate(CivilFromDays(days))
  {
    hide *;
    var d := CivilFromDays(days);
    CivilIsValidAndInvertible(days);
    NextDateIsNextDay(d);
    CivilOfDays(NextDate(d));
  }

  /** Two day numbers never share a date. */
  lemma CivilIsInjective(a: int, b: int)
    requires CivilFromDays(a) == CivilFromDays(b)
    ensures a == b
  {
    CivilIsValidAndInvertible(a);
    CivilIsValidAndInvertible(b);
  }

  /** A date comes back on its weekday after 1827 days at the earliest: five years that hold two
      leap days. */
  lemma SameDateYearsLater(d: Date, e: Date, weeks: int)
    requires d.year <= e.year && d.month == e.month && d.day == e.day
    requires DaysFromCivil(e) - DaysFromCivil(d) == 7 * weeks < 1827
    ensures d == e
  {
    var y, k := MarchYear(d), e.year - d.year;
    assert MarchYear(e) == y + k && YearDay(e) == YearDay(d);
    hide YearStart, YearDay, MarchYear;
    YearsTakeDays(y, k);
    if 1 <= k <= 4 {
      FewYearsTakeDays(y, k);
    }
  }

  lemma {:induction false} YearsTakeDays(y: int, k: nat)
    ensures 365 * k <= YearStart(y + k) - YearStart(y)
    decreases k
  {
    hide YearStart, IsLeapYear;
    if k > 0 {
      YearsTakeDays(y, k - 1);
      StartOfYear(y + k - 1);
    }
  }

  /** Up to four years in a row hold at most one leap day. */
  lemma FewYearsTakeDays(y: int, k: nat)
    requires 1 <= k <= 4
    ensures YearStart(y + k) - YearStart(y) <= 365 * k + 1
  {
    hide YearStart;
    StartOfYear(y);
    StartOfYear(y + 1);
    StartOfYear(y + 2);
    StartOfYear(y + 3);
    LeapYearsApart(y + 1);
    LeapYearsApart(y + 2);
    LeapYearsApart(y + 3);
    hide IsLeapYear;
  }

  lemma LeapYearsApart(y: int)
    ensures IsLeapYear(y) ==> !IsLeapYear(y + 1) && !IsLeapYear(y + 2) && !IsLeapYear(y + 3)
  {
    LeapYearIsFourth(y);
    LeapYearIsFourth(y + 1);
    LeapYearIsFourth(y + 2);
    LeapYearIsFourth(y + 3);
    hide IsLeapYear;
  }

  lemma LeapYearIsFourth(y: int)
    ensures IsLeapYear(y) ==> y % 4 == 0
  {
    if y % 400 == 0 {
      FourthOfYear(100 * (y / 400), 0);
    }
  }

  /** No other assignment of valid dates to day numbers starts at 1970-01-01 and steps by
      `NextDate`, forwards and backwards. */
  lemma {:induction false} CalendarIsUnique(f: int -> Date, days: int)
    requires f(0) == Date(1970, 1, 1)
    requires forall z :: ValidDate(f(z)) && f(z + 1) == NextDate(f(z))
    ensures f(days) == CivilFromDays(days)
    decreases if days < 0 then -days else days
  {
    hide *;
    CivilFollowsTheCalendar(0);
    if days > 0 {
      CalendarIsUnique(f, days - 1);
      CivilStep(days - 1);
      assert f(days - 1 + 1) == NextDate(f(days - 1));
    } else if days < 0 {
      CalendarIsUnique(f, days + 1);
      CivilStep(days);
      CivilIsValidAndInvertible(days);
      NextDateIsNextDay(f(days));
      NextDateIsNextDay(CivilFromDays(days));
      CivilOfDays(f(days));
    }
  }

  /** The firmware's weekday index is the weekday of the date it shows. */
  lemma WeekdayIsDayOfWeek(days: int)
    ensures Weekday(days) == DayOfWeek(CivilFromDays(days))
  {
    hide *;
    var era, e := CivilPosition(days);
    WeekdayOfPosition(era, e, CivilFromDays(days));
  }

  lemma WeekdayOfPosition(era: int, e: EraDay, d: Date)
    requires e.Valid() && ValidDate(d)
    requires MarchYear(d) == 400 * era + e.Year() && YearDay(d) == e.doy
    ensures Weekday(146_097 * era + e.DayOfEra() - 719_468) == DayOfWeek(d)
  {
    var mp := if d.month > 2 then d.month - 3 else d.month + 9;
    var zeller := (13 * mp + 12) / 5 + d.day + 4 * e.q + e.t + e.q + era + 5 * (4 * era + e.c);
    Zeller(era, e, d, mp);
    MonthTerm(mp);
    var k := 20_868 * era + 5_217 * e.c + 208 * e.q + 52 * e.t + 4 * mp - 102_781;
    SameRemainder(146_097 * era + e.DayOfEra() - 719_464, zeller, k);
  }

  /** The month term of the weekday rule against the month starts of `YearDay`. */
  lemma MonthTerm(mp: int)
    requires 0 <= mp <= 11
    ensures (153 * mp + 2) / 5 == (13 * mp + 12) / 5 + 28 * mp - 2
  {
  }

  lemma Zeller(era: int, e: EraDay, d: Date, mp: int)
    requires 0 <= e.c <= 3 && 0 <= e.q <= 24 && 0 <= e.t <= 3
    requires 1 <= d.month <= 12 && MarchYear(d) == 400 * era + e.Year()
    requires mp == if d.month > 2 then d.month - 3 else d.month + 9
    ensures DayOfWeek(d)
         == ((13 * mp + 12) / 5 + d.day + 4 * e.q + e.t + e.q + era + 5 * (4 * era + e.c)) % 7
  {
    var y := MarchYear(d);
    assert y == 100 * (4 * era + e.c) + (4 * e.q + e.t);
    CenturyOfYear(4 * era + e.c, 4 * e.q + e.t);
    assert (4 * e.q + e.t) / 4 == e.q && (4 * era + e.c) / 4 == era;
    assert (26 * (mp + 1) - 2) / 10 == (13 * mp + 12) / 5;
  }

  lemma CenturyOfYear(cent: int, yy: int)
    requires 0 <= yy < 100
    ensures (100 * cent + yy) / 100 == cent && (100 * cent + yy) % 100 == yy
  {
  }

  lemma SameRemainder(x: int, y: int, k: int)
    requires x == 7 * k + y
    ensures x % 7 == y % 7
  {
  }
}
