/** What the main and calendar screens show for an instant (firmware/src/ui.rs), and the
    redraw keys that decide when the loop draws again (firmware/src/main.rs). */
module CalendarScreen {
  import opened Wrappers
  import opened Text
  import opened Calendar

  const MIN_VALID_UNIX_TIME: int := 1_700_000_000
  const SECONDS_PER_DAY: int := 86_400
  const I64_MIN: int := -0x8000_0000_0000_0000
  const I64_MAX: int := 0x7FFF_FFFF_FFFF_FFFF

  predicate IsNtpSynced(unixSecs: int) {
    unixSecs >= MIN_VALID_UNIX_TIME
  }

  function LocalSeconds(unixSecs: int, tzHours: int): int {
    unixSecs + tzHours * 3600
  }

  function LocalDay(unixSecs: int, tzHours: int): int {
    LocalSeconds(unixSecs, tzHours) / SECONDS_PER_DAY
  }

  // ---------- Clock band ----------

  datatype ClockStrings = ClockStrings(time: string, date: string)

  const WEEKDAY_NAMES: seq<string> := ["SUN", "MON", "TUE", "WED", "THU", "FRI", "SAT"]

  const UNSYNCED_CLOCK := ClockStrings("--:--", "--/-- ---")

  function ClockFor(unixSecs: int, tzHours: int): ClockStrings {
    if !IsNtpSynced(unixSecs) then UNSYNCED_CLOCK
    else
      var secs := LocalSeconds(unixSecs, tzHours) % SECONDS_PER_DAY;
      var days := LocalDay(unixSecs, tzHours);
      var d := CivilFromDays(days);
      ClockStrings(
        ZeroPadded(secs / 3600, 2) + ":" + ZeroPadded(secs % 3600 / 60, 2),
        ZeroPadded(d.month, 2) + "/" + ZeroPadded(d.day, 2) + " " + WEEKDAY_NAMES[Weekday(days)])
  }

  /** The local minute, or `i64::MIN` while the clock is not synced. */
  function MinuteKey(unixSecs: int, tzHours: int): int {
    if !IsNtpSynced(unixSecs) then I64_MIN else LocalSeconds(unixSecs, tzHours) / 60
  }

  /** The i64 addition and multiplication in the key do not overflow. */
  predicate Representable(unixSecs: int, tzHours: int) {
    I64_MIN <= unixSecs <= I64_MAX && I64_MIN <= LocalSeconds(unixSecs, tzHours) <= I64_MAX
  }

  /** Every time of day up to the year 9999 is representable, and the key of an unsynced clock is
      below that of any synced one. */
  lemma UsualTimesAreRepresentable(unixSecs: int, tzHours: int)
    requires 0 <= unixSecs < 253_402_300_800 && -24 <= tzHours <= 24
    ensures Representable(unixSecs, tzHours)
    ensures MinuteKey(unixSecs, tzHours) ==
      if unixSecs < 1_700_000_000 then -0x8000_0000_0000_0000 else (unixSecs + 3600 * tzHours) / 60
  {
  }

  /** An equal minute key means that the clock band reads the same. */
  lemma MinuteKeyIsExact(a: int, b: int, tzHours: int)
    requires Representable(a, tzHours) && Representable(b, tzHours)
    requires MinuteKey(a, tzHours) == MinuteKey(b, tzHours)
    ensures ClockFor(a, tzHours) == ClockFor(b, tzHours)
  {
    if IsNtpSynced(a) {
      MinuteDecides(LocalSeconds(a, tzHours));
      MinuteDecides(LocalSeconds(b, tzHours));
    }
  }

  lemma MinuteDecides(s: int)
    ensures s / SECONDS_PER_DAY == (s / 60) / 1440
    ensures (s % SECONDS_PER_DAY) / 3600 == (s / 60) % 1440 / 60
    ensures (s % SECONDS_PER_DAY) % 3600 / 60 == (s / 60) % 1440 % 60
  {
    var d, m, r := s / 60 / 1440, s / 60 % 1440, s % 60;
    assert s == SECONDS_PER_DAY * d + 60 * m + r;
    assert s / SECONDS_PER_DAY == d && s % SECONDS_PER_DAY == 60 * m + r;
    var h, n := m / 60, m % 60;
    assert 60 * m + r == 3600 * h + 60 * n + r;
  }

  // ---------- Month grid ----------

  function CalendarDate(unixSecs: int, tzHours: int): Option<Date> {
    if IsNtpSynced(unixSecs) then Some(CivilFromDays(LocalDay(unixSecs, tzHours))) else None
  }

  type Grid = seq<seq<Option<int>>>

  /** What a finished month grid must be, said without reference to how it is filled: seven
      Sunday-first columns, every day of the month in the column of its weekday, rows broken
      exactly at Sundays, and nothing else. */
  ghost predicate ShowsMonth(weeks: Grid, year: int, month: int) {
    && |weeks| == 6 && (forall r :: 0 <= r < 6 ==> |weeks[r]| == 7)
    && OnlyDays(weeks, year, month)
    && AllDays(weeks, year, month)
  }

  ghost predicate OnlyDays(weeks: Grid, year: int, month: int)
    requires |weeks| == 6 && forall r :: 0 <= r < 6 ==> |weeks[r]| == 7
  {
    forall r, c :: 0 <= r < 6 && 0 <= c < 7 && weeks[r][c].Some? ==>
      && 1 <= weeks[r][c].value <= DaysInMonth(year, month)
      && IsPlace(Date(year, month, weeks[r][c].value), r, c)
  }

  ghost predicate AllDays(weeks: Grid, year: int, month: int)
    requires |weeks| == 6 && forall r :: 0 <= r < 6 ==> |weeks[r]| == 7
  {
    forall n :: 1 <= n <= DaysInMonth(year, month) ==> Shown(weeks, year, month, n)
  }

  ghost predicate Shown(weeks: Grid, year: int, month: int, n: int)
    requires |weeks| == 6 && forall r :: 0 <= r < 6 ==> |weeks[r]| == 7
  {
    exists r, c ::
      0 <= r < 6 && 0 <= c < 7 && IsPlace(Date(year, month, n), r, c) && weeks[r][c] == Some(n)
  }

  /** Column: the weekday. Row: how many Sundays the month has had since day 1. */
  ghost predicate IsPlace(d: Date, r: int, c: int) {
    c == DayOfWeek(d) && r == SundaysUpTo(d)
  }

  /** How many of days 2 to `d.day` of the month are Sundays. */
  ghost function SundaysUpTo(d: Date): int
    decreases d.day
  {
    if d.day <= 1 then 0
    else SundaysUpTo(d.(day := d.day - 1)) + (if DayOfWeek(d) == 0 then 1 else 0)
  }

  /** The first of the month lies `day - 1` days back, and days of one month are consecutive. */
  lemma DayOfSameMonth(days: int, n: int)
    ensures var d := CivilFromDays(days);
      1 <= n <= DaysInMonth(d.year, d.month) ==> CivilFromDays(days - d.day + n) == d.(day := n)
  {
    hide CivilFromDays;
    var d := CivilFromDays(days);
    var e := d.(day := n);
    CivilIsValidAndInvertible(days);
    if 1 <= n <= DaysInMonth(d.year, d.month) {
      CivilOfDays(e);
      assert MarchYear(e) == MarchYear(d) && YearDay(e) == YearDay(d) - d.day + n;
    }
  }

  lemma {:induction false} PlaceOfDay(days: int, n: int)
    ensures var d := CivilFromDays(days);
      var idx := Weekday(days - (d.day - 1)) + n - 1;
      1 <= n <= DaysInMonth(d.year, d.month) ==>
        0 <= idx < 42 && DayOfWeek(d.(day := n)) == idx % 7 && SundaysUpTo(d.(day := n)) == idx / 7
    decreases n
  {
    hide CivilFromDays, DayOfWeek, DaysInMonth, Weekday;
    var d := CivilFromDays(days);
    if 1 <= n <= DaysInMonth(d.year, d.month) {
      DayOfSameMonth(days, n);
      WeekdayIsDayOfWeek(days - d.day + n);
      WeekdayRange(days - (d.day - 1));
      WeekdayAfter(days - (d.day - 1), n - 1);
      MonthLengthRange(d);
      if n > 1 {
        PlaceOfDay(days, n - 1);
        assert d.(day := n).(day := n - 1) == d.(day := n - 1);
      }
    }
  }

  lemma WeekdayAfter(days: int, n: int)
    ensures Weekday(days + n) == (Weekday(days) + n) % 7
    ensures (Weekday(days) + n) / 7
         == (Weekday(days) + n - 1) / 7 + (if Weekday(days + n) == 0 then 1 else 0)
  {
  }

  datatype CalendarView = CalendarView(title: string, synced: bool, weeks: Grid, today: Option<int>)

  const EMPTY_WEEK: seq<Option<int>> := [None, None, None, None, None, None, None]
  const EMPTY_GRID: Grid := [EMPTY_WEEK, EMPTY_WEEK, EMPTY_WEEK, EMPTY_WEEK, EMPTY_WEEK, EMPTY_WEEK]

  /** The view that the calendar screen must show at an instant. */
  ghost predicate IsViewOf(v: CalendarView, unixSecs: int, tzHours: int) {
    match CalendarDate(unixSecs, tzHours)
    case None => v == CalendarView("----/--", false, EMPTY_GRID, None)
    case Some(d) =>
      && v.title == ZeroPadded(d.year, 4) + "-" + ZeroPadded(d.month, 2)
      && v.synced
      && ShowsMonth(v.weeks, d.year, d.month)
      && v.today == Some(d.day)
  }

  /** Builds the view; the grid is filled from the weekday of the first of the month. */
  method BuildView(unixSecs: int, tzHours: int) returns (v: CalendarView)
    ensures IsViewOf(v, unixSecs, tzHours)
  {
    hide CivilFromDays, DaysInMonth, ShowsMonth, Weekday, CellBefore, LocalDay;
    var date := CalendarDate(unixSecs, tzHours);
    if date.None? {
      return CalendarView("----/--", false, EMPTY_GRID, None);
    }
    var today := date.value;
    var days := LocalDay(unixSecs, tzHours);
    var firstDays := days - (today.day - 1);
    WeekdayRange(firstDays);
    MonthLengthRange(today);
    var weeks := FillWeeks(Weekday(firstDays), DaysInMonth(today.year, today.month));
    FilledGridShowsMonth(days, weeks);
    v := CalendarView(ZeroPadded(today.year, 4) + "-" + ZeroPadded(today.month, 2), true, weeks, Some(today.day));
  }

  lemma WeekdayRange(days: int)
    ensures 0 <= Weekday(days) < 7
  {
  }

  lemma MonthLengthRange(d: Date)
    ensures 28 <= DaysInMonth(d.year, d.month) <= 31
  {
  }

  method FillWeeks(firstWeekday: int, monthLength: int) returns (weeks: Grid)
    requires 0 <= firstWeekday < 7 && 28 <= monthLength <= 31
    ensures |weeks| == 6 && forall r :: 0 <= r < 6 ==> |weeks[r]| == 7
    ensures forall r, c :: 0 <= r < 6 && 0 <= c < 7 ==>
      weeks[r][c] == CellBefore(monthLength + 1, firstWeekday, r, c)
  {
    var cells := new Option<int>[6, 7]((_, _) => None);
    for day := 1 to monthLength + 1
      invariant forall r, c :: 0 <= r < 6 && 0 <= c < 7 ==>
        cells[r, c] == CellBefore(day, firstWeekday, r, c)
    {
      var idx := firstWeekday + (day - 1);
      cells[idx / 7, idx % 7] := Some(day);
    }
    weeks := seq(6, r requires 0 <= r < 6 reads cells =>
      seq(7, c requires 0 <= c < 7 reads cells => cells[r, c]));
  }

  /** A cell of the grid when days 1 to `day - 1` have been written. */
  ghost function CellBefore(day: int, firstWeekday: int, r: int, c: int): Option<int> {
    var n := 7 * r + c - firstWeekday + 1;
    if 1 <= n < day then Some(n) else None
  }

  lemma FilledGridShowsMonth(days: int, weeks: Grid)
    requires |weeks| == 6 && forall r :: 0 <= r < 6 ==> |weeks[r]| == 7
    requires var d := CivilFromDays(days);
      forall r, c :: 0 <= r < 6 && 0 <= c < 7 ==>
        weeks[r][c] == CellBefore(DaysInMonth(d.year, d.month) + 1, Weekday(days - (d.day - 1)), r, c)
    ensures var d := CivilFromDays(days); ShowsMonth(weeks, d.year, d.month)
  {
    hide CivilFromDays, DayOfWeek, Weekday, SundaysUpTo, DaysInMonth, IsPlace;
    var d := CivilFromDays(days);
    forall r, c | 0 <= r < 6 && 0 <= c < 7 && weeks[r][c].Some?
      ensures IsPlace(Date(d.year, d.month, weeks[r][c].value), r, c)
    {
      CellOfDay(days, weeks[r][c].value, r, c);
    }
    forall n | 1 <= n <= DaysInMonth(d.year, d.month) ensures Shown(weeks, d.year, d.month, n) {
      WeekdayRange(days - (d.day - 1));
      MonthLengthRange(d);
      var idx := Weekday(days - (d.day - 1)) + n - 1;
      var r, c := idx / 7, idx % 7;
      CellOfDay(days, n, r, c);
      assert weeks[r][c] == Some(n);
    }
  }

  /** Day `n` belongs where the filling loop writes it. */
  lemma CellOfDay(days: int, n: int, r: int, c: int)
    requires var d := CivilFromDays(days); 1 <= n <= DaysInMonth(d.year, d.month)
    requires 0 <= c < 7 && 7 * r + c == Weekday(days - (CivilFromDays(days).day - 1)) + n - 1
    ensures var d := CivilFromDays(days); IsPlace(Date(d.year, d.month, n), r, c)
  {
    hide CivilFromDays, DayOfWeek, Weekday, SundaysUpTo, DaysInMonth;
    var d := CivilFromDays(days);
    PlaceOfDay(days, n);
    assert d.(day := n) == Date(d.year, d.month, n);
    assert (7 * r + c) / 7 == r && (7 * r + c) % 7 == c;
  }

  /** `ShowsMonth` leaves no freedom: a month has one grid. */
  lemma GridIsDetermined(g: Grid, h: Grid, year: int, month: int)
    requires ShowsMonth(g, year, month) && ShowsMonth(h, year, month)
    ensures g == h
  {
    hide DayOfWeek, SundaysUpTo, DaysInMonth;
    forall r, c | 0 <= r < 6 && 0 <= c < 7 ensures g[r][c] == h[r][c] {
      if g[r][c].Some? {
        SameDay(g, h, year, month, r, c);
      }
      if h[r][c].Some? {
        SameDay(h, g, year, month, r, c);
      }
    }
    forall r | 0 <= r < 6 ensures g[r] == h[r] {
    }
  }

  lemma SameDay(g: Grid, h: Grid, year: int, month: int, r: int, c: int)
    requires ShowsMonth(g, year, month) && ShowsMonth(h, year, month)
    requires 0 <= r < 6 && 0 <= c < 7 && g[r][c].Some?
    ensures h[r][c] == g[r][c]
  {
    var n := g[r][c].value;
    assert Shown(h, year, month, n);
    var r', c' :| 0 <= r' < 6 && 0 <= c' < 7 && IsPlace(Date(year, month, n), r', c') && h[r'][c'] == Some(n);
  }

  /** Today is in the grid exactly once, in the column of today's weekday. */
  lemma TodayIsShown(v: CalendarView, unixSecs: int, tzHours: int, r: int, c: int)
    requires 0 <= r < 6 && 0 <= c < 7
    ensures IsNtpSynced(unixSecs) && IsViewOf(v, unixSecs, tzHours) ==>
      (v.weeks[r][c] == v.today <==>
         c == Weekday(LocalDay(unixSecs, tzHours)) && r == SundaysUpTo(CivilFromDays(LocalDay(unixSecs, tzHours))))
  {
    hide CivilFromDays, DayOfWeek, SundaysUpTo, LocalDay, Weekday, DaysInMonth, ZeroPadded;
    var days := LocalDay(unixSecs, tzHours);
    CivilIsValidAndInvertible(days);
    WeekdayIsDayOfWeek(days);
    var d := CivilFromDays(days);
    assert d == Date(d.year, d.month, d.day);
    if IsNtpSynced(unixSecs) && IsViewOf(v, unixSecs, tzHours) {
      assert Shown(v.weeks, d.year, d.month, d.day);
    }
  }

  /** The day key is an exact cache key: it is unchanged if and only if the view is unchanged, and
      between synced instants if and only if the local day is the same. */
  lemma DayKeyIsExact(v: CalendarView, a: int, w: CalendarView, b: int, tzHours: int)
    requires IsViewOf(v, a, tzHours) && IsViewOf(w, b, tzHours)
    ensures CalendarDate(a, tzHours) == CalendarDate(b, tzHours) <==> v == w
    ensures IsNtpSynced(a) && IsNtpSynced(b) ==>
      (v == w <==> LocalDay(a, tzHours) == LocalDay(b, tzHours))
  {
    hide CivilFromDays, ShowsMonth, LocalDay;
    if IsNtpSynced(a) && IsNtpSynced(b) {
      var d, e := CalendarDate(a, tzHours).value, CalendarDate(b, tzHours).value;
      if d == e {
        CivilIsInjective(LocalDay(a, tzHours), LocalDay(b, tzHours));
        GridIsDetermined(v.weeks, w.weeks, d.year, d.month);
      } else if v.title == w.title {
        CivilIsValidAndInvertible(LocalDay(a, tzHours));
        CivilIsValidAndInvertible(LocalDay(b, tzHours));
        TitleIsExact(d, e);
      }
    }
  }

  lemma TitleIsExact(d: Date, e: Date)
    requires d.month >= 0 && e.month >= 0
    requires ZeroPadded(d.year, 4) + "-" + ZeroPadded(d.month, 2)
          == ZeroPadded(e.year, 4) + "-" + ZeroPadded(e.month, 2)
    ensures d.year == e.year && d.month == e.month
  {
    PeelRight(ZeroPadded(d.year, 4), ZeroPadded(d.month, 2), ZeroPadded(e.year, 4), ZeroPadded(e.month, 2), '-');
    ZeroPaddedIsInjective(d.year, e.year, 4);
    ZeroPaddedIsInjective(d.month, e.month, 2);
  }

  // ---------- What the loop keeps on the panel ----------

  lemma MinuteKeyIsMonotone(a: int, b: int, tzHours: int)
    requires a <= b && Representable(a, tzHours) && Representable(b, tzHours)
    ensures MinuteKey(a, tzHours) <= MinuteKey(b, tzHours)
  {
  }

  lemma MinuteKeyBetween(a: int, b: int, c: int, tzHours: int)
    requires a <= b <= c && Representable(a, tzHours) && Representable(b, tzHours) && Representable(c, tzHours)
    requires MinuteKey(a, tzHours) == MinuteKey(c, tzHours)
    ensures ClockFor(b, tzHours) == ClockFor(c, tzHours)
  {
    MinuteKeyIsMonotone(a, b, tzHours);
    MinuteKeyIsMonotone(b, c, tzHours);
    MinuteKeyIsExact(b, c, tzHours);
  }

  /** The clock band names the minute of the day, the day of the month, the month and the weekday,
      and no more. */
  lemma ClockShows(a: int, b: int, tzHours: int)
    requires IsNtpSynced(a) && IsNtpSynced(b)
    ensures ClockFor(a, tzHours) == ClockFor(b, tzHours) <==>
      && LocalSeconds(a, tzHours) % SECONDS_PER_DAY / 60 == LocalSeconds(b, tzHours) % SECONDS_PER_DAY / 60
      && var d, e := CivilFromDays(LocalDay(a, tzHours)), CivilFromDays(LocalDay(b, tzHours));
         d.month == e.month && d.day == e.day && Weekday(LocalDay(a, tzHours)) == Weekday(LocalDay(b, tzHours))
  {
    hide CivilFromDays, LocalSeconds, LocalDay, IsNtpSynced, Weekday, ZeroPadded;
    WeekdayRange(LocalDay(a, tzHours));
    WeekdayRange(LocalDay(b, tzHours));
    var s, u := LocalSeconds(a, tzHours) % SECONDS_PER_DAY, LocalSeconds(b, tzHours) % SECONDS_PER_DAY;
    var d, e := CivilFromDays(LocalDay(a, tzHours)), CivilFromDays(LocalDay(b, tzHours));
    CivilIsValidAndInvertible(LocalDay(a, tzHours));
    CivilIsValidAndInvertible(LocalDay(b, tzHours));
    TimeTextIsExact(s / 3600, s % 3600 / 60, u / 3600, u % 3600 / 60);
    DateTextIsExact(d.month, d.day, Weekday(LocalDay(a, tzHours)), e.month, e.day, Weekday(LocalDay(b, tzHours)));
  }

  lemma TimeTextIsExact(h: int, m: int, h': int, m': int)
    requires h >= 0 && h' >= 0 && m >= 0 && m' >= 0
    ensures ZeroPadded(h, 2) + ":" + ZeroPadded(m, 2) == ZeroPadded(h', 2) + ":" + ZeroPadded(m', 2)
      <==> h == h' && m == m'
  {
    if ZeroPadded(h, 2) + ":" + ZeroPadded(m, 2) == ZeroPadded(h', 2) + ":" + ZeroPadded(m', 2) {
      PeelRight(ZeroPadded(h, 2), ZeroPadded(m, 2), ZeroPadded(h', 2), ZeroPadded(m', 2), ':');
      ZeroPaddedIsInjective(h, h', 2);
      ZeroPaddedIsInjective(m, m', 2);
    }
  }

  function DateText(month: int, day: int, weekday: int): string
    requires 0 <= weekday < 7
  {
    ZeroPadded(month, 2) + "/" + ZeroPadded(day, 2) + " " + WEEKDAY_NAMES[weekday]
  }

  lemma DateTextIsExact(m: int, d: int, w: int, m': int, d': int, w': int)
    requires m >= 0 && d >= 0 && m' >= 0 && d' >= 0 && 0 <= w < 7 && 0 <= w' < 7
    ensures DateText(m, d, w) == DateText(m', d', w') <==> m == m' && d == d' && w == w'
  {
    WeekdayNamesDiffer(w, w');
    DateTextParts(m, d, WEEKDAY_NAMES[w], m', d', WEEKDAY_NAMES[w']);
    hide ZeroPadded, WEEKDAY_NAMES;
  }

  lemma DateTextParts(m: int, d: int, n: string, m': int, d': int, n': string)
    requires m >= 0 && d >= 0 && m' >= 0 && d' >= 0 && ' ' !in n && ' ' !in n'
    ensures
      ZeroPadded(m, 2) + "/" + ZeroPadded(d, 2) + " " + n == ZeroPadded(m', 2) + "/" + ZeroPadded(d', 2) + " " + n'
      ==> m == m' && d == d' && n == n'
  {
    hide PaddedNat;
    var a, a' := ZeroPadded(m, 2) + "/" + ZeroPadded(d, 2), ZeroPadded(m', 2) + "/" + ZeroPadded(d', 2);
    if a + " " + n == a' + " " + n' {
      PeelRight(a, n, a', n', ' ');
      PeelRight(ZeroPadded(m, 2), ZeroPadded(d, 2), ZeroPadded(m', 2), ZeroPadded(d', 2), '/');
      ZeroPaddedIsInjective(m, m', 2);
      ZeroPaddedIsInjective(d, d', 2);
    }
  }

  lemma WeekdayNamesDiffer(w: int, w': int)
    requires 0 <= w < 7 && 0 <= w' < 7
    ensures ' ' !in WEEKDAY_NAMES[w] && (WEEKDAY_NAMES[w] == WEEKDAY_NAMES[w'] ==> w == w')
  {
  }

  /** Two digits of a number below 100. */
  ghost predicate TwoDigits(s: string, n: int) {
    |s| == 2 && IsDigit(s[0]) && IsDigit(s[1]) && n == 10 * (s[0] as int - 48) + (s[1] as int - 48)
  }

  lemma ZeroPaddedIsTwoDigits(n: int)
    requires 0 <= n < 100
    ensures TwoDigits(ZeroPadded(n, 2), n)
  {
    if n < 10 {
      assert DecimalNat(n) == [Digit(n)];
      assert Zeros(1) == Zeros(0) + "0" == "0";
    } else {
      assert DecimalNat(n) == DecimalNat(n / 10) + [Digit(n % 10)] == [Digit(n / 10)] + [Digit(n % 10)];
    }
  }

  /** HH:MM */
  ghost predicate IsTimeText(t: string, minutes: int) {
    |t| == 5 && t[2] == ':' && TwoDigits(t[..2], minutes / 60 % 24) && TwoDigits(t[3..], minutes % 60)
  }

  /** MM/DD WWW */
  ghost predicate IsDateText(t: string, d: Date) {
    && |t| == 9 && t[2] == '/' && t[5] == ' ' && TwoDigits(t[..2], d.month) && TwoDigits(t[3..5], d.day)
    && t[6..] == match DayOfWeek(d)
       case 0 => "SUN" case 1 => "MON" case 2 => "TUE" case 3 => "WED" case 4 => "THU" case 5 => "FRI" case _ => "SAT"
  }

  /** The clock band, character by character: time and date of the instant, shifted by the offset in
      hours; dashes until the clock shows at least 1_700_000_000. */
  lemma BandText(unixSecs: int, tzHours: int)
    ensures unixSecs < 1_700_000_000 ==> ClockFor(unixSecs, tzHours) == ClockStrings("--:--", "--/-- ---")
    ensures unixSecs >= 1_700_000_000 ==>
      var local := unixSecs + 3600 * tzHours;
      && IsTimeText(ClockFor(unixSecs, tzHours).time, local / 60)
      && IsDateText(ClockFor(unixSecs, tzHours).date, CivilFromDays(local / 86_400))
  {
    if unixSecs >= 1_700_000_000 {
      TimeTextOf(LocalSeconds(unixSecs, tzHours));
      DateTextOf(LocalDay(unixSecs, tzHours));
    }
    hide CivilFromDays, ZeroPadded, Weekday, WEEKDAY_NAMES, IsTimeText, IsDateText;
  }

  lemma TimeTextOf(s: int)
    ensures var secs := s % SECONDS_PER_DAY;
      IsTimeText(ZeroPadded(secs / 3600, 2) + ":" + ZeroPadded(secs % 3600 / 60, 2), s / 60)
  {
    var h, m := s % SECONDS_PER_DAY / 3600, s % SECONDS_PER_DAY % 3600 / 60;
    MinuteDecides(s);
    MinutesOfDay(s / 60);
    assert 0 <= h < 24 && 0 <= m < 60;
    hide ZeroPadded;
    ZeroPaddedIsTwoDigits(h);
    ZeroPaddedIsTwoDigits(m);
    TimeSlices(ZeroPadded(h, 2), ZeroPadded(m, 2));
  }

  lemma DateTextOf(days: int)
    ensures var d := CivilFromDays(days);
      IsDateText(ZeroPadded(d.month, 2) + "/" + ZeroPadded(d.day, 2) + " " + WEEKDAY_NAMES[Weekday(days)], d)
  {
    var d := CivilFromDays(days);
    CivilIsValidAndInvertible(days);
    WeekdayIsDayOfWeek(days);
    WeekdayRange(days);
    MonthLengthRange(d);
    hide CivilFromDays, DayOfWeek, Weekday, ZeroPadded, DaysInMonth;
    ZeroPaddedIsTwoDigits(d.month);
    ZeroPaddedIsTwoDigits(d.day);
    DateSlices(ZeroPadded(d.month, 2), ZeroPadded(d.day, 2), WEEKDAY_NAMES[Weekday(days)]);
  }

  /** The calendar's title is YYYY-MM of the local day. */
  lemma TitleText(v: CalendarView, unixSecs: int, tzHours: int)
    requires IsViewOf(v, unixSecs, tzHours)
    ensures unixSecs < 1_700_000_000 ==> v.title == "----/--" && v.today.None?
    ensures unixSecs >= 1_700_000_000 ==>
      var today := CivilFromDays((unixSecs + 3600 * tzHours) / 86_400);
      && v.today == Some(today.day)
      && (1000 <= today.year <= 9999 ==>
            && |v.title| == 7 && v.title[4] == '-' && TwoDigits(v.title[5..], today.month)
            && TwoDigits(v.title[..2], today.year / 100) && TwoDigits(v.title[2..4], today.year % 100))
  {
    hide CivilFromDays, ShowsMonth;
    if unixSecs >= 1_700_000_000 {
      CivilIsValidAndInvertible(LocalDay(unixSecs, tzHours));
      var d := CivilFromDays(LocalDay(unixSecs, tzHours));
      ZeroPaddedIsTwoDigits(d.month);
      if 1000 <= d.year <= 9999 {
        ZeroPaddedIsFourDigits(d.year);
        TitleSlices(ZeroPadded(d.year, 4), ZeroPadded(d.month, 2));
      }
    }
  }

  lemma ZeroPaddedIsFourDigits(n: int)
    requires 1000 <= n <= 9999
    ensures var s := ZeroPadded(n, 4); |s| == 4 && TwoDigits(s[..2], n / 100) && TwoDigits(s[2..], n % 100)
  {
    var a, b, c := n / 1000, n / 100, n / 10;
    assert DecimalNat(a) == [Digit(a)];
    assert DecimalNat(b) == [Digit(a), Digit(b % 10)];
    assert DecimalNat(c) == [Digit(a), Digit(b % 10), Digit(c % 10)];
    assert DecimalNat(n) == [Digit(a), Digit(b % 10), Digit(c % 10), Digit(n % 10)];
    assert Zeros(0) == "";
    assert ZeroPadded(n, 4) == DecimalNat(n);
  }

  lemma TitleSlices(a: string, b: string)
    requires |a| == 4 && |b| == 2
    ensures var t := a + "-" + b;
      |t| == 7 && t[4] == '-' && t[5..] == b && t[..2] == a[..2] && t[2..4] == a[2..]
  {
  }

  lemma MinutesOfDay(n: int)
    ensures n % 1440 / 60 == n / 60 % 24 && n % 1440 % 60 == n % 60
  {
    var d, r := n / 1440, n % 1440;
    var h, m := r / 60, r % 60;
    assert n == 60 * (24 * d + h) + m;
    HoursAndMinutes(24 * d + h, m);
    DaysAndHours(d, h);
  }

  lemma HoursAndMinutes(hours: int, minutes: int)
    requires 0 <= minutes < 60
    ensures (60 * hours + minutes) / 60 == hours && (60 * hours + minutes) % 60 == minutes
  {
  }

  lemma DaysAndHours(days: int, hours: int)
    requires 0 <= hours < 24
    ensures (24 * days + hours) % 24 == hours
  {
  }

  lemma TimeSlices(a: string, b: string)
    requires |a| == 2 && |b| == 2
    ensures var t := a + ":" + b; |t| == 5 && t[..2] == a && t[2] == ':' && t[3..] == b
  {
  }

  lemma DateSlices(a: string, b: string, c: string)
    requires |a| == 2 && |b| == 2 && |c| == 3
    ensures var t := a + "/" + b + " " + c;
      |t| == 9 && t[..2] == a && t[2] == '/' && t[3..5] == b && t[5] == ' ' && t[6..] == c
  {
  }

  /** 1827 days are the shortest time after which a date falls on the same weekday again. */
  const BAND_REPEATS_AFTER_DAYS: int := 1827

  predicate WithinOneBandCycle(a: int, b: int, tzHours: int) {
    IsNtpSynced(a) && IsNtpSynced(b) ==>
      -BAND_REPEATS_AFTER_DAYS < LocalDay(a, tzHours) - LocalDay(b, tzHours) < BAND_REPEATS_AFTER_DAYS
  }

  /** Within a cycle two instants show the same band exactly if they have the same minute key. */
  lemma BandIsExact(a: int, b: int, tzHours: int)
    requires Representable(a, tzHours) && Representable(b, tzHours) && WithinOneBandCycle(a, b, tzHours)
    ensures ClockFor(a, tzHours) == ClockFor(b, tzHours) <==> MinuteKey(a, tzHours) == MinuteKey(b, tzHours)
  {
    if MinuteKey(a, tzHours) == MinuteKey(b, tzHours) {
      MinuteKeyIsExact(a, b, tzHours);
    } else if IsNtpSynced(a) && IsNtpSynced(b) {
      hide ClockFor, CivilFromDays, IsNtpSynced;
      ClockShows(a, b, tzHours);
      if ClockFor(a, tzHours) == ClockFor(b, tzHours) {
        DateRepeatsLate(LocalDay(a, tzHours), LocalDay(b, tzHours));
        MinuteOfDay(LocalSeconds(a, tzHours), LocalSeconds(b, tzHours));
      }
    } else {
      SyncedBandStartsWithDigit(if IsNtpSynced(a) then a else b, tzHours);
    }
  }

  lemma MinuteOfDay(s: int, u: int)
    requires s / SECONDS_PER_DAY == u / SECONDS_PER_DAY
    requires s % SECONDS_PER_DAY / 60 == u % SECONDS_PER_DAY / 60
    ensures s / 60 == u / 60
  {
  }

  lemma SyncedBandStartsWithDigit(unixSecs: int, tzHours: int)
    requires IsNtpSynced(unixSecs)
    ensures ClockFor(unixSecs, tzHours) != UNSYNCED_CLOCK
  {
    hide CivilFromDays, Weekday, LocalDay;
    var secs := LocalSeconds(unixSecs, tzHours) % SECONDS_PER_DAY;
    assert ClockFor(unixSecs, tzHours).time[0] == ZeroPadded(secs / 3600, 2)[0];
    assert IsDigit(ZeroPadded(secs / 3600, 2)[0]);
  }

  lemma DateRepeatsLate(a: int, b: int)
    requires -BAND_REPEATS_AFTER_DAYS < a - b < BAND_REPEATS_AFTER_DAYS && Weekday(a) == Weekday(b)
    requires CivilFromDays(a).month == CivilFromDays(b).month && CivilFromDays(a).day == CivilFromDays(b).day
    ensures a == b
  {
    var weeks := SameWeekday(a, b);
    hide CivilFromDays, DaysFromCivil, Weekday, ValidDate;
    var d, e := CivilFromDays(a), CivilFromDays(b);
    CivilIsValidAndInvertible(a);
    CivilIsValidAndInvertible(b);
    if d.year <= e.year {
      SameDateYearsLater(d, e, weeks);
    } else {
      SameDateYearsLater(e, d, -weeks);
    }
  }

  lemma SameWeekday(a: int, b: int) returns (weeks: int)
    requires Weekday(a) == Weekday(b)
    ensures b - a == 7 * weeks
  {
    weeks := (b + 4) / 7 - (a + 4) / 7;
  }

  /** The bound is tight: the band of 15 January 2024 comes back in 2029. */
  lemma BandRepeats()
    ensures var a := 1_705_276_800;
      var b := a + BAND_REPEATS_AFTER_DAYS * SECONDS_PER_DAY;
      MinuteKey(a, 0) != MinuteKey(b, 0) && ClockFor(a, 0) == ClockFor(b, 0)
  {
    var a := 1_705_276_800;
    var b := a + BAND_REPEATS_AFTER_DAYS * SECONDS_PER_DAY;
    FiveYearsWithTwoLeapDays();
    hide ClockFor, CivilFromDays;
    ClockShows(a, b, 0);
  }

  lemma FiveYearsWithTwoLeapDays()
    ensures CivilFromDays(19_737) == Date(2024, 1, 15)
    ensures CivilFromDays(19_737 + BAND_REPEATS_AFTER_DAYS) == Date(2029, 1, 15)
  {
    hide CivilFromDays;
    CivilOfDays(Date(2024, 1, 15));
    CivilOfDays(Date(2029, 1, 15));
  }

  /** The main screen reads the clock twice, for the key and for the strings. While the key stays
      the same the band is fresh exactly if those two readings fell into the same minute. */
  lemma BandIsFreshExactlyWhen(keyAt: int, clockAt: int, now: int, tzHours: int)
    requires Representable(keyAt, tzHours) && Representable(clockAt, tzHours) && Representable(now, tzHours)
    requires MinuteKey(keyAt, tzHours) == MinuteKey(now, tzHours) && WithinOneBandCycle(clockAt, now, tzHours)
    ensures ClockFor(clockAt, tzHours) == ClockFor(now, tzHours) <==>
      MinuteKey(clockAt, tzHours) == MinuteKey(keyAt, tzHours)
  {
    BandIsExact(clockAt, now, tzHours);
  }

  /** So a clock that steps back over a minute boundary leaves a stale band. */
  lemma SteppedBackClockLeavesStaleBand() returns (keyRead: int, stringsRead: int, now: int)
    ensures keyRead <= stringsRead && now < stringsRead
    ensures Representable(keyRead, 0) && Representable(stringsRead, 0) && Representable(now, 0)
    ensures MinuteKey(keyRead, 0) == MinuteKey(now, 0) && ClockFor(stringsRead, 0) != ClockFor(now, 0)
  {
    hide ClockFor;
    keyRead, stringsRead, now := 1_700_000_039, 1_700_000_040, 1_700_000_039;
    BandIsFreshExactlyWhen(keyRead, stringsRead, now, 0);
  }

  /** The power actions that the panel can ask for. */
  datatype PanelAction = Reboot | Shutdown

  datatype Screen = Main | Calendar | Confirm(action: PanelAction)

  /** The time-dependent part of the panel. `clockMinute` and `calendarDay` are the redraw
      keys; `shownClock` and `shownView` are what was last drawn in the clock band and on the
      calendar. Every drawing operation reads the system clock itself; nothing is assumed about
      the order of the readings. */
  class TimeDisplay {
    const tzHours: int
    var screen: Screen
    var clockMinute: int
    var calendarDay: Option<Date>
    var shownClock: ClockStrings
    var shownView: CalendarView
    /** The latest reading of the clock, and the readings behind what is on the panel. */
    ghost var latest: int
    ghost var keyAt: int
    ghost var clockAt: int
    ghost var viewAt: int

    ghost predicate Valid()
      reads this
    {
      && Representable(latest, tzHours)
      && (screen.Main? ==>
            && Representable(keyAt, tzHours) && Representable(clockAt, tzHours)
            && clockMinute == MinuteKey(keyAt, tzHours)
            && shownClock == ClockFor(clockAt, tzHours))
      && (screen.Calendar? ==>
            && calendarDay == CalendarDate(viewAt, tzHours)
            && IsViewOf(shownView, viewAt, tzHours))
    }

    /** The panel equals a fresh render at time `t`. */
    ghost predicate FreshAt(t: int)
      reads this
    {
      && (screen.Main? ==> shownClock == ClockFor(t, tzHours))
      && (screen.Calendar? ==> IsViewOf(shownView, t, tzHours))
    }

    /** The band was drawn at the latest reading, or within the minute of its key. */
    ghost predicate BandInStep()
      reads this
    {
      clockAt == latest || MinuteKey(clockAt, tzHours) == MinuteKey(keyAt, tzHours)
    }

    /** How fresh a lit screen is at the latest reading: the calendar always is; the main screen
        is if its band is in step with its key, as it is when the clock does not go back, and
        within a cycle of the band only then. */
    ghost predicate FreshExactly()
      reads this
    {
      && (screen.Calendar? ==> FreshAt(latest))
      && (screen.Main? ==>
            && (BandInStep() ==> FreshAt(latest))
            && (keyAt <= clockAt <= latest ==> FreshAt(latest))
            && (WithinOneBandCycle(clockAt, latest, tzHours) && FreshAt(latest) ==> BandInStep()))
    }

    constructor (tzHours: int, t: int, t': int)
      requires Representable(t, tzHours) && Representable(t', tzHours)
      ensures Valid() && screen == Main && latest == t' && FreshAt(t') && this.tzHours == tzHours
    {
      this.tzHours := tzHours;
      screen := Main;
      clockMinute := MinuteKey(t, tzHours);
      shownClock := ClockFor(t', tzHours);
      calendarDay := None;
      shownView := CalendarView("----/--", false, EMPTY_GRID, None);
      latest, keyAt, clockAt, viewAt := t', t, t', t';
    }

    /** Draws the main screen: the key is read from the clock first, the strings after it. */
    method RefreshMain(t: int, t': int)
      requires Representable(t, tzHours) && Representable(t', tzHours)
      modifies this
      ensures Valid() && screen == Main && latest == t' && FreshAt(t') && FreshExactly()
    {
      screen := Main;
      clockMinute := MinuteKey(t, tzHours);
      shownClock := ClockFor(t', tzHours);
      latest, keyAt, clockAt := t', t, t';
    }

    /** Draws the calendar from a single reading. */
    method RefreshCalendar(t: int)
      requires Representable(t, tzHours)
      modifies this
      ensures Valid() && screen == Calendar && latest == t && FreshAt(t) && FreshExactly()
    {
      screen := Calendar;
      calendarDay := CalendarDate(t, tzHours);
      shownView := BuildView(t, tzHours);
      latest, viewAt := t, t;
    }

    method DrawConfirm(action: PanelAction)
      requires Valid()
      modifies this`screen
      ensures Valid() && screen == Confirm(action) && FreshExactly()
    {
      screen := Confirm(action);
    }

    /** Redraws the current screen after a status change; the confirm screen is left alone. */
    method RefreshCurrentScreen(t: int, t': int)
      requires Valid() && Representable(t, tzHours) && Representable(t', tzHours)
      modifies this
      ensures Valid() && screen == old(screen) && FreshExactly()
      ensures !screen.Confirm? ==> FreshAt(latest) && latest == if screen.Main? then t' else t
    {
      match screen
      case Main => RefreshMain(t, t');
      case Calendar => RefreshCalendar(t);
      case Confirm(_) =>
    }

    /** The end of a loop iteration: a lit screen is redrawn if its key has changed. */
    method EndOfIteration(backlightOn: bool, t: int, t': int)
      requires Valid() && Representable(t, tzHours) && Representable(t', tzHours)
      modifies this
      ensures Valid() && screen == old(screen)
      ensures backlightOn ==> FreshExactly()
      ensures backlightOn && screen.Main? ==>
        latest == if MinuteKey(t, tzHours) != old(clockMinute) then t' else t
      ensures backlightOn && screen.Calendar? ==>
        latest == if CalendarDate(t, tzHours) != old(calendarDay) then t' else t
      ensures !backlightOn ==> shownClock == old(shownClock) && shownView == old(shownView)
    {
      hide ClockFor, MinuteKey, CalendarDate, IsViewOf, WithinOneBandCycle;
      if backlightOn && screen == Main {
        var nowMinute := MinuteKey(t, tzHours);
        if nowMinute != clockMinute {
          clockMinute := nowMinute;
          shownClock := ClockFor(t', tzHours);
          latest, keyAt, clockAt := t', t, t';
        } else {
          BandAfterSameKey(keyAt, clockAt, t, tzHours);
          latest := t;
        }
      }
      if backlightOn && screen == Calendar {
        var nowDay := CalendarDate(t, tzHours);
        if nowDay != calendarDay {
          RefreshCalendar(t');
        } else {
          SameDayKey(shownView, viewAt, t, tzHours);
          latest := t;
        }
      }
    }
  }

  lemma BandAfterSameKey(keyAt: int, clockAt: int, now: int, tzHours: int)
    requires Representable(keyAt, tzHours) && Representable(clockAt, tzHours) && Representable(now, tzHours)
    requires MinuteKey(keyAt, tzHours) == MinuteKey(now, tzHours)
    ensures MinuteKey(clockAt, tzHours) == MinuteKey(keyAt, tzHours) || keyAt <= clockAt <= now || clockAt == now
      ==> ClockFor(clockAt, tzHours) == ClockFor(now, tzHours)
    ensures WithinOneBandCycle(clockAt, now, tzHours) && ClockFor(clockAt, tzHours) == ClockFor(now, tzHours)
      ==> MinuteKey(clockAt, tzHours) == MinuteKey(keyAt, tzHours)
  {
    if MinuteKey(clockAt, tzHours) == MinuteKey(keyAt, tzHours) {
      MinuteKeyIsExact(clockAt, now, tzHours);
    }
    if keyAt <= clockAt <= now {
      MinuteKeyBetween(keyAt, clockAt, now, tzHours);
    }
    if WithinOneBandCycle(clockAt, now, tzHours) {
      BandIsFreshExactlyWhen(keyAt, clockAt, now, tzHours);
    }
  }

  lemma SameDayKey(v: CalendarView, a: int, b: int, tzHours: int)
    requires IsViewOf(v, a, tzHours) && CalendarDate(a, tzHours) == CalendarDate(b, tzHours)
    ensures IsViewOf(v, b, tzHours)
  {
  }
}
