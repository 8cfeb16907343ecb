/**
 The cron schedule engine: the schedule record, the day test, the wraparound bit
 search and `Next`, which picks the time of day first and then walks day by day.
 */
module Schedule {
  import opened Common
  import opened Calendar

  /** The result of `Next`: a time, or `time_point::max()` ("never again"). */
  datatype NextTime = At(time: int) | Never

  ghost predicate NonEmpty(b: set<int>) {
    exists i :: i in b
  }

  predicate Within(b: set<int>, min: int, max: int) {
    forall i :: i in b ==> min <= i <= max
  }

  predicate Covers(b: set<int>, min: int, max: int) {
    forall i :: min <= i <= max ==> i in b
  }

  datatype CronSchedule = CronSchedule(
    minutes: set<int>,
    hours: set<int>,
    daysOfMonth: set<int>,
    months: set<int>,
    daysOfWeek: set<int>,
    delayRange: int,
    daysAnyWildcard: bool)
  {
    predicate IsOnce() {
      minutes == {} && hours == {} && daysOfMonth == {} && months == {} && daysOfWeek == {}
    }

    /** With a wildcard in either day field both fields must match; otherwise one is enough. */
    predicate CheckDate(tm: BrokenDown) {
      && tm.date.month in months
      && if daysAnyWildcard
         then tm.date.day in daysOfMonth && tm.weekday in daysOfWeek
         else tm.date.day in daysOfMonth || tm.weekday in daysOfWeek
    }

    /** What the text constructor establishes for everything but `@once`. */
    ghost predicate Parsed() {
      && NonEmpty(minutes) && Within(minutes, 0, 59)
      && NonEmpty(hours) && Within(hours, 0, 23)
      && NonEmpty(daysOfMonth) && Within(daysOfMonth, 1, 31)
      && NonEmpty(months) && Within(months, 1, 12)
      && NonEmpty(daysOfWeek) && Within(daysOfWeek, 0, 6)
      && (daysAnyWildcard ==> Covers(daysOfMonth, 1, 31) || Covers(daysOfWeek, 0, 6))
    }

    /** Some month/day pair exists in some year. */
    predicate NamesADate() {
      exists m, d | m in months && d in daysOfMonth :: d <= LongestMonth(m)
    }

    /** Only a wildcard weekday with impossible month/day pairs leaves no date at all. */
    predicate Possible() {
      daysAnyWildcard && Covers(daysOfWeek, 0, 6) ==> NamesADate()
    }

    predicate CheckDay(n: int) {
      CheckDate(BrokenDown(DateOf(n), WeekdayOf(n), 0, 0, 0))
    }

    predicate CheckMinuteOfDay(m: int) {
      0 <= m < 1440 && m / 60 in hours && m % 60 in minutes
    }

    /** The schedule names this very second. */
    predicate Matches(t: int) {
      var tm := GmTime(t);
      tm.second == 0 && tm.minute in minutes && tm.hour in hours && CheckDate(tm)
    }
  }

  function LongestMonth(m: int): int {
    if m == 2 then 29 else DaysInMonth(0, m)
  }

  // ---------------------------------------------------------------- NextBit

  /** `r` is the first member after `pos`; else the first member at all; else `pos`. */
  ghost predicate IsNextBit(b: set<int>, min: int, max: int, pos: int, r: int) {
    if exists i :: i in b && pos < i <= max then
      r in b && pos < r <= max && forall i :: i in b && pos < i ==> r <= i
    else if exists i :: i in b && min <= i < pos then
      r in b && min <= r < pos && forall i :: i in b && min <= i ==> r <= i
    else r == pos
  }

  method NextBit(b: set<int>, min: int, max: int, pos: int) returns (r: int)
    requires min <= max
    ensures IsNextBit(b, min, max, pos, r)
  {
    var i := pos + 1;
    while i <= max
      invariant pos < i
      invariant forall j :: pos < j < i && j <= max ==> j !in b
    {
      if i in b {
        return i;
      }
      i := i + 1;
    }
    i := min;
    while i < pos
      invariant min <= i
      invariant forall j :: min <= j < i && j < pos ==> j !in b
    {
      if i in b {
        return i;
      }
      i := i + 1;
    }
    return pos;
  }

  // ------------------------------------------------------------ time of day

  /** The first scheduled minute of the day after `last`; on the next day if `carry`. */
  ghost predicate IsNextMinuteOfDay(s: CronSchedule, last: int, next: int, carry: bool) {
    && s.CheckMinuteOfDay(next)
    && if carry
       then (forall m :: s.CheckMinuteOfDay(m) ==> m <= last && next <= m)
       else last < next && forall m :: s.CheckMinuteOfDay(m) && last < m ==> next <= m
  }

  lemma HourAndMinute(h: int, m: int)
    requires 0 <= m < 60
    ensures (h * 60 + m) / 60 == h && (h * 60 + m) % 60 == m
  {
  }

  lemma FirstMinuteAfter(s: CronSchedule, h: int, m: int, m': int)
    requires s.Parsed() && 0 <= h < 24 && 0 <= m < 60
    requires h in s.hours && IsNextBit(s.minutes, 0, 59, m, m') && m < m'
    ensures IsNextMinuteOfDay(s, h * 60 + m, h * 60 + m', false)
  {
    HourAndMinute(h, m');
    forall k | s.CheckMinuteOfDay(k) && h * 60 + m < k
      ensures h * 60 + m' <= k
    {
      assert k == k / 60 * 60 + k % 60;
    }
  }

  /** No minute is left in hour `h` (or `h` is not scheduled): the minute wraps, the hour moves. */
  lemma FirstMinuteOfLaterHour(s: CronSchedule, h: int, m: int, m': int, h': int)
    requires s.Parsed() && 0 <= h < 24 && 0 <= m < 60
    requires IsNextBit(s.minutes, 0, 59, if h in s.hours then m else 60, m')
    requires h in s.hours ==> m' <= m
    requires IsNextBit(s.hours, 0, 23, h, h')
    ensures IsNextMinuteOfDay(s, h * 60 + m, h' * 60 + m', h' <= h)
  {
    assert m' in s.minutes && forall i :: i in s.minutes ==> m' <= i;
    assert h' in s.hours;
    forall k | s.CheckMinuteOfDay(k)
      ensures h < h' && h * 60 + m < k ==> h' * 60 + m' <= k
      ensures h' <= h ==> k <= h * 60 + m && h' * 60 + m' <= k
    {
      assert k == k / 60 * 60 + k % 60;
    }
  }

  function Day(t: int): int {
    t / SECONDS_PER_DAY
  }

  function MinuteOfDay(t: int): int {
    t % SECONDS_PER_DAY / 60
  }

  lemma Decompose(t: int)
    ensures t == Day(t) * SECONDS_PER_DAY + MinuteOfDay(t) * 60 + t % 60
    ensures 0 <= MinuteOfDay(t) < 1440 && 0 <= t % 60 < 60
    ensures GmTime(t).hour * 60 + GmTime(t).minute == MinuteOfDay(t) && GmTime(t).second == t % 60
    ensures 0 <= GmTime(t).hour == MinuteOfDay(t) / 60 < 24 && 0 <= GmTime(t).minute == MinuteOfDay(t) % 60 < 60
  {
    var rest := t % SECONDS_PER_DAY;
    assert rest % 60 == t % 60;
    assert rest / 60 / 60 == rest / 3600;
    assert rest / 60 % 60 == rest % 3600 / 60;
  }

  lemma Compose(day: int, minute: int)
    requires 0 <= minute < 1440
    ensures var t := day * SECONDS_PER_DAY + minute * 60;
            Day(t) == day && MinuteOfDay(t) == minute && t % 60 == 0
  {
    var rest := minute * 60;
    assert (day * SECONDS_PER_DAY + rest) % SECONDS_PER_DAY == rest;
  }

  lemma MatchesFields(s: CronSchedule, t: int)
    ensures s.Matches(t) <==> t % 60 == 0 && s.CheckMinuteOfDay(MinuteOfDay(t)) && s.CheckDay(Day(t))
  {
    Decompose(t);
  }

  // ------------------------------------------------------- the date search

  const MAX_DATE_SEARCH := 2920

  lemma WithinYear(d: Date)
    requires ValidDate(d)
    ensures DaysBeforeYear(d.year) - 719527 <= DayNumber(d) < DaysBeforeYear(d.year + 1) - 719527
  {
    YearLength(d.year);
  }

  lemma SameDateNextYear(y: int, m: int, d: int)
    requires 1 <= m <= 12
    ensures 365 <= DayNumber(Date(y + 1, m, d)) - DayNumber(Date(y, m, d)) <= 366
  {
    YearLength(y);
  }

  /** A date named by month and day (29 February aside) recurs within a year. */
  lemma YearlyDateWithin(n: int, m: int, d: int) returns (k: int)
    requires 1 <= m <= 12 && 1 <= d <= LongestMonth(m) && (m == 2 ==> d <= 28)
    ensures n <= k <= n + 366 && DateOf(k) == Date(DateOf(k).year, m, d)
  {
    var y := DateOf(n).year;
    var here, there := Date(y, m, d), Date(y + 1, m, d);
    assert n <= DayNumber(here) <= n + 366 || n <= DayNumber(there) <= n + 366 by {
      DayNumberOfDate(n);
      WithinYear(DateOf(n));
      WithinYear(here);
      WithinYear(there);
      YearLength(y);
      SameDateNextYear(y, m, d);
    }
    DateOfDayNumber(here);
    DateOfDayNumber(there);
    k := if n <= DayNumber(here) <= n + 366 then DayNumber(here) else DayNumber(there);
  }

  lemma NotLeapBetween(q: int, x: int)
    requires 4 * q < x < 4 * q + 4
    ensures !IsLeap(x)
  {
    assert x % 4 == x - 4 * q;
  }

  /** At most one multiple of four in a row is not a leap year. */
  lemma MultiplesOfFour(q: int)
    requires !IsLeap(4 * q)
    ensures IsLeap(4 * q - 4) && IsLeap(4 * q + 4)
  {
    var c := 4 * q / 100;
    assert 4 * q == 100 * c;
    InCentury(c - 1, 24);
    InCentury(c, 1);
  }

  /** Years that divide by four and do not end a century are leap years. */
  lemma InCentury(c: int, q: int)
    requires 0 < q < 25
    ensures IsLeap(100 * c + 4 * q)
  {
    var y := 100 * c + 4 * q;
    assert y == 4 * (25 * c + q);
    assert y % 100 == 4 * q;
  }

  /** One of the eight years after `y` is a leap year; the years between it and `y` are not. */
  lemma NextLeapYear(y: int) returns (z: int)
    ensures y < z <= y + 8 && IsLeap(z)
    ensures z == y + 8 ==> IsLeap(y)
    ensures forall x :: y < x < z ==> !IsLeap(x)
  {
    var q := y / 4 + 1;
    z := 4 * q;
    forall x | y < x < 4 * q + 4 && x != 4 * q
      ensures !IsLeap(x)
    {
      NotLeapBetween(if x < 4 * q then q - 1 else q, x);
    }
    if !IsLeap(z) {
      MultiplesOfFour(q);
      z := 4 * q + 4;
    }
  }

  lemma {:induction false} LeaplessYears(y: int, z: int)
    requires y < z && forall x :: y < x < z ==> !IsLeap(x)
    ensures DaysBeforeYear(z) == DaysBeforeYear(y) + 365 * (z - y) + (if IsLeap(y) then 1 else 0)
    decreases z - y
  {
    YearLength(z - 1);
    if y + 1 < z {
      assert !IsLeap(z - 1);
      LeaplessYears(y, z - 1);
    }
  }

  /** The next 29 February is at most 2920 days away: eight years when a century skips one. */
  lemma LeapDayWithin(n: int) returns (k: int)
    ensures n <= k <= n + MAX_DATE_SEARCH && DateOf(k) == Date(DateOf(k).year, 2, 29)
  {
    var x := DateOf(n);
    DayNumberOfDate(n);
    WithinYear(x);
    var leap := Date(x.year, 2, 29);
    if !IsLeap(x.year) || DayNumber(leap) < n {
      var z := NextLeapYear(x.year);
      LeaplessYears(x.year, z);
      leap := Date(z, 2, 29);
    }
    YearLength(x.year);
    DateOfDayNumber(leap);
    k := DayNumber(leap);
  }

  lemma ReachWeekday(n: int, w: int) returns (delta: int)
    requires 0 <= w < 7
    ensures 0 <= delta < 7 && WeekdayOf(n + delta) == w
  {
    delta := w - WeekdayOf(n);
    if delta < 0 {
      delta := delta + 7;
    }
    assert n + 4 + delta == 7 * ((n + 4) / 7 + (if w < WeekdayOf(n) then 1 else 0)) + w;
  }

  /** A weekday recurs in the first seven days of every month. */
  lemma WeekdayWithin(n: int, m: int, w: int) returns (k: int)
    requires 1 <= m <= 12 && 0 <= w < 7
    ensures n <= k <= n + 372 && DateOf(k).month == m && WeekdayOf(k) == w
  {
    var first := YearlyDateWithin(n, m, 1);
    var delta := ReachWeekday(first, w);
    k := first + delta;
    assert DateOf(k).month == m by {
      DayNumberOfDate(first);
      DateOfDayNumber(Date(DateOf(first).year, m, 1 + delta));
    }
  }

  /** The day search always ends within eight years, unless no date exists in any year. */
  lemma MatchingDayWithin(s: CronSchedule, n: int) returns (k: int)
    requires s.Parsed() && s.Possible()
    ensures n <= k <= n + MAX_DATE_SEARCH && s.CheckDay(k)
  {
    var month :| month in s.months;
    var weekday :| weekday in s.daysOfWeek;
    if s.daysAnyWildcard && Covers(s.daysOfWeek, 0, 6) {
      var m, d :| m in s.months && d in s.daysOfMonth && d <= LongestMonth(m);
      if m == 2 && d == 29 {
        k := LeapDayWithin(n);
      } else {
        k := YearlyDateWithin(n, m, d);
      }
    } else {
      k := WeekdayWithin(n, month, weekday);
      DayNumberOfDate(k);
    }
  }

  lemma DayOfMonthRange(n: int)
    ensures 1 <= DateOf(n).month <= 12 && 1 <= DateOf(n).day <= LongestMonth(DateOf(n).month)
  {
    DayNumberOfDate(n);
  }

  /** ... and then it never ends. */
  lemma NoMatchingDay(s: CronSchedule, n: int)
    requires !s.Possible()
    ensures !s.CheckDay(n)
  {
    DayOfMonthRange(n);
  }

  lemma NoLeapDayAfter1896(k: int)
    requires DayNumber(Date(1896, 3, 1)) <= k < DayNumber(Date(1904, 2, 29))
    ensures DateOf(k).month != 2 || DateOf(k).day != 29
  {
    DayNumberOfDate(k);
    DayNumberOrder(DateOf(k), Date(1896, 3, 1));
    DayNumberOrder(DateOf(k), Date(1904, 2, 29));
    assert !IsLeap(1900);
  }

  lemma EightYearsWithoutLeapDay()
    ensures DayNumber(Date(1904, 2, 29)) == DayNumber(Date(1896, 3, 1)) + MAX_DATE_SEARCH
  {
  }

  /** The bound is sharp: from 1 March 1896 the next 29 February is 2920 days away. */
  lemma DateSearchBoundIsSharp(s: CronSchedule, n: int)
    requires s.Parsed() && s.daysAnyWildcard && Covers(s.daysOfWeek, 0, 6)
    requires s.months == {2} && s.daysOfMonth == {29}
    requires n == DayNumber(Date(1896, 3, 1))
    ensures s.CheckDay(n + MAX_DATE_SEARCH)
    ensures forall k :: n <= k < n + MAX_DATE_SEARCH ==> !s.CheckDay(k)
  {
    EightYearsWithoutLeapDay();
    DateOfDayNumber(Date(1904, 2, 29));
    assert s.CheckDay(n + MAX_DATE_SEARCH) by {
      assert 0 <= WeekdayOf(n + MAX_DATE_SEARCH) < 7;
    }
    forall k | n <= k < n + MAX_DATE_SEARCH
      ensures !s.CheckDay(k)
    {
      NoLeapDayAfter1896(k);
    }
  }

  // ------------------------------------------------------------------ Next

  /** `r` is on the first day that has a match after `last`. */
  ghost predicate OnEarliestDay(s: CronSchedule, last: int, r: int) {
    forall t :: last < t && s.Matches(t) ==> Day(r) <= Day(t)
  }

  ghost predicate IsEarliestMatch(s: CronSchedule, last: int, r: int) {
    last < r && s.Matches(r) && forall t :: last < t && s.Matches(t) ==> r <= t
  }

  /**
   When `Next` is exact: `last` is on a scheduled day, or its time of day is before
   every scheduled time of day, or after all of them.
   */
  predicate NextIsExact(s: CronSchedule, last: int) {
    var m := MinuteOfDay(last);
    || s.CheckDay(Day(last))
    || (forall k | 0 <= k <= m :: !s.CheckMinuteOfDay(k))
    || (forall k | m < k < 1440 :: !s.CheckMinuteOfDay(k))
  }

  /** What the time-of-day step and the day search together compute. */
  ghost predicate IsNext(s: CronSchedule, last: int, day: int, minute: int, carry: bool) {
    var from := Day(last) + if carry then 1 else 0;
    && IsNextMinuteOfDay(s, MinuteOfDay(last), minute, carry)
    && from <= day && s.CheckDay(day) && forall n :: from <= n < day ==> !s.CheckDay(n)
  }

  /** No match after `last` comes before the chosen day; on that day the chosen minute is the first if exact. */
  lemma MatchAfter(s: CronSchedule, last: int, day: int, minute: int, carry: bool, t: int)
    requires IsNext(s, last, day, minute, carry) && last < t && s.Matches(t)
    ensures day <= Day(t)
    ensures NextIsExact(s, last) ==> day * SECONDS_PER_DAY + minute * 60 <= t
  {
    MatchesFields(s, t);
    Decompose(t);
    Decompose(last);
    assert Day(last) <= Day(t);
    assert Day(last) == Day(t) ==> MinuteOfDay(last) < MinuteOfDay(t);
  }

  /** Off a scheduled day, an earlier time of day is passed over. */
  lemma MatchSkipped(s: CronSchedule, last: int, day: int, minute: int, carry: bool) returns (t: int)
    requires IsNext(s, last, day, minute, carry) && !NextIsExact(s, last)
    ensures last < t < day * SECONDS_PER_DAY + minute * 60 && s.Matches(t)
  {
    var k :| 0 <= k <= MinuteOfDay(last) && s.CheckMinuteOfDay(k);
    t := day * SECONDS_PER_DAY + k * 60;
    Compose(day, k);
    MatchesFields(s, t);
    Decompose(last);
    assert Day(last) < day;
  }

  /**
   The contract of `Next`: a match after `last`, on the first possible day, at the first
   scheduled time of day after that of `last`, and exact just when `NextIsExact`.
   */
  ghost predicate NextFrom(s: CronSchedule, last: int, r: int) {
    && last < r && s.Matches(r) && OnEarliestDay(s, last, r)
    && (exists carry :: IsNextMinuteOfDay(s, MinuteOfDay(last), MinuteOfDay(r), carry))
    && (IsEarliestMatch(s, last, r) <==> NextIsExact(s, last))
  }

  lemma NextMatches(s: CronSchedule, last: int, day: int, minute: int, carry: bool)
    requires IsNext(s, last, day, minute, carry)
    ensures NextFrom(s, last, day * SECONDS_PER_DAY + minute * 60)
  {
    var r := day * SECONDS_PER_DAY + minute * 60;
    Compose(day, minute);
    MatchesFields(s, r);
    Decompose(last);
    forall t | last < t && s.Matches(t)
      ensures day <= Day(t)
      ensures NextIsExact(s, last) ==> r <= t
    {
      MatchAfter(s, last, day, minute, carry, t);
    }
    if !NextIsExact(s, last) {
      var t := MatchSkipped(s, last, day, minute, carry);
    }
  }

  /** The time-of-day step: the next scheduled minute after `tm`, wrapping into the next day. */
  method NextTimeOfDay(s: CronSchedule, tm: BrokenDown) returns (next: BrokenDown, carry: bool)
    requires s.Parsed() && 0 <= tm.hour < 24 && 0 <= tm.minute < 60
    ensures IsNextMinuteOfDay(s, tm.hour * 60 + tm.minute, next.hour * 60 + next.minute, carry)
    ensures var same := tm.(hour := next.hour, minute := next.minute, second := 0);
            next == if carry then IncrementDay(same) else same
  {
    next, carry := tm.(second := 0), false;
    /* an hour which is not scheduled forces a skip to the next valid hour */
    var lastMinute := if tm.hour in s.hours then tm.minute else 60;
    var minute := NextBit(s.minutes, 0, 59, lastMinute);
    next := next.(minute := minute);
    if minute <= lastMinute {
      var hour := NextBit(s.hours, 0, 23, tm.hour);
      next := next.(hour := hour);
      FirstMinuteOfLaterHour(s, tm.hour, tm.minute, minute, hour);
      if hour <= tm.hour {
        next, carry := IncrementDay(next), true;
      }
    } else {
      FirstMinuteAfter(s, tm.hour, tm.minute, minute);
    }
  }

  /** The date search: the first day from `tm` on that the schedule names. */
  method SearchDate(s: CronSchedule, tm: BrokenDown, ghost start: int)
    returns (next: BrokenDown, ghost day: int)
    requires s.Parsed() && s.Possible()
    requires tm.date == DateOf(start) && tm.weekday == WeekdayOf(start)
    ensures start <= day <= start + MAX_DATE_SEARCH
    ensures next == tm.(date := DateOf(day), weekday := WeekdayOf(day))
    ensures s.CheckDay(day) && forall n :: start <= n < day ==> !s.CheckDay(n)
  {
    next, day := tm, start;
    ghost var found := MatchingDayWithin(s, start);
    while !s.CheckDate(next)
      invariant start <= day <= found
      invariant next == tm.(date := DateOf(day), weekday := WeekdayOf(day))
      invariant forall n :: start <= n < day ==> !s.CheckDay(n)
      decreases found - day
    {
      DateOfNext(day);
      next := IncrementDay(next);
      day := day + 1;
    }
  }

  /** What `Next` may return. */
  ghost predicate IsNextResult(s: CronSchedule, last: Option<int>, now: int, r: NextTime) {
    if s.IsOnce() then r == if last.None? then At(now) else Never
    else r.At? && NextFrom(s, if last.None? then now - 60 else last.value, r.time)
  }

  lemma TimeGmOfDay(tm: BrokenDown, day: int)
    requires tm.date == DateOf(day) && tm.second == 0
    ensures TimeGm(tm) == day * SECONDS_PER_DAY + (tm.hour * 60 + tm.minute) * 60
  {
    DayNumberOfDate(day);
  }

  lemma NextTimeIsNext(s: CronSchedule, from: int, day: int, next: BrokenDown, carry: bool)
    requires next.date == DateOf(day) && next.second == 0
    requires IsNextMinuteOfDay(s, GmTime(from).hour * 60 + GmTime(from).minute, next.hour * 60 + next.minute, carry)
    requires var start := Day(from) + if carry then 1 else 0;
             start <= day && s.CheckDay(day) && forall n :: start <= n < day ==> !s.CheckDay(n)
    ensures NextFrom(s, from, TimeGm(next))
  {
    Decompose(from);
    TimeGmOfDay(next, day);
    NextMatches(s, from, day, next.hour * 60 + next.minute, carry);
  }

  /**
   The run after `last`, or after a minute ago when the job never ran.  `None` stands for a
   date search that does not end, because no day ever passes `CheckDate`.
   */
  method Next(s: CronSchedule, last: Option<int>, now: int) returns (r: Option<NextTime>)
    requires s.IsOnce() || s.Parsed()
    ensures r.Some? <==> s.IsOnce() || exists n :: s.CheckDay(n)
    ensures r.Some? <==> s.IsOnce() || s.Possible()
    ensures r.Some? ==> IsNextResult(s, last, now, r.value)
  {
    if s.IsOnce() {
      return Some(if last.None? then At(now) else Never);
    }
    var from := if last.None? then now - 60 else last.value;
    Decompose(from);
    var next, carry := NextTimeOfDay(s, GmTime(from));
    ghost var day := Day(from) + if carry then 1 else 0;
    DateOfNext(Day(from));
    if !s.Possible() {
      forall n
        ensures !s.CheckDay(n)
      {
        NoMatchingDay(s, n);
      }
      return None;
    }
    next, day := SearchDate(s, next, day);
    NextTimeIsNext(s, from, day, next, carry);
    return Some(At(TimeGm(next)));
  }

  lemma MinuteBefore(s: CronSchedule, t: int, from: int)
    requires s.Matches(t) && t - 60 <= from < t
    ensures NextIsExact(s, from) && Day(from) <= Day(t)
    ensures IsNextMinuteOfDay(s, MinuteOfDay(from), MinuteOfDay(t), Day(from) < Day(t))
  {
    MatchesFields(s, t);
    Decompose(t);
    Decompose(from);
    if Day(from) < Day(t) {
      assert MinuteOfDay(from) == 1439 && MinuteOfDay(t) == 0;
    }
  }

  lemma FullMinutes(t: int, u: int, from: int)
    requires t % 60 == 0 && u % 60 == 0 && t - 60 <= from < u
    ensures t <= u
  {
    assert t == 60 * (t / 60) && u == 60 * (u / 60);
  }

  lemma MatchIsFullMinute(s: CronSchedule, t: int)
    requires s.Matches(t)
    ensures t % 60 == 0
  {
    MatchesFields(s, t);
  }

  lemma LaterMatch(s: CronSchedule, t: int, from: int, u: int)
    requires s.Matches(t) && s.Matches(u) && t - 60 <= from < u
    ensures t <= u && Day(t) <= Day(u)
  {
    MatchIsFullMinute(s, t);
    MatchIsFullMinute(s, u);
    FullMinutes(t, u, from);
  }

  /** Asked within the minute before a scheduled time, `Next` gives that time. */
  lemma ThatMinuteIsNext(s: CronSchedule, t: int, from: int)
    requires s.Matches(t) && t - 60 <= from < t
    ensures forall r :: NextFrom(s, from, r) <==> r == t
  {
    MinuteBefore(s, t, from);
    forall u | from < u && s.Matches(u)
      ensures t <= u && Day(t) <= Day(u)
    {
      LaterMatch(s, t, from, u);
    }
  }

  /**
   `Next` passes over the later match `f`: no day between is scheduled, and `f` is not later
   in its day than `last`, while another scheduled time of day is.
   */
  ghost predicate PassesOver(s: CronSchedule, last: int, f: int) {
    && (forall n | Day(last) <= n < Day(f) :: !s.CheckDay(n))
    && MinuteOfDay(f) <= MinuteOfDay(last)
    && exists m :: s.CheckMinuteOfDay(m) && MinuteOfDay(last) < m
  }

  lemma MatchOnDay(s: CronSchedule, n: int, m: int)
    requires s.CheckDay(n) && s.CheckMinuteOfDay(m)
    ensures var t := n * SECONDS_PER_DAY + m * 60; s.Matches(t) && Day(t) == n && MinuteOfDay(t) == m
  {
    Compose(n, m);
    MatchesFields(s, n * SECONDS_PER_DAY + m * 60);
  }

  lemma LaterInDay(t: int, u: int)
    requires t % 60 == 0
    ensures u < t <==> Day(u) < Day(t) || (Day(u) == Day(t) && MinuteOfDay(u) < MinuteOfDay(t))
  {
    Decompose(t);
    Decompose(u);
  }

  /** If `Next` gives a time after the later match `f`, it passed over `f`. */
  lemma PassedOver(s: CronSchedule, last: int, f: int, r: int, carry: bool)
    requires NextFrom(s, last, r) && IsNextMinuteOfDay(s, MinuteOfDay(last), MinuteOfDay(r), carry)
    requires s.Matches(f) && last < f < r
    ensures PassesOver(s, last, f)
  {
    MatchesFields(s, f);
    MatchesFields(s, r);
    LaterInDay(r, f);
    LaterInDay(f, last);
    assert Day(r) == Day(f) && !carry;
    forall n | Day(last) <= n < Day(f)
      ensures !s.CheckDay(n)
    {
      if s.CheckDay(n) {
        MatchOnDay(s, n, MinuteOfDay(r));
        LaterInDay(n * SECONDS_PER_DAY + MinuteOfDay(r) * 60, last);
      }
    }
  }

  /** What `Next` gives is later than a match `f` if and only if `last` is not before `f`, or `Next` passes over `f`. */
  lemma NextIsAfter(s: CronSchedule, last: int, f: int, r: int)
    requires NextFrom(s, last, r) && s.Matches(f)
    ensures f < r <==> f <= last || PassesOver(s, last, f)
  {
    var carry :| IsNextMinuteOfDay(s, MinuteOfDay(last), MinuteOfDay(r), carry);
    MatchesFields(s, f);
    MatchesFields(s, r);
    if last < f < r {
      PassedOver(s, last, f, r, carry);
    }
    if last < f && PassesOver(s, last, f) {
      LaterInDay(r, f);
      LaterInDay(r, last);
      LaterInDay(f, last);
      assert Day(r) == Day(f) && !carry;
    }
  }

  /** A match after `last`; no other one is on an earlier day, and none is earlier where `Next` is exact. */
  ghost predicate IsFirstAfter(s: CronSchedule, last: int, r: int) {
    && last < r && s.Matches(r)
    && forall u | last < u && s.Matches(u) :: Day(r) <= Day(u) && (NextIsExact(s, last) ==> r <= u)
  }

  lemma NextIsFirst(s: CronSchedule, last: int, r: int)
    requires NextFrom(s, last, r)
    ensures IsFirstAfter(s, last, r)
  {
  }
}
