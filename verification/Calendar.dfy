/**
 The proleptic Gregorian calendar behind `GmTime`, `TimeGm` and `IncrementDay`.
 A time is a whole number of seconds since 1970-01-01T00:00:00Z; a day is the
 number of days since that date.  `DateOf` walks from the epoch one day at a time
 (what a calendar is); `DayNumber` is the closed formula; the lemmas prove them
 inverse to each other.
 */
module Calendar {

  const SECONDS_PER_DAY := 86400

  datatype Date = Date(year: int, month: int, day: int)

  /** A broken-down time; `month` counts from 1. */
  datatype BrokenDown = BrokenDown(date: Date, weekday: int, hour: int, minute: int, second: int)

  predicate IsLeap(y: int) {
    y % 4 == 0 && (y % 100 != 0 || y % 400 == 0)
  }

  function DaysInMonth(y: int, m: int): int {
    if m == 2 then (if IsLeap(y) then 29 else 28)
    else if m == 4 || m == 6 || m == 9 || m == 11 then 30
    else 31
  }

  predicate ValidDate(d: Date) {
    1 <= d.month <= 12 && 1 <= d.day <= DaysInMonth(d.year, d.month)
  }

  function NextDay(d: Date): Date {
    if d.day < DaysInMonth(d.year, d.month) then d.(day := d.day + 1)
    else if d.month < 12 then Date(d.year, d.month + 1, 1)
    else Date(d.year + 1, 1, 1)
  }

  function PreviousDay(d: Date): Date {
    if 1 < d.day then d.(day := d.day - 1)
    else if 1 < d.month then Date(d.year, d.month - 1, DaysInMonth(d.year, d.month - 1))
    else Date(d.year - 1, 12, 31)
  }

  const EPOCH := Date(1970, 1, 1)

  /** The date `n` days after (or `-n` days before) the epoch. */
  function DateOf(n: int): Date
    decreases if n < 0 then -n else n
  {
    if n == 0 then EPOCH
    else if 0 < n then NextDay(DateOf(n - 1))
    else PreviousDay(DateOf(n + 1))
  }

  /** 1970-01-01 was a Thursday; Sunday is 0. */
  function WeekdayOf(n: int): int {
    (n + 4) % 7
  }

  function LeapDaysBefore(y: int): int {
    (y - 1) / 4 - (y - 1) / 100 + (y - 1) / 400
  }

  function DaysBeforeYear(y: int): int {
    365 * y + LeapDaysBefore(y)
  }

  function DaysBeforeMonth(y: int, m: int): int {
    var leap := if IsLeap(y) then 1 else 0;
    if m <= 1 then 0
    else if m == 2 then 31
    else if m == 3 then 59 + leap
    else if m == 4 then 90 + leap
    else if m == 5 then 120 + leap
    else if m == 6 then 151 + leap
    else if m == 7 then 181 + leap
    else if m == 8 then 212 + leap
    else if m == 9 then 243 + leap
    else if m == 10 then 273 + leap
    else if m == 11 then 304 + leap
    else 334 + leap
  }

  /** Days from the epoch to `d`. */
  function DayNumber(d: Date): int {
    DaysBeforeYear(d.year) + DaysBeforeMonth(d.year, d.month) + d.day - 1 - 719527
  }

  /** `GmTime`: break a time into its UTC calendar fields. */
  function GmTime(t: int): BrokenDown {
    var n, rest := t / SECONDS_PER_DAY, t % SECONDS_PER_DAY;
    BrokenDown(DateOf(n), WeekdayOf(n), rest / 3600, rest % 3600 / 60, rest % 60)
  }

  /** `TimeGm`: the inverse of `GmTime`; the weekday is ignored. */
  function TimeGm(tm: BrokenDown): int {
    DayNumber(tm.date) * SECONDS_PER_DAY + tm.hour * 3600 + tm.minute * 60 + tm.second
  }

  /** `IncrementDay`: the same time of day on the following day. */
  function IncrementDay(tm: BrokenDown): BrokenDown {
    tm.(date := NextDay(tm.date), weekday := if tm.weekday == 6 then 0 else tm.weekday + 1)
  }

  lemma YearLength(y: int)
    ensures DaysBeforeYear(y + 1) == DaysBeforeYear(y) + (if IsLeap(y) then 366 else 365)
  {
    assert y / 4 - (y - 1) / 4 == if y % 4 == 0 then 1 else 0;
    assert y / 100 - (y - 1) / 100 == if y % 100 == 0 then 1 else 0;
    assert y / 400 - (y - 1) / 400 == if y % 400 == 0 then 1 else 0;
  }

  lemma NextDayNumber(d: Date)
    requires ValidDate(d)
    ensures ValidDate(NextDay(d)) && DayNumber(NextDay(d)) == DayNumber(d) + 1
  {
    YearLength(d.year);
  }

  lemma PreviousDayNumber(d: Date)
    requires ValidDate(d)
    ensures ValidDate(PreviousDay(d)) && DayNumber(PreviousDay(d)) == DayNumber(d) - 1
    ensures NextDay(PreviousDay(d)) == d
  {
    YearLength(d.year - 1);
  }

  /** The closed formula counts exactly the days walked from the epoch. */
  lemma {:induction false} DayNumberOfDate(n: int)
    ensures ValidDate(DateOf(n)) && DayNumber(DateOf(n)) == n
    decreases if n < 0 then -n else n
  {
    if 0 < n {
      DayNumberOfDate(n - 1);
      NextDayNumber(DateOf(n - 1));
    } else if n < 0 {
      DayNumberOfDate(n + 1);
      PreviousDayNumber(DateOf(n + 1));
    }
  }

  lemma {:induction false} LaterYear(y: int, z: int)
    requires y < z
    ensures DaysBeforeYear(y) + 365 * (z - y) <= DaysBeforeYear(z)
    ensures DaysBeforeYear(y + 1) <= DaysBeforeYear(z)
    decreases z - y
  {
    YearLength(y);
    if y + 1 < z {
      LaterYear(y + 1, z);
    }
  }

  lemma OrderWithinYear(a: Date, b: Date)
    requires ValidDate(a) && ValidDate(b) && a.year == b.year
    ensures DayNumber(a) < DayNumber(b) <==> a.month < b.month || (a.month == b.month && a.day < b.day)
  {
  }

  lemma OrderAcrossYears(a: Date, b: Date)
    requires ValidDate(a) && ValidDate(b) && a.year < b.year
    ensures DayNumber(a) < DayNumber(b)
  {
    YearLength(a.year);
    LaterYear(a.year, b.year);
  }

  /** Day numbers order valid dates as the calendar does. */
  lemma DayNumberOrder(a: Date, b: Date)
    requires ValidDate(a) && ValidDate(b)
    ensures DayNumber(a) < DayNumber(b) <==>
            || a.year < b.year
            || (a.year == b.year && (a.month < b.month || (a.month == b.month && a.day < b.day)))
  {
    if a.year < b.year {
      OrderAcrossYears(a, b);
    } else if b.year < a.year {
      OrderAcrossYears(b, a);
    } else {
      OrderWithinYear(a, b);
    }
  }

  /** Every valid date is reached: the two directions are inverse. */
  lemma DateOfDayNumber(d: Date)
    requires ValidDate(d)
    ensures DateOf(DayNumber(d)) == d
  {
    var e := DateOf(DayNumber(d));
    DayNumberOfDate(DayNumber(d));
    DayNumberOrder(d, e);
    DayNumberOrder(e, d);
  }

  /** Walking forward across the epoch as well: the successor of every day. */
  lemma DateOfNext(n: int)
    ensures DateOf(n + 1) == NextDay(DateOf(n))
    ensures WeekdayOf(n + 1) == if WeekdayOf(n) == 6 then 0 else WeekdayOf(n) + 1
  {
    if n < 0 {
      DayNumberOfDate(n + 1);
      PreviousDayNumber(DateOf(n + 1));
    }
  }

  lemma GmTimeFields(t: int)
    ensures var tm := GmTime(t);
            && ValidDate(tm.date) && 0 <= tm.weekday < 7
            && 0 <= tm.hour < 24 && 0 <= tm.minute < 60 && 0 <= tm.second < 60
            && t == t / SECONDS_PER_DAY * SECONDS_PER_DAY + tm.hour * 3600 + tm.minute * 60 + tm.second
  {
    DayNumberOfDate(t / SECONDS_PER_DAY);
    var rest := t % SECONDS_PER_DAY;
    assert rest == rest / 3600 * 3600 + rest % 3600;
    assert rest % 60 == rest % 3600 % 60;
  }

  /** `TimeGm` undoes `GmTime`. */
  lemma TimeGmOfGmTime(t: int)
    ensures TimeGm(GmTime(t)) == t
  {
    GmTimeFields(t);
    DayNumberOfDate(t / SECONDS_PER_DAY);
  }
}
