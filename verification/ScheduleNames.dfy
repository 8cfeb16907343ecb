/**
 What the words of a crontab text mean: month and weekday names are numbers in any letter
 case, special schedules run at the times they are named after, blanks separate fields.
 */
module ScheduleNames {
  import opened Common
  import opened Calendar
  import opened Schedule
  import opened ScheduleParser
  import opened ScheduleMeaning

  // ------------------------------------------------------------------ names

  const MONTHS := ["jan", "feb", "mar", "apr", "may", "jun", "jul", "aug", "sep", "oct", "nov", "dec"]
  const CAPITAL_MONTHS := ["JAN", "FEB", "MAR", "APR", "MAY", "JUN", "JUL", "AUG", "SEP", "OCT", "NOV", "DEC"]
  const WEEKDAYS := ["mon", "tue", "wed", "thu", "fri", "sat", "sun"]
  const CAPITAL_WEEKDAYS := ["MON", "TUE", "WED", "THU", "FRI", "SAT", "SUN"]

  /** Each letter is small or capital. */
  predicate Spells(s: string, small: string, capital: string) {
    |s| == |small| == |capital| && forall i | 0 <= i < |s| :: s[i] == small[i] || s[i] == capital[i]
  }

  /** Names which differ in one of their three letters, whatever its case. */
  predicate Differ(a: string, b: string) {
    |a| == 3 && |b| == 3 && (ToLower(a[0]) != ToLower(b[0]) || ToLower(a[1]) != ToLower(b[1]) || ToLower(a[2]) != ToLower(b[2]))
  }

  lemma MonthsDiffer(j: int, k: int)
    requires 0 <= j < k < 12
    ensures Differ(MONTHS[k], MONTH_NAMES[j].name)
  {
  }

  lemma WeekdaysDiffer(j: int, k: int)
    requires 0 <= j < k < 7
    ensures Differ(WEEKDAYS[k], WEEKDAY_NAMES[j].name)
  {
  }

  lemma SpelledIsEqual(s: string, small: string, capital: string, rest: string)
    requires Spells(s, small, capital) && |small| == 3
    requires forall i | 0 <= i < 3 :: ToLower(capital[i]) == ToLower(small[i])
    ensures EqualIgnoreCase((s + rest)[..3], small)
    ensures forall sym: Symbol | Differ(small, sym.name) :: !StartsWith(s + rest, sym)
  {
    assert (s + rest)[..3] == s;
  }

  lemma MonthSymbol(s: string, k: int, rest: string)
    requires 0 <= k < 12 && Spells(s, MONTHS[k], CAPITAL_MONTHS[k])
    ensures IsFirstSymbol(s + rest, MONTH_NAMES, k)
  {
    SpelledIsEqual(s, MONTHS[k], CAPITAL_MONTHS[k], rest);
    forall j | 0 <= j < k
      ensures !StartsWith(s + rest, MONTH_NAMES[j])
    {
      MonthsDiffer(j, k);
    }
  }

  lemma WeekdaySymbol(s: string, k: int, rest: string)
    requires 0 <= k < 7 && Spells(s, WEEKDAYS[k], CAPITAL_WEEKDAYS[k])
    ensures IsFirstSymbol(s + rest, WEEKDAY_NAMES, k)
  {
    SpelledIsEqual(s, WEEKDAYS[k], CAPITAL_WEEKDAYS[k], rest);
    forall j | 0 <= j < k
      ensures !StartsWith(s + rest, WEEKDAY_NAMES[j])
    {
      WeekdaysDiffer(j, k);
    }
  }

  /** Neither blank, sign nor digit. */
  predicate IsLetter(c: char) {
    'A' <= c <= 'Z' || 'a' <= c <= 'z'
  }

  lemma SymbolIsNumber(s: string, rest: string, min: int, max: int, names: seq<Symbol>, i: int)
    requires s != "" && IsLetter(s[0]) && IsFirstSymbol(s + rest, names, i) && |names[i].name| == |s|
    ensures NumberOf(s + rest, min, max, names) == Ok((names[i].value, rest))
  {
    assert (s + rest)[|s|..] == rest;
    SymbolIsParsed(s + rest, min, max, names);
  }

  lemma MonthValue(k: int)
    requires 1 <= k <= 12
    ensures MONTH_NAMES[k - 1].value == k && |MONTH_NAMES[k - 1].name| == |MONTHS[k - 1]| == 3
    ensures IsLetter(MONTHS[k - 1][0]) && IsLetter(CAPITAL_MONTHS[k - 1][0])
  {
  }

  lemma WeekdayValue(k: int)
    requires 1 <= k <= 7
    ensures WEEKDAY_NAMES[k - 1].value == k && |WEEKDAY_NAMES[k - 1].name| == |WEEKDAYS[k - 1]| == 3
    ensures IsLetter(WEEKDAYS[k - 1][0]) && IsLetter(CAPITAL_WEEKDAYS[k - 1][0])
  {
  }

  /** `s` is the name of month `k`, in any letter case. */
  predicate SpellsMonth(s: string, k: int) {
    1 <= k <= 12 && Spells(s, MONTHS[k - 1], CAPITAL_MONTHS[k - 1])
  }

  predicate SpellsWeekday(s: string, k: int) {
    1 <= k <= 7 && Spells(s, WEEKDAYS[k - 1], CAPITAL_WEEKDAYS[k - 1])
  }

  /** The name of a month is its number, whatever follows. */
  lemma MonthIsNumber(s: string, k: int, rest: string)
    requires SpellsMonth(s, k)
    ensures NumberOf(s + rest, 1, 12, MONTH_NAMES) == Ok((k, rest))
    ensures s != "" && IsLetter(s[0])
  {
    MonthValue(k);
    MonthSymbol(s, k - 1, rest);
    SymbolIsNumber(s, rest, 1, 12, MONTH_NAMES, k - 1);
  }

  /** The name of a weekday is its number, Monday to Sunday from 1 to 7. */
  lemma WeekdayIsNumber(s: string, k: int, rest: string)
    requires SpellsWeekday(s, k)
    ensures NumberOf(s + rest, 0, 7, WEEKDAY_NAMES) == Ok((k, rest))
    ensures s != "" && IsLetter(s[0])
  {
    WeekdayValue(k);
    WeekdaySymbol(s, k - 1, rest);
    SymbolIsNumber(s, rest, 0, 7, WEEKDAY_NAMES, k - 1);
  }

  /** A number is a list of one, also behind a blank. */
  lemma NumberIsField(s: string, k: int, min: int, max: int, names: seq<Symbol>, rest: string)
    requires s != "" && ' ' < s[0] && s[0] != '*' && EndsField(rest)
    requires NumberOf(s + rest, min, max, names) == Ok((k, rest))
    ensures FieldOf(s + rest, min, max, names) == Ok((Plain(k), rest))
    ensures FieldOf(" " + (s + rest), min, max, names) == Ok((Plain(k), rest))
  {
    assert (" " + (s + rest))[1..] == s + rest;
    assert StripLeft(s + rest) == s + rest && StripLeft(" " + (s + rest)) == s + rest;
  }

  lemma NumeralIsField(k: int, min: int, max: int, names: seq<Symbol>, rest: string)
    requires 0 <= min <= k <= max <= 99 && EndsField(rest)
    ensures FieldOf(" " + (PrintNumber(k) + rest), min, max, names) == Ok((Plain(k), rest))
  {
    ParsedNumberRoundTrip(k, min, max, names, rest);
    DigitRoundTrip(if k < 10 then k else k / 10);
    NumberIsField(PrintNumber(k), k, min, max, names, rest);
  }

  /** A month or weekday field is the same with the name and with the number. */
  lemma MonthFieldByName(s: string, k: int, rest: string)
    requires SpellsMonth(s, k) && EndsField(rest)
    ensures FieldOf(" " + (s + rest), 1, 12, MONTH_NAMES) == Ok((Plain(k), rest))
    ensures FieldOf(" " + (PrintNumber(k) + rest), 1, 12, MONTH_NAMES) == Ok((Plain(k), rest))
  {
    MonthIsNumber(s, k, rest);
    NumberIsField(s, k, 1, 12, MONTH_NAMES, rest);
    NumeralIsField(k, 1, 12, MONTH_NAMES, rest);
  }

  lemma WeekdayFieldByName(s: string, k: int, rest: string)
    requires SpellsWeekday(s, k) && EndsField(rest)
    ensures FieldOf(" " + (s + rest), 0, 7, WEEKDAY_NAMES) == Ok((Plain(k), rest))
    ensures FieldOf(" " + (PrintNumber(k) + rest), 0, 7, WEEKDAY_NAMES) == Ok((Plain(k), rest))
  {
    WeekdayIsNumber(s, k, rest);
    NumberIsField(s, k, 0, 7, WEEKDAY_NAMES, rest);
    NumeralIsField(k, 0, 7, WEEKDAY_NAMES, rest);
  }

  lemma NumbersAreRange(s: string, j: int, tail: string, k: int, rest: string, min: int, max: int, names: seq<Symbol>)
    requires Peek(s) != '*' && j <= k
    requires NumberOf(s, min, max, names) == Ok((j, "-" + tail)) && NumberOf(tail, min, max, names) == Ok((k, rest))
    ensures SpanOf(s, min, max, names) == Ok((FromTo(j, k), rest))
  {
    assert ("-" + tail)[1..] == tail;
  }

  /** Two names make a range. */
  lemma WeekdayRangeByName(a: string, j: int, b: string, k: int, rest: string)
    requires j <= k && SpellsWeekday(a, j) && SpellsWeekday(b, k)
    ensures SpanOf(a + ("-" + (b + rest)), 0, 7, WEEKDAY_NAMES) == Ok((FromTo(j, k), rest))
  {
    WeekdayIsNumber(a, j, "-" + (b + rest));
    WeekdayIsNumber(b, k, rest);
    NumbersAreRange(a + ("-" + (b + rest)), j, b + rest, k, rest, 0, 7, WEEKDAY_NAMES);
  }

  lemma MonthRangeByName(a: string, j: int, b: string, k: int, rest: string)
    requires j <= k && SpellsMonth(a, j) && SpellsMonth(b, k)
    ensures SpanOf(a + ("-" + (b + rest)), 1, 12, MONTH_NAMES) == Ok((FromTo(j, k), rest))
  {
    MonthIsNumber(a, j, "-" + (b + rest));
    MonthIsNumber(b, k, rest);
    NumbersAreRange(a + ("-" + (b + rest)), j, b + rest, k, rest, 1, 12, MONTH_NAMES);
  }

  // ------------------------------------------------------- days and times

  const STAR := [Item(Star, None)]

  /** What a schedule at midnight, or on the hour, matches. */
  lemma MidnightMatches(s: CronSchedule, t: int)
    requires s.minutes == {0} && s.hours == {0}
    ensures s.Matches(t) <==> t % SECONDS_PER_DAY == 0 && s.CheckDay(Day(t))
  {
    MatchesFields(s, t);
    Decompose(t);
  }

  lemma OnTheHour(s: CronSchedule, t: int)
    requires s.minutes == {0}
    ensures s.Matches(t) <==> t % 3600 == 0 && t % SECONDS_PER_DAY / 3600 in s.hours && s.CheckDay(Day(t))
  {
    HourParts(t);
    assert s.Matches(t) <==> GmTime(t).second == 0 && GmTime(t).minute == 0 && GmTime(t).hour in s.hours && s.CheckDay(Day(t));
  }

  lemma PartsOfDay(rest: int)
    requires 0 <= rest < SECONDS_PER_DAY
    ensures rest % 3600 == 0 <==> rest % 60 == 0 && rest % 3600 / 60 == 0
  {
    var r := rest % 3600;
    assert rest == rest / 3600 * 3600 + r;
    assert rest % 60 == r % 60;
    assert r == r / 60 * 60 + r % 60;
  }

  lemma PartOfHour(t: int)
    ensures t % SECONDS_PER_DAY % 3600 == t % 3600
  {
    var q, rest := t / SECONDS_PER_DAY, t % SECONDS_PER_DAY;
    assert t == q * 24 * 3600 + rest;
  }

  lemma HourParts(t: int)
    ensures t % 3600 == 0 <==> GmTime(t).second == 0 && GmTime(t).minute == 0
    ensures GmTime(t).hour == t % SECONDS_PER_DAY / 3600
  {
    PartOfHour(t);
    PartsOfDay(t % SECONDS_PER_DAY);
  }

  lemma AnyDayMatches(s: CronSchedule, n: int)
    requires s.daysAnyWildcard && s.daysOfMonth == All(1, 31) && s.months == All(1, 12) && s.daysOfWeek == All(0, 6)
    ensures s.CheckDay(n)
  {
    DayOfMonthRange(n);
  }

  lemma WeekdayMatches(s: CronSchedule, w: int, n: int)
    requires s.daysAnyWildcard && s.daysOfMonth == All(1, 31) && s.months == All(1, 12) && s.daysOfWeek == {w}
    ensures s.CheckDay(n) <==> WeekdayOf(n) == w
  {
    DayOfMonthRange(n);
  }

  lemma DateMatches(s: CronSchedule, n: int)
    requires s.daysAnyWildcard && s.daysOfWeek == All(0, 6)
    ensures s.CheckDay(n) <==> DateOf(n).month in s.months && DateOf(n).day in s.daysOfMonth
  {
  }

  lemma SundayIsZero(b: set<int>)
    requires forall k :: k in b <==> 0 <= k < 7 && (FieldNames(Plain(7), k, 0, 7) || (k == 0 && FieldNames(Plain(7), 7, 0, 7)))
    ensures b == {0}
  {
    assert Plain(7)[0] == Item(One(7), None);
    forall k
      ensures FieldNames(Plain(7), k, 0, 7) <==> k == 7
    {
      PlainNumber(7, k, 0, 7);
    }
    SameMembers(b, {0});
  }

  lemma WeekdayBits(b: set<int>, k: int)
    requires 0 <= k <= 7
    requires forall i :: i in b <==> 0 <= i < 7 && (FieldNames(Plain(k), i, 0, 7) || (i == 0 && FieldNames(Plain(k), 7, 0, 7)))
    ensures b == {k % 7}
  {
    if k == 7 {
      SundayIsZero(b);
    } else {
      assert Plain(k)[0] == Item(One(k), None);
      forall i
        ensures FieldNames(Plain(k), i, 0, 7) <==> i == k
      {
        PlainNumber(k, i, 0, 7);
      }
      SameMembers(b, {k});
    }
  }

  lemma AnyWeekdayBits(b: set<int>)
    requires forall i :: i in b <==> 0 <= i < 7 && (FieldNames(STAR, i, 0, 7) || (i == 0 && FieldNames(STAR, 7, 0, 7)))
    ensures b == All(0, 6)
  {
    assert STAR[0] == Item(Star, None);
    FieldIsNonEmptyAndInRange(STAR, 0, 7);
    SameMembers(b, All(0, 6));
  }

  /** A field is one number, or a star. */
  ghost predicate IsSet(b: set<int>, items: seq<Item>, min: int, max: int) {
    if |items| == 1 && items[0].step.None? && items[0].span.One? then b == {items[0].span.n} else items == STAR && b == All(min, max)
  }

  predicate IsSimple(items: seq<Item>) {
    |items| == 1 && items[0].step.None? && !items[0].span.FromTo?
  }

  lemma SimpleSet(b: set<int>, items: seq<Item>, min: int, max: int)
    requires FieldMeans(b, items, min, max) && IsSimple(items) && min <= max
    ensures IsSet(b, items, min, max)
  {
    if items[0].span.Star? {
      assert items == STAR;
      AnyNumber(b, min, max);
    } else {
      assert items == Plain(items[0].span.n);
      OneNumber(b, items[0].span.n, min, max);
    }
  }

  lemma SimpleMinutes(s: CronSchedule, f: Fields)
    requires Means(s, f) && IsSimple(f.minutes)
    ensures IsSet(s.minutes, f.minutes, 0, 59)
  {
    SimpleSet(s.minutes, f.minutes, 0, 59);
  }

  lemma SimpleHours(s: CronSchedule, f: Fields)
    requires Means(s, f) && IsSimple(f.hours)
    ensures IsSet(s.hours, f.hours, 0, 23)
  {
    SimpleSet(s.hours, f.hours, 0, 23);
  }

  lemma SimpleDays(s: CronSchedule, f: Fields)
    requires Means(s, f) && IsSimple(f.daysOfMonth)
    ensures IsSet(s.daysOfMonth, f.daysOfMonth, 1, 31)
    ensures f.daysOfMonth == STAR ==> s.daysAnyWildcard
  {
    SimpleSet(s.daysOfMonth, f.daysOfMonth, 1, 31);
    if f.daysOfMonth == STAR {
      assert f.daysOfMonth[0] == Item(Star, None);
    }
  }

  lemma SimpleMonths(s: CronSchedule, f: Fields)
    requires Means(s, f) && IsSimple(f.months)
    ensures IsSet(s.months, f.months, 1, 12)
  {
    SimpleSet(s.months, f.months, 1, 12);
  }

  lemma NumberedWeekday(b: set<int>, items: seq<Item>, k: int)
    requires items == Plain(k) && 0 <= k <= 7
    requires forall i :: i in b <==> 0 <= i < 7 && (FieldNames(items, i, 0, 7) || (i == 0 && FieldNames(items, 7, 0, 7)))
    ensures b == {k % 7}
  {
    WeekdayBits(b, k);
  }

  lemma AnyWeekday(b: set<int>, items: seq<Item>)
    requires items == STAR
    requires forall i :: i in b <==> 0 <= i < 7 && (FieldNames(items, i, 0, 7) || (i == 0 && FieldNames(items, 7, 0, 7)))
    ensures b == All(0, 6) && HasPlainStar(items)
  {
    AnyWeekdayBits(b);
    assert items[0] == Item(Star, None);
  }

  lemma SimpleWeekdays(s: CronSchedule, f: Fields, k: int)
    requires Means(s, f)
    ensures f.daysOfWeek == Plain(k) && 0 <= k <= 7 ==> s.daysOfWeek == {k % 7}
    ensures f.daysOfWeek == STAR ==> s.daysOfWeek == All(0, 6) && s.daysAnyWildcard
  {
    var items := f.daysOfWeek;
    if items == Plain(k) && 0 <= k <= 7 {
      NumberedWeekday(s.daysOfWeek, items, k);
    } else if items == STAR {
      AnyWeekday(s.daysOfWeek, items);
    }
  }

  /** The sets of a text whose fields are single numbers or stars, `k` being the weekday if there is one. */
  ghost predicate HasSets(s: CronSchedule, f: Fields, k: int) {
    && IsSet(s.minutes, f.minutes, 0, 59) && IsSet(s.hours, f.hours, 0, 23)
    && IsSet(s.daysOfMonth, f.daysOfMonth, 1, 31) && IsSet(s.months, f.months, 1, 12)
    && (f.daysOfWeek == Plain(k) ==> s.daysOfWeek == {k % 7})
    && (f.daysOfWeek == STAR ==> s.daysOfWeek == All(0, 6))
    && (f.daysOfMonth == STAR || f.daysOfWeek == STAR ==> s.daysAnyWildcard)
  }

  lemma SimpleSets(s: CronSchedule, f: Fields, k: int)
    requires Means(s, f) && 0 <= k <= 7
    requires IsSimple(f.minutes) && IsSimple(f.hours) && IsSimple(f.daysOfMonth) && IsSimple(f.months)
    ensures HasSets(s, f, k)
  {
    SimpleMinutes(s, f);
    SimpleHours(s, f);
    SimpleDays(s, f);
    SimpleMonths(s, f);
    SimpleWeekdays(s, f, k);
  }

  // ---------------------------------------------------------- whole texts

  /** A text whose weekday field is `tail`. */
  lemma FourFields(f: Fields, tail: string)
    requires f.WellFormed()
    ensures var text := PrintItems(f.minutes, 0, 59) + (" " + (PrintItems(f.hours, 0, 23) + (" " +
                          (PrintItems(f.daysOfMonth, 1, 31) + (" " + (PrintItems(f.months, 1, 12) + (" " + tail)))))));
            && (FieldOf(" " + tail, 0, 7, WEEKDAY_NAMES) == Ok((f.daysOfWeek, "")) ==> FieldsOf(text) == Ok(f))
  {
    var months := " " + (PrintItems(f.months, 1, 12) + (" " + tail));
    var days := " " + (PrintItems(f.daysOfMonth, 1, 31) + months);
    var hours := " " + (PrintItems(f.hours, 0, 23) + days);
    FieldRoundTrip(f.minutes, 0, 59, NO_NAMES, hours);
    FieldRoundTrip(f.hours, 0, 23, NO_NAMES, days);
    FieldRoundTrip(f.daysOfMonth, 1, 31, NO_NAMES, months);
    FieldRoundTrip(f.months, 1, 12, MONTH_NAMES, " " + tail);
  }

  /** An accepted text that is not special means what its fields mean. */
  lemma AcceptedFields(text: string, f: Fields, r: Result<CronSchedule>)
    requires Peek(text) != '@' && FieldsOf(text) == Ok(f) && IsScheduleOf(r, text)
    ensures r.Ok? && Means(r.value, f)
  {
  }

  lemma FourPrinted(f: Fields, tail: string)
    requires f.WellFormed() && f.minutes == Plain(0) && f.hours == Plain(0) && f.daysOfMonth == STAR && f.months == STAR
    ensures PrintItems(f.minutes, 0, 59) + (" " + (PrintItems(f.hours, 0, 23) + (" " +
              (PrintItems(f.daysOfMonth, 1, 31) + (" " + (PrintItems(f.months, 1, 12) + (" " + tail))))))) == "0 0 * * " + tail
  {
    assert PrintItems(f.minutes, 0, 59) == "0" && PrintItems(f.hours, 0, 23) == "0";
    assert PrintItems(f.daysOfMonth, 1, 31) == "*" && PrintItems(f.months, 1, 12) == "*";
  }

  lemma WeekdayText(f: Fields, name: string, k: int)
    requires SpellsWeekday(name, k) && f == Fields(Plain(0), Plain(0), STAR, STAR, Plain(k))
    ensures FieldsOf("0 0 * * " + name) == Ok(f) && Peek("0 0 * * " + name) == '0'
  {
    WeekdayFieldByName(name, k, "");
    assert name + "" == name;
    FourFields(f, name);
    FourPrinted(f, name);
  }

  /** "0 0 * * sun" and the like, in any letter case: midnight on that weekday, and no other time. */
  lemma WeekdayByName(name: string, k: int, text: string, r: Result<CronSchedule>)
    requires SpellsWeekday(name, k) && text == "0 0 * * " + name && IsScheduleOf(r, text)
    ensures r.Ok? && forall t :: r.value.Matches(t) <==> t % SECONDS_PER_DAY == 0 && WeekdayOf(Day(t)) == k % 7
  {
    var f := Fields(Plain(0), Plain(0), STAR, STAR, Plain(k));
    WeekdayText(f, name, k);
    AcceptedFields(text, f, r);
    AlwaysOnWeekday(r.value, f, k);
  }

  lemma AlwaysOnWeekday(s: CronSchedule, f: Fields, k: int)
    requires f == Fields(Plain(0), Plain(0), STAR, STAR, Plain(k)) && 0 <= k <= 7 && Means(s, f)
    ensures forall t :: s.Matches(t) <==> t % SECONDS_PER_DAY == 0 && WeekdayOf(Day(t)) == k % 7
  {
    SimpleSets(s, f, k);
    forall t
      ensures s.Matches(t) <==> t % SECONDS_PER_DAY == 0 && WeekdayOf(Day(t)) == k % 7
    {
      OnWeekday(s, f, k, t);
    }
  }

  lemma OnWeekday(s: CronSchedule, f: Fields, k: int, t: int)
    requires f == Fields(Plain(0), Plain(0), STAR, STAR, Plain(k)) && 0 <= k <= 7 && HasSets(s, f, k)
    ensures s.Matches(t) <==> t % SECONDS_PER_DAY == 0 && WeekdayOf(Day(t)) == k % 7
  {
    MidnightMatches(s, t);
    WeekdayMatches(s, k % 7, Day(t));
  }

  lemma MonthTail(f: Fields, name: string, k: int) returns (months: string)
    requires SpellsMonth(name, k) && f == Fields(Plain(0), Plain(0), Plain(1), Plain(k), STAR)
    ensures months == " " + (name + (" " + ("*" + "")))
    ensures FieldOf(months, 1, 12, MONTH_NAMES) == Ok((f.months, " " + ("*" + "")))
    ensures FieldOf(" " + ("*" + ""), 0, 7, WEEKDAY_NAMES) == Ok((f.daysOfWeek, ""))
  {
    assert PrintItems(STAR, 0, 7) == "*";
    months := " " + (name + (" " + ("*" + "")));
    MonthFieldByName(name, k, " " + ("*" + ""));
    FieldRoundTrip(f.daysOfWeek, 0, 7, WEEKDAY_NAMES, "");
  }

  lemma MonthText(f: Fields, name: string, k: int)
    requires SpellsMonth(name, k) && f == Fields(Plain(0), Plain(0), Plain(1), Plain(k), STAR)
    ensures FieldsOf("0" + (" " + ("0" + (" " + ("1" + (" " + (name + (" " + ("*" + ""))))))))) == Ok(f)
  {
    var months := MonthTail(f, name, k);
    var days := " " + ("1" + months);
    var hours := " " + ("0" + days);
    assert PrintItems(Plain(0), 0, 59) == "0" && PrintItems(Plain(0), 0, 23) == "0" && PrintItems(Plain(1), 1, 31) == "1";
    FieldRoundTrip(f.minutes, 0, 59, NO_NAMES, hours);
    FieldRoundTrip(f.hours, 0, 23, NO_NAMES, days);
    FieldRoundTrip(f.daysOfMonth, 1, 31, NO_NAMES, months);
  }

  lemma MonthTextIs(name: string)
    ensures "0 0 1 " + name + " *" == "0" + (" " + ("0" + (" " + ("1" + (" " + (name + (" " + ("*" + ""))))))))
    ensures Peek("0 0 1 " + name + " *") == '0'
  {
  }

  /** "0 0 1 jan *" and the like: midnight on the first of that month, and no other time. */
  lemma MonthByName(name: string, k: int, text: string, r: Result<CronSchedule>)
    requires SpellsMonth(name, k) && text == "0 0 1 " + name + " *" && IsScheduleOf(r, text)
    ensures r.Ok? && forall t :: r.value.Matches(t) <==>
                       t % SECONDS_PER_DAY == 0 && DateOf(Day(t)).month == k && DateOf(Day(t)).day == 1
  {
    var f := Fields(Plain(0), Plain(0), Plain(1), Plain(k), STAR);
    MonthTextIs(name);
    MonthText(f, name, k);
    AcceptedFields(text, f, r);
    AlwaysOnDate(r.value, f, k);
  }

  lemma AlwaysOnDate(s: CronSchedule, f: Fields, k: int)
    requires f == Fields(Plain(0), Plain(0), Plain(1), Plain(k), STAR) && Means(s, f)
    ensures forall t :: s.Matches(t) <==> t % SECONDS_PER_DAY == 0 && DateOf(Day(t)).month == k && DateOf(Day(t)).day == 1
  {
    SimpleSets(s, f, 0);
    forall t
      ensures s.Matches(t) <==> t % SECONDS_PER_DAY == 0 && DateOf(Day(t)).month == k && DateOf(Day(t)).day == 1
    {
      OnDate(s, f, k, t);
    }
  }

  lemma OnDate(s: CronSchedule, f: Fields, k: int, t: int)
    requires f == Fields(Plain(0), Plain(0), Plain(1), Plain(k), STAR) && HasSets(s, f, 0)
    ensures s.Matches(t) <==> t % SECONDS_PER_DAY == 0 && DateOf(Day(t)).month == k && DateOf(Day(t)).day == 1
  {
    MidnightMatches(s, t);
    DayOfMonthRange(Day(t));
    DateMatches(s, Day(t));
  }

  lemma OnFirstOfMonth(s: CronSchedule, f: Fields, t: int)
    requires f == Fields(Plain(0), Plain(0), Plain(1), STAR, STAR) && HasSets(s, f, 0)
    ensures s.Matches(t) <==> t % SECONDS_PER_DAY == 0 && DateOf(Day(t)).day == 1
  {
    MidnightMatches(s, t);
    DayOfMonthRange(Day(t));
    DateMatches(s, Day(t));
  }

  lemma EveryDay(s: CronSchedule, f: Fields, t: int)
    requires f == Fields(Plain(0), Plain(0), STAR, STAR, STAR) && HasSets(s, f, 0)
    ensures s.Matches(t) <==> t % SECONDS_PER_DAY == 0
  {
    MidnightMatches(s, t);
    AnyDayMatches(s, Day(t));
  }

  lemma EveryHour(s: CronSchedule, f: Fields, t: int)
    requires f == Fields(Plain(0), STAR, STAR, STAR, STAR) && HasSets(s, f, 0)
    ensures s.Matches(t) <==> t % 3600 == 0
  {
    OnTheHour(s, t);
    AnyDayMatches(s, Day(t));
  }

  lemma AlwaysOnFirst(s: CronSchedule, f: Fields)
    requires f == Fields(Plain(0), Plain(0), Plain(1), STAR, STAR) && Means(s, f)
    ensures forall t :: s.Matches(t) <==> t % SECONDS_PER_DAY == 0 && DateOf(Day(t)).day == 1
  {
    SimpleSets(s, f, 0);
    forall t
      ensures s.Matches(t) <==> t % SECONDS_PER_DAY == 0 && DateOf(Day(t)).day == 1
    {
      OnFirstOfMonth(s, f, t);
    }
  }

  lemma AlwaysEveryDay(s: CronSchedule, f: Fields)
    requires f == Fields(Plain(0), Plain(0), STAR, STAR, STAR) && Means(s, f)
    ensures forall t :: s.Matches(t) <==> t % SECONDS_PER_DAY == 0
  {
    SimpleSets(s, f, 0);
    forall t
      ensures s.Matches(t) <==> t % SECONDS_PER_DAY == 0
    {
      EveryDay(s, f, t);
    }
  }

  lemma AlwaysEveryHour(s: CronSchedule, f: Fields)
    requires f == Fields(Plain(0), STAR, STAR, STAR, STAR) && Means(s, f)
    ensures forall t :: s.Matches(t) <==> t % 3600 == 0
  {
    SimpleSets(s, f, 0);
    forall t
      ensures s.Matches(t) <==> t % 3600 == 0
    {
      EveryHour(s, f, t);
    }
  }

  // ------------------------------------------------------ special schedules

  /** A special schedule stands for a printed text and has a delay range. */
  lemma SpecialMeans(text: string, f: Fields, delayRange: int, r: Result<CronSchedule>)
    requires f.WellFormed() && SourceOf(text) == Ok(Regular(PrintFields(f), delayRange)) && IsScheduleOf(r, text)
    ensures r.Ok? && Means(r.value, f) && r.value.delayRange == delayRange
  {
    FieldsRoundTrip(f);
  }

  lemma HourlyText(f: Fields)
    requires f == Fields(Plain(0), STAR, STAR, STAR, STAR)
    ensures f.WellFormed() && PrintFields(f) == "0 * * * *"
  {
    assert PrintItems(f.minutes, 0, 59) == "0" && PrintItems(f.hours, 0, 23) == "*" && PrintItems(f.daysOfMonth, 1, 31) == "*";
    assert PrintItems(f.months, 1, 12) == "*" && PrintItems(f.daysOfWeek, 0, 7) == "*";
  }

  lemma DailyText(f: Fields)
    requires f == Fields(Plain(0), Plain(0), STAR, STAR, STAR)
    ensures f.WellFormed() && PrintFields(f) == "0 0 * * *"
  {
    assert PrintItems(f.minutes, 0, 59) == "0" && PrintItems(f.hours, 0, 23) == "0" && PrintItems(f.daysOfMonth, 1, 31) == "*";
    assert PrintItems(f.months, 1, 12) == "*" && PrintItems(f.daysOfWeek, 0, 7) == "*";
  }

  lemma WeeklyText(f: Fields)
    requires f == Fields(Plain(0), Plain(0), STAR, STAR, Plain(0))
    ensures f.WellFormed() && PrintFields(f) == "0 0 * * 0"
  {
    assert PrintItems(f.minutes, 0, 59) == "0" && PrintItems(f.hours, 0, 23) == "0" && PrintItems(f.daysOfMonth, 1, 31) == "*";
    assert PrintItems(f.months, 1, 12) == "*" && PrintItems(f.daysOfWeek, 0, 7) == "0";
  }

  lemma MonthlyText(f: Fields)
    requires f == Fields(Plain(0), Plain(0), Plain(1), STAR, STAR)
    ensures f.WellFormed() && PrintFields(f) == "0 0 1 * *"
  {
    assert PrintItems(f.minutes, 0, 59) == "0" && PrintItems(f.hours, 0, 23) == "0" && PrintItems(f.daysOfMonth, 1, 31) == "1";
    assert PrintItems(f.months, 1, 12) == "*" && PrintItems(f.daysOfWeek, 0, 7) == "*";
  }

  lemma YearlyText(f: Fields)
    requires f == Fields(Plain(0), Plain(0), Plain(1), Plain(1), STAR)
    ensures f.WellFormed() && PrintFields(f) == "0 0 1 1 *"
  {
    assert PrintItems(f.minutes, 0, 59) == "0" && PrintItems(f.hours, 0, 23) == "0" && PrintItems(f.daysOfMonth, 1, 31) == "1";
    assert PrintItems(f.months, 1, 12) == "1" && PrintItems(f.daysOfWeek, 0, 7) == "*";
  }

  const DAY := 24 * 3600

  lemma {:induction false} SpecialAt(s: string, table: seq<Special>, i: nat)
    requires i < |table| && table[i].name == s && forall j | 0 <= j < i :: table[j].name != s
    ensures TranslateSpecial(s, table) == Some(table[i])
  {
    if 0 < i {
      SpecialAt(s, table[1..], i - 1);
    }
  }

  lemma SpecialsDiffer(i: nat, j: nat)
    requires j < i < 7
    ensures SPECIALS[j].name != SPECIALS[i].name
  {
    var a, b := SPECIALS[j].name, SPECIALS[i].name;
    assert |a| != |b| || a[0] != b[0];
  }

  lemma SpecialName(i: nat)
    requires i < 7
    ensures SPECIALS[i].name != "" && IsLetter(SPECIALS[i].name[0]) && SPECIALS[i].name != "once"
  {
    assert |SPECIALS[i].name| != 4;
  }

  lemma SpecialSource(text: string, i: nat)
    requires i < 7 && text == "@" + SPECIALS[i].name
    ensures SourceOf(text) == Ok(Regular(SPECIALS[i].regular, SPECIALS[i].delayRange))
  {
    var s := SPECIALS[i].name;
    assert text[1..] == s;
    SpecialName(i);
    assert SkipSpace(s) == s && Digits(s) == 0;
    forall j | 0 <= j < i
      ensures SPECIALS[j].name != s
    {
      SpecialsDiffer(i, j);
    }
    SpecialAt(s, SPECIALS, i);
  }

  lemma HourlySource(text: string)
    requires text == "@hourly"
    ensures SourceOf(text) == Ok(Regular("0 * * * *", 3600))
  {
    SpecialSource(text, 6);
  }

  lemma HourlyMeans(text: string, r: Result<CronSchedule>)
    requires text == "@hourly" && IsScheduleOf(r, text)
    ensures r.Ok? && r.value.delayRange == 3600 && forall t :: r.value.Matches(t) <==> t % 3600 == 0
  {
    var f := Fields(Plain(0), STAR, STAR, STAR, STAR);
    HourlyText(f);
    HourlySource(text);
    SpecialMeans(text, f, 3600, r);
    AlwaysEveryHour(r.value, f);
  }

  lemma DailySource(text: string)
    requires text == "@daily" || text == "@midnight"
    ensures SourceOf(text) == Ok(Regular("0 0 * * *", if text == "@daily" then DAY else 3600))
  {
    SpecialSource(text, if text == "@daily" then 4 else 5);
  }

  lemma DailyMeans(text: string, r: Result<CronSchedule>)
    requires (text == "@daily" || text == "@midnight") && IsScheduleOf(r, text)
    ensures r.Ok? && r.value.delayRange == if text == "@daily" then DAY else 3600
    ensures forall t :: r.value.Matches(t) <==> t % DAY == 0
  {
    var f := Fields(Plain(0), Plain(0), STAR, STAR, STAR);
    DailyText(f);
    DailySource(text);
    SpecialMeans(text, f, if text == "@daily" then DAY else 3600, r);
    AlwaysEveryDay(r.value, f);
  }

  lemma WeeklySource(text: string)
    requires text == "@weekly"
    ensures SourceOf(text) == Ok(Regular("0 0 * * 0", 7 * DAY))
  {
    SpecialSource(text, 3);
  }

  /** Sundays at midnight. */
  lemma WeeklyMeans(text: string, r: Result<CronSchedule>)
    requires text == "@weekly" && IsScheduleOf(r, text)
    ensures r.Ok? && r.value.delayRange == 7 * DAY
    ensures forall t :: r.value.Matches(t) <==> t % DAY == 0 && WeekdayOf(Day(t)) == 0
  {
    var f := Fields(Plain(0), Plain(0), STAR, STAR, Plain(0));
    WeeklyText(f);
    WeeklySource(text);
    SpecialMeans(text, f, 7 * DAY, r);
    AlwaysOnWeekday(r.value, f, 0);
  }

  lemma MonthlySource(text: string)
    requires text == "@monthly"
    ensures SourceOf(text) == Ok(Regular("0 0 1 * *", 28 * DAY))
  {
    SpecialSource(text, 2);
  }

  lemma MonthlyMeans(text: string, r: Result<CronSchedule>)
    requires text == "@monthly" && IsScheduleOf(r, text)
    ensures r.Ok? && r.value.delayRange == 28 * DAY
    ensures forall t :: r.value.Matches(t) <==> t % DAY == 0 && DateOf(Day(t)).day == 1
  {
    var f := Fields(Plain(0), Plain(0), Plain(1), STAR, STAR);
    MonthlyText(f);
    MonthlySource(text);
    SpecialMeans(text, f, 28 * DAY, r);
    AlwaysOnFirst(r.value, f);
  }

  lemma YearlySource(text: string)
    requires text == "@yearly" || text == "@annually"
    ensures SourceOf(text) == Ok(Regular("0 0 1 1 *", 365 * DAY))
  {
    SpecialSource(text, if text == "@yearly" then 0 else 1);
  }

  /** New year at midnight. */
  lemma YearlyMeans(text: string, r: Result<CronSchedule>)
    requires (text == "@yearly" || text == "@annually") && IsScheduleOf(r, text)
    ensures r.Ok? && r.value.delayRange == 365 * DAY
    ensures forall t :: r.value.Matches(t) <==> t % DAY == 0 && DateOf(Day(t)).month == 1 && DateOf(Day(t)).day == 1
  {
    var f := Fields(Plain(0), Plain(0), Plain(1), Plain(1), STAR);
    YearlyText(f);
    YearlySource(text);
    SpecialMeans(text, f, 365 * DAY, r);
    AlwaysOnDate(r.value, f, 1);
  }

  /** It never matches a time, and it is not delayed. */
  lemma OnceMeans(text: string, r: Result<CronSchedule>)
    requires text == "@once" && IsScheduleOf(r, text)
    ensures r.Ok? && r.value.IsOnce() && r.value.delayRange == 0 && forall t :: !r.value.Matches(t)
  {
    assert text[1..] == "once";
  }

  lemma MultipliedSource(digits: string, text: string)
    requires IsNumeral(digits) && text == "@" + digits + "hourly"
    ensures SourceOf(text) == if 1 <= DecimalValue(digits) <= 24 then Ok(Hourly(DecimalValue(digits))) else Error
  {
    assert text[1..] == digits + "hourly";
    assert text[1..][0] == digits[0];
    StrtoulOfNumeral(digits, "hourly");
  }

  /** "@6hourly" and the like: on the hour, every six hours from midnight on, delayed by up to six hours. */
  lemma MultipliedHourlyMeans(digits: string, text: string, r: Result<CronSchedule>)
    requires IsNumeral(digits) && text == "@" + digits + "hourly" && IsScheduleOf(r, text)
    ensures r.Ok? <==> 1 <= DecimalValue(digits) <= 24
    ensures r.Ok? ==> r.value.delayRange == DecimalValue(digits) * 3600
    ensures r.Ok? ==> forall t :: r.value.Matches(t) <==> t % 3600 == 0 && t % DAY / 3600 % DecimalValue(digits) == 0
  {
    MultipliedSource(digits, text);
    if r.Ok? {
      forall t
        ensures r.value.Matches(t) <==> t % 3600 == 0 && t % DAY / 3600 % DecimalValue(digits) == 0
      {
        OnTheHour(r.value, t);
        AnyDayMatches(r.value, Day(t));
      }
    }
  }

  // ----------------------------------------------------------- blanks, signs

  /** Spaces, tabs and the like. */
  predicate IsBlank(s: string) {
    forall i | 0 <= i < |s| :: s[i] == ' ' || s[i] == '\t' || s[i] == '\n' || s[i] == '\r'
  }

  lemma {:induction false} BlanksAreStripped(blanks: string, s: string)
    requires IsBlank(blanks) && (s == "" || ' ' < s[0])
    ensures StripLeft(blanks + s) == s
  {
    if blanks != "" {
      assert (blanks + s)[1..] == blanks[1..] + s;
      BlanksAreStripped(blanks[1..], s);
    } else {
      assert blanks + s == s;
    }
  }

  lemma BlankField(blanks: string, items: seq<Item>, min: int, max: int, names: seq<Symbol>, rest: string)
    requires IsBlank(blanks) && FieldWellFormed(items, min, max) && 0 <= min && max <= 99 && EndsField(rest)
    ensures FieldOf(blanks + (PrintItems(items, min, max) + rest), min, max, names) == Ok((items, rest))
  {
    FieldStartsWithoutSpace(items, min, max);
    BlanksAreStripped(blanks, PrintItems(items, min, max) + rest);
    ItemsRoundTrip(items, min, max, names, rest);
  }

  lemma BlankEndsField(blanks: string, rest: string)
    requires IsBlank(blanks) && (blanks != "" || rest == "")
    ensures EndsField(blanks + rest)
  {
    if blanks != "" {
      assert (blanks + rest)[0] == blanks[0];
    }
  }

  /** Any blanks may separate the fields, stand before them and behind them. */
  lemma BlanksSeparate(f: Fields, b0: string, b1: string, b2: string, b3: string, b4: string, b5: string)
    requires f.WellFormed() && b1 != "" && b2 != "" && b3 != "" && b4 != ""
    requires IsBlank(b0) && IsBlank(b1) && IsBlank(b2) && IsBlank(b3) && IsBlank(b4) && IsBlank(b5)
    ensures FieldsOf(b0 + (PrintItems(f.minutes, 0, 59) + (b1 + (PrintItems(f.hours, 0, 23) + (b2 +
                       (PrintItems(f.daysOfMonth, 1, 31) + (b3 + (PrintItems(f.months, 1, 12) + (b4 +
                         (PrintItems(f.daysOfWeek, 0, 7) + (b5 + ""))))))))))) == Ok(f)
  {
    var end := b5 + "";
    var weekdays := b4 + (PrintItems(f.daysOfWeek, 0, 7) + end);
    var months := b3 + (PrintItems(f.months, 1, 12) + weekdays);
    var days := b2 + (PrintItems(f.daysOfMonth, 1, 31) + months);
    var hours := b1 + (PrintItems(f.hours, 0, 23) + days);
    BlankEndsField(b5, "");
    BlankEndsField(b4, PrintItems(f.daysOfWeek, 0, 7) + end);
    BlankEndsField(b3, PrintItems(f.months, 1, 12) + weekdays);
    BlankEndsField(b2, PrintItems(f.daysOfMonth, 1, 31) + months);
    BlankEndsField(b1, PrintItems(f.hours, 0, 23) + days);
    BlankField(b0, f.minutes, 0, 59, NO_NAMES, hours);
    BlankField(b1, f.hours, 0, 23, NO_NAMES, days);
    BlankField(b2, f.daysOfMonth, 1, 31, NO_NAMES, months);
    BlankField(b3, f.months, 1, 12, MONTH_NAMES, weekdays);
    BlankField(b4, f.daysOfWeek, 0, 7, WEEKDAY_NAMES, end);
    BlanksAreStripped(b5, "");
  }

  lemma {:induction false} BlanksAreSkipped(blanks: string, s: string)
    requires IsBlank(blanks) && s != "" && ' ' < s[0]
    ensures SkipSpace(blanks + s) == s
  {
    if blanks != "" {
      assert (blanks + s)[1..] == blanks[1..] + s;
      BlanksAreSkipped(blanks[1..], s);
    } else {
      assert blanks + s == s;
    }
  }

  /** Blanks before a number change nothing either, as after a comma. */
  lemma BlankNumeral(blanks: string, digits: string, rest: string, min: int, max: int, names: seq<Symbol>)
    requires IsBlank(blanks) && IsNumeral(digits) && !IsDigit(Peek(rest))
    ensures NumberOf(blanks + (digits + rest), min, max, names) == NumberOf(digits + rest, min, max, names)
  {
    assert (digits + rest)[0] == digits[0];
    BlanksAreSkipped(blanks, digits + rest);
    BlanksAreSkipped("", digits + rest);
    assert "" + (digits + rest) == digits + rest;
    StrtoulOfNumeral(digits, rest);
    DigitsOfNumeral(digits, rest);
  }

  /** A plus sign changes nothing. */
  lemma PlusNumeral(digits: string, rest: string, min: int, max: int, names: seq<Symbol>)
    requires IsNumeral(digits) && !IsDigit(Peek(rest)) && 0 <= min <= max < ULONG_MAX
    ensures NumberOf("+" + (digits + rest), min, max, names) == NumberOf(digits + rest, min, max, names)
  {
    var s := digits + rest;
    assert s[0] == digits[0] && ("+" + s)[1..] == s;
    StrtoulOfNumeral(digits, rest);
  }

  /** A minus sign is an error, unless the number is 0 or the negation wraps around. */
  lemma MinusNumeral(digits: string, rest: string, min: int, max: int, names: seq<Symbol>)
    requires IsNumeral(digits) && !IsDigit(Peek(rest)) && 0 <= min <= max < ULONG_MAX
    ensures DecimalValue(digits) == 0 && min == 0 ==> NumberOf("-" + (digits + rest), min, max, names) == Ok((0, rest))
    ensures 0 < DecimalValue(digits) <= ULONG_MAX - max ==> NumberOf("-" + (digits + rest), min, max, names).Error?
  {
    var s := digits + rest;
    DigitsOfNumeral(digits, rest);
    assert s[..|digits|] == digits && s[|digits|..] == rest && ("-" + s)[1..] == s;
  }

  // --------------------------------------------------- an inexact answer

  predicate NamesMondays(f: Fields) {
    && f.minutes == Plain(0) && f.hours == Plain(6) + Plain(18) && f.daysOfWeek == Plain(1)
    && f.daysOfMonth == [Item(Star, None)] && f.months == [Item(Star, None)]
  }

  /** 06:00 and 18:00 on Mondays. */
  predicate OnMondays(s: CronSchedule) {
    && s.minutes == {0} && s.hours == {6, 18} && s.daysOfWeek == {1} && s.daysAnyWildcard
    && s.daysOfMonth == All(1, 31) && s.months == All(1, 12)
  }

  lemma SixAndEighteen(s: CronSchedule, f: Fields)
    requires f.hours == Plain(6) + Plain(18) && Means(s, f)
    ensures s.hours == {6, 18}
  {
    TwoNumbers(s.hours, 6, 18, 0, 23);
  }

  lemma MondaysMean(s: CronSchedule, f: Fields)
    requires NamesMondays(f) && Means(s, f)
    ensures OnMondays(s)
  {
    SimpleMinutes(s, f);
    SixAndEighteen(s, f);
    SimpleDays(s, f);
    SimpleMonths(s, f);
    SimpleWeekdays(s, f, 1);
  }

  lemma PrintsTwoHours(items: seq<Item>)
    requires items == Plain(6) + Plain(18)
    ensures FieldWellFormed(items, 0, 23) && PrintItems(items, 0, 23) == "6,18"
  {
    assert items[1..] == Plain(18);
    assert PrintItems(items[1..], 0, 23) == "18";
  }

  lemma MondaysText(f: Fields)
    requires NamesMondays(f)
    ensures f.WellFormed() && PrintFields(f) == "0 6,18 * * 1"
  {
    PrintsTwoHours(f.hours);
    assert PrintItems(f.minutes, 0, 59) == "0" && PrintItems(f.daysOfWeek, 0, 7) == "1";
    assert PrintItems(f.daysOfMonth, 1, 31) == "*" && PrintItems(f.months, 1, 12) == "*";
  }

  const MONDAY := 4 * SECONDS_PER_DAY

  /** After Thursday 1 January 1970 at noon the first matches are 06:00 and 18:00 on Monday. */
  lemma MondayMatches(s: CronSchedule, t: int)
    requires OnMondays(s) && 0 <= Day(t) <= 4
    ensures s.Matches(t) <==> t == MONDAY + 6 * 3600 || t == MONDAY + 18 * 3600
  {
    MatchesFields(s, t);
    Decompose(t);
    FirstMonday(s, Day(t));
  }

  lemma FirstMonday(s: CronSchedule, n: int)
    requires OnMondays(s) && 0 <= n <= 4
    ensures s.CheckDay(n) <==> n == 4
  {
    DayOfMonthRange(n);
    assert WeekdayOf(n) == 1 <==> n == 4;
  }

  lemma SkippedMonday(s: CronSchedule, t: int)
    requires OnMondays(s) && NextFrom(s, 43200, t)
    ensures t == MONDAY + 18 * 3600
  {
    var first := MONDAY + 6 * 3600;
    Compose(4, 360);
    MondayMatches(s, first);
    MondayMatches(s, t);
    assert s.CheckMinuteOfDay(360) && s.CheckMinuteOfDay(1080);
    FirstMonday(s, 0);
    forall u | 43200 < u && s.Matches(u)
      ensures first <= u
    {
      if Day(u) <= 4 {
        MondayMatches(s, u);
      }
    }
  }

  lemma MondaySixIsNamed(s: CronSchedule)
    requires OnMondays(s)
    ensures s.Possible() && s.Matches(MONDAY + 6 * 3600)
  {
    assert 0 !in s.daysOfWeek;
    Compose(4, 360);
    MondayMatches(s, MONDAY + 6 * 3600);
  }

  lemma PrintedIsParsed(f: Fields, text: string, r: Result<CronSchedule>)
    requires f.WellFormed() && text == PrintFields(f) && IsScheduleOf(r, text)
    ensures r.Ok? && Means(r.value, f) && r.value.Parsed()
  {
    ScheduleRoundTrip(f, r);
    MeaningIsParsed(r.value, f);
  }

  lemma MondaysAreAccepted(text: string, r: Result<CronSchedule>)
    requires text == "0 6,18 * * 1" && IsScheduleOf(r, text)
    ensures r.Ok? && OnMondays(r.value) && r.value.Parsed()
  {
    var f := Fields(Plain(0), Plain(6) + Plain(18), [Item(Star, None)], [Item(Star, None)], Plain(1));
    MondaysText(f);
    PrintedIsParsed(f, text, r);
    MondaysMean(r.value, f);
  }

  lemma MondaysAnswer(s: CronSchedule, now: int, next: NextTime)
    requires OnMondays(s) && s.Parsed()
    ensures s.Possible() && s.Matches(MONDAY + 6 * 3600)
    ensures IsNextResult(s, Some(43200), now, next) ==> next == At(MONDAY + 18 * 3600)
  {
    MondaySixIsNamed(s);
    if IsNextResult(s, Some(43200), now, next) {
      SkippedMonday(s, next.time);
    }
  }

  /**
   "0 6,18 * * 1" is accepted; asked on Thursday 1 January 1970 at noon, `Next` can only
   give Monday at 18:00, and Monday at 06:00 is skipped.
   */
  lemma NextIsNotAlwaysExact(text: string, r: Result<CronSchedule>, now: int, next: NextTime)
    requires text == "0 6,18 * * 1" && IsScheduleOf(r, text)
    ensures r.Ok? && r.value.Parsed() && r.value.Possible()
    ensures IsNextResult(r.value, Some(43200), now, next) ==> next == At(MONDAY + 18 * 3600)
    ensures r.value.Matches(MONDAY + 6 * 3600)
  {
    MondaysAreAccepted(text, r);
    MondaysAnswer(r.value, now, next);
  }
}
