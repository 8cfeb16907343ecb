/**
 What the parser means: every accepted text gives a well-formed schedule, and every
 syntax tree, printed canonically, is read back exactly.
 */
module ScheduleMeaning {
  import opened Common
  import opened Calendar
  import opened Schedule
  import opened ScheduleParser

  // -------------------------------------------------------------- soundness

  lemma FieldsAreWellFormed(text: string)
    requires FieldsOf(text).Ok?
    ensures FieldsOf(text).value.WellFormed()
  {
    SymbolTablesInRange();
    var minutes := FieldOf(text, 0, 59, NO_NAMES).value;
    ItemsAreWellFormed(StripLeft(text), 0, 59, NO_NAMES);
    var hours := FieldOf(minutes.1, 0, 23, NO_NAMES).value;
    ItemsAreWellFormed(StripLeft(minutes.1), 0, 23, NO_NAMES);
    var days := FieldOf(hours.1, 1, 31, NO_NAMES).value;
    ItemsAreWellFormed(StripLeft(hours.1), 1, 31, NO_NAMES);
    var months := FieldOf(days.1, 1, 12, MONTH_NAMES).value;
    ItemsAreWellFormed(StripLeft(days.1), 1, 12, MONTH_NAMES);
    ItemsAreWellFormed(StripLeft(months.1), 0, 7, WEEKDAY_NAMES);
  }

  lemma FieldIsNonEmptyAndInRange(items: seq<Item>, min: int, max: int)
    requires FieldWellFormed(items, min, max)
    ensures FieldNames(items, items[0].First(min), min, max) && min <= items[0].First(min) <= max
    ensures forall k :: FieldNames(items, k, min, max) ==> min <= k <= max
    ensures HasPlainStar(items) ==> forall k :: min <= k <= max ==> FieldNames(items, k, min, max)
  {
    assert items[0].Names(items[0].First(min), min, max);
    if HasPlainStar(items) {
      var i :| 0 <= i < |items| && items[i] == Item(Star, None);
      forall k | min <= k <= max
        ensures FieldNames(items, k, min, max)
      {
        assert items[i].Names(k, min, max);
      }
    }
  }

  /** The invariant `Next` relies on: five nonempty sets in range, and a wildcard flag only with a full day set. */
  lemma MeaningIsParsed(s: CronSchedule, f: Fields)
    requires f.WellFormed() && Means(s, f)
    ensures s.Parsed()
  {
    FieldIsNonEmptyAndInRange(f.minutes, 0, 59);
    FieldIsNonEmptyAndInRange(f.hours, 0, 23);
    FieldIsNonEmptyAndInRange(f.daysOfMonth, 1, 31);
    FieldIsNonEmptyAndInRange(f.months, 1, 12);
    FieldIsNonEmptyAndInRange(f.daysOfWeek, 0, 7);
    var weekday := f.daysOfWeek[0].First(0);
    assert (if weekday == 7 then 0 else weekday) in s.daysOfWeek;
    assert f.minutes[0].First(0) in s.minutes && f.hours[0].First(0) in s.hours;
    assert f.daysOfMonth[0].First(1) in s.daysOfMonth && f.months[0].First(1) in s.months;
  }

  lemma HourlyIsParsed(s: CronSchedule, multiplier: int)
    requires 1 <= multiplier && IsHourly(s, multiplier)
    ensures s.Parsed()
  {
    assert 0 in s.minutes && OnStep(0, 0, multiplier) && 0 in s.hours;
    assert 1 in s.daysOfMonth && 1 in s.months && 1 in s.daysOfWeek;
  }

  /** Every schedule the constructor accepts is `@once` or satisfies what `Next` needs. */
  lemma AcceptedScheduleIsParsed(r: Result<CronSchedule>, text: string)
    requires IsScheduleOf(r, text) && r.Ok?
    ensures r.value.IsOnce() || r.value.Parsed()
  {
    match SourceOf(text) {
      case Error =>
      case Ok(Once) =>
      case Ok(Hourly(multiplier)) =>
        HourlyIsParsed(r.value, multiplier);
      case Ok(Regular(regular, _)) =>
        FieldsAreWellFormed(regular);
        MeaningIsParsed(r.value, FieldsOf(regular).value);
    }
  }

  // ---------------------------------------------------------- the day rule

  ghost predicate WeekdayNamed(f: Fields, weekday: int) {
    FieldNames(f.daysOfWeek, weekday, 0, 7) || (weekday == 0 && FieldNames(f.daysOfWeek, 7, 0, 7))
  }

  /** A day field written as "*" leaves the decision to the other one; two restricted fields are alternatives. */
  ghost predicate DayNamed(f: Fields, day: int, weekday: int) {
    if HasPlainStar(f.daysOfMonth) && HasPlainStar(f.daysOfWeek) then true
    else if HasPlainStar(f.daysOfMonth) then WeekdayNamed(f, weekday)
    else if HasPlainStar(f.daysOfWeek) then FieldNames(f.daysOfMonth, day, 1, 31)
    else FieldNames(f.daysOfMonth, day, 1, 31) || WeekdayNamed(f, weekday)
  }

  /** The day test, read off the text's own fields. */
  lemma CheckDateIsTheDayRule(s: CronSchedule, f: Fields, tm: BrokenDown)
    requires f.WellFormed() && Means(s, f) && ValidDate(tm.date) && 0 <= tm.weekday < 7
    ensures s.CheckDate(tm) <==>
              FieldNames(f.months, tm.date.month, 1, 12) && DayNamed(f, tm.date.day, tm.weekday)
  {
    FieldIsNonEmptyAndInRange(f.daysOfMonth, 1, 31);
    FieldIsNonEmptyAndInRange(f.daysOfWeek, 0, 7);
    assert 1 <= tm.date.day <= 31;
  }

  /**
   The rule of the POSIX `crontab` utility, which joins the month with the day of the month:
   "0 0 1 2 1" names 1 February and every Monday of the year.
   */
  ghost predicate PosixNames(f: Fields, month: int, day: int, weekday: int) {
    var date := FieldNames(f.months, month, 1, 12) && FieldNames(f.daysOfMonth, day, 1, 31);
    if HasPlainStar(f.daysOfWeek) then date
    else if HasPlainStar(f.months) && HasPlainStar(f.daysOfMonth) then WeekdayNamed(f, weekday)
    else date || WeekdayNamed(f, weekday)
  }

  /** The weekday is restricted, and the day is one of a month that is not named, or of a named month without restricted days. */
  ghost predicate PosixNamesMore(f: Fields, month: int, weekday: int) {
    && !HasPlainStar(f.daysOfWeek)
    && if FieldNames(f.months, month, 1, 12)
       then HasPlainStar(f.daysOfMonth) && !HasPlainStar(f.months) && !WeekdayNamed(f, weekday)
       else WeekdayNamed(f, weekday)
  }

  /** The day test passes exactly the days the POSIX rule names, less those for which it joins the fields differently. */
  lemma CheckDateVersusPosix(s: CronSchedule, f: Fields, tm: BrokenDown)
    requires f.WellFormed() && Means(s, f) && ValidDate(tm.date) && 0 <= tm.weekday < 7
    ensures s.CheckDate(tm) <==>
              PosixNames(f, tm.date.month, tm.date.day, tm.weekday) && !PosixNamesMore(f, tm.date.month, tm.weekday)
    ensures PosixNamesMore(f, tm.date.month, tm.weekday) ==> PosixNames(f, tm.date.month, tm.date.day, tm.weekday)
  {
    CheckDateIsTheDayRule(s, f, tm);
    FieldIsNonEmptyAndInRange(f.months, 1, 12);
    FieldIsNonEmptyAndInRange(f.daysOfMonth, 1, 31);
    assert 1 <= tm.date.day <= 31;
  }

  // --------------------------------------------------------------- printing

  function Digit(n: int): char
    requires 0 <= n <= 9
  {
    "0123456789"[n]
  }

  function PrintNumber(n: int): string
    requires 0 <= n <= 99
  {
    if n < 10 then [Digit(n)] else [Digit(n / 10), Digit(n % 10)]
  }

  function PrintSpan(span: Span, min: int, max: int): string
    requires Item(span, None).WellFormed(min, max) && 0 <= min && max <= 99
  {
    match span
    case Star => "*"
    case One(n) => PrintNumber(n)
    case FromTo(first, last) => PrintNumber(first) + "-" + PrintNumber(last)
  }

  function PrintItem(item: Item, min: int, max: int): string
    requires item.WellFormed(min, max) && 0 <= min && max <= 99
  {
    PrintSpan(item.span, min, max) + if item.step.None? then "" else "/" + PrintNumber(item.step.value)
  }

  function PrintItems(items: seq<Item>, min: int, max: int): string
    requires FieldWellFormed(items, min, max) && 0 <= min && max <= 99
  {
    PrintItem(items[0], min, max) + if |items| == 1 then "" else "," + PrintItems(items[1..], min, max)
  }

  function PrintFields(f: Fields): string
    requires f.WellFormed()
  {
    PrintItems(f.minutes, 0, 59) + (" " + (PrintItems(f.hours, 0, 23) + (" " +
      (PrintItems(f.daysOfMonth, 1, 31) + (" " + (PrintItems(f.months, 1, 12) + (" " +
        (PrintItems(f.daysOfWeek, 0, 7) + ""))))))))
  }

  // ------------------------------------------------------------- round trip

  lemma DigitRoundTrip(n: int)
    requires 0 <= n <= 9
    ensures IsDigit(Digit(n)) && DigitValue(Digit(n)) == n
  {
  }

  lemma NumberRoundTrip(n: int, rest: string)
    requires 0 <= n <= 99 && !IsDigit(Peek(rest))
    ensures Strtoul(PrintNumber(n) + rest) == Some((n, rest))
  {
    var text := PrintNumber(n) + rest;
    if n < 10 {
      DigitRoundTrip(n);
      assert text[1..] == rest && text[..1] == [Digit(n)];
      assert Digits(rest) == 0 && Digits(text) == 1;
      assert DecimalValue([Digit(n)]) == n;
    } else {
      DigitRoundTrip(n / 10);
      DigitRoundTrip(n % 10);
      var tail := [Digit(n % 10)] + rest;
      assert text[1..] == tail && tail[1..] == rest && text[2..] == rest;
      assert Digits(rest) == 0 && Digits(tail) == 1 && Digits(text) == 2;
      assert text[..2] == [Digit(n / 10), Digit(n % 10)] && text[..2][..1] == [Digit(n / 10)];
      assert DecimalValue([Digit(n / 10)]) == n / 10;
      assert DecimalValue(text[..2]) == n;
    }
  }

  predicate EndsNumber(rest: string) {
    !IsDigit(Peek(rest))
  }

  predicate EndsSpan(rest: string) {
    EndsNumber(rest) && Peek(rest) != '-'
  }

  predicate EndsItem(rest: string) {
    EndsSpan(rest) && Peek(rest) != '/'
  }

  predicate EndsField(rest: string) {
    EndsItem(rest) && Peek(rest) != ','
  }

  lemma ParsedNumberRoundTrip(n: int, min: int, max: int, names: seq<Symbol>, rest: string)
    requires 0 <= min <= n <= max <= 99 && EndsNumber(rest)
    ensures NumberOf(PrintNumber(n) + rest, min, max, names) == Ok((n, rest))
    ensures Peek(PrintNumber(n) + rest) != '*'
  {
    NumberRoundTrip(n, rest);
    DigitRoundTrip(if n < 10 then n else n / 10);
  }

  lemma SpanRoundTrip(span: Span, min: int, max: int, names: seq<Symbol>, rest: string)
    requires Item(span, None).WellFormed(min, max) && 0 <= min && max <= 99 && EndsSpan(rest)
    ensures SpanOf(PrintSpan(span, min, max) + rest, min, max, names) == Ok((span, rest))
  {
    match span {
      case Star =>
        assert ("*" + rest)[1..] == rest;
      case One(n) =>
        ParsedNumberRoundTrip(n, min, max, names, rest);
      case FromTo(first, last) =>
        var tail := "-" + (PrintNumber(last) + rest);
        assert PrintSpan(span, min, max) + rest == PrintNumber(first) + tail;
        assert tail[1..] == PrintNumber(last) + rest;
        ParsedNumberRoundTrip(first, min, max, names, tail);
        ParsedNumberRoundTrip(last, min, max, names, rest);
    }
  }

  lemma ItemRoundTrip(item: Item, min: int, max: int, names: seq<Symbol>, rest: string)
    requires item.WellFormed(min, max) && 0 <= min && max <= 99 && EndsItem(rest)
    ensures ItemOf(PrintItem(item, min, max) + rest, min, max, names) == Ok((item, rest))
  {
    if item.step.None? {
      assert PrintItem(item, min, max) + rest == PrintSpan(item.span, min, max) + rest;
      SpanRoundTrip(item.span, min, max, names, rest);
    } else {
      var tail := "/" + (PrintNumber(item.step.value) + rest);
      assert PrintItem(item, min, max) + rest == PrintSpan(item.span, min, max) + tail;
      assert tail[1..] == PrintNumber(item.step.value) + rest;
      SpanRoundTrip(item.span, min, max, names, tail);
      ParsedNumberRoundTrip(item.step.value, 1, max, names, rest);
    }
  }

  lemma {:induction false} ItemsRoundTrip(items: seq<Item>, min: int, max: int, names: seq<Symbol>, rest: string)
    requires FieldWellFormed(items, min, max) && 0 <= min && max <= 99 && EndsField(rest)
    ensures ItemsOf(PrintItems(items, min, max) + rest, min, max, names) == Ok((items, rest))
    decreases |items|
  {
    if |items| == 1 {
      assert items == [items[0]];
      assert PrintItems(items, min, max) + rest == PrintItem(items[0], min, max) + rest;
      ItemRoundTrip(items[0], min, max, names, rest);
    } else {
      var tail := "," + (PrintItems(items[1..], min, max) + rest);
      assert PrintItems(items, min, max) + rest == PrintItem(items[0], min, max) + tail;
      assert tail[1..] == PrintItems(items[1..], min, max) + rest;
      ItemRoundTrip(items[0], min, max, names, tail);
      ItemsRoundTrip(items[1..], min, max, names, rest);
      assert [items[0]] + items[1..] == items;
    }
  }

  lemma FieldStartsWithoutSpace(items: seq<Item>, min: int, max: int)
    requires FieldWellFormed(items, min, max) && 0 <= min && max <= 99
    ensures var text := PrintItems(items, min, max);
            text != "" && ' ' < text[0] && text[0] != '@' && (text[0] == '*' <==> items[0].span.Star?)
  {
    var item := items[0];
    assert item.WellFormed(min, max);
    if item.span.One? || item.span.FromTo? {
      var n := item.First(min);
      DigitRoundTrip(if n < 10 then n else n / 10);
    }
  }

  /** One field, with or without the separating space. */
  lemma FieldRoundTrip(items: seq<Item>, min: int, max: int, names: seq<Symbol>, rest: string)
    requires FieldWellFormed(items, min, max) && 0 <= min && max <= 99 && EndsField(rest)
    ensures FieldOf(PrintItems(items, min, max) + rest, min, max, names) == Ok((items, rest))
    ensures FieldOf(" " + (PrintItems(items, min, max) + rest), min, max, names) == Ok((items, rest))
  {
    var text := PrintItems(items, min, max) + rest;
    FieldStartsWithoutSpace(items, min, max);
    assert (" " + text)[1..] == text;
    assert StripLeft(text) == text && StripLeft(" " + text) == text;
    ItemsRoundTrip(items, min, max, names, rest);
  }

  /** Every printed syntax tree is read back. */
  lemma FieldsRoundTrip(f: Fields)
    requires f.WellFormed()
    ensures FieldsOf(PrintFields(f)) == Ok(f)
  {
    var weekdays := " " + (PrintItems(f.daysOfWeek, 0, 7) + "");
    var months := " " + (PrintItems(f.months, 1, 12) + weekdays);
    var days := " " + (PrintItems(f.daysOfMonth, 1, 31) + months);
    var hours := " " + (PrintItems(f.hours, 0, 23) + days);
    FieldRoundTrip(f.minutes, 0, 59, NO_NAMES, hours);
    FieldRoundTrip(f.hours, 0, 23, NO_NAMES, days);
    FieldRoundTrip(f.daysOfMonth, 1, 31, NO_NAMES, months);
    FieldRoundTrip(f.months, 1, 12, MONTH_NAMES, weekdays);
    FieldRoundTrip(f.daysOfWeek, 0, 7, WEEKDAY_NAMES, "");
  }

  /** Minutes given as a single "every N minutes" spread the job over those N minutes. */
  function DelayFor(minutes: seq<Item>): int {
    if |minutes| == 1 && minutes[0].span.Star? && minutes[0].step.Some? then 60 * minutes[0].step.value else 60
  }

  lemma DelayOfStep(n: int, tail: string)
    requires 0 <= n <= 99 && EndsNumber(tail)
    ensures DelayOf("*/" + (PrintNumber(n) + tail)) == if Peek(tail) == ',' then 60 else 60 * n
  {
    var text := "*/" + (PrintNumber(n) + tail);
    assert text[2..] == PrintNumber(n) + tail;
    NumberRoundTrip(n, tail);
  }

  lemma DelayWithoutStep(text: string)
    requires Peek(text) != '*' || Peek(text[1..]) != '/'
    ensures DelayOf(text) == 60
  {
  }

  lemma PrintItemsSplit(items: seq<Item>, min: int, max: int, rest: string) returns (tail: string)
    requires FieldWellFormed(items, min, max) && 0 <= min && max <= 99
    ensures PrintItems(items, min, max) + rest == PrintItem(items[0], min, max) + tail
    ensures Peek(tail) == if |items| == 1 then Peek(rest) else ','
  {
    tail := if |items| == 1 then rest else "," + (PrintItems(items[1..], min, max) + rest);
  }

  lemma DelayOfStar(item: Item, tail: string)
    requires item.WellFormed(0, 59) && item.span.Star? && (Peek(tail) == ' ' || Peek(tail) == ',')
    ensures DelayOf(PrintItem(item, 0, 59) + tail) ==
            if item.step.Some? && Peek(tail) != ',' then 60 * item.step.value else 60
  {
    if item.step.Some? {
      assert PrintItem(item, 0, 59) + tail == "*/" + (PrintNumber(item.step.value) + tail);
      DelayOfStep(item.step.value, tail);
    } else {
      assert PrintItem(item, 0, 59) + tail == "*" + tail;
      assert ("*" + tail)[1..] == tail;
      DelayWithoutStep("*" + tail);
    }
  }

  lemma DelayRoundTrip(items: seq<Item>, rest: string)
    requires FieldWellFormed(items, 0, 59) && Peek(rest) == ' '
    ensures DelayOf(PrintItems(items, 0, 59) + rest) == DelayFor(items)
  {
    FieldStartsWithoutSpace(items, 0, 59);
    if items[0].span.Star? {
      var tail := PrintItemsSplit(items, 0, 59, rest);
      DelayOfStar(items[0], tail);
    } else {
      DelayWithoutStep(PrintItems(items, 0, 59) + rest);
    }
  }

  /** The constructor reads every printed schedule back: its sets, its wildcard flag and its delay range. */
  lemma ScheduleRoundTrip(f: Fields, r: Result<CronSchedule>)
    requires f.WellFormed() && IsScheduleOf(r, PrintFields(f))
    ensures r.Ok? && Means(r.value, f) && r.value.delayRange == DelayFor(f.minutes)
  {
    FieldsRoundTrip(f);
    FieldStartsWithoutSpace(f.minutes, 0, 59);
    DelayRoundTrip(f.minutes, PrintFields(f)[|PrintItems(f.minutes, 0, 59)|..]);
  }

  lemma SameMembers(a: set<int>, b: set<int>)
    requires forall k :: k in a <==> k in b
    ensures a == b
  {
    forall k | k in a ensures k in b {}
    forall k | k in b ensures k in a {}
  }

  lemma SameMeaning(a: set<int>, b: set<int>, items: seq<Item>, min: int, max: int)
    requires FieldMeans(a, items, min, max) && FieldMeans(b, items, min, max)
    ensures a == b
  {
    SameMembers(a, b);
  }

  /** A text determines its schedule: whatever means the same as the text is what the constructor returns. */
  lemma ReadBack(f: Fields, s: CronSchedule, r: Result<CronSchedule>)
    requires f.WellFormed() && Means(s, f) && IsScheduleOf(r, PrintFields(f))
    ensures r == Ok(s.(delayRange := DelayFor(f.minutes)))
  {
    ScheduleRoundTrip(f, r);
    var t := r.value;
    SameMeaning(s.minutes, t.minutes, f.minutes, 0, 59);
    SameMeaning(s.hours, t.hours, f.hours, 0, 23);
    SameMeaning(s.daysOfMonth, t.daysOfMonth, f.daysOfMonth, 1, 31);
    SameMeaning(s.months, t.months, f.months, 1, 12);
    SameMembers(s.daysOfWeek, t.daysOfWeek);
  }

  // ------------------------------------------------------ canonical listing

  ghost predicate Lists(items: seq<Item>, k: int) {
    exists i | 0 <= i < |items| :: items[i] == Item(One(k), None)
  }

  /** Plain numbers in increasing order: exactly the members of `b`. */
  ghost predicate IsListing(items: seq<Item>, b: set<int>) {
    && (forall i | 0 <= i < |items| :: items[i].step.None? && items[i].span.One? && items[i].span.n in b)
    && (forall i, j | 0 <= i < j < |items| :: items[i].First(0) < items[j].First(0))
    && (forall k :: k in b ==> Lists(items, k))
  }

  lemma {:induction false} ListingExists(b: set<int>, min: int, max: int) returns (items: seq<Item>)
    requires Within(b, min, max)
    ensures IsListing(items, b)
    decreases max - min
  {
    if max < min {
      items := [];
    } else {
      var before := ListingExists(b - {max}, min, max - 1);
      items := before + if max in b then [Item(One(max), None)] else [];
      forall k | k in b
        ensures Lists(items, k)
      {
        if k != max {
          assert k in b - {max} && Lists(before, k);
          var i :| 0 <= i < |before| && before[i] == Item(One(k), None);
          assert items[i] == before[i];
        } else {
          assert items[|before|] == Item(One(max), None);
        }
      }
    }
  }

  lemma PlainNumber(n: int, k: int, min: int, max: int)
    ensures Item(One(n), None).Names(k, min, max) <==> k == n
  {
  }

  lemma ListedIsNamed(items: seq<Item>, k: int, min: int, max: int)
    requires forall i | 0 <= i < |items| :: items[i].step.None? && items[i].span.One?
    ensures Lists(items, k) <==> FieldNames(items, k, min, max)
  {
    if Lists(items, k) {
      var i :| 0 <= i < |items| && items[i] == Item(One(k), None);
      PlainNumber(k, k, min, max);
      assert items[i].Names(k, min, max);
    }
    if FieldNames(items, k, min, max) {
      var i :| 0 <= i < |items| && items[i].Names(k, min, max);
      PlainNumber(items[i].span.n, k, min, max);
      assert items[i] == Item(One(k), None);
    }
  }

  lemma ListingIsWellFormed(items: seq<Item>, b: set<int>, min: int, max: int)
    requires IsListing(items, b) && NonEmpty(b) && Within(b, min, max)
    ensures FieldWellFormed(items, min, max) && !HasPlainStar(items)
  {
    var member :| member in b;
    assert Lists(items, member);
  }

  lemma ListingMeans(items: seq<Item>, b: set<int>, min: int, max: int)
    requires IsListing(items, b) && NonEmpty(b) && Within(b, min, max)
    ensures FieldWellFormed(items, min, max) && FieldMeans(b, items, min, max)
    ensures !HasPlainStar(items)
  {
    ListingIsWellFormed(items, b, min, max);
    forall k
      ensures k in b <==> FieldNames(items, k, min, max)
    {
      ListedIsNamed(items, k, min, max);
      if Lists(items, k) {
        ListedIsMember(items, b, k);
      }
    }
  }

  lemma ListedIsMember(items: seq<Item>, b: set<int>, k: int)
    requires IsListing(items, b) && Lists(items, k)
    ensures k in b
  {
    var i :| 0 <= i < |items| && items[i] == Item(One(k), None);
  }

  lemma CanonicalMeans(s: CronSchedule, f: Fields)
    requires s.Parsed() && !s.daysAnyWildcard
    requires IsListing(f.minutes, s.minutes) && IsListing(f.hours, s.hours)
    requires IsListing(f.daysOfMonth, s.daysOfMonth) && IsListing(f.months, s.months)
    requires IsListing(f.daysOfWeek, s.daysOfWeek)
    ensures f.WellFormed() && Means(s, f) && DelayFor(f.minutes) == 60
  {
    ListingMeans(f.minutes, s.minutes, 0, 59);
    ListingMeans(f.hours, s.hours, 0, 23);
    ListingMeans(f.daysOfMonth, s.daysOfMonth, 1, 31);
    ListingMeans(f.months, s.months, 1, 12);
    ListingMeans(f.daysOfWeek, s.daysOfWeek, 0, 7);
  }

  /** Any five nonempty sets in range are what their decimal listing parses to. */
  lemma CanonicalRoundTrip(s: CronSchedule, f: Fields, r: Result<CronSchedule>)
    requires s.Parsed() && !s.daysAnyWildcard
    requires IsListing(f.minutes, s.minutes) && IsListing(f.hours, s.hours)
    requires IsListing(f.daysOfMonth, s.daysOfMonth) && IsListing(f.months, s.months)
    requires IsListing(f.daysOfWeek, s.daysOfWeek)
    ensures f.WellFormed()
    ensures IsScheduleOf(r, PrintFields(f)) ==> r == Ok(s.(delayRange := 60))
  {
    CanonicalMeans(s, f);
    if IsScheduleOf(r, PrintFields(f)) {
      ReadBack(f, s, r);
    }
  }

  function Plain(n: int): seq<Item> {
    [Item(One(n), None)]
  }

  lemma NoThirtiethOfFebruary(s: CronSchedule, f: Fields)
    requires f.daysOfMonth == Plain(30) && f.months == Plain(2) && f.daysOfWeek == [Item(Star, None)]
    requires f.WellFormed() && Means(s, f)
    ensures !s.Possible()
  {
    FieldIsNonEmptyAndInRange(f.daysOfWeek, 0, 7);
    assert f.daysOfWeek[0] == Item(Star, None);
    forall m, d | m in s.months && d in s.daysOfMonth
      ensures LongestMonth(m) < d
    {
      PlainNumber(2, m, 1, 12);
      PlainNumber(30, d, 1, 31);
    }
  }

  /** "0 0 30 2 *" is accepted although no year has such a date, so the date search would not end. */
  lemma AcceptedTextWithoutADate(f: Fields, r: Result<CronSchedule>)
    requires f == Fields(Plain(0), Plain(0), Plain(30), Plain(2), [Item(Star, None)])
    ensures f.WellFormed()
    ensures IsScheduleOf(r, PrintFields(f)) ==> r.Ok? && forall n :: !r.value.CheckDay(n)
  {
    assert f.WellFormed();
    if IsScheduleOf(r, PrintFields(f)) {
      ScheduleRoundTrip(f, r);
      NoThirtiethOfFebruary(r.value, f);
      forall n
        ensures !r.value.CheckDay(n)
      {
        NoMatchingDay(r.value, n);
      }
    }
  }

  lemma OneNumber(b: set<int>, n: int, min: int, max: int)
    requires FieldMeans(b, Plain(n), min, max)
    ensures b == {n}
  {
    forall k
      ensures k in b <==> k in {n}
    {
      PlainNumber(n, k, min, max);
      assert Plain(n)[0] == Item(One(n), None);
    }
    SameMembers(b, {n});
  }

  lemma TwoNumbers(b: set<int>, n: int, m: int, min: int, max: int)
    requires FieldMeans(b, Plain(n) + Plain(m), min, max)
    ensures b == {n, m}
  {
    var items := Plain(n) + Plain(m);
    assert items[0] == Item(One(n), None) && items[1] == Item(One(m), None);
    forall k
      ensures k in b <==> k in {n, m}
    {
      PlainNumber(n, k, min, max);
      PlainNumber(m, k, min, max);
    }
    SameMembers(b, {n, m});
  }

  lemma AnyNumber(b: set<int>, min: int, max: int)
    requires FieldMeans(b, [Item(Star, None)], min, max) && min <= max
    ensures b == All(min, max)
  {
    var items := [Item(Star, None)];
    assert items[0] == Item(Star, None);
    FieldIsNonEmptyAndInRange(items, min, max);
    SameMembers(b, All(min, max));
  }
}
