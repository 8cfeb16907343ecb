/**
 The crontab(5) text parser.  A C string is the characters before its terminator, and a
 pointer into it is the text that remains.  The functions say which syntax tree a text
 has; the methods are the parser itself, which sets bits in place while it reads.
 */
module ScheduleParser {
  import opened Common
  import opened Schedule

  datatype Result<+T> = Ok(value: T) | Error

  datatype Symbol = Symbol(name: string, value: int)

  const NO_NAMES: seq<Symbol> := []

  const MONTH_NAMES := [
    Symbol("jan", 1), Symbol("feb", 2), Symbol("mar", 3), Symbol("apr", 4),
    Symbol("may", 5), Symbol("jun", 6), Symbol("jul", 7), Symbol("aug", 8),
    Symbol("sep", 9), Symbol("oct", 10), Symbol("nov", 11), Symbol("dec", 12)]

  const WEEKDAY_NAMES := [
    Symbol("mon", 1), Symbol("tue", 2), Symbol("wed", 3), Symbol("thu", 4),
    Symbol("fri", 5), Symbol("sat", 6), Symbol("sun", 7)]

  // ------------------------------------------------------------ characters

  function Peek(s: string): char {
    if s == "" then '\0' else s[0]
  }

  predicate IsDigit(c: char) {
    '0' <= c <= '9'
  }

  function DigitValue(c: char): int {
    if c == '0' then 0 else if c == '1' then 1 else if c == '2' then 2 else if c == '3' then 3
    else if c == '4' then 4 else if c == '5' then 5 else if c == '6' then 6 else if c == '7' then 7
    else if c == '8' then 8 else 9
  }

  /** The white space `StripLeft` removes. */
  function StripLeft(s: string): (r: string)
    ensures |r| <= |s|
  {
    if s != "" && '\0' < s[0] <= ' ' then StripLeft(s[1..]) else s
  }

  /** The white space `strtoul` skips. */
  function SkipSpace(s: string): (r: string)
    ensures |r| <= |s|
  {
    if s != "" && (s[0] == ' ' || '\t' <= s[0] <= '\r') then SkipSpace(s[1..]) else s
  }

  function ToLower(c: char): char {
    if 'A' <= c <= 'Z' then c - 'A' + 'a' else c
  }

  predicate EqualIgnoreCase(a: string, b: string) {
    |a| == |b| && forall i | 0 <= i < |a| :: ToLower(a[i]) == ToLower(b[i])
  }

  predicate StartsWith(s: string, sym: Symbol) {
    |sym.name| <= |s| && EqualIgnoreCase(s[..|sym.name|], sym.name)
  }

  // --------------------------------------------------------------- strtoul

  const ULONG_MAX := 0xFFFF_FFFF_FFFF_FFFF

  function Digits(s: string): (n: nat)
    ensures n <= |s| && forall i | 0 <= i < n :: IsDigit(s[i])
  {
    if s != "" && IsDigit(s[0]) then 1 + Digits(s[1..]) else 0
  }

  function DecimalValue(digits: string): (v: int)
    requires forall i | 0 <= i < |digits| :: IsDigit(digits[i])
    ensures 0 <= v
  {
    if digits == "" then 0
    else 10 * DecimalValue(digits[..|digits| - 1]) + DigitValue(digits[|digits| - 1])
  }

  /** `strtoul` in base 10: `None` without digits; saturates; a minus sign negates modulo 2^64. */
  function Strtoul(s: string): (r: Option<(int, string)>)
    ensures r.Some? ==> 0 <= r.value.0 <= ULONG_MAX && |r.value.1| < |s|
  {
    var t := SkipSpace(s);
    var u := if Peek(t) == '-' || Peek(t) == '+' then t[1..] else t;
    var n := Digits(u);
    if n == 0 then None
    else
      var v := DecimalValue(u[..n]);
      Some((if ULONG_MAX < v then ULONG_MAX
            else if Peek(t) == '-' then (ULONG_MAX + 1 - v) % (ULONG_MAX + 1)
            else v, u[n..]))
  }

  // ----------------------------------------------------------- syntax tree

  predicate OnStep(k: int, first: int, step: int)
    requires 1 <= step
  {
    (k - first) % step == 0
  }

  datatype Span = Star | One(n: int) | FromTo(first: int, last: int)

  datatype Item = Item(span: Span, step: Option<int>) {
    function First(min: int): int {
      match span case Star => min case One(n) => n case FromTo(a, _) => a
    }

    function Last(max: int): int {
      match span case Star => max case One(n) => n case FromTo(_, b) => b
    }

    function Step(): int {
      if step.None? then 1 else step.value
    }

    /** `k` is first, first+step, ... up to last. */
    predicate Names(k: int, min: int, max: int) {
      1 <= Step() && First(min) <= k <= Last(max) && OnStep(k, First(min), Step())
    }

    predicate WellFormed(min: int, max: int) {
      && min <= First(min) <= Last(max) <= max
      && (step.Some? ==> 1 <= step.value <= max)
    }
  }

  datatype Fields = Fields(
    minutes: seq<Item>,
    hours: seq<Item>,
    daysOfMonth: seq<Item>,
    months: seq<Item>,
    daysOfWeek: seq<Item>)
  {
    predicate WellFormed() {
      && FieldWellFormed(minutes, 0, 59) && FieldWellFormed(hours, 0, 23)
      && FieldWellFormed(daysOfMonth, 1, 31) && FieldWellFormed(months, 1, 12)
      && FieldWellFormed(daysOfWeek, 0, 7)
    }
  }

  predicate FieldWellFormed(items: seq<Item>, min: int, max: int) {
    items != [] && forall i | 0 <= i < |items| :: items[i].WellFormed(min, max)
  }

  ghost predicate FieldNames(items: seq<Item>, k: int, min: int, max: int) {
    exists i | 0 <= i < |items| :: items[i].Names(k, min, max)
  }

  /** The bits are the union of the comma list. */
  ghost predicate FieldMeans(b: set<int>, items: seq<Item>, min: int, max: int) {
    forall k :: k in b <==> FieldNames(items, k, min, max)
  }

  predicate HasPlainStar(items: seq<Item>) {
    exists i | 0 <= i < |items| :: items[i] == Item(Star, None)
  }

  /** The meaning of five fields: weekday 7 is weekday 0. */
  ghost predicate Means(s: CronSchedule, f: Fields) {
    && FieldMeans(s.minutes, f.minutes, 0, 59)
    && FieldMeans(s.hours, f.hours, 0, 23)
    && FieldMeans(s.daysOfMonth, f.daysOfMonth, 1, 31)
    && FieldMeans(s.months, f.months, 1, 12)
    && (forall k :: k in s.daysOfWeek <==>
                    0 <= k < 7 && (FieldNames(f.daysOfWeek, k, 0, 7) || (k == 0 && FieldNames(f.daysOfWeek, 7, 0, 7))))
    && (s.daysAnyWildcard <==> HasPlainStar(f.daysOfMonth) || HasPlainStar(f.daysOfWeek))
  }

  // --------------------------------------------------- what each text says

  function FindSymbol(s: string, names: seq<Symbol>): (r: Option<Symbol>)
    ensures r.Some? ==> r.value in names && StartsWith(s, r.value)
  {
    if names == [] then None
    else if StartsWith(s, names[0]) then Some(names[0])
    else FindSymbol(s, names[1..])
  }

  function NumberOf(s: string, min: int, max: int, names: seq<Symbol>): (r: Result<(int, string)>)
    ensures r.Ok? ==> |r.value.1| <= |s|
  {
    match Strtoul(s)
    case None =>
      (match FindSymbol(s, names)
       case None => Error
       case Some(sym) => Ok((sym.value, s[|sym.name|..])))
    case Some((v, rest)) => if min <= v <= max then Ok((v, rest)) else Error
  }

  function SpanOf(s: string, min: int, max: int, names: seq<Symbol>): (r: Result<(Span, string)>)
    ensures r.Ok? ==> |r.value.1| <= |s|
  {
    if Peek(s) == '*' then Ok((Star, s[1..]))
    else
      match NumberOf(s, min, max, names)
      case Error => Error
      case Ok((first, rest)) =>
        if Peek(rest) != '-' then Ok((One(first), rest))
        else
          match NumberOf(rest[1..], min, max, names)
          case Error => Error
          case Ok((last, rest)) => if last < first then Error else Ok((FromTo(first, last), rest))
  }

  function ItemOf(s: string, min: int, max: int, names: seq<Symbol>): (r: Result<(Item, string)>)
    ensures r.Ok? ==> |r.value.1| <= |s|
  {
    match SpanOf(s, min, max, names)
    case Error => Error
    case Ok((span, rest)) =>
      if Peek(rest) != '/' then Ok((Item(span, None), rest))
      else
        match NumberOf(rest[1..], 1, max, names)
        case Error => Error
        case Ok((step, rest)) => Ok((Item(span, Some(step)), rest))
  }

  /** A comma list. */
  function ItemsOf(s: string, min: int, max: int, names: seq<Symbol>): Result<(seq<Item>, string)>
    decreases |s|
  {
    match ItemOf(s, min, max, names)
    case Error => Error
    case Ok((item, rest)) =>
      if Peek(rest) != ',' then Ok(([item], rest))
      else
        match ItemsOf(rest[1..], min, max, names)
        case Error => Error
        case Ok((items, rest)) => Ok(([item] + items, rest))
  }

  function FieldOf(s: string, min: int, max: int, names: seq<Symbol>): Result<(seq<Item>, string)> {
    ItemsOf(StripLeft(s), min, max, names)
  }

  /** The syntax tree of five fields with nothing but white space behind them. */
  function FieldsOf(s: string): Result<Fields> {
    match FieldOf(s, 0, 59, NO_NAMES)
    case Error => Error
    case Ok((minutes, s)) =>
      match FieldOf(s, 0, 23, NO_NAMES)
      case Error => Error
      case Ok((hours, s)) =>
        match FieldOf(s, 1, 31, NO_NAMES)
        case Error => Error
        case Ok((daysOfMonth, s)) =>
          match FieldOf(s, 1, 12, MONTH_NAMES)
          case Error => Error
          case Ok((months, s)) =>
            match FieldOf(s, 0, 7, WEEKDAY_NAMES)
            case Error => Error
            case Ok((daysOfWeek, s)) =>
              if Peek(StripLeft(s)) != '\0' then Error
              else Ok(Fields(minutes, hours, daysOfMonth, months, daysOfWeek))
  }

  predicate NamesInRange(names: seq<Symbol>, min: int, max: int) {
    forall i | 0 <= i < |names| :: min <= names[i].value <= max && 1 <= names[i].value
  }

  lemma NumberInRange(s: string, min: int, max: int, names: seq<Symbol>)
    requires NamesInRange(names, min, max) && NumberOf(s, min, max, names).Ok?
    ensures min <= NumberOf(s, min, max, names).value.0 <= max
  {
  }

  lemma StepInRange(s: string, min: int, max: int, names: seq<Symbol>)
    requires 1 <= max && NamesInRange(names, min, max) && NumberOf(s, 1, max, names).Ok?
    ensures 1 <= NumberOf(s, 1, max, names).value.0 <= max
  {
  }

  lemma SpanIsWellFormed(s: string, min: int, max: int, names: seq<Symbol>)
    requires 0 <= min <= 1 <= max && NamesInRange(names, min, max) && SpanOf(s, min, max, names).Ok?
    ensures Item(SpanOf(s, min, max, names).value.0, None).WellFormed(min, max)
  {
    if Peek(s) != '*' {
      NumberInRange(s, min, max, names);
      var rest := NumberOf(s, min, max, names).value.1;
      if Peek(rest) == '-' {
        NumberInRange(rest[1..], min, max, names);
      }
    }
  }

  lemma ItemIsWellFormed(s: string, min: int, max: int, names: seq<Symbol>)
    requires 0 <= min <= 1 <= max && NamesInRange(names, min, max) && ItemOf(s, min, max, names).Ok?
    ensures ItemOf(s, min, max, names).value.0.WellFormed(min, max)
  {
    SpanIsWellFormed(s, min, max, names);
    var rest := SpanOf(s, min, max, names).value.1;
    if Peek(rest) == '/' {
      StepInRange(rest[1..], min, max, names);
    }
  }

  lemma {:induction false} ItemsAreWellFormed(s: string, min: int, max: int, names: seq<Symbol>)
    requires 0 <= min <= 1 <= max && NamesInRange(names, min, max) && ItemsOf(s, min, max, names).Ok?
    ensures FieldWellFormed(ItemsOf(s, min, max, names).value.0, min, max)
    decreases |s|
  {
    ItemIsWellFormed(s, min, max, names);
    var rest := ItemOf(s, min, max, names).value.1;
    if Peek(rest) == ',' {
      ItemsAreWellFormed(rest[1..], min, max, names);
    }
  }

  // ------------------------------------------------- what a number means

  predicate IsNumeral(digits: string) {
    digits != "" && forall i | 0 <= i < |digits| :: IsDigit(digits[i])
  }

  lemma {:induction false} DigitsOfNumeral(digits: string, rest: string)
    requires (forall i | 0 <= i < |digits| :: IsDigit(digits[i])) && !IsDigit(Peek(rest))
    ensures Digits(digits + rest) == |digits|
  {
    if digits != "" {
      assert (digits + rest)[1..] == digits[1..] + rest;
      DigitsOfNumeral(digits[1..], rest);
    }
  }

  lemma StrtoulOfNumeral(digits: string, rest: string)
    requires IsNumeral(digits) && !IsDigit(Peek(rest))
    ensures Strtoul(digits + rest) == Some((if ULONG_MAX < DecimalValue(digits) then ULONG_MAX else DecimalValue(digits), rest))
  {
    var s := digits + rest;
    DigitsOfNumeral(digits, rest);
    assert s[0] == digits[0] && SkipSpace(s) == s;
    assert s[..|digits|] == digits && s[|digits|..] == rest;
  }

  /** A decimal number is taken up to its last digit, and rejected exactly if it is out of range. */
  lemma NumeralIsParsed(digits: string, rest: string, min: int, max: int, names: seq<Symbol>)
    requires IsNumeral(digits) && !IsDigit(Peek(rest)) && max < ULONG_MAX
    ensures NumberOf(digits + rest, min, max, names) ==
            if min <= DecimalValue(digits) <= max then Ok((DecimalValue(digits), rest)) else Error
  {
    StrtoulOfNumeral(digits, rest);
  }

  /** The i-th symbol is the first one the text starts with, ignoring case. */
  predicate IsFirstSymbol(s: string, names: seq<Symbol>, i: int) {
    0 <= i < |names| && StartsWith(s, names[i]) && forall j | 0 <= j < i :: !StartsWith(s, names[j])
  }

  lemma {:induction false} FindSymbolMeaning(s: string, names: seq<Symbol>, i: int)
    requires IsFirstSymbol(s, names, i)
    ensures FindSymbol(s, names) == Some(names[i])
  {
    if 0 < i {
      var rest := names[1..];
      assert rest[i - 1] == names[i];
      assert forall j | 0 <= j < i - 1 :: rest[j] == names[j + 1];
      FindSymbolMeaning(s, rest, i - 1);
    }
  }

  lemma {:induction false} FoundSymbolIsFirst(s: string, names: seq<Symbol>) returns (i: int)
    requires FindSymbol(s, names).Some?
    ensures IsFirstSymbol(s, names, i)
  {
    i := 0;
    if !StartsWith(s, names[0]) {
      i := FoundSymbolIsFirst(s, names[1..]);
      assert forall j | 1 <= j < |names| :: names[j] == names[1..][j - 1];
      i := i + 1;
    }
  }

  /** What starts with neither blank, sign nor digit is the first matching symbol, or an error if there is none. */
  lemma SymbolIsParsed(s: string, min: int, max: int, names: seq<Symbol>)
    requires s != "" && s[0] != ' ' && !('\t' <= s[0] <= '\r') && s[0] != '-' && s[0] != '+' && !IsDigit(s[0])
    ensures NumberOf(s, min, max, names).Ok? <==> exists i :: IsFirstSymbol(s, names, i)
    ensures forall i | IsFirstSymbol(s, names, i) :: NumberOf(s, min, max, names) == Ok((names[i].value, s[|names[i].name|..]))
  {
    assert SkipSpace(s) == s && Digits(s) == 0;
    forall i | IsFirstSymbol(s, names, i)
      ensures FindSymbol(s, names) == Some(names[i])
    {
      FindSymbolMeaning(s, names, i);
    }
    if FindSymbol(s, names).Some? {
      var i := FoundSymbolIsFirst(s, names);
    }
  }

  // ------------------------------------------------------------ the parser

  method LookupCronSymbol(s: string, names: seq<Symbol>) returns (r: Option<Symbol>)
    ensures r == FindSymbol(s, names)
  {
    var i := 0;
    while i < |names|
      invariant 0 <= i <= |names|
      invariant FindSymbol(s, names) == FindSymbol(s, names[i..])
    {
      if StartsWith(s, names[i]) {
        return Some(names[i]);
      }
      assert names[i..][1..] == names[i + 1..];
      i := i + 1;
    }
    return None;
  }

  lemma MulAtLeast(x: int, y: int)
    requires 1 <= x && 1 <= y
    ensures y <= x * y
  {
  }

  /** Between two steps nothing is on the step. */
  lemma StepGap(first: int, q: int, step: int, k: int)
    requires 1 <= step && first + q * step <= k < first + q * step + step
    ensures OnStep(k, first, step) <==> k == first + q * step
  {
    var r := k - first - q * step;
    var a, b := (k - first) / step, (k - first) % step;
    assert (a - q) * step == r - b by {
      assert (a - q) * step == a * step - q * step;
    }
    if q < a {
      MulAtLeast(a - q, step);
      assert false;
    }
    if a < q {
      MulAtLeast(q - a, step);
      assert false;
    }
  }

  method MakeRangeBitSet(b: set<int>, first: int, last: int, step: int) returns (b': set<int>)
    requires 1 <= step
    ensures forall k :: k in b' <==> k in b || (first <= k <= last && OnStep(k, first, step))
  {
    b' := b;
    var i := first;
    ghost var q := 0;
    while i <= last
      invariant first <= i && i == first + q * step
      invariant forall k :: k in b' <==> k in b || (first <= k <= last && k < i && OnStep(k, first, step))
      decreases last - i
    {
      forall k | i <= k < i + step
        ensures OnStep(k, first, step) <==> k == i
      {
        StepGap(first, q, step, k);
      }
      b' := b' + {i};
      i := i + step;
      q := q + 1;
    }
  }

  method ParseNumber(s: string, min: int, max: int, names: seq<Symbol>) returns (r: Result<(int, string)>)
    ensures r == NumberOf(s, min, max, names)
  {
    var number := Strtoul(s);
    if number.None? {
      var i := LookupCronSymbol(s, names);
      if i.Some? {
        return Ok((i.value.value, s[|i.value.name|..]));
      }
      return Error;
    }
    if number.value.0 < min || max < number.value.0 {
      return Error;
    }
    return Ok(number.value);
  }

  /** The bits after a parse step, the rest of the text, and the wildcard flag. */
  datatype Bits = Bits(bits: set<int>, rest: string, wildcard: bool)

  /** The part of an item before its step. */
  method ParseSpan(s: string, min: int, max: int, names: seq<Symbol>)
    returns (r: Result<(int, int, string)>, wildcard: bool)
    ensures r.Ok? <==> SpanOf(s, min, max, names).Ok?
    ensures r.Ok? ==>
              var (span, rest) := SpanOf(s, min, max, names).value;
              && r.value == (Item(span, None).First(min), Item(span, None).Last(max), rest)
              && wildcard == (span == Star && Peek(rest) != '/')
  {
    wildcard := false;
    if Peek(s) == '*' {
      return Ok((min, max, s[1..])), Peek(s[1..]) != '/';
    }
    var number := ParseNumber(s, min, max, names);
    if number.Error? {
      return Error, false;
    }
    var first, schedule := number.value.0, number.value.1;
    if Peek(schedule) != '-' {
      return Ok((first, first, schedule)), false;
    }
    number := ParseNumber(schedule[1..], min, max, names);
    if number.Error? || number.value.0 < first {
      return Error, false;
    }
    return Ok((first, number.value.0, number.value.1)), false;
  }

  /** One item of a comma list, added to the bits. */
  method ParseNumericRangeBitSet(b: Bits, min: int, max: int, names: seq<Symbol>) returns (r: Result<Bits>)
    requires 0 <= min <= 1 <= max && NamesInRange(names, min, max)
    ensures r.Ok? <==> ItemOf(b.rest, min, max, names).Ok?
    ensures r.Ok? ==>
              var (item, rest) := ItemOf(b.rest, min, max, names).value;
              && item.WellFormed(min, max)
              && r.value.rest == rest
              && r.value.wildcard == (b.wildcard || item == Item(Star, None))
              && forall k :: k in r.value.bits <==> k in b.bits || item.Names(k, min, max)
  {
    var span, wildcard := ParseSpan(b.rest, min, max, names);
    if span.Error? {
      return Error;
    }
    var (first, last, schedule) := span.value;
    var step := 1;
    if Peek(schedule) == '/' {
      var number := ParseNumber(schedule[1..], 1, max, names);
      if number.Error? {
        return Error;
      }
      step, schedule := number.value.0, number.value.1;
    }
    ItemIsWellFormed(b.rest, min, max, names);
    var bits := MakeRangeBitSet(b.bits, first, last, step);
    return Ok(Bits(bits, schedule, b.wildcard || wildcard));
  }

  /** A whole field: exactly the union of its comma list, in range and not empty. */
  method ParseNumericBitSet(s: string, min: int, max: int, names: seq<Symbol>) returns (r: Result<Bits>)
    requires 0 <= min <= 1 <= max && NamesInRange(names, min, max)
    ensures r.Ok? <==> FieldOf(s, min, max, names).Ok?
    ensures r.Ok? ==>
              var (items, rest) := FieldOf(s, min, max, names).value;
              && FieldWellFormed(items, min, max)
              && FieldMeans(r.value.bits, items, min, max)
              && r.value.rest == rest
              && r.value.wildcard == HasPlainStar(items)
  {
    var start := StripLeft(s);
    var b := Bits({}, start, false);
    ghost var done: seq<Item> := [];
    assert forall items: seq<Item> :: [] + items == items;
    while true
      invariant forall i | 0 <= i < |done| :: done[i].WellFormed(min, max)
      invariant forall k :: k in b.bits <==> exists i | 0 <= i < |done| :: done[i].Names(k, min, max)
      invariant b.wildcard <==> HasPlainStar(done)
      invariant Continues(ItemsOf(start, min, max, names), done, ItemsOf(b.rest, min, max, names))
      decreases |b.rest|
    {
      ghost var before, text := b, b.rest;
      var next := ParseNumericRangeBitSet(b, min, max, names);
      if next.Error? {
        return Error;
      }
      b := next.value;
      ghost var item := ItemOf(text, min, max, names).value.0;
      AddItem(before.bits, b.bits, done, item, min, max);
      done := done + [item];
      if Peek(b.rest) != ',' {
        assert done != [];
        return Ok(b);
      }
      ItemsContinue(ItemsOf(start, min, max, names), done[..|done| - 1], item, ItemsOf(b.rest[1..], min, max, names),
                    ItemsOf(text, min, max, names));
      assert done == done[..|done| - 1] + [item];
      b := b.(rest := b.rest[1..]);
    }
  }

  /** `whole` is `done` followed by what `rest` gives. */
  ghost predicate Continues(whole: Result<(seq<Item>, string)>, done: seq<Item>, rest: Result<(seq<Item>, string)>) {
    && (whole.Ok? <==> rest.Ok?)
    && (whole.Ok? ==> whole.value == (done + rest.value.0, rest.value.1))
  }

  lemma ItemsContinue(whole: Result<(seq<Item>, string)>, done: seq<Item>, item: Item,
                      tail: Result<(seq<Item>, string)>, rest: Result<(seq<Item>, string)>)
    requires Continues(whole, done, rest) && Continues(rest, [item], tail)
    ensures Continues(whole, done + [item], tail)
  {
    if whole.Ok? {
      assert done + ([item] + tail.value.0) == done + [item] + tail.value.0;
    }
  }

  lemma AddItem(before: set<int>, after: set<int>, done: seq<Item>, item: Item, min: int, max: int)
    requires item.WellFormed(min, max) && forall i | 0 <= i < |done| :: done[i].WellFormed(min, max)
    requires forall k :: k in before <==> exists i | 0 <= i < |done| :: done[i].Names(k, min, max)
    requires forall k :: k in after <==> k in before || item.Names(k, min, max)
    ensures forall k :: k in after <==>
              exists i | 0 <= i < |done + [item]| :: (done + [item])[i].Names(k, min, max)
    ensures HasPlainStar(done + [item]) <==> HasPlainStar(done) || item == Item(Star, None)
  {
    var all := done + [item];
    assert all[|done|] == item;
    forall k
      ensures k in after <==> exists i | 0 <= i < |all| :: all[i].Names(k, min, max)
    {
      if k in before {
        var i :| 0 <= i < |done| && done[i].Names(k, min, max);
        assert all[i] == done[i];
      }
    }
    if HasPlainStar(done) {
      var i :| 0 <= i < |done| && done[i] == Item(Star, None);
      assert all[i] == done[i];
    }
  }

  // ------------------------------------------------- the whole constructor

  datatype Special = Special(name: string, regular: string, delayRange: int)

  const HOUR := 3600

  const SPECIALS := [
    Special("yearly", "0 0 1 1 *", 24 * 365 * HOUR),
    Special("annually", "0 0 1 1 *", 24 * 365 * HOUR),
    Special("monthly", "0 0 1 * *", 24 * 28 * HOUR),
    Special("weekly", "0 0 * * 0", 24 * 7 * HOUR),
    Special("daily", "0 0 * * *", 24 * HOUR),
    Special("midnight", "0 0 * * *", HOUR),
    Special("hourly", "0 * * * *", HOUR)]

  function TranslateSpecial(s: string, table: seq<Special>): Option<Special> {
    if table == [] then None
    else if s == table[0].name then Some(table[0])
    else TranslateSpecial(s, table[1..])
  }

  /** What the first characters decide: a special schedule, or five fields to be parsed. */
  datatype Source = Once | Hourly(multiplier: int) | Regular(text: string, delayRange: int)

  /** A leading "*" "/" N spreads the job over N minutes, unless a comma list follows. */
  function DelayOf(text: string): int {
    if 2 <= |text| && text[0] == '*' && text[1] == '/' then
      match Strtoul(text[2..])
      case None => 60
      case Some((n, rest)) => if Peek(rest) == ',' then 60 else 60 * n
    else 60
  }

  function SourceOf(text: string): Result<Source> {
    if Peek(text) != '@' then Ok(Regular(text, DelayOf(text)))
    else
      var s := text[1..];
      if s == "once" then Ok(Once)
      else
        var number := Strtoul(s);
        if number.Some? && number.value.1 == "hourly" then
          if 1 <= number.value.0 <= 24 then Ok(Hourly(number.value.0)) else Error
        else
          match TranslateSpecial(s, SPECIALS)
          case None => Error
          case Some(special) => Ok(Regular(special.regular, special.delayRange))
  }

  const ONCE := CronSchedule({}, {}, {}, {}, {}, 0, false)

  /** A schedule whose days are unrestricted and which runs on the hour. */
  ghost predicate IsHourly(s: CronSchedule, multiplier: int)
    requires 1 <= multiplier
  {
    && s.minutes == {0}
    && (forall h :: h in s.hours <==> 0 <= h <= 23 && OnStep(h, 0, multiplier))
    && s.daysOfMonth == All(1, 31) && s.months == All(1, 12) && s.daysOfWeek == All(0, 6)
    && s.daysAnyWildcard && s.delayRange == multiplier * HOUR
  }

  function All(min: int, max: int): (b: set<int>)
    ensures forall k :: k in b <==> min <= k <= max
    decreases max - min
  {
    if max < min then {} else All(min, max - 1) + {max}
  }

  /** What the constructor returns for a text, stated on its syntax tree. */
  ghost predicate IsScheduleOf(r: Result<CronSchedule>, text: string) {
    match SourceOf(text)
    case Error => r.Error?
    case Ok(Once) => r == Ok(ONCE)
    case Ok(Hourly(multiplier)) => 1 <= multiplier && r.Ok? && IsHourly(r.value, multiplier)
    case Ok(Regular(regular, delayRange)) =>
      && (r.Ok? <==> FieldsOf(regular).Ok?)
      && (r.Ok? ==> Means(r.value, FieldsOf(regular).value) && r.value.delayRange == delayRange)
  }

  /** Fold the eight weekday bits 0..7 onto seven. */
  method FoldWeekdays(b: set<int>) returns (days: set<int>)
    ensures forall k :: k in days <==> 0 <= k < 7 && (k in b || (k == 0 && 7 in b))
  {
    days := {};
    for i := 0 to 7
      invariant forall k :: k in days <==> 0 <= k < i && k in b
    {
      if i in b {
        days := days + {i};
      }
    }
    if 7 in b {
      days := days + {0};
    }
  }

  lemma SymbolTablesInRange()
    ensures NamesInRange(NO_NAMES, 0, 59) && NamesInRange(NO_NAMES, 0, 23) && NamesInRange(NO_NAMES, 1, 31)
    ensures NamesInRange(MONTH_NAMES, 1, 12) && NamesInRange(WEEKDAY_NAMES, 0, 7)
  {
  }

  lemma FoldedWeekdays(b: set<int>, days: set<int>, items: seq<Item>)
    requires FieldMeans(b, items, 0, 7)
    requires forall k :: k in days <==> 0 <= k < 7 && (k in b || (k == 0 && 7 in b))
    ensures forall k :: k in days <==>
              0 <= k < 7 && (FieldNames(items, k, 0, 7) || (k == 0 && FieldNames(items, 7, 0, 7)))
  {
  }

  method ParseFields(s: string, delayRange: int) returns (r: Result<CronSchedule>)
    ensures r.Ok? <==> FieldsOf(s).Ok?
    ensures r.Ok? ==> Means(r.value, FieldsOf(s).value) && r.value.delayRange == delayRange
  {
    SymbolTablesInRange();
    var minutes := ParseNumericBitSet(s, 0, 59, NO_NAMES);
    if minutes.Error? {
      return Error;
    }
    var hours := ParseNumericBitSet(minutes.value.rest, 0, 23, NO_NAMES);
    if hours.Error? {
      return Error;
    }
    var daysOfMonth := ParseNumericBitSet(hours.value.rest, 1, 31, NO_NAMES);
    if daysOfMonth.Error? {
      return Error;
    }
    var months := ParseNumericBitSet(daysOfMonth.value.rest, 1, 12, MONTH_NAMES);
    if months.Error? {
      return Error;
    }
    var weekdays := ParseNumericBitSet(months.value.rest, 0, 7, WEEKDAY_NAMES);
    if weekdays.Error? || Peek(StripLeft(weekdays.value.rest)) != '\0' {
      return Error;
    }
    var daysOfWeek := FoldWeekdays(weekdays.value.bits);
    FoldedWeekdays(weekdays.value.bits, daysOfWeek, FieldsOf(s).value.daysOfWeek);
    return Ok(CronSchedule(minutes.value.bits, hours.value.bits, daysOfMonth.value.bits, months.value.bits,
                           daysOfWeek, delayRange, daysOfMonth.value.wildcard || weekdays.value.wildcard));
  }

  /** The constructor `CronSchedule(const char *)`. */
  method ParseSchedule(text: string) returns (r: Result<CronSchedule>)
    ensures IsScheduleOf(r, text)
  {
    if Peek(text) != '@' {
      r := ParseFields(text, DelayOf(text));
      return;
    }
    var s := text[1..];
    if s == "once" {
      return Ok(ONCE);
    }
    var number := Strtoul(s);
    if number.Some? && number.value.1 == "hourly" {
      var multiplier := number.value.0;
      if multiplier < 1 || 24 < multiplier {
        return Error;
      }
      var hours := MakeRangeBitSet({}, 0, 23, multiplier);
      return Ok(CronSchedule({0}, hours, All(1, 31), All(1, 12), All(0, 6), multiplier * HOUR, true));
    }
    var special := TranslateSpecial(s, SPECIALS);
    if special.None? {
      return Error;
    }
    r := ParseFields(special.value.regular, special.value.delayRange);
  }
}
