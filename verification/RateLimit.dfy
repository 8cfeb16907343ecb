/**
 Rolling rate limits.  Times are microseconds; a plan's limit is "at most `maxCount`
 starts within `duration` seconds", checked by one query before each claim.
 */
module RateLimit {

  const US := 1_000_000

  datatype Limit = Limit(duration: int, maxCount: nat)

  /** `OFFSET max_count-1` on an unsigned 32 bit number: 0 means (almost) no limit. */
  function Offset(limit: Limit): nat {
    if limit.maxCount == 0 then 0xFFFF_FFFF else limit.maxCount - 1
  }

  /** The rows with `time_started >= from`, oldest first. */
  function Since(starts: seq<int>, from: int): seq<int> {
    if starts == [] then []
    else
      var n := |starts| - 1;
      Since(starts[..n], from) + if from <= starts[n] then [starts[n]] else []
  }

  /** `check_rate_limit`: whole seconds until the `maxCount`-th most recent start leaves the window. */
  function PgCheckRateLimit(starts: seq<int>, limit: Limit, now: int): int {
    var rows := Since(starts, now - limit.duration * US);
    if |rows| <= Offset(limit) then 0
    else (rows[|rows| - 1 - Offset(limit)] + limit.duration * US - now) / US
  }

  predicate Passes(starts: seq<int>, limits: seq<Limit>, now: int) {
    forall i | 0 <= i < |limits| :: PgCheckRateLimit(starts, limits[i], now) <= 0
  }

  /** The delay of the first limit that is hit; 0 exactly if none is. */
  method CheckRateLimit(starts: seq<int>, limits: seq<Limit>, now: int) returns (delta: int)
    ensures 0 <= delta
    ensures delta == 0 <==> Passes(starts, limits, now)
    ensures 0 < delta ==>
              exists i | 0 <= i < |limits| :: PgCheckRateLimit(starts, limits[i], now) == delta && Passes(starts, limits[..i], now)
  {
    for i := 0 to |limits|
      invariant Passes(starts, limits[..i], now)
    {
      delta := PgCheckRateLimit(starts, limits[i], now);
      if 0 < delta {
        return;
      }
    }
    assert limits[..|limits|] == limits;
    return 0;
  }

  /** A start: the limits were checked at `checked`, the row was claimed at `started`. */
  datatype Start = Start(checked: int, started: int)

  function Times(run: seq<Start>): seq<int> {
    seq(|run|, i requires 0 <= i < |run| => run[i].started)
  }

  /** One claiming node, one row per start: each start passed the check on all earlier starts. */
  ghost predicate IsThrottled(run: seq<Start>, limits: seq<Limit>) {
    && (forall i | 0 <= i < |run| :: run[i].checked <= run[i].started && Passes(Times(run[..i]), limits, run[i].checked))
    && Sorted(Times(run))
  }

  predicate Sorted(starts: seq<int>) {
    forall i, j | 0 <= i < j < |starts| :: starts[i] <= starts[j]
  }

  /** If the rows from `k` on are recent, row `k` is that many places from the end of the result. */
  lemma {:induction false} SinceSuffix(starts: seq<int>, from: int, k: nat)
    requires k < |starts| && forall i | k <= i < |starts| :: from <= starts[i]
    ensures |starts| - k <= |Since(starts, from)|
    ensures Since(starts, from)[|Since(starts, from)| - (|starts| - k)] == starts[k]
  {
    var n := |starts| - 1;
    if k < n {
      SinceSuffix(starts[..n], from, k);
    }
  }

  /** What the query answers when the last `maxCount` starts are all recent. */
  lemma Remaining(starts: seq<int>, limit: Limit, now: int, k: nat)
    requires 1 <= limit.maxCount && k + limit.maxCount == |starts|
    requires forall i | k <= i < |starts| :: now - limit.duration * US <= starts[i]
    ensures PgCheckRateLimit(starts, limit, now) == (starts[k] + limit.duration * US - now) / US
  {
    SinceSuffix(starts, now - limit.duration * US, k);
  }

  /** `maxCount` starts after any start, more than `duration - 1s` has passed. */
  lemma StartsAreSpread(run: seq<Start>, limits: seq<Limit>, l: nat, i: nat)
    requires IsThrottled(run, limits) && l < |limits| && 1 <= limits[l].maxCount
    requires i + limits[l].maxCount < |run|
    ensures (limits[l].duration - 1) * US < run[i + limits[l].maxCount].started - run[i].started
  {
    var limit := limits[l];
    var last := i + limit.maxCount;
    var before, now := Times(run[..last]), run[last].checked;
    assert Passes(before, limits, now);
    if run[last].started - run[i].started <= (limit.duration - 1) * US {
      forall k | i <= k < last
        ensures now - limit.duration * US <= before[k]
      {
        assert Times(run)[i] <= Times(run)[k];
      }
      Remaining(before, limit, now, i);
      assert false;
    }
  }

  function CountIn(starts: seq<int>, first: int, last: int): nat {
    if starts == [] then 0
    else
      var n := |starts| - 1;
      CountIn(starts[..n], first, last) + if first <= starts[n] <= last then 1 else 0
  }

  lemma {:induction false} CountAfter(starts: seq<int>, first: int, last: int, k: nat)
    requires Sorted(starts) && k <= |starts| && forall i | 0 <= i < k :: starts[i] < first
    ensures CountIn(starts, first, last) <= |starts| - k
  {
    if k < |starts| {
      CountAfter(starts[..|starts| - 1], first, last, k);
    } else if starts != [] {
      CountAfter(starts[..|starts| - 1], first, last, k - 1);
    }
  }

  /** More than `m` starts in a window: some start and its `m`-th successor are both inside. */
  lemma {:induction false} ManyInWindow(starts: seq<int>, first: int, last: int, m: nat) returns (i: nat)
    requires Sorted(starts) && m < CountIn(starts, first, last)
    ensures i + m < |starts| && first <= starts[i] && starts[i + m] <= last
  {
    var n := |starts| - 1;
    if last < starts[n] {
      i := ManyInWindow(starts[..n], first, last, m);
    } else {
      if n < m {
        CountAfter(starts, first, last, 0);
      } else if starts[n - m] < first {
        CountAfter(starts, first, last, n - m + 1);
      }
      i := n - m;
    }
  }

  /** If `m` starts after any start the window is over, it never holds more than `m`. */
  lemma WindowBound(starts: seq<int>, first: int, last: int, m: nat)
    requires Sorted(starts)
    requires forall i: nat | i + m < |starts| :: last - first < starts[i + m] - starts[i]
    ensures CountIn(starts, first, last) <= m
  {
    if m < CountIn(starts, first, last) {
      var i := ManyInWindow(starts, first, last, m);
      assert false;
    }
  }

  /**
   The rolling limit: no closed window of `duration - 1` seconds holds more than `maxCount`
   starts.  The lost second is the truncation of the remaining time to whole seconds.
   */
  lemma RollingRateLimit(run: seq<Start>, limits: seq<Limit>, l: nat, first: int)
    requires IsThrottled(run, limits) && l < |limits| && 1 <= limits[l].maxCount
    ensures CountIn(Times(run), first, first + (limits[l].duration - 1) * US) <= limits[l].maxCount
  {
    var starts, m := Times(run), limits[l].maxCount;
    forall i: nat | i + m < |starts|
      ensures (limits[l].duration - 1) * US < starts[i + m] - starts[i]
    {
      StartsAreSpread(run, limits, l, i);
    }
    WindowBound(starts, first, first + (limits[l].duration - 1) * US, m);
  }

  // ------------------------------------------------------- the bound is tight

  /** `maxCount` starts at once, and one more as soon as the query allows it. */
  function Burst(limit: Limit): seq<Start> {
    seq(limit.maxCount, i => Start(0, 0)) +
    [Start((limit.duration - 1) * US + 1, (limit.duration - 1) * US + 1)]
  }

  lemma {:induction false} SinceLength(starts: seq<int>, from: int)
    ensures |Since(starts, from)| <= |starts|
  {
    if starts != [] {
      SinceLength(starts[..|starts| - 1], from);
    }
  }

  lemma {:induction false} CountAll(starts: seq<int>, first: int, last: int)
    requires forall i | 0 <= i < |starts| :: first <= starts[i] <= last
    ensures CountIn(starts, first, last) == |starts|
  {
    if starts != [] {
      CountAll(starts[..|starts| - 1], first, last);
    }
  }

  /** One microsecond more than `duration - 1` seconds can hold `maxCount + 1` starts, for every limit. */
  lemma WindowIsTight(limit: Limit)
    requires 1 <= limit.maxCount && 1 <= limit.duration
    ensures IsThrottled(Burst(limit), [limit])
    ensures CountIn(Times(Burst(limit)), 0, (limit.duration - 1) * US + 1) == limit.maxCount + 1
  {
    var run, m := Burst(limit), limit.maxCount;
    forall i | 0 <= i < |run|
      ensures Passes(Times(run[..i]), [limit], run[i].checked)
    {
      BurstPasses(limit, i);
    }
    CountAll(Times(run), 0, (limit.duration - 1) * US + 1);
  }

  lemma BurstPasses(limit: Limit, i: nat)
    requires 1 <= limit.maxCount && 1 <= limit.duration && i <= limit.maxCount
    ensures PgCheckRateLimit(Times(Burst(limit)[..i]), limit, Burst(limit)[i].checked) == 0
  {
    var before, now := Times(Burst(limit)[..i]), Burst(limit)[i].checked;
    if i < limit.maxCount {
      SinceLength(before, now - limit.duration * US);
    } else {
      Remaining(before, limit, now, 0);
    }
  }
}
