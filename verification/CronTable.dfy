/**
 Rescheduling cron jobs.  A scheduler reads a row, may roll a random delay, and writes
 `next_run` with a compare-and-set on `last_run`; meanwhile any node claims, finishes,
 releases or expires the row.  Rows are independent, so the protocol is about one row.
 */
module CronTable {
  import opened Common
  import opened Schedule

  type NodeName = string

  datatype CronRow = CronRow(
    enabled: bool,
    delay: Option<int>,
    delayRange: Option<int>,
    lastRun: Option<int>,
    nextRun: Option<NextTime>,
    node: Option<NodeName>,
    nodeTimeout: Option<int>)
  {
    /** `check_pending` selects the row. */
    predicate Pending(now: int) {
      enabled && node.None? && nextRun.Some? && nextRun.value.At? && nextRun.value.time <= now
    }
  }

  /** One past `time_point::max()`, in two's complement: the far past. */
  const WRAPPED := -9223372037

  /** `Next(...) + delay`: adding to "never" is harmless only for a delay of zero. */
  function AddDelay(t: NextTime, delay: int): NextTime {
    match t
    case At(time) => At(time + delay)
    case Never => if delay == 0 then Never else At(WRAPPED + delay)
  }

  /** `RandomInt64` never rolls outside its range; a range up to one gives zero. */
  predicate IsRandomDelay(delay: int, range: int) {
    0 <= delay && (delay == 0 || delay < range)
  }

  /** What one scheduler holds of a row it has read; `rolled` is the delay it generated. */
  datatype Snapshot = Snapshot(
    lastRun: Option<int>,
    delay: Option<int>,
    delayRange: Option<int>,
    now: int,
    rolled: Option<int>)
  {
    predicate NeedsRoll(s: CronSchedule) {
      delay.None? || delayRange != Some(s.delayRange)
    }

    /** The last run with the old delay taken off, as the schedule sees it. */
    function LastOccurrence(): Option<int> {
      if lastRun.None? then None
      else Some(lastRun.value - if delay.None? then 0 else delay.value)
    }

    function Delay(): int
      requires rolled.Some? || delay.Some?
    {
      if rolled.Some? then rolled.value else delay.value
    }
  }

  /**
   `occurrence` is the time of the schedule inside `next_run`, before the delay was added;
   `finished` records the occurrence of each run that was finished.
   */
  datatype Cron = Cron(
    row: CronRow,
    clock: int,
    schedulers: map<NodeName, Snapshot>,
    occurrence: Option<int>,
    finished: seq<int>)

  datatype Step =
    | Read(node: NodeName)
    | Roll(node: NodeName, delay: int)
    | Write(node: NodeName, next: NextTime)
    | Claim(node: NodeName)
    | Finish(node: NodeName)
    | ReleaseStale(node: NodeName)
    | Expire(node: NodeName)
    | SetEnabled(enabled: bool)
    | Tick(to: int)

  const CLAIM_TIMEOUT := 300

  function Forget(c: Cron, node: NodeName): map<NodeName, Snapshot> {
    c.schedulers - {node}
  }

  function Unclaimed(row: CronRow): CronRow {
    row.(node := None, nodeTimeout := None, nextRun := None)
  }

  /** `last_run = $3 OR last_run IS NULL`; comparing with NULL is never true. */
  predicate LastRunMatches(row: CronRow, read: Option<int>) {
    row.lastRun.None? || row.lastRun == read
  }

  /** `update_next_run` finds its row. */
  predicate WriteTakesEffect(c: Cron, node: NodeName) {
    && node in c.schedulers && (c.schedulers[node].rolled.Some? || c.schedulers[node].delay.Some?)
    && c.row.enabled && c.row.nextRun.None? && LastRunMatches(c.row, c.schedulers[node].lastRun)
  }

  /** `claim_job` finds its row: it does not test `next_run`. */
  predicate ClaimTakesEffect(row: CronRow) {
    row.enabled && row.node.None?
  }

  function Apply(c: Cron, s: CronSchedule, step: Step): Cron {
    var row := c.row;
    match step
    case Read(node) =>
      c.(schedulers := c.schedulers[node := Snapshot(row.lastRun, row.delay, row.delayRange, c.clock, None)])
    case Roll(node, delay) =>
      if node in c.schedulers && row.enabled && row.nextRun.None?
      then c.(row := row.(delay := Some(delay), delayRange := Some(s.delayRange)),
              schedulers := c.schedulers[node := c.schedulers[node].(rolled := Some(delay))])
      else c.(schedulers := Forget(c, node))
    case Write(node, next) =>
      var written := c.(schedulers := Forget(c, node));
      if WriteTakesEffect(c, node)
      then written.(row := row.(nextRun := Some(AddDelay(next, c.schedulers[node].Delay()))),
                    occurrence := if next.At? then Some(next.time) else None)
      else written
    case Claim(node) =>
      if ClaimTakesEffect(row)
      then c.(row := row.(node := Some(node), nodeTimeout := Some(c.clock + CLAIM_TIMEOUT)))
      else c
    case Finish(node) =>
      if row.node == Some(node)
      then c.(row := Unclaimed(row).(lastRun := Some(c.clock)),
              finished := c.finished + if row.nextRun.Some? && c.occurrence.Some? then [c.occurrence.value] else [])
      else c
    case ReleaseStale(node) => if row.node == Some(node) then c.(row := Unclaimed(row)) else c
    case Expire(node) =>
      if row.node.Some? && row.node.value != node && row.nodeTimeout.Some? && row.nodeTimeout.value < c.clock
      then c.(row := Unclaimed(row))
      else c
    case SetEnabled(enabled) => c.(row := row.(enabled := enabled))
    case Tick(to) => c.(clock := to)
  }

  ghost predicate Enabled(c: Cron, s: CronSchedule, step: Step) {
    match step
    case Read(_) => c.row.enabled && c.row.nextRun.None?
    case Roll(node, delay) =>
      && node in c.schedulers && c.schedulers[node].rolled.None? && c.schedulers[node].NeedsRoll(s)
      && IsRandomDelay(delay, s.delayRange)
    case Write(node, next) =>
      && node in c.schedulers
      && (c.schedulers[node].rolled.Some? || !c.schedulers[node].NeedsRoll(s))
      && IsNextResult(s, c.schedulers[node].LastOccurrence(), c.schedulers[node].now, next)
    case Tick(to) => c.clock <= to
    case _ => true
  }

  function After(c: Cron, s: CronSchedule, steps: seq<Step>): Cron {
    if steps == [] then c else Apply(After(c, s, steps[..|steps| - 1]), s, steps[|steps| - 1])
  }

  ghost predicate IsRun(c: Cron, s: CronSchedule, steps: seq<Step>) {
    steps == [] ||
    (IsRun(c, s, steps[..|steps| - 1]) && Enabled(After(c, s, steps[..|steps| - 1]), s, steps[|steps| - 1]))
  }

  // ------------------------------------------------------------------ @once

  /** A stored range of zero comes with a stored delay of zero. */
  predicate ZeroRangeZeroDelay(delay: Option<int>, delayRange: Option<int>) {
    delay.Some? && delayRange == Some(0) ==> delay == Some(0)
  }

  ghost predicate DelaysOk(c: Cron) {
    && ZeroRangeZeroDelay(c.row.delay, c.row.delayRange)
    && forall node | node in c.schedulers ::
         && ZeroRangeZeroDelay(c.schedulers[node].delay, c.schedulers[node].delayRange)
         && (c.schedulers[node].rolled.Some? ==> c.schedulers[node].rolled == Some(0))
  }

  predicate NeverAgain(row: CronRow) {
    row.lastRun.Some? && (row.nextRun.None? || row.nextRun == Some(Never))
  }

  lemma StepKeepsDelays(c: Cron, s: CronSchedule, step: Step)
    requires s.delayRange == 0 && DelaysOk(c) && Enabled(c, s, step)
    ensures DelaysOk(Apply(c, s, step))
  {
  }

  lemma StepKeepsNeverAgain(c: Cron, s: CronSchedule, step: Step)
    requires s.IsOnce() && s.delayRange == 0 && DelaysOk(c) && Enabled(c, s, step) && NeverAgain(c.row)
    ensures NeverAgain(Apply(c, s, step).row)
  {
  }

  lemma {:induction false} RunKeepsDelays(c: Cron, s: CronSchedule, steps: seq<Step>)
    requires s.delayRange == 0 && DelaysOk(c) && IsRun(c, s, steps)
    ensures DelaysOk(After(c, s, steps))
  {
    if steps != [] {
      RunKeepsDelays(c, s, steps[..|steps| - 1]);
      StepKeepsDelays(After(c, s, steps[..|steps| - 1]), s, steps[|steps| - 1]);
    }
  }

  /**
   `@once` means once: after `finish_job` took effect the row is never pending again, across
   every interleaving of schedulers, claims, releases and expiries on any number of nodes.
   */
  lemma {:induction false} OnceIsNeverPendingAgain(c: Cron, s: CronSchedule, before: seq<Step>, node: NodeName, later: seq<Step>)
    requires s.IsOnce() && s.delayRange == 0 && DelaysOk(c)
    requires IsRun(c, s, before + [Finish(node)] + later)
    requires After(c, s, before).row.node == Some(node)
    ensures NeverAgain(After(c, s, before + [Finish(node)] + later).row)
    ensures forall now :: !After(c, s, before + [Finish(node)] + later).row.Pending(now)
    decreases |later|
  {
    var all := before + [Finish(node)] + later;
    if later == [] {
      assert all[..|all| - 1] == before;
    } else {
      assert all[..|all| - 1] == before + [Finish(node)] + later[..|later| - 1];
      OnceIsNeverPendingAgain(c, s, before, node, later[..|later| - 1]);
      RunKeepsDelays(c, s, all[..|all| - 1]);
      StepKeepsNeverAgain(After(c, s, all[..|all| - 1]), s, all[|all| - 1]);
    }
  }

  lemma Then(c: Cron, s: CronSchedule, steps: seq<Step>, step: Step)
    requires IsRun(c, s, steps) && Enabled(After(c, s, steps), s, step)
    ensures IsRun(c, s, steps + [step])
    ensures After(c, s, steps + [step]) == Apply(After(c, s, steps), s, step)
  {
    assert (steps + [step])[..|steps + [step]| - 1] == steps;
  }

  const NEW_ROW := CronRow(true, None, None, None, None, None, None)

  function NewCron(now: int): Cron {
    Cron(NEW_ROW, now, map[], None, [])
  }

  /** A new `@once` row is claimed right away by the node that scheduled it, and then may finish. */
  lemma OnceIsRun(s: CronSchedule, now: int, node: NodeName) returns (before: seq<Step>)
    requires s.IsOnce() && s.delayRange == 0
    ensures IsRun(NewCron(now), s, before + [Finish(node)]) && DelaysOk(NewCron(now))
    ensures After(NewCron(now), s, before).row.node == Some(node)
    ensures ClaimTakesEffect(After(NewCron(now), s, before + [Finish(node)]).row)
  {
    var c := NewCron(now);
    before := [];
    Then(c, s, before, Read(node));
    before := before + [Read(node)];
    Then(c, s, before, Roll(node, 0));
    before := before + [Roll(node, 0)];
    Then(c, s, before, Write(node, At(now)));
    before := before + [Write(node, At(now))];
    Then(c, s, before, Claim(node));
    before := before + [Claim(node)];
    Then(c, s, before, Finish(node));
  }

  /** A claim that takes effect finds the row still pending. */
  predicate NotStale(c: Cron, step: Step) {
    step.Claim? && ClaimTakesEffect(c.row) ==> c.row.Pending(c.clock)
  }

  /** No claim from the k-th step on was stale. */
  predicate FreshFrom(c: Cron, s: CronSchedule, k: nat, steps: seq<Step>) {
    |steps| <= k ||
    (FreshFrom(c, s, k, steps[..|steps| - 1]) && NotStale(After(c, s, steps[..|steps| - 1]), steps[|steps| - 1]))
  }

  /** After k steps no node held the row, and none did later. */
  predicate FreeFrom(c: Cron, s: CronSchedule, k: nat, steps: seq<Step>) {
    |steps| < k || (After(c, s, steps).row.node.None? && (steps == [] || FreeFrom(c, s, k, steps[..|steps| - 1])))
  }

  lemma StepLeavesFree(c: Cron, s: CronSchedule, step: Step)
    requires NeverAgain(c.row) && c.row.node.None?
    ensures Apply(c, s, step).row.node.None? <==> NotStale(c, step)
  {
  }

  /**
   A finished `@once` job is run again if and only if a stale claim takes effect: one of a
   row that was selected before the job finished.
   */
  lemma {:induction false} OnceIsRunAgainOnlyWhenStale(c: Cron, s: CronSchedule, before: seq<Step>, node: NodeName, later: seq<Step>)
    requires s.IsOnce() && s.delayRange == 0 && DelaysOk(c)
    requires IsRun(c, s, before + [Finish(node)] + later)
    requires After(c, s, before).row.node == Some(node)
    ensures FreeFrom(c, s, |before| + 1, before + [Finish(node)] + later) <==>
            FreshFrom(c, s, |before| + 1, before + [Finish(node)] + later)
    decreases |later|
  {
    var all := before + [Finish(node)] + later;
    var most := all[..|all| - 1];
    if later == [] {
      assert most == before;
    } else {
      assert most == before + [Finish(node)] + later[..|later| - 1];
      OnceIsRunAgainOnlyWhenStale(c, s, before, node, later[..|later| - 1]);
      OnceIsNeverPendingAgain(c, s, before, node, later[..|later| - 1]);
      if After(c, s, most).row.node.None? {
        StepLeavesFree(After(c, s, most), s, all[|all| - 1]);
      }
    }
  }

  /** And such a claim is always possible while the row is enabled and free. */
  lemma OnceIsClaimedAfterFinish(c: Cron, s: CronSchedule, before: seq<Step>, node: NodeName, later: seq<Step>, other: NodeName)
    requires s.IsOnce() && s.delayRange == 0 && DelaysOk(c)
    requires IsRun(c, s, before + [Finish(node)] + later)
    requires After(c, s, before).row.node == Some(node)
    requires ClaimTakesEffect(After(c, s, before + [Finish(node)] + later).row)
    ensures var all := before + [Finish(node)] + later;
            && IsRun(c, s, all + [Claim(other)]) && After(c, s, all + [Claim(other)]).row.node == Some(other)
            && !NotStale(After(c, s, all), Claim(other))
  {
    OnceIsNeverPendingAgain(c, s, before, node, later);
    Then(c, s, before + [Finish(node)] + later, Claim(other));
  }

  // ------------------------------------------------------------ occurrences

  predicate Increasing(q: seq<int>) {
    forall i, j | 0 <= i < j < |q| :: q[i] < q[j]
  }

  predicate AfterAll(finished: seq<int>, occurrence: int) {
    finished == [] || finished[|finished| - 1] < occurrence
  }

  ghost predicate OccurrencesOk(c: Cron, s: CronSchedule) {
    && Increasing(c.finished) && (forall i | 0 <= i < |c.finished| :: s.Matches(c.finished[i]))
    && (c.finished != [] ==> c.row.lastRun.Some?)
    && (c.row.nextRun.Some? ==>
          c.occurrence.Some? && s.Matches(c.occurrence.value) && AfterAll(c.finished, c.occurrence.value))
    && (c.row.node.Some? ==> c.row.nextRun.Some?)
  }

  /**
   The writer starts from no earlier than the last finished occurrence (the last run ended
   at least as long after it as the delay which was read), or `Next` passes over it.
   */
  ghost predicate CoversFinished(c: Cron, s: CronSchedule, step: Step) {
    step.Write? && WriteTakesEffect(c, step.node) && c.finished != [] ==>
      var from, last := c.schedulers[step.node].LastOccurrence(), c.finished[|c.finished| - 1];
      from.Some? && (last <= from.value || PassesOver(s, from.value, last))
  }

  /** A claim that takes effect finds a `next_run`, due or not, so the run has an occurrence of its own. */
  predicate FindsNextRun(c: Cron, step: Step) {
    step.Claim? && ClaimTakesEffect(c.row) ==> c.row.nextRun.Some?
  }

  ghost predicate OnlyNew(c: Cron, s: CronSchedule, step: Step) {
    FindsNextRun(c, step) && CoversFinished(c, s, step)
  }

  ghost predicate OnlyNewRun(c: Cron, s: CronSchedule, steps: seq<Step>) {
    steps == [] ||
    (OnlyNewRun(c, s, steps[..|steps| - 1]) && OnlyNew(After(c, s, steps[..|steps| - 1]), s, steps[|steps| - 1]))
  }

  ghost predicate OkThroughout(c: Cron, s: CronSchedule, steps: seq<Step>) {
    OccurrencesOk(After(c, s, steps), s) && (steps != [] ==> OkThroughout(c, s, steps[..|steps| - 1]))
  }

  /** Covering is exact: a write schedules a new occurrence if and only if it covers what was finished. */
  lemma WriteCoversExactly(c: Cron, s: CronSchedule, step: Step)
    requires !s.IsOnce() && OccurrencesOk(c, s)
    requires step.Write? && Enabled(c, s, step) && WriteTakesEffect(c, step.node)
    ensures CoversFinished(c, s, step) <==> AfterAll(c.finished, step.next.time)
    ensures CoversFinished(c, s, step) <==> OccurrencesOk(Apply(c, s, step), s)
  {
    var read := c.schedulers[step.node];
    if c.finished != [] {
      var last := c.finished[|c.finished| - 1];
      assert s.Matches(last);
      NextIsAfter(s, read.LastOccurrence().value, last, step.next.time);
    }
    var from := read.LastOccurrence();
    assert NextFrom(s, if from.None? then read.now - 60 else from.value, step.next.time);
  }

  lemma StepKeepsOccurrences(c: Cron, s: CronSchedule, step: Step)
    requires !s.IsOnce() && Enabled(c, s, step) && OccurrencesOk(c, s)
    ensures OccurrencesOk(Apply(c, s, step), s) <==> OnlyNew(c, s, step)
  {
    if step.Write? && WriteTakesEffect(c, step.node) {
      WriteCoversExactly(c, s, step);
    }
  }

  /**
   All through a run the finished occurrences strictly increase, and each run in progress or
   to come has a later one of its own, if and only if every claim that takes effect finds a
   `next_run` and every write covers what was finished.
   */
  lemma {:induction false} OccurrencesIncreaseExactly(c: Cron, s: CronSchedule, steps: seq<Step>)
    requires !s.IsOnce() && OccurrencesOk(c, s) && IsRun(c, s, steps)
    ensures OkThroughout(c, s, steps) <==> OnlyNewRun(c, s, steps)
  {
    if steps != [] {
      var most := steps[..|steps| - 1];
      OccurrencesIncreaseExactly(c, s, most);
      if OkThroughout(c, s, most) {
        StepKeepsOccurrences(After(c, s, most), s, steps[|steps| - 1]);
      }
    }
  }

  lemma ThenFresh(c: Cron, s: CronSchedule, k: nat, steps: seq<Step>, step: Step)
    requires k <= |steps| && IsRun(c, s, steps) && FreshFrom(c, s, k, steps)
    requires Enabled(After(c, s, steps), s, step) && NotStale(After(c, s, steps), step)
    ensures IsRun(c, s, steps + [step]) && FreshFrom(c, s, k, steps + [step])
    ensures After(c, s, steps + [step]) == Apply(After(c, s, steps), s, step)
  {
    Then(c, s, steps, step);
    assert (steps + [step])[..|steps + [step]| - 1] == steps;
  }

  /** A free row can be run when it is due, which finishes its occurrence. */
  lemma RunWhenDue(c: Cron, s: CronSchedule, k: nat, steps: seq<Step>, at: int) returns (more: seq<Step>)
    requires k <= |steps| && IsRun(c, s, steps) && FreshFrom(c, s, k, steps)
    requires var now := After(c, s, steps);
             && now.row.enabled && now.row.node.None? && now.occurrence.Some?
             && now.row.nextRun.Some? && now.row.nextRun.value.At?
             && now.clock <= at && now.row.nextRun.value.time <= at
    ensures more == steps + [Tick(at), Claim(""), Finish("")] && IsRun(c, s, more) && FreshFrom(c, s, k, more)
    ensures var now := After(c, s, steps);
            After(c, s, more) == now.(clock := at, row := Unclaimed(now.row).(lastRun := Some(at)),
                                      finished := now.finished + [now.occurrence.value])
  {
    ThenFresh(c, s, k, steps, Tick(at));
    more := steps + [Tick(at)];
    ThenFresh(c, s, k, more, Claim(""));
    more := more + [Claim("")];
    ThenFresh(c, s, k, more, Finish(""));
    more := more + [Finish("")];
  }

  lemma NotIncreasing(finished: seq<int>, occurrence: int)
    requires !AfterAll(finished, occurrence)
    ensures !Increasing(finished + [occurrence])
  {
    var n, all := |finished|, finished + [occurrence];
    assert all[n - 1] == finished[n - 1] && all[n] == occurrence;
  }

  /** And then an occurrence that was finished, or an earlier one, is run once more. */
  lemma UncoveredOccurrenceFires(c: Cron, s: CronSchedule, steps: seq<Step>, step: Step) returns (more: seq<Step>)
    requires !s.IsOnce() && IsRun(c, s, steps) && OccurrencesOk(After(c, s, steps), s)
    requires step.Write? && Enabled(After(c, s, steps), s, step) && !CoversFinished(After(c, s, steps), s, step)
    requires WriteTakesEffect(After(c, s, steps), step.node)
    ensures steps + [step] <= more && IsRun(c, s, more) && FreshFrom(c, s, |steps|, more)
    ensures !Increasing(After(c, s, more).finished)
  {
    var now := After(c, s, steps);
    WriteCoversExactly(now, s, step);
    ThenFresh(c, s, |steps|, steps, step);
    var due := step.next.time + now.schedulers[step.node].Delay();
    more := RunWhenDue(c, s, |steps|, steps + [step], if now.clock <= due then due else now.clock);
    NotIncreasing(now.finished, step.next.time);
  }

  /** And a claim that finds no `next_run` runs the job without an occurrence: it stands for one that was finished before. */
  lemma ClaimWithoutNextRunFires(c: Cron, s: CronSchedule, steps: seq<Step>, node: NodeName)
    requires IsRun(c, s, steps) && ClaimTakesEffect(After(c, s, steps).row) && After(c, s, steps).row.nextRun.None?
    ensures var now, more := After(c, s, steps), steps + [Claim(node)] + [Finish(node)];
            && IsRun(c, s, more) && After(c, s, steps + [Claim(node)]).row.node == Some(node)
            && After(c, s, more) == now.(row := Unclaimed(now.row).(lastRun := Some(now.clock)))
  {
    Then(c, s, steps, Claim(node));
    Then(c, s, steps + [Claim(node)], Finish(node));
  }

  // ---------------------------------------------------- one delay is enough

  /** Every delay stored, read or rolled is `d`, and `next_run` is its occurrence plus `d`. */
  ghost predicate OneDelay(c: Cron, d: int) {
    RowHasDelay(c, d) && forall node | node in c.schedulers :: SnapshotHasDelay(c, c.schedulers[node], d)
  }

  predicate RowHasDelay(c: Cron, d: int) {
    && (c.row.delay.Some? ==> c.row.delay.value == d)
    && (c.finished != [] ==> c.row.lastRun.Some? && c.finished[|c.finished| - 1] + d <= c.row.lastRun.value)
    && (c.row.nextRun.Some? ==> c.occurrence.Some? && c.row.nextRun.value == At(c.occurrence.value + d))
    && (c.row.node.Some? ==> c.row.nextRun.Some? && c.row.nextRun.value.At? && c.row.nextRun.value.time <= c.clock)
  }

  predicate SnapshotHasDelay(c: Cron, read: Snapshot, d: int) {
    && (read.delay.Some? ==> read.delay.value == d) && (read.rolled.Some? ==> read.rolled.value == d)
    && (read.lastRun.Some? ==> c.row.lastRun.Some?)
  }

  predicate RollsAgree(steps: seq<Step>, d: int) {
    forall i | 0 <= i < |steps| && steps[i].Roll? :: steps[i].delay == d
  }

  lemma OneDelayCovers(c: Cron, s: CronSchedule, d: int, step: Step)
    requires 0 <= d && OneDelay(c, d) && Enabled(c, s, step)
    ensures CoversFinished(c, s, step)
  {
    if step.Write? && WriteTakesEffect(c, step.node) {
      assert SnapshotHasDelay(c, c.schedulers[step.node], d);
    }
  }

  /**
   Nothing is skipped: with one delay, a write that takes effect schedules a time on the first
   day that has a match after the last run less the delay, and no earlier match of that day
   is passed over where `Next` is exact.
   */
  lemma WriteSkipsNothing(c: Cron, s: CronSchedule, d: int, node: NodeName, next: NextTime, l: int)
    requires !s.IsOnce() && OneDelay(c, d) && Enabled(c, s, Write(node, next)) && WriteTakesEffect(c, node)
    requires c.row.lastRun == Some(l) && c.schedulers[node].delay == Some(d)
    ensures next.At? && Apply(c, s, Write(node, next)).row.nextRun == Some(At(next.time + d))
    ensures IsFirstAfter(s, l - d, next.time)
  {
    WriterHasDelay(c, d, node, l);
    NextResultIsFirst(s, l - d, c.schedulers[node].now, next);
  }

  lemma WriterHasDelay(c: Cron, d: int, node: NodeName, l: int)
    requires OneDelay(c, d) && WriteTakesEffect(c, node)
    requires c.row.lastRun == Some(l) && c.schedulers[node].delay == Some(d)
    ensures c.schedulers[node].LastOccurrence() == Some(l - d) && c.schedulers[node].Delay() == d
  {
    assert SnapshotHasDelay(c, c.schedulers[node], d);
  }

  lemma StepKeepsSnapshots(c: Cron, s: CronSchedule, d: int, step: Step, node: NodeName)
    requires OneDelay(c, d) && (step.Roll? ==> step.delay == d)
    requires node in Apply(c, s, step).schedulers
    ensures SnapshotHasDelay(Apply(c, s, step), Apply(c, s, step).schedulers[node], d)
  {
    assert node in c.schedulers ==> SnapshotHasDelay(c, c.schedulers[node], d);
  }

  lemma StepKeepsRowDelay(c: Cron, s: CronSchedule, d: int, step: Step)
    requires OneDelay(c, d) && !s.IsOnce()
    requires Enabled(c, s, step) && NotStale(c, step) && (step.Roll? ==> step.delay == d)
    ensures RowHasDelay(Apply(c, s, step), d)
  {
    if step.Write? {
      assert SnapshotHasDelay(c, c.schedulers[step.node], d);
    }
  }

  lemma StepKeepsOneDelay(c: Cron, s: CronSchedule, d: int, step: Step)
    requires OneDelay(c, d) && !s.IsOnce()
    requires Enabled(c, s, step) && NotStale(c, step) && (step.Roll? ==> step.delay == d)
    ensures OneDelay(Apply(c, s, step), d)
  {
    StepKeepsRowDelay(c, s, d, step);
    forall node | node in Apply(c, s, step).schedulers
      ensures SnapshotHasDelay(Apply(c, s, step), Apply(c, s, step).schedulers[node], d)
    {
      StepKeepsSnapshots(c, s, d, step, node);
    }
  }

  /**
   No finished occurrence fires twice on any number of nodes, if all delays rolled agree
   with each other and with a stored one: each finished run consumed a time the schedule
   names, strictly later than every one finished before it.
   */
  lemma {:induction false} FinishedOccurrencesIncrease(c: Cron, s: CronSchedule, d: int, steps: seq<Step>)
    requires !s.IsOnce() && 0 <= d && OneDelay(c, d) && OccurrencesOk(c, s)
    requires IsRun(c, s, steps) && FreshFrom(c, s, 0, steps) && RollsAgree(steps, d)
    ensures OneDelay(After(c, s, steps), d) && OccurrencesOk(After(c, s, steps), s) && OnlyNewRun(c, s, steps)
  {
    if steps != [] {
      var most := steps[..|steps| - 1];
      FinishedOccurrencesIncrease(c, s, d, most);
      var step := steps[|steps| - 1];
      OneDelayCovers(After(c, s, most), s, d, step);
      StepKeepsOneDelay(After(c, s, most), s, d, step);
      StepKeepsOccurrences(After(c, s, most), s, step);
    }
  }

  predicate AtMostOneRoll(steps: seq<Step>) {
    forall i, j | 0 <= i < j < |steps| :: !(steps[i].Roll? && steps[j].Roll?)
  }

  lemma {:induction false} RunStepEnabled(c: Cron, s: CronSchedule, steps: seq<Step>, i: nat)
    requires IsRun(c, s, steps) && i < |steps|
    ensures Enabled(After(c, s, steps[..i]), s, steps[i])
    decreases |steps|
  {
    if i < |steps| - 1 {
      var most := steps[..|steps| - 1];
      RunStepEnabled(c, s, most, i);
      assert most[..i] == steps[..i];
    }
  }

  /** In particular a new row whose delay is rolled once never fires an occurrence twice. */
  lemma OneRollIsEnough(now: int, s: CronSchedule, steps: seq<Step>)
    requires !s.IsOnce() && IsRun(NewCron(now), s, steps) && FreshFrom(NewCron(now), s, 0, steps)
    requires AtMostOneRoll(steps) || s.delayRange <= 1
    ensures OccurrencesOk(After(NewCron(now), s, steps), s)
  {
    forall i | 0 <= i < |steps| && steps[i].Roll?
      ensures IsRandomDelay(steps[i].delay, s.delayRange)
    {
      RunStepEnabled(NewCron(now), s, steps, i);
    }
    var d := 0;
    if i :| 0 <= i < |steps| && steps[i].Roll? {
      d := steps[i].delay;
    }
    FinishedOccurrencesIncrease(NewCron(now), s, d, steps);
  }

  /** The row after a run of occurrence `t` that ended right at `t`, with a stored delay of one second. */
  ghost predicate FinishedTooSoon(c: Cron, s: CronSchedule, t: int) {
    && c.row == CronRow(true, Some(1), Some(s.delayRange), Some(t), None, None, None)
    && c.clock == t && c.finished == [t]
  }

  /** Such a row is scheduled for `t` again ... */
  lemma ScheduledAgain(c: Cron, s: CronSchedule, k: nat, steps: seq<Step>, t: int)
    requires !s.IsOnce() && s.Matches(t) && k <= |steps| && IsRun(c, s, steps) && FreshFrom(c, s, k, steps)
    requires FinishedTooSoon(After(c, s, steps), s, t)
    ensures var more, now := steps + [Read("a")] + [Write("a", At(t))], After(c, s, steps);
            && IsRun(c, s, more) && FreshFrom(c, s, k, more)
            && After(c, s, more).row == now.row.(nextRun := Some(At(t + 1)))
            && After(c, s, more).occurrence == Some(t) && After(c, s, more).clock == t && After(c, s, more).finished == [t]
  {
    ThatMinuteIsNext(s, t, t - 1);
    ThenFresh(c, s, k, steps, Read("a"));
    ThenFresh(c, s, k, steps + [Read("a")], Write("a", At(t)));
  }

  /** ... and run again. */
  lemma RunsAgain(c: Cron, s: CronSchedule, k: nat, steps: seq<Step>, t: int) returns (more: seq<Step>)
    requires !s.IsOnce() && s.Matches(t) && k <= |steps| && IsRun(c, s, steps) && FreshFrom(c, s, k, steps)
    requires FinishedTooSoon(After(c, s, steps), s, t)
    ensures more == steps + [Read("a")] + [Write("a", At(t))] + [Tick(t + 1), Claim(""), Finish("")]
    ensures IsRun(c, s, more) && FreshFrom(c, s, k, more) && After(c, s, more).finished == [t, t]
  {
    ScheduledAgain(c, s, k, steps, t);
    more := RunWhenDue(c, s, k, steps + [Read("a")] + [Write("a", At(t))], t + 1);
  }

  /** Two nodes read a new row at a time the schedule names, and roll 0 and 1; the first one runs it. */
  lemma FirstOfTwoRolls(s: CronSchedule, t: int) returns (steps: seq<Step>)
    requires !s.IsOnce() && 2 <= s.delayRange && s.Matches(t)
    ensures IsRun(NewCron(t), s, steps) && FreshFrom(NewCron(t), s, 0, steps)
    ensures FinishedTooSoon(After(NewCron(t), s, steps), s, t)
  {
    var c := NewCron(t);
    ThatMinuteIsNext(s, t, t - 60);
    steps := [];
    ThenFresh(c, s, 0, steps, Read("a"));
    steps := steps + [Read("a")];
    ThenFresh(c, s, 0, steps, Read("b"));
    steps := steps + [Read("b")];
    ThenFresh(c, s, 0, steps, Roll("a", 0));
    steps := steps + [Roll("a", 0)];
    ThenFresh(c, s, 0, steps, Roll("b", 1));
    steps := steps + [Roll("b", 1)];
    ThenFresh(c, s, 0, steps, Write("a", At(t)));
    steps := steps + [Write("a", At(t))];
    steps := RunWhenDue(c, s, 0, steps, t);
  }

  /** Then the stored delay is not the one inside `next_run`, and every scheduled time of every schedule can fire twice. */
  lemma TwoRollsRepeatAnOccurrence(s: CronSchedule, t: int) returns (steps: seq<Step>)
    requires !s.IsOnce() && 2 <= s.delayRange && s.Matches(t)
    ensures IsRun(NewCron(t), s, steps) && FreshFrom(NewCron(t), s, 0, steps)
    ensures After(NewCron(t), s, steps).finished == [t, t]
  {
    steps := FirstOfTwoRolls(s, t);
    steps := RunsAgain(NewCron(t), s, 0, steps, t);
  }

  /** One node rolls 1 for a new row, and another one claims and finishes it before that second is over. */
  lemma ClaimedBeforeDue(s: CronSchedule, t: int) returns (steps: seq<Step>)
    requires !s.IsOnce() && 2 <= s.delayRange && s.Matches(t)
    ensures steps == [Read("a"), Roll("a", 1), Write("a", At(t)), Claim("b"), Finish("b")]
    ensures IsRun(NewCron(t), s, steps) && FreshFrom(NewCron(t), s, 4, steps)
    ensures FinishedTooSoon(After(NewCron(t), s, steps), s, t)
  {
    var c := NewCron(t);
    ThatMinuteIsNext(s, t, t - 60);
    steps := [];
    Then(c, s, steps, Read("a"));
    steps := steps + [Read("a")];
    Then(c, s, steps, Roll("a", 1));
    steps := steps + [Roll("a", 1)];
    Then(c, s, steps, Write("a", At(t)));
    steps := steps + [Write("a", At(t))];
    Then(c, s, steps, Claim("b"));
    steps := steps + [Claim("b")];
    ThenFresh(c, s, 4, steps, Finish("b"));
    steps := steps + [Finish("b")];
  }

  /** So with a single roll one stale claim of a row that is not due lets every scheduled time of every schedule fire twice. */
  lemma EarlyClaimRepeatsAnOccurrence(s: CronSchedule, t: int) returns (steps: seq<Step>)
    requires !s.IsOnce() && 2 <= s.delayRange && s.Matches(t)
    ensures IsRun(NewCron(t), s, steps) && AtMostOneRoll(steps)
    ensures FreshFrom(NewCron(t), s, 4, steps)
    ensures After(NewCron(t), s, steps).finished == [t, t]
  {
    steps := ClaimedBeforeDue(s, t);
    steps := RunsAgain(NewCron(t), s, 4, steps, t);
  }

  // ------------------------------------------------------- CalculateNextRun

  /** `schedule` is `None` for a text that does not parse. */
  datatype StoredRow = StoredRow(schedule: Option<CronSchedule>, row: CronRow)

  predicate NeedsScheduling(r: StoredRow) {
    r.row.enabled && r.row.nextRun.None?
  }

  /** A stored delay of the schedule's own range is kept; otherwise a new one is in range. */
  predicate IsDelayFor(row: CronRow, s: CronSchedule, delay: int) {
    if row.delay.Some? && row.delayRange == Some(s.delayRange) then delay == row.delay.value
    else 0 <= delay && (delay == 0 || delay < s.delayRange)
  }

  /** The occurrence, delayed; "never" stays. */
  predicate IsDelayedTime(t: NextTime, next: NextTime, delay: int) {
    (next.At? ==> t == At(next.time + delay)) && (next.Never? && delay == 0 ==> t == Never)
  }

  /** The last run less the delay which is stored, if it has run. */
  function RanAt(row: CronRow): Option<int> {
    if row.lastRun.None? then None
    else if row.delay.None? then row.lastRun
    else Some(row.lastRun.value - row.delay.value)
  }

  ghost predicate IsScheduledFor(before: StoredRow, after: StoredRow, now: int, next: NextTime, delay: int, t: NextTime)
    requires before.schedule.Some?
  {
    var s, row := before.schedule.value, before.row;
    && IsNextResult(s, RanAt(row), now, next) && IsDelayFor(row, s, delay) && IsDelayedTime(t, next, delay)
    && after == before.(row := row.(delay := Some(delay), delayRange := Some(s.delayRange), nextRun := Some(t)))
  }

  /** What scheduling makes of a row that needs it: a delay, and the occurrence after it ran, delayed. */
  ghost predicate IsScheduled(before: StoredRow, after: StoredRow, now: int) {
    if !before.row.enabled || before.row.nextRun.Some? || before.schedule.None? then after == before
    else exists next, delay, t :: IsScheduledFor(before, after, now, next, delay, t)
  }

  /**
   The time inside the new `next_run` is on the first day that has a match after the last run
   less its delay, and is the first such match if the last run less its delay is where `Next`
   is exact.
   */
  lemma ScheduledAfterTheLastRun(before: StoredRow, after: StoredRow, now: int, l: int, d: int) returns (t: int)
    requires IsScheduled(before, after, now) && before.row.enabled && before.row.nextRun.None?
    requires before.schedule.Some? && !before.schedule.value.IsOnce()
    requires before.row.lastRun == Some(l) && before.row.delay == Some(d)
    requires before.row.delayRange == Some(before.schedule.value.delayRange)
    ensures after.row.nextRun == Some(At(t + d)) && IsFirstAfter(before.schedule.value, l - d, t)
  {
    var next, delay, time :| IsScheduledFor(before, after, now, next, delay, time);
    NextResultIsFirst(before.schedule.value, l - d, now, next);
    t := next.time;
  }

  lemma NextResultIsFirst(s: CronSchedule, from: int, now: int, next: NextTime)
    requires !s.IsOnce() && IsNextResult(s, Some(from), now, next)
    ensures next.At? && IsFirstAfter(s, from, next.time)
  {
    NextIsFirst(s, from, next.time);
  }

  /** The scheduler never gets past a row whose schedule names no date. */
  predicate IsStuck(r: StoredRow) {
    && r.row.enabled && r.row.nextRun.None? && r.schedule.Some?
    && !r.schedule.value.IsOnce() && !r.schedule.value.Possible()
  }

  /** All that happens to such a row: it gets its delay. */
  ghost predicate IsDelayed(before: StoredRow, after: StoredRow)
    requires before.schedule.Some?
  {
    exists delay ::
      && IsDelayFor(before.row, before.schedule.value, delay)
      && after == before.(row := before.row.(delay := Some(delay), delayRange := Some(before.schedule.value.delayRange)))
  }

  /** The row changes as the step of the protocol says, whatever the schedulers hold. */
  ghost predicate IsStep(before: CronRow, after: CronRow, now: int, step: Step) {
    forall c: Cron, s: CronSchedule | c.row == before && c.clock == now :: Apply(c, s, step).row == after
  }

  class CronDatabase {
    var rows: map<nat, StoredRow>

    constructor (rows: map<nat, StoredRow>)
      ensures this.rows == rows
    {
      this.rows := rows;
    }

    /** `claim_job`: true if no other node was faster. */
    method ClaimJob(id: nat, node: NodeName, now: int) returns (claimed: bool)
      modifies this
      ensures claimed <==> id in old(rows) && old(rows)[id].row.enabled && old(rows)[id].row.node.None?
      ensures rows ==
              if !claimed then old(rows)
              else
                var before := old(rows)[id];
                old(rows)[id := before.(row := before.row.(node := Some(node), nodeTimeout := Some(now + 300)))]
      ensures id in rows ==> IsStep(old(rows)[id].row, rows[id].row, now, Claim(node))
    {
      claimed := id in rows && ClaimTakesEffect(rows[id].row);
      if claimed {
        var row := rows[id].row.(node := Some(node), nodeTimeout := Some(now + CLAIM_TIMEOUT));
        rows := rows[id := rows[id].(row := row)];
      }
    }

    /** `finish_job`: the row is free, has run, and is not scheduled; a row of another node is left alone. */
    method FinishJob(id: nat, node: NodeName, now: int) returns (finished: bool)
      modifies this
      ensures finished <==> id in old(rows) && old(rows)[id].row.node == Some(node)
      ensures rows ==
              if !finished then old(rows)
              else
                var before := old(rows)[id];
                old(rows)[id := before.(row := before.row.(node := None, nodeTimeout := None, nextRun := None, lastRun := Some(now)))]
      ensures id in rows ==> IsStep(old(rows)[id].row, rows[id].row, now, Finish(node))
    {
      finished := id in rows && rows[id].row.node == Some(node);
      if finished {
        rows := rows[id := rows[id].(row := Unclaimed(rows[id].row).(lastRun := Some(now)))];
      }
    }

    /** `release_stale`: every row of this node is free and not scheduled. */
    method ReleaseStaleJobs(node: NodeName, now: int)
      modifies this
      ensures rows.Keys == old(rows).Keys
      ensures forall id | id in rows ::
                && IsStep(old(rows)[id].row, rows[id].row, now, ReleaseStale(node))
                && rows[id] ==
                   if old(rows)[id].row.node != Some(node) then old(rows)[id]
                   else old(rows)[id].(row := old(rows)[id].row.(node := None, nodeTimeout := None, nextRun := None))
    {
      rows := map id | id in rows ::
        if rows[id].row.node == Some(node) then rows[id].(row := Unclaimed(rows[id].row)) else rows[id];
    }

    /** `expire_jobs`: so is every row of another node whose claim is over. */
    method ExpireJobs(except: NodeName, now: int)
      modifies this
      ensures rows.Keys == old(rows).Keys
      ensures forall id | id in rows ::
                && IsStep(old(rows)[id].row, rows[id].row, now, Expire(except))
                && rows[id] ==
                   var row := old(rows)[id].row;
                   if row.node.Some? && row.node != Some(except) && row.nodeTimeout.Some? && row.nodeTimeout.value < now
                   then old(rows)[id].(row := row.(node := None, nodeTimeout := None, nextRun := None))
                   else old(rows)[id]
    {
      rows := map id | id in rows ::
        if rows[id].row.node.Some? && rows[id].row.node.value != except && rows[id].row.nodeTimeout.Some? &&
           rows[id].row.nodeTimeout.value < now
        then rows[id].(row := Unclaimed(rows[id].row))
        else rows[id];
    }

    /** A random delay for the range, as `RandomInt64` generates it. */
    method RandomDelay(range: int) returns (delay: int)
      ensures IsRandomDelay(delay, range)
    {
      if range <= 1 {
        return 0;
      }
      delay :| 0 <= delay < range;
    }

    /** One row; false if the schedule's date search does not end. */
    method ScheduleRow(id: nat, now: int) returns (ok: bool)
      requires id in rows
      requires rows[id].schedule.Some? ==> rows[id].schedule.value.IsOnce() || rows[id].schedule.value.Parsed()
      modifies this
      ensures ok <==> !IsStuck(old(rows)[id])
      ensures rows.Keys == old(rows).Keys && rows == old(rows)[id := rows[id]]
      ensures if ok then IsScheduled(old(rows)[id], rows[id], now) else IsDelayed(old(rows)[id], rows[id])
    {
      var stored := rows[id];
      if !NeedsScheduling(stored) || stored.schedule.None? {
        return true;
      }
      var s := stored.schedule.value;
      var read := Snapshot(stored.row.lastRun, stored.row.delay, stored.row.delayRange, now, None);
      var delay := if stored.row.delay.None? then 0 else stored.row.delay.value;
      if read.NeedsRoll(s) {
        delay := RandomDelay(s.delayRange);
      }
      assert IsDelayFor(stored.row, s, delay);
      var delayed := stored.(row := stored.row.(delay := Some(delay), delayRange := Some(s.delayRange)));
      rows := rows[id := delayed];
      var next := Next(s, read.LastOccurrence(), now);
      if next.None? {
        return false;
      }
      rows := rows[id := delayed.(row := delayed.row.(nextRun := Some(AddDelay(next.value, delay))))];
      assert IsScheduledFor(stored, rows[id], now, next.value, delay, AddDelay(next.value, delay));
      return true;
    }

    /**
     One pass over the rows `select_jobs_for_scheduling` returned, with no other node in
     between.  `done` rows are passed; the pass ends at the first row that is stuck, and
     what comes after it is not scheduled.
     */
    method CalculateNextRun(selected: seq<nat>, now: int) returns (done: nat)
      requires forall i | 0 <= i < |selected| :: selected[i] in rows
      requires forall i, j | 0 <= i < j < |selected| :: selected[i] != selected[j]
      requires forall id | id in rows && rows[id].schedule.Some? ::
                 rows[id].schedule.value.IsOnce() || rows[id].schedule.value.Parsed()
      modifies this
      ensures done <= |selected| && rows.Keys == old(rows).Keys
      ensures forall i | 0 <= i < done :: !IsStuck(old(rows)[selected[i]])
      ensures done < |selected| ==> IsStuck(old(rows)[selected[done]])
      ensures done < |selected| ==> IsDelayed(old(rows)[selected[done]], rows[selected[done]])
      ensures forall i | 0 <= i < done :: IsScheduled(old(rows)[selected[i]], rows[selected[i]], now)
      ensures forall id | id in rows && id !in selected[..done] && (done < |selected| ==> id != selected[done]) ::
                rows[id] == old(rows)[id]
    {
      for i := 0 to |selected|
        invariant rows.Keys == old(rows).Keys
        invariant forall id | id in rows && id !in selected[..i] :: rows[id] == old(rows)[id]
        invariant forall k | 0 <= k < i ::
                    !IsStuck(old(rows)[selected[k]]) && IsScheduled(old(rows)[selected[k]], rows[selected[k]], now)
      {
        assert selected[i] !in selected[..i];
        assert selected[..i + 1] == selected[..i] + [selected[i]];
        var ok := ScheduleRow(selected[i], now);
        if !ok {
          return i;
        }
      }
      return |selected|;
    }
  }
}
