/**
 One workshop node: the queue, the workplace and the partition that connects them.
 A queue run selects rows, claims them and starts operators; every start recomputes the
 plan filter, a changed filter raises `interrupt`, and the stale row list is abandoned.
 What the database and the spawner answer is nondeterministic.
 */
module WorkshopNode {
  import opened Common

  type PlanName = string

  /** A row of `select_new_jobs`; also an operator, which is a job being executed. */
  datatype JobRow = JobRow(id: nat, plan: PlanName)

  const MAX_JOBS := 16

  // ------------------------------------------------------------- operators

  function Count(operators: seq<JobRow>, plan: PlanName): nat {
    if operators == [] then 0
    else Count(operators[..|operators| - 1], plan) + if operators[|operators| - 1].plan == plan then 1 else 0
  }

  function RunningPlans(operators: seq<JobRow>): set<PlanName> {
    set o | o in operators :: o.plan
  }

  /** The plans which have reached their limit; a limit of 0 means none. */
  predicate IsFullPlan(operators: seq<JobRow>, limits: map<PlanName, nat>, plan: PlanName) {
    plan in limits && 0 < limits[plan] <= Count(operators, plan)
  }

  ghost predicate WithinLimits(operators: seq<JobRow>, limits: map<PlanName, nat>) {
    forall plan | plan in limits && 0 < limits[plan] :: Count(operators, plan) <= limits[plan]
  }

  function FullPlans(operators: seq<JobRow>, limits: map<PlanName, nat>): set<PlanName> {
    set plan | plan in limits && IsFullPlan(operators, limits, plan)
  }

  lemma CountPush(operators: seq<JobRow>, o: JobRow, plan: PlanName)
    ensures Count(operators + [o], plan) == Count(operators, plan) + if o.plan == plan then 1 else 0
  {
    assert (operators + [o])[..|operators + [o]| - 1] == operators;
  }

  lemma {:induction false} CountConcat(a: seq<JobRow>, b: seq<JobRow>, plan: PlanName)
    ensures Count(a + b, plan) == Count(a, plan) + Count(b, plan)
    decreases |b|
  {
    if b == [] {
      assert a + b == a;
    } else {
      var b', o := b[..|b| - 1], b[|b| - 1];
      assert a + b == (a + b') + [o] && b == b' + [o];
      CountPush(a + b', o, plan);
      CountPush(b', o, plan);
      CountConcat(a, b', plan);
    }
  }

  class Workplace {
    const maxOperators: nat
    /** Concurrency limit of each plan; plan definitions do not change. */
    const limits: map<PlanName, nat>
    var operators: seq<JobRow>

    constructor (maxOperators: nat, limits: map<PlanName, nat>)
      ensures this.maxOperators == maxOperators && this.limits == limits && operators == []
    {
      this.maxOperators, this.limits := maxOperators, limits;
      operators := [];
    }

    predicate IsFull()
      reads this
    {
      |operators| == maxOperators
    }

    method GetRunningPlanNames() returns (list: set<PlanName>)
      ensures list == RunningPlans(operators)
    {
      list := {};
      for i := 0 to |operators|
        invariant list == RunningPlans(operators[..i])
      {
        list := list + {operators[i].plan};
        assert operators[..i + 1] == operators[..i] + [operators[i]];
      }
      assert operators[..|operators|] == operators;
    }

    method GetFullPlanNames() returns (list: set<PlanName>)
      ensures list == FullPlans(operators, limits)
    {
      var counters: map<PlanName, nat> := map[];
      list := {};
      for i := 0 to |operators|
        invariant forall p | p in limits && 0 < limits[p] ::
                    (if p in counters then counters[p] else 0) == Count(operators[..i], p)
        invariant list == FullPlans(operators[..i], limits)
      {
        var plan := operators[i].plan;
        assert operators[..i + 1] == operators[..i] + [operators[i]];
        forall p
          ensures Count(operators[..i + 1], p) == Count(operators[..i], p) + if plan == p then 1 else 0
        {
          CountPush(operators[..i], operators[i], p);
        }
        if plan !in limits || limits[plan] == 0 {
          continue;
        }
        var n := (if plan in counters then counters[plan] else 0) + 1;
        counters := counters[plan := n];
        if n >= limits[plan] {
          list := list + {plan};
        }
      }
      assert operators[..|operators|] == operators;
    }
  }

  // ----------------------------------------------------------------- queue

  /** Off, in a tenth of a second to a second, or a number of seconds from now. */
  datatype Timer = Off | Soon | Later(seconds: int)

  datatype RunEnd = NothingToDo | Disabled | Interrupted | MoreRows | Waiting | Failed

  type Plans = set<PlanName>

  class Queue {
    var enabledState: bool
    var enabledAdmin: bool
    var disabledFull: bool
    var running: bool
    var interrupt: bool
    var dbReady: bool
    /** `None` until the first `SetFilter`. */
    var plansInclude: Option<Plans>
    var plansExclude: Option<Plans>
    var plansLowprio: Plans
    var timer: Timer
    /** When to look for expired jobs of other nodes again. */
    var nextExpireCheck: int

    constructor ()
      ensures nextExpireCheck == 0
      ensures !enabledState && enabledAdmin && !disabledFull && !running && !interrupt && !dbReady
      ensures plansInclude.None? && plansExclude.None? && plansLowprio == {} && timer == Off
    {
      enabledState, enabledAdmin, disabledFull, running, interrupt, dbReady := false, true, false, false, false, false;
      plansInclude, plansExclude, plansLowprio, timer, nextExpireCheck := None, None, {}, Off, 0;
    }

    predicate IsEnabled()
      reads this
    {
      enabledState && enabledAdmin && !disabledFull
    }

    method SetFilter(included: Plans, excluded: Plans, lowprio: Plans)
      modifies this`plansInclude, this`plansExclude, this`plansLowprio, this`interrupt, this`timer
      ensures plansInclude == Some(included) && plansExclude == Some(excluded) && plansLowprio == lowprio
      ensures var changed := old(plansInclude) != Some(included) || old(plansExclude) != Some(excluded);
              && interrupt == (old(interrupt) || (running && changed))
              && timer == if changed && !running && dbReady then Soon else old(timer)
    {
      var changed := plansInclude != Some(included) || plansExclude != Some(excluded);
      plansInclude, plansExclude, plansLowprio := Some(included), Some(excluded), lowprio;
      if changed {
        if running {
          interrupt := true;
        } else if dbReady {
          timer := Soon;
        }
      }
    }

    method CheckEnabled()
      modifies this`timer
      ensures timer == if IsEnabled() && dbReady then Soon else old(timer)
    {
      if IsEnabled() && dbReady {
        timer := Soon;
      }
    }

    /** Wakes the queue up if it was disabled because the node was full. */
    method EnableFull()
      modifies this`disabledFull, this`timer
      ensures !disabledFull
      ensures timer == if old(disabledFull) && IsEnabled() && dbReady then Soon else old(timer)
    {
      if disabledFull {
        disabledFull := false;
        CheckEnabled();
      }
    }

    /**
     Seconds until the next scheduled job, from what the database answers: two more against
     rounding errors, and at most ten minutes; -1 without one.
     */
    method GetNextScheduled(answer: Option<int>) returns (ret: int)
      ensures ret == -1 || 2 <= ret <= 600
      ensures ret == -1 <==> plansInclude.None? || answer.None?
      ensures ret != -1 && ret < 600 ==> answer.value + 2 <= ret
      ensures 2 < ret ==> ret <= answer.value + 2
    {
      if plansInclude.None? || answer.None? {
        return -1;
      }
      var span := answer.value;
      if span < 0 {
        span := 0;
      }
      span := span + 2;
      if 600 < span {
        span := 600;
      }
      return span;
    }

    /** The timer fires in ten minutes, or earlier but after the next scheduled job is due, and then soon after. */
    predicate WaitsFor(scheduled: Option<int>)
      reads this
    {
      && timer.Later? && 2 <= timer.seconds <= 600
      && (timer.seconds < 600 ==> scheduled.Some? && scheduled.value + 2 <= timer.seconds)
      && (scheduled.Some? && 2 < timer.seconds ==> timer.seconds <= scheduled.value + 2)
    }

    /** How a run ends that was not cut short by an error. */
    method EndRun(full: bool, scheduled: Option<int>) returns (end: RunEnd)
      requires plansInclude.Some?
      modifies this`timer
      ensures end == if !IsEnabled() then Disabled else if interrupt then Interrupted else if full then MoreRows else Waiting
      ensures end == Waiting ==> WaitsFor(scheduled)
      ensures end == Interrupted || end == MoreRows ==> timer == Soon
    {
      if !IsEnabled() {
        return Disabled;
      }
      if interrupt || full {
        timer := Soon;
        return if interrupt then Interrupted else MoreRows;
      }
      var ret := GetNextScheduled(scheduled);
      timer := Later(if 0 <= ret then ret else 600);
      return Waiting;
    }

    /** Whether to look for expired jobs now: once a minute. */
    method ExpireCheckIsDue(now: int) returns (due: bool)
      modifies this`nextExpireCheck
      ensures due <==> old(nextExpireCheck) <= now
      ensures nextExpireCheck == if due then now + 60 else old(nextExpireCheck)
    {
      due := nextExpireCheck <= now;
      if due {
        nextExpireCheck := now + 60;
      }
    }

    method SetStateEnabled(enabled: bool)
      modifies this`enabledState, this`timer
      ensures enabledState == enabled
      ensures timer == if old(enabledState) != enabled && IsEnabled() && dbReady then Soon else old(timer)
    {
      if enabled != enabledState {
        enabledState := enabled;
        CheckEnabled();
      }
    }
  }

  // ------------------------------------------------------------- selection

  predicate Selects(row: JobRow, included: Plans, excluded: Plans) {
    row.plan in included && row.plan !in excluded
  }

  /** `select_new_jobs` on the eligible rows in (priority, time_created) order. */
  function SelectNewJobs(rows: seq<JobRow>, included: Plans, excluded: Plans): seq<JobRow> {
    var all := Kept(rows, (row: JobRow) => !Selects(row, included, excluded));
    if |all| <= MAX_JOBS then all else all[..MAX_JOBS]
  }

  /** The rows selected are the first sixteen of an included and not excluded plan, in their order. */
  lemma SelectsTheFirst(rows: seq<JobRow>, included: Plans, excluded: Plans) returns (all: seq<JobRow>)
    ensures IsKept(all, rows, (row: JobRow) => row.plan !in included || row.plan in excluded)
    ensures SelectNewJobs(rows, included, excluded) == if |all| <= 16 then all else all[..16]
  {
    var gone := (row: JobRow) => !Selects(row, included, excluded);
    all := Kept(rows, gone);
    KeptIsKept(rows, gone);
  }

  lemma SelectedAreMembers(rows: seq<JobRow>, included: Plans, excluded: Plans, all: seq<JobRow>)
    requires IsKept(all, rows, (row: JobRow) => row.plan !in included || row.plan in excluded)
    ensures forall row :: row in all <==> row in rows && row.plan in included && row.plan !in excluded
  {
    var gone := (row: JobRow) => row.plan !in included || row.plan in excluded;
    forall row
      ensures row in all <==> row in rows && row.plan in included && row.plan !in excluded
    {
      assert row in all <==> multiset(all)[row] > 0;
      assert row in rows <==> multiset(rows)[row] > 0;
      assert gone(row) <==> row.plan !in included || row.plan in excluded;
    }
  }

  /** A select below the row limit misses nothing. */
  lemma SelectMembers(rows: seq<JobRow>, included: Plans, excluded: Plans)
    ensures forall row | row in SelectNewJobs(rows, included, excluded) ::
              row in rows && row.plan in included && row.plan !in excluded
    ensures |SelectNewJobs(rows, included, excluded)| < 16 ==>
              forall row | row in rows && row.plan in included && row.plan !in excluded ::
                row in SelectNewJobs(rows, included, excluded)
  {
    var all := SelectsTheFirst(rows, included, excluded);
    SelectedAreMembers(rows, included, excluded, all);
  }

  /** What the database, the sticky manager, the spawner and the plan library answer for one row. */
  datatype Answer = Answer(
    malformed: bool,
    known: bool,
    isLocal: bool,
    delta: nat,
    claimed: bool,
    fails: bool,
    library: Option<Plans>)

  /** The answer for each position of a row list. */
  type Answers = nat -> Answer

  /** Of a known plan, local, within its rate limits, claimed, and the start does not fail. */
  predicate Starts(a: Answer) {
    a.known && a.isLocal && a.delta == 0 && a.claimed && !a.fails
  }

  /** The jobs of a row list that run after it has been walked. */
  function Started(rows: seq<JobRow>, answers: Answers): seq<JobRow> {
    if rows == [] then []
    else
      var n := |rows| - 1;
      Started(rows[..n], answers) + if Starts(answers(n)) then [rows[n]] else []
  }

  lemma {:induction false} StartedMembers(rows: seq<JobRow>, answers: Answers, o: JobRow)
    ensures o in Started(rows, answers) <==> exists i | 0 <= i < |rows| :: rows[i] == o && Starts(answers(i))
  {
    if rows != [] {
      var n := |rows| - 1;
      StartedMembers(rows[..n], answers, o);
      assert forall i | 0 <= i < n :: rows[..n][i] == rows[i];
    }
  }

  // ------------------------------------------------------------- partition

  /** The rate limits that are not over yet. */
  function Unexpired(limits: map<PlanName, int>, now: int): map<PlanName, int> {
    map plan | plan in limits && now < limits[plan] :: limits[plan]
  }

  class Partition {
    const queue: Queue
    const workplace: Workplace
    /** Plans the library offers. */
    var available: Plans
    /** Plans which have hit a rate limit, and until when. */
    var rateLimited: map<PlanName, int>
    var now: int

    constructor (maxOperators: nat, limits: map<PlanName, nat>, available: Plans)
      requires 0 < maxOperators
      ensures Consistent() && fresh(queue) && fresh(workplace)
      ensures workplace.maxOperators == maxOperators && workplace.limits == limits
      ensures this.available == available && rateLimited == map[]
    {
      queue := new Queue();
      workplace := new Workplace(maxOperators, limits);
      this.available, rateLimited, now := available, map[], 0;
    }

    /** Capacity and per-plan limits. */
    ghost predicate Bounded()
      reads this, workplace
    {
      && |workplace.operators| <= workplace.maxOperators
      && WithinLimits(workplace.operators, workplace.limits)
    }

    /** The queue's filter describes the rate limits and the operators there are now. */
    ghost predicate FilterIsCurrent()
      reads this, queue, workplace
    {
      && queue.plansInclude.Some? && queue.plansExclude.Some?
      && queue.plansInclude.value == available - rateLimited.Keys
      && queue.plansExclude.value == FullPlans(workplace.operators, workplace.limits)
      && queue.plansLowprio == RunningPlans(workplace.operators)
    }

    /** What holds whenever control is in the event loop, and at every row of a queue run. */
    ghost predicate Consistent()
      reads this, queue, workplace
    {
      && 0 < workplace.maxOperators
      && Bounded()
      && (queue.disabledFull <==> workplace.IsFull())
      && if queue.plansExclude.None? then queue.plansInclude.None? && workplace.operators == [] else FilterIsCurrent()
    }

    /** The part of the queue's state that no callback changes during a run. */
    twostate predicate SameSwitches()
      reads queue
    {
      SameEnabling() && queue.nextExpireCheck == old(queue.nextExpireCheck)
    }

    twostate predicate SameEnabling()
      reads queue
    {
      && queue.enabledState == old(queue.enabledState) && queue.enabledAdmin == old(queue.enabledAdmin)
      && queue.running == old(queue.running) && queue.dbReady == old(queue.dbReady)
    }

    /** Without an interrupt the include and exclude lists are still the old ones. */
    twostate predicate SameFilterUnlessInterrupted()
      reads queue
    {
      && (old(queue.interrupt) ==> queue.interrupt)
      && (queue.running && !queue.interrupt ==>
            queue.plansInclude == old(queue.plansInclude) && queue.plansExclude == old(queue.plansExclude))
    }

    /** A queue that was disabled because the node was full runs again soon. */
    twostate predicate Woken()
      reads queue
    {
      old(queue.disabledFull) && queue.IsEnabled() && queue.dbReady ==> queue.timer == Soon
    }

    method UpdateFilter(libraryModified: bool)
      modifies this`rateLimited, queue
      ensures FilterIsCurrent() && SameSwitches() && SameFilterUnlessInterrupted()
      ensures rateLimited ==
              if libraryModified then map[]
              else Unexpired(old(rateLimited), now)
      ensures queue.disabledFull == old(queue.disabledFull)
      ensures old(Consistent()) ==> Consistent()
      ensures queue.timer == Soon || queue.timer == old(queue.timer)
    {
      if libraryModified {
        rateLimited := map[];
      }
      rateLimited := map plan | plan in rateLimited && now < rateLimited[plan] :: rateLimited[plan];
      var full := workplace.GetFullPlanNames();
      var running := workplace.GetRunningPlanNames();
      queue.SetFilter(available - rateLimited.Keys, full, running);
    }

    /** The library is read again; if it was modified it offers `library` now, and rate limits are forgotten. */
    twostate predicate LibraryRead(library: Option<Plans>)
      reads this
    {
      && available == (if library.Some? then library.value else old(available))
      && rateLimited ==
         if library.Some? then map[]
         else Unexpired(old(rateLimited), now)
    }

    /** An operator is gone: the filter is recomputed, and a full queue is woken up. */
    method OnChildProcessExit(library: Option<Plans>)
      requires Bounded() && |workplace.operators| < workplace.maxOperators
      modifies this`available, this`rateLimited, queue
      ensures Consistent() && FilterIsCurrent() && SameSwitches() && SameFilterUnlessInterrupted()
      ensures Woken() && LibraryRead(library)
    {
      if library.Some? {
        available := library.value;
      }
      UpdateFilter(library.Some?);
      if !workplace.IsFull() {
        queue.EnableFull();
      }
    }

    /** An operator's process has exited, or its timer fired. */
    method OnExit(i: nat, library: Option<Plans>)
      requires Consistent() && i < |workplace.operators|
      modifies this`available, this`rateLimited, queue, workplace
      ensures Consistent() && SameSwitches() && Woken() && LibraryRead(library)
      ensures workplace.operators == old(workplace.operators[..i] + workplace.operators[i + 1..])
    {
      ghost var all := workplace.operators;
      workplace.operators := workplace.operators[..i] + workplace.operators[i + 1..];
      forall plan
        ensures Count(workplace.operators, plan) <= Count(all, plan)
      {
        assert all == all[..i] + ([all[i]] + all[i + 1..]);
        CountConcat(all[..i], [all[i]] + all[i + 1..], plan);
        CountConcat([all[i]], all[i + 1..], plan);
        CountConcat(all[..i], all[i + 1..], plan);
      }
      OnChildProcessExit(library);
    }

    /** `CancelJob` and `CancelTag`: remove every operator the predicate picks. */
    method Cancel(gone: JobRow -> bool, library: Option<Plans>)
      requires Consistent()
      modifies this`available, this`rateLimited, queue, workplace
      ensures Consistent() && SameSwitches()
      ensures IsKept(workplace.operators, old(workplace.operators), gone)
      ensures workplace.operators != old(workplace.operators) ==> Woken() && LibraryRead(library)
    {
      var kept := Kept(workplace.operators, gone);
      KeptIsKept(workplace.operators, gone);
      KeptCounts(workplace.operators, gone);
      if |kept| < |workplace.operators| {
        workplace.operators := kept;
        OnChildProcessExit(library);
      }
    }

    /** May the job run here?  Sticky jobs of other nodes, a full node and a rate limit say no. */
    method CheckWorkshopJob(job: JobRow, isLocal: bool, delta: nat) returns (ok: bool)
      requires Consistent() && FilterIsCurrent()
      modifies this`rateLimited, queue
      ensures Consistent() && FilterIsCurrent() && SameSwitches() && SameFilterUnlessInterrupted()
      ensures ok <==> isLocal && !workplace.IsFull() && delta == 0
      ensures ok ==> queue.interrupt == old(queue.interrupt) && queue.plansExclude == old(queue.plansExclude)
      ensures isLocal && workplace.IsFull() ==> queue.disabledFull
      ensures !isLocal || workplace.IsFull() || delta == 0 ==> rateLimited == old(rateLimited)
      ensures isLocal && !workplace.IsFull() && 0 < delta ==>
                && rateLimited == Unexpired(old(rateLimited)[job.plan := now + delta], now)
                && job.plan in rateLimited && rateLimited[job.plan] == now + delta
                && job.plan !in queue.plansInclude.value
    {
      if !isLocal {
        return false;
      }
      if workplace.IsFull() {
        queue.disabledFull := true;
        return false;
      }
      if 0 < delta {
        rateLimited := rateLimited[job.plan := now + delta];
        UpdateFilter(false);
        return false;
      }
      return true;
    }

    /** Start a claimed job; the start may fail at once and call back before this method returns. */
    method StartWorkshopJob(job: JobRow, fails: bool, library: Option<Plans>)
      requires Consistent() && FilterIsCurrent() && !workplace.IsFull()
      requires !IsFullPlan(workplace.operators, workplace.limits, job.plan)
      modifies this`available, this`rateLimited, queue, workplace
      ensures Consistent() && FilterIsCurrent() && SameSwitches() && SameFilterUnlessInterrupted()
      ensures workplace.operators == old(workplace.operators) + if fails then [] else [job]
      ensures LibraryRead(if fails then library else None)
    {
      StartKeepsLimits(workplace.operators, workplace.limits, job);
      workplace.operators := workplace.operators + [job];
      if fails {
        workplace.operators := workplace.operators[..|workplace.operators| - 1];
        assert workplace.operators == old(workplace.operators);
        OnChildProcessExit(library);
      }
      if workplace.IsFull() {
        queue.disabledFull := true;
      }
      UpdateFilter(false);
    }

    /**
     Walk a row list.  While there is no interrupt the exclude list of the select is
     exactly the plans which are full now, so no claimed job exceeds its plan's limit.
     The first `n` rows are visited; of these, every job that was claimed and whose start
     did not fail is running, and no other one.
     */
    method RunResult(result: seq<JobRow>, answers: Answers) returns (ok: bool, n: nat)
      requires Consistent() && FilterIsCurrent() && queue.running && !queue.interrupt
      requires forall row | row in result :: row.plan !in queue.plansExclude.value
      modifies this`available, this`rateLimited, queue, workplace
      ensures Consistent() && FilterIsCurrent() && SameSwitches() && SameFilterUnlessInterrupted()
      ensures n <= |result| && workplace.operators == old(workplace.operators) + Started(result[..n], answers)
      ensures ok ==> n == |result| || !queue.IsEnabled() || queue.interrupt
      ensures !ok ==> n < |result| && answers(n).malformed
      ensures forall i | 0 <= i < n :: !answers(i).malformed
    {
      n := 0;
      while n < |result|
        invariant n <= |result|
        invariant Consistent() && FilterIsCurrent() && SameSwitches() && SameFilterUnlessInterrupted()
        invariant workplace.operators == old(workplace.operators) + Started(result[..n], answers)
        invariant forall i | 0 <= i < n :: !answers(i).malformed
      {
        if !queue.IsEnabled() || queue.interrupt {
          break;
        }
        if answers(n).malformed {
          return false, n;
        }
        assert result[..n + 1][..n] == result[..n];
        Visit(result[n], answers(n));
        n := n + 1;
      }
      return true, n;
    }

    /** One row: check it, claim it, start it. */
    method Visit(job: JobRow, answer: Answer)
      requires Consistent() && FilterIsCurrent() && queue.IsEnabled()
      requires !IsFullPlan(workplace.operators, workplace.limits, job.plan)
      modifies this`available, this`rateLimited, queue, workplace
      ensures Consistent() && FilterIsCurrent() && SameSwitches() && SameFilterUnlessInterrupted()
      ensures workplace.operators == old(workplace.operators) +
              if answer.known && answer.isLocal && answer.delta == 0 && answer.claimed && !answer.fails then [job] else []
    {
      if answer.known {
        var willing := CheckWorkshopJob(job, answer.isLocal, answer.delta);
        if willing && answer.claimed {
          StartWorkshopJob(job, answer.fails, answer.library);
        }
      }
    }

    /** The plans a run covers: available, not rate limited, not full. */
    ghost predicate Covered(row: JobRow)
      reads queue
    {
      && queue.plansInclude.Some? && queue.plansExclude.Some?
      && row.plan in queue.plansInclude.value && row.plan !in queue.plansExclude.value
    }

    /**
     A queue run.  `first` and `second` are the eligible rows at the time of each select,
     and `scheduled` is how far off the next scheduled job is.  If the run ends by arming
     the long timer, every row that stayed eligible and whose plan is included and not full
     was visited, although the second select uses the low-priority list as it is by then;
     and the timer fires in ten minutes, or earlier but after the next job is due.
     */
    method Run2(first: seq<JobRow>, second: seq<JobRow>, answers1: Answers, answers2: Answers, scheduled: Option<int>)
      returns (end: RunEnd, visited1: seq<JobRow>, visited2: seq<JobRow>, expired: bool)
      requires Consistent() && queue.running && queue.IsEnabled()
      modifies this`available, this`rateLimited, queue, workplace
      ensures Consistent() && SameEnabling()
      ensures end == NothingToDo <==>
                old(queue.plansInclude.None? || queue.plansInclude.value == {} || queue.plansExclude.None?)
      ensures end == NothingToDo ==> workplace.operators == old(workplace.operators)
      ensures end != NothingToDo ==>
                RunIs(first, second, answers1, answers2, old(queue.plansInclude.value), old(queue.plansExclude.value),
                      old(workplace.operators), workplace.operators, end, visited1, visited2)
      ensures end == Waiting ==>
                && queue.plansInclude == old(queue.plansInclude) && queue.plansExclude == old(queue.plansExclude)
                && forall row | row in first && row in second && Covered(row) :: row in visited1 || row in visited2
      ensures end == Waiting ==> queue.WaitsFor(scheduled)
      ensures end == Interrupted || end == MoreRows ==> queue.timer == Soon
      ensures end == Disabled <==> end != NothingToDo && end != Failed && !queue.IsEnabled()
      ensures expired <==> end != NothingToDo && old(queue.nextExpireCheck) <= now
      ensures queue.nextExpireCheck == if expired then now + 60 else old(queue.nextExpireCheck)
    {
      if queue.plansInclude.None? || queue.plansInclude.value == {} || queue.plansExclude.None? {
        return NothingToDo, [], [], false;
      }
      expired := queue.ExpireCheckIsDue(now);
      end, visited1, visited2 := SelectAndRun(first, second, answers1, answers2, scheduled);
    }

    /** The two selects of a queue run, and how the run ends. */
    method SelectAndRun(first: seq<JobRow>, second: seq<JobRow>, answers1: Answers, answers2: Answers, scheduled: Option<int>)
      returns (end: RunEnd, visited1: seq<JobRow>, visited2: seq<JobRow>)
      requires Consistent() && FilterIsCurrent() && queue.running && queue.IsEnabled()
      modifies this`available, this`rateLimited, queue, workplace
      ensures end != NothingToDo && Consistent() && SameSwitches()
      ensures RunIs(first, second, answers1, answers2, old(queue.plansInclude.value), old(queue.plansExclude.value),
                    old(workplace.operators), workplace.operators, end, visited1, visited2)
      ensures end == Waiting ==>
                && queue.plansInclude == old(queue.plansInclude) && queue.plansExclude == old(queue.plansExclude)
                && forall row | row in first && row in second && Covered(row) :: row in visited1 || row in visited2
      ensures end == Waiting ==> queue.WaitsFor(scheduled)
      ensures end == Interrupted || end == MoreRows ==> queue.timer == Soon
      ensures end == Disabled <==> end != Failed && !queue.IsEnabled()
    {
      queue.interrupt := false;
      ghost var before := workplace.operators;
      var included, excluded := queue.plansInclude.value, queue.plansExclude.value;
      var ok, full;
      visited2 := [];
      ok, visited1, full := SelectOnce(first, included, excluded + queue.plansLowprio, answers1);
      if !ok {
        return Failed, visited1, visited2;
      }
      ghost var started := workplace.operators;
      end, visited2 := SelectAgain(second, excluded, full, answers2, scheduled);
      if end == Waiting {
        RunningPlansGrow(before, started);
        CoveredAreVisited(first, second, included, excluded, RunningPlans(before), RunningPlans(started), visited1, visited2);
      }
    }

    /** The second select of a queue run, for the plans which are running by now. */
    method SelectAgain(second: seq<JobRow>, excluded: Plans, full: bool, answers: Answers, scheduled: Option<int>)
      returns (end: RunEnd, visited: seq<JobRow>)
      requires Consistent() && FilterIsCurrent() && queue.running
      requires queue.interrupt || queue.plansExclude.value == excluded
      modifies this`available, this`rateLimited, queue, workplace
      ensures end != NothingToDo && Consistent() && SameSwitches()
      ensures workplace.operators == old(workplace.operators) + Started(visited, answers)
      ensures visited <= SelectNewJobs(second, RunningPlans(old(workplace.operators)), excluded)
      ensures end == Waiting || end == MoreRows ==>
                && !old(queue.interrupt) && old(queue.IsEnabled())
                && visited == SelectNewJobs(second, RunningPlans(old(workplace.operators)), excluded)
                && (end == MoreRows <==> full || |visited| == 16)
      ensures end == Waiting ==>
                queue.plansInclude == old(queue.plansInclude) && queue.plansExclude == old(queue.plansExclude)
      ensures end == Waiting ==> queue.WaitsFor(scheduled)
      ensures end == Failed ==> answers(|visited|).malformed
      ensures end == Interrupted || end == MoreRows ==> queue.timer == Soon
      ensures end == Disabled <==> end != Failed && !queue.IsEnabled()
    {
      var full2;
      visited, full2 := [], false;
      SelectsNothing(second, excluded);
      if queue.IsEnabled() && !queue.interrupt && queue.plansLowprio != {} {
        var ok;
        ok, visited, full2 := SelectOnce(second, queue.plansLowprio, excluded, answers);
        if !ok {
          return Failed, visited;
        }
      }
      end := queue.EndRun(full || full2, scheduled);
    }

    /** One select, and the walk of its result. */
    method SelectOnce(rows: seq<JobRow>, included: Plans, excluded: Plans, answers: Answers)
      returns (ok: bool, visited: seq<JobRow>, full: bool)
      requires Consistent() && FilterIsCurrent() && queue.running && !queue.interrupt
      requires queue.plansExclude.value <= excluded
      modifies this`available, this`rateLimited, queue, workplace
      ensures Consistent() && FilterIsCurrent() && SameSwitches() && SameFilterUnlessInterrupted()
      ensures workplace.operators == old(workplace.operators) + Started(visited, answers)
      ensures visited <= SelectNewJobs(rows, included, excluded)
      ensures ok && queue.IsEnabled() && !queue.interrupt ==> visited == SelectNewJobs(rows, included, excluded)
      ensures full <==> |SelectNewJobs(rows, included, excluded)| == 16
      ensures !ok ==> answers(|visited|).malformed
    {
      SelectMembers(rows, included, excluded);
      var result := SelectNewJobs(rows, included, excluded);
      var n;
      ok, n := RunResult(result, answers);
      return ok, result[..n], |result| == MAX_JOBS;
    }

    /** A queue run, if the queue is enabled. */
    method Run(first: seq<JobRow>, second: seq<JobRow>, answers1: Answers, answers2: Answers, scheduled: Option<int>)
      returns (end: RunEnd, visited1: seq<JobRow>, visited2: seq<JobRow>)
      requires Consistent() && !queue.running
      modifies this`available, this`rateLimited, queue, workplace
      ensures Consistent() && SameEnabling()
      ensures !old(queue.IsEnabled()) ==> end == NothingToDo
      ensures old(queue.IsEnabled()) && old(queue.plansInclude.Some? && queue.plansInclude.value != {}) ==> end != NothingToDo
      ensures end == NothingToDo ==> workplace.operators == old(workplace.operators)
      ensures end != NothingToDo ==>
                && old(queue.plansInclude.Some? && queue.plansExclude.Some?)
                && RunIs(first, second, answers1, answers2, old(queue.plansInclude.value), old(queue.plansExclude.value),
                         old(workplace.operators), workplace.operators, end, visited1, visited2)
    {
      end, visited1, visited2 := NothingToDo, [], [];
      if queue.IsEnabled() {
        queue.running := true;
        var expired;
        end, visited1, visited2, expired := Run2(first, second, answers1, answers2, scheduled);
        queue.running := false;
      }
    }
  }

  lemma RunningPlansGrow(before: seq<JobRow>, after: seq<JobRow>)
    requires before <= after
    ensures RunningPlans(before) <= RunningPlans(after)
  {
  }

  lemma EmptyOrMember(rows: seq<JobRow>)
    ensures rows == [] || exists row :: row in rows
  {
    if rows != [] {
      assert rows[0] in rows;
    }
  }

  lemma SelectsNothing(rows: seq<JobRow>, excluded: Plans)
    ensures SelectNewJobs(rows, {}, excluded) == []
  {
    SelectMembers(rows, {}, excluded);
    EmptyOrMember(SelectNewJobs(rows, {}, excluded));
  }

  /** What the first select leaves out because its plan was running, the second one asks for. */
  lemma CoveredAreVisited(first: seq<JobRow>, second: seq<JobRow>, included: Plans, excluded: Plans,
                          running1: Plans, running2: Plans, visited1: seq<JobRow>, visited2: seq<JobRow>)
    requires running1 <= running2 && |visited1| < 16 && |visited2| < 16
    requires visited1 == SelectNewJobs(first, included, excluded + running1)
    requires visited2 == SelectNewJobs(second, running2, excluded)
    ensures forall row | row in first && row in second && row.plan in included && row.plan !in excluded ::
              row in visited1 || row in visited2
  {
    SelectMembers(first, included, excluded + running1);
    SelectMembers(second, running2, excluded);
  }

  /**
   What a queue run does: the rows visited by each of the two selects, the second of which
   asks for the plans that are running by then; the jobs of these rows that were claimed and
   started; and all rows were visited unless the run was cut short.
   */
  ghost predicate RunIs(first: seq<JobRow>, second: seq<JobRow>, answers1: Answers, answers2: Answers,
                        included: Plans, excluded: Plans, before: seq<JobRow>, after: seq<JobRow>,
                        end: RunEnd, visited1: seq<JobRow>, visited2: seq<JobRow>)
  {
    var started := before + Started(visited1, answers1);
    var selected1 := SelectNewJobs(first, included, excluded + RunningPlans(before));
    var selected2 := SelectNewJobs(second, RunningPlans(started), excluded);
    && visited1 <= selected1 && visited2 <= selected2
    && after == started + Started(visited2, answers2)
    && (end == Waiting || end == MoreRows ==> visited1 == selected1 && visited2 == selected2)
    && (end == Waiting ==> |visited1| < 16 && |visited2| < 16)
    && (end == MoreRows ==> |visited1| == 16 || |visited2| == 16)
    && (end == Failed ==> answers1(|visited1|).malformed || answers2(|visited2|).malformed)
  }

  lemma {:induction false} KeptCounts(operators: seq<JobRow>, gone: JobRow -> bool)
    ensures forall plan :: Count(Kept(operators, gone), plan) <= Count(operators, plan)
  {
    if operators != [] {
      var rest := operators[1..];
      KeptCounts(rest, gone);
      assert operators == [operators[0]] + rest;
      forall plan
        ensures Count(Kept(operators, gone), plan) <= Count(operators, plan)
      {
        CountConcat([operators[0]], rest, plan);
        CountConcat([operators[0]], Kept(rest, gone), plan);
      }
    }
  }

  lemma StartKeepsLimits(operators: seq<JobRow>, limits: map<PlanName, nat>, job: JobRow)
    requires WithinLimits(operators, limits) && !IsFullPlan(operators, limits, job.plan)
    ensures WithinLimits(operators + [job], limits)
  {
    forall plan | plan in limits && 0 < limits[plan]
      ensures Count(operators + [job], plan) <= limits[plan]
    {
      CountPush(operators, job, plan);
    }
  }
}
