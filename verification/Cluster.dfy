/**
 The lease protocol: any number of nodes share one `jobs` table and one clock.  A node
 claims a row and runs it in an operator, whose timer is armed together with the lease.
 Row lists may be arbitrarily stale: a claim may be attempted for any id at any time.
 */
module Cluster {
  import opened Common
  import opened JobTable

  /** An operator of job `id`.  `deadline` is its timer; a plan without an explicit timeout arms none. */
  datatype Operator = Operator(node: NodeName, id: nat, timeout: int, deadline: Option<int>)

  /** Operators are numbered in the order they were created, so one node may well have two for one job. */
  datatype Cluster = Cluster(table: Table, clock: int, operators: map<nat, Operator>, created: nat)

  datatype Step =
    | Client(st: Statement)
    | Start(node: NodeName, id: nat, timeout: int, explicit: bool)
    | Progress(op: nat, percent: int)
    | ProgressFails(op: nat)
    | EndFails(op: nat)
    | Exit(op: nat, status: int)
    | TimerFires(op: nat)
    | RunAgain(op: nat, delay: int)
    | ExpireOthers(node: NodeName)
    | Connect(node: NodeName)
    | Crash(node: NodeName)
    | ReapFinished(plan: PlanName, age: int)
    | Tick(to: int)

  const INITIAL := Cluster(EMPTY, 0, map[], 0)

  const ETIMEDOUT := 110

  function Timer(clock: int, timeout: int, explicit: bool): Option<int> {
    if explicit then Some(clock + timeout) else None
  }

  function Do(c: Cluster, st: Statement): Cluster {
    c.(table := Exec(c.table, st, c.clock))
  }

  /** The operator sends its last statement and is gone. */
  function End(c: Cluster, op: nat, st: Statement): Cluster {
    Do(c, st).(operators := c.operators - {op})
  }

  /** The claim of a start finds its row enabled and without a node. */
  predicate TakesEffect(c: Cluster, step: Step)
    requires step.Start?
  {
    Affects(c.table, Claim(step.id, step.node, step.timeout), step.id, c.clock)
  }

  /** What a step does, whether or not the assumptions hold. */
  function Apply(c: Cluster, step: Step): Cluster {
    match step
    case Client(st) => Do(c, st)
    case Start(node, id, timeout, explicit) =>
      if TakesEffect(c, step)
      then Do(c, Claim(id, node, timeout))
           .(operators := c.operators[c.created := Operator(node, id, timeout, Timer(c.clock, timeout, explicit))],
             created := c.created + 1)
      else c
    case Progress(op, percent) =>
      if op !in c.operators then c
      else
        var o := c.operators[op];
        Do(c, SetProgress(o.id, percent, o.timeout))
        .(operators := c.operators[op := o.(deadline := Timer(c.clock, o.timeout, o.deadline.Some?))])
    /* the statement fails, and the timer is armed again all the same */
    case ProgressFails(op) =>
      if op !in c.operators then c
      else
        var o := c.operators[op];
        c.(operators := c.operators[op := o.(deadline := Timer(c.clock, o.timeout, o.deadline.Some?))])
    /* the operator ends, and its last statement fails */
    case EndFails(op) => c.(operators := c.operators - {op})
    case Exit(op, status) => if op !in c.operators then c else End(c, op, SetDone(c.operators[op].id, status))
    case TimerFires(op) => if op !in c.operators then c else End(c, op, SetDone(c.operators[op].id, -ETIMEDOUT))
    case RunAgain(op, delay) =>
      if op !in c.operators then c
      else
        var id := c.operators[op].id;
        End(c, op, if 0 < delay then Again(id, delay) else Rollback(id))
    case ExpireOthers(node) => Do(c, Expire(node))
    case Connect(node) => Do(c, Release(node))
    case Crash(node) => c.(operators := map op | op in c.operators && c.operators[op].node != node :: c.operators[op])
    case ReapFinished(plan, age) => Do(c, Reap(plan, age))
    case Tick(to) => c.(clock := to)
  }

  /** What can happen at all: events come from existing operators, and timers do not fire early. */
  predicate Enabled(c: Cluster, step: Step) {
    match step
    case Client(st) => st.Insert? || st.Edit?
    case Start(_, _, timeout, _) => 0 < timeout
    case Progress(op, _) => op in c.operators
    case ProgressFails(op) => op in c.operators
    case EndFails(op) => op in c.operators
    case Exit(op, _) => op in c.operators
    case TimerFires(op) =>
      op in c.operators && c.operators[op].deadline.Some? && c.operators[op].deadline.value <= c.clock
    case RunAgain(op, _) => op in c.operators
    case Tick(to) => c.clock <= to
    case _ => true
  }

  /**
   The operating assumptions: jobs run with explicit plan timeouts, no node reconnects while
   its operators run, no progress statement fails unless the timer has been armed at that
   very time already, and timers are punctual: the clock passes no deadline before it fires.
   */
  predicate Assumed(c: Cluster, step: Step) {
    match step
    case Start(_, _, _, explicit) => explicit || !TakesEffect(c, step)
    case Connect(node) => forall op | op in c.operators :: c.operators[op].node != node
    case ProgressFails(op) =>
      op in c.operators && c.operators[op].deadline.Some? ==>
        c.clock + c.operators[op].timeout <= c.operators[op].deadline.value
    case Tick(to) =>
      forall op | op in c.operators && c.operators[op].deadline.Some? :: to <= c.operators[op].deadline.value
    case _ => true
  }

  function After(steps: seq<Step>): Cluster {
    if steps == [] then INITIAL else Apply(After(steps[..|steps| - 1]), steps[|steps| - 1])
  }

  /** Every step was possible when it was taken. */
  predicate IsRun(steps: seq<Step>) {
    steps == [] ||
    (IsRun(steps[..|steps| - 1]) && Enabled(After(steps[..|steps| - 1]), steps[|steps| - 1]))
  }

  /** Every step from the k-th on satisfied the assumptions. */
  predicate AssumedFrom(k: nat, steps: seq<Step>) {
    |steps| <= k ||
    (AssumedFrom(k, steps[..|steps| - 1]) && Assumed(After(steps[..|steps| - 1]), steps[|steps| - 1]))
  }

  predicate IsAssumedRun(steps: seq<Step>) {
    IsRun(steps) && AssumedFrom(0, steps)
  }

  // ---------------------------------------------------------- lease safety

  /** The row of an operator: held by its node, unfinished, with a lease that ends when the timer fires. */
  predicate HoldsLease(c: Cluster, op: nat)
    requires op in c.operators
  {
    var o := c.operators[op];
    && o.id in c.table.rows
    && c.table.rows[o.id].node == Some(o.node)
    && c.table.rows[o.id].Unfinished()
    && 0 < o.timeout && o.deadline.Some?
    && c.table.rows[o.id].nodeTimeout == o.deadline
    && c.clock <= o.deadline.value <= c.clock + o.timeout
  }

  ghost predicate OneOperatorPerJob(c: Cluster) {
    forall p, q | p in c.operators && q in c.operators && c.operators[p].id == c.operators[q].id :: p == q
  }

  ghost predicate Safe(c: Cluster) {
    && (forall op | op in c.operators :: op < c.created && HoldsLease(c, op))
    && OneOperatorPerJob(c)
    && (forall id | id in c.table.rows :: RowOk(c.table, id))
  }

  predicate RowOk(t: Table, id: nat)
    requires id in t.rows
  {
    && id < t.nextId
    && (t.rows[id].timeDone.Some? <==> t.rows[id].exitStatus.Some?)
    && (t.rows[id].timeDone.Some? ==> t.rows[id].node.Some?)
  }

  /** A job that can be claimed has no operator, on this node or any other. */
  lemma ClaimableHasNoOperator(c: Cluster, step: Step)
    requires Safe(c) && step.Start? && TakesEffect(c, step)
    ensures forall op | op in c.operators :: c.operators[op].id != step.id
  {
    assert forall op | op in c.operators :: HoldsLease(c, op);
  }

  /** A statement which does not select the row of an operator leaves its lease alone. */
  lemma StatementKeepsLease(c: Cluster, st: Statement, op: nat)
    requires Safe(c) && op in c.operators
    requires st.Insert? || st.Edit? || !Affects(c.table, st, c.operators[op].id, c.clock)
    ensures HoldsLease(Do(c, st), op)
  {
    assert HoldsLease(c, op) && RowOk(c.table, c.operators[op].id);
    RowAfter(c.table, st, c.clock, c.operators[op].id);
  }

  /** ... and so does the end of another operator. */
  lemma EndKeepsLease(c: Cluster, gone: nat, st: Statement, op: nat)
    requires Safe(c) && gone in c.operators && op in c.operators && op != gone
    requires (st.SetDone? || st.Again? || st.Rollback?) && st.id == c.operators[gone].id
    ensures HoldsLease(End(c, gone, st), op)
  {
    StatementKeepsLease(c, st, op);
  }

  lemma StartKeepsLease(c: Cluster, step: Step, op: nat)
    requires Safe(c) && Enabled(c, step) && Assumed(c, step) && step.Start? && TakesEffect(c, step)
    requires op in Apply(c, step).operators
    ensures op < Apply(c, step).created && HoldsLease(Apply(c, step), op)
  {
    RowAfter(c.table, Claim(step.id, step.node, step.timeout), c.clock, step.id);
    assert RowOk(c.table, step.id);
    if op != c.created {
      ClaimableHasNoOperator(c, step);
      StatementKeepsLease(c, Claim(step.id, step.node, step.timeout), op);
    }
  }

  lemma ProgressKeepsLease(c: Cluster, step: Step, op: nat)
    requires Safe(c) && step.Progress? && step.op in c.operators && op in c.operators
    ensures HoldsLease(Apply(c, step), op)
  {
    var o := c.operators[step.op];
    var st := SetProgress(o.id, step.percent, o.timeout);
    assert HoldsLease(c, step.op);
    if op == step.op {
      RowAfter(c.table, st, c.clock, o.id);
    } else {
      StatementKeepsLease(c, st, op);
    }
  }

  lemma StepKeepsLease(c: Cluster, step: Step, op: nat)
    requires Safe(c) && Enabled(c, step) && Assumed(c, step)
    requires op in Apply(c, step).operators
    ensures op < Apply(c, step).created && HoldsLease(Apply(c, step), op)
  {
    if op in c.operators {
      assert HoldsLease(c, op);
    }
    match step {
      case Client(st) => StatementKeepsLease(c, st, op);
      case Start(_, _, _, _) =>
        if TakesEffect(c, step) {
          StartKeepsLease(c, step, op);
        }
      case Progress(_, _) => ProgressKeepsLease(c, step, op);
      case ProgressFails(o) => assert HoldsLease(c, o);
      case Exit(gone, status) => EndKeepsLease(c, gone, SetDone(c.operators[gone].id, status), op);
      case TimerFires(gone) => EndKeepsLease(c, gone, SetDone(c.operators[gone].id, -ETIMEDOUT), op);
      case RunAgain(gone, delay) =>
        EndKeepsLease(c, gone, if 0 < delay then Again(c.operators[gone].id, delay) else Rollback(c.operators[gone].id), op);
      case ExpireOthers(node) => StatementKeepsLease(c, Expire(node), op);
      case Connect(node) => StatementKeepsLease(c, Release(node), op);
      case ReapFinished(plan, age) => StatementKeepsLease(c, Reap(plan, age), op);
      case _ =>
    }
  }

  lemma StepKeepsOneOperator(c: Cluster, step: Step)
    requires Safe(c)
    ensures OneOperatorPerJob(Apply(c, step))
  {
    if step.Start? && TakesEffect(c, step) {
      ClaimableHasNoOperator(c, step);
    }
  }

  lemma StatementKeepsRow(t: Table, st: Statement, now: int, id: nat)
    requires id in t.rows ==> RowOk(t, id)
    requires st.SetDone? && st.id == id && id in t.rows ==> t.rows[id].node.Some?
    ensures id in Exec(t, st, now).rows ==> RowOk(Exec(t, st, now), id)
  {
    RowAfter(t, st, now, id);
  }

  lemma StepKeepsRow(c: Cluster, step: Step, id: nat)
    requires Safe(c) && Enabled(c, step)
    requires id in Apply(c, step).table.rows
    ensures RowOk(Apply(c, step).table, id)
  {
    assert id in c.table.rows ==> RowOk(c.table, id);
    match step {
      case Client(st) => StatementKeepsRow(c.table, st, c.clock, id);
      case Start(n, i, timeout, _) => StatementKeepsRow(c.table, Claim(i, n, timeout), c.clock, id);
      case Progress(op, percent) =>
        StatementKeepsRow(c.table, SetProgress(c.operators[op].id, percent, c.operators[op].timeout), c.clock, id);
      case Exit(op, status) =>
        assert HoldsLease(c, op);
        StatementKeepsRow(c.table, SetDone(c.operators[op].id, status), c.clock, id);
      case TimerFires(op) =>
        assert HoldsLease(c, op);
        StatementKeepsRow(c.table, SetDone(c.operators[op].id, -ETIMEDOUT), c.clock, id);
      case RunAgain(op, delay) =>
        var i := c.operators[op].id;
        StatementKeepsRow(c.table, if 0 < delay then Again(i, delay) else Rollback(i), c.clock, id);
      case ExpireOthers(n) => StatementKeepsRow(c.table, Expire(n), c.clock, id);
      case Connect(n) => StatementKeepsRow(c.table, Release(n), c.clock, id);
      case ReapFinished(plan, age) => StatementKeepsRow(c.table, Reap(plan, age), c.clock, id);
      case _ =>
    }
  }

  lemma StepKeepsSafe(c: Cluster, step: Step)
    requires Safe(c) && Enabled(c, step) && Assumed(c, step)
    ensures Safe(Apply(c, step))
  {
    var d := Apply(c, step);
    forall op | op in d.operators
      ensures op < d.created && HoldsLease(d, op)
    {
      StepKeepsLease(c, step, op);
    }
    StepKeepsOneOperator(c, step);
    forall id | id in d.table.rows
      ensures RowOk(d.table, id)
    {
      StepKeepsRow(c, step, id);
    }
  }

  /** In every run under the assumptions each operator holds its lease ... */
  lemma {:induction false} LeaseSafety(steps: seq<Step>)
    requires IsAssumedRun(steps)
    ensures Safe(After(steps))
  {
    if steps != [] {
      LeaseSafety(steps[..|steps| - 1]);
      StepKeepsSafe(After(steps[..|steps| - 1]), steps[|steps| - 1]);
    }
  }

  /** ... so no job ever has two operators, and none is claimed while it has one. */
  lemma AtMostOneOperator(steps: seq<Step>, p: nat, q: nat)
    requires IsAssumedRun(steps)
    requires p in After(steps).operators && q in After(steps).operators
    ensures After(steps).operators[p].id == After(steps).operators[q].id ==> p == q
    ensures forall node, timeout :: !Affects(After(steps).table, Claim(After(steps).operators[p].id, node, timeout),
                                             After(steps).operators[p].id, After(steps).clock)
  {
    LeaseSafety(steps);
    assert HoldsLease(After(steps), p);
  }

  // ------------------------------------------------------------ completion

  /** A finished row and what it recorded; a reaped one stays away. */
  predicate FinishedAs(t: Table, id: nat, node: NodeName, timeDone: int, status: int) {
    && id < t.nextId
    && (id in t.rows ==>
          && t.rows[id].node == Some(node) && t.rows[id].timeDone == Some(timeDone) && t.rows[id].exitStatus == Some(status))
  }

  /** Nothing but a completion by its own operator rewrites a finished row, and a claim of it takes no effect. */
  lemma StatementKeepsFinished(t: Table, st: Statement, now: int, id: nat, node: NodeName, timeDone: int, status: int)
    requires FinishedAs(t, id, node, timeDone, status) && (st.SetDone? ==> st.id != id)
    ensures FinishedAs(Exec(t, st, now), id, node, timeDone, status)
    ensures st.Claim? ==> !Affects(t, st, id, now)
  {
    RowAfter(t, st, now, id);
  }

  lemma StepKeepsFinished(c: Cluster, step: Step, id: nat, node: NodeName, timeDone: int, status: int)
    requires Safe(c) && Enabled(c, step) && FinishedAs(c.table, id, node, timeDone, status)
    ensures FinishedAs(Apply(c, step).table, id, node, timeDone, status)
  {
    match step {
      case Client(st) => StatementKeepsFinished(c.table, st, c.clock, id, node, timeDone, status);
      case Start(n, i, timeout, _) => StatementKeepsFinished(c.table, Claim(i, n, timeout), c.clock, id, node, timeDone, status);
      case Progress(op, percent) =>
        var o := c.operators[op];
        StatementKeepsFinished(c.table, SetProgress(o.id, percent, o.timeout), c.clock, id, node, timeDone, status);
      case Exit(op, exit) =>
        assert HoldsLease(c, op);
        StatementKeepsFinished(c.table, SetDone(c.operators[op].id, exit), c.clock, id, node, timeDone, status);
      case TimerFires(op) =>
        assert HoldsLease(c, op);
        StatementKeepsFinished(c.table, SetDone(c.operators[op].id, -ETIMEDOUT), c.clock, id, node, timeDone, status);
      case RunAgain(op, delay) =>
        var st := if 0 < delay then Again(c.operators[op].id, delay) else Rollback(c.operators[op].id);
        StatementKeepsFinished(c.table, st, c.clock, id, node, timeDone, status);
      case ExpireOthers(n) => StatementKeepsFinished(c.table, Expire(n), c.clock, id, node, timeDone, status);
      case Connect(n) => StatementKeepsFinished(c.table, Release(n), c.clock, id, node, timeDone, status);
      case ReapFinished(plan, age) => StatementKeepsFinished(c.table, Reap(plan, age), c.clock, id, node, timeDone, status);
      case _ =>
    }
  }

  /**
   A finished job is never claimed again, although `claim_job` does not test `time_done`:
   its node, completion time and status stay as they are until it is reaped, and no later
   start of it takes effect.
   */
  lemma {:induction false} FinishedIsNeverClaimed(before: seq<Step>, later: seq<Step>, id: nat)
    requires IsAssumedRun(before + later)
    requires id in After(before).table.rows && After(before).table.rows[id].Finished()
    ensures After(before).table.rows[id].node.Some?
    ensures var job := After(before).table.rows[id];
            && FinishedAs(After(before + later).table, id, job.node.value, job.timeDone.value, job.exitStatus.value)
            && (forall op | op in After(before + later).operators :: After(before + later).operators[op].id != id)
            && (forall node, timeout, explicit :: !TakesEffect(After(before + later), Start(node, id, timeout, explicit)))
    decreases |later|
  {
    LeaseSafety(before + later);
    if later == [] {
      assert before + later == before;
    } else {
      var all, most := before + later, before + later[..|later| - 1];
      assert all[..|all| - 1] == most;
      FinishedIsNeverClaimed(before, later[..|later| - 1], id);
      LeaseSafety(most);
      var job := After(before).table.rows[id];
      StepKeepsFinished(After(most), all[|all| - 1], id, job.node.value, job.timeDone.value, job.exitStatus.value);
    }
    var c := After(before + later);
    assert forall op | op in c.operators && c.operators[op].id == id :: HoldsLease(c, op);
  }

  // ------------------------------------------- the assumptions are necessary

  lemma Then(k: nat, steps: seq<Step>, step: Step)
    requires IsRun(steps) && Enabled(After(steps), step)
    ensures IsRun(steps + [step]) && After(steps + [step]) == Apply(After(steps), step)
    ensures AssumedFrom(k, steps) && Assumed(After(steps), step) ==> AssumedFrom(k, steps + [step])
    ensures |steps| < k ==> AssumedFrom(k, steps + [step])
  {
    assert (steps + [step])[..|steps + [step]| - 1] == steps;
  }

  /** `all` goes on from `steps` under the assumptions. */
  predicate GoesOn(steps: seq<Step>, all: seq<Step>) {
    steps <= all && IsRun(all) && AssumedFrom(|steps|, all)
  }

  lemma GoOn(steps: seq<Step>, all: seq<Step>, step: Step)
    requires GoesOn(steps, all) && Enabled(After(all), step) && Assumed(After(all), step)
    ensures GoesOn(steps, all + [step]) && After(all + [step]) == Apply(After(all), step)
  {
    Then(|steps|, all, step);
  }

  /** The operator runs, and its row has a lease. */
  predicate RunsAlone(c: Cluster, op: nat) {
    && op in c.operators
    && var o := c.operators[op];
       && o.id in c.table.rows
       && c.table.rows[o.id].node == Some(o.node)
       && c.table.rows[o.id].Unfinished()
       && c.table.rows[o.id].nodeTimeout.Some?
       && forall q | q in c.operators && c.operators[q].id == o.id :: q == op
  }

  /** When the lease of its row ends. */
  function LeaseOf(c: Cluster, op: nat): int
    requires RunsAlone(c, op)
  {
    c.table.rows[c.operators[op].id].nodeTimeout.value
  }

  /** No timer ends the operator before its lease is over. */
  predicate Outlives(c: Cluster, op: nat)
    requires RunsAlone(c, op)
  {
    c.operators[op].deadline.None? || LeaseOf(c, op) < c.operators[op].deadline.value
  }

  /** The operator runs, and its row was taken away from it. */
  predicate LeaseLost(c: Cluster, op: nat) {
    && op in c.operators
    && c.operators[op].id in c.table.rows
    && c.table.rows[c.operators[op].id].node.None?
    && c.table.rows[c.operators[op].id].Unfinished()
  }

  lemma ExitOther(c: Cluster, op: nat, other: nat)
    requires RunsAlone(c, op) && other in c.operators && other != op
    ensures var d := Apply(c, Exit(other, 0));
            && RunsAlone(d, op) && d.operators[op] == c.operators[op] && |d.operators| < |c.operators|
            && LeaseOf(d, op) == LeaseOf(c, op)
  {
    assert c.operators.Keys == (c.operators - {other}).Keys + {other};
  }

  /** All other operators may exit, which leaves their deadlines out of the way. */
  lemma {:induction false} OthersExit(steps: seq<Step>, all: seq<Step>, op: nat, n: nat) returns (more: seq<Step>)
    requires GoesOn(steps, all) && RunsAlone(After(all), op) && |After(all).operators| <= n
    ensures GoesOn(steps, more) && RunsAlone(After(more), op)
    ensures After(more).operators == map[op := After(all).operators[op]] && LeaseOf(After(more), op) == LeaseOf(After(all), op)
    ensures After(more).clock == After(all).clock
    decreases n
  {
    var c := After(all);
    if c.operators == map[op := c.operators[op]] {
      more := all;
    } else {
      var exit := ExitOf(c.operators, op);
      ExitOther(c, op, exit.op);
      GoOn(steps, all, exit);
      more := OthersExit(steps, all + [exit], op, n - 1);
    }
  }

  lemma ExitOf(operators: map<nat, Operator>, op: nat) returns (exit: Step)
    requires op in operators && operators != map[op := operators[op]]
    ensures exit.Exit? && exit.op in operators && exit.op != op && exit.status == 0
  {
    var other :| other in operators && other != op;
    exit := Exit(other, 0);
  }

  function OtherThan(node: NodeName): (other: NodeName)
    ensures other != node
  {
    node + "'"
  }

  /** A lease which is over can be taken away from its operator. */
  lemma LateLeaseIsLost(c: Cluster, op: nat)
    requires RunsAlone(c, op) && LeaseOf(c, op) < c.clock
    ensures LeaseLost(Apply(c, ExpireOthers(OtherThan(c.operators[op].node))), op)
  {
    RowAfter(c.table, Expire(OtherThan(c.operators[op].node)), c.clock, c.operators[op].id);
  }

  lemma TakeLateLease(steps: seq<Step>, all: seq<Step>, op: nat) returns (more: seq<Step>)
    requires GoesOn(steps, all) && RunsAlone(After(all), op) && LeaseOf(After(all), op) < After(all).clock
    ensures GoesOn(steps, more) && LeaseLost(After(more), op)
  {
    var expire := ExpireOthers(OtherThan(After(all).operators[op].node));
    LateLeaseIsLost(After(all), op);
    GoOn(steps, all, expire);
    more := all + [expire];
  }

  /** Without a timer, or with one that fires after the lease is over, the lease runs out under a live operator. */
  lemma LeaseRunsOut(steps: seq<Step>, op: nat) returns (all: seq<Step>)
    requires IsRun(steps) && RunsAlone(After(steps), op) && Outlives(After(steps), op)
    ensures GoesOn(steps, all) && LeaseLost(After(all), op)
  {
    all := OthersExit(steps, steps, op, |After(steps).operators|);
    var c := After(all);
    if c.clock <= LeaseOf(c, op) {
      GoOn(steps, all, Tick(LeaseOf(c, op) + 1));
      all := all + [Tick(LeaseOf(c, op) + 1)];
    }
    all := TakeLateLease(steps, all, op);
  }

  lemma SafeRunsAlone(c: Cluster, op: nat)
    requires Safe(c) && op in c.operators
    ensures RunsAlone(c, op) && Some(LeaseOf(c, op)) == c.operators[op].deadline
  {
    assert HoldsLease(c, op);
  }

  lemma ReconnectLosesLease(c: Cluster, op: nat)
    requires Safe(c) && op in c.operators
    ensures LeaseLost(Apply(c, Connect(c.operators[op].node)), op)
  {
    assert HoldsLease(c, op);
    RowAfter(c.table, Release(c.operators[op].node), c.clock, c.operators[op].id);
  }

  /** A start without explicit timeout leaves an operator without timer. */
  lemma ImplicitStart(c: Cluster, step: Step)
    requires Safe(c) && step.Start? && TakesEffect(c, step) && !step.explicit
    ensures RunsAlone(Apply(c, step), c.created) && Outlives(Apply(c, step), c.created)
  {
    ClaimableHasNoOperator(c, step);
    assert RowOk(c.table, step.id);
    RowAfter(c.table, Claim(step.id, step.node, step.timeout), c.clock, step.id);
  }

  /** A step that breaks an assumption leads, under the assumptions, to an operator without its lease. */
  lemma BrokenAssumption(steps: seq<Step>, step: Step) returns (all: seq<Step>, op: nat)
    requires IsAssumedRun(steps) && Enabled(After(steps), step) && !Assumed(After(steps), step)
    ensures GoesOn(steps + [step], all) && LeaseLost(After(all), op)
  {
    var c := After(steps);
    LeaseSafety(steps);
    Then(|steps| + 1, steps, step);
    all := steps + [step];
    match step {
      case Connect(node) =>
        op :| op in c.operators && c.operators[op].node == node;
        ReconnectLosesLease(c, op);
      case Start(_, _, _, _) =>
        op := c.created;
        ImplicitStart(c, step);
        all := LeaseRunsOut(all, op);
      case ProgressFails(o) =>
        op := o;
        SafeRunsAlone(c, op);
        all := LeaseRunsOut(all, op);
      case Tick(to) =>
        op :| op in c.operators && c.operators[op].deadline.Some? && c.operators[op].deadline.value < to;
        SafeRunsAlone(c, op);
        all := TakeLateLease(all, all, op);
    }
  }

  lemma {:induction false} NumberedBelowCreated(steps: seq<Step>, op: nat)
    requires op in After(steps).operators
    ensures op < After(steps).created
  {
    if steps != [] && op in After(steps[..|steps| - 1]).operators {
      NumberedBelowCreated(steps[..|steps| - 1], op);
    }
  }

  /** Another operator of the same job, on any node. */
  lemma StartAnother(steps: seq<Step>, all: seq<Step>, id: nat, node: NodeName) returns (more: seq<Step>)
    requires GoesOn(steps, all) && id in After(all).table.rows && After(all).table.rows[id].node.None?
    ensures GoesOn(steps, more)
    ensures var c := After(all);
            After(more).operators == c.operators[c.created := Operator(node, id, 1, Some(c.clock + 1))]
  {
    var enable := Client(Edit(id, true, None));
    GoOn(steps, all, enable);
    RowAfter(After(all).table, enable.st, After(all).clock, id);
    GoOn(steps, all + [enable], Start(node, id, 1, true));
    more := all + [enable] + [Start(node, id, 1, true)];
  }

  /** Whatever breaks an assumption lets the job run twice at once, and the second operator may be on any node ... */
  lemma RunsTwice(steps: seq<Step>, step: Step, node: NodeName) returns (all: seq<Step>, p: nat, q: nat)
    requires IsAssumedRun(steps) && Enabled(After(steps), step) && !Assumed(After(steps), step)
    ensures GoesOn(steps + [step], all)
    ensures p in After(all).operators && q in After(all).operators && p != q
    ensures After(all).operators[p].id == After(all).operators[q].id && After(all).operators[q].node == node
  {
    all, p := BrokenAssumption(steps, step);
    q := After(all).created;
    NumberedBelowCreated(all, p);
    all := StartAnother(steps + [step], all, After(all).operators[p].id, node);
  }

  /** ... or lets it be claimed after it has finished. */
  lemma FinishedIsClaimed(steps: seq<Step>, step: Step, node: NodeName) returns (all: seq<Step>, start: Step)
    requires IsAssumedRun(steps) && Enabled(After(steps), step) && !Assumed(After(steps), step)
    ensures GoesOn(steps + [step], all) && start.Start? && start.node == node && TakesEffect(After(all), start)
    ensures After(all).table.rows[start.id].Finished()
  {
    var op;
    all, op := BrokenAssumption(steps, step);
    var c := After(all);
    var id := c.operators[op].id;
    GoOn(steps + [step], all, Exit(op, 0));
    RowAfter(c.table, SetDone(id, 0), c.clock, id);
    all := all + [Exit(op, 0)];
    GoOn(steps + [step], all, Client(Edit(id, true, None)));
    RowAfter(After(all).table, Edit(id, true, None), c.clock, id);
    all := all + [Client(Edit(id, true, None))];
    start := Start(node, id, 1, true);
  }

  lemma {:induction false} AssumedThroughout(steps: seq<Step>, all: seq<Step>)
    requires GoesOn(steps, all) && AssumedFrom(0, steps)
    ensures IsAssumedRun(all)
    decreases |all|
  {
    if |all| == |steps| {
      assert all == steps;
    } else {
      assert steps <= all[..|all| - 1];
      AssumedThroughout(steps, all[..|all| - 1]);
    }
  }

  /** No continuation under the assumptions runs a job twice at once. */
  ghost predicate NeverTwice(steps: seq<Step>) {
    forall all | GoesOn(steps, all) :: OneOperatorPerJob(After(all))
  }

  ghost predicate ClaimsOnlyUnfinished(c: Cluster) {
    forall start: Step | start.Start? && TakesEffect(c, start) :: c.table.rows[start.id].Unfinished()
  }

  /** No continuation under the assumptions claims a finished job. */
  ghost predicate NeverAfterFinish(steps: seq<Step>) {
    forall all | GoesOn(steps, all) :: ClaimsOnlyUnfinished(After(all))
  }

  lemma AssumptionsSuffice(steps: seq<Step>)
    requires IsAssumedRun(steps)
    ensures NeverTwice(steps) && NeverAfterFinish(steps)
  {
    forall all | GoesOn(steps, all)
      ensures OneOperatorPerJob(After(all)) && ClaimsOnlyUnfinished(After(all))
    {
      AssumedThroughout(steps, all);
      LeaseSafety(all);
      assert forall id | id in After(all).table.rows :: RowOk(After(all).table, id);
    }
  }

  /**
   The assumptions are exact.  After any run that satisfied them, the next step satisfies
   them if and only if no continuation that does so too runs a job twice at once, and if and
   only if no such continuation claims a finished job.
   */
  lemma AssumptionsAreExact(steps: seq<Step>, step: Step)
    requires IsAssumedRun(steps) && Enabled(After(steps), step)
    ensures Assumed(After(steps), step) <==> NeverTwice(steps + [step])
    ensures Assumed(After(steps), step) <==> NeverAfterFinish(steps + [step])
  {
    if Assumed(After(steps), step) {
      Then(0, steps, step);
      AssumptionsSuffice(steps + [step]);
    } else {
      var all, p, q := RunsTwice(steps, step, "");
      var finished, start := FinishedIsClaimed(steps, step, "");
      assert !ClaimsOnlyUnfinished(After(finished));
    }
  }

  /** A job whose plan has no explicit timeout can run on any second node, whenever it is started. */
  lemma TwoOperatorsWithoutTimeout(steps: seq<Step>, start: Step, node: NodeName) returns (all: seq<Step>, p: nat, q: nat)
    requires IsAssumedRun(steps) && start.Start? && 0 < start.timeout && !start.explicit && TakesEffect(After(steps), start)
    ensures GoesOn(steps + [start], all)
    ensures p in After(all).operators && q in After(all).operators && p != q
    ensures After(all).operators[p].id == After(all).operators[q].id && After(all).operators[q].node == node
  {
    all, p, q := RunsTwice(steps, start, node);
  }

  /** A reconnect under any operator lets its job run twice, also twice on the same node. */
  lemma TwoOperatorsAfterReconnect(steps: seq<Step>, op: nat, node: NodeName) returns (all: seq<Step>, p: nat, q: nat)
    requires IsAssumedRun(steps) && op in After(steps).operators
    ensures GoesOn(steps + [Connect(After(steps).operators[op].node)], all)
    ensures p in After(all).operators && q in After(all).operators && p != q
    ensures After(all).operators[p].id == After(all).operators[q].id && After(all).operators[q].node == node
  {
    all, p, q := RunsTwice(steps, Connect(After(steps).operators[op].node), node);
  }

  /** So does a progress statement that fails after the timer was last armed, although the timeout is explicit. */
  lemma TwoOperatorsAfterFailedProgress(steps: seq<Step>, op: nat, node: NodeName) returns (all: seq<Step>, p: nat, q: nat)
    requires IsAssumedRun(steps) && op in After(steps).operators
    requires After(steps).operators[op].deadline != Some(After(steps).clock + After(steps).operators[op].timeout)
    ensures GoesOn(steps + [ProgressFails(op)], all)
    ensures p in After(all).operators && q in After(all).operators && p != q
    ensures After(all).operators[p].id == After(all).operators[q].id && After(all).operators[q].node == node
  {
    LeaseSafety(steps);
    assert HoldsLease(After(steps), op);
    all, p, q := RunsTwice(steps, ProgressFails(op), node);
  }

  /** And a timer that fires late. */
  lemma TwoOperatorsAfterLateTimer(steps: seq<Step>, op: nat, late: int, node: NodeName) returns (all: seq<Step>, p: nat, q: nat)
    requires IsAssumedRun(steps) && op in After(steps).operators
    requires After(steps).clock + After(steps).operators[op].timeout < late
    ensures GoesOn(steps + [Tick(late)], all)
    ensures p in After(all).operators && q in After(all).operators && p != q
    ensures After(all).operators[p].id == After(all).operators[q].id && After(all).operators[q].node == node
  {
    LeaseSafety(steps);
    assert HoldsLease(After(steps), op);
    all, p, q := RunsTwice(steps, Tick(late), node);
  }

  /** No job is lost with its node: when the node is back, its unfinished jobs can be claimed again and only its own operators are gone. */
  lemma CrashedJobsAreFreed(steps: seq<Step>, node: NodeName)
    requires IsAssumedRun(steps)
    ensures var before, all := After(steps), steps + [Crash(node)] + [Connect(node)];
            && IsAssumedRun(all)
            && (forall op :: op in After(all).operators <==> op in before.operators && before.operators[op].node != node)
            && (forall op | op in After(all).operators :: After(all).operators[op] == before.operators[op])
            && After(all).table.rows.Keys == before.table.rows.Keys
            && (forall id | id in before.table.rows && before.table.rows[id].node == Some(node) ::
                  if before.table.rows[id].timeDone.Some? then After(all).table.rows[id] == before.table.rows[id]
                  else After(all).table.rows[id].node.None?)
  {
    LeaseSafety(steps);
    Then(0, steps, Crash(node));
    Then(0, steps + [Crash(node)], Connect(node));
    assert forall id | id in After(steps).table.rows :: RowOk(After(steps).table, id);
  }

  /** Such runs exist: a new job of any plan is claimed by any node. */
  lemma NewJobIsStarted(plan: PlanName, node: NodeName, timeout: int) returns (steps: seq<Step>)
    requires 0 < timeout
    ensures IsAssumedRun(steps) && After(steps).operators == map[0 := Operator(node, 0, timeout, Some(timeout))]
    ensures After(steps).table.rows == map[0 := Job(plan, true, None, Some(node), Some(timeout), 0, Some(0), None, None)]
  {
    var insert, start := Client(Insert(plan, true, None)), Start(node, 0, timeout, true);
    Then(0, [], insert);
    Then(0, [] + [insert], start);
    steps := [] + [insert] + [start];
  }
}
