/**
 Running cron jobs: any number of nodes claim the row of the table protocol and run its job.
 A claim lasts five minutes and is never renewed.
 */
module CronCluster {
  import opened Common
  import opened Schedule
  import CronTable

  type NodeName = CronTable.NodeName

  /** A job being run; its claim is over at `until`. */
  datatype Run = Run(node: NodeName, until: int)

  /** Runs are numbered in the order they were started. */
  datatype Cluster = Cluster(cron: CronTable.Cron, runs: map<nat, Run>, created: nat)

  datatype Step =
    /* a scheduler reads, rolls or writes, or a client enables or disables the job */
    | Client(step: CronTable.Step)
    | Start(node: NodeName)
    | StartThrows(node: NodeName)
    | End(run: nat)
    /* the job ends, and `finish_job` fails */
    | EndFails(run: nat)
    | Connect(node: NodeName)
    | Crash(node: NodeName)
    | ExpireOthers(node: NodeName)
    | Tick(to: int)

  predicate IsClientStep(step: CronTable.Step) {
    step.Read? || step.Roll? || step.Write? || step.SetEnabled?
  }

  /** The statement a step sends, as a step of the table protocol; one without a statement changes nothing. */
  function TableStep(c: Cluster, step: Step): CronTable.Step {
    match step
    case Client(st) => st
    case Start(node) => CronTable.Claim(node)
    case StartThrows(node) => CronTable.Claim(node)
    case End(run) => if run in c.runs then CronTable.Finish(c.runs[run].node) else CronTable.SetEnabled(c.cron.row.enabled)
    case Connect(node) => CronTable.ReleaseStale(node)
    case ExpireOthers(node) => CronTable.Expire(node)
    case Tick(to) => CronTable.Tick(to)
    case _ => CronTable.SetEnabled(c.cron.row.enabled)
  }

  predicate TakesEffect(c: Cluster, step: Step) {
    step.Start? && CronTable.ClaimTakesEffect(c.cron.row)
  }

  function Apply(c: Cluster, s: CronSchedule, step: Step): Cluster {
    var d := c.(cron := CronTable.Apply(c.cron, s, TableStep(c, step)));
    match step
    case Start(node) =>
      if TakesEffect(c, step)
      then d.(runs := c.runs[c.created := Run(node, c.cron.clock + CronTable.CLAIM_TIMEOUT)], created := c.created + 1)
      else d
    case End(run) => d.(runs := c.runs - {run})
    case EndFails(run) => d.(runs := c.runs - {run})
    case Crash(node) => d.(runs := map run | run in c.runs && c.runs[run].node != node :: c.runs[run])
    case _ => d
  }

  ghost predicate Enabled(c: Cluster, s: CronSchedule, step: Step) {
    match step
    case Client(st) => IsClientStep(st) && CronTable.Enabled(c.cron, s, st)
    case End(run) => run in c.runs
    case EndFails(run) => run in c.runs
    case Tick(to) => c.cron.clock <= to
    case _ => true
  }

  /** The operating assumptions: every run ends within its claim, and no node reconnects under a run of its own. */
  predicate Assumed(c: Cluster, step: Step) {
    match step
    case Connect(node) => forall run | run in c.runs :: c.runs[run].node != node
    case Tick(to) => forall run | run in c.runs :: to <= c.runs[run].until
    case _ => true
  }

  function After(c: Cluster, s: CronSchedule, steps: seq<Step>): Cluster {
    if steps == [] then c else Apply(After(c, s, steps[..|steps| - 1]), s, steps[|steps| - 1])
  }

  ghost predicate IsRun(c: Cluster, s: CronSchedule, steps: seq<Step>) {
    steps == [] ||
    (IsRun(c, s, steps[..|steps| - 1]) && Enabled(After(c, s, steps[..|steps| - 1]), s, steps[|steps| - 1]))
  }

  /** Every step from the k-th on satisfied the assumptions. */
  predicate AssumedFrom(c: Cluster, s: CronSchedule, k: nat, steps: seq<Step>) {
    |steps| <= k ||
    (AssumedFrom(c, s, k, steps[..|steps| - 1]) && Assumed(After(c, s, steps[..|steps| - 1]), steps[|steps| - 1]))
  }

  ghost predicate IsAssumedRun(c: Cluster, s: CronSchedule, steps: seq<Step>) {
    IsRun(c, s, steps) && AssumedFrom(c, s, 0, steps)
  }

  // ------------------------------------------------------------ refinement

  function TableSteps(c: Cluster, s: CronSchedule, steps: seq<Step>): seq<CronTable.Step> {
    if steps == [] then []
    else
      TableSteps(c, s, steps[..|steps| - 1]) + [TableStep(After(c, s, steps[..|steps| - 1]), steps[|steps| - 1])]
  }

  lemma StepRefinesTheTable(c: Cluster, s: CronSchedule, step: Step)
    requires Enabled(c, s, step)
    ensures CronTable.Enabled(c.cron, s, TableStep(c, step))
    ensures Apply(c, s, step).cron == CronTable.Apply(c.cron, s, TableStep(c, step))
  {
  }

  /** The row goes through a run of the table protocol, so what is proved about that protocol holds here. */
  lemma {:induction false} RefinesTheTable(c: Cluster, s: CronSchedule, steps: seq<Step>)
    requires IsRun(c, s, steps)
    ensures CronTable.IsRun(c.cron, s, TableSteps(c, s, steps))
    ensures After(c, s, steps).cron == CronTable.After(c.cron, s, TableSteps(c, s, steps))
  {
    if steps != [] {
      var most, step := steps[..|steps| - 1], steps[|steps| - 1];
      RefinesTheTable(c, s, most);
      StepRefinesTheTable(After(c, s, most), s, step);
      CronTable.Then(c.cron, s, TableSteps(c, s, most), TableStep(After(c, s, most), step));
    }
  }

  // ---------------------------------------------------------------- safety

  /** The row is held by the node of the run, and the claim is not over. */
  predicate HoldsClaim(c: Cluster, run: nat)
    requires run in c.runs
  {
    && run < c.created
    && c.cron.row.node == Some(c.runs[run].node)
    && c.cron.row.nodeTimeout == Some(c.runs[run].until)
    && c.cron.clock <= c.runs[run].until
  }

  ghost predicate OneRun(c: Cluster) {
    forall p, q | p in c.runs && q in c.runs :: p == q
  }

  ghost predicate Safe(c: Cluster) {
    OneRun(c) && forall run | run in c.runs :: HoldsClaim(c, run)
  }

  lemma StepKeepsClaim(c: Cluster, s: CronSchedule, step: Step, run: nat)
    requires Safe(c) && Enabled(c, s, step) && Assumed(c, step)
    requires run in Apply(c, s, step).runs
    ensures HoldsClaim(Apply(c, s, step), run)
  {
    if run in c.runs {
      assert HoldsClaim(c, run);
    }
  }

  /** A job whose claim takes effect is not running, on this node or any other. */
  lemma ClaimableHasNoRun(c: Cluster)
    requires Safe(c) && CronTable.ClaimTakesEffect(c.cron.row)
    ensures forall run :: run !in c.runs
  {
  }

  lemma StepKeepsSafe(c: Cluster, s: CronSchedule, step: Step)
    requires Safe(c) && Enabled(c, s, step) && Assumed(c, step)
    ensures Safe(Apply(c, s, step))
  {
    if TakesEffect(c, step) {
      ClaimableHasNoRun(c);
    }
    forall run | run in Apply(c, s, step).runs
      ensures HoldsClaim(Apply(c, s, step), run)
    {
      StepKeepsClaim(c, s, step, run);
    }
  }

  /** In every run under the assumptions the job is run at most once at a time, and its run holds the claim. */
  lemma {:induction false} ClaimSafety(c: Cluster, s: CronSchedule, steps: seq<Step>)
    requires Safe(c) && IsAssumedRun(c, s, steps)
    ensures Safe(After(c, s, steps))
  {
    if steps != [] {
      ClaimSafety(c, s, steps[..|steps| - 1]);
      StepKeepsSafe(After(c, s, steps[..|steps| - 1]), s, steps[|steps| - 1]);
    }
  }

  // ------------------------------------------- the assumptions are necessary

  /** `all` goes on from `steps` under the assumptions. */
  ghost predicate GoesOn(c: Cluster, s: CronSchedule, steps: seq<Step>, all: seq<Step>) {
    steps <= all && IsRun(c, s, all) && AssumedFrom(c, s, |steps|, all)
  }

  lemma GoOn(c: Cluster, s: CronSchedule, steps: seq<Step>, all: seq<Step>, step: Step)
    requires GoesOn(c, s, steps, all) && Enabled(After(c, s, all), s, step) && Assumed(After(c, s, all), step)
    ensures GoesOn(c, s, steps, all + [step])
    ensures After(c, s, all + [step]) == Apply(After(c, s, all), s, step)
  {
    assert (all + [step])[..|all + [step]| - 1] == all;
  }

  lemma TakeStep(c: Cluster, s: CronSchedule, steps: seq<Step>, step: Step)
    requires IsRun(c, s, steps) && Enabled(After(c, s, steps), s, step)
    ensures GoesOn(c, s, steps + [step], steps + [step])
    ensures After(c, s, steps + [step]) == Apply(After(c, s, steps), s, step)
    ensures AssumedFrom(c, s, 0, steps) && Assumed(After(c, s, steps), step) ==> AssumedFrom(c, s, 0, steps + [step])
  {
    assert (steps + [step])[..|steps + [step]| - 1] == steps;
  }

  function OtherThan(node: NodeName): (other: NodeName)
    ensures other != node
  {
    node + "'"
  }

  /** A step that breaks an assumption leads to a run whose row is free. */
  lemma BrokenAssumption(c: Cluster, s: CronSchedule, steps: seq<Step>, step: Step) returns (all: seq<Step>, run: nat)
    requires Safe(c) && IsAssumedRun(c, s, steps)
    requires Enabled(After(c, s, steps), s, step) && !Assumed(After(c, s, steps), step)
    ensures GoesOn(c, s, steps + [step], all)
    ensures After(c, s, all).cron.row.node.None? && run in After(c, s, all).runs && run < After(c, s, all).created
  {
    var now := After(c, s, steps);
    ClaimSafety(c, s, steps);
    TakeStep(c, s, steps, step);
    all := steps + [step];
    match step {
      case Connect(node) =>
        run :| run in now.runs && now.runs[run].node == node;
        assert HoldsClaim(now, run);
      case Tick(to) =>
        run :| run in now.runs && now.runs[run].until < to;
        assert HoldsClaim(now, run);
        var expire := ExpireOthers(OtherThan(now.runs[run].node));
        GoOn(c, s, steps + [step], all, expire);
        all := all + [expire];
    }
  }

  /** Whatever breaks an assumption lets the job run twice at once, and the second run may be on any node. */
  lemma RunsTwice(c: Cluster, s: CronSchedule, steps: seq<Step>, step: Step, node: NodeName)
    returns (all: seq<Step>, p: nat, q: nat)
    requires Safe(c) && IsAssumedRun(c, s, steps)
    requires Enabled(After(c, s, steps), s, step) && !Assumed(After(c, s, steps), step)
    ensures GoesOn(c, s, steps + [step], all)
    ensures p in After(c, s, all).runs && q in After(c, s, all).runs && p != q && After(c, s, all).runs[q].node == node
  {
    all, p := BrokenAssumption(c, s, steps, step);
    q := After(c, s, all).created;
    var enable := Client(CronTable.SetEnabled(true));
    GoOn(c, s, steps + [step], all, enable);
    all := all + [enable];
    GoOn(c, s, steps + [step], all, Start(node));
    all := all + [Start(node)];
  }

  /** No continuation under the assumptions runs the job twice at once. */
  ghost predicate NeverTwice(c: Cluster, s: CronSchedule, steps: seq<Step>) {
    forall all | GoesOn(c, s, steps, all) :: OneRun(After(c, s, all))
  }

  lemma {:induction false} AssumedThroughout(c: Cluster, s: CronSchedule, steps: seq<Step>, all: seq<Step>)
    requires GoesOn(c, s, steps, all) && AssumedFrom(c, s, 0, steps)
    ensures IsAssumedRun(c, s, all)
    decreases |all|
  {
    if |all| == |steps| {
      assert all == steps;
    } else {
      assert steps <= all[..|all| - 1];
      AssumedThroughout(c, s, steps, all[..|all| - 1]);
    }
  }

  /**
   The assumptions are exact: after any run that satisfied them, the next step satisfies
   them if and only if no continuation that does so too runs the job twice at once.
   */
  lemma AssumptionsAreExact(c: Cluster, s: CronSchedule, steps: seq<Step>, step: Step)
    requires Safe(c) && IsAssumedRun(c, s, steps) && Enabled(After(c, s, steps), s, step)
    ensures Assumed(After(c, s, steps), step) <==> NeverTwice(c, s, steps + [step])
  {
    if Assumed(After(c, s, steps), step) {
      TakeStep(c, s, steps, step);
      forall all | GoesOn(c, s, steps + [step], all)
        ensures OneRun(After(c, s, all))
      {
        AssumedThroughout(c, s, steps + [step], all);
        ClaimSafety(c, s, all);
      }
    } else {
      var all, p, q := RunsTwice(c, s, steps, step, "");
    }
  }

  /** Whichever node starts the job: once it has run longer than five minutes it can be started again, on any node. */
  lemma LongJobRunsTwice(c: Cluster, s: CronSchedule, steps: seq<Step>, first: NodeName, late: int, node: NodeName)
    returns (all: seq<Step>, p: nat, q: nat)
    requires Safe(c) && IsAssumedRun(c, s, steps) && TakesEffect(After(c, s, steps), Start(first))
    requires After(c, s, steps).cron.clock + CronTable.CLAIM_TIMEOUT < late
    ensures GoesOn(c, s, steps + [Start(first)] + [Tick(late)], all)
    ensures p in After(c, s, all).runs && q in After(c, s, all).runs && p != q && After(c, s, all).runs[q].node == node
  {
    TakeStep(c, s, steps, Start(first));
    assert After(c, s, steps).created in After(c, s, steps + [Start(first)]).runs;
    all, p, q := RunsTwice(c, s, steps + [Start(first)], Tick(late), node);
  }
}
