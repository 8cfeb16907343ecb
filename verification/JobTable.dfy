/**
 The `jobs` table.  Every prepared statement is one atomic UPDATE (or INSERT, DELETE):
 a WHERE clause that selects rows and a SET clause that rewrites them.
 */
module JobTable {
  import opened Common

  type NodeName = string
  type PlanName = string

  datatype Job = Job(
    plan: PlanName,
    enabled: bool,
    scheduledTime: Option<int>,
    node: Option<NodeName>,
    nodeTimeout: Option<int>,
    progress: int,
    timeStarted: Option<int>,
    timeDone: Option<int>,
    exitStatus: Option<int>)
  {
    predicate Unfinished() {
      timeDone.None? && exitStatus.None?
    }

    predicate Finished() {
      timeDone.Some? && exitStatus.Some?
    }
  }

  /** `id` is a serial: ids are handed out once. */
  datatype Table = Table(rows: map<nat, Job>, nextId: nat)

  const EMPTY := Table(map[], 0)

  datatype Statement =
    | Insert(plan: PlanName, enabled: bool, scheduledTime: Option<int>)
    | Edit(id: nat, enabled: bool, scheduledTime: Option<int>)
    | Claim(id: nat, node: NodeName, timeout: int)
    | SetProgress(id: nat, progress: int, timeout: int)
    | SetDone(id: nat, status: int)
    | Release(node: NodeName)
    | Expire(except: NodeName)
    | Rollback(id: nat)
    | Again(id: nat, delay: int)
    | Reap(plan: PlanName, age: int)

  /** The WHERE clause. */
  predicate Where(st: Statement, id: nat, job: Job, now: int) {
    match st
    case Insert(_, _, _) => false
    case Edit(i, _, _) => id == i
    case Claim(i, _, _) => id == i && job.node.None? && job.enabled
    case SetProgress(i, _, _) => id == i
    case SetDone(i, _) => id == i
    case Release(node) => job.node == Some(node) && job.Unfinished()
    case Expire(except) =>
      && job.Unfinished() && job.node.Some? && job.node.value != except
      && job.nodeTimeout.Some? && job.nodeTimeout.value < now
    case Rollback(i) => id == i && job.node.Some? && job.timeDone.None?
    case Again(i, _) => id == i && job.node.Some? && job.timeDone.None?
    case Reap(plan, age) => job.plan == plan && job.timeDone.Some? && job.timeDone.value < now - age
  }

  /** The SET clause. */
  function Set(st: Statement, job: Job, now: int): Job {
    match st
    case Insert(_, _, _) => job
    case Edit(_, enabled, scheduledTime) => job.(enabled := enabled, scheduledTime := scheduledTime)
    case Claim(_, node, timeout) =>
      job.(node := Some(node), nodeTimeout := Some(now + timeout), timeStarted := Some(now))
    case SetProgress(_, progress, timeout) => job.(progress := progress, nodeTimeout := Some(now + timeout))
    case SetDone(_, status) => job.(timeDone := Some(now), exitStatus := Some(status), progress := 100)
    case Release(_) => Unclaimed(job)
    case Expire(_) => Unclaimed(job)
    case Rollback(_) => Unclaimed(job)
    case Again(_, delay) => Unclaimed(job).(scheduledTime := Some(now + delay))
    case Reap(_, _) => job
  }

  function Unclaimed(job: Job): Job {
    job.(node := None, nodeTimeout := None, progress := 0)
  }

  function NewJob(plan: PlanName, enabled: bool, scheduledTime: Option<int>): Job {
    Job(plan, enabled, scheduledTime, None, None, 0, None, None, None)
  }

  /** One statement on the whole table. */
  function Exec(t: Table, st: Statement, now: int): Table {
    match st
    case Insert(plan, enabled, scheduledTime) =>
      Table(t.rows[t.nextId := NewJob(plan, enabled, scheduledTime)], t.nextId + 1)
    case Reap(_, _) =>
      t.(rows := map id | id in t.rows && !Where(st, id, t.rows[id], now) :: t.rows[id])
    case _ =>
      t.(rows := map id | id in t.rows :: if Where(st, id, t.rows[id], now) then Set(st, t.rows[id], now) else t.rows[id])
  }

  predicate Affects(t: Table, st: Statement, id: nat, now: int) {
    id in t.rows && Where(st, id, t.rows[id], now)
  }

  // -------------------------------------------------- the statements in place

  /** The table as the daemon's prepared statements change it. */
  class Database {
    var rows: map<nat, Job>
    var nextId: nat

    constructor ()
      ensures Contents() == EMPTY
    {
      rows, nextId := map[], 0;
    }

    function Contents(): Table
      reads this
    {
      Table(rows, nextId)
    }

    /** A statement with `WHERE id=...` touches at most that row. */
    method UpdateOne(id: nat, st: Statement, now: int) returns (affected: nat)
      requires !st.Insert? && !st.Reap? && !st.Release? && !st.Expire? && st.id == id
      modifies this
      ensures Contents() == Exec(old(Contents()), st, now)
      ensures affected == if Affects(old(Contents()), st, id, now) then 1 else 0
    {
      if id in rows && Where(st, id, rows[id], now) {
        rows := rows[id := Set(st, rows[id], now)];
        affected := 1;
      } else {
        affected := 0;
      }
      assert rows == Exec(old(Contents()), st, now).rows;
    }

    /** `pg_claim_job`: true if no other node was faster. */
    method ClaimJob(id: nat, node: NodeName, timeout: int, now: int) returns (claimed: bool)
      modifies this
      ensures Contents() == Exec(old(Contents()), Claim(id, node, timeout), now)
      ensures claimed <==> id in old(rows) && old(rows)[id].node.None? && old(rows)[id].enabled
      ensures rows ==
              if !claimed then old(rows)
              else old(rows)[id := old(rows)[id].(node := Some(node), nodeTimeout := Some(now + timeout), timeStarted := Some(now))]
    {
      var n := UpdateOne(id, Claim(id, node, timeout), now);
      claimed := n > 0;
    }

    /** `pg_set_job_progress`: throws when no row matches. */
    method SetJobProgress(id: nat, progress: int, timeout: int, now: int) returns (ok: bool)
      modifies this
      ensures Contents() == Exec(old(Contents()), SetProgress(id, progress, timeout), now)
      ensures ok <==> id in old(rows)
      ensures rows ==
              if !ok then old(rows)
              else old(rows)[id := old(rows)[id].(progress := progress, nodeTimeout := Some(now + timeout))]
    {
      var n := UpdateOne(id, SetProgress(id, progress, timeout), now);
      ok := n == 1;
    }

    /** `pg_set_job_done`: throws when no row matches. */
    method SetJobDone(id: nat, status: int, now: int) returns (ok: bool)
      modifies this
      ensures Contents() == Exec(old(Contents()), SetDone(id, status), now)
      ensures ok <==> id in old(rows)
      ensures rows ==
              if !ok then old(rows)
              else old(rows)[id := old(rows)[id].(timeDone := Some(now), progress := 100, exitStatus := Some(status))]
    {
      var n := UpdateOne(id, SetDone(id, status), now);
      ok := n == 1;
    }

    /** `pg_again_job` with a delay, else `pg_rollback_job`; throws when no row matches. */
    method AgainJob(id: nat, delay: int, now: int) returns (ok: bool)
      modifies this
      ensures Contents() == Exec(old(Contents()), if 0 < delay then Again(id, delay) else Rollback(id), now)
      ensures ok <==> id in old(rows) && old(rows)[id].node.Some? && old(rows)[id].timeDone.None?
      ensures rows ==
              if !ok then old(rows)
              else
                var job := old(rows)[id];
                old(rows)[id := job.(node := None, nodeTimeout := None, progress := 0,
                                     scheduledTime := if 0 < delay then Some(now + delay) else job.scheduledTime)]
    {
      var n;
      if 0 < delay {
        n := UpdateOne(id, Again(id, delay), now);
      } else {
        n := UpdateOne(id, Rollback(id), now);
      }
      ok := n == 1;
    }

    /** The rows a statement selects lose their node. */
    method Unclaim(st: Statement, now: int) returns (affected: set<nat>)
      requires st.Release? || st.Expire?
      modifies this
      ensures Contents() == Exec(old(Contents()), st, now)
      ensures affected == set id | id in old(rows) && Where(st, id, old(rows)[id], now)
      ensures rows.Keys == old(rows).Keys
      ensures forall id | id in rows ::
                rows[id] ==
                if id in affected then old(rows)[id].(node := None, nodeTimeout := None, progress := 0) else old(rows)[id]
    {
      affected := set id | id in rows && Where(st, id, rows[id], now);
      rows := map id | id in rows :: if id in affected then Unclaimed(rows[id]) else rows[id];
    }

    /** `pg_release_jobs`: how many unfinished jobs of this node are free now. */
    method ReleaseJobs(node: NodeName, now: int) returns (affected: nat)
      modifies this
      ensures Contents() == Exec(old(Contents()), Release(node), now)
      ensures rows.Keys == old(rows).Keys
      ensures forall id | id in rows ::
                var job := old(rows)[id];
                rows[id] ==
                if job.node == Some(node) && job.timeDone.None? && job.exitStatus.None?
                then job.(node := None, nodeTimeout := None, progress := 0) else job
      ensures affected ==
              |set id | id in old(rows) && old(rows)[id].node == Some(node) && old(rows)[id].timeDone.None? && old(rows)[id].exitStatus.None?|
    {
      var released := Unclaim(Release(node), now);
      affected := |released|;
      assert released ==
        set id | id in old(rows) && old(rows)[id].node == Some(node) && old(rows)[id].timeDone.None? && old(rows)[id].exitStatus.None?;
    }

    /** `pg_expire_jobs`: so are the unfinished jobs of other nodes whose lease is over. */
    method ExpireJobs(except: NodeName, now: int) returns (affected: nat)
      modifies this
      ensures Contents() == Exec(old(Contents()), Expire(except), now)
      ensures rows.Keys == old(rows).Keys
      ensures forall id | id in rows ::
                var job := old(rows)[id];
                rows[id] ==
                if job.timeDone.None? && job.exitStatus.None? && job.node.Some? && job.node != Some(except) &&
                   job.nodeTimeout.Some? && job.nodeTimeout.value < now
                then job.(node := None, nodeTimeout := None, progress := 0) else job
    {
      var expired := Unclaim(Expire(except), now);
      affected := |expired|;
    }

    /** `PgReapFinishedJobs`: exactly the jobs of the plan that have been done for longer than `age` are deleted. */
    method ReapFinishedJobs(plan: PlanName, age: int, now: int) returns (affected: nat)
      modifies this
      ensures Contents() == Exec(old(Contents()), Reap(plan, age), now)
      ensures forall id :: id in rows <==>
                id in old(rows) && !(old(rows)[id].plan == plan && old(rows)[id].timeDone.Some? && old(rows)[id].timeDone.value + age < now)
      ensures forall id | id in rows :: rows[id] == old(rows)[id]
      ensures affected + |rows| == |old(rows)|
    {
      ghost var before := rows;
      var reaped := set id | id in rows && Where(Reap(plan, age), id, rows[id], now);
      rows := map id | id in rows && id !in reaped :: rows[id];
      affected := |reaped|;
      assert before.Keys == reaped + rows.Keys;
    }
  }

  // ------------------------------------------------------------- histories

  datatype Event = Event(st: Statement, now: int)

  function After(h: seq<Event>): Table {
    if h == [] then EMPTY else Exec(After(h[..|h| - 1]), h[|h| - 1].st, h[|h| - 1].now)
  }

  predicate IsReleasing(st: Statement) {
    st.Release? || st.Expire? || st.Rollback? || st.Again?
  }

  /** Claims of the row that took effect. */
  function Claims(h: seq<Event>, id: nat): nat {
    if h == [] then 0
    else
      var e := h[|h| - 1];
      Claims(h[..|h| - 1], id) + if e.st.Claim? && Affects(After(h[..|h| - 1]), e.st, id, e.now) then 1 else 0
  }

  /** Statements that took the row away from its node. */
  function Releases(h: seq<Event>, id: nat): nat {
    if h == [] then 0
    else
      var e := h[|h| - 1];
      Releases(h[..|h| - 1], id) + if IsReleasing(e.st) && Affects(After(h[..|h| - 1]), e.st, id, e.now) then 1 else 0
  }

  /** The `job_done` rule: the row was unfinished before the update and is finished after it. */
  predicate JobDoneFires(before: Table, after: Table, id: nat) {
    id in before.rows && id in after.rows && before.rows[id].Unfinished() && after.rows[id].Finished()
  }

  function Notifications(h: seq<Event>, id: nat): nat {
    if h == [] then 0
    else
      Notifications(h[..|h| - 1], id) + if JobDoneFires(After(h[..|h| - 1]), After(h), id) then 1 else 0
  }

  /** What one statement leaves of a row. */
  lemma RowAfter(t: Table, st: Statement, now: int, id: nat)
    ensures id in Exec(t, st, now).rows <==>
              (id in t.rows && !(st.Reap? && Where(st, id, t.rows[id], now))) || (st.Insert? && id == t.nextId)
    ensures id in t.rows && id in Exec(t, st, now).rows && !(st.Insert? && id == t.nextId) ==>
              Exec(t, st, now).rows[id] == if Where(st, id, t.rows[id], now) then Set(st, t.rows[id], now) else t.rows[id]
  {
  }

  /**
   The books of one row: it was claimed once more than it was released exactly while a node
   holds it, its completion columns are set together, and `job_done` was sent once per
   completion; a row that is not there yet has no entries.
   */
  predicate Balanced(t: Table, id: nat, claims: nat, releases: nat, notifications: nat) {
    && (id in t.rows ==>
          && id < t.nextId
          && claims - releases == (if t.rows[id].node.Some? then 1 else 0)
          && (t.rows[id].timeDone.Some? <==> t.rows[id].exitStatus.Some?)
          && notifications == (if t.rows[id].timeDone.Some? then 1 else 0))
    && (t.nextId <= id ==> claims == 0 && releases == 0 && notifications == 0)
  }

  lemma StatementBalances(t: Table, st: Statement, now: int, id: nat, claims: nat, releases: nat, notifications: nat)
    requires Balanced(t, id, claims, releases, notifications)
    ensures Balanced(Exec(t, st, now), id,
                     claims + if st.Claim? && Affects(t, st, id, now) then 1 else 0,
                     releases + if IsReleasing(st) && Affects(t, st, id, now) then 1 else 0,
                     notifications + if JobDoneFires(t, Exec(t, st, now), id) then 1 else 0)
  {
    RowAfter(t, st, now, id);
  }

  /** Unconditional accounting: the books balance whatever statements ran, in whatever order and however late. */
  lemma {:induction false} Accounting(h: seq<Event>, id: nat)
    ensures Balanced(After(h), id, Claims(h, id), Releases(h, id), Notifications(h, id))
  {
    if h != [] {
      var g, e := h[..|h| - 1], h[|h| - 1];
      Accounting(g, id);
      StatementBalances(After(g), e.st, e.now, id, Claims(g, id), Releases(g, id), Notifications(g, id));
    }
  }

  lemma StatementKeepsCompletion(t: Table, st: Statement, now: int, id: nat)
    requires id < t.nextId && (id in t.rows ==> t.rows[id].Finished())
    ensures id < Exec(t, st, now).nextId && (id in Exec(t, st, now).rows ==> Exec(t, st, now).rows[id].Finished())
  {
    RowAfter(t, st, now, id);
  }

  /** Completion is absorbing: only reaping ends it. */
  lemma {:induction false} CompletionIsForever(h: seq<Event>, g: seq<Event>, id: nat)
    requires id in After(h).rows && After(h).rows[id].Finished()
    ensures id in After(h + g).rows ==> After(h + g).rows[id].Finished()
    ensures id < After(h + g).nextId
    decreases |g|
  {
    if g == [] {
      assert h + g == h;
      Accounting(h, id);
    } else {
      var g', e := g[..|g| - 1], g[|g| - 1];
      CompletionIsForever(h, g', id);
      assert (h + g)[..|h + g| - 1] == h + g';
      StatementKeepsCompletion(After(h + g'), e.st, e.now, id);
    }
  }
}
