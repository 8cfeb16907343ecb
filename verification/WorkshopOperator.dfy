/**
 The operator: a claimed job being executed.  Its event handlers change the `jobs` table
 and its own timer; each contract says that this is exactly one step of the cluster
 protocol, so what is proved about that protocol holds for the handlers.
 */
module WorkshopOperator {
  import opened Common
  import opened JobTable
  import Cluster

  const EINTR := 4
  const EIO := 5
  const ECHILD := 10
  const ECANCELED := 125

  type Negative = value: int | value < 0 witness -1

  type ExitCode = code: int | 0 <= code <= 255

  /** What the spawner reports: a negative errno, a signal, an exit code, or anything else. */
  datatype WaitStatus = Errno(value: Negative) | Signaled | Exited(code: ExitCode) | Unknown

  function ExitStatus(status: WaitStatus): int {
    match status
    case Errno(value) => value
    case Signaled => -EINTR
    case Exited(code) => code
    case Unknown => -ECHILD
  }

  /** Whether the job's row records that it is done. */
  predicate IsDone(db: Database, id: nat, status: int, now: int)
    reads db
  {
    id in db.rows && db.rows[id].timeDone == Some(now) && db.rows[id].exitStatus == Some(status) && db.rows[id].progress == 100
  }

  /** The status recorded is 0 exactly for an exit with 0. */
  predicate Records(status: WaitStatus, recorded: int) {
    && (recorded == 0 <==> status.Exited? && status.code == 0)
    && (status.Exited? ==> recorded == status.code)
    && (status.Errno? ==> recorded == status.value)
    && (status.Signaled? ==> recorded == -4)
    && (status.Unknown? ==> recorded == -10)
  }

  class Operator {
    /** The number of this operator in the cluster. */
    ghost const op: nat
    const node: NodeName
    const id: nat
    /** The plan's lease; `explicit` if the plan file names it, which also arms the timer. */
    const timeout: int
    const explicit: bool
    var deadline: Option<int>
    var exited: bool
    /** Negative unless the job asked to be run again, after this many seconds. */
    var again: int

    /** The job has just been claimed. */
    constructor (ghost op: nat, node: NodeName, id: nat, timeout: int, explicit: bool, now: int)
      ensures this.op == op && this.explicit == explicit && !exited && again < 0
      ensures Entry() == Cluster.Operator(node, id, timeout, Cluster.Timer(now, timeout, explicit))
    {
      this.op := op;
      this.node, this.id, this.timeout, this.explicit := node, id, timeout, explicit;
      exited, again := false, -1;
      deadline := if explicit then Some(now + timeout) else None;
    }

    /** The operator as the cluster protocol sees it. */
    function Entry(): Cluster.Operator
      reads this
    {
      Cluster.Operator(node, id, timeout, deadline)
    }

    /** The operator is one of those in the cluster, whose table and clock are these. */
    ghost predicate In(c: Cluster.Cluster, db: Database, now: int)
      reads this, db
    {
      && c.table == db.Contents() && c.clock == now
      && op in c.operators && c.operators[op] == Entry()
      && (deadline.Some? <==> explicit)
    }

    method ScheduleTimeout(now: int)
      modifies this`deadline
      ensures deadline == if explicit then Some(now + timeout) else old(deadline)
    {
      if explicit {
        deadline := Some(now + timeout);
      }
    }

    /**
     Progress renews the lease and the timer together; if the statement fails only the timer.
     After the exit it is ignored.
     */
    method OnProgress(db: Database, percent: int, fails: bool, now: int, ghost c: Cluster.Cluster)
      requires In(c, db, now)
      modifies this`deadline, db
      ensures !exited ==>
                var step := if fails then Cluster.ProgressFails(op) else Cluster.Progress(op, percent);
                Cluster.Enabled(c, step) && In(Cluster.Apply(c, step), db, now)
      ensures exited ==> db.Contents() == old(db.Contents()) && deadline == old(deadline)
      ensures !exited && !fails && id in old(db.rows) ==>
                id in db.rows && db.rows[id].progress == percent && db.rows[id].nodeTimeout == Some(now + timeout)
      ensures !exited && explicit ==> deadline == Some(now + timeout)
    {
      if exited {
        return;
      }
      if !fails {
        var ok := db.SetJobProgress(id, percent, timeout, now);
      }
      ScheduleTimeout(now);
    }

    method OnControlAgain(seconds: int)
      modifies this`again
      ensures again == seconds
    {
      again := seconds;
    }

    /** The operator is gone from the cluster, and the table is what the step makes of it. */
    ghost predicate Left(c: Cluster.Cluster, db: Database)
      reads db
    {
      db.Contents() == c.table && op !in c.operators
    }

    /** The process is gone: the job is given back if it asked for that, else it is done. */
    method OnChildProcessExit(db: Database, status: WaitStatus, fails: bool, now: int, ghost c: Cluster.Cluster)
      requires In(c, db, now)
      modifies this`exited, db
      ensures exited
      ensures var step := if fails then Cluster.EndFails(op)
                          else if 0 <= again then Cluster.RunAgain(op, again)
                          else Cluster.Exit(op, ExitStatus(status));
              Cluster.Enabled(c, step) && Left(Cluster.Apply(c, step), db)
      ensures !fails && again < 0 && id in old(db.rows) ==>
                exists recorded :: Records(status, recorded) && IsDone(db, id, recorded, now)
      ensures !fails && 0 <= again && id in old(db.rows) && old(db.rows)[id].node.Some? && old(db.rows)[id].timeDone.None? ==>
                && id in db.rows && db.rows[id].node.None? && db.rows[id].timeDone.None?
                && (0 < again ==> db.rows[id].scheduledTime == Some(now + again))
    {
      exited := true;
      if fails {
        return;
      }
      if 0 <= again {
        var ok := db.AgainJob(id, again, now);
      } else {
        var ok := db.SetJobDone(id, ExitStatus(status), now);
        assert Records(status, ExitStatus(status));
      }
    }

    /** The timer has fired. */
    method OnTimeout(db: Database, fails: bool, now: int, ghost c: Cluster.Cluster)
      requires In(c, db, now) && deadline.Some? && deadline.value <= now
      modifies db
      ensures var step := if fails then Cluster.EndFails(op) else Cluster.TimerFires(op);
              Cluster.Enabled(c, step) && Left(Cluster.Apply(c, step), db)
      ensures !fails && id in old(db.rows) ==> IsDone(db, id, -110, now)
    {
      if !fails {
        var ok := db.SetJobDone(id, -Cluster.ETIMEDOUT, now);
      }
    }

    /** The job is done with an error. */
    method Fail(db: Database, error: int, fails: bool, now: int, ghost c: Cluster.Cluster)
      requires In(c, db, now)
      modifies db
      ensures var step := if fails then Cluster.EndFails(op) else Cluster.Exit(op, error);
              Cluster.Enabled(c, step) && Left(Cluster.Apply(c, step), db)
      ensures !fails && id in old(db.rows) ==> IsDone(db, id, error, now)
    {
      if !fails {
        var ok := db.SetJobDone(id, error, now);
      }
    }

    method Cancel(db: Database, fails: bool, now: int, ghost c: Cluster.Cluster)
      requires In(c, db, now)
      modifies db
      ensures var step := if fails then Cluster.EndFails(op) else Cluster.Exit(op, -125);
              Cluster.Enabled(c, step) && Left(Cluster.Apply(c, step), db)
      ensures !fails && id in old(db.rows) ==> IsDone(db, id, -125, now)
    {
      Fail(db, -ECANCELED, fails, now, c);
    }

    /** The start has failed. */
    method OnTaskError(db: Database, fails: bool, now: int, ghost c: Cluster.Cluster)
      requires In(c, db, now)
      modifies db
      ensures var step := if fails then Cluster.EndFails(op) else Cluster.Exit(op, -5);
              Cluster.Enabled(c, step) && Left(Cluster.Apply(c, step), db)
      ensures !fails && id in old(db.rows) ==> IsDone(db, id, -5, now)
    {
      Fail(db, -EIO, fails, now, c);
    }
  }

  /** Claim and start: the row changes and the operator exists exactly as one protocol step says. */
  method ClaimAndStart(db: Database, node: NodeName, id: nat, timeout: int, explicit: bool, now: int, ghost c: Cluster.Cluster)
    returns (o: Operator?)
    requires c.table == db.Contents() && c.clock == now
    modifies db
    ensures 0 < timeout ==> Cluster.Enabled(c, Cluster.Start(node, id, timeout, explicit))
    ensures db.Contents() == Cluster.Apply(c, Cluster.Start(node, id, timeout, explicit)).table
    ensures o != null <==> Affects(c.table, Claim(id, node, timeout), id, now)
    ensures o != null ==> fresh(o) && o.op == c.created && o.node == node && o.id == id && !o.exited
    ensures o != null ==> o.In(Cluster.Apply(c, Cluster.Start(node, id, timeout, explicit)), db, now)
  {
    var claimed := db.ClaimJob(id, node, timeout, now);
    if claimed {
      o := new Operator(c.created, node, id, timeout, explicit, now);
    } else {
      o := null;
      assert Exec(c.table, Claim(id, node, timeout), now) == c.table;
    }
  }
}
