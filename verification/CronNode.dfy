/**
 One cron node: the claim loop, which takes one due row at a time, and the workplace,
 whose capacity switches the queue off and on.  Starting a job may throw, complete at
 once, or leave it running.  Times are microseconds.
 */
module CronNode {
  import opened Common

  const US := 1_000_000

  /** Who holds a row. */
  datatype Holder = Nobody | ThisNode | AnotherNode

  datatype Entry = Entry(
    enabled: bool,
    nextRun: Option<int>,
    lastRun: Option<int>,
    holder: Holder,
    stickyId: Option<string>)

  /** What `finish_job` makes of a row; one that another node holds by now is left alone. */
  function Finished(e: Entry, now: int): (r: Entry)
    ensures e.holder != ThisNode ==> r == e
    ensures e.holder == ThisNode ==> r == Entry(e.enabled, None, Some(now), Nobody, e.stickyId)
  {
    if e.holder == ThisNode then e.(holder := Nobody, lastRun := Some(now), nextRun := None) else e
  }

  /** What becomes of a job after its claim was attempted. */
  datatype Outcome = LostRace | StartThrows | CompletesAtOnce | Runs

  datatype Timer = Off | After(microseconds: int)

  /** A random delay is added to a claim timer, below this. */
  const JITTER := 30 * US

  /** Seconds until a time as the parser of the query's answer reads them: cut towards zero, and a day at most. */
  function WholeSeconds(time: int, now: int): (seconds: int)
    ensures 0 < seconds <==> now + US <= time
    ensures now <= time ==> seconds * US <= time - now && (time - now < (seconds + 1) * US || seconds == 86400) && seconds <= 86400
    ensures time < now ==> 0 <= -seconds * US <= now - time < (1 - seconds) * US
  {
    if time < now then -((now - time) / US)
    else if (time - now) / US < 86400 then (time - now) / US
    else 86400
  }

  predicate Visible(e: Entry, nonLocal: set<string>) {
    e.enabled && e.nextRun.Some? && e.holder == Nobody && (e.stickyId.None? || e.stickyId.value !in nonLocal)
  }

  predicate IsDue(e: Entry, nonLocal: set<string>, now: int) {
    Visible(e, nonLocal) && e.nextRun.value <= now
  }

  /** The rows `check_pending` could return. */
  function Due(rows: map<nat, Entry>, nonLocal: set<string>, now: int): set<nat> {
    set id | id in rows && IsDue(rows[id], nonLocal, now)
  }

  /** Of the rows that are due, one is due first. */
  lemma {:induction false} FirstExists(rows: map<nat, Entry>, ids: set<nat>) returns (first: nat)
    requires ids != {} && forall id | id in ids :: id in rows && rows[id].nextRun.Some?
    ensures first in ids && forall id | id in ids :: rows[first].nextRun.value <= rows[id].nextRun.value
    decreases |ids|
  {
    first :| first in ids;
    var rest := ids - {first};
    if rest != {} {
      var other := FirstExists(rows, rest);
      if rows[other].nextRun.value < rows[first].nextRun.value {
        first := other;
      }
    }
  }

  /** What a claim run changes. */
  datatype State = State(rows: map<nat, Entry>, nonLocal: set<string>, running: seq<nat>)

  /** The row is pending, not hidden, and due now; no such row is due earlier. */
  predicate IsFirstDue(st: State, id: nat, now: int) {
    && id in st.rows && IsPendingAt(st.rows[id], st.nonLocal, now)
    && forall other | other in st.rows && IsPendingAt(st.rows[other], st.nonLocal, now) ::
         st.rows[id].nextRun.value <= st.rows[other].nextRun.value
  }

  predicate IsPendingAt(e: Entry, nonLocal: set<string>, now: int) {
    && e.enabled && e.holder == Nobody && e.nextRun.Some? && e.nextRun.value <= now
    && (e.stickyId.Some? ==> e.stickyId.value !in nonLocal)
  }

  /** What becomes of a row that is taken, and of the node. */
  function JobTaken(st: State, id: nat, outcome: Outcome, isLocal: string -> bool, now: int): State
    requires id in st.rows
  {
    var e := st.rows[id];
    if e.stickyId.Some? && !isLocal(e.stickyId.value) then st.(nonLocal := st.nonLocal + {e.stickyId.value})
    else
      match outcome
      case LostRace => st.(rows := st.rows[id := e.(holder := AnotherNode)])
      case StartThrows => st.(rows := st.rows[id := e.(holder := ThisNode)])
      case CompletesAtOnce => st.(rows := st.rows[id := e.(lastRun := Some(now), nextRun := None)])
      case Runs => st.(rows := st.rows[id := e.(holder := ThisNode)], running := st.running + [id])
  }

  /** Rows are taken one after another, each time one that is due first by then. */
  ghost predicate TakenInOrder(st: State, taken: seq<nat>, after: State,
                               outcomes: nat -> Outcome, isLocal: string -> bool, now: int)
  {
    if taken == [] then after == st
    else
      var n := |taken| - 1;
      exists before :: TakenInOrder(st, taken[..n], before, outcomes, isLocal, now) &&
        IsFirstDue(before, taken[n], now) && after == JobTaken(before, taken[n], outcomes(taken[n]), isLocal, now)
  }

  lemma TakeOneMore(st: State, taken: seq<nat>, before: State, id: nat, after: State,
                    outcomes: nat -> Outcome, isLocal: string -> bool, now: int)
    requires TakenInOrder(st, taken, before, outcomes, isLocal, now)
    requires IsFirstDue(before, id, now) && after == JobTaken(before, id, outcomes(id), isLocal, now)
    ensures TakenInOrder(st, taken + [id], after, outcomes, isLocal, now)
  {
    assert (taken + [id])[..|taken + [id]| - 1] == taken;
  }

  lemma JobTakenWasDue(st: State, id: nat, outcome: Outcome, isLocal: string -> bool, now: int)
    requires IsFirstDue(st, id, now)
    ensures var d := JobTaken(st, id, outcome, isLocal, now);
            TakesDue(st.rows, st.nonLocal, st.running, d.rows, d.nonLocal, d.running, isLocal, now)
  {
  }

  /** Rows taken one after another were due all along. */
  lemma {:induction false} TakenWasDue(st: State, taken: seq<nat>, after: State,
                                       outcomes: nat -> Outcome, isLocal: string -> bool, now: int)
    requires TakenInOrder(st, taken, after, outcomes, isLocal, now)
    ensures TakesDue(st.rows, st.nonLocal, st.running, after.rows, after.nonLocal, after.running, isLocal, now)
  {
    if taken != [] {
      var n := |taken| - 1;
      var before :| TakenInOrder(st, taken[..n], before, outcomes, isLocal, now) &&
        IsFirstDue(before, taken[n], now) && after == JobTaken(before, taken[n], outcomes(taken[n]), isLocal, now);
      TakenWasDue(st, taken[..n], before, outcomes, isLocal, now);
      JobTakenWasDue(before, taken[n], outcomes(taken[n]), isLocal, now);
      TakesDueTwice(st.rows, st.nonLocal, st.running, before.rows, before.nonLocal, before.running,
                    after.rows, after.nonLocal, after.running, isLocal, now);
    }
  }

  lemma {:induction false} SubsetSize(a: set<nat>, b: set<nat>)
    requires a <= b
    ensures |a| <= |b|
    ensures a != b ==> |a| < |b|
  {
    assert |b| == |a| + |b - a| by {
      assert b == a + (b - a);
    }
    if |b - a| == 0 {
      assert b - a == {};
      assert a == b;
    }
  }

  /** Rows that were not due are untouched, every job started was due and is held by this node, no row became due, and only foreign ids were hidden. */
  ghost predicate TakesDue(rows: map<nat, Entry>, nonLocal: set<string>, running: seq<nat>,
                           rows': map<nat, Entry>, nonLocal': set<string>, running': seq<nat>,
                           isLocal: string -> bool, now: int)
  {
    && rows'.Keys == rows.Keys
    && (forall id | id in rows && id !in Due(rows, nonLocal, now) :: rows'[id] == rows[id])
    && running <= running'
    && (forall i | |running| <= i < |running'| ::
          running'[i] in rows && running'[i] in Due(rows, nonLocal, now) && rows'[running'[i]].holder == ThisNode)
    && Due(rows', nonLocal', now) <= Due(rows, nonLocal, now)
    && forall sticky | sticky in nonLocal' :: sticky in nonLocal || !isLocal(sticky)
  }

  lemma TakesDueTwice(rows: map<nat, Entry>, nonLocal: set<string>, running: seq<nat>,
                      rows1: map<nat, Entry>, nonLocal1: set<string>, running1: seq<nat>,
                      rows2: map<nat, Entry>, nonLocal2: set<string>, running2: seq<nat>,
                      isLocal: string -> bool, now: int)
    requires TakesDue(rows, nonLocal, running, rows1, nonLocal1, running1, isLocal, now)
    requires TakesDue(rows1, nonLocal1, running1, rows2, nonLocal2, running2, isLocal, now)
    ensures TakesDue(rows, nonLocal, running, rows2, nonLocal2, running2, isLocal, now)
  {
    forall i | |running| <= i < |running2|
      ensures running2[i] in rows && running2[i] in Due(rows, nonLocal, now) && rows2[running2[i]].holder == ThisNode
    {
      if i < |running1| {
        assert running2[i] == running1[i];
      }
    }
  }

  class CronPartition {
    const maxOperators: nat
    /** `IsLocal` for the node map, which does not change during a claim run. */
    const isLocal: string -> bool
    var enabledState: bool
    var enabledAdmin: bool
    var disabledFull: bool
    var running: seq<nat>
    var rows: map<nat, Entry>
    var nonLocal: set<string>
    var claimTimer: Timer

    constructor (maxOperators: nat, isLocal: string -> bool, rows: map<nat, Entry>)
      requires 0 < maxOperators
      ensures Consistent() && this.rows == rows && nonLocal == {} && running == []
      ensures !enabledState && enabledAdmin && claimTimer == Off
    {
      this.maxOperators, this.isLocal, this.rows := maxOperators, isLocal, rows;
      enabledState, enabledAdmin, disabledFull := false, true, false;
      running, nonLocal, claimTimer := [], {}, Off;
    }

    predicate IsEnabled()
      reads this
    {
      enabledState && enabledAdmin && !disabledFull
    }

    predicate IsFull()
      reads this
    {
      maxOperators <= |running|
    }

    /** Capacity: never more than `maxOperators`, and disabled exactly when full. */
    ghost predicate Consistent()
      reads this
    {
      0 < maxOperators && |running| <= maxOperators && (disabledFull <==> IsFull())
    }

    /** Only due rows were taken, by this node or another, and only foreign ids were hidden. */
    twostate predicate OnlyDueRowsChanged(now: int)
      reads this
    {
      TakesDue(old(rows), old(nonLocal), old(running), rows, nonLocal, running, isLocal, now)
    }

    function Current(): State
      reads this
    {
      State(rows, nonLocal, running)
    }

    /** A job has left the workplace. */
    method OnChildProcessExit()
      requires |running| < maxOperators
      modifies this`disabledFull, this`claimTimer
      ensures Consistent()
      ensures old(disabledFull) && IsEnabled() ==> claimTimer == After(US)
    {
      if disabledFull {
        disabledFull := false;
        if IsEnabled() {
          claimTimer := After(US);
        }
      }
    }

    method Finish(id: nat, now: int)
      modifies this`rows
      ensures rows == if id in old(rows) then old(rows)[id := Finished(old(rows)[id], now)] else old(rows)
    {
      if id in rows {
        rows := rows[id := Finished(rows[id], now)];
      }
    }

    /** The running jobs the predicate picks give their rows back. */
    method FinishAll(gone: nat -> bool, now: int)
      modifies this`rows
      ensures rows.Keys == old(rows).Keys
      ensures forall id | id in rows ::
                rows[id] == if id in running && gone(id) then Finished(old(rows)[id], now) else old(rows)[id]
    {
      for i := 0 to |running|
        invariant rows.Keys == old(rows).Keys
        invariant forall id | id in rows ::
                    rows[id] == if id in running[..i] && gone(id) then Finished(old(rows)[id], now) else old(rows)[id]
      {
        assert running[..i + 1] == running[..i] + [running[i]];
        if gone(running[i]) {
          Finish(running[i], now);
        }
      }
      assert running[..|running|] == running;
    }

    /** Completion or timeout of one job: its row is given back, unless the claim was lost. */
    method OnCompletion(i: nat, now: int)
      requires Consistent() && i < |running|
      modifies this`running, this`rows, this`disabledFull, this`claimTimer
      ensures Consistent() && running == old(running[..i] + running[i + 1..])
      ensures rows.Keys == old(rows).Keys
      ensures forall id | id in rows :: rows[id] == if id == old(running[i]) then Finished(old(rows)[id], now) else old(rows)[id]
      ensures old(disabledFull) && IsEnabled() ==> claimTimer == After(US)
    {
      Finish(running[i], now);
      running := running[..i] + running[i + 1..];
      OnChildProcessExit();
    }

    /** `CancelAll` (every job) and `CancelTag` (those the predicate picks): their rows are given back. */
    method Cancel(gone: nat -> bool, now: int)
      requires Consistent()
      modifies this`running, this`rows, this`disabledFull, this`claimTimer
      ensures Consistent() && IsKept(running, old(running), gone)
      ensures rows.Keys == old(rows).Keys
      ensures forall id | id in rows ::
                rows[id] == if id in old(running) && gone(id) then Finished(old(rows)[id], now) else old(rows)[id]
      ensures old(disabledFull) && running != old(running) && IsEnabled() ==> claimTimer == After(US)
    {
      var kept := Kept(running, gone);
      KeptIsKept(running, gone);
      FinishAll(gone, now);
      if |kept| < |running| {
        running := kept;
        OnChildProcessExit();
      }
    }

    /** Take a pending row: afterwards it is not due any more, whatever became of it. */
    method OnJob(id: nat, outcome: Outcome, now: int)
      requires Consistent() && !IsFull() && id in Due(rows, nonLocal, now)
      modifies this`running, this`rows, this`nonLocal, this`disabledFull, this`claimTimer
      ensures Consistent()
      ensures Due(rows, nonLocal, now) <= Due(old(rows), old(nonLocal), now) - {id}
      ensures Current() == JobTaken(old(Current()), id, outcome, isLocal, now)
    {
      var sticky := rows[id].stickyId;
      if sticky.Some? && !isLocal(sticky.value) {
        nonLocal := nonLocal + {sticky.value};
        return;
      }
      if outcome == LostRace {
        rows := rows[id := rows[id].(holder := AnotherNode)];
        return;
      }
      rows := rows[id := rows[id].(holder := ThisNode)];
      if outcome != StartThrows {
        running := running + [id];
        if outcome == CompletesAtOnce {
          Finish(id, now);
          running := running[..|running| - 1];
          OnChildProcessExit();
        }
      }
      if IsFull() {
        disabledFull := true;
      }
    }

    /** The row that is due first; false if there is none or the queue is disabled. */
    method CheckPending(now: int, outcomes: nat -> Outcome) returns (more: bool, taken: Option<nat>)
      requires Consistent()
      modifies this`running, this`rows, this`nonLocal, this`disabledFull, this`claimTimer
      ensures Consistent() && OnlyDueRowsChanged(now)
      ensures taken.None? <==>
                !old(IsEnabled()) || forall id | id in old(rows) :: !IsPendingAt(old(rows)[id], old(nonLocal), now)
      ensures taken.None? ==> Current() == old(Current())
      ensures taken.Some? ==>
                && IsFirstDue(old(Current()), taken.value, now)
                && Current() == JobTaken(old(Current()), taken.value, outcomes(taken.value), isLocal, now)
      ensures more <==> taken.Some? && IsEnabled()
      ensures more ==> Due(rows, nonLocal, now) < Due(old(rows), old(nonLocal), now)
    {
      var due := Due(rows, nonLocal, now);
      assert forall id :: id in due <==> id in rows && IsPendingAt(rows[id], nonLocal, now);
      if !IsEnabled() || due == {} {
        return false, None;
      }
      ghost var first := FirstExists(rows, due);
      var id :| id in due && forall other | other in due :: rows[id].nextRun.value <= rows[other].nextRun.value;
      OnJob(id, outcomes(id), now);
      return IsEnabled(), Some(id);
    }

    /** `first` is a visible row, and none is due earlier. */
    predicate IsEarliest(first: nat)
      reads this
    {
      && first in rows && Visible(rows[first], nonLocal)
      && forall id | id in rows && Visible(rows[id], nonLocal) :: rows[first].nextRun.value <= rows[id].nextRun.value
    }

    /** The smallest `next_run` of the visible rows, in whole seconds from now and at most a day. */
    method FindEarliestPending(now: int) returns (delta: Option<int>)
      ensures delta.None? <==> forall id | id in rows :: !Visible(rows[id], nonLocal)
      ensures delta.Some? ==> exists first :: IsEarliest(first) && delta.value == WholeSeconds(rows[first].nextRun.value, now)
    {
      var todo, first := rows.Keys, None;
      while todo != {}
        invariant todo <= rows.Keys
        invariant first.None? ==> forall id | id in rows && id !in todo :: !Visible(rows[id], nonLocal)
        invariant first.Some? ==> exists id | id in rows :: Visible(rows[id], nonLocal) && rows[id].nextRun == first
        invariant first.Some? ==>
                    forall id | id in rows && id !in todo && Visible(rows[id], nonLocal) :: first.value <= rows[id].nextRun.value
        decreases |todo|
      {
        var id :| id in todo;
        todo := todo - {id};
        if Visible(rows[id], nonLocal) && (first.None? || rows[id].nextRun.value < first.value) {
          first := Some(rows[id].nextRun.value);
        }
      }
      if first.None? {
        return None;
      }
      ghost var id :| id in rows && Visible(rows[id], nonLocal) && rows[id].nextRun == first;
      assert IsEarliest(id);
      return Some(WholeSeconds(first.value, now));
    }

    /** The claim timer fires in a second, or within half a minute after the whole seconds until the first row is due. */
    predicate IsArmed(now: int)
      reads this
    {
      && claimTimer.After?
      && (claimTimer.microseconds == US ||
          exists first | first in rows :: IsEarliest(first) && FiresFor(claimTimer.microseconds, rows[first], now))
    }

    /** Nothing to do now: no row is visible, or the first one is due in the future and the timer is armed. */
    method WaitForEarliest(now: int) returns (waits: bool)
      modifies this`claimTimer
      ensures waits <==> forall id | id in rows && Visible(rows[id], nonLocal) :: now + US <= rows[id].nextRun.value
      ensures waits ==> Due(rows, nonLocal, now) == {}
      ensures !waits ==> claimTimer == old(claimTimer)
      ensures waits && (exists id | id in rows :: Visible(rows[id], nonLocal)) ==> IsArmed(now)
    {
      var delta := FindEarliestPending(now);
      if delta.None? {
        return true;
      }
      if 0 < delta.value {
        var jitter :| 0 <= jitter < JITTER;
        claimTimer := After(delta.value * US + jitter);
        return true;
      }
      return false;
    }

    /**
     The claim loop.  With a fixed clock and nothing inserted every pass removes a row from
     those which are due, so the loop ends; and unless a query fails it ends with the node
     disabled, or nothing due.
     */
    method RunClaim(now: int, outcomes: nat -> Outcome, fails: nat -> bool) returns (ok: bool, taken: seq<nat>)
      requires Consistent()
      modifies this`running, this`rows, this`nonLocal, this`disabledFull, this`claimTimer
      ensures Consistent() && OnlyDueRowsChanged(now)
      ensures TakenInOrder(old(Current()), taken, Current(), outcomes, isLocal, now)
      ensures !ok ==> exists i: nat :: fails(i)
      ensures ok && IsEnabled() ==> forall id | id in rows :: !IsPendingAt(rows[id], nonLocal, now)
      ensures ok && old(IsEnabled()) && (exists id | id in rows :: Visible(rows[id], nonLocal)) ==> IsArmed(now)
      ensures !old(IsEnabled()) ==> ok && taken == []
    {
      ghost var st := Current();
      ok, taken := ClaimLoop(now, outcomes, fails);
      TakenWasDue(st, taken, Current(), outcomes, isLocal, now);
    }

    method ClaimLoop(now: int, outcomes: nat -> Outcome, fails: nat -> bool) returns (ok: bool, taken: seq<nat>)
      requires Consistent()
      modifies this`running, this`rows, this`nonLocal, this`disabledFull, this`claimTimer
      ensures Consistent() && TakenInOrder(old(Current()), taken, Current(), outcomes, isLocal, now)
      ensures !ok ==> exists i: nat :: fails(i)
      ensures ok && IsEnabled() ==> forall id | id in rows :: !IsPendingAt(rows[id], nonLocal, now)
      ensures ok && old(IsEnabled()) && (exists id | id in rows :: Visible(rows[id], nonLocal)) ==> IsArmed(now)
      ensures !old(IsEnabled()) ==> ok && taken == []
    {
      taken := [];
      if !IsEnabled() {
        return true, taken;
      }
      while true
        invariant Consistent() && TakenInOrder(old(Current()), taken, Current(), outcomes, isLocal, now)
        decreases |Due(rows, nonLocal, now)|
      {
        ghost var before := Current();
        var end, id := Pass(now, outcomes, fails(2 * |taken|), fails(2 * |taken| + 1));
        if id.Some? {
          TakeOneMore(old(Current()), taken, before, id.value, Current(), outcomes, isLocal, now);
          taken := taken + [id.value];
        }
        if end.Some? {
          return end.value, taken;
        }
      }
    }

    /** One pass of the claim loop; `end` says whether it was the last one, and whether no query failed. */
    method Pass(now: int, outcomes: nat -> Outcome, findFails: bool, checkFails: bool)
      returns (end: Option<bool>, id: Option<nat>)
      requires Consistent()
      modifies this`running, this`rows, this`nonLocal, this`disabledFull, this`claimTimer
      ensures Consistent()
      ensures id.None? ==> Current() == old(Current())
      ensures id.Some? ==>
                && IsFirstDue(old(Current()), id.value, now)
                && Current() == JobTaken(old(Current()), id.value, outcomes(id.value), isLocal, now)
      ensures end == Some(false) ==> findFails || checkFails
      ensures end == Some(true) ==> !IsEnabled() || forall id | id in rows :: !IsPendingAt(rows[id], nonLocal, now)
      ensures end == Some(true) && (exists id | id in rows :: Visible(rows[id], nonLocal)) ==> IsArmed(now)
      ensures end.None? ==> id.Some? && |Due(rows, nonLocal, now)| < |Due(old(rows), old(nonLocal), now)|
    {
      if findFails {
        return Some(false), None;
      }
      var waits := WaitForEarliest(now);
      if waits {
        NoneDue(now);
        return Some(true), None;
      }
      if checkFails {
        return Some(false), None;
      }
      var more;
      more, id := CheckPending(now, outcomes);
      if !more {
        claimTimer := After(US);
        return Some(true), id;
      }
      SubsetSize(Due(rows, nonLocal, now), Due(old(rows), old(nonLocal), now));
      return None, id;
    }

    lemma NoneDue(now: int)
      requires Due(rows, nonLocal, now) == {}
      ensures forall id | id in rows :: !IsPendingAt(rows[id], nonLocal, now)
    {
      forall id | id in rows
        ensures !IsPendingAt(rows[id], nonLocal, now)
      {
        assert id !in Due(rows, nonLocal, now);
      }
    }
  }

  predicate FiresFor(timer: int, e: Entry, now: int) {
    var seconds := if e.nextRun.None? then 0 else WholeSeconds(e.nextRun.value, now);
    0 < seconds && seconds * US <= timer < seconds * US + 30_000_000
  }
}
