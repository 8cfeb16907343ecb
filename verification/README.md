# Workshop, verified

Workshop is a job daemon: several nodes share PostgreSQL tables, claim rows with guarded
UPDATE statements, run them under local limits, and compute when cron jobs run next.  This
project models that behaviour in Dafny 4.11 and proves what it promises.
`dafny verify dfyconfig.toml` checks everything.

| file | component |
|---|---|
| Calendar.dfy | the calendar behind `GmTime`, `TimeGm`, `IncrementDay`: walking from the epoch, a closed day number, and the proof that they agree |
| Schedule.dfy | the schedule record, `CheckDate`, `NextBit` and `Next` |
| ScheduleParser.dfy, ScheduleMeaning.dfy, ScheduleNames.dfy | the crontab text parser, what a text means, the round trip, and what names and special schedules stand for |
| JobTable.dfy | the `jobs` table: every prepared statement as WHERE and SET, histories of statements |
| Cluster.dfy, WorkshopOperator.dfy | the lease protocol over any number of nodes, and the operator handlers that take its steps |
| WorkshopNode.dfy | the per-node queue run: queue, workplace, partition |
| RateLimit.dfy | rolling rate limits |
| CronTable.dfy | rescheduling: read, roll, compare-and-set against claim, finish, release, expire |
| CronCluster.dfy | cron jobs being run by any number of nodes, as a refinement of that table protocol |
| CronNode.dfy | the cron claim loop and the cron workplace |
| Sticky.dfy | rendezvous hashing and the negative cache |
| PipeCapture.dfy | line capture from a pipe |
| Expand.dfy | template expansion |

Where the code can fail a property one would expect of it, the model keeps the code and the
project proves when the property holds and shows an input where it does not:

- `Next` gives the earliest matching minute exactly if `last` is on a scheduled day, or its
  time of day is before every scheduled one, or not before any (`NextIsExact`); otherwise an
  earlier time of the same day is skipped (`MatchSkipped`, `NextIsNotAlwaysExact`).
- The date search ends exactly for schedules that name a date; a text such as `0 0 30 2 *` is
  accepted and names none (`MatchingDayWithin`, `NoMatchingDay`, `AcceptedTextWithoutADate`).
- One such row also keeps every row behind it in the same pass from being scheduled
  (`CalculateNextRun`).
- The day test is not quite the rule of the POSIX `crontab` utility, which joins the month
  with the day of the month and not with the weekday (`CheckDateVersusPosix`).
- Leases exclude double execution as long as running jobs have explicit plan timeouts, no
  node reconnects under its running operators, no progress statement fails after the clock
  has moved on since the timer was armed, and timers are punctual.  Each of the four is
  needed: after any run that kept to them, the first step that does not can be followed by
  steps that do, until a job runs twice at once, and until a finished job is claimed
  (`AssumptionsAreExact`, `RunsTwice`, `FinishedIsClaimed`).
- A cron job runs at most once at a time as long as every run ends within the five minutes of
  its claim and no node reconnects under its runs, and this is exact in the same sense
  (`CronCluster.AssumptionsAreExact`, `LongJobRunsTwice`).
- A finished `@once` job is never pending again, and it is run again if and only if a stale
  claim takes effect (`OnceIsNeverPendingAgain`, `OnceIsRunAgainOnlyWhenStale`,
  `OnceIsClaimedAfterFinish`).
- The finished occurrences of a cron job strictly increase, and every run has one of its own,
  all through a run of the protocol if and only if every claim that takes effect finds a
  `next_run` and every write starts from the last finished occurrence or later, or passes over
  it (`OccurrencesIncreaseExactly`).  Any other write schedules an occurrence that is not new,
  any other claim runs the job without one (`UncoveredOccurrenceFires`,
  `ClaimWithoutNextRunFires`).  Both conditions hold if no claim is stale and all delays
  rolled agree (`FinishedOccurrencesIncrease`, `OneRollIsEnough`); two nodes that roll for a
  new row, or one claim of a row that is not due yet, can make any scheduled time fire twice
  (`TwoRollsRepeatAnOccurrence`, `EarlyClaimRepeatsAnOccurrence`).
- A rate limit holds in windows of one second less than its duration, and in no longer ones
  (`RollingRateLimit`, `WindowIsTight`).
- The sticky cache hides only foreign ids all the time if and only if no event lets our own
  node win an id that is hidden: by coming in first, by being next when the winner disappears
  or falls back, or by being left alone (`CacheIsSound`, `ExposedIdStaysHidden`,
  `WaysToExpose`).

## Model

| member | source | states |
|---|---|---|
| Calendar.DayNumberOfDate | test/TestCronSchedule.cxx:174-188 | the closed day number of the date reached by walking n days from the epoch is n, leap years and dates before 1970 included |
| Calendar.DateOfDayNumber | test/TestCronSchedule.cxx:174-188 | every valid date is the one its day number leads to: the two directions are inverse |
| Calendar.DayNumberOrder | test/TestCronSchedule.cxx:174-188 | day numbers order valid dates exactly as year, month and day do |
| Calendar.DateOfNext | src/cron/Schedule.cxx:323-327 | `IncrementDay` steps to the next date and weekday from every day, also across the epoch |
| Calendar.TimeGmOfGmTime | src/cron/Schedule.cxx:310-329 | `TimeGm` undoes `GmTime` for every time |
| Schedule.NextBit | src/cron/Schedule.cxx:277-291 | the first member after the position, else the first member at all, else the position |
| Schedule.NextTimeOfDay | src/cron/Schedule.cxx:310-324 | the two bit searches together give the first scheduled minute of the day after `last`, on the next day exactly if none is left, then the first of the day |
| Schedule.SearchDate | src/cron/Schedule.cxx:326-327 | ends on the first day the schedule names, at most 2920 days on |
| Schedule.MatchingDayWithin | src/cron/Schedule.cxx:326-327 | for every parsed schedule whose fields name a date in some year, and every day, a matching day is at most 2920 days away |
| Schedule.NoMatchingDay | src/cron/Schedule.cxx:265-275 | for every other schedule no day ever matches |
| Schedule.DateSearchBoundIsSharp | src/cron/Schedule.cxx:326-327 | from 1 March 1896 a schedule for 29 February needs exactly 2920 days |
| Schedule.LeapDayWithin | src/cron/Schedule.cxx:326-327 | from every day the next 29 February is at most 2920 days away, across skipped century leap years |
| Schedule.NextMatches | src/cron/Schedule.cxx:310-329 | the time composed of chosen minute and chosen day is a match after `last`, on the first day that has one, and is the earliest match if and only if `NextIsExact` |
| Schedule.MatchSkipped | src/cron/Schedule.cxx:319-327 | whenever `NextIsExact` fails there is an earlier match after `last` |
| Schedule.Next | src/cron/Schedule.cxx:293-330 | `@once` runs now or never again; any other schedule gives a match strictly after `last` (or a minute before now) on the first possible day, at the first scheduled time of day after that of `last`, exact if and only if `NextIsExact`; no answer if and only if no day ever passes `CheckDate`, where the search does not end |
| Schedule.NextIsAfter | src/cron/Schedule.cxx:310-329 | the answer is later than a given match if and only if `last` is not before that match or the search passes over it: no day between is scheduled, and its time of day is not after that of `last` while another scheduled one is |
| Schedule.ThatMinuteIsNext | src/cron/Schedule.cxx:293-330 | asked within the minute before a scheduled time, `Next` can only give that time |
| ScheduleParser.LookupCronSymbol | src/cron/Schedule.cxx:54-69 | the first symbol that is a prefix of the text, ignoring case |
| ScheduleParser.MakeRangeBitSet | src/cron/Schedule.cxx:71-78 | adds exactly first, first+step, ... up to last |
| ScheduleParser.NumeralIsParsed | src/cron/Schedule.cxx:80-95 | a decimal number is taken up to its last digit with its value, and rejected exactly if it is out of range |
| ScheduleParser.SymbolIsParsed | src/cron/Schedule.cxx:54-107 | what starts with neither blank, sign nor digit is the first symbol the text starts with, or an error exactly if there is none |
| ScheduleParser.ParseNumericRangeBitSet | src/cron/Schedule.cxx:109-145 | accepts exactly the texts with an item, adds the members it names, sets the wildcard flag only for a `*` without step |
| ScheduleParser.ParseNumericBitSet | src/cron/Schedule.cxx:147-162 | the bits are exactly the union of the comma list, which is well-formed and not empty |
| ScheduleParser.FoldWeekdays | src/cron/Schedule.cxx:249-256 | weekday 7 becomes weekday 0, nothing else changes |
| ScheduleParser.ParseFields | src/cron/Schedule.cxx:242-260 | accepts exactly five fields and trailing blanks, and returns what they mean |
| ScheduleParser.ParseSchedule | src/cron/Schedule.cxx:190-263 | special schedules, multiplied hourly ones and five-field texts give the schedule, the delay range and the errors of the constructor |
| ScheduleParser.ItemsAreWellFormed | src/cron/Schedule.cxx:109-162 | every accepted comma list is in range, with ordered spans and positive steps |
| ScheduleMeaning.AcceptedScheduleIsParsed | src/cron/Schedule.cxx:190-263 | every accepted text is `@once` or gives five nonempty in-range sets, and the wildcard flag only with a full day set: what `Next` needs |
| ScheduleMeaning.CheckDateIsTheDayRule | src/cron/Schedule.cxx:265-275 | the day test, read off the text: a `*` day field leaves the decision to the other one, two restricted fields are alternatives |
| ScheduleMeaning.CheckDateVersusPosix | src/cron/Schedule.cxx:265-275 | the days that pass are exactly those the POSIX rule names, less, with a restricted weekday, the named weekdays of months that are not named and the other days of a named month whose days are all named |
| ScheduleMeaning.FieldsRoundTrip | src/cron/Schedule.cxx:242-260 | every well-formed syntax tree, printed, parses to itself |
| ScheduleMeaning.ScheduleRoundTrip | src/cron/Schedule.cxx:190-260 | the constructor reads every printed schedule back, with its wildcard flag and its delay range |
| ScheduleMeaning.ReadBack | src/cron/Schedule.cxx:190-260 | the result is the only schedule with the text's meaning |
| ScheduleMeaning.CanonicalRoundTrip | src/cron/Schedule.cxx:242-260 | the ordered decimal listing of any five nonempty in-range sets parses to those sets |
| ScheduleMeaning.ListingExists | src/cron/Schedule.cxx:147-162 | every such set has a listing |
| ScheduleMeaning.AcceptedTextWithoutADate | src/cron/Schedule.cxx:326-327 | 30 February is accepted and no day ever passes `CheckDate` |
| ScheduleNames.NextIsNotAlwaysExact | src/cron/Schedule.cxx:319-327 | for `0 6,18 * * 1`, asked on a Thursday noon, `Next` can only give Monday 18:00, and the match on Monday 06:00 is skipped |
| ScheduleNames.MonthIsNumber | src/cron/Schedule.cxx:25-39 | the name of a month, in any letter case, is its number, whatever follows |
| ScheduleNames.WeekdayIsNumber | src/cron/Schedule.cxx:41-50 | the name of a weekday, in any letter case, is its number from Monday on, whatever follows |
| ScheduleNames.MonthFieldByName | src/cron/Schedule.cxx:109-162 | the month field is the same with the name and with the number |
| ScheduleNames.WeekdayFieldByName | src/cron/Schedule.cxx:109-162 | so is the weekday field |
| ScheduleNames.WeekdayRangeByName | src/cron/Schedule.cxx:109-145 | two weekday names make the range of their numbers |
| ScheduleNames.MonthRangeByName | src/cron/Schedule.cxx:109-145 | so do two month names |
| ScheduleNames.WeekdayByName | src/cron/Schedule.cxx:242-256 | `0 0 * * sun` and the like match midnight on that weekday and no other time |
| ScheduleNames.MonthByName | src/cron/Schedule.cxx:242-256 | `0 0 1 jan *` and the like match midnight on the first of that month and no other time |
| ScheduleNames.HourlyMeans | src/cron/Schedule.cxx:171-179 | `@hourly` matches every full hour, delayed by up to an hour |
| ScheduleNames.DailyMeans | src/cron/Schedule.cxx:171-179 | `@daily` and `@midnight` match every midnight, delayed by up to a day and an hour |
| ScheduleNames.WeeklyMeans | src/cron/Schedule.cxx:171-179 | `@weekly` matches Sundays at midnight, delayed by up to a week |
| ScheduleNames.MonthlyMeans | src/cron/Schedule.cxx:171-179 | `@monthly` matches the first of every month at midnight, delayed by up to four weeks |
| ScheduleNames.YearlyMeans | src/cron/Schedule.cxx:171-179 | `@yearly` and `@annually` match 1 January at midnight, delayed by up to a year |
| ScheduleNames.OnceMeans | src/cron/Schedule.cxx:198-204 | `@once` matches no time and is not delayed |
| ScheduleNames.MultipliedHourlyMeans | src/cron/Schedule.cxx:206-224 | `@6hourly` and the like match every sixth full hour from midnight on, delayed by up to six hours; accepted from 1 to 24 |
| ScheduleNames.BlanksSeparate | src/cron/Schedule.cxx:242-260 | any blanks may stand between the fields, before and behind them |
| ScheduleNames.BlankNumeral | src/cron/Schedule.cxx:80-107 | blanks before a number change nothing |
| ScheduleNames.PlusNumeral | src/cron/Schedule.cxx:80-107 | a plus sign before a number changes nothing |
| ScheduleNames.MinusNumeral | src/cron/Schedule.cxx:80-107 | a minus sign is an error unless the number is 0 or the negation wraps around |
| JobTable.Database.UpdateOne | src/workshop/PGQueue.cxx:76-98 | updating one row in place is the statement on the whole table, with its affected-row count |
| JobTable.Database.ClaimJob | src/workshop/PGQueue.cxx:227-235 | claims exactly an enabled row without a node, with the lease and the start time of now; no other row changes |
| JobTable.Database.SetJobProgress | src/workshop/PGQueue.cxx:236-246 | sets progress and lease of that row |
| JobTable.Database.SetJobDone | src/workshop/PGQueue.cxx:282-290 | records completion time, status and full progress of that row |
| JobTable.Database.AgainJob | src/workshop/Queue.cxx:426-445 | gives back exactly a claimed row that is not done; a positive delay reschedules it, otherwise its scheduled time stays |
| JobTable.Database.ReleaseJobs | src/workshop/PGQueue.cxx:107-113 | frees exactly the unfinished rows of the node and counts them |
| JobTable.Database.ExpireJobs | src/workshop/PGQueue.cxx:115-123 | frees exactly the unfinished rows of other nodes whose lease is over |
| JobTable.Database.ReapFinishedJobs | src/workshop/PGQueue.cxx:152-157 | deletes exactly the rows of the plan that have been done for longer than the age, and counts them |
| JobTable.Accounting | src/workshop/PGQueue.cxx:76-150 | in every history, for every row in the table: claims minus releases is 1 if a node holds it and 0 otherwise, completion time and exit status are set together, and the `job_done` rule fired once per finished job |
| JobTable.CompletionIsForever | src/workshop/PGQueue.cxx:92-150 | once finished a row stays finished, whatever statements follow, until it is reaped |
| Cluster.StepKeepsSafe | src/workshop/PGQueue.cxx:76-123 | every step of the protocol keeps each operator's row held by its node, unfinished, with an unexpired lease equal to the timer deadline |
| Cluster.LeaseSafety | src/workshop/Queue.cxx:180-197 | this holds in every state of every run with punctual timers, explicit timeouts, no reconnect under operators and no failed renewal, however stale the row lists are |
| Cluster.ClaimableHasNoOperator | src/workshop/PGQueue.cxx:76-82 | a job whose claim takes effect has no operator, neither on this node nor on another |
| Cluster.AtMostOneOperator | src/workshop/Operator.cxx:389-421 | so no job ever has two operators, on one node or on two, and no job with an operator can be claimed |
| Cluster.FinishedIsNeverClaimed | src/workshop/PGQueue.cxx:76-150 | after a job has finished its node, completion time and status never change until it is reaped, it has no operator, and no later start of it takes effect |
| Cluster.AssumptionsAreExact | src/workshop/Operator.cxx:389-421 | after any run under the assumptions, the next step keeps them if and only if no continuation under them runs a job twice at once, and if and only if none claims a finished job; failed progress statements and late timers are steps |
| Cluster.RunsTwice | src/workshop/PGQueue.cxx:76-123 | every step that breaks an assumption leads to two operators of one job, the second one on any node |
| Cluster.FinishedIsClaimed | src/workshop/PGQueue.cxx:76-98 | and to a claim of a finished job |
| Cluster.LeaseRunsOut | src/workshop/Operator.cxx:389-405 | whatever else runs, an operator without timer, or with one that outlives its lease, can lose the lease while it is running |
| Cluster.TwoOperatorsWithoutTimeout | src/workshop/PlanLoader.cxx:199-200 | so every job of a plan without explicit timeout can run twice at once, whenever it is started |
| Cluster.TwoOperatorsAfterReconnect | src/workshop/Queue.cxx:493-532 | and so can the job of every operator whose node reconnects, also twice on that node |
| Cluster.TwoOperatorsAfterFailedProgress | src/workshop/Operator.cxx:407-421 | and that of every operator whose progress statement fails later than its timer was armed, because the timer is armed again all the same |
| Cluster.TwoOperatorsAfterLateTimer | src/workshop/Operator.cxx:389-405 | and that of every operator whose timer fires late |
| Cluster.NewJobIsStarted | src/workshop/PGQueue.cxx:76-82 | runs under the assumptions start jobs: a new job of any plan by any node |
| Cluster.CrashedJobsAreFreed | src/workshop/Queue.cxx:493-532 | when a crashed node is back, its unfinished jobs can be claimed again, its finished ones are unchanged, and only its own operators are gone |
| WorkshopOperator.ClaimAndStart | src/workshop/Queue.cxx:187-195 | claim and start are one protocol step: an operator exists exactly if the claim took effect, with the timer equal to the lease |
| WorkshopOperator.Operator.constructor | src/workshop/Operator.cxx:74-84 | the timer is armed on construction, for explicit timeouts only |
| WorkshopOperator.Operator.OnProgress | src/workshop/Operator.cxx:407-421 | renews lease and timer as one protocol step, only the timer if the statement fails, and does nothing after the exit; the row has the progress and the lease, the timer the same deadline |
| WorkshopOperator.Operator.OnChildProcessExit | src/workshop/Operator.cxx:465-529 | gives the job back if it asked to run again, else it is done now with the exit code, the errno, or a fixed negative status, which is 0 exactly for an exit with 0; one protocol step; a failed statement leaves the row as it is |
| WorkshopOperator.Operator.OnTimeout | src/workshop/Operator.cxx:397-405 | the job is done now with status -110, as one protocol step, or the statement fails |
| WorkshopOperator.Operator.Cancel | src/workshop/Operator.cxx:367-376 | the job is done now with status -125, as one protocol step, or the statement fails |
| WorkshopOperator.Operator.OnTaskError | src/workshop/Operator.cxx:378-387 | a failed start is done now with status -5, as one protocol step, or the statement fails |
| WorkshopNode.Workplace.GetRunningPlanNames | src/workshop/Workplace.cxx:53-61 | exactly the plans of the operators |
| WorkshopNode.Workplace.GetFullPlanNames | src/workshop/Workplace.cxx:63-85 | exactly the plans with a nonzero limit and at least that many operators |
| WorkshopNode.Queue.SetFilter | src/workshop/Queue.cxx:162-177 | a changed include or exclude list interrupts a run in progress or schedules one; the low-priority list does neither |
| WorkshopNode.Queue.EnableFull | src/workshop/Queue.cxx:346-355 | wakes the queue up if it was disabled because the node was full |
| WorkshopNode.Queue.GetNextScheduled | src/workshop/Queue.cxx:67-96 | two to six hundred seconds, after the next scheduled job is due unless that is too far off; -1 exactly without one |
| WorkshopNode.SelectsTheFirst | src/workshop/PGQueue.cxx:53-66 | the rows selected are the first sixteen of an included and not excluded plan, in their order |
| WorkshopNode.SelectMembers | src/workshop/Queue.cxx:235-246 | a select that returns fewer rows than its limit has missed none |
| WorkshopNode.StartedMembers | src/workshop/Queue.cxx:180-197 | a job runs after a row list was walked exactly if its plan is known, it is local, no rate limit was hit, it was claimed and its start did not fail |
| WorkshopNode.KeptCounts | src/workshop/Workplace.cxx:116-142 | cancelling never raises the number of operators of any plan |
| Common.KeptIsKept | src/workshop/Workplace.cxx:116-142 | what a removal leaves holds no chosen member, and every other one as often and in the order it was there |
| WorkshopNode.StartKeepsLimits | src/workshop/Workplace.cxx:63-99 | starting a job of a plan which is not full keeps every plan within its limit |
| WorkshopNode.Partition.UpdateFilter | src/workshop/Partition.cxx:106-138 | afterwards the include list is the available plans without unexpired rate limit, the exclude list the full plans and the low-priority list the running plans; without interrupt include and exclude are unchanged |
| WorkshopNode.Partition.OnChildProcessExit | src/workshop/Partition.cxx:251-263 | restores the invariant and wakes a full queue up |
| WorkshopNode.Partition.OnExit | src/workshop/Workplace.cxx:101-114 | removes that operator, keeps capacity and limits, wakes a full queue up |
| WorkshopNode.Partition.Cancel | src/workshop/Workplace.cxx:116-142 | none of the chosen operators remains and every other one does, in order; keeps capacity and limits, wakes a full queue up |
| WorkshopNode.Partition.CheckWorkshopJob | src/workshop/Partition.cxx:204-238 | agrees exactly to a local job on a node with room and no rate limit hit, and then leaves the filter alone; a plan that hit its limit leaves the include list until its delay is over |
| WorkshopNode.Partition.StartWorkshopJob | src/workshop/Partition.cxx:240-249 | keeps capacity, limits, full flag and filter, also when the start fails at once and calls back |
| WorkshopNode.Partition.RunResult | src/workshop/Queue.cxx:179-197 | no row of a stale list exceeds its plan's limit or the capacity; of the rows visited exactly those that were claimed and whose start did not fail are started, in order; all are visited without interrupt, disabling or malformed row |
| WorkshopNode.Partition.Run2 | src/workshop/Queue.cxx:199-291 | the operators are the old ones and the jobs started from the two selects, the second one for the plans running by then; if the run ends by arming the long timer, every row that stayed eligible, of an included plan which is not full, was visited, although the low-priority list changed in between; the timer fires soon after the next scheduled job is due, in ten minutes at most; expired jobs are looked for once a minute |
| WorkshopNode.Partition.Run | src/workshop/Queue.cxx:293-312 | an enabled queue with plans runs, and the node is within capacity and limits and disabled exactly when full whenever control returns to the event loop |
| RateLimit.CheckRateLimit | src/workshop/Partition.cxx:187-202 | zero exactly if every limit passes, else the delay of the first one that does not |
| RateLimit.Remaining | src/workshop/PGQueue.cxx:214-225 | what the query answers when the last `max_count` starts are all recent |
| RateLimit.StartsAreSpread | src/workshop/PGQueue.cxx:68-74 | `max_count` starts after any start, more than the duration less one second has passed |
| RateLimit.RollingRateLimit | src/workshop/Partition.cxx:204-238 | no closed window of the duration less one second holds more than `max_count` starts, for each of the plan's limits |
| RateLimit.WindowIsTight | src/workshop/PGQueue.cxx:214-225 | one microsecond more can hold one start too many, for every limit |
| CronTable.OnceIsNeverPendingAgain | src/cron/CalculateNextRun.cxx:110-168 | after `finish_job` took effect on an `@once` row it is never pending again, in any interleaving on any number of nodes |
| CronTable.StepKeepsDelays | src/cron/CalculateNextRun.cxx:39-73 | a stored delay range of zero implies a stored delay of zero, for rows and for what schedulers have read |
| CronTable.OnceIsRunAgainOnlyWhenStale | src/cron/Queue.cxx:65-77 | after `finish_job` took effect on an `@once` row no node ever holds it again if and only if no claim that takes effect is stale |
| CronTable.OnceIsClaimedAfterFinish | src/cron/Queue.cxx:65-70 | `claim_job` does not test `next_run`, so while a finished `@once` row is enabled and free any node can claim it from a stale result |
| CronTable.OnceIsRun | src/cron/CalculateNextRun.cxx:110-168 | a new `@once` row is scheduled, claimed and finished by any node, and is free again |
| CronTable.OccurrencesIncreaseExactly | src/cron/CalculateNextRun.cxx:110-168 | in every state of a run, on any number of nodes, the finished occurrences are strictly increasing schedule matches and each scheduled or running one is later than they are, if and only if every claim that takes effect finds a `next_run` and every write covers what was finished |
| CronTable.WriteCoversExactly | src/cron/CalculateNextRun.cxx:124-156 | a write schedules a new occurrence if and only if it starts from the last finished one or later, or `Next` passes over that one |
| CronTable.WriteSkipsNothing | src/cron/CalculateNextRun.cxx:124-156 | with one delay, a write schedules a match on the first day that has one after the last run less the delay, and the first match of all where `Next` is exact: no occurrence is left out |
| CronTable.UncoveredOccurrenceFires | src/cron/CalculateNextRun.cxx:124-156 | after any other write an occurrence that was finished, or an earlier one, can be run without any stale claim |
| CronTable.ClaimWithoutNextRunFires | src/cron/Queue.cxx:65-77 | any other claim runs the job, and no occurrence is used up |
| CronTable.FinishedOccurrencesIncrease | src/cron/CalculateNextRun.cxx:124-156 | if no claim is stale and all delays rolled agree with each other and with a stored one, both conditions hold, and the occurrences strictly increase |
| CronTable.OneRollIsEnough | src/cron/CalculateNextRun.cxx:61-73 | so they do for a new row whose delay is rolled once, by whichever node, or whose range is at most one second |
| CronTable.TwoRollsRepeatAnOccurrence | src/cron/CalculateNextRun.cxx:61-73 | two nodes that roll 0 and 1 for a new row let any scheduled time of any schedule fire twice |
| CronTable.EarlyClaimRepeatsAnOccurrence | src/cron/Queue.cxx:65-70 | and so does, after a single roll, one claim of a row that is not due yet |
| CronTable.CronDatabase.ClaimJob | src/cron/Queue.cxx:65-70 | claims exactly an enabled free row for five minutes, as the step of the protocol does |
| CronTable.CronDatabase.FinishJob | src/cron/Queue.cxx:72-77 | frees exactly a row of this node, with the last run now and no next one, as the step of the protocol does |
| CronTable.CronDatabase.ReleaseStaleJobs | src/cron/Queue.cxx:49-54 | frees exactly the rows of this node, as the step of the protocol does |
| CronTable.CronDatabase.ExpireJobs | src/cron/Queue.cxx:56-63 | frees exactly the rows of other nodes whose claim is over, as the step of the protocol does |
| CronTable.CronDatabase.CalculateNextRun | src/cron/CalculateNextRun.cxx:110-168 | every selected row gets a delay in range and the schedule's next run after the last occurrence, delayed, up to the first row whose schedule names no date: that one only gets its delay, and the rows behind it are not reached; no other row changes |
| CronTable.ScheduledAfterTheLastRun | src/cron/CalculateNextRun.cxx:124-156 | the time inside the new `next_run` is on the first day that has a match after the last run less its stored delay, and the first match of all where `Next` is exact |
| CronCluster.RefinesTheTable | src/cron/Queue.cxx:49-77 | while nodes run jobs, lose their results, crash and reconnect, the row goes through a run of the table protocol |
| CronCluster.ClaimSafety | src/cron/Queue.cxx:49-77 | if every run ends within its claim and no node reconnects under its runs, the job runs at most once at a time and its run holds the claim |
| CronCluster.AssumptionsAreExact | src/cron/Queue.cxx:298-316 | after any such run of the protocol, the next step keeps to this if and only if no continuation that does so too runs the job twice at once |
| CronCluster.RunsTwice | src/cron/Queue.cxx:56-70 | every other step leads to two runs, the second one on any node |
| CronCluster.LongJobRunsTwice | src/cron/Queue.cxx:298-316 | the claim is not renewed: whoever starts the job, once it has run for longer than five minutes any node can start it again |
| CronNode.CronPartition.OnChildProcessExit | src/cron/Partition.cxx:133-141 | enables a full queue again and arms the claim timer |
| CronNode.CronPartition.OnCompletion | src/cron/Workplace.cxx:104-173 | removes that job and gives its row back unless the claim was lost, keeps the capacity invariant, wakes a full queue up |
| CronNode.CronPartition.Cancel | src/cron/Workplace.cxx:378-404 | none of the chosen jobs remains and every other one does, in order; the rows of the chosen ones are given back; keeps the capacity invariant, wakes a full queue up |
| CronNode.CronPartition.OnJob | src/cron/Partition.cxx:97-131 | the whole new state for a foreign sticky id, a lost race, a start that throws, completes at once or runs; the row is no longer due, and the node is disabled exactly when full |
| CronNode.CronPartition.CheckPending | src/cron/Queue.cxx:347-383 | takes a row that is due first and does with it what becomes of it; none exactly if nothing is due or the queue is disabled; asks for more exactly if it took one and is enabled |
| CronNode.CronPartition.FindEarliestPending | src/cron/Queue.cxx:239-257 | none exactly without visible rows, else the seconds until the earliest of them, cut towards zero, negative for a past one, a day at most |
| CronNode.CronPartition.WaitForEarliest | src/cron/Queue.cxx:267-280 | the loop waits only if no row is due, with the timer in the half minute after the earliest one is, to the second |
| CronNode.CronPartition.RunClaim | src/cron/Queue.cxx:259-291 | takes rows one after another, each time one due first, and nothing else changes; the loop ends, and unless a query fails it ends with the queue disabled or no row due; a visible row never lacks a timer |
| Sticky.StickyManager.IsLocal | src/StickyManager.cxx:70-96 | the host name of the winner, highest score and then first key; local exactly if at most one node is known or the winner is our own |
| Sticky.StickyManager.OnAvahiNewObject | src/StickyManager.cxx:98-107 | puts the node into the map in key order |
| Sticky.PutMembers | src/StickyManager.cxx:98-107 | only the entry of that key is new or replaced, and key order is kept |
| Sticky.PutSize | src/StickyManager.cxx:98-107 | a new key adds an entry with its host name, a known one keeps the number of entries |
| Sticky.StickyManager.OnAvahiRemoveObject | src/StickyManager.cxx:109-113 | drops the key from the map |
| Sticky.DropMembers | src/StickyManager.cxx:109-113 | only the entry of that key is gone, and key order is kept |
| Sticky.DropSize | src/StickyManager.cxx:109-113 | one entry less if the key was known, else none |
| Sticky.ExactlyOneNodeIsLocal | src/StickyManager.cxx:70-96 | if all nodes know the same nodes, exactly one of them finds an id local |
| Sticky.RemovalMovesOnlyItsIds | src/StickyManager.cxx:109-113 | removing a node moves only the ids it held |
| Sticky.AdditionMovesOnlyToIt | src/StickyManager.cxx:98-107 | adding a node moves exactly the ids it beats their holder for, and only to it |
| Sticky.AppearanceExposes | src/StickyManager.cxx:98-107 | a new or updated node makes a foreign id local if and only if it is our own and comes in first, or it held the id and falls back behind our own |
| Sticky.DisappearanceExposes | src/StickyManager.cxx:109-113 | a removal makes a foreign id local if and only if one node is left, or the node held the id and our own is next |
| Sticky.CacheIsSound | src/StickyTable.cxx:29-39 | from a flush or connect on, the filter hides only ids which are not local all the time if and only if no event exposes a hidden id in one of these ways |
| Sticky.FlushHeals | src/StickyTable.cxx:35-39 | a flush or connect puts any cache right |
| Sticky.ExposedIdStaysHidden | src/StickyTable.cxx:29-39 | every such event after a check of the id leaves a local id hidden |
| Sticky.WaysToExpose | src/StickyManager.cxx:98-113 | the winner disappears, moves to an address with a lower score, or our own node appears |
| PipeCapture.PiecesAreTheText | src/PipePondAdapter.cxx:54-82 | the pieces joined by newlines are the text, and none holds a newline |
| PipeCapture.LinesAppend | src/PipePondAdapter.cxx:54-82 | more text keeps the complete lines and continues the unfinished one |
| PipeCapture.StreamOn | src/PipePondAdapter.cxx:54-82 | sending the newly completed lines gives the log of the longer text |
| PipeCapture.EndOfPipe | src/PipePondAdapter.cxx:54-82 | flushing the unfinished line gives the log of the whole text |
| PipeCapture.BatchIsLogOfPieces | src/PipePondAdapter.cxx:19-52 | a batch sends the nonempty pieces in order, cut to 1024 bytes, until one holds a NUL byte or cannot be sent |
| PipeCapture.PipePondAdapter.SendLines | src/PipePondAdapter.cxx:54-82 | sends exactly the complete lines from the position on, with flush also the last piece, until a NUL byte or a failed send |
| PipeCapture.PipePondAdapter.OnAppend | src/PipeCaptureBuffer.cxx:30-34 | appends the bytes and sends exactly the newly completed lines |
| PipeCapture.PipePondAdapter.OnEnd | src/PipePondAdapter.cxx:54-82 | the log becomes the batch log of everything captured |
| PipeCapture.PipePondAdapter.OnSocket | src/PipeCaptureBuffer.cxx:17-43 | however the input is cut into reads, the buffer is its first `capacity` bytes and at the end of pipe or when full the log is the batch log of those bytes |
| Expand.RenderTokenize | src/Expand.cxx:9-32 | every string is the rendering of its tokens |
| Expand.TokenizeRender | src/Expand.cxx:9-32 | a template of literals without `${` and keys without `}` has no other tokens |
| Expand.Expand | src/Expand.cxx:9-32 | token-level substitution on every string: missing keys become empty, values are not read again, an unterminated tail stays |

## Left out

- The calendar functions, `StripLeft`, `strtoul` and the character classes come from libraries outside the repository; they are modelled by their usual definitions.
- Times are whole seconds (microseconds for rate limits and the cron claim loop); the 64 bit range of time points appears only where `max()` plus a delay wraps.
- Time zone conversion: every cron row is taken to be in UTC, because the rules live in the database.
- PostgreSQL itself, connection handling, encodings of arrays and intervals, and the notification channels except `job_done`.
- Spawning, namespaces, cgroups, control channel and coroutines: a start fails at once, or the job runs until it exits, times out or is cancelled.
- Claim and start, and each operator event, are one step; what other nodes do between a statement and the end of the handler that sent it is not interleaved.
- The plan library's files: which plans are available may change at any exit, but the limits of a plan are fixed.
- Schedule.Next: where the search does not end the model returns no answer; `CronTable.CronDatabase.CalculateNextRun` then ends its pass at that row.
- RateLimit.RollingRateLimit: one claiming node, one row per start and no reaping within the window; a job that is run again overwrites its start time.
- CronNode.CronPartition.RunClaim: the clock stands still and no row is inserted or rescheduled during one run; an exception in `claim_job` counts as a lost race, and `finish_job` succeeds (`CronCluster` has the case that it fails).
- WorkshopNode.Partition.Run2: says when the expiry statement is sent; what it does to the table is a step of the cluster protocol.
- Publication of the own node, log messages, log bridge, progress reader, email, configuration, command line and control client.
