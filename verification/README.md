# 5-Spot: a verified model of its decision cores

5-Spot turns schedules into machine and capacity state. This project models the parts of it that
decide, and proves what they do over all inputs and all runs:

- the two **schedule providers** (weekly windows and exchange calendars): from range text to the
  published status, its timed wake-ups, and what a run of them publishes at every instant
  (`Ranges`, `Schedule`, `Transition`, `Json`, `Provider`);
- the **capacity controller**: its decision table and the reconcile around it, iterated over runs with
  failed writes, failed status patches, conflicts and spec edits (`SpotSchedule`, `Capacity`), and the
  path from a schedule to the number on the owned object (`EndToEnd`);
- the **Kata config agent**: the atomic host write and the record-before-restart protocol, with a crash
  possible between any two steps and the world changing underneath (`HostFile`, `KataAgent`), and its
  own input checks against the CRD schema's languages (`KataRef`, `Regex`);
- **capacity paths**: validation, injection into a template, readback (`CapacityPath`);
- the reclaim-loop tracker (`LoopProtection`) and the netlink frame decoder (`Netlink`).

`Base` and `Text` hold wrappers and the string operations of the Rust standard library. Where the
source updates state step by step the model has a method or a class with fields, proved against a
specification function; the lemmas are about those functions.

`dafny verify dfyconfig.toml` checks the whole project.

## What is assumed

- An instant is a whole number of nanoseconds since the epoch, without bound. A time zone is any
  function from instants to offsets in seconds. The texts of dates and instants are functions given
  from outside. "Valid" means: the zone name is known and every range parses.
- A merge patch follows section 2 of RFC 7396. Server-side apply of a complete spec replaces the object
  the controller owns.
- SHA-256 is an arbitrary function; no lemma needs it to be injective, and the one place where a
  collision would show (`HostFile.SyncReachesSourceExactly`) says so.
- Only the agent writes the applied annotation and restarts the host service, one agent runs per Node,
  and a service that restarts loads the drop-in as it is then.

## Where the code and its promises part

Each of these is proved, with the condition under which the promise does hold.

- **A conflict on an unresolved target.** The decision asks for a zero, nothing is applied because the
  target was not discovered, and the status records the zero as written (`src/reconcilers/scheduled_capacity.rs:246-261`
  and `555-560`, whose comment calls the case unreachable). From then on the suppressed write leaves
  conceded capacity in place for as long as the conflict lasts: `Capacity.ConflictLeavesCapacity`.
  This and a write over a recorded value whose status patch fails are the only two ways the target can
  come to miss its value: `Capacity.StepKeepsRecordExactly`, `Capacity.HoldsThroughoutExactly`.
- **Holding the last state while the provider is unresolved.** The capacity controller stores the
  verdict's own value, which is null when unresolved (`src/reconcilers/scheduled_capacity.rs:725`), so
  the hold promised at `src/crd.rs:1632-1633` and `src/crd.rs:1078-1079` lasts until the first reconcile
  that is recorded: `Capacity.HoldLastsOneReconcile`, `Capacity.SecondUnresolvedZeroes`. The machine controller keeps
  the previous value instead and does hold: `Capacity.MachineControllerHolds`.
- **Edits of template or field.** Suppression looks at the value alone, so over a recorded value such an
  edit reaches the object exactly with the first reconcile that changes the value and can write it:
  `Capacity.ShapeEditAppliedExactly`, `Capacity.ObjectIsOfLastApplied`; over runs, with the exact
  condition step by step, `Capacity.SettlesThroughoutExactly`.
- **The handback clock and lost status patches.** A deadline on record never moves, whatever fails. But
  if the status of the first waiting reconcile is lost, nothing remembers that the wait began, and the
  clock starts over with the first one that is recorded: `Capacity.FirstRecordedWaitSetsTheClock`,
  `Capacity.ClockStartsWithTheWaitExactly`.
- **The published next transition.** The provider omits the member when it finds none, and a merge patch
  keeps what it omits: `Provider.NextTransitionMemberExactly`, `Provider.StaleNextTransitionSurvives`.
- **Retrying a restart.** A restart that fails after the record, or is lost to a kill, is not retried,
  although `src/kata_config_agent.rs:566-567` says it is: `KataAgent.RestartExactlyWhenDue`,
  `KataAgent.RestartLostExactly`, `KataAgent.LostRestartStaysLost`, `KataAgent.IssuedRestartIsNotRetried`.
- **At most one restart for one content.** True from every tick that started under the current reference
  and source. An edit in mid-tick leaves a stale tick that still restarts for what it fetched; the most
  that can follow are the restart the tick owes and the one that its record then calls for, and two
  happen exactly when it owes one for something else than is now called for, even if what is called for
  was on record: `KataAgent.RestartsConserved`, `KataAgent.MostRestartsExactly`,
  `KataAgent.StaleTickRestartsTwice`.
- **Equal hashes mean the service was restarted for this content** (`src/kata_config_agent.rs:600-602`).
  The service has loaded the source exactly when the one restart worked and the drop-in still was the
  source then; otherwise what it has loaded stays, and only the file is put right:
  `KataAgent.SourceLoadedExactly`, `KataAgent.NothingLoadedAgain`, `KataAgent.GapEditStaysLoaded`.
- **A reference set while a tear-down is under way.** The last PATCH drops the label although the Node
  has a reference again, exactly when the last reference set since the tear-down's read is not an empty
  one: `KataAgent.LabelFallsFromReferenceExactly`, `KataAgent.LateReferenceLosesLabel`. Without such an
  edit it never does, whatever else is edited: `KataAgent.LabelFallsWithoutReference`.
- **Fractional offsets.** Sparse wake-ups equal continuous evaluation exactly when activity is constant
  over each UTC hour; with a fixed offset, exactly when it is a whole number of hours or nothing ever
  flips: `Provider.SparseEqualsContinuous`, `Provider.CurrentForFixedOffsets`. In any zone the published
  value is less than an hour old: `Provider.StaleWithinTheHour`.
- **The horizon and daylight saving.** Eight days suffice for every weekly schedule from a given instant
  exactly when the local clock shows every hour of the week at some instant the scan looks at, as with a
  fixed offset; an hour skipped by a clock put forward can be missed, and the next transition with it:
  `Transition.HorizonSufficesExactly`, `Transition.SkippedHourIsMissed`.
- **The handback deadline** is kept on timeout (`src/reconcilers/capacity_decision.rs:288`), not cleared
  as `src/crd.rs:1842-1843` says; the model follows the code.

## Model

| member | source | states |
|---|---|---|
| `Ranges.ParseDayRanges` | src/crd.rs:1156-1222 | the nested loops with their early errors compute the fold of the pieces: first error wins, otherwise the union |
| `Ranges.ParseHourRanges` | src/crd.rs:1229-1285 | the same for hours, with the u8 parse, the bound of 23 and the leading-hyphen rule |
| `Ranges.InsertRange` | src/crd.rs:1196-1208 | one or two runs of inserts add exactly the cyclic interval, given both as forward distance and as a wrap-around test |
| `Ranges.ParsedIsUnionOfPieces` | src/crd.rs:1167-1221 | a parse succeeds exactly when every piece does, and is then the union of what the pieces denote, within the axis |
| `Ranges.RangeTextIsCyclic` | src/crd.rs:1258-1271 | the text `a-b` denotes the cyclic interval from a to b, for all days and all hours |
| `Ranges.PaddedRangeIsCyclic` | src/crd.rs:1178-1194 | the same with white space at all four places and with any numeral for an hour, plus sign and leading zeros included |
| `Ranges.PieceAcceptedExactly` | src/crd.rs:1169-1219 | a piece is accepted exactly when, trimmed, it names a point, or has one hyphen and names a point on either side once trimmed |
| `Ranges.PointExactly` | src/crd.rs:1209-1217 | a piece without a hyphen: the point it names, or which error; for hours also a piece that starts with one |
| `Ranges.RangeExactly` | src/crd.rs:1173-1194 | a piece with one hyphen: the cyclic interval, or which error for which side, raw or trimmed as reported |
| `Ranges.ManyHyphensRefused` | src/crd.rs:1176-1178 | a piece with more hyphens is malformed |
| `Ranges.HyphenForms` | src/crd.rs:1173-1178 | every text has one of these three forms |
| `Ranges.DayNumberExactly` | src/crd.rs:1157-1165 | the seven names, their numbers, and nothing else |
| `Ranges.ParseU8Exactly` | src/crd.rs:1243-1251 | an hour text is read exactly if it is an optional plus and digits of a value up to 255 |
| `Ranges.DecimalByDigits` | src/crd.rs:1243-1251 | that value digit by digit; leading zeros do not count |
| `Ranges.ConcatenatedListsUnion` | src/crd.rs:1169-1219 | concatenating entry lists unions their sets; the earlier list's error wins |
| `Ranges.CommaIsSeparateEntries` | src/crd.rs:1170-1171 | a comma inside an entry behaves exactly like two entries, errors included |
| `Ranges.PaddingIsIgnored` | src/crd.rs:1171 | white space around a piece never matters |
| `Ranges.PrintParseRoundTrip` | src/crd.rs:1156-1285 | every non-empty set of days or hours has a spelling that parses back to it |
| `Schedule.ValidMeansEvaluable` | src/providers/time_based.rs:80-103 | a valid spec evaluates at every instant; an invalid weekly one fails at every instant with one and the same error |
| `Schedule.LocalClockRolls` | src/providers/time_based.rs:97-100 | hours roll over into days and days into weeks, and the epoch is a Thursday |
| `Schedule.LocalHourFollowsOffset` | src/providers/time_based.rs:88-100 | the local hour for every zone and sign: where the instant lies with the offset added; it moves with whole hours of offset and is monotone in it |
| `Schedule.WindowInUtc` | src/providers/time_based.rs:88-103 | a window in a zone whole hours east or west is open at exactly the UTC hours shifted by the offset |
| `Schedule.WestOfGreenwich` | src/providers/time_based.rs:88-100 | 14:00 UTC five hours west is nine o'clock |
| `Schedule.WeeklyActiveExactly` | src/providers/time_based.rs:80-103 | active exactly when enabled and weekday and hour are listed; disabled is inactive with nothing else read |
| `Schedule.EvaluationErrors` | src/providers/capital_markets.rs:80-133 | which error both providers fail with, in the source's order of reading |
| `Schedule.WrittenWindowMeans` | src/providers/time_based.rs:72-103 | a weekly spec written out from a set of days and a set of hours is active exactly on them |
| `Schedule.EvaluateMarket` | src/providers/capital_markets.rs:89-133 | the session loop with its early exit computes the calendar function, errors included |
| `Schedule.FirstClose` | src/providers/capital_markets.rs:126-130 | the first early close listed for a date is the one consulted |
| `Schedule.MarketOpenExactly` | src/providers/capital_markets.rs:80-133 | open exactly when no holiday, some session covers weekday and hour, and the first early close of the date is not past |
| `Schedule.WholeHourIsHourConstant` | src/providers/time_based.rs:21-24 | in a zone of whole-hour offsets changing on whole UTC hours, activity is constant over each UTC hour |
| `Transition.FindNextTransition` | src/providers/time_based.rs:112-133 | the hour-by-hour loop computes the scan, errors and horizon included |
| `Transition.ScanFindsFirst` | src/providers/time_based.rs:126-132 | the scan answers the first differing hour, or none when all agree |
| `Transition.ScanExactly` | src/providers/time_based.rs:126-132 | for every spec, valid or not: the first hour that does not evaluate to the current activity decides, by its instant or its error |
| `Transition.NextTransitionIsFirstFlip` | src/providers/capital_markets.rs:135-164 | for both providers, where activity is constant over UTC hours, a found transition is the first flip among all instants, and none means no flip up to the horizon |
| `Transition.HorizonIsComplete` | src/providers/time_based.rs:105-133 | weekly schedule, any fixed offset: none is found exactly when it never flips, exactly when it is disabled, has no days, has no hours, or covers the week |
| `Transition.HorizonSufficesExactly` | src/providers/time_based.rs:105-133 | any zone, any instant: none is found only for such degenerate schedules exactly when the local clock shows all 168 hours of the week at the instants scanned |
| `Transition.SteadyWeekCovers` | src/providers/time_based.rs:118-132 | for that it is enough that the offset stays the same over some 168 consecutive of the 192 hours |
| `Transition.SkippedHourIsMissed` | src/providers/time_based.rs:105-133 | Sundays at two, scanned over the Sunday that skips two: none is found, and a week later the schedule is active |
| `Transition.FixedOffsetHourConstant` | src/providers/time_based.rs:21-24 | with a fixed offset, activity is constant over UTC hours exactly when the offset is whole hours or nothing ever flips |
| `Json.MergeIdempotent` | src/providers/time_based.rs:215-220 | sending any merge patch a second time changes nothing |
| `Provider.Controller.Reconcile` | src/providers/time_based.rs:195-244 | the stored status and the wake-up after a reconcile, evaluation errors and a failed PATCH included; the wake-up is strictly later |
| `Provider.RequeueIsPositive` | src/providers/capital_markets.rs:264-272 | for every spec, valid or not, the requeue is positive: to the transition when there is one, six hours when there is none, 30 seconds after an error |
| `Provider.PublishedMembers` | src/providers/capital_markets.rs:177-221 | every member of the stored status after a reconcile, whatever was stored before: the transition time is kept exactly when the stored status said the same and since when, else it is now; reason and message word by word |
| `Provider.ErrorsPublishNothing` | src/providers/time_based.rs:195-244 | a schedule that does not evaluate leaves the stored status alone and is retried in 30 seconds |
| `Provider.TransitionTimeOfStretch` | src/providers/time_based.rs:157-163 | over every sequence of reconciles the published transition time is that of the one that began the current unbroken stretch of equal activity, or the stored one if it began before |
| `Provider.TransitionTimeOfRun` | src/providers/time_based.rs:157-163 | the same for every run, watch events and failed PATCHes included |
| `Provider.ReadersSeeTheSchedule` | src/reconcilers/spot_schedule.rs:127-159 | a reader of the stored status gets exactly the schedule's activity and generation |
| `Provider.NextTransitionMemberExactly` | src/providers/time_based.rs:183-185 | the published next transition is right exactly when there is one or none was stored |
| `Provider.StaleNextTransitionSurvives` | src/providers/time_based.rs:183-185 | as long as no reconcile finds a transition, a stored one stays, however many follow |
| `Provider.NextTransitionIsStable` | src/providers/time_based.rs:112-133 | until the transition it found, a later scan finds the same one |
| `Provider.NoSelfTrigger` | src/providers/time_based.rs:135-187 | any number of reconciles before the published transition leave the stored status unchanged |
| `Provider.DegenerateSettles` | src/providers/time_based.rs:135-187 | a schedule that never flips settles after one reconcile, for good |
| `Provider.StaleWithinTheHour` | src/providers/time_based.rs:12-24 | in any zone, whatever watch events woke it and whatever PATCHes failed before, once the last one landed what a run publishes at t is the activity at an instant of the same UTC hour not after t, and readers see that |
| `Provider.SparseEqualsContinuous` | src/providers/time_based.rs:235-243 | every run, watch events included, publishes the right activity at every instant whose last PATCH landed, exactly when activity is constant over UTC hours |
| `Provider.CurrentForFixedOffsets` | src/providers/capital_markets.rs:264-272 | with a fixed offset: exactly when it is whole hours or nothing ever flips |
| `Provider.CurrentInWholeHourZones` | src/providers/capital_markets.rs:25-29 | in whole-hour zones, daylight saving included, the published activity is always right |
| `SpotSchedule.VerdictExactly` | src/reconcilers/spot_schedule.rs:114-174 | unresolved exactly when no boolean is published or the first Ready condition is not True; otherwise the boolean passes through |
| `Capacity.DecideMeans` | src/reconcilers/capacity_decision.rs:142-316 | write, phase, reason, flags and deadline, each by its own condition; the active value is never written under conflict, kill switch or while disabled |
| `Capacity.Controller.Reconcile` | src/reconcilers/scheduled_capacity.rs:165-280 | the object and status after a reconcile under every fault, and when it reports success |
| `Capacity.SoundReconcileMeans` | src/reconcilers/scheduled_capacity.rs:195-261 | from what is observed: the active value exactly without conflict and kill switch, enabled and with the schedule active, else zero; the object replaced unless that is on record |
| `Capacity.StatusAfterExactly` | src/reconcilers/scheduled_capacity.rs:214-277 | phase, deadline, written value and stored verdict after a recorded reconcile, each from what is observed |
| `Capacity.FaultsExactly` | src/reconcilers/scheduled_capacity.rs:244-277 | every fault by what the same reconcile does without it; an unresolved target is not touched |
| `Capacity.TargetAfterExactly` | src/reconcilers/scheduled_capacity.rs:246-261 | the object is replaced as a whole by a reconcile that intends a value other than the recorded one and can write it, and touched by no other |
| `Capacity.RecordTrueExactly` | src/reconcilers/capacity_decision.rs:318-329 | suppressing writes leaves the intended value for all observations exactly when the record is the value on the object |
| `Capacity.InSyncExactly` | src/reconcilers/capacity_decision.rs:318-329 | and the whole intended object exactly when, besides, the object was built from that template and field |
| `Capacity.SettledExactly` | src/reconcilers/capacity_decision.rs:318-329 | for every state and observation: a reconcile leaves the whole intended object exactly when it applies, or the object was already that one |
| `Capacity.StepKeepsRecordExactly` | src/reconcilers/scheduled_capacity.rs:244-277 | a reconcile keeps the record true exactly unless its write loses its record, or it records a zero it did not apply, template and field edited at will |
| `Capacity.StepKeepsSyncExactly` | src/reconcilers/scheduled_capacity.rs:244-277 | and keeps the whole object as a spec of a given shape wants it exactly when, besides, no value stays on record in an object of another shape |
| `Capacity.RunKeepsTarget` | src/reconcilers/capacity_decision.rs:142-329 | over every run that does neither, all parts of the spec edited and writes failing, the target holds the intended value after every completed reconcile, and a write over a recorded value changes it |
| `Capacity.HoldsThroughoutExactly` | src/reconcilers/capacity_decision.rs:318-329 | that is also needed: for every run from every state, exactly then every sound reconcile anywhere in the run leaves the intended value |
| `Capacity.SettlesThroughoutExactly` | src/reconcilers/scheduled_capacity.rs:527-534 | the same for the whole object, template and field edited at will: exactly when, besides, no edit finds a value on record in an object of another shape |
| `Capacity.ShapeEditAppliedExactly` | src/reconcilers/scheduled_capacity.rs:527-534 | an edit of template or field over a recorded value is on the object after a reconcile exactly when that reconcile applies |
| `Capacity.ObjectIsOfLastApplied` | src/reconcilers/scheduled_capacity.rs:527-560 | over every run the object is, shape and value, that of the last applying reconcile, and untouched if there was none |
| `Capacity.ConflictLeavesCapacity` | src/reconcilers/scheduled_capacity.rs:548-560 | capacity conceded before a conflict first seen on an unresolved target stays, through any number of reconciles under conflict |
| `Capacity.QuietAfterOne` | src/reconcilers/scheduled_capacity.rs:775-901 | after a sound reconcile the same observation again writes nothing and changes no status, unless the reconcile held a state or created the object under a drain signal |
| `Capacity.QuietAfterThree` | src/reconcilers/scheduled_capacity.rs:775-901 | in those cases too after two reconciles if the record was true, and after three from any state whatever |
| `Capacity.DeadlineExactlyWhileWaiting` | src/reconcilers/capacity_decision.rs:235-316 | in every run, a deadline is on record exactly in the two waiting phases |
| `Capacity.DeadlineNeverMoves` | src/reconcilers/capacity_decision.rs:277-316 | along an unbroken wait a recorded deadline is fixed, whatever the timeout is edited to and whatever writes and patches fail; the phase tells its side as of the last recorded reconcile, and a timeout is not left |
| `Capacity.FirstRecordedWaitSetsTheClock` | src/reconcilers/capacity_decision.rs:277-280 | the first recorded reconcile of a wait sets the deadline to its own instant plus the timeout then in force; before that there is none |
| `Capacity.ClockStartsWithTheWaitExactly` | src/reconcilers/scheduled_capacity.rs:244-277 | the deadline is the instant of the first waiting reconcile plus its timeout exactly when that reconcile was recorded, or the first recorded one names the same instant |
| `Capacity.HoldLastsOneReconcile` | src/reconcilers/scheduled_capacity.rs:723-730 | after any stretch of unresolved verdicts, faults included, the next one composes to active exactly when the last value was true and no reconcile of the stretch was recorded |
| `Capacity.LastRecordedVerdict` | src/reconcilers/scheduled_capacity.rs:723-730 | over every run the stored value is that of the last recorded verdict, null if it was unresolved |
| `Capacity.HeldValue` | src/reconcilers/scheduled_capacity.rs:195-210 | a sound reconcile with an unresolved verdict concedes exactly what the last recorded verdict said |
| `Capacity.SecondUnresolvedZeroes` | src/reconcilers/scheduled_capacity.rs:195-210 | two unresolved reconciles in a row take conceded capacity away |
| `Capacity.MachineControllerHolds` | src/reconcilers/scheduled_machine.rs:678-679 | the machine controller's rule composes the last resolved verdict through any number of unresolved ones |
| `EndToEnd.ScheduleReachesTheObject` | src/reconcilers/scheduled_capacity.rs:195-261 | in a whole-hour zone a sound reconcile at t leaves the active value on the object exactly when the schedule is active at t, else zero, and an object built from the current spec stays so |
| `HostFile.TempPath` | src/kata_config_agent.rs:289-296 | the temporary path never equals the destination and lies in the same directory |
| `HostFile.HostFs.AtomicWrite` | src/kata_config_agent.rs:307-329 | under every set of failing steps and at every crash point the destination is its whole old state or the whole new content; on success mode 0644 and no temporary file; after a failed rename the temporary file is gone exactly when removing it worked; nothing else moves |
| `HostFile.HostFs.RemoveIfPresent` | src/kata_config_agent.rs:337-343 | removes the file or leaves all as it was; an absent file is no error |
| `HostFile.HostFs.SyncContent` | src/kata_config_agent.rs:367-382 | host content and report after a sync under every set of faults, a failed read of the destination included |
| `HostFile.SyncReachesSourceExactly` | src/kata_config_agent.rs:269-286 | a completed sync leaves the source on the host exactly unless a different file with the same hash was there |
| `HostFile.SyncReportExactly` | src/kata_config_agent.rs:367-382 | written, deleted or unchanged, each exactly when; and a correction of drift exactly when a file was written whose hash was on record |
| `HostFile.SecondSyncIsUnchanged` | src/kata_config_agent.rs:367-382 | a second sync is Unchanged |
| `HostFile.DriftNeverRestarts` | src/kata_config_agent.rs:580-606 | the hash called for depends on the source alone, so correcting drift never asks for a restart |
| `KataAgent.RestartsAtMostChanges` | src/cmd/kata_config_agent.rs:194-264 | in every run, crashes anywhere, no more restarts than changes of the applied annotation |
| `KataAgent.RestartsConserved` | src/cmd/kata_config_agent.rs:194-264 | from every reachable state, in mid-tick or not, stale or not: while reference and source stay fixed, restarts issued, outstanding and given up by abandoned ticks add up to the same |
| `KataAgent.SurplusExactly` | src/cmd/kata_config_agent.rs:194-264 | an abandoned tick gives up restarts exactly when one was recorded and not issued, or the tick was stale |
| `KataAgent.MostRestartsExactly` | src/cmd/kata_config_agent.rs:245-262 | the outstanding restarts are the most that can happen, and can happen; at most one happens exactly unless the running tick owes one for something else than is called for; none exactly if none is owed and its record is what is called for |
| `KataAgent.StaleTickRestartsTwice` | src/cmd/kata_config_agent.rs:213-262 | the source edited, after the fetch, to what is on record: two restarts follow |
| `KataAgent.AtMostOneRestart` | src/cmd/kata_config_agent.rs:245-262 | from a tick that started under the current reference and source, and while they stay fixed, at most one restart is issued, none if the hash is on record |
| `KataAgent.RestartExactlyWhenDue` | src/kata_config_agent.rs:604-626 | some run without edits restarts exactly when the hash is not on record, and then one undisturbed tick does it |
| `KataAgent.RestartLostExactly` | src/cmd/kata_config_agent.rs:245-262 | from such a tick, restarts issued plus due are conserved over every run, except that the due one is lost exactly when a tick is killed between record and restart |
| `KataAgent.LostRestartStaysLost` | src/cmd/kata_config_agent.rs:248-262 | killed between record and restart, the agent never restarts for that content |
| `KataAgent.IssuedRestartIsNotRetried` | src/kata_config_agent.rs:560-569 | an issued restart, failed or not, is not repeated |
| `KataAgent.LabelFallsLast` | src/cmd/kata_config_agent.rs:141-155 | the label falls only at the end of a tear-down, after its unlink and together with the hash; the drop-in is then what others last put there since the unlink, and gone if nobody did |
| `KataAgent.LabelFallsWithoutReference` | src/cmd/kata_config_agent.rs:198-211 | over every run in which no reference is set while a tear-down is under way, whatever else is edited, the label falls only from a Node without one |
| `KataAgent.LabelFallsFromReferenceExactly` | src/cmd/kata_config_agent.rs:198-211 | in every run, the label falls from a Node with a reference exactly when the last reference set since the tear-down's read is not empty |
| `KataAgent.LateReferenceLosesLabel` | src/cmd/kata_config_agent.rs:141-155 | whatever was set since the read, a tear-down past its unlink drops label and hash at its next step and leaves the late reference standing |
| `KataAgent.LateReferenceRun` | src/cmd/kata_config_agent.rs:198-211 | such a run exists from every Node at rest without a reference, for every reference |
| `KataAgent.TearDownCompletes` | src/cmd/kata_config_agent.rs:183-211 | after any crash one undisturbed tick finishes the tear-down, and a later delivery restarts |
| `KataAgent.LoadedExactly` | src/cmd/kata_config_agent.rs:217-262 | over every run, edits anywhere: the service has loaded what the tick of the last working restart synced and recorded, or what others put in its place between sync and restart |
| `KataAgent.SourceLoadedExactly` | src/kata_config_agent.rs:599-606 | from rest to rest with the mark newly on record: the service has loaded the source exactly when the one restart worked and the drop-in then was the source, which it is if nobody edited it |
| `KataAgent.NothingLoadedAgain` | src/kata_config_agent.rs:599-606 | with the mark on record nothing is loaded or restarted again, whatever ticks, crashes and host edits follow |
| `KataAgent.GapEditStaysLoaded` | src/cmd/kata_config_agent.rs:217-262 | a file slipped in between sync and restart is loaded, corrected by the next tick, and never restarted away |
| `KataAgent.Agent.ReconcileOnce` | src/cmd/kata_config_agent.rs:194-264 | the tick as code, over the host's files, is a run of the protocol wherever it is cut short; completed, host, hash, label and restart count are where the reference wants them; no other file moves |
| `KataAgent.Agent.SyncDropIn` | src/cmd/kata_config_agent.rs:204-218 | a sync in the file system under every set of faults is the protocol's step, or a tick abandoned before or after that step |
| `KataAgent.Agent.TearDownHost` | src/cmd/kata_config_agent.rs:198-211 | unlink first, then hash and label in one PATCH |
| `KataAgent.Agent.SyncHost` | src/cmd/kata_config_agent.rs:213-243 | fetch and sync, and the hash they call for |
| `KataAgent.Agent.RecordThenRestart` | src/cmd/kata_config_agent.rs:245-262 | the hash is recorded before the restart is issued |
| `KataRef.NamespaceExactly` | src/kata_config_agent.rs:94-106 | the namespace check accepts exactly the schema's language |
| `KataRef.NameExactly` | src/kata_config_agent.rs:111-116 | the name check accepts the schema's language cut to labels of at most 63 characters |
| `KataRef.KeyExactly` | src/kata_config_agent.rs:120-125 | the key check accepts exactly the schema's language |
| `KataRef.UnitExactly` | src/kata_config_agent.rs:133-146 | the unit check accepts exactly the schema's language, nothing starting with a hyphen |
| `KataRef.ReferenceExactly` | src/kata_config_agent.rs:166-210 | a reference passes, unchanged, exactly when its kind is known and every field is in its language; otherwise the first bad field is named |
| `CapacityPath.FirstInvalid` | src/reconcilers/capacity_path.rs:166-172 | the segment reported is the first that is not a field name |
| `CapacityPath.PatternExactly` | src/constants.rs:824 | the dotted pattern is the split-and-scan test |
| `CapacityPath.SegmentsExactly` | src/reconcilers/capacity_path.rs:143-174 | the scan accepts exactly the pattern within 253 characters, and the pieces join back to the text |
| `CapacityPath.CapacityFieldExactly` | src/reconcilers/capacity_path.rs:203-216 | the field validator accepts exactly what the schema admits, reserved roots included |
| `CapacityPath.DrainedPathExactly` | src/reconcilers/capacity_path.rs:224-246 | the drain-path validator accepts exactly what the schema admits, and the first segment is status |
| `CapacityPath.FieldRefusedExactly` | src/reconcilers/capacity_path.rs:143-216 | which error a refused field gets, the first reason first |
| `CapacityPath.DrainedPathRefusedExactly` | src/reconcilers/capacity_path.rs:224-246 | which error a refused drain path gets |
| `CapacityPath.ReadI64At` | src/reconcilers/capacity_path.rs:322-334 | the cursor loop computes the lookup; a number is answered exactly when it is there and fits 64 bits |
| `CapacityPath.InjectByWalking` | src/reconcilers/capacity_path.rs:269-309 | the walk through the parents computes the injection, errors included |
| `CapacityPath.InjectSucceedsExactly` | src/reconcilers/capacity_path.rs:284-307 | injection succeeds exactly when everything on the way is an object or absent and the leaf is absent |
| `CapacityPath.InjectFailsExactly` | src/reconcilers/capacity_path.rs:290-306 | the error says which: the leaf is set, or where the first non-object is |
| `CapacityPath.InjectReadsBack` | src/reconcilers/capacity_path.rs:248-255 | the field reads back and every lookup not on the way to it is unchanged |
| `CapacityPath.InjectThenRemove` | src/reconcilers/capacity_path.rs:252-254 | removing the first member created gives the template back |
| `CapacityPath.InjectionExactly` | src/reconcilers/capacity_path.rs:269-309 | all of these for the whole operation, from the field's text |
| `CapacityPath.DrainIgnoresOwnWrite` | src/reconcilers/capacity_path.rs:36-38 | a valid drain path reads the same whatever was injected, whereas a path below spec would read the write back |
| `LoopProtection.Tracker.Prune` | src/loop_protection.rs:46-51 | pops from the front exactly the stale prefix |
| `LoopProtection.Tracker.Record` | src/loop_protection.rs:58-68 | prune, append, cap, and the flag |
| `LoopProtection.DequeExactly` | src/loop_protection.rs:39-68 | for every non-decreasing history the deque is its last min(10, k) events, k of them in the window, and the flag is k >= 3 |
| `LoopProtection.ThreeReclaims` | src/loop_protection.rs:58-68 | three reclaims in a row are a breach exactly within ten minutes |
| `LoopProtection.CappedDequeSuffices` | src/loop_protection.rs:74-77 | at any later instant the check on the capped deque agrees with the whole history |
| `Netlink.CnMsgRoundTrip` | src/netlink_proc.rs:328-349 | an encoded connector message parses to its payload whatever follows it |
| `Netlink.ExecRoundTrip` | src/netlink_proc.rs:362-395 | an encoded exec event parses to its pid and tgid |
| `Netlink.FrameRoundTrip` | src/netlink_proc.rs:641-666 | decoding an encoded datagram gives its pid and tgid for all ignored fields, extensions and trailing bytes |
| `Netlink.ExecByBytes` | src/netlink_proc.rs:328-395 | an exec datagram byte by byte, little-endian, with the connector and event numbers in digits |
| `Netlink.RefusedExactly` | src/netlink_proc.rs:328-395 | which error a message or event is refused with, and with which numbers |
| `Netlink.FrameDecodesOnlyEncodings` | src/netlink_proc.rs:328-395 | a datagram decodes to an exec event exactly when it is such an encoding |
| `Netlink.DroppedExactly` | src/netlink_proc.rs:641-666 | which datagrams are dropped, and under which discriminant the others are reported |
| `Netlink.ListenFrame` | src/netlink_proc.rs:578-592 | the listen frame states its own length and message type, and its connector message parses to the listen operation |

## Left out

- Kubernetes client calls, watches, controller wiring, leader election: only their success or failure is modelled, as faults.
- The machine controller's phases, drains and finalizers, apart from the value it holds for an unresolved provider.
- The IANA time zone database, calendar arithmetic and text formats of dates and instants: parameters.
- JSON, TOML and YAML text parsing; SHA-256; the netlink socket; `nsenter`; path canonicalisation of the destination.
- Messages in statuses and logs, metrics, health endpoints, labels, CLI, CRD and documentation generation, the VEX tools, the process scanner.
- Node taint validation and duration parsing: short filters whose properties are easy members.
- CapacityPath.InjectByWalking: the parents on the path are kept in a sequence and put back at the end, where the source mutates through references; aliasing is not modelled.
- HostFile.HostFs.AtomicWrite: says nothing about a temporary file left behind by a crash or a failed write, which the source leaves too. Directories are not modelled beyond the failure of creating them.
- KataAgent.SourceLoadedExactly: the if-and-only-if is for syncs without a hash collision and for a service that had not loaded the source before; what is loaded is stated without these conditions.
- Provider.SparseEqualsContinuous: a wake-up may come early, at a watch event, but not later than its requeue.
- Capacity.QuietAfterOne: compares the status fields modelled here; condition texts and their time stamps are left out.
- LoopProtection.DequeExactly: stated for clocks that do not run backwards, as the source assumes.
