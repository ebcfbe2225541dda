# Glyphflow: verified models of its stateful cores

Glyphflow is a control plane that dispatches commands to runners, with a browser front end. This project
models the parts of it that carry state across calls, and proves what they keep over every run. Each
component has a value-level description (functions on states, and runs as sequences of steps) with the
theorems, and, where the source changes things in place, a class or a method with the source's own loops
that is proved to reach exactly the state the functions describe.

| modules | what they model |
|---|---|
| `WorkerLog`, `WorkerTui` | the worker's log buffer, the pollers that mirror it, the terminal view |
| `LogStream`, `LogCursor` | the browser's merge of log chunks and its cursor protocol against the log endpoint |
| `Leases`, `Enrollment`, `Infrastructure` | resource leases with fencing tokens, one-use runner enrollment, archival |
| `Calendar`, `Cron`, `CronText`, `CronSchedule` | the Gregorian calendar, the search for a cron schedule's next minute, reading cron expressions |
| `Projection`, `ScheduleProjection` | conflicts on exclusive resources, and the seven-day projection of all schedules |
| `Roles`, `RoleRepository` | roles, the name index, assignments through several sources, effective permissions |
| `DueSchedules` | the queue of due schedules with its catch-up loop |
| `TokenRefresh`, `FanIn` | the single-flight token refresh, the error fan-in of the control plane |
| `Redaction`, `LiveLogAudit`, `Pagination`, `LoginMethods`, `CommandText` | audit redaction, audit events of live log views, 64-bit pagination, the last login method, the command editor |
| `Common`, `Lines`, `Seqs`, `Sets`, `Text`, `Numerals`, `Arithmetic`, `Durations` | options and results, line splitting, sequences, iteration order, strings, decimal notation, multiplication, 64-bit durations |

`dafny verify dfyconfig.toml` checks everything.

Conventions. Times are integers in nanoseconds and are parameters. A mutex-protected method is one step.
Ranging over a Go map is a loop that picks an arbitrary unvisited key, so every result holds for every
iteration order. A step that cannot be taken in a state is excluded by a predicate `Possible`, and a
`Feasible` run takes only possible steps.

## What the models show about the code

- `DeliverableExactly`, `StarvedIsReachable`: a browser whose backlog outgrows one log reply (1000 chunks or
  8 MiB) while it has no open connection never receives another chunk.
- `FullyProtected`, `LeasesCanOverlap`: the stored expiry has whole seconds, so a lease protects its holder
  for the time it was given only when that ends on a whole second. A lease of one second can be over after
  one nanosecond (`OneSecondCanLastOneNanosecond`). It always blocks at the instant of the grant
  (`RequestedLeaseBlocks`), unless the number of seconds overflows: then two holders can get the resource
  at one clock reading (`TwoHoldersAtOnce`). An expiry that cannot be read back, which never ends, needs a
  clock past the year 9707 (`HeldMeansReadable`, `EndlessNeedsOddClock`).
- `RefusedEnrollmentIsUsable`: an enrollment for an archived runner is answered with a conflict, but its
  token is already stored and can be consumed.
- `DeleteKeepsRows`, `BlankForEachDeleted`: deleting a role leaves its assignment rows, and users who had it
  are listed with a blank role. `CreationGrants`: the rows come back to life when a role with the same id is
  created. The callers use random ids (backend/internal/api/roles.go:54-58), so this takes a caller of the
  repository's interface that reuses one.
- `MinuteSeventyIsRead`: a cron field whose start lies beyond its range is accepted when it has a step, and
  allows nothing.
- `FridayFiresDaily`: a step near the largest 64-bit integer overflows the loop counter, and a schedule
  meant for Fridays fires every day. `FiresAsMeantExactly` says which overflowing expressions do harm.
- `FailedLoginRevokes`: a login that names an unknown role fails after the provider's rows of the user are
  gone, and keeps only the grants before that role.
- `ApiKeySurvives`: a request body with a key such as `api_key`, `private_key` or `authorization` keeps its
  value in the audit log; these are markers inside a text and not sensitive keys. Values of Go types other
  than decoded JSON pass unseen, but the callers pass decoded JSON (`DecodedIsCleaned`).
- `LateFailureStoresTwice`, `RefusedCanBeLost`: the audit of live log views gives a reservation up by key, so a
  late failure can give up another call's, and a view refused meanwhile can end up without any event.
- `BoundIsAttained`: the eight-year search window is not generous. Across an ordinary centennial year a
  schedule for 29 February is silent for eight years, and a window of seven would lose it.
- `EmptyIdBreaksIndex`: a role with an empty id is invisible to the check for duplicate names.
- `BothServicesCanLockOut`: with both password services configured, a settings change that fails between
  its two stores makes the two guards disagree and the last login method can be removed. The control plane
  configures one service, and then `LoginMethodRemains` excludes this.
- `OverlapCanLockOut`: no lock spans a handler's guard and its store, so two requests at the same time can
  each switch off what the other relied on, with one service too.

## Model

| member | source | states |
|---|---|---|
| `Lines.SplitUnique` | backend/cmd/worker/log_buffer.go:137-150 | splitting inverts joining: cutting at the first newline again and again is the only decomposition into newline-free lines and a tail |
| `Lines.SplitJoins` | backend/cmd/worker/log_buffer.go:137-150 | the lines and the tail put together again are the input, and none of them holds a newline |
| `Lines.SplitConcat` | backend/cmd/worker/log_buffer.go:137-150 | cutting the input anywhere and carrying the partial line over gives the lines and tail of the whole |
| `WorkerLog.LogBuffer.Append` | backend/cmd/worker/log_buffer.go:154-165 | the line gets the next sequence number, and the buffer is the last 500 of everything ever recorded |
| `WorkerLog.LogBuffer.RecordLines` | backend/cmd/worker/log_buffer.go:138-149 | the splitting loop ends, records every complete line in order with one CR stripped, and leaves the unterminated tail |
| `WorkerLog.LogBuffer.Write` | backend/cmd/worker/log_buffer.go:131-152 | history and partials change by the complete lines of the stream's pending text and nothing else |
| `WorkerLog.LogBuffer.TakeSnapshot` | backend/cmd/worker/log_buffer.go:87-112 | the loop returns the retained entries after the cursor and the reset flag |
| `WorkerLog.SnapshotContents` | backend/cmd/worker/log_buffer.go:99-111 | the reset flag is set exactly when lines the poller missed were evicted; the entries are then the whole buffer, otherwise exactly the missing suffix of the history |
| `WorkerLog.ChunkingIndependence` | backend/cmd/worker/log_buffer.go:131-152 | for every interleaving of writes to both streams, the texts recorded for a stream are the lines of its concatenated bytes, one for one, each without the one CR at its end if it has one, and its partial is their unterminated tail |
| `WorkerLog.NumberedAt` | backend/cmd/worker/log_buffer.go:142-149 | the k-th line of a write gets the k-th next number, its stream and its text less one CR at the end |
| `WorkerLog.PollCatchesUp` | backend/cmd/worker/main_tui.go:63-74 | one poll, on the reset and on the append path, turns any earlier copy into the buffer's present contents |
| `WorkerLog.MirrorFollows` | backend/cmd/worker/main_desktop.go:235-261 | at every point of every run the mirror equals what the buffer held at the mirror's cursor |
| `WorkerLog.MirrorAfterPoll` | backend/cmd/worker/main_tui.go:63-80 | after each poll of every run the poller holds exactly the buffer's entries and its cursor is the last number issued |
| `WorkerTui.WindowIsFull` | backend/cmd/worker/main_tui.go:140-146 | the slice bounds are valid for every size and offset, the window is as full as possible, and it ends `offset` lines before the newest if and only if the offset is within the scroll range |
| `WorkerTui.LogHeightIs` | backend/cmd/worker/main_tui.go:167-169 | the log area is the terminal less ten rows, and at least one row |
| `WorkerTui.VisibleEntries` | backend/cmd/worker/main_tui.go:157-165 | the loop keeps the entries the filter shows, in order |
| `WorkerTui.VisibleHas` | backend/cmd/worker/main_tui.go:157-165 | an entry is shown exactly when it is among the entries and, under the filter, from stderr |
| `WorkerTui.VisibleInOrder` | backend/cmd/worker/main_tui.go:157-165 | without the filter everything is shown, and with it the order stays |
| `WorkerTui.TuiModel.UpdateTick` | backend/cmd/worker/main_tui.go:63-80 | after a tick the model holds the buffer's entries and its offset is within range |
| `WorkerTui.TuiModel.UpdateKey` | backend/cmd/worker/main_tui.go:82-112 | every key gives the offset and filter the source assigns, clamped to the range, and leaves the mirror alone |
| `WorkerTui.TuiModel.UpdateMouse` | backend/cmd/worker/main_tui.go:114-123 | the wheel and the filter row give the offset and filter the source assigns, clamped to the range |
| `WorkerTui.TuiModel.VisibleWindow` | backend/cmd/worker/main_tui.go:140-146 | the printed lines are the stretch of visible entries that ends `offset` before the newest |
| `LogStream.MergeChunks` | frontend/src/log-stream.ts:3-17 | the loops compute the ordered, trimmed union of the chunks, the duplicates, the gap flag and the last number |
| `LogStream.Sort` | frontend/src/log-stream.ts:10-10 | sorting the map's entries gives the one ascending list with that content, whatever the insertion order |
| `LogStream.Trim` | frontend/src/log-stream.ts:11-14 | the filter over the reversed list with its running size is the recursive newest-first filter |
| `LogStream.DetectGap` | frontend/src/log-stream.ts:15-15 | the flag says whether two neighbours are not consecutive |
| `LogStream.ViewDetermines` | frontend/src/log-stream.ts:4-10 | an ascending list of chunks is determined by its content as a map |
| `LogStream.MergeInBatches` | frontend/src/log-stream.ts:3-17 | without a budget, merging a and then b is merging their concatenation |
| `LogStream.MergeConserves` | frontend/src/log-stream.ts:5-9 | kept chunks plus duplicates equal current plus incoming |
| `LogStream.AddedKeepsFirst` | frontend/src/log-stream.ts:6-9 | a held number keeps its text and a new one takes the first text offered |
| `LogStream.KeptExactlyWhenItFits` | frontend/src/log-stream.ts:14-14 | a chunk is kept if and only if the newer kept text is below the budget and either empty or short enough for the chunk to fit |
| `LogStream.FullBudgetIsKept` | frontend/src/log-stream.ts:14-14 | non-empty chunks that fill the budget to the last character are all kept |
| `LogStream.WithinBudget` | frontend/src/log-stream.ts:14-14 | the kept text exceeds the budget only when a single kept chunk is non-empty |
| `LogStream.NewestIsKept` | frontend/src/log-stream.ts:14-16 | under every budget but zero the newest chunk survives and is the last sequence |
| `LogStream.NothingFitsZero` | frontend/src/log-stream.ts:14-14 | a budget of zero keeps nothing |
| `LogStream.RoomForAll` | frontend/src/log-stream.ts:14-14 | text below the budget is kept whole |
| `LogStream.MergeUnderBudget` | frontend/src/log-stream.ts:3-17 | under a budget the result is an ascending part of all chunks offered with the newest one in it and within the budget |
| `LogStream.NoGapIsInterval` | frontend/src/log-stream.ts:15-15 | no gap is reported exactly when the kept numbers form an interval |
| `LogCursor.LogsResponse` | backend/internal/api/runs.go:408-421 | the endpoint answers exactly the chunks after the cursor, in order, if and only if they number at most 1000 and their text fits 8 MiB |
| `LogCursor.PendingHas` | backend/internal/api/runs.go:411-414 | a chunk is pending exactly when it is in the log with a larger number than the cursor |
| `LogCursor.ReadCompletesLines` | frontend/src/run-logs.tsx:26-31 | reading any number of characters yields some whole lines, and what stays in the buffer with the rest of the reply is exactly the remaining lines |
| `LogCursor.ParseEncoded` | frontend/src/run-logs.tsx:15-21 | complete lines parse back to the chunks sent, so the fallback numbering is never used |
| `LogCursor.LawfulCodecExists` | frontend/src/run-logs.tsx:15-21 | there is a line format with the round trip and without raw newlines |
| `LogCursor.AddedOverlap` | frontend/src/log-stream.ts:4-9 | overlapping deliveries of one log add up to one prefix of it |
| `LogCursor.LosslessCursor` | frontend/src/run-logs.tsx:77-86 | after every run of appends, requests, replies to older cursors, partial reads, drops and overlapping connections the client holds exactly the server's chunks up to its cursor while their text is below the budget, and above it an ordered part of them with the newest |
| `LogCursor.WholeReplyCatchesUp` | frontend/src/run-logs.tsx:77-83 | asking and reading the reply to its end brings the cursor to the newest chunk the server had, whenever the backlog fits a reply |
| `LogCursor.OversizedBacklogStarves` | backend/internal/api/runs.go:415-418 | once the backlog does not fit a reply and no connection is open, no later run delivers anything |
| `LogCursor.StarvedIsReachable` | backend/internal/api/runs.go:415-418 | 1001 chunks before the first request bring a client into that state |
| `LogCursor.DeliverableExactly` | backend/internal/api/runs.go:408-421 | from every reachable state without an open connection some later run delivers the newest chunk if and only if the backlog fits one reply |
| `LogCursor.DeliverableThroughConnections` | frontend/src/run-logs.tsx:23-33 | from every reachable state some later run delivers the newest chunk if and only if the rest of the log fits one reply from the client's place or from where an open connection ends |
| `LogCursor.ReadingIsRunning` | frontend/src/run-logs.tsx:23-33 | reading a reply piece by piece is a run of read steps |
| `LogCursor.LogReader.Consume` | frontend/src/run-logs.tsx:23-33 | the read loop leaves the state that reading the pieces one by one describes, and drops an unterminated last line |
| `LogCursor.LogReader.OnChunks` | frontend/src/run-logs.tsx:83-83 | the visible chunks, the gap flag and the cursor become those of the merge under 200000 characters |
| `Leases.LeaseLifetime` | backend/internal/api/infrastructure.go:1465-1496 | a lease blocks others for more than its duration less one second and at most its duration, and forever exactly when its expiry is outside the four-digit years of section 5.6 of RFC 3339 |
| `Durations.SecondsExact` | backend/internal/api/infrastructure.go:1282-1282 | a number of seconds becomes that duration exactly when the product fits 64 bits, and wraps around otherwise |
| `Leases.FullyProtected` | backend/internal/api/infrastructure.go:1465-1496 | others are refused for the whole of the duration if and only if it ends on a whole second |
| `Leases.BlocksNobody` | backend/internal/api/infrastructure.go:1465-1496 | a grant blocks nobody at all if and only if no whole second lies within its duration, which then is below one second |
| `Leases.RequestedLeaseBlocks` | backend/internal/api/infrastructure.go:1270-1282 | a request for a number of seconds that fits 64 bits, or for the default, gets that duration and blocks at least at the instant of the grant |
| `Leases.OneSecondCanLastOneNanosecond` | backend/internal/api/infrastructure.go:1465-1496 | a lease of one second granted just before a whole second blocks for one nanosecond |
| `Leases.TwoHoldersAtOnce` | backend/internal/api/infrastructure.go:1282-1282 | `ttl_seconds` of 20211507185753197 wraps around to 512 nanoseconds, and two holders get the resource at one clock reading |
| `Leases.EndlessNeedsOddClock` | backend/internal/api/infrastructure.go:1490-1496 | a lease that never ends needs a clock reading before the year 0 or within 292 years of the year 10000, and there is such a lease |
| `Leases.GrantedMeansOthersEnded` | backend/internal/api/infrastructure.go:1461-1472 | an acquisition succeeds only when every earlier lease of the resource was released or has expired |
| `Leases.InvHolds` | backend/internal/api/infrastructure.go:1454-1488 | every feasible run keeps record and history of grants in agreement |
| `Leases.MutualExclusion` | backend/internal/api/infrastructure.go:1454-1488 | in every run, with clocks read before the lock, of two leases on a resource the earlier had ended when the later was granted, and tokens count 1, 2, 3 |
| `Leases.ExclusionInTime` | backend/internal/api/infrastructure.go:1454-1488 | in every run a later lease of the resource is granted after the earlier was released, or less than a second before the end of the duration it was given, and not before that end when it is a whole second |
| `Leases.LeasesCanOverlap` | backend/internal/api/infrastructure.go:1454-1488 | a run in which a second holder gets the resource one nanosecond into the unreleased one-second lease of the first |
| `Leases.StaleReleaseIsRefused` | backend/internal/api/infrastructure.go:1475-1488 | a release with the token of an earlier lease changes nothing, whoever sends it |
| `Leases.ReleaseExactly` | backend/internal/api/infrastructure.go:1475-1488 | in every run a release succeeds if and only if it comes from the holder of the resource's last lease with the last token issued; it then frees the record, keeps the token and touches no other, and a refusal changes nothing |
| `Leases.ReleasedOnlyByHolder` | backend/internal/api/infrastructure.go:1475-1488 | a lease in the history is given back only by a release with its own resource, holder and token |
| `Leases.RightfulReleaseWorks` | backend/internal/api/infrastructure.go:1475-1488 | the holder of the last lease can give it back at any time |
| `Leases.AcquireExactly` | backend/internal/api/infrastructure.go:1454-1473 | in every run an acquisition succeeds if and only if the holder is not blank, the duration positive and the resource exists with its last lease given back or expired; the record then names holder and next token, and a refusal changes nothing |
| `Leases.DeleteExactly` | backend/internal/api/infrastructure.go:1341-1351 | in every run a deletion succeeds if and only if the resource exists, nothing refers to it and no lease holds it |
| `Leases.BoundsAreYears` | backend/internal/api/infrastructure.go:1466-1466 | the representable expiries are those from the year 0 to the year 9999 |
| `Leases.DeletedMeansEnded` | backend/internal/api/infrastructure.go:1341-1351 | a deleted resource has no lease that is still running |
| `Leases.HeldBlocksForItsLifetime` | backend/internal/api/infrastructure.go:1461-1496 | in every run a held resource refuses others exactly until its lease's expiry, which is less than one second before the end of the duration, or for ever when that end has no four-digit year |
| `Leases.HeldMeansStamped` | backend/internal/api/infrastructure.go:1490-1496 | a held record always has a written expiry, never the empty string |
| `Leases.HeldMeansReadable` | backend/internal/api/infrastructure.go:1490-1496 | in every run whose clock readings lie between the years 0 and 9707 every held record has an expiry that parses, so the parse-error branch is never taken |
| `Leases.HeldForTheGivenTime` | backend/internal/api/infrastructure.go:1454-1496 | in every such run a held resource refuses others for the whole duration its holder was given if and only if that ends on a whole second |
| `Enrollment.EnrollmentSafety` | backend/internal/api/infrastructure.go:970-1439 | in every run with fresh tokens each token is consumed at most once, a runner has at most one waiting token, stored enrollments name known runners, and no key is bound twice |
| `Enrollment.ConsumeExactly` | backend/internal/api/infrastructure.go:1387-1408 | in every run a token can be consumed if and only if it was issued, neither consumed nor withdrawn since, and has not expired; its runner becomes pending and no other runner changes |
| `Enrollment.RefusalsExactly` | backend/internal/api/infrastructure.go:1387-1401 | a token never issued is not found, an expired one has expired, a consumed one is used as long as it is stored |
| `Enrollment.ConsumeWithKeyExactly` | backend/internal/api/infrastructure.go:1410-1439 | in every run a token can be consumed with a key if and only if it can be consumed and no other runner's binding to the key stands; the runner is then bound to exactly that key and the other bindings are as they were |
| `Enrollment.BindingsAreExclusive` | backend/internal/api/infrastructure.go:1427-1437 | in every run the bindings that stand, by the record of consumptions, are stored and are to different keys |
| `Enrollment.WithdrawnForever` | backend/internal/api/infrastructure.go:1389-1392 | a token no longer stored is never consumed again |
| `Enrollment.ReplacedTokenIsNeverConsumed` | backend/internal/api/infrastructure.go:973-978 | in every run a token that was waiting when its runner was enrolled again is never consumed afterwards |
| `Enrollment.ArchivedTokenIsNeverConsumed` | backend/internal/api/infrastructure.go:799-803 | in every run a token that was waiting when its runner was archived is never consumed afterwards |
| `Enrollment.ArchivalIsPermanent` | backend/internal/api/infrastructure.go:788-806 | once archived, a runner stays archived, deleted and disabled through every later operation |
| `Enrollment.ArchivedForever` | backend/internal/api/infrastructure.go:788-806 | from the moment of archiving on, through every later operation, the runner is archived, deleted and disabled |
| `Enrollment.TokensReturnOnlyByEnrolling` | backend/internal/api/infrastructure.go:970-982 | an archived runner without tokens gets one exactly by an enrollment for it |
| `Enrollment.RefusedEnrollmentIsUsable` | backend/internal/api/infrastructure.go:978-982 | a refused enrollment can be consumed if and only if it has not expired, and an enrollment for an archived runner is refused |
| `Enrollment.RunnersAppear` | backend/internal/api/infrastructure.go:983-999 | a runner appears only by its first enrollment, enabled, pending, with the given settings and a capacity of ten by default |
| `Enrollment.DesiredChanges` | backend/internal/api/infrastructure.go:672-693 | the desired state is changed by commands to a live runner and by archiving, and by nothing else |
| `Enrollment.CapacityChanges` | backend/internal/api/infrastructure.go:606-608 | the capacity is changed by updates and enrollments that give one, and by nothing else |
| `Enrollment.AddressesChange` | backend/internal/api/infrastructure.go:609-614 | the addresses are changed by updates and enrollments that give them, trimmed, and by nothing else |
| `Enrollment.ObservedChanges` | backend/internal/api/infrastructure.go:1442-1452 | a runner goes offline by archiving, by a heartbeat older than allowed and by enabling it after a revocation, and becomes pending by consuming a token |
| `Enrollment.PoolChanges` | backend/internal/api/infrastructure.go:311-332 | a runner leaves its pool only archived and with the pool |
| `Enrollment.FlagsChange` | backend/internal/api/infrastructure.go:788-806 | the flags of archival are set by archiving only, and the name never changes |
| `Enrollment.OutcomesExactly` | backend/internal/api/infrastructure.go:599-693 | updates and commands succeed exactly for known runners that are not archived, archiving for every known runner |
| `Enrollment.TrimSlashesCuts` | backend/internal/api/infrastructure.go:613-613 | an address loses the slashes at its end and nothing else |
| `Infrastructure.InfrastructureService.AcquireLease` | backend/internal/api/infrastructure.go:1454-1473 | new state and result are those of the lease model, error cases included |
| `Infrastructure.InfrastructureService.ReleaseLease` | backend/internal/api/infrastructure.go:1475-1488 | new state and result are those of the lease model |
| `Infrastructure.InfrastructureService.DeleteResource` | backend/internal/api/infrastructure.go:1341-1351 | new state and result are those of the lease model |
| `Infrastructure.InfrastructureService.SaveEnrollment` | backend/internal/api/infrastructure.go:970-1000 | the loop drops the waiting tokens, the token is stored before the archived runner is refused, the record is created or updated |
| `Infrastructure.InfrastructureService.ConsumeEnrollment` | backend/internal/api/infrastructure.go:1387-1408 | new state and result are those of the enrollment model |
| `Infrastructure.InfrastructureService.ConsumeEnrollmentWithKey` | backend/internal/api/infrastructure.go:1410-1439 | the loop refuses a key bound to another runner, otherwise token, runner and key change together |
| `Infrastructure.InfrastructureService.UpdateRunner` | backend/internal/api/infrastructure.go:599-623 | an archived runner is not found, otherwise exactly the given fields change |
| `Infrastructure.InfrastructureService.RunnerAction` | backend/internal/api/infrastructure.go:672-693 | an archived runner is not found, otherwise the desired state changes and re-enabling clears REVOKED |
| `Infrastructure.InfrastructureService.DeleteRunner` | backend/internal/api/infrastructure.go:788-806 | the runner is archived and the loop removes all its tokens |
| `Infrastructure.InfrastructureService.DeletePool` | backend/internal/api/infrastructure.go:311-332 | the pool goes exactly when no live runner is in it, and only archived runners lose their pool |
| `Infrastructure.InfrastructureService.MarkStale` | backend/internal/api/infrastructure.go:1442-1452 | exactly the runners with an old heartbeat become offline |
| `Calendar.DateOfIsDate` | backend/internal/controlplane/scheduler.go:97-111 | every day number has a valid calendar date, and it is the date with that number |
| `Calendar.DateOfDayNumber` | backend/internal/controlplane/scheduler.go:97-111 | every valid date is the date of its day number, so months, days and weekdays are read off a one-to-one correspondence |
| `Calendar.DaysBeforeClosed` | backend/internal/controlplane/scheduler.go:97-111 | counting years one by one agrees with the closed form of the Gregorian leap-year rule |
| `Calendar.LeapDayReturns` | backend/internal/controlplane/scheduler.go:117-133 | 29 February comes round again within 2921 days of any day |
| `Calendar.DateOnWeekday` | backend/internal/controlplane/scheduler.go:97-111 | every date of a leap year falls on every weekday in some year |
| `Calendar.WeekdayIsCongruent` | backend/internal/controlplane/scheduler.go:103-110 | the weekday of every valid date is the one the usual congruence on year, month and day gives |
| `Calendar.NextWeekday` | backend/internal/controlplane/scheduler.go:103-110 | weekdays follow one another, Sunday after Saturday |
| `Calendar.EpochIsThursday` | backend/internal/controlplane/scheduler.go:103-110 | 1 January 1970 was a Thursday |
| `Cron.AnyAllowsAll` | backend/internal/controlplane/scheduler.go:113-115 | counting the values of a field finds out whether it allows everything |
| `Cron.DayRule` | backend/internal/controlplane/scheduler.go:97-111 | a schedule allows a date by the rule of cron on its day and on the weekday the congruence gives: alternatives when both are restricted, both required otherwise |
| `Cron.DatedMinute` | backend/internal/controlplane/scheduler.go:97-111 | a dated minute matches exactly when the fields allow its minute, hour and month and the date |
| `Cron.HasCalendarDate` | backend/internal/controlplane/scheduler.go:117-133 | the nested loops find whether an allowed day exists in an allowed month of a leap year |
| `Cron.ScanMinutes` | backend/internal/controlplane/scheduler.go:63-68 | the loop finds the first minute of the eight-year window that passes, and nothing exactly when none does |
| `Cron.NextCronMinute` | backend/internal/controlplane/scheduler.go:53-70 | the result is the first instant after now at which the fields, whatever values they hold, fire in any time zone; with a fixed offset it fails if and only if no calendar day can meet them, so neither the shortcut nor the window loses an occurrence |
| `Cron.MatchSatisfies` | backend/internal/controlplane/scheduler.go:60-62 | fields that match any minute at all satisfy the condition on the fields alone, so the shortcut is sound |
| `Cron.ShortcutIsSound` | backend/internal/controlplane/scheduler.go:58-62 | the shortcut is taken only for fields that cannot be met, also when a field holds values that are no days |
| `Cron.Occurs` | backend/internal/controlplane/scheduler.go:63-68 | fields that satisfy that condition match within 2922 days of every minute |
| `Cron.BoundIsAttained` | backend/internal/controlplane/scheduler.go:63-68 | no bound below 2921 days would do: from every leap year before an ordinary centennial year `0 0 29 2 *` is silent that long |
| `Cron.SameMinutesExactly` | backend/internal/controlplane/scheduler.go:97-111 | two sets of fields match the same minutes if and only if their usable values agree or neither can be met |
| `CronText.AtoiDecimal` | backend/internal/controlplane/scheduler.go:173-173 | the decimal notation of a number is read back exactly when it fits 64 bits |
| `CronText.AtoiSigned` | backend/internal/controlplane/scheduler.go:173-173 | a sign in front of a number is read |
| `CronText.AtoiRefuses` | backend/internal/controlplane/scheduler.go:173-173 | an empty text, a bare sign and a text with any other character are refused |
| `CronText.ParsePartOfWritten` | backend/internal/controlplane/scheduler.go:149-206 | every part, with or without a step, is read as written and refused exactly when its numbers are not acceptable |
| `CronText.ParseStepExactly` | backend/internal/controlplane/scheduler.go:168-178 | for every text: a step is a positive number after the first slash, and without a slash there is none |
| `CronText.ParseRangeExactly` | backend/internal/controlplane/scheduler.go:180-206 | for every text: a range is a star, two numbers in order with a dash between them, or one number, which extends to the maximum when there is a step |
| `CronText.ParsePartExactly` | backend/internal/controlplane/scheduler.go:142-166 | a part is accepted exactly when it is not empty, its step and range can be read and the range lies within the field's |
| `CronText.StepsAre` | backend/internal/controlplane/scheduler.go:152-154 | the values of a part are its arithmetic progression |
| `CronText.AddSpan` | backend/internal/controlplane/scheduler.go:152-154 | the 64-bit loop ends for every step; it adds the progression, or, when the counter overflows, the closed set of values it wraps around to |
| `CronText.StrayAre` | backend/internal/controlplane/scheduler.go:152-154 | the values collected by an overflowing counter, without the loop: below the start every second one of those the wrapped steps reach, and as many next to the smallest integer |
| `CronText.SplitComma` | backend/internal/controlplane/scheduler.go:208-218 | the loop cuts the field at every comma |
| `CronText.CommasOfJoined` | backend/internal/controlplane/scheduler.go:208-218 | parts without commas are found again after joining |
| `CronText.ParseCronField` | backend/internal/controlplane/scheduler.go:139-157 | the loops return the union of what they collect for the parts, and refuse the field exactly when a part cannot be read |
| `CronText.FieldReadExactly` | backend/internal/controlplane/scheduler.go:139-157 | a field is refused exactly when it means nothing, and its values are the meant ones if and only if no counter overflows |
| `CronText.FieldMeans` | backend/internal/controlplane/scheduler.go:139-157 | a field written from items is read exactly when all items are acceptable, and then allows exactly what some item allows |
| `CronText.FieldReads` | backend/internal/controlplane/scheduler.go:139-157 | of the values in its range the code takes exactly what some item allows and what an overflowing item adds |
| `CronText.EmptyExactlyWhenBeyond` | backend/internal/controlplane/scheduler.go:149-154 | an accepted field allows no value at all if and only if every item starts beyond the range and has a step |
| `CronText.MinuteSeventyIsRead` | backend/internal/controlplane/scheduler.go:149-154 | `70/5` is accepted for the minutes and means none |
| `CronText.OverflowsExactlyWhen` | backend/internal/controlplane/scheduler.go:152-154 | a written field is misread if and only if a start and its step add up to more than the largest integer |
| `CronText.LargestStepOverflows` | backend/internal/controlplane/scheduler.go:152-154 | `*/5` is read as meant and `5/9223372036854775807` is not |
| `CronSchedule.WordsOfSentence` | backend/internal/controlplane/scheduler.go:135-137 | words separated by spaces are found again |
| `CronSchedule.FirstWord` | backend/internal/controlplane/scheduler.go:135-137 | a word ends at any white space |
| `CronSchedule.SpaceDoesNotShow` | backend/internal/controlplane/scheduler.go:135-137 | white space before a word, however much, does not show |
| `CronSchedule.ParseCronFields` | backend/internal/controlplane/scheduler.go:72-95 | the fields returned are those the five readings give, and none exactly when one of them is refused |
| `CronSchedule.ReadCronExactly` | backend/internal/controlplane/scheduler.go:72-95 | an expression is refused exactly when it means nothing, and read as meant if and only if no field overflows |
| `CronSchedule.ParsedIsLawful` | backend/internal/controlplane/scheduler.go:149-151 | all values an accepted expression means lie in the ranges of their fields |
| `CronSchedule.WrittenCronMeans` | backend/internal/controlplane/scheduler.go:72-95 | a written expression is read exactly when its items are acceptable, and each field allows exactly what one of its items allows |
| `CronSchedule.NextFire` | backend/internal/controlplane/scheduler.go:24-70 | from the text of any expression to the first instant at which the fields read from it fire, or none for the exact reason; when these mean what was meant, the first instant that was meant |
| `CronSchedule.FiresAsMeantExactly` | backend/internal/controlplane/scheduler.go:24-70 | an accepted expression fires at exactly the instants it was meant for if and only if the usable values of its fields are the meant ones or neither can be met |
| `CronSchedule.WeeklyNext` | backend/internal/controlplane/scheduler.go:24-70 | in UTC `0 0 * * w` fires next at the first midnight after now of a date that falls on that weekday by the congruence |
| `CronSchedule.MondayAfterSaturday` | backend/internal/controlplane/scheduler.go:24-70 | asked at noon of any Saturday, `0 0 * * 1` fires at midnight two days later |
| `CronSchedule.YearlyMatches` | backend/internal/controlplane/scheduler.go:97-111 | `m h d M *` matches exactly the minute of that time on that day and month of any year |
| `CronSchedule.PlainItemsReadAsMeant` | backend/internal/controlplane/scheduler.go:72-95 | an expression of acceptable items whose steps do not overflow is read as meant |
| `CronSchedule.FridayFiresDaily` | backend/internal/controlplane/scheduler.go:113-154 | `0 0 * * 5/9223372036854775807` is meant for Fridays and fires every day, because the seven values it collects pass for all weekdays |
| `CronSchedule.FirstMinutesFireAsMeant` | backend/internal/controlplane/scheduler.go:152-154 | `1/9223372036854775807 * * * *` overflows too and still fires as meant |
| `Projection.ProjectionEvents` | backend/internal/controlplane/projection.go:273-288 | the events are the start and end of every occurrence, sorted by time |
| `Projection.UpdateActive` | backend/internal/controlplane/projection.go:290-301 | ended occurrences leave before started ones enter |
| `Projection.GroupTracks` | backend/internal/controlplane/projection.go:290-301 | processing one group of simultaneous events keeps the active map equal to the occurrences under way |
| `Projection.ConflictsForResource` | backend/internal/controlplane/projection.go:244-271 | the sweep returns disjoint, non-adjacent stretches that cover exactly the times when two occurrences want the resource, each listing exactly the occurrences that meet it |
| `Projection.ExactIsUnique` | backend/internal/controlplane/projection.go:244-271 | that answer is the only one, so the stretches are the maximal ones |
| `Projection.InvolvedExactlyWhenClashing` | backend/internal/controlplane/projection.go:105-111 | an occurrence is listed in a conflict if and only if another one overlaps it |
| `Projection.GroupByResource` | backend/internal/controlplane/projection.go:97-103 | each resource gets the occurrences that use it, in order |
| `Projection.BuildProjection` | backend/internal/controlplane/projection.go:97-112 | a segment is marked as conflicted if and only if another one overlaps it and needs one of its exclusive resources |
| `ScheduleProjection.OccurrenceIdDetermines` | backend/internal/controlplane/projection.go:150-150 | an occurrence id determines its schedule and its time, even when schedule ids contain at signs |
| `ScheduleProjection.PlanIsMeantExactly` | backend/internal/controlplane/projection.go:135-135 | a schedule fires at the instants it was meant for if, and with a fixed offset only if, its expression is read as meant |
| `ScheduleProjection.DecimalFormatIsLawful` | backend/internal/controlplane/projection.go:150-150 | there is a timestamp format with the two properties the ids rely on |
| `ScheduleProjection.ProjectScheduleInput` | backend/internal/controlplane/projection.go:124-159 | the loop ends, and a window of the configured duration starts within the horizon exactly at the instants the expression fires at; with a fixed offset it fails exactly for incomplete inputs, durations that are not positive (after 64-bit wrap-around when there is an occurrence) and expressions no day can meet |
| `ScheduleProjection.CollectWindows` | backend/internal/controlplane/projection.go:91-104 | the windows of all schedules have distinct ids, each belongs to one schedule, each schedule has one at exactly the instants it fires at, and the report fails exactly when one schedule cannot be projected |
| `ScheduleProjection.BuildScheduleProjection` | backend/internal/controlplane/projection.go:83-122 | the report has a segment for exactly the occurrences of the next seven days, the exact conflicts of every resource, and marks a segment if and only if another overlaps it and needs one of its exclusive resources |
| `Roles.EnsureKeepsIndex` | backend/internal/api/memory_roles.go:24-39 | creation keeps the name index inverse to the role table if and only if it does not store a role with an empty id |
| `Roles.EmptyIdBreaksIndex` | backend/internal/api/memory_roles.go:33-37 | after a role with an empty id, a second role can take its name |
| `Roles.RenameKeepsIndex` | backend/internal/api/memory_roles.go:81-99 | renaming keeps index and table inverse |
| `Roles.DeleteKeepsIndex` | backend/internal/api/memory_roles.go:116-127 | deletion keeps index and table inverse |
| `Roles.FindByNameFinds` | backend/internal/api/memory_roles.go:74-79 | a lookup by name finds the role that has the normalised name, and nothing exactly when none has |
| `Roles.InvHolds` | backend/internal/api/memory_roles.go:24-220 | in every run of operations index and table stay inverse and every row keeps its key |
| `Roles.SystemRolesStay` | backend/internal/api/memory_roles.go:81-132 | no run renames, deletes or demotes a system role |
| `Roles.KeyDetermines` | backend/internal/api/memory_roles.go:143-144 | without NUL in role ids and source types the key determines the row |
| `Roles.KeyIsUniqueExactly` | backend/internal/api/memory_roles.go:143-144 | a row has its key for itself if and only if none of role id, source type and source key contains NUL |
| `Roles.PutAddsRow` | backend/internal/api/memory_roles.go:134-146 | an assignment adds its row and disturbs no other |
| `Roles.UnassignRemovesRows` | backend/internal/api/memory_roles.go:152-166 | removing a source removes exactly the user's rows of that role and source |
| `Roles.SourceIsolation` | backend/internal/api/memory_roles.go:168-196 | replacing a source leaves exactly the requested users, trimmed and deduplicated, holding the role through it, and every other row as it was |
| `Roles.ProviderPrefix` | backend/internal/api/memory_roles.go:202-202 | the prefix test matches the keys of one provider and of no other |
| `Roles.LawfulEncodingExists` | backend/internal/api/memory_roles.go:202-202 | there is an encoding with the properties the prefix test relies on |
| `Roles.ProviderIsolation` | backend/internal/api/memory_roles.go:198-220 | a login through one provider takes that provider's rows of the user away, stores exactly the grants before the first unknown role and leaves all other rows; it fails if and only if there is an unknown role |
| `Roles.StoredStops` | backend/internal/api/memory_roles.go:210-212 | what is stored is the longest beginning of the grants without an unknown role |
| `Roles.OtherSourcesUntouched` | backend/internal/api/memory_roles.go:198-220 | a login, failed or not, changes no row of another provider or of another source type |
| `Roles.FailedLoginRevokes` | backend/internal/api/memory_roles.go:198-220 | a login whose first grant names an unknown role fails and has taken all of the provider's rows of the user away |
| `Roles.DeleteKeepsRows` | backend/internal/api/memory_roles.go:128-130 | deleting a role removes no assignment row |
| `Roles.DeleteRevokes` | backend/internal/api/memory_roles.go:116-132 | after a deletion a user has exactly the permissions that rows of other roles grant |
| `Roles.RecreationRestores` | backend/internal/api/memory_roles.go:116-132 | when a role is created under the id of a deleted one, a user has exactly what other roles grant and, if the user had a row of the old role, what the new one grants |
| `Roles.CreationGrants` | backend/internal/api/memory_roles.go:24-39 | a creation gives a permission to exactly the users with a row left over from that id, and takes none away |
| `Roles.CreationTakesEffect` | backend/internal/api/memory_roles.go:24-39 | a creation succeeds if and only if no role has the normalised name; the role is then found by name with the given properties, and no other role changes |
| `Roles.ReplacementGrants` | backend/internal/api/memory_roles.go:101-114 | after a replacement a user has a permission if and only if another role grants it or the user has a row of this role and the request asks for it, and it succeeds exactly for existing roles that are not system roles |
| `Roles.EnsuringGrants` | backend/internal/api/memory_roles.go:27-31 | ensuring an existing role replaces its permissions in the same way and nothing else of it |
| `Roles.RenameTakesEffect` | backend/internal/api/memory_roles.go:81-99 | a rename succeeds if and only if the role exists, is not a system role and no other role has the new name; it is then found by the new name and not by the old, and nobody's permissions change |
| `Roles.DeleteTakesEffect` | backend/internal/api/memory_roles.go:116-132 | a deletion succeeds exactly for existing roles that are not system roles, and removes that role alone |
| `Roles.NamesIgnoreCase` | backend/internal/api/memory_roles.go:258-260 | names that differ in white space at the ends and in the case of letters are one name |
| `Roles.AssignAdds` | backend/internal/api/memory_roles.go:134-146 | an assignment succeeds exactly for an existing role, and then adds its row and disturbs no other |
| `Roles.UnassignRefusedExactly` | backend/internal/api/memory_roles.go:152-166 | removing a source is refused exactly when the user has no row of the role through it |
| `RoleRepository.MemoryRoleRepository.UserRoles` | backend/internal/api/memory_roles.go:222-239 | the loops list one record for each role the user has a row of, blank when the role no longer exists, and all rows of the user |
| `Roles.BlankForEachDeleted` | backend/internal/api/memory_roles.go:227-232 | the list holds as many blank roles as there are deleted roles the user still has a row of, so one if and only if there is one |
| `Roles.DeletionLeavesBlank` | backend/internal/api/memory_roles.go:116-132 | deleting a role adds it to the blank ones of exactly the users who had it |
| `Roles.UnassignKeepsOtherGrants` | backend/internal/api/memory_roles.go:148-166 | removing one source takes away exactly what no other row grants, and changes no other user |
| `RoleRepository.UniqueStrings` | backend/internal/api/roles.go:170-181 | the loop returns the trimmed, non-empty values, each once |
| `Roles.UniqueHas` | backend/internal/api/roles.go:170-181 | a value is returned exactly when it is non-empty and some input trims to it |
| `Roles.UniqueIsDistinct` | backend/internal/api/roles.go:170-181 | no value is returned twice |
| `Text.TrimCuts` | backend/internal/api/roles.go:170-181 | trimming cuts off white space at both ends and nothing else |
| `Text.BlankExactly` | backend/internal/api/infrastructure.go:1455-1457 | a text trims to nothing exactly when it is all white space |
| `RoleRepository.MemoryRoleRepository.EnsureRole` | backend/internal/api/memory_roles.go:24-39 | new state and outcome are those of the role model |
| `RoleRepository.MemoryRoleRepository.RenameRole` | backend/internal/api/memory_roles.go:81-99 | new state and outcome are those of the role model |
| `RoleRepository.MemoryRoleRepository.SetPermissions` | backend/internal/api/memory_roles.go:101-114 | new state and outcome are those of the role model |
| `RoleRepository.MemoryRoleRepository.DeleteRole` | backend/internal/api/memory_roles.go:116-132 | the loop deletes by the bare role id |
| `RoleRepository.MemoryRoleRepository.AssignRole` | backend/internal/api/memory_roles.go:134-146 | new state and outcome are those of the role model |
| `RoleRepository.MemoryRoleRepository.UnassignFrom` | backend/internal/api/memory_roles.go:152-166 | the loop removes the matching rows and reports whether there was one |
| `RoleRepository.MemoryRoleRepository.ReplaceSourceAssignments` | backend/internal/api/memory_roles.go:168-196 | the nested loops clear one source, drop users left without rows, and insert the requested users |
| `RoleRepository.MemoryRoleRepository.ReplaceSSOAssignments` | backend/internal/api/memory_roles.go:198-220 | the loops replace one provider's rows and stop at the first unknown role |
| `RoleRepository.MemoryRoleRepository.FindByName` | backend/internal/api/memory_roles.go:74-79 | the role found is the one the index names |
| `RoleRepository.MemoryRoleRepository.EffectivePermissions` | backend/internal/api/memory_roles.go:241-256 | the permissions are the union over the user's rows whose role still exists |
| `DueSchedules.AdvanceIsLeast` | backend/internal/controlplane/due.go:40-42 | catching up reaches the least point of the schedule's own grid after now |
| `DueSchedules.DueScheduleQueue.Add` | backend/internal/controlplane/due.go:24-31 | an invalid schedule is ignored, another replaces the one with its id |
| `DueSchedules.DueScheduleQueue.CatchUp` | backend/internal/controlplane/due.go:40-42 | the loop ends and has the closed form |
| `DueSchedules.DueScheduleQueue.Claim` | backend/internal/controlplane/due.go:33-49 | a claim hands out some due schedule with its old fire time and advances only that one; none is claimed exactly when none is due |
| `DueSchedules.ExactlyOnceDrain` | backend/internal/controlplane/due.go:33-49 | claims at one instant, in any order, are pairwise different and stop exactly when every due schedule was claimed |
| `DueSchedules.OccurrencesIncrease` | backend/internal/controlplane/due.go:33-49 | over a whole run, without re-adding, a schedule's occurrence times strictly increase, each is between the previous claim and its own, and all lie on one grid |
| `TokenRefresh.SingleFlight` | frontend/src/api.ts:141-151 | in every interleaving at most one refresh is under way |
| `TokenRefresh.SharedOutcome` | frontend/src/api.ts:117-120 | all requests that waited for one refresh were told the same outcome |
| `TokenRefresh.AtMostTwoFetches` | frontend/src/api.ts:107-123 | a request fetches a second time exactly when it was told that the refresh succeeded, and never a third time |
| `TokenRefresh.OutcomeExactly` | frontend/src/api.ts:107-123 | a first reply other than 401 decides a request; after a 401 it waits for a refresh, fails with it, or is decided by the reply to its one retry |
| `TokenRefresh.UnauthorizedWaits` | frontend/src/api.ts:117-151 | a first 401 starts a refresh when none is under way, joins the one that is, and leaves the request waiting |
| `TokenRefresh.ExpiredOncePerFailure` | frontend/src/api.ts:145-149 | whenever no refresh is under way the session-expired callback has fired once per failed refresh |
| `TokenRefresh.FetchesAddUp` | frontend/src/api.ts:107-151 | all network calls are the requests' own fetches and one per refresh |
| `FanIn.SendNeverBlocks` | backend/internal/controlplane/controlplane.go:20-27 | whenever a component wants to send its error the channel has room |
| `FanIn.CancelledExactlyOnError` | backend/internal/controlplane/controlplane.go:25-28 | when all are done the context was cancelled exactly if one failed |
| `FanIn.FirstErrorWins` | backend/internal/controlplane/controlplane.go:31-37 | the result is nil exactly when none failed, and otherwise the head of the channel |
| `FanIn.FirstSentStaysFirst` | backend/internal/controlplane/controlplane.go:26-33 | the head of the channel is the first error sent |
| `FanIn.ResultIsFirstSend` | backend/internal/controlplane/controlplane.go:16-38 | the result is the error that the component of the run's first send had returned, and nil exactly when nothing was sent |
| `Redaction.RedactSensitiveText` | backend/internal/api/audit.go:625-633 | the loop replaces a text exactly when it contains a marker in any letter case |
| `Redaction.MarkedInAnyCase` | backend/internal/api/audit.go:625-633 | a marker with any of its letters in upper case, anywhere in a text, makes it `[REDACTED]` |
| `Redaction.RedactAuditMap` | backend/internal/api/audit.go:592-606 | the loop over the keys redacts the object |
| `Redaction.RedactAuditValue` | backend/internal/api/audit.go:608-623 | the recursion over objects, arrays and strings redacts the value |
| `Redaction.RedactedIsUnmarked` | backend/internal/api/audit.go:627-629 | the replacement text contains no marker |
| `Redaction.RedactCleans` | backend/internal/api/audit.go:592-623 | nothing sensitive is left in the output if and only if no value of a Go type outside the three the switch names holds something sensitive, except below a sensitive key |
| `Redaction.DecodedIsCleaned` | backend/internal/api/audit.go:592-633 | redaction always cleans a decoded JSON document |
| `Redaction.FieldSurvivesExactly` | backend/internal/api/audit.go:597-604 | the value under a key stays if and only if the key is not sensitive and the value has nothing to redact, or it is the replacement already |
| `Redaction.UnprotectedKeys` | backend/internal/api/audit.go:598-599 | the keys that name a credential and are not sensitive are those with one of the six other markers, and `passwordLoginEnabled` |
| `Redaction.ApiKeySurvives` | backend/internal/api/audit.go:597-604 | a value under `api_key` is stored unless its own text mentions a marker |
| `Redaction.RedactIsIdempotent` | backend/internal/api/audit.go:592-633 | redacting twice is redacting once, and a value is unchanged exactly when nothing sensitive is in it outside values of other Go types |
| `Redaction.RedactionHidesExactly` | backend/internal/api/audit.go:592-633 | two values give the same output if and only if they differ only under sensitive keys or in hidden texts |
| `LiveLogAudit.LiveLogs.Reserve` | backend/internal/api/audit.go:377-392 | the loop drops exactly the entries a window old, and the call takes the step of a request: it gets the reservation exactly when no entry of its key is left |
| `LiveLogAudit.LiveLogs.Conclude` | backend/internal/api/audit.go:393-399 | once the store has answered, the state takes the step of an end: a failure gives the key's entry up, whoever made it |
| `LiveLogAudit.RefusedMeansRecent` | backend/internal/api/audit.go:376-400 | in every run a call without a reservation follows one of its key less than five minutes old whose store has not failed |
| `LiveLogAudit.OnePerWindow` | backend/internal/api/audit.go:376-400 | in every run without a stolen reservation two events stored for one key were reserved at least five minutes apart |
| `LiveLogAudit.InvKeptExactly` | backend/internal/api/audit.go:393-398 | a step keeps calls apart and their entries in place if and only if it is not a failure while another live call of the key is less than five minutes old |
| `LiveLogAudit.StealShowsAtOnce` | backend/internal/api/audit.go:387-398 | after a failure the very next request for the key is let in too early if and only if the failure stole a reservation |
| `LiveLogAudit.OnePerWindowExactly` | backend/internal/api/audit.go:376-400 | over whole runs, whatever is asked next finds the calls of its key apart at every point if and only if no reservation is ever stolen |
| `LiveLogAudit.TimelyRuns` | backend/internal/api/audit.go:376-400 | stores that fail less than five minutes after their reservation steal nothing |
| `LiveLogAudit.LateFailureStoresTwice` | backend/internal/api/audit.go:393-398 | a store that fails later than that gives up another call's reservation, and two events of one key are stored a nanosecond apart |
| `LiveLogAudit.RefusedCanBeLost` | backend/internal/api/audit.go:387-398 | a view refused while another is being stored leaves no event when that store fails |
| `LiveLogAudit.RefusedViewKeepsEventExactly` | backend/internal/api/audit.go:387-398 | after every continuation a refused view has an event in its window if and only if the store of the one call it was refused for succeeded |
| `Pagination.CollectionPage` | backend/internal/api/operations.go:961-975 | `all` gives page 1 of 100; otherwise the page is at least 1 and a limit outside 1 to 100 becomes 50 |
| `Pagination.PageStart` | backend/internal/api/operations.go:977-985 | without overflow, the start is the smaller of (page - 1) * limit and the total |
| `Pagination.PageOffset` | backend/internal/api/operations.go:987-989 | the offset is capped at the largest int |
| `Pagination.CheckedOffset` | backend/internal/api/runs.go:138-147 | exactly the representable products are accepted |
| `Pagination.PageCountsAgree` | backend/internal/api/runs.go:169-178 | both page counts are the least number of pages, at least one, that hold every item |
| `Pagination.WritePage` | backend/internal/api/operations.go:991-999 | the slice is the page's stretch of the list |
| `Pagination.PagesPartition` | backend/internal/api/operations.go:991-1007 | the pages in order are the list, every page but the last is full and every later page is empty |
| `LoginMethods.EnabledCount` | backend/internal/api/oidc_auth.go:404-421 | the loop counts the enabled providers |
| `LoginMethods.AddProviderKeepsSafe` | backend/internal/api/auth_admin.go:252-266 | the provider handler never removes the last login method |
| `LoginMethods.SettingsKeepSafeExactly` | backend/internal/api/auth_admin.go:73-87 | the settings handler keeps it exactly unless both services exist and it stops between its two stores with a changed flag |
| `LoginMethods.SettingsTakeEffect` | backend/internal/api/auth_admin.go:73-159 | a settings request that is not refused and meets no failing store leaves the flag asked for in every configured service; it is refused exactly when none is configured or no login method would remain |
| `LoginMethods.ProviderTakesEffect` | backend/internal/api/auth_admin.go:252-270 | a valid provider request is stored unless it would switch off the only enabled provider while password login is off |
| `LoginMethods.LoginMethodRemains` | backend/internal/api/auth_admin.go:61-98 | with one password service every sequence of requests, failing stores included, leaves a login method |
| `LoginMethods.BothServicesCanLockOut` | backend/internal/api/auth_admin.go:137-159 | with both services a failing lockdown store followed by a provider update leaves none |
| `LoginMethods.StoredKeepsExactly` | backend/internal/api/auth_admin.go:73-87 | storing a change keeps a login method if and only if the handler's guard would still let it pass at that moment |
| `LoginMethods.RemainsExactlyUnlessStale` | backend/internal/api/auth_admin.go:73-87 | in every run of overlapping requests a login method remains throughout if and only if no store happens after its guard has ceased to hold |
| `LoginMethods.SerialRequestsRemain` | backend/internal/api/auth_admin.go:252-266 | requests that do not overlap leave a login method |
| `LoginMethods.OverlapCanLockOut` | backend/internal/api/auth_admin.go:252-266 | with one password service a settings request and a provider request that overlap both pass and leave none |
| `LoginMethods.HandlersRunAlone` | backend/internal/api/auth_admin.go:61-98 | each handler run alone is its check followed by its store |
| `CommandText.CommandRoundTrip` | frontend/src/task-editor.tsx:54-60 | opening and saving a command gives it back if and only if every argument is non-empty, trimmed and without a newline |
| `CommandText.BrowserSpaces` | frontend/src/task-editor.tsx:58-60 | the browser trims a byte order mark and keeps a next-line character, and otherwise agrees with Go on white space |

## Left out

- Durable repositories, the dispatcher, start claims and session storage: database and network code behind the in-memory cores.
- HTTP decoding, status codes, cookies, CSRF, rate limits, cryptography: inputs arrive decoded and outcomes are values of an error type.
- Timestamps of log entries, the status fields of a snapshot, tray and desktop layout: they do not affect which lines are kept.
- Counters that would need 2^63 steps to overflow (log sequence numbers, fencing tokens) are unbounded integers; pagination, cron steps and durations are modelled on 64-bit ints.
- Texts are sequences of characters, one unit each, where the server counts UTF-8 bytes and the browser UTF-16 units.
- The log endpoint's log is one ascending sequence of positive numbers per stream, as one attempt produces it; a second attempt starting again at 1 is not modelled.
- The row and object converters and the argument labels in frontend/src/task-editor.tsx: no modelled operation reads what they produce.
- The order of the permission list, of a user's roles, of a conflict's occurrences and of the conflicts of different resources, and the sort keys of segments: the model keeps sets where the source sorts at the end.
- Time zones: a zone is the function from UTC minutes to the minutes its clocks show. Where its offset changes, the next occurrence is still the first one, but that there is one within eight years is proved for fixed offsets only.
- ScheduleProjection.BuildScheduleProjection: schedule ids are distinct and the timestamp format writes different instants differently and without an at sign; lanes, labels, names and the normalisation of resource kinds are not modelled.
- CronText.Atoi, Text.IsSpace: Go's `strconv.Atoi` and `strings.Fields` are modelled from their documentation; their code is not part of the repository.
- Manual and fixed-time schedules in backend/internal/controlplane/scheduler.go: one branch each.
- `normalizeRoleName`, redaction: letters outside ASCII whose lower case is not ASCII are left as they are; no marker contains such a letter.
- Redaction.RedactAuditValue: a value of a Go type the switch does not name is modelled by the JSON content it stands for.
- LoginMethods.LoginMethodRemains: treats each handler as one step; the overlapping requests are in `RemainsExactlyUnlessStale`, where the reads inside one guard are one step.
- TokenRefresh.ExpiredOncePerFailure: a session-expired callback that throws is not modelled.
