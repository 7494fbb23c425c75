# Verified model of brein-dashboard's incremental playback pipeline

brein-dashboard collects playback activity from Emby, Jellyfin and Plex servers and keeps daily
dashboard tables up to date without ever recomputing them from scratch in the normal course. This
project models the parts of the server where that can go wrong, and proves that the incremental or
fast form agrees with the simple one on every input, run and interleaving.

| module | part of the program | question it settles |
|---|---|---|
| `Stamps`, `SessionBuilder`, `SessionStore` | text dates, the start/stop state machine, the session rebuild | what one rebuild leaves for every (instance, user, item) group |
| `Snapshots`, `Pipeline`, `PlaybackJob` | daily snapshot tables, the pending range, watermarks | whether snapshots kept incrementally under any interleaving equal a recomputation from the raw log |
| `ActivityLogSync` | the paginated newest-first log walk | whether the stored log can have a gap |
| `Calendar` | ISO date text filters | whether a text range can drop a row the exact local-date filter keeps |
| `Concurrency` | the sweep over start/end events | whether the sweep's peak is the maximum overlap |
| `LivePoll` | the Plex live poller | whether step-by-step upsert/finalise is one row per block of polls |
| `Conservation` | the Jellyfin (and Plex item) snapshot GROUP BYs | whether totals, users and items add up, one row per primary key |
| `Cache` | the size-bounded TTL cache | bound, eviction order, refinement of a plain map |
| `ListenerRegistry`, `TaskRunner` | listener tasks, scheduled tasks | at most one listener per instance, one body per task, every run row finished once |
| `ForeignKeyRepair` | boot-time cascade repair with crash points | convergence without losing rows |
| `LoginLockout`, `LikeEscape` | login lockout counter, LIKE prefix escaping | what the counter counts, what the pattern matches |

`Options`, `Sequences` and `Sets` hold shared definitions.

## How the parts fit

`Pipeline` is a state machine whose steps are the committed transactions and the code between two
awaits: log appends, the four steps of a session-rebuild pass, the note of a change, the watermark
write, and the start, commit, cache clearing or failure of a snapshot pass, under any throttle
interval. Any number of passes, for any instances, may be suspended between their steps, fail there, or
vanish in a process restart. Two histories that no step reads (how much of the log each group was last
built from, and the highest id noted per instance) carry the invariant; the theorems speak of the state
alone. `PlaybackJob.Job` is the same
job as one object changed in place; a ghost trace ties each of its methods to a run of the machine,
so a whole-pass sync ends with the snapshot tables a full recomputation from the log would give.
The machine assumes that appended ids rise; `SyncIsAppend` shows that a completed sync run is such an
append, after which the machine's log holds of the instance what the synced table holds.
`AggregateIsGroupBy` ties the incrementally kept tables to the GROUP BY whose sums `Conservation` is
about. The Jellyfin twins
(`brein/jobs/jellyfin_activity_log_sync.py`, `brein/store/jellyfin_playback_sessions.py`) follow the
same protocol line by line; they differ in the start and stop types (`SessionBuilder.KindOf`, by the
entry's backend) and in text ids, whose only use is an ordering.

Where a step of the program and its specification share a definition, that definition has a statement
of its own in terms of the stored values alone: which entry types open a session
(`SessionsComeFromEntries`, `OpenAndCloseMakeSession`), what a snapshot row counts (`PlaysAreCounts`),
what a finalised row holds (`StoredRowsAreBlocks`), which instants a reported day has (`SweepPeak`), how
long the months are (`MonthEnds`), and so on.

Dates are stored as text. A `Stamp` is the empty text, a timestamp in the servers' one UTC format (so
text order is time order, section 5.1 of RFC 3339), or a text that does not parse and sorts just after
some timestamp. The empty and the unparsable text take the branches the program gives them.

## Findings

- The walk's cap loses entries: with a server whose log does not change meanwhile, a run leaves a gap
  exactly when more than 200 000 entries are unsynced (`CapLosesEntriesIff`). Missing are exactly the
  unsynced entries that are not among the newest 200 000 (`LostEntriesIff`), and the gap is permanent: no
  later run stores one of them, whatever the server answers (`LostEntriesStayLost`).
- The concurrency sweep over-counts a day on whose first instant two or more streams end: rows of the
  running sum between those ends fall on the new day. `SweepPeak` gives the exact value reported,
  `SweepIsExactIff` when it is the true peak, `IdleDayReportsOne` a day without streams that reports
  one.
- The guard for a missing since date in `_rebuild_playback_sessions` fires exactly when the log at that
  read has no entry above the watermark (`PlaybackJob.GuardFiresIff`). While the log only grows it never
  does, because the maximum read before is still there (`GrowingLogHasDate`); it takes deleting the
  instance between the two reads, which the pipeline model leaves out.
- `_snapshot_rebuild_since` subtracts a day because a session may start eight hours before the change.
  That is early enough exactly in the zones whose local date never falls more than a day behind over such
  a span (`RebuildDayCoversReachIff`), in particular all whose offsets vary by under sixteen hours. A zone
  that skips a local day at its midnight, as Samoa's did in 2011, is not one of them
  (`DateLineZoneMissesADay`). The pipeline theorems ask for that condition. `RebuildDayIsReached` shows the day is needed.
- The comment beside the window for a malformed date says it cannot exclude anything. It keeps exactly the
  texts before `9999-12-31`, so it drops rows of that day and texts such as `unknown`
  (`MalformedWindowIff`). A range that starts on 0001-01-01 or ends on 9999-12-30 or later raises
  OverflowError, which the handler there does not catch (`WindowOverflowsIff`).

## Model

| member | source | states |
|---|---|---|
| SessionBuilder.BuildSessions | brein/store/emby_playback_sessions.py:65-106 | the walk over sorted rows returns exactly the sessions of the recursive reading, for any rows, groups and unparsable dates |
| SessionBuilder.SessionsIff | brein/store/emby_playback_sessions.py:77-104 | a row is built if and only if a maximal run of starts of one group since its last stop is followed by that group's stop, from the first start to the stop, lasting more than 0 s and at most 8 h |
| SessionBuilder.SessionsDoNotOverlap | brein/store/emby_playback_sessions.py:77-104 | in one group's date order sessions have start before end and never overlap their successors |
| SessionBuilder.SessionsConcat | brein/store/emby_playback_sessions.py:78-81 | building two groups' rows laid end to end is building each and concatenating |
| SessionBuilder.SessionsGrow | brein/store/emby_playback_sessions.py:82-104 | later events never change rows already built, and each further row ends at one of them |
| SessionStore.SortSorted | brein/store/emby_playback_sessions.py:190 | the fetch order is sorted by instance, user, item, date and is a permutation of the rows |
| SessionStore.EventsOfSort | brein/store/emby_playback_sessions.py:190 | one group's share of the sorted fetch is that group's events sorted |
| SessionStore.RowsOfSessions | brein/store/emby_playback_sessions.py:218 | building the whole sorted fetch at once gives each group exactly its own build |
| SessionStore.RebuildRows | brein/store/emby_playback_sessions.py:118-231 | after a delete-and-insert rebuild every group in scope has the build over its whole log and every other group the rows it had |
| SessionStore.LateEntriesAreLocal | brein/store/emby_playback_sessions.py:115-138 | entries dated at or after D leave a common prefix of a group's sessions and every other session, old or new, ends at or after D |
| SessionStore.SessionsComeFromEntries | brein/store/emby_playback_sessions.py:15-20 | every session of a group starts at one of its entries of a type that opens one and ends at one of a type that closes one, by backend |
| SessionStore.OpenAndCloseMakeSession | brein/store/emby_playback_sessions.py:82-104 | an opening entry and a closing one a second or more and less than 28 801 s later make exactly one session, lasting the whole seconds between them |
| Stamps.DurationIs | brein/store/emby_playback_sessions.py:87-89 | the duration is the whole seconds between the two dates, dropping a fraction toward zero; none when either does not parse |
| Stamps.TextOrder | brein/store/metrics_helpers.py:74-77 | the empty text sorts first, timestamps by time, an unparsable text right after the timestamp it follows |
| Stamps.RebuildDayCoversReachIff | brein/store/metrics_helpers.py:111-131 | the rebuild day is at or before every local day a change reaches, for every change, if and only if the zone's local date never falls more than a day behind from eight hours before an instant on |
| Stamps.ReachesIffSession | brein/store/emby_playback_sessions.py:84-104 | a change reaches a day exactly when a session of a usable duration can start on that day and end at or after the change |
| Stamps.DateLineZoneMissesADay | brein/store/metrics_helpers.py:126-131 | in a zone that skips a local day at its midnight a change reaches the day before its rebuild day |
| Stamps.LocalDayIs | brein/store/metrics_helpers.py:130 | the local date is the day whose seconds hold the UTC second plus the offset in force |
| Stamps.RebuildSinceIs | brein/store/metrics_helpers.py:121-131 | the rebuild day is the day before the change's local date, and none when its first 19 characters do not parse |
| Stamps.RebuildDayIsReached | brein/store/metrics_helpers.py:114-119 | the subtracted day is needed: early in a local day a session can reach back to the rebuild day itself |
| Stamps.SmallVariationIsValid | brein/store/metrics_helpers.py:125-131 | every zone whose offsets vary by under sixteen hours meets that condition |
| Snapshots.ChangeLocality | brein/store/metrics_helpers.py:111-131 | a session whose count changes when entries at or after D arrive ends at or after D, starts under 8 h 1 s before it, on or after the rebuild day |
| Snapshots.PrefilterIsRedundant | brein/store/metrics_helpers.py:134-145 | the raw-text bound keeps what starts at or after midnight UTC of the day before, so every session on or after the since day |
| Snapshots.RebuildMakesDaysAgree | brein/store/metrics_playback.py:49-164 | after a pass from a bound, exactly the days from it on, and the earlier ones that already agreed, agree with the aggregate of the sessions; no row of an earlier day changes |
| Snapshots.PlaysAreCounts | brein/store/metrics_playback.py:71-155 | plays are the number of sessions that start on the local day on the instance, and by the user or of the item |
| Snapshots.WatchAddsDurations | brein/store/metrics_playback.py:71-122 | watch time adds up the durations of those sessions; the per-item table has none |
| Snapshots.AggregateByMultiset | brein/store/metrics_playback.py:71-88 | a group's count and sum depend only on how often each session occurs, not on row order |
| Snapshots.AllDaysAgree | brein/store/metrics_playback.py:31-36 | tables that agree day by day are exactly the full aggregation |
| Pipeline.MaxId | brein/store/emby_activity_log.py:84-96 | the result is a stored id of the instance and bounds all of them; none only when there is no row |
| Pipeline.MinDateAfter | brein/store/emby_activity_log.py:99-112 | the result is the date of an entry above the given id and at or before the dates of all of them; none only when there is no such entry |
| Pipeline.RebuiltTableScope | brein/store/emby_playback_sessions.py:131-213 | a rebuild sets exactly the groups of its instance, or those with a playback entry at or after a non-empty since date, to the build over their whole log, and keeps all other rows |
| Pipeline.RebuildSeesUpToMax | brein/jobs/emby_activity_log_sync.py:145-152 | after a rebuild from its since date no group has an entry at or below the pass's maximum that its rows do not reflect |
| Pipeline.RebuildReachesChangedDays | brein/jobs/emby_activity_log_sync.py:149-153 | a day a rebuild changes is reached by an entry whose change is still to be noted |
| Pipeline.NoteChangePends | brein/jobs/emby_activity_log_sync.py:114-121 | noting adds to the pending days exactly those from the rebuild day on, or all; every day the change reaches becomes pending, and the earliest day pending is the earlier of the two |
| Pipeline.NoteCoversDay | brein/jobs/emby_activity_log_sync.py:114-121 | noting a change keeps covered every day its entries reach, although they stop counting as unnoted |
| Pipeline.CommitSnapshotInv | brein/jobs/emby_activity_log_sync.py:184-195 | committing a pass keeps every stale day covered although the pass gives up its range |
| Pipeline.StepInv | brein/jobs/emby_activity_log_sync.py:124-199 | every step of every interleaving, failures and restarts included, keeps the invariant |
| Pipeline.StaleDaysAreCovered | brein/jobs/emby_activity_log_sync.py:114-199 | in every reachable state a day whose snapshot differs from the stored sessions is pending, in flight, or reached by an entry above a watermark |
| Pipeline.ProcessedGroupsAreBuilt | brein/jobs/emby_activity_log_sync.py:124-163 | in every reachable state a group with no entry above the watermark has exactly the build over its whole log |
| Pipeline.QuiescentSnapshotsAreExact | brein/jobs/emby_activity_log_sync.py:166-199 | once nothing is pending or in flight and no entry is above a watermark, the snapshots equal a recomputation from the raw log |
| Pipeline.ThrottleIs | brein/jobs/emby_activity_log_sync.py:173-190 | within the interval since the last pass, or with nothing pending, nothing changes; otherwise the whole pending range is taken over and the time stamped |
| Pipeline.PassesAreSpaced | brein/jobs/emby_activity_log_sync.py:174-189 | over a run without a restart, two passes that are let through start at least the interval apart that the later one reads |
| Pipeline.PassesInterleaveFreely | brein/jobs/emby_activity_log_sync.py:124-199 | no step waits for another pass: each can start, go on, fail or be lost whatever else is in flight |
| Pipeline.RestartKeepsTables | brein/jobs/emby_activity_log_sync.py:29-35 | a restart keeps the tables and makes everything pending |
| PlaybackJob.PassIsRun | brein/jobs/emby_activity_log_sync.py:124-163 | every outcome of a session pass, whole or cut short, is a run of the machine |
| PlaybackJob.PassDoes | brein/jobs/emby_activity_log_sync.py:124-163 | a pass with nothing above the watermark changes nothing; any pass leaves other instances' watermarks and rows, and gives a group of its own either the rows it had or the build over its whole log |
| PlaybackJob.PassCatchesUp | brein/jobs/emby_activity_log_sync.py:145-163 | once its rebuild is committed every group with an entry above the watermark is built over its whole log, and once the change is noted every day such an entry reaches is pending |
| PlaybackJob.SnapshotIsRun | brein/jobs/emby_activity_log_sync.py:166-199 | every outcome of a snapshot pass, an exception before or after its commit included, is a run of the machine |
| PlaybackJob.SnapshotPassDoes | brein/jobs/emby_activity_log_sync.py:166-199 | a pass let through takes the pending range and, unless the rebuild raises, every day of it agrees with the stored sessions while every earlier snapshot row is as it was |
| PlaybackJob.GuardFiresIff | brein/jobs/emby_activity_log_sync.py:145-149 | the guard for a missing since date fires exactly when the log at that read has no entry above the watermark |
| PlaybackJob.GrowingLogHasDate | brein/jobs/emby_activity_log_sync.py:125-149 | while the log only grows between the two reads the guard does not fire |
| PlaybackJob.Job.NoteSnapshotChange | brein/jobs/emby_activity_log_sync.py:114-121 | the pending pair becomes the widened one, pending days stay pending, and every day the change reaches becomes pending |
| PlaybackJob.Job.RebuildSessions | brein/store/emby_playback_sessions.py:109-231 | every group of the instance, or every one with a playback entry at or after a non-empty since date, gets the build over its whole log, every other group keeps its rows, and the result is how many rows were inserted |
| PlaybackJob.Job.RebuildPlaybackSessions | brein/jobs/emby_activity_log_sync.py:124-163 | the object ends in the state of a run of the machine, wherever the pass is stopped |
| PlaybackJob.Job.MaybeRebuildDashboardSnapshots | brein/jobs/emby_activity_log_sync.py:166-199 | within the interval or with nothing pending nothing changes; otherwise the time is stamped, the range is rebuilt unless that raises, and everything is pending again after any exception, one from clearing the cache included |
| PlaybackJob.Job.RunActivityLogSync | brein/jobs/emby_activity_log_sync.py:295-316 | the log grows by what the syncs fetched; every instance whose session pass completes is processed; when these are all and the snapshot pass is let through and commits, the snapshots are what a recomputation from the raw log gives |
| ActivityLogSync.ActivityLog.GetMaxEntryId | brein/store/emby_activity_log.py:84-96 | the newest stored id, or none for an empty table |
| ActivityLogSync.PageIs | brein/jobs/emby_activity_log_sync.py:69-72 | a request at an offset gets exactly the entries from that far below the newest, at most 8000 of them, newest first |
| ActivityLogSync.ActivityLog.UpsertEntries | brein/store/emby_activity_log.py:49-81 | the batches replace rows of the same id, the last entry of an id winning, add the others and leave the rest |
| ActivityLogSync.ActivityLog.SyncOneInstance | brein/jobs/emby_activity_log_sync.py:60-111 | a failed request stores nothing; otherwise all new items of the pages walked are committed, the walk ending on an empty, stale or short page or at the cap |
| ActivityLogSync.SomePageHolds | brein/jobs/emby_activity_log_sync.py:69-103 | growth during the walk never opens a hole between pages |
| ActivityLogSync.WalkKeepsPrefix | brein/jobs/emby_activity_log_sync.py:69-106 | a completed run over a growing log turns a stored prefix of the server log into a longer one that includes all the server had at the first request |
| ActivityLogSync.RunsNeverLeaveGaps | brein/jobs/emby_activity_log_sync.py:60-106 | after any sequence of completed and failing runs the stored log is exactly the server's entries up to the newest stored |
| ActivityLogSync.CapLosesEntriesIff | brein/jobs/emby_activity_log_sync.py:93-102 | with nothing arriving meanwhile a run leaves no gap if and only if at most 200 000 entries are unsynced |
| ActivityLogSync.LostEntriesIff | brein/jobs/emby_activity_log_sync.py:69-103 | such a run leaves out exactly the entries that were not stored and are not among the newest 200 000 |
| ActivityLogSync.LostEntriesStayLost | brein/jobs/emby_activity_log_sync.py:66-83 | after any later runs, whatever the server answers, exactly those entries are still missing |
| ActivityLogSync.SyncIsAppend | brein/jobs/emby_activity_log_sync.py:66-111 | a completed run over a growing log, not cut short by its cap, adds entries the pipeline machine may append, after which the machine's log holds of the instance what the table holds, and of every other instance what it held |
| Calendar.NeighboursAreOneApart | brein/store/metrics_helpers.py:92-93 | a day forward or back moves the day number by one across month ends and leap years |
| Calendar.MonthEnds | brein/store/metrics_helpers.py:92-93 | the day after each month's last day is the first of the next, 29 February existing exactly in leap years |
| Calendar.DaysBeforeMonthIs | brein/store/metrics_helpers.py:92-93 | the days before each month of a year, in closed form |
| Calendar.TextLessIff | brein/store/metrics_helpers.py:74-77 | the text order is prefix first, else the smaller code point where two texts first differ |
| Calendar.IsoOrder | brein/store/metrics_helpers.py:74-82 | text order of ISO dates is day order, for all years 1 to 9999 |
| Calendar.WindowNeverExcludes | brein/store/metrics_helpers.py:89-98 | for every offset under a day, text window and exact local-date filter together select the rows of the exact filter alone |
| Calendar.WindowExcludesFarRows | brein/store/metrics_helpers.py:79-83 | the window is exactly the UTC dates from a day before the range to a day after it |
| Calendar.WindowOverflowsIff | brein/store/metrics_helpers.py:91-98 | building the window raises exactly for a range from 0001-01-01, or one of parsed dates that ends on 9999-12-30 or later |
| Calendar.MalformedWindowIff | brein/store/metrics_helpers.py:94-97 | the window for a malformed date keeps exactly the texts before 9999-12-31, so rows of that day are dropped |
| Calendar.SinceKeepsIff | brein/store/metrics_helpers.py:134-145 | the bound of an incremental rebuild keeps exactly the rows from the UTC day before on, a malformed date keeps everything, and only 0001-01-01 raises |
| Calendar.SinceNeverExcludes | brein/store/metrics_helpers.py:134-145 | for every offset under a day that bound drops no row on or after its local day |
| Concurrency.PeaksByDayAreMaxima | brein/store/dashboard_insights.py:75-151 | the whole query: with no stream longer than the day before the range and at most one ending on the day's first instant, entry k is that day and the maximum over its instants of the number of stored streams playing |
| Concurrency.SweepPeak | brein/store/dashboard_insights.py:108-145 | entry k of the report is, for the instants from the first of day lo + k up to the first of the next, the larger of the true peak and, when a stream ends on the first of them, the count just before it less one |
| Concurrency.SweepIsExactIff | brein/store/dashboard_insights.py:81-84 | that entry is the true peak of those instants if and only if no stream ends on the first of them or the count before it less one does not exceed the peak |
| Concurrency.SweepIsExact | brein/store/dashboard_insights.py:81-84 | with at most one stream ending on the day's first instant the entry is the maximum over the day's instants |
| Concurrency.IdleDayReportsOne | brein/store/dashboard_insights.py:129-140 | two streams ending together at midnight make a day on which nothing plays report one |
| Concurrency.PeakExists | brein/store/dashboard_insights.py:135-139 | every day has a true peak |
| Concurrency.ReportCoversRange | brein/store/dashboard_insights.py:135-151 | every requested day is reported once, in order |
| Concurrency.RequestedDaysTileRange | brein/store/dashboard_insights.py:126-144 | every instant of the requested range lies in exactly one requested day |
| Concurrency.PlayingIsCount | brein/store/dashboard_insights.py:108-118 | the streams playing at an instant are those that have started and not yet ended |
| Concurrency.ScanLosesNothing | brein/store/dashboard_insights.py:86-91 | when no stream outlasts the day before the range, the padded scan counts every stored stream |
| LivePoll.WatchedSeconds | brein/store/plex_playback_sessions.py:172-174 | the playhead in seconds capped by a positive duration |
| LivePoll.ShownIff | brein/store/plex_playback_sessions.py:63-88 | a key is shown with exactly the fields of the last entry of the poll that has a user and names it, missing and negative numbers read as zero |
| LivePoll.LivePollStore.TakeSnapshotSince | brein/store/plex_playback_sessions.py:20-24 | hands the mark over and clears it |
| LivePoll.LivePollStore.Upsert | brein/store/plex_playback_sessions.py:98-147 | shown keys carry the last shown fields, keep their first time, and other rows stay |
| LivePoll.LivePollStore.FinaliseKey | brein/store/plex_playback_sessions.py:164-218 | the row leaves the active table; from thirty seconds watched it is stored with its start, the poll's time as its end and the capped playhead, and the mark becomes the earlier of the two |
| LivePoll.LivePollStore.FinaliseVanished | brein/store/plex_playback_sessions.py:149-218 | exactly the instance's keys the poll no longer shows are finalised |
| LivePoll.LivePollStore.ProcessLivePoll | brein/store/plex_playback_sessions.py:91-219 | one poll's effect key by key, and the mark as the earliest start finalised |
| LivePoll.PollerMatchesHistory | brein/store/plex_playback_sessions.py:91-219 | after any polls of any instances the active keys are the last poll's, with the first time of the open block, and the finalised rows come from the ended maximal blocks, one each, in order |
| LivePoll.StoredRowsAreBlocks | brein/store/plex_playback_sessions.py:91-219 | the rows stored under a key are one per ended maximal block of polls with thirty seconds watched, in order: from the block's first poll to the first poll without the key, with the last playhead in seconds capped by a positive length |
| LivePoll.StoredRowIff | brein/store/plex_playback_sessions.py:91-219 | a row is stored under a key if and only if some such block left it |
| Cache.TotalSizeWithout | brein/cache.py:25-26 | the summed size does not depend on the order of summation |
| Cache.CacheStore.CurrentBytes | brein/cache.py:25-26 | the loop returns the summed length of the texts |
| Cache.CacheStore.Get | brein/cache.py:29-37 | an unexpired entry is returned, an expired one removed, all else unchanged |
| Cache.CacheStore.SweepExpired | brein/cache.py:84-92 | exactly the expired entries go, and the count is theirs |
| Cache.CacheStore.EnforceSizeLimit | brein/cache.py:45-63 | the bound of 64 MiB holds afterwards and eviction went by expiry |
| Cache.EnforcedMeans | brein/cache.py:45-63 | within the bound nothing changes; beyond it the expired go, every other entry that went expires no later than every one that stayed, and one of them would not have fitted beside what stayed |
| Cache.CacheStore.Set | brein/cache.py:40-42 | after every write the summed length is within the bound, one oversized value included |
| Cache.CacheStore.ClearMediaMetrics | brein/cache.py:119-124 | exactly the keys with the namespace's prefix go |
| Cache.RecordedIff | brein/cache.py:29-42 | the plain map holds under a key exactly what its last write, not cleared since, left |
| Cache.HitsAreLatest | brein/cache.py:29-42 | over any run a hit is the text of the key's last write, not cleared since and unexpired |
| Cache.FittingCacheIsExact | brein/cache.py:29-63 | while the live entries always fit, a lookup hits if and only if the key's last write, not cleared since, is unexpired |
| Cache.NamespacesAreDisjoint | brein/cache.py:95-124 | the namespaces share no key, and clearing media metrics spares the others |
| Conservation.GroupByConserves | brein/store/jellyfin_dashboard_metrics.py:124-136 | over any selection of groups the counts and sums are those of the rows |
| Conservation.DayIsConserved | brein/store/jellyfin_dashboard_metrics.py:113-211 | per day and instance, plays are the sum over users and over items, watch time the sum over users, and media counts the sums over items of that type |
| Conservation.TotalsAre | brein/store/jellyfin_dashboard_metrics.py:120-136 | a totals row counts and sums the day's and instance's sessions, and counts those whose item is a movie, an episode, or of one of the three live television types |
| Conservation.UsersAre | brein/store/jellyfin_dashboard_metrics.py:148-165 | a per-user row counts and sums the user's sessions, with the name of the user row that is not deleted |
| Conservation.ItemsAre | brein/store/jellyfin_dashboard_metrics.py:177-207 | a per-item row counts the item's sessions, with its item row and its series' name |
| Conservation.AllDaysAreConserved | brein/store/jellyfin_dashboard_metrics.py:124-136 | over all days the totals are the session table's count and summed duration |
| Conservation.PrimaryKeysAreUnique | brein/store/jellyfin_dashboard_metrics.py:120-207 | no insert yields two rows for one primary key |
| Conservation.PlexItemKeysAreUnique | brein/store/plex_dashboard_metrics.py:202-250 | plays of one item whose own type or title differ still make one row |
| Conservation.PlexItemsAre | brein/store/plex_dashboard_metrics.py:202-250 | a Plex item row counts the stored sessions of that rating key; sessions without one are left out |
| Conservation.AggregateIsGroupBy | brein/store/metrics_playback.py:71-155 | each of the three incrementally kept tables is its GROUP BY: rows and groups correspond one to one, with the same counts and sums |
| ListenerRegistry.StepInv | brein/integrations/websockets/registry.py:59-91 | every step of every interleaving keeps ownership of live listeners and lock discipline |
| ListenerRegistry.AtMostOneListener | brein/integrations/websockets/registry.py:54-91 | an instance has at most one live uncancelled listener, registered or held by the lock holder about to store it |
| ListenerRegistry.StoringOverwritesNothing | brein/integrations/websockets/registry.py:80-91 | storing a listener never overwrites an entry |
| ListenerRegistry.IdleRegistryIsComplete | brein/integrations/websockets/registry.py:94-97 | with no restart under way the registry knows every live listener |
| ListenerRegistry.StopStops | brein/integrations/websockets/registry.py:59-71 | a stop removes and cancels exactly the instance's listener and waits for it; with no restart inside the lock none of its listeners is left live |
| ListenerRegistry.AcquireStops | brein/integrations/websockets/registry.py:80-81 | a restart that gets the lock first stops what runs, and goes on only after that |
| ListenerRegistry.OldListenerHasEnded | brein/integrations/websockets/registry.py:66 | it builds a new listener only once the old one has ended |
| ListenerRegistry.RestartRegisters | brein/integrations/websockets/registry.py:84-90 | the new listener is live and becomes the instance's entry, every other entry staying; a failing factory leaves no entry |
| ForeignKeyRepair.InstanceTable.DeleteBatch | brein/db.py:249-264 | one transaction removes a batch of orphans, or all that are left, and no other row |
| ForeignKeyRepair.InstanceTable.SweepOrphans | brein/db.py:241-270 | the sweep ends with no orphan and the exact count, or is cut short having removed only orphans |
| ForeignKeyRepair.InstanceTable.EnsureCascade | brein/db.py:476-538 | from any state, a pass cut short anywhere loses no row of an existing instance; it ends validated and without orphans exactly when all its transactions commit; in the steady state it changes nothing |
| ForeignKeyRepair.OwnedRowsAre | brein/db.py:249-257 | the rows kept are those whose instance exists, each as often as before; all others are orphans |
| ForeignKeyRepair.RepairConverges | brein/db.py:476-538 | once one of any number of passes succeeds the table holds exactly the original rows of existing instances under a validated cascade, for good |
| TaskRunner.StepInv | brein/jobs/scheduled_task_runner.py:85-190 | every step of every interleaving keeps ids and rows matched to executions |
| TaskRunner.OneBodyPerTask | brein/jobs/scheduled_task_runner.py:85-132 | at most one body per task runs at a time |
| TaskRunner.IdsAreReleased | brein/jobs/scheduled_task_runner.py:87-190 | an id is taken exactly while an execution of it is under way |
| TaskRunner.RowsEndOnce | brein/jobs/scheduled_task_runner.py:99-184 | a row without an execution under way was finished exactly once as success or error, unless its execution was cancelled or could not record its error |
| TaskRunner.StepSettlesRow | brein/jobs/scheduled_task_runner.py:124-184 | a row becomes a success or an error exactly when the execution that owns it records that, or an error by the reaper, and counts as finished once more; nothing else touches it |
| TaskRunner.NewRowSays | brein/jobs/scheduled_task_runner.py:99-112 | a row created for an unknown key or a late failure is an error, one created before the body is running |
| TaskRunner.SuccessIff | brein/jobs/scheduled_task_runner.py:124-138 | a row says success if and only if the execution that owned it recorded one |
| TaskRunner.EndReleasesId | brein/jobs/scheduled_task_runner.py:189-190 | however an execution ends, its id and no other is free again |
| TaskRunner.BeginTakesId | brein/jobs/scheduled_task_runner.py:85-89 | an execution begins only with its task's id free, which it takes |
| TaskRunner.OrphansNeedFailure | brein/jobs/scheduled_task_runner.py:144-188 | nothing else leaves a row unfinished |
| TaskRunner.ReaperFinishesAll | brein/store/scheduled_tasks.py:216-228 | the boot reaper finishes all the rest, each once |
| LoginLockout.User.RecordLoginFailure | brein/store/users.py:236-257 | the row restarts or continues its count by the age of the last failure, and if it counted the longest suffix of closely spaced failures so far, it does with this one too |
| LoginLockout.User.Login | brein/web/auth.py:87-93 | a locked account's attempts are refused and not recorded |
| LoginLockout.CounterIsLongestChain | brein/store/users.py:17-22 | over every run the counter is the length of the longest suffix of failures since the last success with gaps of at most the window |
| LoginLockout.LockedIff | brein/store/users.py:25-33 | locked exactly when the last ten such failures chain and the last is under a window old |
| LoginLockout.LockoutIsNotExtended | brein/web/auth.py:87-93 | attempts made while locked change nothing and never extend the lockout |
| LikeEscape.EscapeIsPerCharacter | brein/store/user_preferences.py:55-58 | the three replacements are one per-character escape |
| LikeEscape.PatternMatchesPrefix | brein/store/user_preferences.py:46-58 | a key matches the pattern if and only if it starts with the prefix |
| LikeEscape.UnescapedMatchesMore | brein/store/user_preferences.py:46-53 | used unescaped, a prefix with an underscore would match keys that do not start with it |
| LikeEscape.Preferences.DeleteByPrefix | brein/store/user_preferences.py:38-61 | exactly the user's keys starting with the prefix are deleted |

## Left out

- Cancelling a snapshot pass (the task deadline) loses its range without marking everything pending; the pipeline theorems cover success and exceptions, as the program's handler does.
- Several statements of one snapshot rebuild seeing different commits (READ COMMITTED): each committed transaction is one step.
- Snapshots.RebuildMakesDaysAgree: does not cover the media counts and the columns copied from items and users, because old days do not refresh them when items and users change; plays and watch time only.
- PlaybackJob.Job.RunActivityLogSync: does not run the gathered coroutines interleaved, because an object's methods run one after another; `Pipeline` covers every interleaving of their steps.
- PlaybackJob.Job.MaybeRebuildDashboardSnapshots: does not model what clearing the dashboard cache removes, only whether it raises; `Cache.CacheStore.ClearMediaMetrics` models that.
- Deleting an instance or resetting all sessions while the pipeline runs, and the server trimming its own log.
- Which of several rows with one date comes first: the SQL does not say; the model keeps entry order.
- Text dates in more than one format, or in a collation other than code points.
- Log items without a usable id, which the upsert skips.
- The user-id backfill and instance configuration checks of the sync job.
- The general rebuild over all instances at once (`instance_id=None`), which the job never asks for.
- Date texts other than YYYY-MM-DD that `date.fromisoformat` accepts; callers validate dates.
- Local days that are not one interval of instants: `Concurrency` takes the first instant of each day as given.
- The session filters on instance, user and text length in the concurrency query.
- A poll's exception between setting the mark and committing: one poll is one step. The mark's consumer, `refresh_snapshots` in `brein/store/plex_dashboard_metrics.py`, is not modelled.
- The account and title fields of Plex rows beyond being carried along, and rounding of wall-clock floats.
- JSON encoding in the cache: values are their stored text and its length.
- Emby per-user snapshot keys: the join is not on a key there, so uniqueness does not hold in general.
- Cancelling a restart or stop coroutine of the registry, and `track` after startup.
- The registry's and the runner's dictionaries as mutable objects: both are values of a state machine, because what matters is the interleaving at awaits.
- Several foreign keys from one table to the instances, writers during a repair pass, and locks other than as an interruption.
- Minimum spacing between runs of a task, pruning, and the recorded error text.
- Password checks, token rotation and per-address limits around the lockout; concurrent attempts on one account are one after another.
- Routers, HTTP and WebSocket clients, the frontend, backups and configuration: plumbing with no hard property.
- ForeignKeyRepair.InstanceTable.DeleteBatch: does not model which orphans a batch picks beyond taking the first ones, because the query leaves the choice open and only the count matters.
