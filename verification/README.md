# ZSEM-Bells in Dafny

ZSEM-Bells rings a school's bells. It reads the lesson plan from the
school's web site and turns each lesson's hour range into boundary times
of day. A virtual clock advances one second per loop pass. Whenever the
time of day equals a boundary, the clock starts the break coroutine (even
index) or the work coroutine (odd index). User-configured sync checkpoints
fire an `update` coroutine that refreshes the schedule and the clock.

This project models that core as pure functions over immutable data:

- `timestamps.dfy` (`Timestamps`) models the time-of-day utilities:
  - `to_timestamp`, parsing `"H:M:S"` and `"H:M"` the way `strptime` does;
  - `to_string`, which gives zero-padded `"HH:MM:SS"`;
  - `compare_timestamps`;
  - `is_valid_timestamp`, as written and as intended;
  - `get_adjacent_timestamp`, as a loop with invariants.

  A time of day is an integer in `[0, 86400)`.
- `virtual_clock.dfy` (`VirtualClock`) models the clock's state: the
  started flag, the absolute time in seconds, the boundary list, the
  registrations and the three callback slots. One pass of the `start_t`
  loop is a `Tick`. It returns the ordered events of that second:
  - the neutral call and the break or work task, per due boundary;
  - then one task per due checkpoint.

  A tick whose due boundary finds an empty slot raises (calling `None`).
  `RunTicks` chains ticks. The module also has the setters, `start_t`
  before its loop (including the `IndexError` its first status table
  raises on an empty boundary list), `stop` and the status-table label.
- `schedule_keeper.dfy` (`ScheduleKeeper`) models three things:
  - `_parse_hour_range`;
  - `get_timestamps`: flatten the cells, parse every entry, sort;
  - the longest-branch fold of `_get_valid_branches`.
- `user_config.dfy` (`UserConfig`) models `get_value` and `update_key`
  over a JSON tree, including Python's `in` semantics on strings and lists.
- `bells.dfy` (`Bells`) models the wiring in `main`:
  - the three coroutines;
  - `update`;
  - the validation and registration of the sync checkpoints;
  - start-up.
- `strings.dfy` and `wrappers.dfy` hold support code: `str.split`,
  `str.replace`, `str.count`, substring `in`, `Option` and `Result`.

Network answers are parameters of the functions that need them. So are the
time reported by `sync_time` and the values read from the configuration.

## Model

| member | source | states |
|---|---|---|
| Timestamps.Seconds | src/utils.py:160-161 | `to_seconds`: `3600h + 60m + s`. Its meaning as a time of day is given by SecondsDecompose and SecondsCompose, and CompareTimestamps builds on it. |
| Timestamps.SecondsDecompose | src/utils.py:160-161 | An hour below 24, a minute below 60 and a second below 60 give `3600h + 60m + s` below 86400, and the hour, minute and second read back from it are the ones put in. |
| Timestamps.SecondsCompose | src/utils.py:160-161 | Every time of day has hour, minute and second in range, and `to_seconds` of those fields is the time itself. |
| Timestamps.CompareTimestamps | src/utils.py:159-168 | The difference is how far `b` lies after `a` (`a + delta == b`). The flag is true exactly when `b` is not later than `a`. The difference never exceeds 86399 either way. |
| Timestamps.CompareAntisymmetric | src/utils.py:163-168 | Swapping the arguments negates the difference, and at least one of the two comparisons reports "past". |
| Timestamps.CompareSelf | src/utils.py:166-168 | A time compared with itself gives `(True, 0)`: "now" counts as past. |
| Timestamps.ParseField | src/utils.py:150 | One `%H`/`%M`/`%S` directive accepts only one or two ASCII digits whose value is within the field's maximum. A field that parses is the decimal rendering of its value: one digit, or two digits with a leading zero allowed. |
| Timestamps.OneDigitField | src/utils.py:150 | A single digit within the field's maximum is accepted as its own value, as `strptime` takes `"8"` for `%H`. |
| Timestamps.ParseHMS | src/utils.py:150 | The `"%H:%M:%S"` attempt: a result exists only for three colon-separated fields that parse as hour, minute and second, and it carries those fields. |
| Timestamps.ParseHM | src/utils.py:154 | The `"%H:%M"` attempt: a result exists only for two colon-separated fields that parse as hour and minute, and its second is 0. |
| Timestamps.ToTimestamp | src/utils.py:147-156 | A result exists only for two or three colon-separated fields. With three fields they are hour, minute and second. With two they are hour and minute, and the second is 0. `None` comes back exactly when both formats fail, instead of an exception. |
| Timestamps.IsValidTimestamp | src/utils.py:93-98 | As written, the flag is always true, and the value is `to_timestamp`'s result, so it is `None` exactly when parsing failed. |
| Timestamps.IsValidTimestampIntended | src/utils.py:93-98 | As intended, the flag is true exactly when a time was parsed, and the value is `to_timestamp`'s result. |
| Timestamps.IsValidTimestampDiffers | src/utils.py:93-98 | The check as written and as intended return the same value, and they agree exactly when the string parses. |
| Timestamps.TwoDigits | src/utils.py:138 | The zero-padded rendering of a number below 100 is two ASCII digits that parse back to that number. |
| Timestamps.ToString | src/utils.py:131-144 | `to_string` gives eight characters: colons at positions 2 and 5, digits everywhere else. |
| Timestamps.HourMinuteParses | src/utils.py:147-156 | An hour field and a minute field that each parse, joined by a colon, parse as that hour and minute with second 0. |
| Timestamps.UnpaddedHourParses | src/utils.py:147-156 | The unpadded `"H:MM"` form, as in `"8:00"`, parses as that hour and minute. |
| Timestamps.RoundTrip | src/utils.py:131-156 | Parsing the formatted string gives back the same time of day. |
| Timestamps.CanonicalRoundTrip | src/utils.py:131-156 | A canonical `"HH:MM:SS"` string that parses is reproduced exactly by formatting its parse. |
| Timestamps.GetAdjacentTimestamp | src/utils.py:101-128 | On an empty list there is no result (the source raises `IndexError`). With "next", the result is the entry with the smallest positive difference, the last index on ties; failing that, index 0 with its raw difference. With "previous", it is the entry with the largest non-positive difference, the first index on ties; failing that, the last index. |
| Timestamps.NextChoiceOnSortedList | src/utils.py:106-128 | On a sorted boundary list, the "next" choice is the earliest entry after now. When every entry has passed, it is the list's first and smallest entry. |
| Timestamps.NextBeforeFirstBoundary | src/utils.py:106-119 | With boundaries 07:00 and 07:30 at 06:00, the next target is index 0 at 07:00, one hour ahead. |
| Timestamps.NextAfterLastBoundaryWraps | src/utils.py:121-128 | With the same boundaries at 08:00, the next target wraps to index 0 with the raw difference of minus one hour; no day is added. |
| Strings.RemoveAll | src/classes/schedule_keeper.py:19 | `replace(" ", "")` leaves no space behind and drops exactly as many characters as there were spaces. A string without spaces comes back unchanged. |
| Strings.RemoveAllAppend | src/classes/schedule_keeper.py:19 | Removal works piece by piece: removing from `a + b` is removing from `a`, then from `b`. The kept characters therefore stay in their order. |
| Strings.Split | src/classes/schedule_keeper.py:19 | `split("-")` yields one more piece than there are dashes, and no piece holds a dash. |
| Strings.JoinSplit | src/classes/schedule_keeper.py:19 | Joining the pieces of a split with the separator gives the original string back. |
| Strings.SplitJoin | src/classes/schedule_keeper.py:19 | Splitting a join of separator-free pieces gives those pieces back. |
| ScheduleKeeper.ParseHourRange | src/classes/schedule_keeper.py:18-19 | The pieces hold neither spaces nor dashes. Re-joined with `-`, they are the cell without its spaces. There is one more piece than the cell has dashes. |
| ScheduleKeeper.GetTimestamps | src/classes/schedule_keeper.py:198-205 | The result exists exactly when every boundary string of every cell parses; otherwise `sorted` cannot order `None`. A result is sorted ascending, has one entry per boundary string, and is a permutation of the parsed entries, duplicates kept. |
| ScheduleKeeper.Flatten | src/classes/schedule_keeper.py:201-203 | The nested loop of `get_timestamps`: every cell's boundary strings, in table order. Its meaning is stated by FlattenLength and ParsedValues. |
| ScheduleKeeper.FlattenLength | src/classes/schedule_keeper.py:201-203 | The nested loop visits every boundary string once: the flattened list is as long as all cells together. |
| ScheduleKeeper.ParsedValues | src/classes/schedule_keeper.py:201-203 | Each parsed value is the parse of the boundary string at the same position. |
| ScheduleKeeper.Sort | src/classes/schedule_keeper.py:205 | The sorted list is ascending and a permutation of its input. |
| ScheduleKeeper.Insert | src/classes/schedule_keeper.py:205 | Inserting into an ascending list keeps it ascending and adds exactly the one value. |
| ScheduleKeeper.SortedPermutationUnique | src/classes/schedule_keeper.py:205 | Two ascending lists with the same elements are equal, so the model's sort agrees with Python's `sorted`. |
| ScheduleKeeper.SelectStep | src/classes/schedule_keeper.py:89-93 | One pass of the selection fold for a good branch: it is recorded as valid, and it replaces the kept table when none is kept yet or the kept one is no longer. Its meaning is stated by SelectLongest and SelectLongestKeepsLastLongest. |
| ScheduleKeeper.SelectLongest | src/classes/schedule_keeper.py:89-93 | Every good branch is recorded as valid, in visiting order. A schedule branch is chosen exactly when some good branch was seen. |
| ScheduleKeeper.SelectLongestKeepsLastLongest | src/classes/schedule_keeper.py:91-93 | The kept hour ranges are a longest table, the last of the longest ones, and the recorded branch index is that table's branch. |
| VirtualClock.KindOf | src/classes/virtual_clock.py:117-120 | The parity test: an even index schedules `break_callback`, an odd one `work_callback`. Used by FireBoundariesFrom and FireDueBoundaries; StatusLabel and LabelOppositeToFiring relate it to the status label. |
| VirtualClock.FireBoundaries | src/classes/virtual_clock.py:109-120 | The boundary loop of a tick. Its meaning is stated by FireBoundariesFrom, FireBoundariesOrdered, FireBoundariesExact, FireBoundariesCrash, NeutralPrecedesTask and OnlyTasksWithoutNeutral. |
| VirtualClock.FireBoundariesFrom | src/classes/virtual_clock.py:109-120 | Every event of the boundary loop belongs to an index whose boundary equals the time of day. A task goes to the break slot for an even index and the work slot for an odd one. A neutral call uses the neutral slot. |
| VirtualClock.FireBoundariesOrdered | src/classes/virtual_clock.py:109-120 | The boundary loop emits its tasks in increasing index order. |
| VirtualClock.FireBoundariesCrash | src/classes/virtual_clock.py:113-120 | The boundary loop raises exactly when a due index finds its break or work slot empty. |
| VirtualClock.FireBoundariesExact | src/classes/virtual_clock.py:109-113 | Without an exception, an index gets a task exactly when its boundary equals the time of day. |
| VirtualClock.NeutralPrecedesTask | src/classes/virtual_clock.py:113-120 | With a neutral callback and no exception, every task comes directly after a neutral call for the same index, and every neutral call comes directly before its task. |
| VirtualClock.OnlyTasksWithoutNeutral | src/classes/virtual_clock.py:113-120 | Without a neutral callback, the boundary loop emits only tasks. |
| VirtualClock.FireRegistration | src/classes/virtual_clock.py:125-135 | The inner checkpoint loop for one registration. Its meaning is stated by FireRegistrationExact. |
| VirtualClock.FireCheckpoints | src/classes/virtual_clock.py:124-135 | The checkpoint loop over all registrations. Its meaning is stated by FireCheckpointsExact, FireCheckpointsOrdered, FireCheckpointsSnoc and FireDueCheckpoints. |
| VirtualClock.FireRegistrationExact | src/classes/virtual_clock.py:128-135 | One registration schedules its callback once per checkpoint equal to the time of day, duplicates included, in checkpoint order, and nothing else. |
| VirtualClock.FireCheckpointsExact | src/classes/virtual_clock.py:124-135 | Every due checkpoint of every registration schedules that registration's callback. Nothing else is scheduled. |
| VirtualClock.FireCheckpointsOrdered | src/classes/virtual_clock.py:124-135 | Checkpoint tasks are ordered by registration, then by checkpoint. |
| VirtualClock.FireCheckpointsSnoc | src/classes/virtual_clock.py:124-135 | A registration appended at the end adds its own tasks after the earlier registrations' tasks. |
| VirtualClock.Fire | src/classes/virtual_clock.py:108-135 | A tick's two loops: the boundary loop, then, unless it raised, the checkpoint loop. Its meaning is stated by FireEvents, FireCrashes and FireCheckpointsLast. |
| VirtualClock.FireEvents | src/classes/virtual_clock.py:108-135 | A tick without an exception emits the boundary loop's events, then the checkpoint loop's. |
| VirtualClock.FireCrashes | src/classes/virtual_clock.py:109-120 | A tick raises exactly when a boundary due now has no callable in its slot. |
| VirtualClock.FireDueBoundaries | src/classes/virtual_clock.py:109-120 | In a tick without an exception, each index whose boundary is due gets exactly one task; duplicate boundaries get one each. No other index gets a task. Tasks come in index order. Even indices get the break callback, odd ones the work callback. |
| VirtualClock.FireDueCheckpoints | src/classes/virtual_clock.py:124-135 | In a tick without an exception, a checkpoint task for a registration and index appears exactly when that checkpoint is due, and it carries the registration's callback. |
| VirtualClock.FireCheckpointsLast | src/classes/virtual_clock.py:108-135 | Within a tick, no neutral call or boundary task comes after a checkpoint task. |
| VirtualClock.Tick | src/classes/virtual_clock.py:94-102 | One loop pass adds exactly one second to `current_time` and changes nothing else about the clock. |
| VirtualClock.RunTicks | src/classes/virtual_clock.py:94-102 | A run of `n` passes without an exception ends `n` seconds later, with one log entry per pass. |
| VirtualClock.RunTicksLog | src/classes/virtual_clock.py:94-135 | In a run without an exception, the `k`-th log entry is what fires, without raising, at the time of day `k + 1` seconds after the start. |
| VirtualClock.DayCovers | src/classes/virtual_clock.py:101-102 | Some tick within a day sees each second of the day. |
| VirtualClock.DayRepeatsNothing | src/classes/virtual_clock.py:101-102 | No two ticks within a day see the same second of the day. |
| VirtualClock.RunFiresDue | src/classes/virtual_clock.py:101-113 | In a run without an exception, tick `k` fires boundary `i` exactly when that boundary equals the time of day the tick sees. |
| VirtualClock.BoundaryFiresWithinDay | src/classes/virtual_clock.py:94-113 | A run of at least a day fires each boundary within its first day, in the tick that sees the boundary's time. |
| VirtualClock.BoundaryFiresOnceWithinDay | src/classes/virtual_clock.py:94-113 | Within the first day of a run, a boundary fires in at most one tick. |
| VirtualClock.EachBoundaryOncePerDay | src/classes/virtual_clock.py:94-113 | Over a day of polling without a sync, every boundary fires in exactly one tick: none is skipped and none repeated. |
| VirtualClock.SyncTime | src/classes/virtual_clock.py:41-77 | `sync_time` overwrites `current_time` with the reported time and leaves the rest alone. |
| VirtualClock.StartT | src/classes/virtual_clock.py:79-94 | Starting a started clock changes nothing. Otherwise the clock becomes started. It synchronises only when it has no time yet, and boundaries, registrations and slots stay as they were. |
| VirtualClock.Stop | src/classes/virtual_clock.py:148-156 | After `stop` the clock is not started, and its time and configuration are unchanged; a stopped clock stays as it is. |
| VirtualClock.LoopStep | src/classes/virtual_clock.py:94-101 | The loop runs a pass exactly when the clock is started at the condition check. The pass sleeps, then advances the time by one second. The clock stays started after the pass unless `stop` ran during the sleep. |
| VirtualClock.StartTReady | src/classes/virtual_clock.py:82-94 | After `start_t` the loop's condition holds and the clock has a time to advance. A second `start_t` changes nothing. |
| VirtualClock.StopEndsLoop | src/classes/virtual_clock.py:148-156 | After `stop` the loop exits at its next condition check, and stopping twice is stopping once. |
| VirtualClock.StopDuringSleepOneMorePass | src/classes/virtual_clock.py:94-101 | A `stop` during the sleep after the condition check does not cancel the pass. The tick still happens with the same time and events as without the stop, and the loop ends at the check after it. |
| VirtualClock.InitialStart | src/classes/virtual_clock.py:21-33 | The clock `__init__` leaves is stopped and has no boundaries. Its first `start_t` sets `is_started` and the reported time, then raises in the initial `log_status_table`, before any pass of the loop. |
| VirtualClock.StatusLookups | src/classes/virtual_clock.py:159-164 | The two `get_adjacent_timestamp` calls of `log_status_table` fail exactly on an empty boundary list. Otherwise they give the next and the previous boundary from the clock's time of day, as `IsNextChoice` and `IsPreviousChoice` define them. |
| VirtualClock.StartTChecked | src/classes/virtual_clock.py:79-89 | `start_t` up to its loop leaves the clock as StartT says. It raises exactly when the clock was not running and has no boundaries: a running clock only warns, and otherwise the initial `log_status_table` looks up an empty list. |
| VirtualClock.CrashedClockStaysStarted | src/classes/virtual_clock.py:82-85 | A pass that raises leaves `is_started` set, so a later `start_t` only warns and does not restart the loop. |
| VirtualClock.SetTimestamps | src/classes/virtual_clock.py:38-39 | `set_timestamps` replaces the boundary list and nothing else. |
| VirtualClock.AddWbCallbacks | src/classes/virtual_clock.py:188-192 | `add_wb_callbacks` overwrites all three slots. An omitted neutral callback becomes `None`. Boundaries, registrations, flag and time are untouched. |
| VirtualClock.AddTimestampCallback | src/classes/virtual_clock.py:194-195 | `add_timestamp_callback` appends one registration, keeps the earlier ones and changes nothing else. |
| VirtualClock.WiredClockNeverCrashes | src/classes/virtual_clock.py:113-120 | Once work and break callbacks are set, no tick raises. |
| VirtualClock.AddTimestampCallbackKeepsCrash | src/classes/virtual_clock.py:194-195 | A new registration does not change whether a tick raises. |
| VirtualClock.AddTimestampCallbackKeepsEarlier | src/classes/virtual_clock.py:124-135 | After a new registration a tick does what it did before, then fires the new registration's due checkpoints: earlier registrations keep firing. |
| VirtualClock.BoundariesIgnoreRegistrations | src/classes/virtual_clock.py:109-120 | The boundary loop depends only on the boundary list and the three slots. |
| VirtualClock.StatusLabel | src/classes/virtual_clock.py:170-176 | The status table shows `"Break"` exactly for an odd index, and `"Work"` for index 0, any even index or no index. |
| VirtualClock.LabelOppositeToFiring | src/classes/virtual_clock.py:170-176 | The label's parity is the opposite of the firing rule: an index labelled `"Break"` is one whose firing starts the work callback. |
| UserConfig.Step | src/classes/user_config_manager.py:64-73 | One step goes on exactly when the current value is an object holding the key. A missed `in` test raises `KeyError`. A string or list hit raises `TypeError` at the indexing. On a number, boolean or null, `in` raises `TypeError`. |
| UserConfig.Walk | src/classes/user_config_manager.py:61-75 | No keys give the starting value. Any failure is `TypeError` or a `KeyError` naming one of the keys. |
| UserConfig.GetValue | src/classes/user_config_manager.py:61-75 | `get_value([])` is the whole configuration. Any failure is `TypeError` or a `KeyError` naming one of the keys. |
| UserConfig.WalkSnoc | src/classes/user_config_manager.py:64-73 | Each additional key is one more loop pass after the walk so far. |
| UserConfig.GetValueSnoc | src/classes/user_config_manager.py:64-73 | `get_value` with one more key is one more step from the value found so far. |
| UserConfig.WalkAppend | src/classes/user_config_manager.py:61-75 | Walking along `a + b` is walking along `a`, then along `b` from there. |
| UserConfig.SetAt | src/classes/user_config_manager.py:47-57 | A successful assignment adds the last key and keeps every other top-level key. A failure is a `KeyError` for one of the keys before the last. |
| UserConfig.UpdateKey | src/classes/user_config_manager.py:45-57 | No keys is an `IndexError`. Otherwise any failure is a `KeyError` for one of the keys before the last. |
| UserConfig.WalkFromNonObject | src/classes/user_config_manager.py:64-73 | A walk of at least one key from a value that is not an object fails. |
| UserConfig.SetAtFails | src/classes/user_config_manager.py:48-57 | The assignment fails exactly when the keys before the last do not lead to a nested object. |
| UserConfig.UpdateKeyFails | src/classes/user_config_manager.py:45-57 | `update_key` fails exactly when there are no keys or the keys before the last do not lead to a nested object. A failure returns no new tree, so the old one stands. |
| UserConfig.SetAtThenWalk | src/classes/user_config_manager.py:47-57 | After the assignment, walking along the keys and beyond reaches the new value and continues from it. |
| UserConfig.UpdateKeyThenGet | src/classes/user_config_manager.py:45-75 | After a successful `update_key(keys, v)`, `get_value(keys)` is `v`, and longer paths through `keys` continue from `v`. |
| UserConfig.SetAtFrame | src/classes/user_config_manager.py:47-57 | The assignment changes nothing along a path that parts from the updated one. |
| UserConfig.UpdateKeyFrame | src/classes/user_config_manager.py:45-57 | `update_key` changes nothing along a path that parts from the updated one. |
| UserConfig.SetAtTwice | src/classes/user_config_manager.py:56-57 | A second assignment along the same keys replaces the first. |
| UserConfig.SetAtSame | src/classes/user_config_manager.py:56-57 | Repeating an assignment changes nothing. |
| UserConfig.UpdateKeyOverwrites | src/classes/user_config_manager.py:56-57 | The final key is overwritten by a second update, and applying the same update twice equals applying it once. |
| Bells.Dispatch | src/main.py:60-79 | The work coroutine rings with `is_work` true and the break coroutine with false. Each starts a resync exactly when `clock_sync_after_callbacks_enabled` is set. `update` syncs the schedule, then the clock, then installs the boundaries. A failure of the install step, when `get_timestamps` raises, is modelled by Update. |
| Bells.Update | src/main.py:74-79 | `update` resynchronises the clock and keeps the fetched schedule. It installs `get_timestamps()` when that succeeds. When `get_timestamps` raises, the old boundaries stay. The started flag and the other clock settings are untouched. |
| Bells.UpdateKeepsBoundariesSorted | src/main.py:74-79 | If the clock's boundaries were ascending before `update`, they are ascending after it. |
| Bells.UpdateInstallsSchedule | src/main.py:74-79 | After a successful update the installed boundary list is a permutation of the new schedule's parsed boundaries: each occurs as often as in the schedule, and nothing else occurs. |
| Bells.Check | src/main.py:100 | The call to `is_valid_timestamp`, as written or as intended; see Timestamps.IsValidTimestamp, Timestamps.IsValidTimestampIntended and Timestamps.IsValidTimestampDiffers. |
| Bells.Validate | src/main.py:99-107 | The validation loop keeps at most one value per entry. |
| Bells.ValidateAsWritten | src/main.py:99-107 | As written, nothing is skipped. The output is as long as the input, and its `i`-th value is the parse of the `i`-th entry, `None` for a malformed one. |
| Bells.ValidateIntended | src/main.py:99-107 | As intended, only parsed times are kept, one per entry that parses. A list that parses throughout is kept whole. |
| Bells.ValidateIntendedProvenance | src/main.py:99-107 | As intended, each kept value is the parse of some entry. |
| Bells.ValidateIntendedFilters | src/main.py:99-107 | As intended, the loop's output is the as-written output with the `None`s removed, in the same order. |
| Bells.ValidateIntendedPicks | src/main.py:99-107 | As intended, the kept times are the parses of exactly the entries that parse, in input order: an increasing index map covers every entry that parses and no other. |
| Bells.SomeEntriesPicks | src/main.py:99-107 | Keeping the parsed values of a list and dropping the failures picks every parsed value, in order. |
| Bells.PicksSomeUnique | src/main.py:99-107 | The entries fix the kept list: two lists that each pick the parsed entries in order are equal. |
| Bells.ValidateIntendedStep | src/main.py:99-107 | One pass of the intended loop appends the entry's time exactly when it parses. |
| Bells.RegisterSyncCheckpointsAsWritten | src/main.py:93-112 | As written, an empty list registers nothing. Otherwise start-up survives exactly when every entry parses; the failure is the `TypeError` from formatting `None`. On success exactly one registration of all entries' times, in input order, goes to `update`, and nothing else changes. |
| Bells.RegisterSyncCheckpoints | src/main.py:93-112 | As intended, an empty list registers nothing. Otherwise exactly one registration goes to `update`, holding the parses of the entries that parse, in input order, and nothing else changes. |
| Bells.RegistrationsAgreeOnWellFormedInput | src/main.py:93-112 | When every entry parses, the corrected registration is the one the code as written makes. |
| Bells.MalformedSyncEntryCrashesStartup | src/main.py:99-110 | As written, `["07:00:00", "bad", "07:30:00"]` makes start-up fail at `to_string(None)`. |
| Bells.MalformedSyncEntrySkipped | src/main.py:99-112 | As intended, the same list registers 07:00 and 07:30 with `update`. |
| Bells.MiddleEntryDropped | src/main.py:99-112 | As intended, of three entries with only the middle one malformed, the first and third are registered in order. |
| Bells.Startup | src/main.py:83-114 | Start-up succeeds exactly when the first `get_timestamps` does and, unless the clock was already running, yields at least one boundary. An unsortable schedule fails at the first `update`. An empty one fails when `start_t`'s initial `log_status_table` raises `IndexError`, which `await clock_task` passes on. On success, the result holds the fetched schedule and a started clock at the reported time with the sorted boundaries. Work and break are wired and no neutral callback is set. The sync checkpoints make at most one registration to `update`, holding the parses of the entries that parse, in input order. |
| Bells.StartedSystemRingsByParity | src/main.py:60-87 | Once `main` runs, no tick raises. Every boundary task rings a bell first: the work bell at an odd index and the break bell at an even one. |

## Left out

- Bell hardware (`src/wrapper.py`): GPIO pins, `aplay` and the GMT+2 wall-clock helper are side effects with nothing to state. The bell is the `RingBell` action.
- Network and time API: `sync_time`'s HTTP request, time-zone parsing and `datetime.now()` are left out. The time it would report is a parameter.
- Schedule acquisition: `_extract_hour_ranges` (HTML parsing), the request loop of `_get_valid_branches`, `sync_schedule` and the schedule file I/O are left out. The keeper a sync would produce is a parameter. The selection fold at lines 91-93 is modelled over the good branches in visiting order.
- Event loop: `asyncio.sleep`, `create_task` and the measured sleep drift are left out. A tick is one atomic step, and a created task is an event in its log. The source gives callbacks no mutual exclusion, and the model adds none.
- Logging: `log_status_table`'s table, `log_table`, `tabulate`, the `print` of the drift and the logger set-up are left out. Only the Break/Work label is modelled.
- Config file: `load_config`, `save_config`, the singleton `__new__` and `get_config` are file I/O or object identity. The configuration is a value, and the values `main` reads from it (`sync_timestamps`, `clock_sync_after_callbacks_enabled`) are parameters.
- `build_branch_url` only formats a URL.
- Request loop of `_get_valid_branches`, a likely defect that is not modelled: a branch page that answers 200 without a schedule table makes `_extract_hour_ranges` return `None` (src/classes/schedule_keeper.py:27-30). The `continue` at line 87 then skips both `_branch_index += 1` and the bad-branch count. The same branch is requested again without end, so `sync_schedule` never returns. The loop is network I/O and is not part of this model, so this is recorded here rather than under Findings.
- JSON floats and dictionary key order are not represented.
- Calendar dates and microseconds are dropped. The clock keeps absolute seconds, and the time of day is seconds modulo 86400.
- Timestamps.ToTimestamp: `strptime`'s `\d` also accepts non-ASCII Unicode digits. The model accepts only ASCII digits.
- Bells.Validate: entries that are not strings (where `strptime` raises `TypeError`) are not representable, since the configuration entries are strings.
- Timestamps.ToString: the two fallback `except` branches of `to_string` cannot be reached for a valid time, so the function is total.
- ScheduleKeeper.GetTimestamps: a schedule with exactly one boundary string, which fails to parse, sorts without error in Python (`sorted([None])`). The model reports it as the same failure as any other unparseable schedule.
- VirtualClock.StartT: this function gives only the clock state `start_t` leaves before its loop. The initial `log_status_table` call (src/classes/virtual_clock.py:89) runs before the `while` at line 94. On an empty boundary list it raises `IndexError`, so `start_t` ends before its first pass, with `is_started` already set. That exception is stated separately by StartTRaises and StartTChecked. In the source, the loop pass that StartTReady's `LoopStep` conclusion describes is reached only when StartTRaises does not hold. The rest of the table `log_status_table` prints is left out.
- VirtualClock.FireCrashes: handlers are identifiers that are assumed not to raise. `neutral_callback()` (src/classes/virtual_clock.py:114-115) is called synchronously inside the tick with no `try` around it. If it raised, `start_t` would end with `is_started` still set, like the empty-slot `TypeError`. The model does not represent that exception, so FireCrashes and FireBoundariesCrash do not cover it. The break and work coroutines are unaffected, since `create_task` keeps their failures inside the task. `main` sets no neutral callback (src/main.py:87).
- VirtualClock.Tick: the periodic `log_status_table` call (every `CLOCK_RUNNING_ANNOUNCE_INTERVAL` passes, or every pass in debug mode) has the same empty-list `IndexError`. The model leaves it out.
- Bells.Startup: `main` creates the clock task before it registers the sync checkpoints. The task's first pass runs only after `main` awaits it, so the model registers first and then starts. It uses the corrected registration, see Findings.

## Findings

| source | as written | input that shows it | evidently intended | confidence | as-written member | corrected member |
|---|---|---|---|---|---|---|
| src/utils.py:93-98 | `is_valid_timestamp` catches `ValueError`, but `to_timestamp` already turns every parse failure into `None`, so the flag is always true. The validation loop in src/main.py:99-107 therefore keeps a malformed sync entry as `None`. `to_string(None)` at src/main.py:109 then raises `TypeError` and ends `main` before any checkpoint is registered. | `sync_timestamps = ["07:00:00", "bad", "07:30:00"]` | A malformed entry is reported invalid, logged and skipped by the loop's `continue`; the well-formed entries are registered. | high; not executed | Timestamps.IsValidTimestamp, Bells.RegisterSyncCheckpointsAsWritten, Bells.MalformedSyncEntryCrashesStartup | Timestamps.IsValidTimestampIntended, Bells.RegisterSyncCheckpoints, Bells.MalformedSyncEntrySkipped |
