# SchedulerBot calendar core in Dafny

This project models the core of SchedulerBot, a Discord bot that keeps one
calendar per guild and fires timers around its events. The model covers:

- **The calendar document** (`calendar.dfy`, with the pure specifications in
  `events.dfy` and `permissions.dfy`). Its events are kept sorted by start.
  New and updated events are spliced in before the first event that starts
  no earlier. A finished repeating event advances by a day, a week or a
  calendar month. A timezone change shifts every event, unless that would
  move the earliest event into the past. Each permission node denies roles
  and users.
- **The job map** (`job_map.dfy`). This is a `Map` from the hex string of an
  event ID to a timer handle.
- **The event scheduler** (`event_scheduler.dfy`). It keeps two job maps:
  notify timers at event start and finalize timers at event end. A timer is
  installed only for instants less than two hours ahead. The finalize
  callback takes the guild lock, reloads the calendar, deletes or advances
  the event, and reschedules it.
- **The flag parser** (`flag_parser.dfy`). It splits command tokens into a
  body and `--key value…` groups.
- **The period helper** (`period.dfy`). It splits milliseconds into days,
  hours, minutes and seconds.

Every file of the original works by mutating state, and so does the model:

- `Calendar`, `JobMap`, `EventScheduler`, `GuildLock` and `Period` are
  classes whose methods update their fields.
- The loops of the original are `while` loops here: the insertion scan,
  the timezone shift, the permission check, the reconciliation pass and the
  flag scans. The period constructor has no loop; its consecutive field
  reassignments stay consecutive assignments.
- Each method is proved against a specification function (`InsertSorted`,
  `FinalizeEvents`, `Deny`, `Allow`, `Permitted`, `Schedule`, `ScheduleAll`,
  `ParseSpec`, `Split`, …). The lemmas then prove what the original
  promises about those functions.

Shared definitions:

- `common.dfy` holds the instants (integer milliseconds), the time-unit
  constants and the error values.
- `object_ids.dfy` renders a 12-byte ObjectId as lower-case hex and proves
  the rendering injective. This is why keying maps by the hex string is
  sound.
- `civil_time.dfy` does proleptic-Gregorian date arithmetic in UTC. It is
  used for moment's `add(1, "M")`, which clamps the day to the end of the
  shorter month.

Where the source and the behaviour described for it disagree, the model
follows the code:

- The finalize callback releases the guild lock only on its success path.
- It reschedules with the event it captured, not with the advanced one.
- Lock acquisition retries without limit (`retries: -1`). The 5 s
  `timeout` is the lease's lifetime, not a deadline for acquiring, so
  acquisition never fails with a timeout.
- The timezone check rejects only a shifted start strictly before now
  (`now.diff(start) > 0`).
- A monthly repeat adds a month to the start and to the end separately, so
  the month-end clamp can put the end before the start. The calendar's
  methods keep this behaviour; `AdvanceKeepingLength` is the corrected
  step.

## Model

| member | source | states |
|---|---|---|
| ObjectIds.HexOfBytesInjective | src/classes/job-map.class.ts:11-22 | two byte strings with the same hex rendering are equal |
| ObjectIds.ToHexStringInjective | src/classes/job-map.class.ts:11-22 | two ObjectIds render to the same hex key exactly when they are the same ID, so hex keying neither merges nor splits events |
| CivilTime.DateOf | src/models/calendar.model.ts:143-144 | every day number names a valid civil date whose day number is that number |
| CivilTime.DateOfDayNumber | src/models/calendar.model.ts:143-144 | converting a valid date to its day number and back gives the date (round trip) |
| CivilTime.DayNumberInjective | src/models/calendar.model.ts:143-144 | two valid dates with the same day number are the same date |
| CivilTime.NextMonth | src/models/calendar.model.ts:143-144 | one calendar month later is a valid date in the next month (December rolls the year); the day is kept or, when the month is shorter, clamped to its last day |
| CivilTime.NextMonthDistance | src/models/calendar.model.ts:143-144 | one calendar month is 28 to 31 days |
| CivilTime.AddOneMonth | src/models/calendar.model.ts:143-144 | adding a month moves an instant on by 28 to 31 whole days and keeps its time of day |
| CivilTime.AddOneMonthSpec | src/models/calendar.model.ts:143-144 | `add(1, "M")` on an instant lands 28 to 31 days later, at the same time of day, on the date NextMonth gives |
| CivilTime.EndOfJanuary | src/models/calendar.model.ts:143-144 | January 30 and 31 of 2021 both move to February 28; January 31 moves to February 29 in a leap year; December 31 moves to January 31 of the next year |
| CivilTime.AddOneMonthFrom | src/models/calendar.model.ts:143-144 | an instant on a given day moves to the day NextMonth gives, at the same time of day |
| CivilTime.SameNextMonth | src/models/calendar.model.ts:143-144 | two days that clamp to the same date of the next month land on that one day, so afterwards only their times of day differ |
| CivilTime.LateJanuaryThirtieth | src/models/calendar.model.ts:143-144 | in a common year, January 30 23:00 plus a month lands 22 hours after (January 30 23:00 + 2 h) plus a month: the later instant ends up earlier |
| Events.ApplyDraft | src/models/calendar.model.ts:104-113 | the ID is kept; name and description are replaced only by a non-empty value; start and end only by a present value; repeat "off" clears the repeat; a missing repeat keeps it; a mode replaces it |
| Events.ApplyDraftLaws | src/models/calendar.model.ts:104-113 | an empty draft changes nothing, and applying the same draft twice equals applying it once |
| Events.InsertionPoint | src/models/calendar.model.ts:56-67 | the scan stops at the first event whose start is the same or later than the new start, or at the end |
| Events.InsertAt | src/models/calendar.model.ts:59 | `splice(k, 0, e)`: e is at k, the events before k are unchanged, the ones after move up by one, and the multiset gains exactly e |
| Events.InsertSortedSpec | src/models/calendar.model.ts:49-69 | on a sorted list the insertion keeps it sorted and grows it by one. The new event follows every earlier-starting event and precedes the rest, so it goes ahead of equal starts. Removing it gives back the old list in order, and the multiset gains exactly it |
| Events.InsertAtSorted | src/models/calendar.model.ts:56-67 | splicing an event in after the earlier starts and before a start no earlier keeps a sorted list sorted |
| Events.RemoveAt | src/models/calendar.model.ts:77 | `splice(i, 1)`: one element shorter, the elements before i unchanged, the ones after move down by one, and the multiset loses exactly the removed event |
| Events.RemoveAtSorted | src/models/calendar.model.ts:75-82 | removing an event from a sorted list leaves it sorted |
| Events.ReplaceSortedSpec | src/models/calendar.model.ts:99-135 | taking an event out and inserting a changed one keeps a sorted list sorted and of the same length, and exchanges exactly that one event |
| Events.StepIsLater | src/models/calendar.model.ts:142-149 | "d" adds exactly a day, "w" exactly a week, "m" 28 to 31 days |
| Events.Step | src/models/calendar.model.ts:142-149 | `add(1, unit)` for the repeat value moves strictly later, and for a d/w/m repeat by one day to 31 days |
| Events.AdvanceSpec | src/models/calendar.model.ts:137-149 | the next occurrence starts and ends strictly later and keeps the ID, name, description and repeat mode |
| Events.IndexOfHex | src/models/calendar.model.ts:86-88 | `findIndex` by hex ID: the first event whose ID renders as the string, or -1 when none does |
| Events.IndexOfHexFindsId | src/models/calendar.model.ts:86-88 | looking up an ID's hex finds an event with exactly that ID, and fails exactly when no event has it |
| Events.FinalizeEventsSorted | src/models/calendar.model.ts:84-97 | the finalize step keeps a sorted list sorted |
| Events.FinalizeEventsSpec | src/models/calendar.model.ts:84-97 | the finalize step fails exactly when the ID is absent, and otherwise reports an advanced event exactly when the event found repeats. A non-repeating event is removed and the list shrinks by one. A repeating one comes back with a strictly later start and end and every other field kept; it takes the old event's place in the multiset, so all other events stay and the length is kept |
| Events.InsertAtUnique | src/models/calendar.model.ts:56-67 | splicing in an event whose ID the list does not hold keeps the IDs unique |
| Events.RemoveAtUnique | src/models/calendar.model.ts:75-82 | removing an event keeps the IDs unique and leaves no event with its ID |
| Events.InsertSortedUnique | src/models/calendar.model.ts:40-73 | inserting an event with a new ID keeps the IDs unique |
| Events.ReplaceSortedUnique | src/models/calendar.model.ts:99-171 | taking an event out and putting back one with the same ID keeps the IDs unique |
| Events.FinalizeEventsUnique | src/models/calendar.model.ts:84-97 | the finalize step keeps the IDs unique |
| Events.AdvanceKeepingLengthSpec | src/models/calendar.model.ts:137-149 | the corrected advance moves the event strictly later, keeps its length and so start ≤ end, keeps every other field, and equals the source's advance for every repeat mode except "m" |
| Events.MonthlyAdvanceReversesWitness | src/models/calendar.model.ts:142-145 | as written, a monthly event from 2021-01-30 23:00 to 01:00 the next day advances to an end before its start |
| Events.ShiftAllSpec | src/models/calendar.model.ts:188-202 | a uniform (fixed-offset) shift keeps the list sorted, and if the shifted first event is not in the past, none is |
| Events.ShiftAllInverse | src/models/calendar.model.ts:183-209 | shifting every event by an amount and then by its negation restores the list, so switching the timezone back undoes a switch |
| Events.ShiftAllUnique | src/models/calendar.model.ts:188-202 | shifting every event keeps the IDs unique |
| Permissions.WithDenied | src/models/calendar.model.ts:224-225 | replacing one denied list leaves the node and the other list as they were |
| Permissions.FindNode | src/models/calendar.model.ts:212-214 | `findIndex` by node: the first entry for the node, or -1 exactly when there is none |
| Permissions.IndexOf | src/models/calendar.model.ts:257 | `findIndex` by ID: the first occurrence, or -1 exactly when the ID is absent |
| Permissions.Finds | src/models/calendar.model.ts:224 | `find` is truthy exactly when `findIndex` finds the ID and the ID is not the empty string |
| Permissions.DenySpec | src/models/calendar.model.ts:211-249 | denying a non-empty ID leaves the node with an entry listing it. An entry is created only when there was none; other entries and the other list are unchanged; a list without duplicates stays so; denying again changes nothing |
| Permissions.DenyAt | src/models/calendar.model.ts:211-249 | deny touches only the node's entry (the existing one, or a new one appended) and appends the ID to its list unless it is already found there |
| Permissions.DenyEmptyIdRepeats | src/models/calendar.model.ts:224 | an empty ID is never "found", so denying it twice lists it twice |
| Permissions.AllowFrame | src/models/calendar.model.ts:251-279 | allowing never creates or reorders entries and changes only the node's list of the given kind |
| Permissions.RemoveOccurrence | src/models/calendar.model.ts:258-259 | splicing one occurrence out of a list without duplicates removes the ID completely |
| Permissions.AllowRemoves | src/models/calendar.model.ts:251-279 | on a list without duplicates, allowing removes the ID, keeps the list free of duplicates, and allowing again changes nothing |
| Permissions.AllowUndoesDeny | src/models/calendar.model.ts:211-279 | allowing an ID undoes denying it on a node that already had an entry without it |
| Permissions.DenyRevokes | src/models/calendar.model.ts:211-300 | after denying a member's user ID or one of their roles on a node, checkPerm refuses them that node unless they own the guild |
| Permissions.AllowUserRestores | src/models/calendar.model.ts:266-300 | allowing a user back restores the node when none of their roles is denied |
| Permissions.Permitted | src/models/calendar.model.ts:281-300 | a member is refused exactly when they are not the owner, the node has an entry, and their non-empty user ID or one of their non-empty role IDs is listed there |
| CalendarModel.OffsetMomentIsShift | src/models/calendar.model.ts:192-201 | with fixed zone offsets the timezone adjustment is the same shift for every instant |
| CalendarModel.OffsetMoment | src/classes/event-parser.class.ts:42-50 | the result read in the new zone shows the wall-clock time the input showed in the old zone |
| CalendarModel.InsertionPointUnique | src/models/calendar.model.ts:56-67 | the index where the scan breaks is exactly InsertionPoint |
| CalendarModel.Calendar.constructor | src/models/calendar.model.ts:29-38 | a new calendar has its guild ID, no events and no permission entries |
| CalendarModel.Calendar.InsertByStart | src/models/calendar.model.ts:49-69 | the for/break scan (push when empty, splice at the first later-or-equal start, push after the last) yields InsertSorted |
| CalendarModel.Calendar.AddEvent | src/models/calendar.model.ts:40-73 | the new event with the generated ID is inserted in start order and returned; a sorted list stays sorted and grows by one; unique IDs stay unique when the generated ID is new |
| CalendarModel.Calendar.DeleteEvent | src/models/calendar.model.ts:75-82 | in range: returns element i and removes exactly it; out of range: "Event not found" with the list unchanged; sortedness and unique IDs are kept |
| CalendarModel.Calendar.ScheduledDeleteEvent | src/models/calendar.model.ts:84-97 | the list becomes FinalizeEvents of the old one. The result is the advanced event, or null for a deleted one. A missing ID fails with the list unchanged, and sortedness and unique IDs are kept |
| CalendarModel.Calendar.UpdateEvent | src/models/calendar.model.ts:99-135 | in range: the merged event goes back in start order, is returned, and the sorted list keeps its length; out of range: rejects with the list unchanged; unique IDs stay unique |
| CalendarModel.Calendar.RepeatUpdateEvent | src/models/calendar.model.ts:137-171 | in range: the advanced event goes back in start order, is returned, and the sorted list keeps its length; out of range: rejects with the list unchanged; unique IDs stay unique |
| CalendarModel.Calendar.UpdatePrefix | src/models/calendar.model.ts:173-176 | sets the prefix and nothing else |
| CalendarModel.Calendar.UpdateDefaultChannel | src/models/calendar.model.ts:178-181 | sets the default channel and nothing else |
| CalendarModel.Calendar.UpdateTimezone | src/models/calendar.model.ts:183-209 | an unknown zone rejects with nothing changed. If the earliest shifted start is before now: false, nothing changed. Otherwise every event is shifted by the offset difference and the zone is set; with the fixed zone offsets of this model, the list stays sorted and no event starts in the past; unique IDs stay unique |
| CalendarModel.Calendar.DenyIn | src/models/calendar.model.ts:211-249 | the shared body of the two deny methods equals Deny |
| CalendarModel.Calendar.AllowIn | src/models/calendar.model.ts:251-279 | the shared body of the two allow methods equals Allow |
| CalendarModel.Calendar.DenyRolePerm | src/models/calendar.model.ts:211-229 | the permission table becomes Deny on the role list |
| CalendarModel.Calendar.DenyUserPerm | src/models/calendar.model.ts:231-249 | the permission table becomes Deny on the user list |
| CalendarModel.Calendar.AllowRolePerm | src/models/calendar.model.ts:251-264 | the permission table becomes Allow on the role list |
| CalendarModel.Calendar.AllowUserPerm | src/models/calendar.model.ts:266-279 | the permission table becomes Allow on the user list |
| CalendarModel.Calendar.CheckPerm | src/models/calendar.model.ts:281-300 | the loop's answer is Permitted: the owner always passes, a node without an entry passes, and a denied user ID or any denied role fails |
| JobMaps.JobMap.constructor | src/classes/job-map.class.ts:7-9 | a new map is empty |
| JobMaps.JobMap.Get | src/classes/job-map.class.ts:11-13 | returns the handle stored under the ID's hex string, or nothing |
| JobMaps.JobMap.Set | src/classes/job-map.class.ts:15-18 | always returns true, and stores the handle under the hex key, replacing only that key |
| JobMaps.JobMap.Delete | src/classes/job-map.class.ts:20-22 | returns whether the hex key was present and removes only that key |
| JobMaps.OtherKeysUntouched | src/classes/job-map.class.ts:11-22 | set and delete on one ID leave every other ID's entry as it was |
| Scheduler.InWindowExact | src/classes/event-scheduler.class.ts:35-39 | with hours truncated toward zero, "diff < 2" admits exactly the instants less than two hours ahead, past ones included |
| Scheduler.DiffHours | src/classes/event-scheduler.class.ts:35-39 | moment's `diff(…, "hours")`: the whole hours between the instants, truncated toward zero on both sides of now |
| Scheduler.Schedule | src/classes/event-scheduler.class.ts:33-42 | scheduling keeps every handle already held and leaves the event with a timer for each of its instants inside the window |
| Scheduler.Unschedule | src/classes/event-scheduler.class.ts:44-47 | unscheduling only drops entries, and only the event's own |
| Scheduler.Reschedule | src/classes/event-scheduler.class.ts:49-52 | rescheduling leaves the event covered for its window and leaves the set of other keys in both maps as it was |
| Scheduler.ScheduleAll | src/classes/event-scheduler.class.ts:26-31 | a pass keeps every handle already held |
| Scheduler.FireAsWritten | src/classes/event-scheduler.class.ts:76-88 | as written, the lock stays held exactly when the calendar is missing or the event is gone, and then neither the calendar nor the maps change |
| Scheduler.FireCorrected | src/classes/event-scheduler.class.ts:76-88 | corrected, the lock is released on every path, and a calendar result exists exactly when the calendar was loaded |
| Scheduler.ScheduleSpec | src/classes/event-scheduler.class.ts:33-42 | a notify timer is present exactly when one was or the start is in the window, and likewise a finalize timer for the end. An existing handle is never replaced. Other events' entries are unchanged, and scheduling again changes nothing |
| Scheduler.UnscheduleSpec | src/classes/event-scheduler.class.ts:44-47 | afterwards neither map holds the ID; other IDs keep their handles; an absent ID is a no-op |
| Scheduler.RescheduleSpec | src/classes/event-scheduler.class.ts:49-52 | afterwards each timer is present exactly when the current start or end is in the window, built from the event given; other entries are unchanged |
| Scheduler.ScheduleAllCovers | src/classes/event-scheduler.class.ts:26-31 | a reconciliation pass keeps every installed handle and leaves each in-window event with its timers |
| Scheduler.ScheduleAllCovered | src/classes/event-scheduler.class.ts:26-31 | a pass over maps that already cover every event changes nothing |
| Scheduler.ScheduleAllIdempotent | src/classes/event-scheduler.class.ts:26-31 | two passes with the same "now" over an unchanged calendar equal one |
| Scheduler.FireAsWrittenSpec | src/classes/event-scheduler.class.ts:76-88 | a failed finalize leaves the calendar and maps unchanged with the lock held; otherwise the calendar becomes the finalize result and the lock is released; the maps are untouched for a deleted event and, for a repeating one, rescheduled from the event captured at install time |
| Scheduler.FireCorrectedSpec | src/classes/event-scheduler.class.ts:76-88 | the corrected callback never leaves the lock held, and the advanced event's timers match the window of its next occurrence |
| Scheduler.StaleRescheduleWitness | src/classes/event-scheduler.class.ts:82 | as written, a daily event's notify entry after firing is a timer for the old, past start, and the next pass does not replace it |
| Scheduler.CorrectedRescheduleWitness | src/classes/event-scheduler.class.ts:82 | corrected, the same firing leaves both maps empty, and the next pass arms a timer for the next start |
| Scheduler.LockLeftHeldWitness | src/classes/event-scheduler.class.ts:78-87 | as written, a firing whose calendar is missing leaves the lock held; corrected, it is released |
| Scheduler.GuildLock.constructor | src/classes/calendar-lock.class.ts:11-19 | a new lock is free |
| Scheduler.GuildLock.Acquire | src/classes/calendar-lock.class.ts:11-19 | acquisition ends with the lease held |
| Scheduler.GuildLock.Release | src/classes/event-scheduler.class.ts:84 | release ends with the lease free |
| Scheduler.EventScheduler.constructor | src/classes/event-scheduler.class.ts:19-24 | two distinct, empty job maps |
| Scheduler.EventScheduler.ScheduleUpcomingEvents | src/classes/event-scheduler.class.ts:26-31 | the loop leaves the maps at ScheduleAll over the calendar's events with one shared "now" |
| Scheduler.EventScheduler.ScheduleEvent | src/classes/event-scheduler.class.ts:33-42 | the maps become Schedule of the old maps |
| Scheduler.EventScheduler.UnscheduleEvent | src/classes/event-scheduler.class.ts:44-47 | the maps become Unschedule of the old maps |
| Scheduler.EventScheduler.RescheduleEvent | src/classes/event-scheduler.class.ts:49-52 | the maps become Reschedule of the old maps |
| Scheduler.EventScheduler.ScheduleNotifierJob | src/classes/event-scheduler.class.ts:54-71 | installs a start timer only when the ID has none; the finalize map is untouched |
| Scheduler.EventScheduler.ScheduleDeleteJob | src/classes/event-scheduler.class.ts:73-92 | installs an end timer only when the ID has none; the notify map is untouched |
| Scheduler.EventScheduler.UnscheduleNotifierJob | src/classes/event-scheduler.class.ts:94-101 | removes the ID from the notify map only |
| Scheduler.EventScheduler.UnscheduleDeleteJob | src/classes/event-scheduler.class.ts:103-110 | removes the ID from the finalize map only |
| Scheduler.EventScheduler.RunDeleteJob | src/classes/event-scheduler.class.ts:76-88 | the callback as written: lock, calendar and maps end as FireAsWritten says |
| Scheduler.EventScheduler.RunDeleteJobCorrected | src/classes/event-scheduler.class.ts:76-88 | the corrected callback: lock, calendar and maps end as FireCorrected says |
| FlagParsing.NextFlag | src/classes/flag-parser.class.ts:8-11 | the first flag index at or after i, or the end; no flag before it |
| FlagParsing.NextFlagAt | src/classes/flag-parser.class.ts:8-11 | any index with no flag before it and a flag or the end at it is NextFlag |
| FlagParsing.ParseFlags | src/classes/flag-parser.class.ts:15-28 | the flag loop never removes a key already written |
| FlagParsing.ParseSpec | src/classes/flag-parser.class.ts:2-31 | the parsed object always holds `_body` |
| FlagParsing.TakeValues | src/classes/flag-parser.class.ts:20-23 | the scan loop stops at NextFlag and has collected exactly the tokens in between |
| FlagParsing.Parse | src/classes/flag-parser.class.ts:2-31 | the nested loops, with the `i--`/`i++` step, produce ParseSpec |
| FlagParsing.ParseFlagsGroups | src/classes/flag-parser.class.ts:15-28 | the flag loop equals writing the flag groups into the object in order |
| FlagParsing.LastIndex | src/classes/flag-parser.class.ts:24 | the last group with the key, or -1 when there is none |
| FlagParsing.ApplyAt | src/classes/flag-parser.class.ts:24 | a key is in the result exactly when it was before or a group has it; the last such group's joined values win |
| FlagParsing.BodySpec | src/classes/flag-parser.class.ts:7-12 | `_body` is always present; it is the tokens before the first flag joined by spaces unless `--_body` overrides it; with no flags the result is the body of all tokens |
| FlagParsing.KeySpec | src/classes/flag-parser.class.ts:15-26 | each other key is present exactly when some flag names it, with the space-joined values of its last occurrence |
| FlagParsing.GroupsCover | src/classes/flag-parser.class.ts:15-28 | reading the groups back (`--key` then its values) reproduces the tokens from the first flag on |
| FlagParsing.GroupValuesAreNotFlags | src/classes/flag-parser.class.ts:20-23 | no value token starts with `--` |
| FlagParsing.Partition | src/classes/flag-parser.class.ts:8-29 | the argument list is exactly the body followed by the flag groups, so every token lands in one place |
| FlagParsing.ExampleCommandLine | src/classes/flag-parser.class.ts:8-29 | the words before the first flag become `_body`, and a flag without values maps to "" |
| FlagParsing.ExampleEdgeCases | src/classes/flag-parser.class.ts:15-28 | a bare `--` yields key "", and a repeated key keeps the values of its last occurrence |
| Periods.JsRem | src/classes/period.class.ts:10-14 | JavaScript `%`: the dividend minus the quotient truncated toward zero times the divisor, so in [0, b) for a non-negative dividend and in (-b, 0] for a negative one |
| Periods.Split | src/classes/period.class.ts:8-14 | every field takes the sign of `ms`: all non-negative for `ms ≥ 0`, all non-positive (days negative) below zero |
| Periods.SplitSpec | src/classes/period.class.ts:8-14 | for ms ≥ 0: seconds and minutes in [0, 60), hours in [0, 24); the fields add back up to floor(ms/1000) seconds; days = floor(ms/86400000) |
| Periods.SplitUnique | src/classes/period.class.ts:8-14 | for ms ≥ 0 the split is the only in-range one that adds up to the whole seconds |
| Periods.SplitNegative | src/classes/period.class.ts:8-14 | -1 ms splits into -1 of every unit, which does not add back up |
| Periods.Period.constructor | src/classes/period.class.ts:7-15 | the stepwise reassignments leave the fields at Split(ms) |
| Periods.Period.SetDays | src/classes/period.class.ts:21-23 | sets days only |
| Periods.Period.SetHours | src/classes/period.class.ts:29-31 | sets hours only |
| Periods.Period.SetMinutes | src/classes/period.class.ts:37-39 | sets minutes only |
| Periods.Period.SetSeconds | src/classes/period.class.ts:45-47 | sets seconds only |

## Left out

- Persistence, and any failure of it: `this.save()`, `findById` and the Mongo documents. A calendar is an object in memory, and a missing calendar is `null`.
- Chat I/O. The notify callback sends two messages to the default channel; the model leaves them out, and a notify handle records only its target time, guild and event.
- `node-schedule`. Timers are opaque handles that never fire on their own, and cancelling one only drops it from its map. The library returns `null` for a time already past, and the map then holds a falsy entry that later lookups treat as absent; the model leaves this out. In the running bot it hides most of the effect of the stale-reschedule finding.
- Handles are never removed after a timer fires, in the model as in the code. A repeating event's next occurrence therefore depends on its timers being unscheduled by the callback.
- Time: "now" is a parameter in every scheduler method and in `UpdateTimezone`, not a clock read.
- The timezone database is a map from zone name to a fixed UTC offset in minutes, so daylight-saving changes are not modelled. An unset or unknown previous zone reads as UTC, the server's zone.
- CalendarModel.Calendar.UpdateTimezone: "the list stays sorted and no event starts in the past" holds only under fixed offsets. The source adjusts each event by the offsets at that event's own instant (`src/classes/event-parser.class.ts:42-50`), checks only the first event and never re-sorts. Across a daylight-saving change two events can swap order, and one after the first can land in the past. Example: switching from America/New_York to UTC around 2023-11-05 06:00Z.
- Events.ShiftAllSpec: proves sortedness and the past check for one uniform shift. This is the fixed-offset case only; with per-instant offsets the source gives neither guarantee (see the line above).
- Month addition is civil-date arithmetic in UTC. moment adds months in the server's local time; the server is assumed to run in UTC.
- Events.Step: the repeat field holds only "d", "w" or "m", the values the command layer admits. A missing repeat adds 1 ms, which is what `moment.add(1, undefined)` does.
- GuildLock: an abstract held flag. Acquisition always succeeds, because redislock retries without limit. Lease expiry, blocking and mutual exclusion between processes are left out.
- Concurrency: callbacks and commands racing on one guild are not modelled. Each operation runs to completion.
- Periods.Period: the getters are plain reads of the public fields. `ms` is an integer; JavaScript numbers may be fractional.
- FlagParsing.Parse: the result is a map. Assigning a string to the `__proto__` key of a JavaScript object is silently ignored, and that quirk is not modelled.
- FlagParsing.Parse: the body loop and the value loop run the same scan, `TakeValues`, so the inner loop is a method call rather than inline.
- CalendarModel.Calendar.AddEvent: unique IDs are kept only when the generated ID is new. Mongo's ObjectId generation is not modelled, so the new ID is a parameter and its freshness a hypothesis of that clause.
- Start ≤ end is not an invariant of the model. The calendar methods never check it: `addEvent` and `updateEvent` store the instants they are given. The source's monthly advance can also break it (see "## Findings"). `Events.AdvanceKeepingLengthSpec` proves that the corrected advance keeps it.
- CalendarModel.Calendar.AddEvent: on an empty list the source pushes the raw input, not the new document. Mongoose casts both the same way, so the model makes no distinction. The generated ID is a parameter.
- Permissions.DenySpec: idempotence is stated only for non-empty IDs, because `find` never reports an empty ID as found (see `Permissions.DenyEmptyIdRepeats`).
- Permissions.AllowRemoves: complete removal is stated only for lists without duplicates, because `allow` splices out only the first occurrence.

## Findings

| source | as written | input that shows it | evidently intended | confidence | as-written member | corrected member |
|---|---|---|---|---|---|---|
| src/classes/event-scheduler.class.ts:82 | after `scheduledDeleteEvent` advances a repeating event, the callback reschedules `event`, the copy captured when the timer was installed | a daily event with start 0 and end 1 h whose finalize timer fires at 1 h: the notify map is left with a timer for start 0, and the pass 30 min before the next start (24 h) keeps it instead of arming one | reschedule the advanced event that `scheduledDeleteEvent` returned | low, not executed (node-schedule's `null` for past times hides it in the running bot) | Scheduler.StaleRescheduleWitness | Scheduler.FireCorrectedSpec |
| src/classes/event-scheduler.class.ts:84 | `lock.release()` runs only on the success path; when `findById` yields no calendar or the event ID is gone, the thrown error skips it | a finalize timer firing for a guild whose calendar was deleted | release the guild lock on every exit path, including errors | medium, not executed | Scheduler.LockLeftHeldWitness | Scheduler.FireCorrectedSpec |
| src/models/calendar.model.ts:143-144 | a monthly event's start and end each get `add(1, "M")`, and the month-end clamp can move them by different numbers of days | a monthly event from 2021-01-30 23:00 to 2021-01-31 01:00 UTC: both ends clamp to February 28, giving 23:00 to 01:00, an end before the start | move the start by a month and keep the event's length | medium, not executed | Events.MonthlyAdvanceReversesWitness | Events.AdvanceKeepingLengthSpec |
