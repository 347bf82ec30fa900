# daily-memory, the list and calendar core, in Dafny

daily-memory is a browser app that keeps three kinds of record:
- a to-do list per day;
- a free-text memo list;
- a weekly timetable of 6 periods by 7 weekdays.

All three live in `localStorage`. This project models the part of the app that decides what those records become:
- the two copies of the calendar arithmetic:
  - `src/lib/date.ts`, where months count from 1;
  - `src/lib/datetime.ts`, where months count from 0 by its own comment, plus the `HH:MM` time format;
- the integer index that a day's tasks are stored under;
- the task store, the timetable store and the memo store, including their flush to and load from storage;
- the task-record migration chain;
- the list logic inside the three table components:
  - the task table: unfinished tasks first; the edit, tick and delete transforms; which task is being edited;
  - the memo list: delete on empty text, replace otherwise; newest first; the first memory of each date;
  - the timetable: the grid, where the later entry wins; a cell's save or remove; the suggestion lists.

Modules follow the source files:
- `Date` (`date.ts`) and `DateTime` (`datetime.ts`);
- `Tasks` (`task.ts`), `Migration` (`migration.ts`), `Schedules` (`schedule.ts`) and `Memories` (`memory.ts`);
- `TaskTable`, `MemoList` and `ScheduleTable` (the three components).

The JavaScript built-ins they rely on are separate modules:
- `Arrays`: `filter`, `map`, `find`, `new Set`, and an out-of-range index giving `undefined`;
- `ArraySort`: `sort`, which is stable and in place, with or without a comparator;
- `Decimal`: `toString` and `padStart` on integers;
- `Storage`: `localStorage`;
- `Wrappers`: `undefined`, `??` and truthiness.

Code that changes state step by step is imperative here:
- `saveTasks`'s `for … in` loop;
- the in-place `sort`;
- the task table's modifier loops over a cloned array;
- the `editing` searches;
- the memo list's `dateMemories` loop;
- the timetable's grid construction over a 6×7 `array2`;
- the components' editing state, as classes (`TaskEditor`, `MemoEditor`, `CellEditor`).

The rest are functions, with lemmas about them.

`isLeapYear`, `getDays`, `previousDay` and `dayToIndex` have the same text in `date.ts` and `datetime.ts`. They are defined once, in `Date`, and `DateTime` reuses them. Only `nextDay` differs, and `DateTime.NextDay0` models the 0-based one.

## Model

| member | source | states |
|---|---|---|
| Date.IsLeapYear | src/lib/date.ts:7-9 | every leap year is a multiple of 4; a multiple of 400 is one; another century year is not (see Date.GetDays, Date.YearLength, Date.LeapCycle) |
| Date.GetDays | src/lib/date.ts:7-13 | twelve month lengths, each 28..31; February has 29 days exactly in a Gregorian leap year, else 28 |
| Date.YearLength | src/lib/date.ts:7-13 | the month lengths add up to 366 in a leap year and 365 otherwise |
| Date.LeapCycle | src/lib/date.ts:7-13 | leap years and the month table repeat every 400 years |
| Date.NextDay | src/lib/date.ts:15-26 | the result is the first of a month or the same month's next day; on a valid date the year advances exactly from December 31 (see Date.NextDayValid, Date.NextDayIsSuccessor, Date.PreviousOfNext) |
| Date.PreviousDay | src/lib/date.ts:28-38 | the day is `undefined` (`None`) exactly on day 1 of a month outside 1..13; the year changes only from January 1 (see Date.PreviousDayValid, Date.NextOfPrevious) |
| Date.DayToIndex | src/lib/date.ts:40-42 | a valid date's index lies in a 372-wide band starting at its year's multiple of 366, so neighbouring years' bands overlap (see Date.DayToIndexOrdersYear, Date.DayToIndexCollides, Date.DayToIndexFallsAtYearEnd) |
| Date.NextDayValid | src/lib/date.ts:15-26 | the day after a valid date is valid and later in calendar order |
| Date.NextDayIsSuccessor | src/lib/date.ts:15-26 | no valid date lies strictly between a date and its next day |
| Date.PreviousDayValid | src/lib/date.ts:28-38 | the day before a valid date is defined, valid and earlier |
| Date.PreviousOfNext | src/lib/date.ts:15-38 | `previousDay(nextDay(d)) == d` on every valid date |
| Date.NextOfPrevious | src/lib/date.ts:15-38 | `nextDay(previousDay(d)) == d` on every valid date |
| Date.DayToIndexOrdersYear | src/lib/date.ts:40-42 | within one year the index is strictly increasing in calendar order (both directions) and injective |
| Date.DayToIndexNextWithinYear | src/lib/date.ts:15-42 | the index grows from each valid day to the next, except from December 31 |
| Date.DayToIndexCollides | src/lib/date.ts:40-42 | 2024-12-31 and 2025-01-06 are valid and share index 403 |
| Date.DayToIndexFallsAtYearEnd | src/lib/date.ts:15-42 | from 2024-12-31 to the next day the index drops from 403 to 398 |
| Date.DaySerialOrders | src/lib/date.ts:40-42 | with a year stride of 372 the index follows calendar order across all years and is injective on valid dates |
| DateTime.NextDay0 | src/lib/datetime.ts:22-33 | the result is the first of a month or the same month's next day; whenever the year changes the new month is 1 (see DateTime.NextDay0Valid, DateTime.NextDay0SkipsJanuary) |
| DateTime.NextDay0Valid | src/lib/datetime.ts:22-33 | under 0-based months, except on December 31, the next day is valid, later, and nothing valid lies between |
| DateTime.NextDay0SkipsJanuary | src/lib/datetime.ts:25-26 | the day after December 31 is month 1 (February) of the next year, past the valid January 1 |
| DateTime.PreviousOfNext0Fails | src/lib/datetime.ts:22-45 | from 0-based February 29, 2024, next then previous gives "month 1, day 31", not the start |
| DateTime.PreviousDay0LeavesCalendar | src/lib/datetime.ts:35-45 | on 0-based February 1, `previousDay` gives month 12, which is no month |
| DateTime.PreviousDay0UndefinedInJanuary | src/lib/datetime.ts:35-45 | on 0-based January 1, `previousDay` reads the month table at -2, so its day is `undefined` |
| DateTime.DayToIndexCollides0 | src/lib/datetime.ts:47-49 | under 0-based months, 2024-11-26 and 2025-00-01 share index 367 |
| DateTime.NextDayFixedAgrees | src/lib/datetime.ts:22-33 | the corrected next day differs from the written one exactly on December 31 |
| DateTime.FixedStepsValid | src/lib/datetime.ts:22-45 | the corrected next and previous days are valid 0-based dates, adjacent in calendar order |
| DateTime.FixedStepsRoundTrip | src/lib/datetime.ts:22-45 | the corrected next and previous days undo each other on every valid 0-based date |
| DateTime.DaySerialOrders0 | src/lib/datetime.ts:47-49 | with a year stride of 372 the index also follows calendar order and is injective on valid 0-based dates, the ones the pages build |
| DateTime.FormatTime | src/lib/datetime.ts:67-69 | the text is at least five characters; for non-negative hour and minute it holds only digits and `:` (see DateTime.FormatTimeShape, DateTime.FormatTimeInjective) |
| DateTime.FormatTimeShape | src/lib/datetime.ts:67-69 | for hour and minute in 0..99 the text is `DD:DD`, and its two halves read back as hour and minute |
| DateTime.FormatTimeInjective | src/lib/datetime.ts:67-69 | distinct times in 0..99 format to distinct texts |
| Decimal.Digits | src/lib/task.ts:25 | the decimal text of a natural number is non-empty and all digits; it is one digit exactly below 10 |
| Decimal.ToString | src/lib/task.ts:16-25 | the text is non-empty, starts with `-` exactly for a negative number, and is otherwise digits (see Decimal.ToStringInjective) |
| Decimal.ParseDigitsOfDigits | src/lib/task.ts:25 | the decimal text reads back as the number |
| Decimal.ToStringInjective | src/lib/task.ts:15-25 | distinct integers have distinct texts, so distinct days have distinct storage slots |
| Decimal.ToStringStartsWithDigitOrMinus | src/lib/task.ts:16 | an integer's text starts with a digit or `-` |
| Decimal.PadStart | src/lib/datetime.ts:68 | `padStart` returns the width (or the text if longer), the text as suffix and the fill before it |
| Decimal.TwoDigits | src/lib/datetime.ts:68 | a number in 0..99, padded to two, is two digits that read back as the number |
| Storage.LocalStorage.SetItem | src/lib/task.ts:16 | `setItem` writes one slot and leaves the others alone |
| Storage.GetOr | src/lib/task.ts:25 | `getItem(key) ?? fallback` is the slot's value when present, else the fallback |
| Tasks.DaySlotIsNotNamedSlot | src/lib/task.ts:14-18 | a day's slot is never the "memories" or "schedules" slot |
| Tasks.SaveTasks | src/lib/task.ts:14-18 | after the loop every loaded day is in its slot under its index's text; slots added are exactly those days'; all other slots keep their contents |
| Tasks.LoadTasks | src/lib/task.ts:20-27 | `undefined` exactly when the day is loaded; otherwise the map gains that day, with its stored list or `[]`, and keeps every other day |
| Tasks.GetTasks | src/lib/task.ts:44-46 | the day's list when loaded, else `[]` |
| Tasks.CreateTask | src/lib/task.ts:29-33 | the date's list (or `[]`) gains the keyed task at its end; other days unchanged |
| Tasks.DeleteTask | src/lib/task.ts:35-38 | throws (`None`) exactly when the task's day is not loaded; otherwise only that day changes, losing the tasks with the key |
| Tasks.UpdateTasks | src/lib/task.ts:40-42 | the date's list becomes the given list minus untitled tasks; other days unchanged |
| Tasks.DeleteRemovesKey | src/lib/task.ts:35-38 | after a delete a task is listed on that day exactly when it was there and carries another key |
| Tasks.UpdateThenGet | src/lib/task.ts:40-46 | after an update the day lists exactly the titled tasks of the list |
| Tasks.UpdateIdempotent | src/lib/task.ts:40-46 | writing back what `getTasks` returns after an update changes nothing |
| Tasks.LoadAfterSave | src/lib/task.ts:14-27 | loading a day that a flush wrote yields the list flushed |
| Tasks.LoadTwice | src/lib/task.ts:20-27 | a second load of a day is refused |
| Tasks.CreateSaveLoad | src/lib/task.ts:14-33 | a task created, flushed and loaded into an empty map is its day's only task |
| Tasks.CreateShowsOnCollidingDay | src/lib/task.ts:29-46 | a task created for 2024-12-31 is also listed for 2025-01-06 |
| Tasks.CreateKeepsKeysUnique | src/lib/task.ts:29-33 | creating with a fresh key keeps keys unique within every day |
| Migration.MigrateFrom0To1 | src/lib/migration.ts:3-5 | the step keeps the task, sets `time` to `null` and `version` to 1 |
| Migration.Migrations | src/lib/migration.ts:7 | the chain has one step |
| Migration.Slice | src/lib/migration.ts:11 | `slice(start)`: empty past the end, the suffix from `start`, and a negative start counted from the end |
| Migration.Run | src/lib/migration.ts:9-12 | a record already at or past the chain's last version is returned as is (see Migration.RunReachesLast, Migration.RunIdempotent) |
| Migration.MigrateTask | src/lib/migration.ts:9-12 | the task's own fields are kept and the version becomes at least 1 (see Migration.MigrateTaskCases, Migration.MigrateTaskIdempotent) |
| Migration.Migrate | src/lib/migration.ts:14-16 | same length, each record migrated on its own |
| Migration.RunReachesLast | src/lib/migration.ts:9-12 | for a chain whose step `i` lifts version `i` to `i+1`, any record from version 0 up ends at the last version |
| Migration.RunIdempotent | src/lib/migration.ts:9-12 | running such a chain again on its result changes nothing |
| Migration.MigrationsAdvance | src/lib/migration.ts:3-7 | the actual chain lifts each version by one |
| Migration.MigrateTaskCases | src/lib/migration.ts:9-12 | a record at version 1 or above is returned as is; any other gets `time: null, version: 1` |
| Migration.MigrateTaskIdempotent | src/lib/migration.ts:9-12 | migrating a migrated record changes nothing |
| Migration.MigrateIdempotent | src/lib/migration.ts:14-16 | migrating a migrated list changes nothing |
| Schedules.DeleteSchedule | src/lib/schedule.ts:19-21 | no entry at the deleted time remains |
| Schedules.UpdateSchedule | src/lib/schedule.ts:23-25 | the new entry is last and no earlier entry has its time |
| Schedules.DeleteScheduleMembership | src/lib/schedule.ts:19-21 | an entry survives exactly when it was there and has another time |
| Schedules.DeleteScheduleNoop | src/lib/schedule.ts:19-21 | deleting at an unused time changes nothing |
| Schedules.UpdateKeepsUnique | src/lib/schedule.ts:23-25 | an upsert keeps one entry per time |
| Schedules.UpdateKeepsOthers | src/lib/schedule.ts:23-25 | entries at other times are kept, in order |
| Schedules.UpdateTwice | src/lib/schedule.ts:23-25 | two upserts at one time equal the second alone |
| Schedules.SaveSchedules | src/lib/schedule.ts:11-13 | writes the list to the "schedules" slot only |
| Schedules.LoadSchedules | src/lib/schedule.ts:15-17 | a missing slot loads as `[]` |
| Schedules.LoadSchedulesAfterSave | src/lib/schedule.ts:11-17 | loading after a save returns the saved list |
| Memories.CreateMemory | src/lib/memory.ts:17-20 | the list keeps its entries and gains one entry with the key, content and date at its end |
| Memories.CreateKeepsKeysUnique | src/lib/memory.ts:17-20 | creating with a fresh key keeps keys unique |
| Memories.CreateTwiceDistinct | src/lib/memory.ts:17-20 | two creations with fresh keys leave distinct keys |
| Memories.SaveMemories | src/lib/memory.ts:9-11 | writes the list to the "memories" slot only |
| Memories.LoadMemories | src/lib/memory.ts:13-15 | a missing slot loads as `[]` |
| Memories.LoadMemoriesAfterSave | src/lib/memory.ts:9-15 | loading after a save returns the saved list |
| Arrays.Filter | src/lib/task.ts:37 | `filter` keeps only elements passing the test and never grows the list |
| Arrays.FilterMembership | src/lib/task.ts:37 | an element is in the result exactly when it is in the list and passes |
| Arrays.FilterIdempotent | src/lib/task.ts:41 | filtering twice equals filtering once |
| Arrays.FilterCommutes | src/lib/task.ts:37-41 | two filters commute |
| Arrays.Map | src/lib/migration.ts:15 | `map` keeps the length and applies the function pointwise |
| Arrays.At | src/lib/date.ts:17 | reading index `i` gives a value exactly when `i` is in range |
| Arrays.FirstIndex | src/components/task-table.tsx:24-30 | the reported position is the first passing element; `None` means none passes |
| Arrays.Distinct | src/components/schedule-table.tsx:43 | `Array.from(new Set(s))` has no duplicates |
| Arrays.DistinctMembership | src/components/schedule-table.tsx:43 | and holds exactly the values of `s` |
| Arrays.DistinctKeepsOrder | src/components/schedule-table.tsx:47-54 | it keeps any order `s` already had |
| Arrays.PermutationKeepsNoDuplicates | src/components/schedule-table.tsx:43-44 | reordering cannot create duplicates |
| ArraySort.Sorted | src/components/task-table.tsx:17 | the content of the array after `sort(cmp)`: same length (see ArraySort.SortedPermutes, ArraySort.SortedIsOrdered, ArraySort.SortedIsStable) |
| ArraySort.Sort | src/components/task-table.tsx:17 | the in-place sort leaves the array equal to `Sorted` of its old contents |
| ArraySort.InsertInto | src/components/task-table.tsx:17 | one pass moves an element left into the sorted prefix, leaving the rest alone |
| ArraySort.SortedPermutes | src/components/task-table.tsx:17 | the result is a permutation of the input |
| ArraySort.SortedIsOrdered | src/components/task-table.tsx:17 | for a consistent comparator, no element precedes one that compares below it |
| ArraySort.SortedIsStable | src/components/task-table.tsx:17 | elements comparing equal keep their relative order |
| ArraySort.CompareStringsZero | src/components/schedule-table.tsx:44 | the default string order says "equal" exactly for equal strings |
| ArraySort.CompareStringsFlip | src/components/schedule-table.tsx:44 | swapping the strings negates the result |
| ArraySort.CompareStringsTransitive | src/components/schedule-table.tsx:44 | "not after" is transitive |
| ArraySort.CompareStringsConsistent | src/components/schedule-table.tsx:44 | the default string order is one the sort can rely on |
| TaskTable.ByFinishedConsistent | src/components/task-table.tsx:17 | the table's comparator is consistent |
| TaskTable.InsertIntoGroups | src/components/task-table.tsx:17 | inserting into "unfinished then finished" puts an unfinished task between the groups and a finished one at the end |
| TaskTable.DisplayOrder | src/components/task-table.tsx:17 | the sorted list is the unfinished tasks in their order, then the finished ones in theirs |
| TaskTable.SortForDisplay | src/components/task-table.tsx:17 | the in-place sort leaves exactly that order |
| TaskTable.EditingKey | src/components/task-table.tsx:23-31 | the key of the first untitled task if any, else the chosen one |
| TaskTable.TaskEditor.Editing | src/components/task-table.tsx:23-31 | the loop returns that key; it clears the typed title exactly when an untitled task exists, and changes nothing else |
| TaskTable.ModifyEach | src/components/task-table.tsx:5-8 | the modified copy has the same length; each selected task is changed and the others are the same |
| TaskTable.TaskEditor.HandleOk | src/components/task-table.tsx:44-58 | the edit closes; the edited task gets the typed title and estimate; all other tasks and fields are unchanged |
| TaskTable.TaskEditor.HandleCancel | src/components/task-table.tsx:60-66 | the edit closes and the list is handed back unchanged |
| TaskTable.TaskEditor.HandleEdit | src/components/task-table.tsx:68-79 | refused, changing nothing, exactly while an edit is open; otherwise opens the given task |
| TaskTable.HandleDelete | src/components/task-table.tsx:81-90 | nothing is handed back exactly while an edit is open; otherwise no task with the key remains |
| TaskTable.HandleDeleteKeepsOthers | src/components/task-table.tsx:81-90 | a task is kept exactly when it was there and has another key |
| TaskTable.ToggleFinished | src/components/task-table.tsx:147-157 | the task with the key gets `finished := checked`; all other tasks and fields are unchanged |
| MemoList.FindEditing | src/components/memo-list.tsx:25-32 | the key of the first memory with empty content, or else the clicked memory |
| MemoList.ContentOf | src/components/memo-list.tsx:62 | the content of the first memory with the key, or `""` when none has it |
| MemoList.EditedMemories | src/components/memo-list.tsx:48-58 | empty text: no memory with the key remains; otherwise same length, and keys, dates and positions are kept, with only the key's content replaced |
| MemoList.EditToEmptyDeletes | src/components/memo-list.tsx:48-49 | emptying keeps a memory exactly when it was there and has another key |
| MemoList.EditToEmptyOfAbsentKey | src/components/memo-list.tsx:48-49 | deleting an absent key gives back the same list, in order |
| MemoList.EditThenRead | src/components/memo-list.tsx:50-62 | after a replacement the key reads back the new text |
| MemoList.DeleteThenRead | src/components/memo-list.tsx:48-62 | after a deletion the key reads back `""` |
| MemoList.EditIdempotent | src/components/memo-list.tsx:48-58 | applying the same edit twice equals applying it once |
| MemoList.EscapeKeepsList | src/components/memo-list.tsx:69-70 | Escape re-submits the stored text; with unique keys and non-empty text the list comes back unchanged |
| MemoList.MemoEditor.UpdateEditing | src/components/memo-list.tsx:44-65 | a list is handed back exactly while a memory is edited, and it is the edited list; the edit moves to the new key, whose text is loaded |
| MemoList.NewestFirstConsistent | src/components/memo-list.tsx:80 | negating a consistent date comparator keeps it consistent |
| MemoList.SortMemories | src/components/memo-list.tsx:79-82 | the in-place sort leaves `Sorted` of the old contents under the newest-first comparator |
| MemoList.SortedMemoriesOrder | src/components/memo-list.tsx:79-82 | the sorted memories are a permutation, each date compares no lower than any later one, and same-date memories keep their order |
| MemoList.Scan | src/components/memo-list.tsx:84-94 | the loop as a recursion: at most one key per memory, and the first memory is always marked (see MemoList.ScanIsRunStarts, MemoList.DateMarkersMembership) |
| MemoList.DateMarkers | src/components/memo-list.tsx:84-94 | the loop returns the marks of the recursive scan that compares with the last marked date |
| MemoList.ScanIsRunStarts | src/components/memo-list.tsx:84-94 | for a consistent comparator, comparing with the last marked date marks the same memories as comparing with the predecessor |
| MemoList.RunStartsMembership | src/components/memo-list.tsx:84-94 | a key is among the run starts exactly when a memory with it opens a run |
| MemoList.DateMarkersMembership | src/components/memo-list.tsx:84-94 | a key is marked exactly when a memory with it is first or compares unequal by date to its predecessor |
| ScheduleTable.CellAt | src/components/schedule-table.tsx:156-162 | a cell is empty exactly when no schedule has its time; a shown schedule is in the list and has that time |
| ScheduleTable.LastWins | src/components/schedule-table.tsx:159-162 | a cell shows the last schedule with its time |
| ScheduleTable.EachShownInItsCell | src/components/schedule-table.tsx:159-162 | with one schedule per time, each schedule is shown in its own cell |
| ScheduleTable.BuildGrid | src/components/schedule-table.tsx:156-162 | a fresh 6×7 grid; it fails exactly when a period lies outside 0..5, and otherwise each cell holds `CellAt` |
| ScheduleTable.DeleteKeepsOtherCells | src/lib/schedule.ts:19-21 | deleting at one time leaves every other cell as it was |
| ScheduleTable.OnCellChange | src/components/schedule-table.tsx:184-190 | nothing is handed back exactly when there is no new schedule and the cell is empty |
| ScheduleTable.CellShowsChange | src/components/schedule-table.tsx:184-190 | after a cell's change the cell shows exactly what was handed over (the saved schedule, or nothing) and every other cell is unchanged |
| ScheduleTable.CellEditor.StartEditing | src/components/schedule-table.tsx:58-63 | the dialog opens on the cell's title and location, or on empty fields |
| ScheduleTable.CellEditor.Save | src/components/schedule-table.tsx:65-72 | a schedule is handed over exactly when the title is non-empty; it is the title, location and cell time, and the dialog closes; otherwise the dialog stays |
| ScheduleTable.CellEditor.Cancel | src/components/schedule-table.tsx:74-76 | closes the dialog |
| ScheduleTable.CellEditor.Remove | src/components/schedule-table.tsx:78-81 | hands over `undefined` and closes the dialog |
| ScheduleTable.TitleOptions | src/components/schedule-table.tsx:43-45 | the title suggestions have no duplicates (see ScheduleTable.TitleOptionsSpec) |
| ScheduleTable.LocationOptions | src/components/schedule-table.tsx:47-54 | the location suggestions have no duplicates (see ScheduleTable.LocationOptionsSpec) |
| ScheduleTable.TitleOptionsSpec | src/components/schedule-table.tsx:43-45 | the title suggestions are the titles in use, each once, strictly ascending |
| ScheduleTable.LocationOptionsMembership | src/components/schedule-table.tsx:47-54 | a location is suggested exactly when some schedule with the current title has it |
| ScheduleTable.LocationOptionsAscending | src/components/schedule-table.tsx:47-54 | the location suggestions are strictly ascending |
| ScheduleTable.LocationOptionsSpec | src/components/schedule-table.tsx:47-54 | the location suggestions are those locations, each once, strictly ascending |

## Left out

- JSON encoding and decoding of stored values. Each store holds decoded values, one `LocalStorage` instance per value type (task lists, schedules, memories), and `Tasks.DaySlotIsNotNamedSlot` shows the day slots never meet the named slots. Malformed JSON is not modelled.
- `crypto.randomUUID`: the key is a parameter, and uniqueness lemmas assume it is fresh.
- TaskTable.SortForDisplay: `tasks.sort(...)` sorts the very array that `getTasks` returns from the page's task map (`src/lib/task.ts:44-46`, `src/app/page.tsx:80`), so the next `saveTasks` writes that day in display order. The model sorts a separate array and the stored list keeps its old order.
- MemoList.SortMemories: `memories.sort(...)` likewise reorders the memory page's own state. The model sorts a separate array and does not capture that aliasing.
- Memories.CreateMemory: the default `date = currentDay()` is not modelled; `date` is a required parameter. The only caller (`src/app/memory/page.tsx:14`) passes it.
- `dayToDayjs`, `dayjsToDay`, `timeToDayjs`, `dayjsToTime` (dayjs wrappers), and `currentDay`, `compareDay`, `formatDay`, `dayInWeek`, whose bodies are not part of this model. `compareDay` is a parameter `cmp`; the order properties require it to be consistent.
- The order in which `for … in` visits the day keys is a parameter `days` of `Tasks.SaveTasks`; the final storage is the same for every order.
- Tasks.SaveTasks: the slot name is the decimal text of the integer index. Indices can be negative for years before 2024, and such a slot name starts with `-`.
- Tasks.CreateTask: the program's callers pass `time: null` in the draft (`src/app/page.tsx:49`, `src/app/tasks/page.tsx:44`), and the spread copies it into the task. The model's task drops the `time` field because nothing in the modelled core reads it. No version is stamped.
- Migration: `migrate` has no caller, so no load, migrate and write-back cycle is modelled. The record it migrates is a separate datatype carrying `time` and `version`, which the Task type lacks.
- TaskTable.ModifyEach: the source changes task objects that the clone shares with the caller's array, so the caller's tasks change too. The model replaces elements of a fresh array and does not model that aliasing.
- TaskTable.TaskEditor.Editing: the source clears the typed title from inside a memo during rendering. Here that is a state change of the same call.
- TaskTable.TaskEditor.HandleCancel: the `setEditing(false)` call to the parent is not modelled.
- React hooks, rendering, focus, toasts (`message.error`), keyboard handling other than Escape re-submitting the stored text, `handleSelect`, and the hover hint.
- Date.PreviousDay: where the source returns `{ year, month: month - 1, day: undefined }`, the model returns `None`, so that record's year and month are not kept. An out-of-range index read gives `None` throughout (`Arrays.At`).
- ArraySort.CompareStrings: `sort()` with no comparator compares UTF-16 code units. The model compares Unicode characters; the two orders differ only for characters outside the Basic Multilingual Plane.
- ScheduleTable.BuildGrid: a day of 7 or more with a valid period is written past the end of its row, and the component renders extra cells for it. A negative day becomes a non-index property of the row, which the row's rendering skips. The model leaves both out of the 42 cells.
- Times and dates are exact unbounded integers. JavaScript numbers are doubles: fractional values are not modelled, indices past 2^53 would merge, and from 1e21 `toString` switches to exponent notation. Decimal.ToStringInjective and Date.DayToIndex assume exact integers.
- The pages (`src/app/...`), routing, layout and error pages only wire state to the functions above and are not part of this model.
- Backup and screenshot are I/O outside the core. `src/lib/backup.ts:1-14` dumps all of `localStorage` as JSON and restores it, throwing on a non-string value. `src/lib/screenshot.ts:3-21` renders to a canvas and writes to the clipboard or a download.
- Behaviour of the code worth noting:
  - loading does not migrate or write back;
  - `getTasks` returns `[]` for an unloaded day, not `undefined`;
  - creating a task stamps no version;
  - `date.ts` counts months from 1, and December rolls over to January as month 1;
  - the page's `getTasks(...) === undefined` guard (`src/app/tasks/page.tsx:28`) can never fire, because `getTasks` never returns `undefined`.

## Findings

| source | as written | input that shows it | evidently intended | confidence | as-written member | corrected member |
|---|---|---|---|---|---|---|
| src/lib/date.ts:40-42 | `(year - 2024) * 366 + month * 31 + day`; `month * 31 + day` reaches 403 > 366, so years overlap | 2024-12-31 and 2025-01-06 both give 403; the next day after 2024-12-31 gives 398 | one distinct index per date, increasing with the date | high (not executed) | Date.DayToIndexCollides, Date.DayToIndexFallsAtYearEnd, Tasks.CreateShowsOnCollidingDay | Date.DaySerial with Date.DaySerialOrders, DateTime.DaySerialOrders0 |
| src/lib/datetime.ts:25-26 | December 31 (month 11) is followed by `{ month: 1, day: 1 }` | `nextDay({2024, 11, 31})` is `{2025, 1, 1}`, February 1 in 0-based months | January 1, month 0 | high (not executed) | DateTime.NextDay0SkipsJanuary | DateTime.NextDayFixed with DateTime.FixedStepsRoundTrip, DateTime.FixedStepsValid |
| src/lib/datetime.ts:35-45 | `previousDay` keeps the 1-based rules (`month == 1`, `month - 2`, `month: 12`) in the 0-based file | `{2024, 0, 1}` gives day `undefined`; `{2024, 1, 1}` gives `{2023, 12, 31}`; next then previous from `{2024, 1, 29}` gives `{2024, 1, 31}` | the previous day under 0-based months | high (not executed) | DateTime.PreviousDay0UndefinedInJanuary, DateTime.PreviousDay0LeavesCalendar, DateTime.PreviousOfNext0Fails | DateTime.PreviousDayFixed with DateTime.FixedStepsRoundTrip, DateTime.FixedStepsValid |

The stores keep the index as written, as the code does. `DaySerial` and the corrected 0-based steps are what the index and the steps are evidently meant to be. They are proved correct, but they are not wired into the stores.
