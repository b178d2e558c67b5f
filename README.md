# Focus planner pages in Dafny

A model of the logic behind the pages of a browser-only productivity app. Each page keeps its own list or map in component state:

- the habit tracker: habits, a completion ledger keyed by `"{habitId}-{dateKey}"`, the month's days grouped into weeks, statistics and drag reordering;
- the day planner: timed events on a day, laid out on a timeline from 06:00, rescheduled by dropping them on an hour;
- the calendar: a month expanded to whole Sunday-to-Saturday weeks, with the daily tasks of each day;
- the daily planner: tasks with a status, shown for the current day and filtered by status;
- the priority matrix: tasks in four urgency/importance quadrants;
- the Pomodoro timer: a countdown state machine;
- the landing page's quick tasks.

Every handler that replaces a list or map wholesale (spread, `map`, `filter`) is a function from the old value and the inputs to the new value. Code that loops or mutates keeps that form:

- the day list and week grouping of the habit tracker and its cascade delete over the ledger's keys are methods with loops;
- its drag reorder is a method that looks up both indices and applies two splices, each a call to the function `Seqs.Splice`;
- the calendar's `while` loop over the grid days and its week slicing are methods with loops;
- the timer is a class whose methods change its fields, each proved against a step function on a state value.

Shared modules:

- `Base` holds `Option`, which stands for `undefined`/`NaN`.
- `Text` covers digits, `padStart`, `split`, `trim`, `Number()` and string order.
- `Seqs` covers `filter`, `findIndex`, `splice` and percentages.
- `Dates` is a proleptic Gregorian calendar. It has a day count, the weekday computed from that count, `new Date(y, m, d)` with its roll-over, the `YYYY-MM-DD` date key (the `full-date` form of section 5.6 of RFC 3339) and month navigation.

Ids from `Date.now()`, timestamps from `new Date()`, the `window.confirm` answer and the current date are parameters.

## Model

| member | source | states |
|---|---|---|
| HabitTracker.AddHabit | frontend/src/pages/HabitTracker.jsx:62-72 | a blank name changes nothing; otherwise exactly one habit is appended, its order the previous length |
| HabitTracker.ToggleCompletion | frontend/src/pages/HabitTracker.jsx:88-94 | the habit-day key becomes the negation of its previous truthiness; every other key is unchanged |
| HabitTracker.ToggleTwice | frontend/src/pages/HabitTracker.jsx:88-94 | toggling twice restores what the key reads as, but an absent key is left stored as false |
| HabitTracker.RemoveHabit | frontend/src/pages/HabitTracker.jsx:76 | exactly the habits with other ids remain, in order, each as often as before |
| HabitTracker.DeleteHabit | frontend/src/pages/HabitTracker.jsx:74-86 | declined: nothing changes; confirmed: the habit goes, exactly the keys starting `{id}-` go, no key of this habit remains, keys of other ids stay with their values |
| HabitTracker.OtherIdPrefix | frontend/src/pages/HabitTracker.jsx:80 | a completion key of another numeric id never starts with `{id}-` |
| HabitTracker.GetDaysInMonth | frontend/src/pages/HabitTracker.jsx:96-105 | the days 1..N of the month in order, N the month's length (29 in a leap February) |
| HabitTracker.DayOfMonth | frontend/src/pages/HabitTracker.jsx:102 | `new Date(year, month, day)` for a day of the month is that day |
| HabitTracker.SplitAfter | frontend/src/pages/HabitTracker.jsx:129-137 | for any closing test: the groups concatenate to the items, none is empty, every group but the last ends on an item that closes it, and no closing item sits inside a group |
| HabitTracker.GroupWeeks | frontend/src/pages/HabitTracker.jsx:129-137 | the weeks concatenate to the days; no week is empty; every week but the last ends on a Sunday, and no Sunday sits inside a week |
| HabitTracker.IndexOfId | frontend/src/pages/HabitTracker.jsx:182-183 | the first index with the id, or -1 when no habit has it |
| HabitTracker.Renumber | frontend/src/pages/HabitTracker.jsx:189 | each order becomes its index; nothing else changes |
| HabitTracker.HandleDrop | frontend/src/pages/HabitTracker.jsx:178-191 | nothing happens on a self-drop or with nothing dragged; otherwise the same habits (a permutation, up to order) with orders 0..n-1, and the dragged habit at the target's old index |
| HabitTracker.MovedIsPermutation | frontend/src/pages/HabitTracker.jsx:185-187 | cutting one element out and inserting it elsewhere keeps the multiset of habits |
| HabitTracker.OrderCanRepeat | frontend/src/pages/HabitTracker.jsx:64-76 | after a delete, a newly added habit can share its order with an existing one |
| HabitTracker.CompletedCount | frontend/src/pages/HabitTracker.jsx:151 | at most the number of habits, and equal to it exactly when every habit is completed that day |
| HabitTracker.DailyProgress | frontend/src/pages/HabitTracker.jsx:149-155 | one row per day; completed ≤ total = habits; percentage 0 with no habits, within 0..100, 100 when all are done |
| HabitTracker.HabitAnalysis | frontend/src/pages/HabitTracker.jsx:158-165 | one row per habit; completed days ≤ days; rate 0 with no days, within 0..100 |
| HabitTracker.CompletionPercentage | frontend/src/pages/HabitTracker.jsx:141-146 | 0 when habits × days is 0; never negative; at most 100 when the count is at most habits × days |
| HabitTracker.SecondField | frontend/src/pages/HabitTracker.jsx:143 | the second `split('-')` field holds no dash; it is undefined exactly when the key has no dash |
| HabitTracker.AsWrittenCountsNothing | frontend/src/pages/HabitTracker.jsx:142-145 | as written, the month count is never positive: a split field holds no dash and the month key does |
| HabitTracker.ActualCompletionsAsWritten | frontend/src/pages/HabitTracker.jsx:141-145 | the count as written, `None` standing for the throw on a key without a dash; `AsWrittenCountsNothing`: for a month key holding a dash it is a throw or 0, and 0 whenever every stored key has a dash |
| HabitTracker.CompletionKeySplits | frontend/src/pages/HabitTracker.jsx:89 | the text after the first dash of a completion key is its date key |
| HabitTracker.ActualCompletions | frontend/src/pages/HabitTracker.jsx:142-145 | the intended month count is at most the number of ledger keys |
| HabitTracker.DateKeyInMonth | frontend/src/pages/HabitTracker.jsx:140-144 | for four-digit years a date key starts with the month key exactly when the day is in that month |
| HabitTracker.MonthKey | frontend/src/pages/HabitTracker.jsx:140 | `DateKeyInMonth`: for a four-digit year, a date key starts with the month key exactly when the date lies in that year and month |
| HabitTracker.CompletionCountedInItsMonth | frontend/src/pages/HabitTracker.jsx:140-145 | one completion is counted once in its month as intended, while the code as written counts 0 |
| Dates.AddDays | frontend/src/pages/DailyPlanner.jsx:72 | `setDate(getDate() + n)` moves the day count by exactly n |
| Dates.DayNumberOrder | frontend/src/pages/CalendarView.jsx:81 | day counts compare as the dates do, and are equal only for the same date |
| Dates.AddDaysInverse | frontend/src/pages/DailyPlanner.jsx:70-74 | moving n days and back returns the same date |
| Dates.MakeDateInMonth | frontend/src/pages/HabitTracker.jsx:102 | `new Date(y, m, d)` with a day in the normalised month keeps that day |
| Dates.MakeDateDayZero | frontend/src/pages/HabitTracker.jsx:99 | `new Date(y, m + 1, 0)` is the last day of month m |
| Dates.MakeDate | frontend/src/pages/HabitTracker.jsx:99-102 | `MakeDateInMonth`: an in-range day lands in the given month on that day; `MakeDateDayZero`: day 0 is the last day of the month before |
| Dates.DateKeyRoundTrip | frontend/src/pages/HabitTracker.jsx:117-119 | every date key reads back as its date |
| Dates.DateKeyInjective | frontend/src/pages/HabitTracker.jsx:117-119 | two dates have the same key exactly when they are equal |
| Dates.DateKey | frontend/src/pages/CalendarView.jsx:50 | `DateKeyRoundTrip` and `DateKeyInjective`: the key reads back as the date, and two dates share a key only when they are equal |
| Dates.ChangeMonthAsWritten | frontend/src/pages/HabitTracker.jsx:107-111 | `setMonth(getMonth() + delta)` lands in the month delta away exactly when that month has the day |
| Dates.RollDays | frontend/src/pages/HabitTracker.jsx:107-111 | counting a day of the month on from the 1st stays in that month exactly when the month has the day |
| Dates.ChangeMonthSkipsFebruary | frontend/src/pages/CalendarView.jsx:35-39 | the 31st of January moved one month on is the 3rd of March (the 2nd in a leap year) |
| Dates.ShiftMonth | frontend/src/pages/HabitTracker.jsx:107-111 | intended navigation: the first day of the month exactly delta months away |
| Dates.ShiftMonthInverse | frontend/src/pages/CalendarView.jsx:35-39 | moving delta months and back returns to the first of the starting month |
| DayPlanner.AddEvent | frontend/src/pages/DayPlanner.jsx:87-107 | a blank title changes nothing; editing sets title, times, category, notes and date on the edited id only, keeping id and createdAt; otherwise one event on the selected day is appended |
| DayPlanner.EditIdempotent | frontend/src/pages/DayPlanner.jsx:90-98 | saving the same edit twice equals saving it once |
| DayPlanner.DeleteEvent | frontend/src/pages/DayPlanner.jsx:119-121 | exactly the events with other ids remain, in order, each as often as before |
| DayPlanner.InsertByStart | frontend/src/pages/DayPlanner.jsx:139 | inserting keeps sortedness and adds exactly the one event |
| DayPlanner.SortByStart | frontend/src/pages/DayPlanner.jsx:139 | the result is sorted by start text and a permutation of the input |
| DayPlanner.EventsForDate | frontend/src/pages/DayPlanner.jsx:135-140 | sorted by start; exactly the events of the day, each as often as stored |
| DayPlanner.ClockTextFields | frontend/src/pages/DayPlanner.jsx:143-144 | a padded `HH:MM` text splits and reads back as its hour and minute |
| DayPlanner.ClockTextMinutes | frontend/src/pages/DayPlanner.jsx:143-147 | a padded `HH:MM` text is h·60 + m minutes |
| DayPlanner.MinutesOfFields | frontend/src/pages/DayPlanner.jsx:146-147 | the minutes of a time are hour·60 + minute |
| DayPlanner.ClockFields | frontend/src/pages/DayPlanner.jsx:141-143 | `ClockTextFields`: the text of two padded fields `hh:mm` splits back into those two numbers |
| DayPlanner.ClockMinutes | frontend/src/pages/DayPlanner.jsx:141-147 | `MinutesOfFields` and `ClockTextMinutes`: the minutes of `hh:mm` are 60 times the hours plus the minutes |
| DayPlanner.TwoDigitOrder | frontend/src/pages/DayPlanner.jsx:139 | two-digit fields are equal and ordered exactly as their values |
| DayPlanner.PairOrder | frontend/src/pages/DayPlanner.jsx:139 | two-character texts compare by the first character, then the second |
| DayPlanner.ClockOrder | frontend/src/pages/DayPlanner.jsx:139 | for zero-padded `HH:MM` texts string order is minute order |
| DayPlanner.EventPosition | frontend/src/pages/DayPlanner.jsx:142-155 | defined exactly when both times parse; top = minutes since 06:00 × 80/60; height ≥ 40 and ≥ duration × 80/60, equal to it exactly when the duration is ≥ 30 |
| DayPlanner.JsRem | frontend/src/pages/DayPlanner.jsx:178 | JavaScript's `%`: Euclidean for a non-negative dividend, and strictly between -60 and 60 |
| DayPlanner.EndTextClock | frontend/src/pages/DayPlanner.jsx:176-179 | a non-negative end in minutes is written as its hour and minute |
| DayPlanner.HandleDrop | frontend/src/pages/DayPlanner.jsx:167-189 | nothing dragged, or a start with no minute field: no change; otherwise only the dragged id's start and end change |
| DayPlanner.DropKeepsDuration | frontend/src/pages/DayPlanner.jsx:171-179 | the new start is the drop hour with the old minute, and the new end keeps the old duration |
| DayPlanner.DropPastMidnight | frontend/src/pages/DayPlanner.jsx:176-179 | the end hour is not wrapped: an hour-long event dropped on 23 ends at hour 24 |
| DayPlanner.DropTimes | frontend/src/pages/DayPlanner.jsx:171-179 | `DropKeepsDuration`: a drop on `hour` keeps the start minutes and the event's length in minutes; `DropPastMidnight`: the end hour is not wrapped and can pass 23 |
| DayPlanner.CategoryCount | frontend/src/pages/DayPlanner.jsx:192-195 | at most the day's events; 0 exactly when none has the category, all exactly when every one has it |
| DayPlanner.FormatTimeRoundTrip | frontend/src/pages/DayPlanner.jsx:61-65 | each hour 0..23 gets a 12-hour label ending in AM before noon and PM after, and the label reads back as the hour |
| DayPlanner.FormatTimeInjective | frontend/src/pages/DayPlanner.jsx:17 | the 24 hours get 24 different labels |
| DayPlanner.FormatTime | frontend/src/pages/DayPlanner.jsx:61-65 | `FormatTimeRoundTrip` and `FormatTimeInjective`: every hour 0..23 gets a distinct 12-hour label that reads back as the hour |
| CalendarView.GridStart | frontend/src/pages/CalendarView.jsx:69-73 | a Sunday, the weekday of the 1st days before the 1st |
| CalendarView.GridEnd | frontend/src/pages/CalendarView.jsx:70-76 | a Saturday, 6 minus the weekday of the last day after the last day |
| CalendarView.GridLength | frontend/src/pages/CalendarView.jsx:69-76 | the grid spans a multiple of 7 days, between 28 and 42 |
| CalendarView.MonthGrid | frontend/src/pages/CalendarView.jsx:65-87 | starts at the grid start and ends on the grid end; consecutive days; a multiple of 7, 28..42 long; contains the 1st and the last day of the month |
| CalendarView.GridDays | frontend/src/pages/CalendarView.jsx:78-86 | consecutive days from the grid start to the grid end begin and end there and are a whole number of weeks |
| CalendarView.GridHoldsMonth | frontend/src/pages/CalendarView.jsx:78-86 | those days hold the 1st and the last day of the month |
| CalendarView.GridHoldsMonthDays | frontend/src/pages/CalendarView.jsx:69-76 | the 1st and the last day of the month lie between the grid start and the grid end |
| CalendarView.SameMonthWithin | frontend/src/pages/CalendarView.jsx:58-63 | same month exactly when the day lies between the month's first and last day |
| CalendarView.GridSameMonth | frontend/src/pages/CalendarView.jsx:58-63 | grid day i is in the month exactly when it lies after the leading days and within the month's length |
| CalendarView.IsSameMonth | frontend/src/pages/CalendarView.jsx:58-63 | `SameMonthWithin` and `GridSameMonth`: a grid day is in the current month exactly when it lies between the 1st and the last day of the month |
| CalendarView.SliceWeeks | frontend/src/pages/CalendarView.jsx:119-123 | rows of 1..7 days concatenate to the grid; rows of exactly 7 when the grid is whole weeks |
| CalendarView.TasksForDate | frontend/src/pages/CalendarView.jsx:89-98 | exactly the tasks whose date key (own date, else from createdAt) is the day's key, in order, each as often as stored |
| CalendarView.TaskOnOneDay | frontend/src/pages/CalendarView.jsx:89-98 | a task is listed on at most one day |
| CalendarView.Cell | frontend/src/pages/CalendarView.jsx:173-178 | active + done ≤ the day's tasks; the same-month flag holds exactly for the shown month |
| CalendarView.CalendarUpdateStatus | frontend/src/pages/CalendarView.jsx:100-106 | only the matching task's status changes, and storage holds the new list |
| CalendarView.CalendarDelete | frontend/src/pages/CalendarView.jsx:108-112 | exactly the other tasks remain in order, each as often as stored, and storage holds the new list |
| CalendarView.UpdateKeepsDays | frontend/src/pages/CalendarView.jsx:100-106 | a status change keeps every day's task count |
| DailyPlanner.TaskDateKey | frontend/src/pages/DailyPlanner.jsx:54 | the task's own date when present, else the date part of createdAt, which holds no `T` |
| DailyPlanner.AddTask | frontend/src/pages/DailyPlanner.jsx:28-43 | a blank title changes nothing; otherwise the whole new task is appended: the given id, title, description, category and createdAt, status active, and the current date's key as its date |
| DailyPlanner.UpdateTaskStatus | frontend/src/pages/DailyPlanner.jsx:45-47 | only the status of tasks with the id changes |
| DailyPlanner.UpdateLastWins | frontend/src/pages/DailyPlanner.jsx:45-47 | of two status changes the later one stays |
| DailyPlanner.DeleteTask | frontend/src/pages/DailyPlanner.jsx:49-51 | exactly the tasks with other ids remain, in order, each as often as before |
| DailyPlanner.DeleteAfterUpdate | frontend/src/pages/DailyPlanner.jsx:45-51 | a status change followed by deleting the task leaves no trace |
| DailyPlanner.DeleteIdempotent | frontend/src/pages/DailyPlanner.jsx:49-51 | deleting twice is deleting once |
| DailyPlanner.FilteredTasks | frontend/src/pages/DailyPlanner.jsx:53-61 | an order-preserving subsequence on the current day; `all` keeps every task of the day, a status keeps exactly those with it; each shown task appears as often as stored |
| DailyPlanner.AddedTaskShown | frontend/src/pages/DailyPlanner.jsx:28-61 | a task added on a day shows up last in that day's unfiltered list |
| DailyPlanner.TaskStats | frontend/src/pages/DailyPlanner.jsx:63-68 | total is the shown count; active + done + cancelled ≤ total, equal when no status is unknown |
| DailyPlanner.StatusPartition | frontend/src/pages/DailyPlanner.jsx:63-68 | the three status counts and the unknown ones add up to all tasks |
| DailyPlanner.StatsUnderStatusFilter | frontend/src/pages/DailyPlanner.jsx:53-68 | under one status filter, total is that status's count and the other two are 0 |
| DailyPlanner.ChangeDate | frontend/src/pages/DailyPlanner.jsx:70-74 | moves the date by exactly n days, forwards for n > 0 and backwards for n < 0; moving back by n undoes it; the day planner's date step (frontend/src/pages/DayPlanner.jsx:71-75) is the same move |
| MatrixView.AddTask | frontend/src/pages/MatrixView.jsx:75-97 | a blank title changes nothing; an edit sets title, notes and quadrant on the edited id only, keeping id, done and createdAt; otherwise one task, not done, is appended in the chosen quadrant |
| MatrixView.DeleteTask | frontend/src/pages/MatrixView.jsx:103-105 | exactly the tasks with other ids remain, in order, each as often as before |
| MatrixView.DeleteShortens | frontend/src/pages/MatrixView.jsx:103-105 | the list gets shorter exactly when some task has the id |
| MatrixView.ToggleTaskDone | frontend/src/pages/MatrixView.jsx:107-109 | done flips on the matching id only |
| MatrixView.ToggleTwice | frontend/src/pages/MatrixView.jsx:107-109 | toggling twice is the identity |
| MatrixView.HandleDrop | frontend/src/pages/MatrixView.jsx:131-141 | nothing dragged: no change; otherwise only the dragged id's quadrant changes |
| MatrixView.QuadrantTasks | frontend/src/pages/MatrixView.jsx:143-145 | the order-preserving filter by quadrant: exactly the quadrant's tasks, each as often as stored |
| MatrixView.CountByQuadrant | frontend/src/pages/MatrixView.jsx:150-153 | the reduce sets each key to its quadrant's count and keeps the accumulator's other entries |
| MatrixView.ByQuadrant | frontend/src/pages/MatrixView.jsx:150-153 | one entry per quadrant key, each the number of tasks in it |
| MatrixView.QuadrantCountsSum | frontend/src/pages/MatrixView.jsx:147-154 | with only the four keys in use, the quadrant counts add up to the total |
| MatrixView.TaskStats | frontend/src/pages/MatrixView.jsx:147-154 | total is the task count; done ≤ total, equal exactly when every task is done |
| MatrixView.QuadrantPartition | frontend/src/pages/MatrixView.jsx:143-154 | the four quadrant counts and the unknown-key count add up to all tasks |
| MatrixView.DropKeepsCounts | frontend/src/pages/MatrixView.jsx:131-154 | a drop keeps the total and the done count |
| MatrixView.AddedLastInQuadrant | frontend/src/pages/MatrixView.jsx:87-97 | a new task shows up last in its quadrant |
| PomodoroTimer.TickStep | frontend/src/components/PomodoroTimer.jsx:65-68 | only while running above 0, and by exactly one second; never below 0 |
| PomodoroTimer.CompleteStep | frontend/src/components/PomodoroTimer.jsx:79-88 | stops the timer; rounds grow by one in focus mode only |
| PomodoroTimer.ToggleStep | frontend/src/components/PomodoroTimer.jsx:95-97 | flips isRunning and nothing else |
| PomodoroTimer.ResetStep | frontend/src/components/PomodoroTimer.jsx:99-103 | stopped at the mode's minutes × 60; mode and rounds unchanged |
| PomodoroTimer.ChangeModeStep | frontend/src/components/PomodoroTimer.jsx:105-110 | the new mode, stopped, at its minutes × 60; rounds unchanged |
| PomodoroTimer.TicksStopAtZero | frontend/src/components/PomodoroTimer.jsx:64-78 | n ticks take a running countdown down by n, stopping at 0 |
| PomodoroTimer.FocusSessionCountsTwoRounds | frontend/src/components/PomodoroTimer.jsx:64-88 | as written, the effect re-run after every change of `[isRunning, timeLeft]` ends a focus session stopped at 0 with two more rounds |
| PomodoroTimer.EffectStep | frontend/src/components/PomodoroTimer.jsx:64-78 | one run of the effect as written; `RoundsOnlyInFocus` and `FocusSessionCountsTwoRounds` state what repeated runs do to the rounds |
| PomodoroTimer.IntendedEffectStep | frontend/src/components/PomodoroTimer.jsx:64-78 | the corrected effect completes only a running timer: it adds at most one round and leaves a stopped timer as it is |
| PomodoroTimer.FocusSessionCountsOneRound | frontend/src/components/PomodoroTimer.jsx:64-88 | with the corrected effect, re-run the same way, a focus session ends stopped at 0 with exactly one more round |
| PomodoroTimer.RoundsOnlyInFocus | frontend/src/components/PomodoroTimer.jsx:84-87 | outside focus mode no step changes the rounds |
| PomodoroTimer.ToggleTwice | frontend/src/components/PomodoroTimer.jsx:95-97 | toggling twice is the identity |
| PomodoroTimer.ResetAfterChangeMode | frontend/src/components/PomodoroTimer.jsx:99-110 | a reset right after a mode change changes nothing |
| PomodoroTimer.Timer.constructor | frontend/src/components/PomodoroTimer.jsx:28-40 | focus mode, 1500 seconds, stopped, 0 rounds, default settings |
| PomodoroTimer.Timer.Tick | frontend/src/components/PomodoroTimer.jsx:66-68 | the new state is one tick of the old |
| PomodoroTimer.Timer.Complete | frontend/src/components/PomodoroTimer.jsx:79-88 | the new state is the completion step of the old |
| PomodoroTimer.Timer.RunEffect | frontend/src/components/PomodoroTimer.jsx:64-78 | one run of the effect: a tick while running above 0, the completion at 0 |
| PomodoroTimer.Timer.ToggleTimer | frontend/src/components/PomodoroTimer.jsx:95-97 | the new state is the toggle step of the old |
| PomodoroTimer.Timer.ResetTimer | frontend/src/components/PomodoroTimer.jsx:99-103 | the new state is the reset step of the old |
| PomodoroTimer.Timer.ChangeMode | frontend/src/components/PomodoroTimer.jsx:105-110 | the new state is the mode-change step of the old |
| PomodoroTimer.Timer.SetDuration | frontend/src/components/PomodoroTimer.jsx:253-279 | only the edited setting changes, to the parsed input or its default 25, 5 or 15 |
| PomodoroTimer.Timer.ToggleSound | frontend/src/components/PomodoroTimer.jsx:286 | only the sound switch flips |
| PomodoroTimer.ParseIntPrefix | frontend/src/components/PomodoroTimer.jsx:256 | a digit string parses as its value |
| PomodoroTimer.DurationInput | frontend/src/components/PomodoroTimer.jsx:256 | never 0 for a non-zero default; otherwise the default or the parsed number |
| PomodoroTimer.DurationInputRoundTrip | frontend/src/components/PomodoroTimer.jsx:256-276 | a positive typed number is taken as is; 0 or an empty input gives the default |
| PomodoroTimer.FormatTimeFields | frontend/src/components/PomodoroTimer.jsx:112-116 | for mins·60 + secs seconds with secs < 60 the text is the padded `mm:ss` of those fields and reads back as the seconds |
| PomodoroTimer.FormatTime | frontend/src/components/PomodoroTimer.jsx:112-116 | `FormatTimeFields`: the text is the padded minutes and seconds, which read back as the time left |
| PomodoroTimer.Progress | frontend/src/components/PomodoroTimer.jsx:118-122 | undefined exactly for a 0-minute mode; within 0..100, 0 at full length and 100 at 0 |
| LandingPage.AddTask | frontend/src/pages/LandingPage.jsx:34-46 | a blank title changes nothing; otherwise one task, not done, is appended |
| LandingPage.ToggleTask | frontend/src/pages/LandingPage.jsx:48-50 | done flips on the matching id only |
| LandingPage.ToggleTwice | frontend/src/pages/LandingPage.jsx:48-50 | toggling twice is the identity |
| LandingPage.DeleteTask | frontend/src/pages/LandingPage.jsx:52-54 | exactly the tasks with other ids remain, in order, each as often as before |
| LandingPage.CompletedCount | frontend/src/pages/LandingPage.jsx:56 | at most the length, equal exactly when every task is done |
| LandingPage.ProgressPercentage | frontend/src/pages/LandingPage.jsx:57 | 0 for an empty list; within 0..100; 100 exactly when a non-empty list is all done |
| LandingPage.AddKeepsCompleted | frontend/src/pages/LandingPage.jsx:34-56 | adding keeps the done count and grows the list by one |
| LandingPage.ToggleOpenTask | frontend/src/pages/LandingPage.jsx:48-56 | with unique ids, ticking off an open task raises the done count by one |
| LandingPage.UntouchedCount | frontend/src/pages/LandingPage.jsx:48-50 | toggling an id no task has changes nothing |
| Text.BlankIffAllWhitespace | frontend/src/pages/LandingPage.jsx:35 | `!text.trim()` holds exactly when every character is white space |
| Text.PadIntRoundTrip | frontend/src/components/PomodoroTimer.jsx:115 | a number padded with zeros reads back as the number |
| Text.ToNumber | frontend/src/pages/DayPlanner.jsx:142-143 | `Number()` of trimmed text; `ToNumberPadInt` proves a number padded with zeros to two digits reads back as that number |
| Text.ToNumberPadInt | frontend/src/pages/DayPlanner.jsx:142-143 | `Number()` of a number padded with zeros to two digits is that number |
| Seqs.Splice | frontend/src/pages/HabitTracker.jsx:185-186 | the spliced array keeps the elements before `start`, then holds the inserted items, then the elements after the deleted run; its length shrinks by the deleted count and grows by the items; `MovedIsPermutation` proves the drag's two splices are a permutation |

## Left out

- Storage. Loading from and saving to `localStorage` is not modelled: the JSON encoding, the skip-first-save refs, the `parseInt` of the stored rounds and the parse-error handling. Each collection is an in-memory value.
- Dates are local (year, month, day) triples. `toISOString()` formats in UTC, so in other time zones the real date key can be the neighbouring day. `createdAt` is taken as its ISO text, and its date part is read off that text.
- Clock values. `Date.now()` ids and `new Date()` timestamps are parameters, and ids are not assumed unique. The "today" checks and "go to today" read the clock and are not modelled.
- `window.confirm` is the `confirmed` parameter of `HabitTracker.DeleteHabit`.
- Display text. `toLocaleDateString` labels, markup, the progress ring and the random quote are not modelled. Neither are the completion sound, the DebugPanel, Footer and Navigation components, or App routing.
- Timing. `setInterval` timing is replaced by explicit tick and completion steps.
- PomodoroTimer.Timer.RunEffect: models one run of the effect as written. React's re-runs after a change of `[isRunning, timeLeft]` are not driven by the class; `PomodoroTimer.Settle` models them over the step functions, and `PomodoroTimer.FocusSessionCountsTwoRounds` shows the second completion they cause.
- Unused settings. `roundsUntilLongBreak` and `autoNext` are never read, so they are not fields of `Settings`.
- Dates.MakeDate: `new Date(y, m, d)` maps the years 0..99 to 1900..1999, and a JavaScript date is limited to ±8.64e15 ms around 1970. Neither is modelled: years are taken as given and unbounded.
- Percentages are `real`, not IEEE doubles, so rounding is not modelled.
- Text.ToNumber: models `Number()` on trimmed text that is empty or an optional `-` followed by digits. Any other text is `NaN`, including a leading `+`, decimals, hex, exponents and `Infinity`.
- PomodoroTimer.ParseIntPrefix: the `0x` hexadecimal prefix that `parseInt` accepts without a radix is not modelled.
- DayPlanner.SortByStart: `localeCompare` is modelled as code-point order, and stability is not stated. Its partner `DayPlanner.ClockOrder` covers zero-padded `HH:MM` texts, where the two orders agree.
- HabitTracker.HandleDrop: the permutation is stated only when the dragged habit is the one stored first under its id. A dragged habit missing from the list makes `splice(-1, 1)` cut the last habit. The model does that, but no property is stated for it.
- HabitTracker.ActualCompletions: the intended count is bounded by the ledger size, and its meaning is given by `HabitTracker.CompletionCountedInItsMonth` for a one-entry ledger. It is not proved to be at most habits × days, which would need an invariant on the ledger's keys.
- HabitTracker.CompletionPercentage: the bound of 100 is stated only when the count is at most habits × days.
- DayPlanner.DropKeepsDuration: stated for a new end at or after midnight. Before midnight the `%` gives a negative minute field, which the statement does not describe.
- CalendarView.MonthGrid: the last grid day is stated by its day number. `Dates.DayNumberOrder` makes that the same date as the grid end.
- Hour labels. `DayPlanner.FormatTime` is stated through its round trip for the hours 0..23; the timeline uses 6..23.
- Category lists and colours are display constants and are not modelled. Only the per-category count is.

## Findings

| source | as written | input that shows it | evidently intended | confidence | as-written member | corrected member |
|---|---|---|---|---|---|---|
| frontend/src/pages/HabitTracker.jsx:142-145 | `key.split('-')` binds the date key to the second dash-separated field, which is only the year, and the test `startsWith(monthKey)` needs a dash, so the month's completion count is always 0 | the ledger `{"1-2024-05-06": true}` with month key `2024-05` counts 0 | the whole date key after the first dash is tested, so that completion counts 1 | high, not executed | HabitTracker.ActualCompletionsAsWritten | HabitTracker.ActualCompletions |
| frontend/src/pages/HabitTracker.jsx:107-111 | `setMonth(getMonth() + delta)` keeps the day of the month and rolls over when the target month is shorter | moving from the 31st of January by +1 shows March (the 3rd, or the 2nd in a leap year) and skips February | moving to the month delta months away, anchored on the 1st | high, not executed | Dates.ChangeMonthAsWritten | Dates.ShiftMonth |
| frontend/src/components/PomodoroTimer.jsx:64-88 | `handleTimerComplete` stops the timer while `timeLeft` stays 0; the effect on `[isRunning, timeLeft]` runs again, and since its completion branch does not test `isRunning` it completes a second time | a running focus session with 1 second left and 3 rounds ends with 5 rounds (and the sound plays twice) | complete only a running timer, so a focus session adds one round | high, not executed | PomodoroTimer.FocusSessionCountsTwoRounds | PomodoroTimer.FocusSessionCountsOneRound |
