# Daily task calendar: a Dafny model of its data core

The application is a calendar-based daily task tracker. A user picks a day
in a month grid and edits that day's list of short tasks in a dialog: add,
toggle completed, delete. The page keeps every list in one store keyed by
day. From that store it derives:

- the colour of each calendar cell (grey future day, red day without tasks,
  green day with everything done, yellow otherwise), with up to three dots
  and a "+n" label for the day's tasks;
- today's progress percentage;
- this week's completed and total counts and its completion rate;
- the month's "missed" (red) days, of which the panel lists the first five;
- lifetime totals over the whole store.

This project models that core as pure Dafny functions over immutable data
and proves what the application promises about it.

Modules, one per concern:

- `Wrappers` holds `Option`.
- `Dates` models the calendar arithmetic the application borrows from its
  date library. A day is a proleptic Gregorian civil date. The ordinal is
  its Rata Die number, which is proved injective and order-preserving. The
  weekday is the ordinal modulo 7, with Sunday as 0. Also here: start and
  end of week (Sunday-start), first and last day of a month, same-month
  test, and the run of every day of an interval.
- `Tasks` models the three list edits of the dialog. It also holds the
  ECMAScript `trim` over its white-space set and the completed count.
- `Stats` holds completed/total pairs and the rounded percentage.
- `Store` models the day-keyed store. It covers the lookup with an empty
  default, the one-entry update, today's progress, and the lifetime totals
  as a sum over every entry.
- `Calendar` models the day colour, the month grid and the cells.
- `SidePanel` models the weekly totals and rate, the missed days and their
  display slice.
- `Dialog` models the task dialog as a state machine. It holds the dialog's
  local list and input text, and the list each edit hands to the page.
- `Page` models the page holding store and dialog. It covers the click
  handler, the update callback, the resync of the dialog from the store,
  and the add-then-delete round trip observed through the day lists, the
  grid cells, the weekly totals, the missed days, today's progress and the
  lifetime totals.
- `Scenarios` works concrete days through the general model.

Inputs that come from outside the model are parameters:

- "today" and "now" are calendar days passed in by the caller;
- the identifier `crypto.randomUUID()` would produce is the `freshId`
  parameter of the add action.

The store is keyed by the `Day` itself. The source keys it by the string
`format(date, 'yyyy-MM-dd')`, which is one-to-one on the days of years 1
and later.

A task is `{id, text, completed}`. Percentages are rounded with
`Math.round`, which rounds halves up. Every edit replaces the day's list in
the page's in-memory store.

## Model

| member | source | states |
|---|---|---|
| Tasks.Trim | src/components/TaskModal.tsx:29 | the trimmed text is a contiguous slice of the input with only white space cut off either side, and it neither starts nor ends with white space |
| Tasks.TrimEmptyIff | src/components/TaskModal.tsx:29 | trimming leaves nothing exactly when the input is all white space, so that is exactly the input the add rejects |
| Tasks.TrimIdempotent | src/components/TaskModal.tsx:32 | the stored task text is already trimmed: trimming it again changes nothing |
| Tasks.CompletedCount | src/components/TaskModal.tsx:74 | the completed count is at most the list length, equals it exactly when every task is completed, and is 0 exactly when none is |
| Tasks.CompletedCountAppend | src/components/TaskModal.tsx:74 | the completed count of two lists joined is the sum of their counts |
| Tasks.Summarize | src/components/TaskModal.tsx:152-156 | header and footer show the list length and the completed count of the list, completed never exceeds total and equals it exactly when every task is done, and the footer shows exactly for a non-empty list |
| Tasks.AddTask | src/components/TaskModal.tsx:28-40 | blank text (after trimming) yields no new list; otherwise the old list is kept as a prefix and exactly one unfinished task with the fresh id and the non-empty trimmed text is appended |
| Tasks.ToggleTask | src/components/TaskModal.tsx:42-45 | length, order, ids and texts are kept, and `completed` flips on exactly the tasks carrying the id |
| Tasks.ToggleInvolution | src/components/TaskModal.tsx:42-45 | toggling the same id twice gives back the original list |
| Tasks.ToggleAbsent | src/components/TaskModal.tsx:43-45 | toggling an id no task carries leaves the list unchanged |
| Tasks.DeleteTask | src/components/TaskModal.tsx:50-51 | a task survives exactly when it was in the list and does not carry the id; the list never grows |
| Tasks.DeleteAppend | src/components/TaskModal.tsx:51 | deleting distributes over concatenation, so survivors keep their original order |
| Tasks.DeleteSingle | src/components/TaskModal.tsx:51 | a one-task list loses its task exactly when the task carries the id |
| Tasks.DeleteAbsent | src/components/TaskModal.tsx:51 | deleting an id no task carries leaves the list unchanged |
| Tasks.AddThenDelete | src/components/TaskModal.tsx:28-54 | adding a task with a fresh id and then deleting that id restores the original list |
| Dialog.Step | src/components/TaskModal.tsx:28-54 | every edit hands the callback exactly the list the dialog now keeps; a blank add or typing calls nothing and keeps the list; a non-blank add clears the input and appends the trimmed task; toggle and delete hand over the toggled or filtered list and keep the input text |
| Dialog.CountsAfterStep | src/components/TaskModal.tsx:74 | after any edit the completed count shown is at most the task count, and a successful add raises the task count by one and leaves the completed count as it was |
| Stats.DayTotals | src/components/SidePanel.tsx:22-26 | a day's contribution has at most as many completed tasks as tasks |
| Stats.Percent | src/pages/Index.tsx:48 | for a positive total, the percentage is the integer nearest to 100 times completed over total, halves rounding up; 0 for a zero total; at most 100 while completed does not exceed total |
| Stats.RoundHalfUp | src/pages/Index.tsx:48 | the integer quotient (200c + t) / 2t is within one half of 100c/t, and at most 100 when c does not exceed t |
| Stats.PercentEnds | src/pages/Index.tsx:48 | the rounded percentage is exactly 100 when everything is completed and 0 when nothing is |
| Stats.PercentMonotone | src/pages/Index.tsx:48 | completing more tasks never lowers the percentage |
| Store.UpdateDay | src/pages/Index.tsx:35-41 | the update gives the day exactly the given list (an empty one included), adds no other key, and leaves every other day's list unchanged |
| Store.UpdateTwice | src/pages/Index.tsx:37-40 | a later update of the same day overrides an earlier one |
| Store.TodayProgress | src/pages/Index.tsx:43-49 | progress is 0 when today has no tasks (missing or empty entry); otherwise it is within one half of 100 times completed over total; never above 100 |
| Store.TodayProgressEnds | src/pages/Index.tsx:46-48 | with tasks today, progress is 100 when all are completed and 0 when none is |
| Store.ProgressSameDays | src/pages/Index.tsx:44-45 | two stores that give today the same list give the same progress |
| Store.SumOverRemove | src/components/SidePanel.tsx:125 | the lifetime sum does not depend on the order the entries are visited: any entry can be added first |
| Store.SumOverAgree | src/components/SidePanel.tsx:125 | the sum over a set of days only reads those days' entries |
| Store.LifetimeTotals | src/components/SidePanel.tsx:125-134 | the loop computes the sum of every entry's task count and completed count, takes no date, and its completed total never exceeds its task total |
| Store.UpdateDayTotals | src/pages/Index.tsx:35-41 | replacing one day's list changes the lifetime totals by exactly the old list's counts out and the new list's counts in |
| Store.EmptyEntryTotals | src/pages/Index.tsx:37-40 | storing an empty list for a day without an entry leaves the lifetime totals unchanged |
| Store.WriteBack | src/pages/Index.tsx:35-41 | writing a day's current list back changes no day's list and no lifetime total |
| Dates.OrdinalOrder | src/components/SidePanel.tsx:35 | comparing ordinals is comparing days in (year, month, day) order, the order the date comparison uses, so runs ordered by ordinal are in calendar order |
| Dates.OrdinalInjective | src/components/SidePanel.tsx:35 | two days with the same ordinal are the same day |
| Dates.WeekStart | src/components/Calendar.tsx:28 | the start of the week is a Sunday, exactly the weekday's number of days before the given day |
| Dates.WeekEnd | src/components/Calendar.tsx:29 | the end of the week is a Saturday, exactly six minus the weekday's number of days after the given day |
| Dates.InMonthIff | src/components/Calendar.tsx:97 | a day is in the month of another exactly when its ordinal lies between that month's first and last days |
| Dates.Interval | src/components/Calendar.tsx:31 | the interval holds every day from start to end, each once, in calendar order, one day apart, and no other day |
| Calendar.DayStateOf | src/components/Calendar.tsx:33-52 | grey exactly for days after today; red exactly for days up to today without tasks; green exactly for days up to today with tasks all completed; yellow exactly for days up to today with an unfinished task |
| Calendar.TodayNotFuture | src/components/Calendar.tsx:37 | today is never grey |
| Calendar.MissingLikeEmpty | src/components/Calendar.tsx:35 | a day stored with an empty list colours every day exactly as when it has no entry |
| Calendar.StateLocal | src/components/Calendar.tsx:34-35 | a day's colour depends only on its own list: updating another day leaves it as it was |
| Calendar.StateSameDays | src/components/Calendar.tsx:34-35 | two stores that give a day the same list give it the same colour |
| Calendar.MonthGrid | src/components/Calendar.tsx:26-31 | the grid runs from the start of the week of the month's first day to the end of the week of its last, day by day in calendar order, and holds exactly the days in between |
| Calendar.MonthGridLength | src/components/Calendar.tsx:26-31 | the grid is a whole number of weeks, four to six of them |
| Calendar.MonthGridEnds | src/components/Calendar.tsx:28-29 | the grid starts on a Sunday less than a week before the 1st and ends on a Saturday less than a week after the last day |
| Calendar.MonthGridColumns | src/components/Calendar.tsx:86-96 | the grid cell at position i falls on weekday i mod 7, matching the Sunday-first column headers |
| Calendar.MonthGridCovers | src/components/Calendar.tsx:26-31 | every day of the month has a cell in the grid |
| Calendar.IndicatorFor | src/components/Calendar.tsx:116-123 | a cell shows min(n, 3) dots and a "+(n - 3)" label exactly when n > 3, so dots and label account for every task |
| Calendar.CellFor | src/components/Calendar.tsx:96-123 | a cell carries its day, that day's colour, full opacity exactly for days of the displayed month, the ring exactly for today, and the indicator of min(n, 3) dots and the "+(n-3)" label exactly when the day has n > 3 tasks |
| Calendar.FullOpacityCells | src/components/Calendar.tsx:97-107 | a day is drawn at full opacity somewhere in the grid exactly when it is in the displayed month |
| Calendar.CellsOnce | src/components/Calendar.tsx:96-104 | no day is drawn in two cells of the grid |
| SidePanel.WeekDaysRange | src/components/SidePanel.tsx:11-16 | the week of `now` is seven days in calendar order, holds `now`, and holds exactly the days from its Sunday to its Saturday |
| SidePanel.WeekDaysColumns | src/components/SidePanel.tsx:11-16 | the week's days run Sunday to Saturday |
| SidePanel.Tally | src/components/SidePanel.tsx:20-29 | the summed counts over a run of days never have more completed tasks than tasks |
| SidePanel.TallyAppend | src/components/SidePanel.tsx:20-29 | the tally of two runs joined is the sum of their tallies |
| SidePanel.TallyEmptyEntry | src/components/SidePanel.tsx:22 | a day without an entry adds nothing, exactly like a day with an empty list |
| SidePanel.TallyOtherDay | src/components/SidePanel.tsx:20-22 | changing a day outside the run leaves its tally alone |
| SidePanel.TallySameDays | src/components/SidePanel.tsx:20-29 | two stores that give every day the same list have the same weekly counts |
| SidePanel.Accumulate | src/components/SidePanel.tsx:20-29 | the loop accumulates exactly the tally of the run, day by day |
| SidePanel.WeeklyStats | src/components/SidePanel.tsx:11-29 | the weekly counts are the tally of the seven days of the week of `now`, and completed never exceeds total |
| SidePanel.WeeklyCompletionRate | src/components/SidePanel.tsx:38-40 | 0 for an empty week; otherwise within one half of 100 times completed over total; at most 100; exactly 100 when everything is completed |
| SidePanel.KeepMissed | src/components/SidePanel.tsx:32-36 | the filter keeps exactly the days of the run that are not after `now` and have no tasks, and never lengthens the run |
| SidePanel.KeepMissedChronological | src/components/SidePanel.tsx:32 | filtering a run in calendar order keeps calendar order |
| SidePanel.MissedDays | src/components/SidePanel.tsx:13-17 | a day is listed exactly when it is in the month of `now`, not after `now` (today included) and without tasks; the list is in calendar order without repetition |
| SidePanel.MissedSameDays | src/components/SidePanel.tsx:32-36 | two stores that give every day the same list have the same missed days |
| SidePanel.MissedSingleton | src/components/SidePanel.tsx:32-36 | when `now` is the only missed day, the list is exactly that day |
| SidePanel.MissedViewOf | src/components/SidePanel.tsx:86-108 | "Perfect month!" exactly when nothing is missed; the first min(n, 5) missed days are listed, in order; the "+n more" note appears exactly when more than five are missed and reads n - 5 |
| SidePanel.AddingTaskClearsMissed | src/pages/Index.tsx:35-41 | giving a day tasks takes it off the missed list and leaves every other day's standing alone |
| Page.ClickDay | src/pages/Index.tsx:86-93 | clicking a day opens the dialog on it with an empty input and the stored list, or the empty list for a day without an entry, in sync with the store |
| Page.Dispatch | src/pages/Index.tsx:86-93 | the dialog after an action is the one the edit produced; an edit that calls back stores the dialog's list under the dialog's day and nothing else; an edit that does not call back leaves the store alone; the dialog stays in sync with the store |
| Page.ReopenShowsLastEdit | src/pages/Index.tsx:90-92 | closing the dialog after an edit and clicking the same day again shows the list the edit left |
| Page.ResyncIsNoOp | src/components/TaskModal.tsx:24-26 | copying the stored list back into the dialog after a callback changes nothing the dialog shows; a corollary of the resync half of `Page.Dispatch`'s contract |
| Page.AddThenDeleteStore | src/pages/Index.tsx:35-41 | adding a task with a fresh id and deleting it again leaves every day's list and the lifetime totals as they were, even for a day that had no entry |
| Page.AddThenDeleteOnPage | src/pages/Index.tsx:35-49 | after such an add and delete, no day's list or grid cell, the weekly totals, the missed days, today's progress and the lifetime totals differ from before |
| Scenarios.HalfDoneDay | src/components/Calendar.tsx:45-51 | 2024-06-10 holding one finished and one unfinished task, seen that day, is yellow with progress 50 |
| Scenarios.EmptyToday | src/components/Calendar.tsx:37-43 | today without tasks, whether missing or stored empty, is red, not grey |
| Scenarios.ClearDay | src/pages/Index.tsx:37-40 | storing an empty list for a day with three tasks leaves it with none and lowers the lifetime task total by three |
| Scenarios.OnlyTodayMissed | src/components/SidePanel.tsx:32-36 | with June 1-5 holding tasks and the 6th (today) holding none, the missed list is exactly the 6th |
| Scenarios.NearlyDoneRoundsToFull | src/pages/Index.tsx:48 | 199 of 200 tasks done rounds up to 100 percent |

## Left out

- Markup, class strings and styling, the theme toggle and its stored preference, and the progress bar component. These are presentation and I/O, not logic.
- React state and effects. The dialog and page are state machines of pure functions. The dialog's resync effect is modelled inside `Page.Dispatch`.
- `crypto.randomUUID()` is a parameter of the add action. The round trips assume the id is not already in the list.
- The clock is not modelled. "today" and "now" are days supplied by the caller, and time of day is not modelled. Grid days start at midnight, so "future and not today" means "after today", and a day is "on or before now" when it is not after today.
- The `'yyyy-MM-dd'` key format is not modelled. The store is keyed by the day, which the format identifies one-to-one from year 1 on. Before year 1 the format prints the era year, so year y and year 1 - y share keys; the model keeps those days apart.
- Month navigation (`addMonths` and `subMonths`) is not modelled. The grid takes the displayed month's day as a parameter.
- Persistence is not modelled: the page keeps the store in memory.
- Stats.Percent: uses exact rational rounding rather than floating-point division followed by `Math.round`. At an exact half the two can differ by one when the double quotient falls just below the half.
- Dates.Interval: requires the interval not to end before it starts. Every call site passes an interval in order.
- The progress bar width in the dialog footer is a floating-point percentage without rounding, and it is not modelled.
- The day-of-month text, the date header and the legend are display only and are not modelled.
