# grow_spiritually — a Dafny model of the ministry-task tracker

grow_spiritually is a phone web app for logging ministry work (evangelism,
prayer, bible study, meditation, literature, fellowship, other) as tasks with
a start/pause timer. This project models its core in Dafny:

- the **task store** (`TaskStore`): creating, patching and deleting tasks,
  starting and pausing the timer, switching the running session between
  sub-categories, and adding custom sub-category names. Every operation is a
  pure function over an immutable list of tasks that takes the current instant
  `now` (integer milliseconds) and, where the source draws a fresh id, that id
  as a parameter;
- the **summary calculator** (`TaskUtils`): the two duration formatters, the
  category labels, live elapsed time, and the daily and weekly roll-ups with a
  breakdown over all seven categories;
- the **data model** (`TaskTypes`): categories, default sub-categories,
  sessions, detail records, tasks, summaries, and the ledger invariant the
  store keeps (the total time is the sum of the sessions, and each
  sub-category entry is the time of the sessions tagged with its name);
- the small pure rules inside the screens: the weekly meeting banner
  (`UpcomingMeeting`), the sub-category picker and its breakdown
  (`SubCategorySelector`), the new-task form (`CreateTaskSheet`), the counter
  buttons of a task card (`TaskCard`), the report folds (`ReportsView`) and the
  task list filter (`TasksView`).

Supporting modules: `Base` (Option, order-preserving filter, subsequences),
`JsText` (the JavaScript number-to-string, padding, splitting, trimming and
lower-casing the source relies on, plus readers that parse the rendered text
back) and `Calendar` (local days and Sunday-first weeks in a fixed-offset
zone).

Each text formatter (the clock and compact durations, the breakdown time, the
12-hour meeting label and the meeting countdown) is paired with a reader and
proved to round-trip; each store operation is proved to leave tasks with
other ids alone and, except `updateTask`, to keep the ledger invariant.
`updateTask` merges whatever patch it is given: it keeps the invariant only
for a patch that leaves the id and the timer and ledger fields alone
(`TaskStore.UpdateTaskPreserves`), and a patch that sets the total to anything
but the session sum breaks it (`TaskStore.UpdateTaskCanBreakLedger`), as it
does in the source. Each fold is related to an independent reference
definition.

## Model

| member | source | states |
|---|---|---|
| TaskTypes.CategoriesComplete | src/types/task.ts:1-8 | There are exactly seven categories, all distinct, and every category is in the list. |
| TaskTypes.DefaultSubCategoriesWellFormed | src/types/task.ts:11-19 | Each category's default list is non-empty, its names are non-empty, and the names are pairwise distinct. |
| TaskTypes.ElapsedSeconds | src/lib/taskUtils.ts:68-70 | The elapsed whole seconds are the floor of the millisecond difference over 1000. |
| TaskTypes.TaggedTotalUnused | src/types/task.ts:56-62 | A name that tags no session has zero tagged time. |
| Base.Filter | src/hooks/useTaskStore.ts:76-78 | The kept elements are exactly those satisfying the predicate, in their original order, and there are no more of them than in the input. |
| Base.FilterIdempotent | src/components/views/TasksView.tsx:39-44 | Filtering a filtered list again with the same predicate changes nothing. |
| Calendar.StartOfDay | src/lib/taskUtils.ts:78 | Midnight of the instant's local day: at or before it, less than a day before it, and on the same day. |
| Calendar.EndOfDay | src/lib/taskUtils.ts:79 | The last millisecond of the instant's local day: the next millisecond is on the next day. |
| Calendar.WithinDay | src/lib/taskUtils.ts:81-83 | An instant lies between the day's start and end, inclusive, exactly when it falls on the same local day. |
| Calendar.WeekStart | src/lib/taskUtils.ts:112 | The week's start is midnight of the Sunday on or before the date: it falls on the week's first local day at time of day zero. |
| Calendar.WeekEnd | src/lib/taskUtils.ts:113 | The week's end is on a Saturday, seven days less a millisecond after the week's start, and not before the date's day end. |
| Calendar.WeekDayDate | src/lib/taskUtils.ts:128 | The k-th day after the week's start is on weekday k and on the k-th local day of that week. |
| Calendar.AddDaysShiftsDay | src/components/views/ReportsView.tsx:24-26 | Adding k days moves the local day by exactly k and keeps the time of day. |
| TaskStore.NewTask | src/hooks/useTaskStore.ts:44-65 | The new task has the given id and creation time and no sessions, time or timer. Its title falls back to 'Untitled Task' when missing or empty, and its category falls back to other. Its description, location, notes and five detail records are the given ones. It is well formed. |
| TaskStore.CreateTask | src/hooks/useTaskStore.ts:44-66 | The new task is put in front of the unchanged list. |
| TaskStore.CreateTaskPreserves | src/hooks/useTaskStore.ts:44-66 | Creating a task keeps every task well formed, and keeps ids unique when the new id is fresh. |
| TaskStore.Merge | src/hooks/useTaskStore.ts:68-74 | Object-spread merge: every field the patch gives takes the patch's value, every field it omits keeps the task's, and the update time is set to now. |
| TaskStore.MergeIdempotent | src/hooks/useTaskStore.ts:68-74 | Applying the same patch twice is the same as applying it once. |
| TaskStore.MergeEmpty | src/hooks/useTaskStore.ts:68-74 | An empty patch only bumps the update time. |
| TaskStore.MergeKeepsWellFormed | src/hooks/useTaskStore.ts:68-74 | A patch that leaves the timer and ledger fields alone keeps the task well formed. |
| TaskStore.UpdateTask | src/hooks/useTaskStore.ts:68-74 | Tasks with the id are patched and every other task is unchanged. |
| TaskStore.UpdateTaskPreserves | src/hooks/useTaskStore.ts:68-74 | A patch that leaves the id, timer and ledger alone keeps the store well formed and its ids unique. |
| TaskStore.UpdateTaskCanBreakLedger | src/hooks/useTaskStore.ts:68-74 | The update does not guard the ledger: a patch that sets a task's total to anything but its session sum leaves the store not well formed. |
| TaskStore.DeleteTask | src/hooks/useTaskStore.ts:76-78 | The result holds exactly the tasks whose id differs, in their order. |
| TaskStore.DeleteTaskIdempotent | src/hooks/useTaskStore.ts:76-78 | Deleting twice is deleting once. |
| TaskStore.DeleteTaskPreserves | src/hooks/useTaskStore.ts:76-78 | Deleting keeps the store well formed and its ids unique. |
| TaskStore.FindIndex | src/hooks/useTaskStore.ts:113-115 | The result is the first entry with the name, or -1 exactly when no entry has it. |
| TaskStore.CreditAmounts | src/hooks/useTaskStore.ts:111-127 | Crediting a duration to a name adds it to that name's amount and leaves every other name's amount alone. |
| TaskStore.CreditNames | src/hooks/useTaskStore.ts:111-127 | After crediting, the names are the old names plus the credited one, and they stay unique and non-empty. |
| TaskStore.CreditSessionEntries | src/hooks/useTaskStore.ts:111-127 | Crediting a closed session keeps every entry equal to the time tagged with its name. |
| TaskStore.ClosingSession | src/hooks/useTaskStore.ts:98-108 | The closing session has the given id, runs from the recorded start to now, carries the current sub-category, and lasts the whole seconds in between. |
| TaskStore.Close | src/hooks/useTaskStore.ts:98-137 | Recording keeps the earlier sessions and appends the closing session, adds its duration to the total, credits it to the breakdown and sets the update time to now; nothing else changes. |
| TaskStore.Start | src/hooks/useTaskStore.ts:80-92 | An idle task starts at now. A running task is returned unchanged, so its start instant is kept. Only the timer fields and the update time can change. |
| TaskStore.StartFacts | src/hooks/useTaskStore.ts:80-92 | Starting keeps a task well formed, and starting twice is starting once. |
| TaskStore.Pause | src/hooks/useTaskStore.ts:94-141 | A running task gets exactly one new session from its start to now, tagged with the current sub-category and lasting the elapsed whole seconds. The same duration is added to its total, the session is credited to its sub-category's breakdown entry, the update time is now and the timer is cleared. Any other task is unchanged, and no field outside the timer, sessions, total, breakdown and update time ever changes. |
| TaskStore.PauseKeepsWellFormed | src/hooks/useTaskStore.ts:98-136 | Pausing keeps the ledger invariant: the total is the sum of the sessions and each breakdown entry is its tagged time. |
| TaskStore.PauseKeepsLiveTime | src/hooks/useTaskStore.ts:94-141 | Pausing at now does not change the task's live total at now. |
| TaskStore.StartThenPause | src/hooks/useTaskStore.ts:80-141 | Starting an idle task and pausing it adds one session and exactly the elapsed seconds to its total. |
| TaskStore.Switch | src/hooks/useTaskStore.ts:170-229 | A running task with a named sub-category and positive elapsed time keeps its earlier sessions and gets one more, from its start to now, tagged with the old name and credited to its breakdown; then it restarts at now. Otherwise a running task restarts at now without recording, and an idle task keeps its start field. Either way the new name becomes current, and no field outside the timer, sub-category, sessions, total, breakdown and update time changes. |
| TaskStore.SwitchKeepsWellFormed | src/hooks/useTaskStore.ts:176-213 | Switching keeps the task well formed. |
| TaskStore.SwitchLiveTime | src/hooks/useTaskStore.ts:170-229 | A recording switch keeps the live total. A non-recording switch of a running task discards the elapsed seconds. An idle task's total is unchanged. |
| TaskStore.AddCustom | src/hooks/useTaskStore.ts:232-246 | The name is appended to the custom list unless it is already there, in which case the task is unchanged. Only the custom list and the update time can change. |
| TaskStore.AddCustomFacts | src/hooks/useTaskStore.ts:232-246 | Adding the same name twice is adding it once, and the custom names stay distinct. |
| TaskStore.StartTimer | src/hooks/useTaskStore.ts:80-92 | Tasks with the id are started and every other task is unchanged. |
| TaskStore.PauseTimer | src/hooks/useTaskStore.ts:94-141 | Tasks with the id are paused and every other task is unchanged. |
| TaskStore.ChangeSubCategory | src/hooks/useTaskStore.ts:170-229 | Tasks with the id are switched and every other task is unchanged. |
| TaskStore.AddCustomSubCategory | src/hooks/useTaskStore.ts:232-246 | Tasks with the id get the custom name and every other task is unchanged. |
| TaskStore.TimerOperationsPreserve | src/hooks/useTaskStore.ts:80-246 | Start, pause, switch and add-custom keep every task well formed and the ids unique. |
| TaskStore.PauseTimerStopsTask | src/hooks/useTaskStore.ts:94-145 | After pausing an id, no task with that id is among the active tasks. |
| TaskStore.StartTimerStartsTask | src/hooks/useTaskStore.ts:80-145 | After starting an id, every task with that id is among the active tasks. |
| TaskStore.ActiveTasks | src/hooks/useTaskStore.ts:143-145 | Exactly the running tasks, in order. |
| TaskStore.TodayTasks | src/hooks/useTaskStore.ts:147-156 | Exactly the tasks created on the same local day as now, in order. |
| TaskStore.TasksByCategory | src/hooks/useTaskStore.ts:158-160 | Exactly the tasks of the category, in order. |
| TaskStore.TasksByDateRange | src/hooks/useTaskStore.ts:162-167 | Exactly the tasks created within the inclusive range, in order. |
| TaskStore.TodayTasksAgree | src/hooks/useTaskStore.ts:147-167 | Today's tasks are the date-range query from today's start to its end, and the daily summary's task list for now. |
| TaskStore.TasksByCategoryTime | src/hooks/useTaskStore.ts:158-160 | The live time of a category's tasks is that category's breakdown figure. |
| TaskStore.TimerScenario | src/hooks/useTaskStore.ts:44-141 | A new task started at 1 s and paused at 126 s has one session, 125 seconds, and is idle and well formed. |
| TaskUtils.FormatTimeRoundTrip | src/lib/taskUtils.ts:4-13 | Reading the clock text back gives the seconds it was made from. |
| TaskUtils.FormatTimeShape | src/lib/taskUtils.ts:9-12 | The text has three fields exactly from an hour upwards, else two. Every field is at least two digits, and the minute and second fields are exactly two. |
| TaskUtils.ClockFieldsDecompose | src/lib/taskUtils.ts:5-7 | Hours, minutes below 60 and seconds below 60 recombine to the input. |
| TaskUtils.FormatTime | src/lib/taskUtils.ts:4-13 | For a non-negative count the text ends in 'mm:ss', the two digits before the last colon reading as the minutes past the hour and the two after it as the seconds past the minute, and it is longer than 'mm:ss' exactly from an hour upwards. |
| TaskUtils.FormatTimeCompact | src/lib/taskUtils.ts:15-23 | The label ends in the minutes unit, and for a non-negative count it has two parts exactly from an hour upwards. |
| TaskUtils.FormatTimeCompactRoundTrip | src/lib/taskUtils.ts:15-23 | Reading the compact text back gives the seconds cut to whole minutes, in two parts exactly from an hour upwards. |
| TaskUtils.CategoryLabel | src/lib/taskUtils.ts:25-36 | Every label is non-empty. |
| TaskUtils.CategoryLabelInjective | src/lib/taskUtils.ts:25-36 | Different categories have different labels, and no label is 'Untitled Task'. |
| TaskUtils.CalculateTotalTimeAgreesWithLedger | src/lib/taskUtils.ts:64-75 | For a consistent ledger, the live total is the stored total plus the running session's seconds, and is the stored total when idle. |
| TaskUtils.CalculateTotalTimeMonotonic | src/lib/taskUtils.ts:64-75 | The live total never decreases as time passes. |
| TaskUtils.CalculateTotalTime | src/lib/taskUtils.ts:64-75 | An idle task's live time is the sum of its session durations. A running task's live time exceeds that sum by the whole seconds elapsed since the session started. |
| TaskUtils.Tally | src/lib/taskUtils.ts:85-101 | The breakdown covers all seven categories and sums to the total. |
| TaskUtils.TallySums | src/lib/taskUtils.ts:97-101 | The running total is the sum of the tasks' live times, and each category's figure is the live time of that category's tasks. |
| TaskUtils.GetDailySummary | src/lib/taskUtils.ts:77-109 | The summary keeps the date, and its breakdown covers every category and sums to its total. |
| TaskUtils.DailySummaryContents | src/lib/taskUtils.ts:77-109 | The tasks are exactly those created on the date's local day, in order. The total and each category figure are the corresponding live times. |
| TaskUtils.SumBreakdownsAddsUp | src/lib/taskUtils.ts:131-135 | When each day's breakdown sums to its total, the summed breakdown sums to the summed totals. |
| TaskUtils.SummariesTotal | src/lib/taskUtils.ts:128-135 | The summaries of any list of dates all have total breakdowns that sum to their totals. |
| TaskUtils.WeeklySummaryOf | src/lib/taskUtils.ts:111-145 | There are seven daily summaries: the k-th is the daily summary of the k-th day from Sunday of the date's week, and the date's own day is among them. The total is the sum of the daily totals and each category figure is the sum of the daily figures. |
| TaskUtils.GetWeeklySummary | src/lib/taskUtils.ts:111-145 | The loop over the week computes the weekly summary. |
| TaskUtils.WalkWeek | src/lib/taskUtils.ts:128-136 | The loop produces the summaries of the seven days from the week's start, and its total and breakdown are their sums. |
| TaskUtils.WeekLoopGuard | src/lib/taskUtils.ts:128 | The loop condition 'day at or before week end' holds for exactly the first seven days. |
| UpcomingMeeting.MeetingsWellFormed | src/components/UpcomingMeeting.tsx:16-37 | The two meetings fall on different weekdays, and each starts before it ends within one day. |
| UpcomingMeeting.ReadingAt | src/components/UpcomingMeeting.tsx:57-64 | The Kigali reading of an instant is a valid weekday and time of day, on the instant's Kigali weekday. |
| UpcomingMeeting.CurrentMinutes | src/components/UpcomingMeeting.tsx:71 | Hours times 60 plus minutes is the whole number of minutes into the day. |
| UpcomingMeeting.IsLive | src/components/UpcomingMeeting.tsx:68-73 | A meeting is live exactly on its weekday, from its start hour up to, not including, its end time, measured in milliseconds of the day. |
| UpcomingMeeting.LiveIndex | src/components/UpcomingMeeting.tsx:67-80 | The first live meeting, or -1 exactly when none is live. |
| UpcomingMeeting.AtMostOneLive | src/components/UpcomingMeeting.tsx:16-37 | No two meetings are live at once. |
| UpcomingMeeting.DaysUntil | src/components/UpcomingMeeting.tsx:88-92 | For a meeting on a weekday, days-until is in 0..7 and lands on the meeting's weekday. It is 7 exactly on the meeting's day once the start minute has passed; otherwise it is the weekday difference mod 7. |
| UpcomingMeeting.TimeUntil | src/components/UpcomingMeeting.tsx:88-98 | The time-until is the next start: moving it forward from now lands on the meeting's weekday exactly at its start hour; it is more than minus one minute and at most a week less a minute; and it is zero or negative exactly when now is inside the start minute on the meeting's weekday, since the source moves on a week only once the current minute is past the start. |
| UpcomingMeeting.NextStartUnique | src/components/UpcomingMeeting.tsx:88-98 | At most one offset in that one-week window lands on a given weekday and hour, so the window pins the start down. |
| UpcomingMeeting.TimeUntilIsNext | src/components/UpcomingMeeting.tsx:88-98 | Any offset that lands on a table meeting's start and lies in the window is that meeting's time-until. |
| UpcomingMeeting.NotLiveAhead | src/components/UpcomingMeeting.tsx:88-102 | For a meeting that is not live, the time until its next start is positive. |
| UpcomingMeeting.ClosestIndex | src/components/UpcomingMeeting.tsx:84-103 | The chosen meeting has the least positive time-until, and ties keep the earlier entry. It is -1 exactly when no time-until is positive. |
| UpcomingMeeting.CountdownOf | src/components/UpcomingMeeting.tsx:109-119 | Days from 24 hours upwards, hours and minutes from an hour, minutes below an hour; each figure is the floor of the time left in its unit. |
| UpcomingMeeting.CountdownText | src/components/UpcomingMeeting.tsx:112-119 | Every countdown reads 'in ...'. |
| UpcomingMeeting.CountdownReadsBack | src/components/UpcomingMeeting.tsx:112-119 | Any countdown with non-negative figures reads back from its text: 'in', the number and the unit give back the days, the hours and minutes, or the minutes. |
| UpcomingMeeting.CountdownPlural | src/components/UpcomingMeeting.tsx:114 | The day count ends in 's' exactly when it is more than one. |
| UpcomingMeeting.StatusAt | src/components/UpcomingMeeting.tsx:66-121 | The banner is live exactly when some meeting is live, and then shows that meeting. Otherwise it shows a meeting whose start is ahead, with the countdown text of the time until that start. |
| UpcomingMeeting.UpcomingCountdownReadsBack | src/components/UpcomingMeeting.tsx:105-119 | The countdown an upcoming banner shows reads back as the days, hours and minutes until its meeting starts. |
| UpcomingMeeting.AlwaysAMeeting | src/components/UpcomingMeeting.tsx:82-123 | Some meeting is always shown. |
| UpcomingMeeting.UpcomingIsClosest | src/components/UpcomingMeeting.tsx:98-102 | The upcoming meeting shown starts no later than any other. |
| UpcomingMeeting.FridayEvening | src/components/UpcomingMeeting.tsx:87-119 | At 18:00 on a Friday the banner shows the Friday prayer 'in 1h 0m'. |
| UpcomingMeeting.DisplayHourFacts | src/components/UpcomingMeeting.tsx:126-127 | The displayed hour and the period give back the 24-hour hour. The displayed hour is the usual 1..12 clock hour except at midnight, where it is 0. |
| UpcomingMeeting.Format12 | src/components/UpcomingMeeting.tsx:125-129 | For an hour and minute of the day, the text before the colon and the closing AM or PM give back the hour, and the two digits before the space give back the minute. |
| UpcomingMeeting.Format12ReadsBack | src/components/UpcomingMeeting.tsx:125-129 | The label splits into the hour, a two-digit minute and the period, and reads back as the hour and minute. |
| UpcomingMeeting.ScheduleText | src/components/UpcomingMeeting.tsx:242-253 | The times that the settings screen's meeting schedule (`MeetingSchedule`, rendered at src/components/views/SettingsView.tsx:71) writes out by hand, '3:00 PM - 5:30 PM' and '7:00 PM - 9:00 PM', are the 12-hour labels of the table's start and end times. |
| SubCategorySelector.AllSubCategories | src/components/SubCategorySelector.tsx:25-26 | The options are the category's defaults followed by the custom names, each in order. |
| SubCategorySelector.HandleAddCustom | src/components/SubCategorySelector.tsx:28-35 | Nothing is handed on exactly when the text is blank, and then the editor is unchanged. Otherwise the trimmed name is handed on and the editor is cleared and closed. |
| SubCategorySelector.HandleAddCustomPiece | src/components/SubCategorySelector.tsx:28-35 | The handed-on name occurs in the typed text. |
| SubCategorySelector.HandleAddCustomStable | src/components/SubCategorySelector.tsx:28-35 | Typing the handed-on name again hands on the same name. |
| SubCategorySelector.AddFromPicker | src/components/SubCategorySelector.tsx:28-35 | Blank input changes no task, and tasks with other ids are never changed. |
| SubCategorySelector.AddFromPickerSelects | src/components/SubCategorySelector.tsx:28-35 | The same trimmed name is both added to the task's options and made current. |
| SubCategorySelector.BreakdownTimeIsCompact | src/components/SubCategorySelector.tsx:140-147 | From one minute upwards the breakdown label equals the compact duration label. |
| SubCategorySelector.BreakdownTimeRoundTrip | src/components/SubCategorySelector.tsx:140-147 | The label reads back as the seconds below a minute, and as the seconds cut to whole minutes above. |
| SubCategorySelector.BreakdownTime | src/components/SubCategorySelector.tsx:140-147 | The label ends in 's' below a minute and in 'm' from a minute on, and for a non-negative count it has two parts exactly from an hour upwards. |
| SubCategorySelector.TotalIsTaggedTime | src/components/SubCategorySelector.tsx:149 | In a consistent ledger the total is the time of the sessions tagged with the listed names. |
| SubCategorySelector.Percentage | src/components/SubCategorySelector.tsx:157 | The nearest whole percentage of the share, halves rounded up; 0 when the total is 0. |
| SubCategorySelector.PercentageBounds | src/components/SubCategorySelector.tsx:157 | A share of a non-negative total is between 0 and 100. |
| SubCategorySelector.BreakdownRows | src/components/SubCategorySelector.tsx:136-166 | An empty breakdown renders nothing. Otherwise there is one row per entry, in order, with its label and its share of the total. |
| SubCategorySelector.RowsBounded | src/components/SubCategorySelector.tsx:149-157 | With no negative durations every row's percentage is between 0 and 100. |
| CreateTaskSheet.Increment | src/components/CreateTaskSheet.tsx:147 | Plus raises the count. |
| CreateTaskSheet.Decrement | src/components/CreateTaskSheet.tsx:137 | Minus lowers the count by one but never below zero. |
| CreateTaskSheet.CounterRoundTrip | src/components/CreateTaskSheet.tsx:137-147 | Minus undoes plus, plus undoes minus on a positive count, and minus on zero stays at zero. |
| CreateTaskSheet.PressBounds | src/components/CreateTaskSheet.tsx:137-147 | From a non-negative start, any run of presses stays between zero and the start plus the number of presses. |
| CreateTaskSheet.Payload | src/components/CreateTaskSheet.tsx:69-108 | The title falls back to the category label. Category, location and notes are copied. Exactly the chosen category's detail record is present. |
| CreateTaskSheet.Submit | src/components/CreateTaskSheet.tsx:52-113 | The payload carries the form's category and only that category's detail record, and a titled form reads back from it. The form is then reset: category evangelism, every text field empty and every counter zero. |
| CreateTaskSheet.ResetFormSubmits | src/components/CreateTaskSheet.tsx:52-108 | Submitting the reset form untouched hands on an evangelism task titled with the evangelism label, empty location and notes, an all-zero evangelism record and no other record. |
| CreateTaskSheet.PayloadReadsBack | src/components/CreateTaskSheet.tsx:69-108 | A titled form is recovered from its payload, apart from fields of other categories. |
| CreateTaskSheet.UntitledPayloadReadsBack | src/components/CreateTaskSheet.tsx:71 | An untitled form is recovered with the category label as its title. |
| CreateTaskSheet.SubmitCreates | src/components/CreateTaskSheet.tsx:69-113 | The created task has the form's title or label, category, location and notes, and only the chosen category's detail record; it is well formed. |
| CreateTaskSheet.SubmitCopiesDetails | src/components/CreateTaskSheet.tsx:77-108 | The evangelism location, the bible-study notes and the meditation revelation are copied from the form. |
| TaskCard.Clamp | src/components/TaskCard.tsx:82 | The clamped value is never negative and equals a non-negative input. |
| TaskCard.DecrementEnabledExactly | src/components/TaskCard.tsx:48 | The minus button is enabled exactly when a press lowers the count by one. |
| TaskCard.WithEvangelismCount | src/components/TaskCard.tsx:84 | Setting one count leaves the other counts and the location alone. |
| TaskCard.UpdateEvangelismDetail | src/components/TaskCard.tsx:79-86 | There is no patch without a callback. Otherwise the patch carries only the evangelism record: the named count is moved and clamped at zero, starting from the default record when there is none, and the rest is kept. |
| TaskCard.UpdateBibleStudyDetail | src/components/TaskCard.tsx:89-96 | There is no patch without a callback. Otherwise the patch carries only the bible-study record, with the chapters moved and clamped and the book and notes kept. |
| TaskCard.UpdateLiteratureDetail | src/components/TaskCard.tsx:99-106 | There is no patch without a callback. Otherwise the patch carries only the literature record, with the pages moved and clamped and the title and author kept. |
| TaskCard.EvangelismPlusMinus | src/components/TaskCard.tsx:79-86 | Plus then minus on one count gives back the starting record. |
| TaskCard.PressTouchesOnlyDetails | src/components/TaskCard.tsx:79-86 | When the card's update callback is the store's updateTask (src/hooks/useTaskStore.ts:68-74), a press changes only the evangelism record and the update time, and the task stays well formed. |
| TaskCard.PressesKeepCountsNatural | src/components/TaskCard.tsx:183-264 | However the buttons are pressed, counts that start non-negative stay non-negative. |
| ReportsView.NavigateDate | src/components/views/ReportsView.tsx:22-28 | The selected date moves by one local day in the daily view and seven in the weekly view, forward or back, keeping the time of day. |
| ReportsView.NavigateRoundTrip | src/components/views/ReportsView.tsx:22-28 | Back then forward, or forward then back, returns to the same date. |
| ReportsView.WeeklyStepIsNeighbourWeek | src/components/views/ReportsView.tsx:22-28 | A weekly step lands on the same weekday of the neighbouring week. |
| ReportsView.Entries | src/components/views/ReportsView.tsx:33 | The breakdown's seven pairs in key order, and nothing else. |
| ReportsView.Sort | src/components/views/ReportsView.tsx:35 | Sorting is a permutation. |
| ReportsView.SortOrdered | src/components/views/ReportsView.tsx:35 | Sorting a key-ordered list puts larger times first and keeps key order among equal times, as a stable sort does. |
| ReportsView.TopCategories | src/components/views/ReportsView.tsx:33-35 | Exactly the categories with positive time, each with its time, ordered by non-increasing time. |
| ReportsView.OrderedUnique | src/components/views/ReportsView.tsx:35 | Two ordered permutations of one list are equal. |
| ReportsView.TopCategoriesIsTheRanking | src/components/views/ReportsView.tsx:33-35 | Any ordering of the positive entries is the computed ranking. |
| ReportsView.TopPercentagesBounded | src/components/views/ReportsView.tsx:159 | With non-negative figures every listed category's percentage is between 0 and 100. |
| ReportsView.WeeklyTaskCount | src/components/views/ReportsView.tsx:149 | The weekly count is the length of the week's flattened task list. |
| ReportsView.FlattenMembers | src/components/views/ReportsView.tsx:38-39 | A task is in the flattened week exactly when it is in some day's list. |
| ReportsView.EvangelismTotalsOf | src/components/views/ReportsView.tsx:38-53 | The totals are each evangelism task's counts summed, with tasks of other categories adding nothing. |
| ReportsView.EvangelismTotalsAreShares | src/components/views/ReportsView.tsx:38-53 | The filtered totals equal a sum over all tasks in which only evangelism tasks with a record contribute. |
| ReportsView.SumEvangelismAppend | src/components/views/ReportsView.tsx:42-53 | The totals of two lists put together are the sum of their totals. |
| ReportsView.WeeklyEvangelismIsDailySum | src/components/views/ReportsView.tsx:38-53 | The weekly evangelism totals are the sum of the daily ones. |
| ReportsView.ChaptersAreShares | src/components/views/ReportsView.tsx:56-68 | The filtered chapter sum equals a sum over all tasks in which only bible-study tasks with a record contribute. |
| ReportsView.ChaptersRead | src/components/views/ReportsView.tsx:56-68 | The chapters total is every task's chapter share summed, where only bible-study tasks with a record have a share. |
| ReportsView.SumChaptersAppend | src/components/views/ReportsView.tsx:60-68 | The chapters of two lists put together add up. |
| TasksView.FilterTasks | src/components/views/TasksView.tsx:39-44 | Exactly the tasks matching both the category choice and the case-insensitive search, in order. |
| TasksView.EmptyQueryKeepsAll | src/components/views/TasksView.tsx:39-44 | With all categories and an empty query every task is kept. |
| TasksView.EmptyQueryIsCategory | src/components/views/TasksView.tsx:40-41 | With an empty query the list is the store's by-category query. |
| TasksView.SearchIgnoresQueryCase | src/components/views/TasksView.tsx:41-42 | Lower-casing the query does not change the result. |
| TasksView.LongerQueryNarrows | src/components/views/TasksView.tsx:41-42 | Extending the query never adds a task. |
| TasksView.FilterTasksIdempotent | src/components/views/TasksView.tsx:39-44 | Filtering the filtered list again changes nothing. |

## Left out

- Browser storage: loading and saving the task list in localStorage, JSON parsing and Date revival (src/hooks/useTaskStore.ts:11-42) are I/O. The store is an explicit list.
- Id generation (src/lib/taskUtils.ts:147-149) draws on the clock and randomness. Ids, session ids and `now` are parameters.
- Calendar: date-fns and the browser's local time zone are modelled as a fixed-offset zone. Daylight-saving shifts are not modelled.
- UpcomingMeeting.ReadingAt: Kigali time is read as UTC+2 from the instant. The source's round trip through the browser's local offset (UpcomingMeeting.tsx:57-64, 94-96) is not modelled. It gives the same reading wherever the offset is constant.
- Timers and polling: the minute refresh of the meeting banner and the running timers are left out; each step is a call with its own `now`.
- Floating point: `Math.round` of a percentage is modelled on exact rationals as 'nearest integer, halves up'. Binary rounding error at exact halves is not modelled.
- TasksView.SearchIgnoresQueryCase, TasksView.LongerQueryNarrows, TasksView.FilterTasks: lower-casing is ASCII-only, because JavaScript's full Unicode case mapping is not modelled. Under that mapping lower-casing is context-sensitive (a final capital sigma lower-cases to 'ς' at the end of a word and to 'σ' inside one, so "aΣ" becomes "aς" but "aΣb" becomes "aσb"), and a longer query can then match a title the shorter query misses; the narrowing property is proved for the ASCII mapping only.
- TaskUtils.FormatTimeRoundTrip: stated for non-negative seconds only. Durations are never negative unless the clock moves backwards; the formatter itself is modelled for every integer, with JavaScript's truncating `%`.
- UpcomingMeeting.DisplayHourFacts: the 12-hour label shows hour 0 as '0:00 AM', exactly as the source computes it. No meeting starts or ends at midnight.
- TaskCard.UpdateEvangelismDetail: the invitations counter has no button on the card, but the generic handler is modelled for all four counts.
- Presentation is not modelled: icons, colours, category bar widths, Tailwind classes, the export and clear-all actions of the settings screen, the install prompt and the icon script.
- TaskCard.PressTouchesOnlyDetails, SubCategorySelector.AddFromPicker: both assume that the card's and the picker's callbacks are the store's updateTask, changeSubCategory and addCustomSubCategory. No screen wires them that way: src/components/views/HomeView.tsx:56-65 and 85-94 and src/components/views/TasksView.tsx:99-108 pass the card only its start, pause and click handlers, so the card's counters and picker reach no store operation in the app as written.
