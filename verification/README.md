# Task lifecycle of the speedup task manager, in Dafny

This project models the part of the speedup application (a Laravel task
manager for employees) that drives a task through its life:

- **The six scheduled commands.**
  - `tasks:reset-daily`, `tasks:reset-weekly`, `tasks:reset-monthly` and
    `tasks:reset-yearly` renew the recurring tasks that are due. Each gives
    a selected task a new deadline and sets it back to pending, together
    with its assignment rows.
  - `tasks:reset-expired` does the same for expired recurring tasks. Their
    new deadline is counted from the current time.
  - The expiring-soon sweep warns the assignees of pending tasks due within
    the hour, then marks those tasks expired.
- **The TaskController actions that write.**
  - The expiry sweep inside `index`.
  - `store` and `requestTask`.
  - `updateTaskStatus` and `update`.
  - `requestReassignTask`.
- **The read-only figures.** `adminDashboard`, `statistics` and
  `employeeDashboard`.
- **The `tasks:import` command.** It reads a spreadsheet whose first row is
  the header. Every non-blank row becomes a task plus one pending
  assignment per comma-separated employee id.

## Modules

- `Calendar`: date-times as (year, month, day, hour, minute, second)
  records. It defines the Carbon steps the commands use:
  - `endOfDay`, tomorrow at 19:00, and `addDays`;
  - `addHour`;
  - `addMonth`/`addYear`, with and without overflow;
  - the date-only comparison of `whereDate`.

  Each step is proved against absolute day numbers.
- `TaskModel`: tasks, pivot rows, employees and notification records. It
  also holds:
  - the type and status names;
  - PHP truthiness of a device token;
  - who a task's notifications go to.
- `Passes`: what each scheduled command does, as functions of the old
  store and the clock value `now`:
  - which tasks it selects and what a selected task becomes;
  - what happens to the pivot rows;
  - the notification log it appends;
  - the count it reports.

  It also holds the properties of these functions, and the expiring-soon
  sweep as its command file is written (see Findings).
- `Pivot`: `attach`, `detach` and `sync` on the task_assignments rows.
- `Store`: the class `TaskStore`, the database as one mutable object. The
  scheduled commands are its methods. Their loops are proved against the
  `Passes` functions.
- `Dashboard`: the counting endpoints.
- `Controller`: the writing controller actions. Each one is a method on a
  `TaskStore` and answers with an HTTP status code.
- `Text`: the string operations `tasks:import` applies to cells:
  `strtolower`, `explode`, `trim`, and storing text in an integer column.
- `Import`: the `tasks:import` command. This covers the header, the row
  zip, the row loop and its outcome.

The clock (`now`), the spreadsheet cells, whether the file exists and the
date parser are all parameters. The push service is a method that always
appends one record to the notification log.

## Model

| member | source | states |
|---|---|---|
| Store.TaskStore.ResetDailyTasks | app/Console/Commands/ResetDailyTasks.php:20-59 | Daily tasks whose deadline date is today or earlier get the deadline tomorrow at 19:00:00 and status pending, whatever their status was; every other task is unchanged; exactly their pivot rows become pending; the notifications are those of `PassNotices`; the count is the number of distinct tasks selected; ids stay unique |
| Store.TaskStore.ResetWeeklyTasks | app/Console/Commands/ResetWeeklyTasks.php:22-57 | Weekly tasks due by date get the deadline now + 7 days at 23:59:59 and status pending; others unchanged; their pivot rows become pending; notifications and count as above |
| Store.TaskStore.ResetMonthlyTasks | app/Console/Commands/ResetMonthlyTasks.php:22-59 | Monthly tasks due by date get the old deadline + 1 month without overflow at 23:59:59 and status pending; others unchanged; their pivot rows become pending; notifications and count as above |
| Store.TaskStore.ResetYearlyTasks | app/Console/Commands/ResetYearlyTasks.php:22-62 | Yearly tasks due by date whose status is not pending get the old deadline + 1 year without overflow at 23:59:59 and status pending; others unchanged; their pivot rows become pending; notifications and count as above |
| Store.TaskStore.ResetExpiredTasks | app/Console/Commands/ResetExpiredTasks.php:18-64 | Expired tasks of a recurring type become pending with the deadline now + 1 day/week/month/year by type; others unchanged; pivot rows untouched; notifications and count as above |
| Store.TaskStore.SendTaskExpirationNotifications | app/Console/Commands/SendTaskExpirationNotifications.php:30-57 | As intended (see Findings): pending tasks whose deadline is before now + 1 hour become expired with expired_count + 1; others unchanged; pivot rows untouched; one notification per token-holding assignee; count = selected tasks; task ids stay valid |
| Store.TaskStore.RunPass | app/Console/Commands/ResetDailyTasks.php:29-57 | The common pass: the new tasks, rows, notification log and count are the `Passes` functions of the old store, and the store invariant (unique ids below the counter) is kept |
| Store.TaskStore.VisitTasks | app/Console/Commands/ResetDailyTasks.php:29-57 | The `foreach` loop over the tasks leaves tasks = `PassTasks`, rows = `PassRows`, log = old log + `PassNotices` and count = `PassCount` |
| Store.TaskStore.VisitTask | app/Console/Commands/ResetExpiredTasks.php:24-62 | One loop iteration: task i is replaced by its `Step`; its rows are reset only when the command resets rows; its notices are appended only when it is selected; the result says whether it was selected |
| Store.TaskStore.NotifyAssignees | app/Console/Commands/ResetDailyTasks.php:41-54 | The inner loop appends one notice per pivot row of the task whose employee has a truthy device token, in row order |
| Store.TaskStore.Notify | app/Services/FcmNotificationService.php:33-56 | sendAndSave always appends exactly one record to the log, whatever the push delivery does |
| Passes.PassKeepsIdentity | app/Console/Commands/ResetDailyTasks.php:29-33 | A pass keeps every task's id, name, type and photos, changes no unselected task, and keeps ids unique |
| Passes.PassCountIsSelectedTasks | app/Console/Commands/ResetDailyTasks.php:56-59 | With unique ids, the number of loop iterations equals the number of distinct selected tasks |
| Passes.CountWhereIsDistinctIds | app/Console/Commands/ResetDailyTasks.php:56 | With unique ids, counting matching rows counts distinct matching tasks |
| Passes.DailyDeadlineIsTomorrow | app/Console/Commands/ResetDailyTasks.php:31 | Tomorrow at 19:00 is a valid date exactly one day after today, so its date is after today's |
| Passes.WeeklyDeadlineIsNextWeek | app/Console/Commands/ResetWeeklyTasks.php:29 | now + 1 week at end of day is a valid date seven days after today, anchored at now |
| Passes.MonthlyDeadlineAdvances | app/Console/Commands/ResetMonthlyTasks.php:29-31 | The new deadline lies in the month after the old one, on a day no later than the old day, and is strictly later than the old deadline |
| Passes.YearlyDeadlineAdvances | app/Console/Commands/ResetYearlyTasks.php:30-34 | The new deadline has year + 1 and the same month, and the same day except that 29 February becomes 28 February; it is strictly later |
| Passes.RenewedNotReselected | app/Console/Commands/ResetYearlyTasks.php:22-35 | For every command except the monthly reset, a renewed task is not selected again at the same now |
| Passes.SecondRunIsNoOp | app/Console/Commands/ResetExpiredTasks.php:18-46 | A second run at the same now (every command but the monthly reset) selects nothing, counts 0 and changes no task |
| Passes.MonthlyRerunSelectsIff | app/Console/Commands/ResetMonthlyTasks.php:22-31 | The monthly reset selects its own result again exactly when the old deadline + 1 month is still due by date |
| Passes.MonthlyCatchUpExample | app/Console/Commands/ResetMonthlyTasks.php:29 | A monthly task due 15 January, reset on 20 March, is still due after one run |
| Passes.ExpiredCountMonotone | app/Console/Commands/SendTaskExpirationNotifications.php:51-54 | expired_count grows by exactly 1 for each task the sweep selects, and is unchanged otherwise and by every other command |
| Passes.ExpiryWindow | app/Console/Commands/SendTaskExpirationNotifications.php:30-33 | A pending task that is already overdue is selected; one due at or after now + 1 hour is not |
| Passes.ExpiredResetShape | app/Console/Commands/ResetExpiredTasks.php:18-46 | A one-off task is never selected; every task the command resets becomes pending with a deadline strictly after now |
| Passes.OneNoticePerTokenHolder | app/Console/Commands/ResetDailyTasks.php:41-54 | For a selected task, an employee receives as many notices as they have pivot rows on the task if they hold a device token, and none otherwise; every notice names the task, the command's title and its kind |
| Passes.PassNoticesGoToSelectedAssignees | app/Console/Commands/ResetExpiredTasks.php:49-61 | Every notice of a pass concerns a selected task and goes to a token-holding assignee of it; after tasks:reset-expired the notice shows a deadline, never "N/A" |
| Passes.TaskNoticeShape | app/Console/Commands/SendTaskExpirationNotifications.php:36-48 | Each notice for one selected task carries its id, goes to a token-holding assignee, and has the command's title and kind |
| Passes.PassRowsEffect | app/Console/Commands/ResetDailyTasks.php:36-38 | After a type-specific reset, exactly the pivot rows of selected tasks become pending; the other commands leave every row as it was; no row changes its task, employee or assigner |
| Passes.SweepAsWritten | app/Console/Commands/SendTaskExpirationNotifications.php:1-57 | The sweep as written: when it reaches no task with a token-holding assignee it completes and agrees with the intended sweep |
| Passes.SweepAsWrittenStopsAtFirstWarning | app/Console/Commands/SendTaskExpirationNotifications.php:35-54 | The sweep as written dies exactly when some selected task has a token-holding assignee; the tasks before the first such task are expired, it and the rest are unchanged |
| Passes.SweepAsWrittenMissesWarnedTask | app/Console/Commands/SendTaskExpirationNotifications.php:36-38 | The task the sweep as written dies at stays pending, while the intended sweep expires it and saves at least one notification |
| Passes.SweepAsWrittenExample | app/Console/Commands/SendTaskExpirationNotifications.php:38 | One task due within the hour with a token-holding assignee: as written the run dies and the task stays pending; as intended it is expired and one notification is saved |
| Passes.ExpireThenReset | app/Console/Kernel.php:22-24 | The sweep expires a recurring task and counts one more expiry; tasks:reset-expired then selects it and makes it pending with a now-anchored deadline, after which it is not selected again |
| Calendar.DaysInMonth | app/Console/Commands/ResetMonthlyTasks.php:29 | Month lengths are 28 to 31 days, and February has 29 exactly in leap years |
| Calendar.EndOfDay | app/Console/Commands/ResetWeeklyTasks.php:29 | endOfDay keeps the calendar date and sets 23:59:59 |
| Calendar.DateOrderMatchesDayNumber | app/Console/Commands/ResetDailyTasks.php:24 | The date-only comparison of whereDate orders dates exactly as their day numbers do |
| Calendar.NextDayIsOneDayLater | app/Console/Commands/ResetDailyTasks.php:31 | The next day is a valid date one day number later, at the same time of day |
| Calendar.AddDaysIsNDaysLater | app/Console/Commands/ResetExpiredTasks.php:28-31 | addDays(n) is a valid date exactly n days later, at the same time of day |
| Calendar.AddDaysIsLaterDate | app/Console/Commands/ResetWeeklyTasks.php:29 | A positive number of days later is a strictly later calendar date |
| Calendar.AddHourIsLater | app/Console/Commands/SendTaskExpirationNotifications.php:32 | subHour(-1) gives a valid, strictly later instant |
| Calendar.AddMonthNoOverflowLandsInNextMonth | app/Console/Commands/ResetMonthlyTasks.php:29 | addMonthNoOverflow lands in the next calendar month, on the same day or on that month's last day when it is shorter; it is a later date |
| Calendar.AddYearNoOverflowLandsInNextYear | app/Console/Commands/ResetYearlyTasks.php:30-31 | addYearNoOverflow keeps month and day, except that 29 February becomes 28 February |
| Calendar.AddMonthOverflowDays | app/Console/Commands/ResetExpiredTasks.php:34 | Plain addMonth is day − 1 days after the first of the next month, so missing days spill over into the month after |
| Calendar.AddYearOverflowDays | app/Console/Commands/ResetExpiredTasks.php:37 | Plain addYear keeps month and day when the next year has them; 29 February becomes 1 March |
| Calendar.EndOfJanuaryExample | app/Console/Commands/ResetMonthlyTasks.php:29 | 31 January + 1 month without overflow is 28 or 29 February, never March; with overflow it is 3 March |
| Calendar.YearLength | app/Console/Commands/ResetYearlyTasks.php:30-31 | The day number of 1 January advances by the length of the year |
| TaskModel.TypeNameRoundTrip | app/Http/Controllers/Api/TaskController.php:237-246 | Any nullable type text stored in the `type` column reads back unchanged |
| TaskModel.ParseTypeRoundTrip | app/Http/Controllers/Api/TaskController.php:203 | The five known types and any other text survive writing and reading |
| TaskModel.StatusNameRoundTrip | app/Console/Commands/ImportTasks.php:60 | Any status text written to the `status` column reads back unchanged |
| TaskModel.AssigneesOfMembership | app/Models/Task.php:29-33 | An employee is among a task's assignees exactly when some pivot row links them |
| TaskModel.TokenHoldersCount | app/Console/Commands/ResetDailyTasks.php:41-42 | The push loop keeps each token holder as often as they occur and drops everyone else |
| TaskModel.CountWhereIsPositions | app/Http/Controllers/Api/TaskController.php:19-22 | A COUNT(*) with one filter is the number of matching rows |
| TaskModel.StatusFiguresPartition | app/Http/Controllers/Api/TaskController.php:18-22 | The four status figures plus the tasks with any other status add up to the total |
| Dashboard.AdminDashboard | app/Http/Controllers/Api/TaskController.php:15-30 | Each status figure is the number of tasks with that status; they sum to at most the total; the employee figure is the number of employees whose role is "employee", at most all employees |
| Dashboard.RoleCount | app/Http/Controllers/Api/TaskController.php:23 | The count of a role is at most the number of employees, and 0 exactly when nobody has that role |
| Dashboard.RolePartition | app/Http/Controllers/Api/TaskController.php:23 | The employees with the role and those with any other role add up to all employees |
| Dashboard.RoleCountInsert | app/Http/Controllers/Api/TaskController.php:23 | Adding a new employee raises the count of its own role by one and leaves every other role's count unchanged |
| Dashboard.Statistics | app/Http/Controllers/Api/TaskController.php:266-284 | Each type and status figure is the number of tasks with that value |
| Dashboard.StatisticsPartition | app/Http/Controllers/Api/TaskController.php:268-278 | The type figures plus untyped tasks, and the status figures plus other statuses, each add up to the number of tasks |
| Dashboard.TypeFiguresPartition | app/Http/Controllers/Api/TaskController.php:269-273 | The five type figures and the other types add up to the total |
| Dashboard.EmployeeDashboard | app/Http/Controllers/Api/TaskController.php:32-72 | The response succeeds exactly when every task of the employee has a deadline; requested_tasks is always 0 |
| Dashboard.EmployeeFiguresCountAssignedTasks | app/Http/Controllers/Api/TaskController.php:37-44 | Without duplicate pivot rows, each type figure is the number of tasks of that type the employee is assigned to |
| Dashboard.RowCountOfAssignee | app/Http/Controllers/Api/TaskController.php:37 | Without duplicate rows, an employee holds a task once if assigned and not at all otherwise |
| Controller.Index | app/Http/Controllers/Api/TaskController.php:171-196 | The listed tasks are those the truthy filters select, each as swept; the table becomes `IndexTasks` of the old one; task ids stay valid |
| Controller.SweepListed | app/Http/Controllers/Api/TaskController.php:183-190 | The loop over the fetched tasks: the table becomes `IndexTasks` of the old one and the listed tasks are those the filters select, each as swept |
| Controller.IndexKeepsIds | app/Http/Controllers/Api/TaskController.php:186-190 | The sweep changes no task's id, so unique ids stay unique |
| Controller.IndexSweepEffect | app/Http/Controllers/Api/TaskController.php:186-190 | After index no listed task is pending and overdue; a task changes only from pending to expired; expired_count is unchanged; a second index changes nothing |
| Controller.NullDeadlineExpiresOnListing | app/Http/Controllers/Api/TaskController.php:187 | A pending task without a deadline is expired by index, while the scheduled sweep never selects it |
| Controller.StoreTask | app/Http/Controllers/Api/TaskController.php:198-224 | 201 exactly when the rules hold; then a pending task with the next id is appended and assigned to exactly the given ids, in order; 422 changes nothing |
| Controller.RequestTask | app/Http/Controllers/Api/TaskController.php:146-170 | 201 exactly when the rules hold; then a pending task is appended and assigned to the caller only; 422 changes nothing |
| Controller.NewTaskIsWellFormed | app/Http/Controllers/Api/TaskController.php:209-215 | A created task has one of the five types, is recurring unless its type is once, is pending and keeps the requested deadline |
| Controller.CreateTask | app/Http/Controllers/Api/TaskController.php:209 | Task::create appends the row under the next id and advances the counter; no pivot row refers to the new id yet |
| Controller.AttachTo | app/Http/Controllers/Api/TaskController.php:217 | attach on a new task appends one pending row per id, so the task's assignees are exactly the ids |
| Controller.Find | app/Http/Controllers/Api/TaskController.php:95 | Route binding finds the position of the task with that id, or reports that none has it |
| Controller.UpdateTaskStatus | app/Http/Controllers/Api/TaskController.php:95-139 | 404 for an unknown task; 422 exactly when validation fails; 403 exactly when the caller is not assigned; only 200 changes anything: the status is set, an id list, even an empty one, syncs the assignees, and a photo list is appended to the stored photos |
| Controller.MergedPhotos | app/Http/Controllers/Api/TaskController.php:123-129 | The merged list is the stored photos followed by the new ones |
| Controller.PhotosAsWrittenDropsStoredPhotos | app/Http/Controllers/Api/TaskController.php:124-125 | As written, the stored photos are read from an attribute a task does not have, so an upload replaces them |
| Controller.PhotoUploadExample | app/Http/Controllers/Api/TaskController.php:124-129 | A task with photo "a" that receives "b" ends with ["b"] as written and ["a", "b"] when merged |
| Controller.SyncKeepsRowsKnown | app/Http/Controllers/Api/TaskController.php:119 | sync on an existing task keeps every pivot row pointing at a known task id |
| Controller.UpdateTask | app/Http/Controllers/Api/TaskController.php:234-263 | 404 for an unknown task; 422 exactly when validation fails; on 200 type, status and deadline are overwritten, with null for an absent type or deadline, and an id list, even an empty one, syncs the assignees |
| Controller.EmptyIdListClearsAssignees | app/Http/Controllers/Api/TaskController.php:118-120 | An update with an empty employee list leaves the task with no assignees and the other tasks' rows as they were |
| Controller.UpdateWithoutTypeStopsResets | app/Http/Controllers/Api/TaskController.php:246 | After an update without a type, none of the resets selects the task |
| Controller.RequestReassignTask | app/Http/Controllers/Api/TaskController.php:296-336 | 422 exactly when validation fails; 403 exactly when the caller is not assigned; on 200 the assignees are (old − caller) ∪ targets; other tasks' rows are unchanged; surviving rows are kept; new rows are pending; no duplicate pair is created |
| Controller.HandOver | app/Http/Controllers/Api/TaskController.php:318-327 | Detach the caller, then attach each target not yet assigned; the loop invariant `ReassignedUpTo` holds at the end |
| Pivot.SyncAssigneeSet | app/Http/Controllers/Api/TaskController.php:119 | After sync(ids) the task's assignees are exactly the ids |
| Pivot.SyncLeavesOtherTasks | app/Http/Controllers/Api/TaskController.php:253 | sync on one task leaves every other task's rows unchanged and in order |
| Pivot.SyncKeepsAndAdds | app/Http/Controllers/Api/TaskController.php:119 | sync keeps the existing rows, with their statuses, of employees it keeps; every new row is pending for an employee not yet assigned |
| Pivot.SyncNoDuplicates | app/Http/Controllers/Api/TaskController.php:253 | sync creates no second row for an employee |
| Pivot.DetachMembership | app/Http/Controllers/Api/TaskController.php:318 | detach removes exactly the caller's rows of the task |
| Pivot.DetachNoDuplicates | app/Http/Controllers/Api/TaskController.php:318 | detach keeps (task, employee) pairs unique |
| Pivot.KeepOnlyMembership | app/Http/Controllers/Api/TaskController.php:119 | The detach half of sync removes exactly the task's rows for employees not kept |
| Pivot.KeepOnlyNoDuplicates | app/Http/Controllers/Api/TaskController.php:119 | The detach half of sync keeps pairs unique |
| Pivot.FreshMembership | app/Http/Controllers/Api/TaskController.php:119 | The attach half of sync adds each id that is not yet assigned, once |
| Pivot.AttachMembership | app/Http/Controllers/Api/TaskController.php:217 | attach creates exactly pending rows of the task for the ids, with the given assigner |
| Pivot.AppendFreshRow | app/Http/Controllers/Api/TaskController.php:322-326 | Attaching an employee not yet assigned adds them and keeps pairs unique |
| Pivot.AssigneesOfAttach | app/Http/Controllers/Api/TaskController.php:217 | attach(ids) makes a new task's assignees exactly ids, and adds no one to other tasks |
| Pivot.AssigneesOfIsAssigneeSet | app/Models/Task.php:29-33 | The assignee list and the assignee set have the same members |
| Pivot.RowsNotOfAppend | app/Http/Controllers/Api/TaskController.php:325 | The rows of other tasks in a concatenation are those of each part |
| Import.ImportTasks | app/Console/Commands/ImportTasks.php:17-80 | The command refuses exactly a missing file or an extension other than xls, xlsx and csv, and then writes nothing; otherwise its writes and outcome are those of `ImportRows` over the rows after the header, with the header lower-cased for a workbook |
| Import.ImportAll | app/Console/Commands/ImportTasks.php:47-76 | The row loop writes exactly what `ImportRows` describes, returns its count, and stops at the first row that fails |
| Import.ImportOne | app/Console/Commands/ImportTasks.php:52-73 | One non-blank row creates its task under the next id, then its assignments, as `ImportRow` describes |
| Import.AttachPieces | app/Console/Commands/ImportTasks.php:65-73 | The inner loop adds one pending row per piece, assigned by the creator, until a piece is not an integer |
| Import.ImportSummary | app/Console/Commands/ImportTasks.php:47-78 | New tasks take consecutive ids; every assignment is a pending row of a new task, assigned by its creator; the count equals the number of non-blank rows exactly when no row failed |
| Import.ImportCount | app/Console/Commands/ImportTasks.php:75 | Without a failure the count is the number of non-blank rows, each creating one task; with one, fewer rows are counted |
| Import.ImportRowsIds | app/Console/Commands/ImportTasks.php:55 | The imported tasks take consecutive ids, one per counted row plus one for a failed row |
| Import.ImportRowsAttached | app/Console/Commands/ImportTasks.php:67-72 | Every imported assignment is pending, belongs to an imported task and is assigned by that task's creator |
| Import.ImportStopsAtFailure | app/Console/Commands/ImportTasks.php:49-76 | After a row fails, no later row is read |
| Import.ImportRowShape | app/Console/Commands/ImportTasks.php:55-73 | A row creates at most the task with its id, creates it whenever the command goes on, and attaches only pending rows of it by its creator |
| Import.ImportRow | app/Console/Commands/ImportTasks.php:52-73 | A row creates at most one task, creates one whenever the command goes on, and attaches nothing without a task |
| Import.RowTask | app/Console/Commands/ImportTasks.php:52-62 | A created task has the given id, a creator, no photos and expired_count 0 |
| Import.ImportRowRoundTrip | app/Console/Commands/ImportTasks.php:52-73 | A row written in the canonical column order imports as exactly that task, assigned to the listed employees by its creator |
| Import.CanonicalColumns | app/Console/Commands/ImportTasks.php:52 | Under the canonical header every column holds the cell at its position |
| Import.IdsCellRoundTrip | app/Console/Commands/ImportTasks.php:65-69 | An employee_ids cell of decimal ids separated by commas reads back as those ids |
| Import.ParseIdsOfSpelledIds | app/Console/Commands/ImportTasks.php:69 | The decimal spellings of ids read back as the ids |
| Import.EmptyEmployeeIdsStops | app/Console/Commands/ImportTasks.php:65-69 | An empty employee_ids cell is one empty piece, which the integer column refuses: the task exists, no assignment is made and the command stops |
| Import.MissingColumnCreatesNothing | app/Console/Commands/ImportTasks.php:56-61 | A header without one of the task columns creates nothing and stops the command |
| Import.CombineKeys | app/Console/Commands/ImportTasks.php:52 | array_combine's keys are the header cells |
| Import.CombineLast | app/Console/Commands/ImportTasks.php:52 | A repeated header key keeps the value under its last occurrence |
| Import.ParseIds | app/Console/Commands/ImportTasks.php:66-73 | The ids read are at most the pieces, and all of them exactly when no piece was refused |
| Import.ParseIdsValues | app/Console/Commands/ImportTasks.php:69 | Each id is the value of its trimmed piece; reading stops at the first piece that has none |
| Import.ParseIdsStops | app/Console/Commands/ImportTasks.php:66-73 | Once a piece is refused, later pieces are not read |
| Import.Header | app/Console/Commands/ImportTasks.php:36-41 | The header keeps the width of the first row; a CSV header is kept as read; a workbook header is lower-cased cell by cell |
| Import.WorkbookHeaderIgnoresCase | app/Console/Commands/ImportTasks.php:36 | A capitalised workbook header becomes the canonical header |
| Import.CsvHeaderIsCaseSensitive | app/Console/Commands/ImportTasks.php:40-41 | The same capitalised header in a CSV file is kept, so no row of it creates a task |
| Text.LowerChar | app/Console/Commands/ImportTasks.php:36 | A lower-cased character is never a capital; capitals move by 32, and other characters are kept |
| Text.LowerAscii | app/Console/Commands/ImportTasks.php:36 | strtolower keeps the length |
| Text.LowerAsciiChars | app/Console/Commands/ImportTasks.php:36 | strtolower leaves no capital and keeps every other character |
| Text.LowerAsciiIdempotent | app/Console/Commands/ImportTasks.php:36 | Lower-casing twice is lower-casing once; a text without capitals is unchanged |
| Text.Split | app/Console/Commands/ImportTasks.php:65 | explode always yields at least one piece |
| Text.SplitPieces | app/Console/Commands/ImportTasks.php:65 | No piece contains the separator |
| Text.JoinSplit | app/Console/Commands/ImportTasks.php:65 | Joining the pieces with the separator gives back the text |
| Text.SplitJoin | app/Console/Commands/ImportTasks.php:65 | Pieces free of the separator survive a join and then a split |
| Text.TrimIsSlice | app/Console/Commands/ImportTasks.php:69 | trim returns a slice that starts and ends with a non-blank, and everything cut off around it is blank |
| Text.TrimUnpadded | app/Console/Commands/ImportTasks.php:69 | A text that neither starts nor ends with a blank is unchanged by trim |
| Text.ParseNat | app/Console/Commands/ImportTasks.php:69 | An integer column accepts a text exactly when it is a non-empty run of decimal digits |
| Text.NatToString | app/Console/Commands/ImportTasks.php:69 | The decimal spelling is a non-empty run of digits without a leading zero |
| Text.ParseNatRoundTrip | app/Console/Commands/ImportTasks.php:69 | Reading back the decimal spelling of n gives n |
| Text.TrimNatToString | app/Console/Commands/ImportTasks.php:69 | trim keeps a decimal spelling |

## Left out

- Push delivery through Firebase. Only the saved notification record is
  modelled. Its body text is represented by the task name and the deadline
  it shows, not rendered.
- Authentication, routing, middleware, the export endpoints, location
  tracking, the seeders and the other controller actions (show, destroy,
  employeeTasks, allEmployees, downloadTaskReport).
- Reading the spreadsheet file: PhpSpreadsheet and `str_getcsv`. The cells
  arrive as a parameter, with whether the file exists.
- Import.RowTask: `Carbon::parse` of the deadline cell is a parameter
  (`parseDate`). Time zones and sub-second precision are not modelled.
- Text.ParseNat: MySQL's strict mode accepts only a plain run of decimal
  digits in an integer column here. Signs, surrounding spaces and other
  spellings MySQL might convert are not modelled. The same rule applies to
  `created_by` and to each employee id.
- Import.ImportTasks: whether a failed insert consumes an auto-increment id
  is not modelled. A failed row leaves the counter where it was. Foreign-key
  checks on `employee_id` and `assigned_by` are not modelled either, so an
  unknown employee id is imported.
- Persistence: transactions, eager-loading and string comparison under
  MySQL's case-insensitive collation are not modelled. The tasks table is
  an ordered sequence in id order. Query filters compare texts exactly.
- Controller.StoreTask, Controller.UpdateTaskStatus, Controller.UpdateTask,
  Controller.RequestReassignTask: a request field of the wrong JSON type
  is not modelled. Fields arrive as already-typed options, after Laravel
  trims them and turns empty strings into null.
- Dashboard.EmployeeDashboard: the task list the response carries is not
  modelled, only whether building it fails.
- Controller.UpdateTaskStatus: the corrected photo merge is modelled (see
  Findings). The as-written behaviour is stated by
  Controller.PhotosAsWrittenDropsStoredPhotos.
- The scheduler registers `task:send-expiration-notifications`, a name no
  command declares. The sweep is modelled as the command intends.
- Store.TaskStore.SendTaskExpirationNotifications: models the sweep as
  intended. Its command file does not import FcmNotificationService or
  Carbon, so as written it dies at the first task with a token-holding
  assignee (see Findings). That behaviour is Passes.SweepAsWritten.
- Text.LowerAscii: `strtolower` is taken to change only the ASCII letters
  A–Z, as it does from PHP 8.2 on.

## Findings

| source | as written | input that shows it | evidently intended | confidence | as-written member | corrected member |
|---|---|---|---|---|---|---|
| app/Http/Controllers/Api/TaskController.php:124 | The stored photos are read from `photo_base64`, which is not an attribute of a task, so they always read as empty and an upload replaces the task's photos | A task with photos ["a"] receiving photo_base64 ["b"] ends with ["b"] | Append the new photos to the stored ones (["a", "b"]) | high; not executed | Controller.PhotosAsWrittenDropsStoredPhotos | Controller.MergedPhotos |
| app/Console/Commands/SendTaskExpirationNotifications.php:5-7 | Only Command and Task are imported, so `new FcmNotificationService()` at line 38 names a class in the commands' own namespace that does not exist; the command dies at the first selected task with a token-holding assignee, after expiring the tasks before it and without saving any notification | A pending task due within the hour whose one assignee has a device token stays pending and nobody is notified | Import the service and Carbon as the other commands do: warn every token-holding assignee and expire every selected task | high; not executed | Passes.SweepAsWrittenExample | Store.TaskStore.SendTaskExpirationNotifications |
