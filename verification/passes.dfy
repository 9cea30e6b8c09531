/**
 * What each scheduled command does to the store, as functions of the old
 * store and the clock value `now`: which tasks it selects, what a selected
 * task becomes, what happens to the pivot rows, which notifications are
 * saved and the count it reports.  The commands are
 *   tasks:reset-daily, tasks:reset-weekly, tasks:reset-monthly,
 *   tasks:reset-yearly, tasks:reset-expired and the expiring-soon sweep.
 */
module Passes {
  import opened Wrappers
  import opened Calendar
  import opened TaskModel

  datatype Command = DailyReset | WeeklyReset | MonthlyReset | YearlyReset | ExpiredReset | ExpiryWarning

  /** `whereDate('deadline', '<=', now)`: a NULL deadline never matches. */
  predicate DueByDate(t: Task, now: DateTime) {
    t.deadline.Some? && DateOnlyLe(t.deadline.value, now)
  }

  /** The query of each command. */
  predicate Selects(c: Command, t: Task, now: DateTime) {
    match c
    case DailyReset => t.kind == Daily && DueByDate(t, now)
    case WeeklyReset => t.kind == Weekly && DueByDate(t, now)
    case MonthlyReset => t.kind == Monthly && DueByDate(t, now)
    case YearlyReset => t.kind == Yearly && DueByDate(t, now) && t.status != Pending
    case ExpiredReset => IsRecurring(t.kind) && t.status == Expired
    case ExpiryWarning => t.status == Pending && t.deadline.Some? && Before(t.deadline.value, AddHour(now))
  }

  /** The `switch ($task->type)` of tasks:reset-expired: plain addDay/addWeek/addMonth/addYear from now. */
  function NowAnchoredDeadline(k: TaskType, now: DateTime, current: Option<DateTime>): Option<DateTime> {
    match k
    case Daily => Some(AddDays(now, 1))
    case Weekly => Some(AddDays(now, 7))
    case Monthly => Some(AddMonth(now))
    case Yearly => Some(AddYear(now))
    // No case of the switch matches: the deadline stays.  The query selects
    // recurring tasks only, so no selected task reaches this arm.
    case _ => current
  }

  /**
   * What a selected task becomes.  The monthly and yearly resets re-parse the
   * stored deadline; Carbon::parse(null) would read the clock, but their
   * queries never select a task without a deadline.
   */
  function Renewed(c: Command, t: Task, now: DateTime): Task {
    var stored := if t.deadline.Some? then t.deadline.value else now;
    match c
    case DailyReset => t.(deadline := Some(TomorrowAt(now, 19, 0, 0)), status := Pending)
    case WeeklyReset => t.(deadline := Some(EndOfDay(AddDays(now, 7))), status := Pending)
    case MonthlyReset => t.(deadline := Some(EndOfDay(AddMonthNoOverflow(stored))), status := Pending)
    case YearlyReset => t.(deadline := Some(EndOfDay(AddYearNoOverflow(stored))), status := Pending)
    case ExpiredReset => t.(deadline := NowAnchoredDeadline(t.kind, now, t.deadline), status := Pending)
    case ExpiryWarning => t.(status := Expired, expiredCount := t.expiredCount + 1)
  }

  function Step(c: Command, t: Task, now: DateTime): Task {
    if Selects(c, t, now) then Renewed(c, t, now) else t
  }

  /** The four type-specific resets also set every pivot row of the task back to pending. */
  predicate ResetsAssignments(c: Command) {
    c == DailyReset || c == WeeklyReset || c == MonthlyReset || c == YearlyReset
  }

  function NoticeTitle(c: Command): string {
    match c
    case DailyReset => "Daily Task Reset"
    case WeeklyReset => "Weekly Task Reset"
    case MonthlyReset => "Monthly Task Reset"
    case YearlyReset => "Yearly Task Reset"
    case ExpiredReset => "Task Reset"
    case ExpiryWarning => "Task Expiring Today"
  }

  function NoticeKind(c: Command): string {
    if c == ExpiryWarning then "task_expired" else "task_reset"
  }

  /**
   * The deadline a notification shows: the resets notify after saving the new
   * deadline, the expiring-soon sweep before updating the task.
   */
  function ShownDeadline(c: Command, t: Task, now: DateTime): Option<DateTime> {
    if c == ExpiryWarning then t.deadline else Renewed(c, t, now).deadline
  }

  // ---------------------------------------------------------------------------
  // Selecting, counting and collecting over the task rows, for any query
  // ---------------------------------------------------------------------------

  predicate UniqueIds(ts: seq<Task>) {
    forall i, j :: 0 <= i < j < |ts| ==> ts[i].id != ts[j].id
  }

  function IdsWhere(ts: seq<Task>, sel: Task -> bool): set<TaskId> {
    set i | 0 <= i < |ts| && sel(ts[i]) :: ts[i].id
  }

  /** The lists of the selected tasks, concatenated in row order. */
  function Collect<X>(ts: seq<Task>, sel: Task -> bool, f: Task -> seq<X>): seq<X> {
    if ts == [] then []
    else Collect(ts[..|ts| - 1], sel, f) + (if sel(ts[|ts| - 1]) then f(ts[|ts| - 1]) else [])
  }

  /** With distinct ids, counting the selected rows counts the selected tasks. */
  lemma {:induction false} CountWhereIsDistinctIds(ts: seq<Task>, sel: Task -> bool)
    requires UniqueIds(ts)
    ensures CountWhere(ts, sel) == |IdsWhere(ts, sel)|
  {
    if ts != [] {
      var n := |ts| - 1;
      var p := ts[..n];
      assert UniqueIds(p);
      CountWhereIsDistinctIds(p, sel);
      IdsWhereSnoc(ts, sel);
      IdsWhereLastIsNew(ts, sel);
      var extra := if sel(ts[n]) then {ts[n].id} else {};
      assert IdsWhere(p, sel) !! extra;
      assert |IdsWhere(p, sel) + extra| == |IdsWhere(p, sel)| + |extra|;
    }
  }

  /** The ids selected among the rows: those of all but the last row, plus the last row's when selected. */
  lemma IdsWhereSnoc(ts: seq<Task>, sel: Task -> bool)
    requires ts != []
    ensures var n := |ts| - 1;
      IdsWhere(ts, sel) == IdsWhere(ts[..n], sel) + (if sel(ts[n]) then {ts[n].id} else {})
  {
    var n := |ts| - 1;
    var p := ts[..n];
    var sp := IdsWhere(p, sel);
    var extra := if sel(ts[n]) then {ts[n].id} else {};
    forall x | x in IdsWhere(ts, sel)
      ensures x in sp + extra
    {
      var i :| 0 <= i < |ts| && sel(ts[i]) && ts[i].id == x;
      if i < n {
        assert p[i] == ts[i];
      }
    }
    forall x | x in sp
      ensures x in IdsWhere(ts, sel)
    {
      var i :| 0 <= i < |p| && sel(p[i]) && p[i].id == x;
      assert ts[i] == p[i];
    }
  }

  /** With distinct ids, the last row's id is not among those selected before it. */
  lemma IdsWhereLastIsNew(ts: seq<Task>, sel: Task -> bool)
    requires ts != [] && UniqueIds(ts)
    ensures ts[|ts| - 1].id !in IdsWhere(ts[..|ts| - 1], sel)
  {
    var n := |ts| - 1;
    var p := ts[..n];
    forall i | 0 <= i < |p|
      ensures p[i].id != ts[n].id
    {
      assert ts[i] == p[i];
    }
  }

  lemma {:induction false} CollectMembership<X>(ts: seq<Task>, sel: Task -> bool, f: Task -> seq<X>, x: X)
    requires x in Collect(ts, sel, f)
    ensures exists i :: 0 <= i < |ts| && sel(ts[i]) && x in f(ts[i])
  {
    var n := |ts| - 1;
    var p := ts[..n];
    if x in Collect(p, sel, f) {
      CollectMembership(p, sel, f, x);
      var i :| 0 <= i < |p| && sel(p[i]) && x in f(p[i]);
      assert ts[i] == p[i];
    } else {
      assert sel(ts[n]) && x in f(ts[n]);
    }
  }

  lemma {:induction false} NoneSelected(ts: seq<Task>, sel: Task -> bool)
    requires forall i :: 0 <= i < |ts| ==> !sel(ts[i])
    ensures CountWhere(ts, sel) == 0 && IdsWhere(ts, sel) == {}
  {
    if ts != [] {
      NoneSelected(ts[..|ts| - 1], sel);
    }
  }

  // ---------------------------------------------------------------------------
  // The whole pass
  // ---------------------------------------------------------------------------

  function PassTasks(c: Command, ts: seq<Task>, now: DateTime): (r: seq<Task>)
    ensures |r| == |ts|
  {
    seq(|ts|, i requires 0 <= i < |ts| => Step(c, ts[i], now))
  }

  function Selector(c: Command, now: DateTime): Task -> bool {
    t => Selects(c, t, now)
  }

  function SelectedIds(c: Command, ts: seq<Task>, now: DateTime): set<TaskId> {
    IdsWhere(ts, Selector(c, now))
  }

  /** `update(['status' => 'pending'])` on every pivot row whose task is in ids. */
  function PendingRows(rows: seq<Assignment>, ids: set<TaskId>): (r: seq<Assignment>)
    ensures |r| == |rows|
  {
    seq(|rows|, j requires 0 <= j < |rows| =>
      if rows[j].task in ids then rows[j].(status := AssignmentPending) else rows[j])
  }

  function PassRows(c: Command, ts: seq<Task>, rows: seq<Assignment>, now: DateTime): seq<Assignment> {
    if ResetsAssignments(c) then PendingRows(rows, SelectedIds(c, ts, now)) else rows
  }

  function NoticesTo(c: Command, t: Task, shown: Option<DateTime>, recipients: seq<EmployeeId>): (r: seq<Notice>)
    ensures |r| == |recipients|
  {
    seq(|recipients|, k requires 0 <= k < |recipients| =>
      Notice(NoticeTitle(c), NoticeKind(c), recipients[k], t.id, t.name, shown))
  }

  /** The notifications saved for one selected task: one per token-holding assignee row. */
  function TaskNotices(c: Command, t: Task, now: DateTime, rows: seq<Assignment>, emps: map<EmployeeId, Employee>): seq<Notice> {
    NoticesTo(c, t, ShownDeadline(c, t, now), TokenHolders(emps, AssigneesOf(rows, t.id)))
  }

  function NoticesOf(c: Command, now: DateTime, rows: seq<Assignment>, emps: map<EmployeeId, Employee>): Task -> seq<Notice> {
    t => TaskNotices(c, t, now, rows, emps)
  }

  /** The notification log a pass appends, task by task in row order. */
  function PassNotices(c: Command, ts: seq<Task>, rows: seq<Assignment>, emps: map<EmployeeId, Employee>, now: DateTime): seq<Notice> {
    Collect(ts, Selector(c, now), NoticesOf(c, now, rows, emps))
  }

  /** The reported count: one per task the loop visits. */
  function PassCount(c: Command, ts: seq<Task>, now: DateTime): nat {
    CountWhere(ts, Selector(c, now))
  }

  // ---------------------------------------------------------------------------
  // Properties
  // ---------------------------------------------------------------------------

  /** A pass never changes a task's identity, and only the selected tasks change at all. */
  lemma PassKeepsIdentity(c: Command, ts: seq<Task>, now: DateTime)
    ensures forall i :: 0 <= i < |ts| ==>
      && PassTasks(c, ts, now)[i].id == ts[i].id
      && PassTasks(c, ts, now)[i].name == ts[i].name
      && PassTasks(c, ts, now)[i].kind == ts[i].kind
      && PassTasks(c, ts, now)[i].photos == ts[i].photos
      && (!Selects(c, ts[i], now) ==> PassTasks(c, ts, now)[i] == ts[i])
    ensures UniqueIds(ts) ==> UniqueIds(PassTasks(c, ts, now))
  {
  }

  /** The reported count is the number of distinct tasks the pass changed. */
  lemma PassCountIsSelectedTasks(c: Command, ts: seq<Task>, now: DateTime)
    requires UniqueIds(ts)
    ensures PassCount(c, ts, now) == |SelectedIds(c, ts, now)|
  {
    CountWhereIsDistinctIds(ts, Selector(c, now));
  }

  /** tasks:reset-daily: the new deadline, tomorrow at 19:00, is past today's date. */
  lemma DailyDeadlineIsTomorrow(now: DateTime)
    requires Valid(now)
    ensures Valid(TomorrowAt(now, 19, 0, 0))
    ensures DayNumber(TomorrowAt(now, 19, 0, 0)) == DayNumber(now) + 1
    ensures !DateOnlyLe(TomorrowAt(now, 19, 0, 0), now)
  {
    NextDayIsOneDayLater(now);
  }

  /** tasks:reset-weekly: the new deadline is seven days after now, at 23:59:59. */
  lemma WeeklyDeadlineIsNextWeek(now: DateTime)
    requires Valid(now)
    ensures var d := EndOfDay(AddDays(now, 7));
      Valid(d) && DayNumber(d) == DayNumber(now) + 7 && !DateOnlyLe(d, now)
  {
    AddDaysIsNDaysLater(now, 7);
    AddDaysIsLaterDate(now, 7);
  }

  /** tasks:reset-monthly: the deadline moves one month on from the old one, to a strictly later instant. */
  lemma MonthlyDeadlineAdvances(t: Task, now: DateTime)
    requires Selects(MonthlyReset, t, now) && Valid(t.deadline.value)
    ensures var d := Renewed(MonthlyReset, t, now).deadline.value;
      && Valid(d)
      && (d.year, d.month) == NextMonth(t.deadline.value.year, t.deadline.value.month)
      && d.day <= t.deadline.value.day
      && Before(t.deadline.value, d)
  {
    AddMonthNoOverflowLandsInNextMonth(t.deadline.value);
  }

  /** tasks:reset-yearly: the deadline moves one year on; 29 February becomes 28 February. */
  lemma YearlyDeadlineAdvances(t: Task, now: DateTime)
    requires Selects(YearlyReset, t, now) && Valid(t.deadline.value)
    ensures var d := Renewed(YearlyReset, t, now).deadline.value;
      && Valid(d)
      && d.year == t.deadline.value.year + 1 && d.month == t.deadline.value.month
      && (d.day == t.deadline.value.day || (d.month == 2 && d.day == 28 && t.deadline.value.day == 29))
      && Before(t.deadline.value, d)
  {
    AddYearNoOverflowLandsInNextYear(t.deadline.value);
  }

  /** Every command except the monthly reset leaves nothing for itself to select at the same now. */
  lemma RenewedNotReselected(c: Command, t: Task, now: DateTime)
    requires c != MonthlyReset && Valid(now)
    requires Selects(c, t, now)
    ensures !Selects(c, Renewed(c, t, now), now)
  {
    match c
    case DailyReset => DailyDeadlineIsTomorrow(now);
    case WeeklyReset => WeeklyDeadlineIsNextWeek(now);
    case _ =>
  }

  /** A second run at the same now selects nothing and changes nothing (all commands but the monthly reset). */
  lemma {:induction false} SecondRunIsNoOp(c: Command, ts: seq<Task>, now: DateTime)
    requires c != MonthlyReset && Valid(now)
    ensures var once := PassTasks(c, ts, now);
      && PassTasks(c, once, now) == once
      && PassCount(c, once, now) == 0
      && SelectedIds(c, once, now) == {}
  {
    var once := PassTasks(c, ts, now);
    forall i | 0 <= i < |ts|
      ensures !Selects(c, once[i], now)
    {
      if Selects(c, ts[i], now) {
        RenewedNotReselected(c, ts[i], now);
      }
    }
    NoneSelected(once, Selector(c, now));
    assert PassTasks(c, once, now) == once;
  }

  /**
   * The monthly reset is anchored at the old deadline, so a task more than a
   * month overdue is selected again by the next run at the same now.
   */
  lemma MonthlyRerunSelectsIff(t: Task, now: DateTime)
    requires Selects(MonthlyReset, t, now)
    ensures Selects(MonthlyReset, Renewed(MonthlyReset, t, now), now)
        <==> DateOnlyLe(AddMonthNoOverflow(t.deadline.value), now)
  {
  }

  lemma MonthlyCatchUpExample()
    ensures var t := Task(1, "audit", "", Monthly, Some(DateTime(2025, 1, 15, 23, 59, 59)), Expired, None, [], 0);
      var now := DateTime(2025, 3, 20, 9, 0, 0);
      Selects(MonthlyReset, t, now) && Selects(MonthlyReset, Renewed(MonthlyReset, t, now), now)
  {
  }

  /** expired_count only ever grows, and by exactly one for each task the sweep expires. */
  lemma ExpiredCountMonotone(c: Command, ts: seq<Task>, now: DateTime)
    ensures forall i :: 0 <= i < |ts| ==>
      PassTasks(c, ts, now)[i].expiredCount ==
        ts[i].expiredCount + (if c == ExpiryWarning && Selects(c, ts[i], now) then 1 else 0)
  {
  }

  /** The expiring-soon window includes tasks already overdue and ends one hour after now. */
  lemma ExpiryWindow(t: Task, now: DateTime)
    requires Valid(now) && t.status == Pending && t.deadline.Some?
    ensures Before(t.deadline.value, now) ==> Selects(ExpiryWarning, t, now)
    ensures !Before(t.deadline.value, AddHour(now)) ==> !Selects(ExpiryWarning, t, now)
  {
    AddHourIsLater(now);
  }

  /** tasks:reset-expired never touches a one-off task, and every task it resets gets a deadline. */
  lemma ExpiredResetShape(t: Task, now: DateTime)
    requires Valid(now)
    ensures t.kind == Once ==> !Selects(ExpiredReset, t, now)
    ensures Selects(ExpiredReset, t, now) ==>
      && Renewed(ExpiredReset, t, now).deadline.Some?
      && Renewed(ExpiredReset, t, now).status == Pending
      && Before(now, Renewed(ExpiredReset, t, now).deadline.value)
  {
    if Selects(ExpiredReset, t, now) {
      match t.kind
      case Daily => AddDaysIsLaterDate(now, 1);
      case Weekly => AddDaysIsLaterDate(now, 7);
      case Monthly =>
        AddMonthOverflowDays(now);
        var (y, m) := NextMonth(now.year, now.month);
        FirstOfNextMonth(now.year, now.month);
        DateOrderMatchesDayNumber(now, AddMonth(now));
      case Yearly =>
        AddYearOverflowDays(now);
        var d := now.(year := now.year + 1, day := 28);
        if now.day > DaysInMonth(now.year + 1, now.month) {
          NextDayIsOneDayLater(d);
        }
    }
  }

  /** Exactly one notification per (task, token-holding assignee row); none to an employee without a token. */
  lemma OneNoticePerTokenHolder(c: Command, t: Task, now: DateTime, rows: seq<Assignment>, emps: map<EmployeeId, Employee>, e: EmployeeId)
    requires Selects(c, t, now)
    ensures var ns := TaskNotices(c, t, now, rows, emps);
      && (forall k :: 0 <= k < |ns| ==> ns[k].taskId == t.id && ns[k].title == NoticeTitle(c) && ns[k].kind == NoticeKind(c))
      && multiset(Recipients(ns))[e] == if HasToken(emps, e) then multiset(AssigneesOf(rows, t.id))[e] else 0
  {
    var hs := TokenHolders(emps, AssigneesOf(rows, t.id));
    var ns := TaskNotices(c, t, now, rows, emps);
    assert Recipients(ns) == hs;
    TokenHoldersCount(emps, AssigneesOf(rows, t.id), e);
  }

  function Recipients(ns: seq<Notice>): (r: seq<EmployeeId>)
    ensures |r| == |ns|
  {
    seq(|ns|, k requires 0 <= k < |ns| => ns[k].recipient)
  }

  /** Every notification a pass saves goes to a token-holding assignee of a task the pass selected. */
  lemma PassNoticesGoToSelectedAssignees(c: Command, ts: seq<Task>, rows: seq<Assignment>, emps: map<EmployeeId, Employee>, now: DateTime, n: Notice)
    requires n in PassNotices(c, ts, rows, emps, now)
    ensures exists i :: 0 <= i < |ts| && Selects(c, ts[i], now) && n.taskId == ts[i].id
    ensures HasToken(emps, n.recipient) && n.recipient in AssigneesOf(rows, n.taskId)
    ensures n.title == NoticeTitle(c) && n.kind == NoticeKind(c)
    ensures c == ExpiredReset && Valid(now) ==> n.shownDeadline.Some?
  {
    CollectMembership(ts, Selector(c, now), NoticesOf(c, now, rows, emps), n);
    var i :| 0 <= i < |ts| && Selector(c, now)(ts[i]) && n in NoticesOf(c, now, rows, emps)(ts[i]);
    TaskNoticeShape(c, ts[i], now, rows, emps, n);
  }

  lemma TaskNoticeShape(c: Command, t: Task, now: DateTime, rows: seq<Assignment>, emps: map<EmployeeId, Employee>, n: Notice)
    requires Selects(c, t, now) && n in TaskNotices(c, t, now, rows, emps)
    ensures n.taskId == t.id
    ensures HasToken(emps, n.recipient) && n.recipient in AssigneesOf(rows, n.taskId)
    ensures n.title == NoticeTitle(c) && n.kind == NoticeKind(c)
    ensures c == ExpiredReset && Valid(now) ==> n.shownDeadline.Some?
  {
    var ns := TaskNotices(c, t, now, rows, emps);
    var k :| 0 <= k < |ns| && ns[k] == n;
    var hs := TokenHolders(emps, AssigneesOf(rows, t.id));
    TokenHoldersCount(emps, AssigneesOf(rows, t.id), n.recipient);
    assert n.recipient == hs[k];
    assert n.recipient in multiset(hs);
    if c == ExpiredReset && Valid(now) {
      ExpiredResetShape(t, now);
    }
  }

  /** After a type-specific reset every pivot row of a selected task is pending; other rows are untouched. */
  lemma PassRowsEffect(c: Command, ts: seq<Task>, rows: seq<Assignment>, now: DateTime)
    ensures var r := PassRows(c, ts, rows, now);
      && |r| == |rows|
      && (forall j :: 0 <= j < |rows| ==>
           r[j].task == rows[j].task && r[j].employee == rows[j].employee && r[j].assignedBy == rows[j].assignedBy)
      && (forall j :: 0 <= j < |rows| && rows[j].task !in SelectedIds(c, ts, now) ==> r[j] == rows[j])
      && (forall j :: 0 <= j < |rows| && rows[j].task in SelectedIds(c, ts, now) ==>
           r[j].status == if ResetsAssignments(c) then AssignmentPending else rows[j].status)
  {
  }

  /**
   * The lifecycle the two scheduled commands give a recurring task: the sweep
   * expires it and counts one more expiry, then tasks:reset-expired selects it
   * and makes it pending again with a deadline anchored at now.
   */
  lemma ExpireThenReset(t: Task, now: DateTime)
    requires Valid(now) && IsRecurring(t.kind) && Selects(ExpiryWarning, t, now)
    ensures var expired := Renewed(ExpiryWarning, t, now);
      && Selects(ExpiredReset, expired, now)
      && var reset := Renewed(ExpiredReset, expired, now);
      && reset.status == Pending
      && reset.expiredCount == t.expiredCount + 1
      && reset.deadline == NowAnchoredDeadline(t.kind, now, t.deadline)
      && !Selects(ExpiredReset, reset, now)
  {
  }

  // ---------------------------------------------------------------------------
  // The expiring-soon sweep as its command file is written
  // ---------------------------------------------------------------------------

  /**
   * The outcome of the sweep as written: the tasks table afterwards, and
   * whether the command died with an error part-way through.  The
   * notification log is not part of it: the sweep as written never saves a
   * notification.
   */
  datatype SweepRun = SweepRun(tasks: seq<Task>, died: bool)

  /** The sweep reaches `new FcmNotificationService()` for this task. */
  predicate Warns(t: Task, now: DateTime, rows: seq<Assignment>, emps: map<EmployeeId, Employee>) {
    Selects(ExpiryWarning, t, now) && |TokenHolders(emps, AssigneesOf(rows, t.id))| > 0
  }

  /**
   * The sweep's command file imports neither FcmNotificationService nor
   * Carbon, so `new FcmNotificationService()` names a class of the
   * commands' own namespace that does not exist, and the command dies
   * there.  It gets there at the first selected task with a token-holding
   * assignee.  The tasks before it are already expired.  That task and the
   * rest stay as they were, and no notification is saved.  Without such a
   * task the run completes and agrees with PassTasks.
   */
  function SweepAsWritten(ts: seq<Task>, rows: seq<Assignment>, emps: map<EmployeeId, Employee>, now: DateTime): (r: SweepRun)
    ensures |r.tasks| == |ts|
    ensures !r.died ==> r.tasks == PassTasks(ExpiryWarning, ts, now)
    decreases |ts|
  {
    if ts == [] then SweepRun([], false)
    else if Warns(ts[0], now, rows, emps) then SweepRun(ts, true)
    else
      var rest := SweepAsWritten(ts[1..], rows, emps, now);
      SweepRun([Step(ExpiryWarning, ts[0], now)] + rest.tasks, rest.died)
  }

  /**
   * Where the sweep as written stops: with i the first task it warns about
   * (or |ts| if there is none), the tasks before i are swept as intended and
   * the rest are left alone; it dies exactly when there is such a task.
   */
  lemma {:induction false} SweepAsWrittenStopsAtFirstWarning(ts: seq<Task>, rows: seq<Assignment>, emps: map<EmployeeId, Employee>,
                                                             now: DateTime, i: nat)
    requires i <= |ts|
    requires forall j :: 0 <= j < i ==> !Warns(ts[j], now, rows, emps)
    requires i < |ts| ==> Warns(ts[i], now, rows, emps)
    ensures SweepAsWritten(ts, rows, emps, now).died <==> i < |ts|
    ensures SweepAsWritten(ts, rows, emps, now).tasks == PassTasks(ExpiryWarning, ts[..i], now) + ts[i..]
    decreases i
  {
    if i == 0 {
      assert ts[..0] == [] && ts[0..] == ts;
    } else {
      var tail := ts[1..];
      forall j | 0 <= j < i - 1
        ensures !Warns(tail[j], now, rows, emps)
      {
        assert tail[j] == ts[j + 1];
      }
      SweepAsWrittenStopsAtFirstWarning(tail, rows, emps, now, i - 1);
      assert tail[i - 1..] == ts[i..];
      assert PassTasks(ExpiryWarning, ts[..i], now) == [Step(ExpiryWarning, ts[0], now)] + PassTasks(ExpiryWarning, tail[..i - 1], now);
    }
  }

  /** The list of one selected task is no longer than the collected lists. */
  lemma {:induction false} CollectCovers<X>(ts: seq<Task>, sel: Task -> bool, f: Task -> seq<X>, i: nat)
    requires i < |ts| && sel(ts[i])
    ensures |f(ts[i])| <= |Collect(ts, sel, f)|
  {
    var n := |ts| - 1;
    if i < n {
      CollectCovers(ts[..n], sel, f, i);
      assert ts[..n][i] == ts[i];
    }
  }

  /**
   * The task the sweep as written dies at is due within the hour, yet it
   * stays pending, while the intended sweep expires it and saves at least
   * one notification; the sweep as written saves none.
   */
  lemma SweepAsWrittenMissesWarnedTask(ts: seq<Task>, rows: seq<Assignment>, emps: map<EmployeeId, Employee>, now: DateTime, i: nat)
    requires i < |ts|
    requires forall j :: 0 <= j < i ==> !Warns(ts[j], now, rows, emps)
    requires Warns(ts[i], now, rows, emps)
    ensures SweepAsWritten(ts, rows, emps, now).died
    ensures SweepAsWritten(ts, rows, emps, now).tasks[i] == ts[i] && ts[i].status == Pending
    ensures PassTasks(ExpiryWarning, ts, now)[i].status == Expired
    ensures |PassNotices(ExpiryWarning, ts, rows, emps, now)| > 0
  {
    SweepAsWrittenStopsAtFirstWarning(ts, rows, emps, now, i);
    CollectCovers(ts, Selector(ExpiryWarning, now), NoticesOf(ExpiryWarning, now, rows, emps), i);
  }

  /**
   * A pending task due within the hour with one assignee who has a device
   * token: the sweep as written dies at it and leaves it pending, while the
   * intended sweep expires it and saves one notification.
   */
  lemma SweepAsWrittenExample(now: DateTime, due: DateTime)
    requires Before(due, AddHour(now))
    ensures var t := Task(2, "clean desk", "", Daily, Some(due), Pending, None, [], 0);
      var rows := [Assignment(2, 5, AssignmentPending, None)];
      var emps := map[5 := Employee("employee", Some("tok"))];
      && SweepAsWritten([t], rows, emps, now) == SweepRun([t], true)
      && PassTasks(ExpiryWarning, [t], now) == [t.(status := Expired, expiredCount := 1)]
      && |PassNotices(ExpiryWarning, [t], rows, emps, now)| == 1
  {
    var t := Task(2, "clean desk", "", Daily, Some(due), Pending, None, [], 0);
    var rows := [Assignment(2, 5, AssignmentPending, None)];
    var emps := map[5 := Employee("employee", Some("tok"))];
    assert AssigneesOf(rows, 2) == [5];
    assert TokenHolders(emps, [5]) == [5] by {
      assert HasToken(emps, 5);
    }
    assert Warns(t, now, rows, emps);
    assert SweepAsWritten([t], rows, emps, now) == SweepRun([t], true);
    assert [t][..0] == [];
    assert |TaskNotices(ExpiryWarning, t, now, rows, emps)| == 1;
    assert PassTasks(ExpiryWarning, [t], now)[0] == t.(status := Expired, expiredCount := 1);
    var sel, f := Selector(ExpiryWarning, now), NoticesOf(ExpiryWarning, now, rows, emps);
    assert sel(t) && f(t) == TaskNotices(ExpiryWarning, t, now, rows, emps);
    assert Collect([t], sel, f) == Collect([], sel, f) + f(t);
  }
}
