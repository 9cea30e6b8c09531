/**
 * The database the application works on, as one object whose methods
 * change it in place: the tasks table, the task_assignments pivot, the
 * employees and the notifications table.  The scheduled commands, the
 * controller actions that write, and the import are its methods.
 */
module Store {
  import opened Wrappers
  import opened Calendar
  import opened TaskModel
  import opened Passes
  import opened Pivot

  class TaskStore {
    var tasks: seq<Task>
    var assignments: seq<Assignment>
    var employees: map<EmployeeId, Employee>
    var notifications: seq<Notice>
    /** The auto-increment counter of the tasks table. */
    var nextId: TaskId

    /**
     * Task ids are unique and below the auto-increment counter, and every
     * pivot row refers to an id the counter has handed out.
     */
    ghost predicate Valid()
      reads this
    {
      && UniqueIds(tasks)
      && (forall i :: 0 <= i < |tasks| ==> tasks[i].id < nextId)
      && (forall j :: 0 <= j < |assignments| ==> assignments[j].task < nextId)
    }

    constructor (employees: map<EmployeeId, Employee>)
      ensures Valid()
      ensures tasks == [] && assignments == [] && notifications == [] && nextId == 1
      ensures this.employees == employees
    {
      tasks := [];
      assignments := [];
      this.employees := employees;
      notifications := [];
      nextId := 1;
    }

    /**
     * FcmNotificationService::sendAndSave: the notification row is saved
     * whatever the push delivery does, so the log grows by exactly one.
     */
    method Notify(n: Notice)
      modifies this`notifications
      ensures notifications == old(notifications) + [n]
    {
      notifications := notifications + [n];
    }

    /** The inner `foreach ($task->employees ...)` loop of every command. */
    method NotifyAssignees(c: Command, t: Task, shown: Option<DateTime>, rows: seq<Assignment>)
      modifies this`notifications
      ensures notifications == old(notifications) + NoticesTo(c, t, shown, TokenHolders(employees, AssigneesOf(rows, t.id)))
    {
      var emps := employees;
      ghost var before := notifications;
      var j := 0;
      while j < |rows|
        invariant 0 <= j <= |rows|
        invariant notifications == before + NoticesTo(c, t, shown, TokenHolders(emps, AssigneesOf(rows[..j], t.id)))
      {
        var r := rows[j];
        ghost var sent := NoticesTo(c, t, shown, TokenHolders(emps, AssigneesOf(rows[..j], t.id)));
        NoticesStep(c, t, shown, emps, rows, j);
        if r.task == t.id && HasToken(emps, r.employee) {
          var n := Notice(NoticeTitle(c), NoticeKind(c), r.employee, t.id, t.name, shown);
          Notify(n);
          AppendAssoc(before, sent, [n]);
        }
        j := j + 1;
      }
      assert rows[..|rows|] == rows;
    }

    /**
     * One scheduled command: visit the tasks its query selects, renew each,
     * reset its pivot rows where the command does, notify its token-holding
     * assignees, and count.  Task ids stay unique and the count is the
     * number of distinct tasks selected.
     */
    method RunPass(c: Command, now: DateTime) returns (count: nat)
      requires Valid()
      modifies this`tasks, this`assignments, this`notifications
      ensures Valid()
      ensures tasks == PassTasks(c, old(tasks), now)
      ensures assignments == PassRows(c, old(tasks), old(assignments), now)
      ensures notifications == old(notifications) + PassNotices(c, old(tasks), old(assignments), employees, now)
      ensures count == |SelectedIds(c, old(tasks), now)|
    {
      ghost var ts := tasks;
      count := VisitTasks(c, now);
      PassKeepsIdentity(c, ts, now);
      PassCountIsSelectedTasks(c, ts, now);
    }

    /** The command's `foreach ($tasks as $task)` loop. */
    method VisitTasks(c: Command, now: DateTime) returns (count: nat)
      modifies this`tasks, this`assignments, this`notifications
      ensures tasks == PassTasks(c, old(tasks), now)
      ensures assignments == PassRows(c, old(tasks), old(assignments), now)
      ensures notifications == old(notifications) + PassNotices(c, old(tasks), old(assignments), employees, now)
      ensures count == PassCount(c, old(tasks), now)
    {
      ghost var ts := tasks;
      ghost var before := notifications;
      var rows := assignments;
      var emps := employees;
      var n := |tasks|;
      var i := 0;
      count := 0;
      PassStart(c, now, ts, rows, emps, before);
      while i < n
        invariant i <= n == |ts| == |tasks|
        invariant PassedUpTo(c, now, ts, rows, emps, before, i, tasks, assignments, notifications, count)
      {
        ghost var t0 := tasks;
        ghost var a0 := assignments;
        ghost var n0 := notifications;
        var visited := VisitTask(c, now, i, rows);
        PassAdvance(c, now, ts, rows, emps, before, i, t0, a0, n0, count, visited, tasks, assignments, notifications);
        if visited {
          count := count + 1;
        }
        i := i + 1;
      }
      PassDone(c, now, ts, rows, emps, before, tasks, assignments, notifications, count);
    }

    /** The body of a command's loop for the task at position i, if the query selects it. */
    method VisitTask(c: Command, now: DateTime, i: nat, rows: seq<Assignment>) returns (visited: bool)
      requires i < |tasks|
      modifies this`tasks, this`assignments, this`notifications
      ensures visited == Selects(c, old(tasks)[i], now)
      ensures tasks == old(tasks)[i := Step(c, old(tasks)[i], now)]
      ensures assignments == if visited && ResetsAssignments(c) then PendingRows(old(assignments), {old(tasks)[i].id}) else old(assignments)
      ensures notifications == old(notifications) + if visited then TaskNotices(c, old(tasks)[i], now, rows, employees) else []
    {
      var t := tasks[i];
      visited := Selects(c, t, now);
      if visited {
        var renewed := Renewed(c, t, now);
        if c == ExpiryWarning {
          NotifyAssignees(c, t, t.deadline, rows);
          tasks := tasks[i := renewed];
        } else {
          tasks := tasks[i := renewed];
          if ResetsAssignments(c) {
            assignments := PendingRows(assignments, {t.id});
          }
          NotifyAssignees(c, t, renewed.deadline, rows);
        }
      }
    }

    /** tasks:reset-daily */
    method ResetDailyTasks(now: DateTime) returns (count: nat)
      requires Valid()
      modifies this`tasks, this`assignments, this`notifications
      ensures Valid() && |tasks| == |old(tasks)|
      ensures forall i :: 0 <= i < |tasks| ==>
        tasks[i] == if old(tasks)[i].kind == Daily && DueByDate(old(tasks)[i], now)
                    then old(tasks)[i].(deadline := Some(TomorrowAt(now, 19, 0, 0)), status := Pending)
                    else old(tasks)[i]
      ensures assignments == PendingRows(old(assignments), SelectedIds(DailyReset, old(tasks), now))
      ensures notifications == old(notifications) + PassNotices(DailyReset, old(tasks), old(assignments), employees, now)
      ensures count == |SelectedIds(DailyReset, old(tasks), now)|
    {
      count := RunPass(DailyReset, now);
    }

    /** tasks:reset-weekly */
    method ResetWeeklyTasks(now: DateTime) returns (count: nat)
      requires Valid()
      modifies this`tasks, this`assignments, this`notifications
      ensures Valid() && |tasks| == |old(tasks)|
      ensures forall i :: 0 <= i < |tasks| ==>
        tasks[i] == if old(tasks)[i].kind == Weekly && DueByDate(old(tasks)[i], now)
                    then old(tasks)[i].(deadline := Some(EndOfDay(AddDays(now, 7))), status := Pending)
                    else old(tasks)[i]
      ensures assignments == PendingRows(old(assignments), SelectedIds(WeeklyReset, old(tasks), now))
      ensures notifications == old(notifications) + PassNotices(WeeklyReset, old(tasks), old(assignments), employees, now)
      ensures count == |SelectedIds(WeeklyReset, old(tasks), now)|
    {
      count := RunPass(WeeklyReset, now);
    }

    /** tasks:reset-monthly: the new deadline is one month after the stored one. */
    method ResetMonthlyTasks(now: DateTime) returns (count: nat)
      requires Valid()
      modifies this`tasks, this`assignments, this`notifications
      ensures Valid() && |tasks| == |old(tasks)|
      ensures forall i :: 0 <= i < |tasks| ==>
        tasks[i] == if old(tasks)[i].kind == Monthly && DueByDate(old(tasks)[i], now)
                    then old(tasks)[i].(deadline := Some(EndOfDay(AddMonthNoOverflow(old(tasks)[i].deadline.value))), status := Pending)
                    else old(tasks)[i]
      ensures assignments == PendingRows(old(assignments), SelectedIds(MonthlyReset, old(tasks), now))
      ensures notifications == old(notifications) + PassNotices(MonthlyReset, old(tasks), old(assignments), employees, now)
      ensures count == |SelectedIds(MonthlyReset, old(tasks), now)|
    {
      count := RunPass(MonthlyReset, now);
    }

    /** tasks:reset-yearly: only tasks whose status is not pending. */
    method ResetYearlyTasks(now: DateTime) returns (count: nat)
      requires Valid()
      modifies this`tasks, this`assignments, this`notifications
      ensures Valid() && |tasks| == |old(tasks)|
      ensures forall i :: 0 <= i < |tasks| ==>
        tasks[i] == if old(tasks)[i].kind == Yearly && DueByDate(old(tasks)[i], now) && old(tasks)[i].status != Pending
                    then old(tasks)[i].(deadline := Some(EndOfDay(AddYearNoOverflow(old(tasks)[i].deadline.value))), status := Pending)
                    else old(tasks)[i]
      ensures assignments == PendingRows(old(assignments), SelectedIds(YearlyReset, old(tasks), now))
      ensures notifications == old(notifications) + PassNotices(YearlyReset, old(tasks), old(assignments), employees, now)
      ensures count == |SelectedIds(YearlyReset, old(tasks), now)|
    {
      count := RunPass(YearlyReset, now);
    }

    /** tasks:reset-expired: expired recurring tasks get a deadline counted from now; pivot rows untouched. */
    method ResetExpiredTasks(now: DateTime) returns (count: nat)
      requires Valid()
      modifies this`tasks, this`assignments, this`notifications
      ensures Valid() && |tasks| == |old(tasks)|
      ensures forall i :: 0 <= i < |tasks| ==>
        tasks[i] == if IsRecurring(old(tasks)[i].kind) && old(tasks)[i].status == Expired
                    then old(tasks)[i].(deadline := NowAnchoredDeadline(old(tasks)[i].kind, now, old(tasks)[i].deadline), status := Pending)
                    else old(tasks)[i]
      ensures assignments == old(assignments)
      ensures notifications == old(notifications) + PassNotices(ExpiredReset, old(tasks), old(assignments), employees, now)
      ensures count == |SelectedIds(ExpiredReset, old(tasks), now)|
    {
      count := RunPass(ExpiredReset, now);
    }

    /**
     * The expiring-soon sweep: pending tasks whose deadline is before one
     * hour from now are warned about, then marked expired and counted.
     * This is the sweep as intended; Passes.SweepAsWritten is what its
     * command file does as written.
     */
    method SendTaskExpirationNotifications(now: DateTime) returns (count: nat)
      requires Valid()
      modifies this`tasks, this`assignments, this`notifications
      ensures Valid() && |tasks| == |old(tasks)|
      ensures forall i :: 0 <= i < |tasks| ==>
        tasks[i] == if old(tasks)[i].status == Pending && old(tasks)[i].deadline.Some? && Before(old(tasks)[i].deadline.value, AddHour(now))
                    then old(tasks)[i].(status := Expired, expiredCount := old(tasks)[i].expiredCount + 1)
                    else old(tasks)[i]
      ensures assignments == old(assignments)
      ensures notifications == old(notifications) + PassNotices(ExpiryWarning, old(tasks), old(assignments), employees, now)
      ensures count == |SelectedIds(ExpiryWarning, old(tasks), now)|
    {
      count := RunPass(ExpiryWarning, now);
    }
  }

  // ---------------------------------------------------------------------------
  // Loop helpers
  // ---------------------------------------------------------------------------

  /** Extending the visited prefix by one task extends each running figure by that task's part. */
  lemma PrefixStep<X>(ts: seq<Task>, sel: Task -> bool, f: Task -> seq<X>, i: nat)
    requires i < |ts|
    ensures CountWhere(ts[..i + 1], sel) == CountWhere(ts[..i], sel) + (if sel(ts[i]) then 1 else 0)
    ensures IdsWhere(ts[..i + 1], sel) == IdsWhere(ts[..i], sel) + (if sel(ts[i]) then {ts[i].id} else {})
    ensures Collect(ts[..i + 1], sel, f) == Collect(ts[..i], sel, f) + (if sel(ts[i]) then f(ts[i]) else [])
  {
    assert ts[..i + 1][..i] == ts[..i];
  }

  /** The state of a pass after visiting the first i of the tasks ts. */
  ghost predicate PassedUpTo(c: Command, now: DateTime, ts: seq<Task>, rows: seq<Assignment>, emps: map<EmployeeId, Employee>,
                             before: seq<Notice>, i: nat, tasks: seq<Task>, assignments: seq<Assignment>, notifications: seq<Notice>, count: nat)
  {
    && i <= |ts|
    && tasks == PassTasks(c, ts[..i], now) + ts[i..]
    && assignments == PassRows(c, ts[..i], rows, now)
    && notifications == before + PassNotices(c, ts[..i], rows, emps, now)
    && count == PassCount(c, ts[..i], now)
  }

  lemma PassStart(c: Command, now: DateTime, ts: seq<Task>, rows: seq<Assignment>, emps: map<EmployeeId, Employee>, before: seq<Notice>)
    ensures PassedUpTo(c, now, ts, rows, emps, before, 0, ts, rows, before, 0)
  {
    assert ts[..0] == [] && ts[0..] == ts;
  }

  lemma PassDone(c: Command, now: DateTime, ts: seq<Task>, rows: seq<Assignment>, emps: map<EmployeeId, Employee>,
                 before: seq<Notice>, tasks: seq<Task>, assignments: seq<Assignment>, notifications: seq<Notice>, count: nat)
    requires PassedUpTo(c, now, ts, rows, emps, before, |ts|, tasks, assignments, notifications, count)
    ensures tasks == PassTasks(c, ts, now)
    ensures assignments == PassRows(c, ts, rows, now)
    ensures notifications == before + PassNotices(c, ts, rows, emps, now)
    ensures count == PassCount(c, ts, now)
  {
    assert ts[..|ts|] == ts && ts[|ts|..] == [];
  }

  /** Visiting task i, as VisitTask does, advances the pass by one task. */
  lemma PassAdvance(c: Command, now: DateTime, ts: seq<Task>, rows: seq<Assignment>, emps: map<EmployeeId, Employee>,
                    before: seq<Notice>, i: nat, t0: seq<Task>, a0: seq<Assignment>, n0: seq<Notice>, count: nat,
                    visited: bool, t1: seq<Task>, a1: seq<Assignment>, n1: seq<Notice>)
    requires i < |ts| && PassedUpTo(c, now, ts, rows, emps, before, i, t0, a0, n0, count)
    requires visited == Selects(c, t0[i], now)
    requires t1 == t0[i := Step(c, t0[i], now)]
    requires a1 == if visited && ResetsAssignments(c) then PendingRows(a0, {t0[i].id}) else a0
    requires n1 == n0 + if visited then TaskNotices(c, t0[i], now, rows, emps) else []
    ensures PassedUpTo(c, now, ts, rows, emps, before, i + 1, t1, a1, n1, count + if visited then 1 else 0)
  {
    assert t0[i] == ts[i];
    PrefixStep(ts, Selector(c, now), NoticesOf(c, now, rows, emps), i);
    PassTasksStep(c, ts, now, i);
    if visited && ResetsAssignments(c) {
      PendingRowsTwice(rows, SelectedIds(c, ts[..i], now), ts[i].id);
    }
    AppendAssoc(before, PassNotices(c, ts[..i], rows, emps, now), if visited then TaskNotices(c, ts[i], now, rows, emps) else []);
  }

  lemma PassTasksStep(c: Command, ts: seq<Task>, now: DateTime, i: nat)
    requires i < |ts|
    ensures (PassTasks(c, ts[..i], now) + ts[i..])[i := Step(c, ts[i], now)] == PassTasks(c, ts[..i + 1], now) + ts[i + 1..]
  {
    var l := (PassTasks(c, ts[..i], now) + ts[i..])[i := Step(c, ts[i], now)];
    var r := PassTasks(c, ts[..i + 1], now) + ts[i + 1..];
    assert |l| == |r|;
    forall k | 0 <= k < |l|
      ensures l[k] == r[k]
    {
      if k < i {
        assert l[k] == PassTasks(c, ts[..i], now)[k] == Step(c, ts[k], now);
      } else if k > i {
        assert l[k] == ts[k];
      }
    }
  }

  lemma AppendAssoc<X>(a: seq<X>, b: seq<X>, c: seq<X>)
    ensures a + b + c == a + (b + c)
  {
  }

  lemma PendingRowsTwice(rows: seq<Assignment>, ids: set<TaskId>, id: TaskId)
    ensures PendingRows(PendingRows(rows, ids), {id}) == PendingRows(rows, ids + {id})
  {
  }

  lemma NoticesToAppend(c: Command, t: Task, shown: Option<DateTime>, hs: seq<EmployeeId>, e: EmployeeId)
    ensures NoticesTo(c, t, shown, hs + [e]) == NoticesTo(c, t, shown, hs) + [Notice(NoticeTitle(c), NoticeKind(c), e, t.id, t.name, shown)]
  {
  }

  lemma NoticesStep(c: Command, t: Task, shown: Option<DateTime>, emps: map<EmployeeId, Employee>, rows: seq<Assignment>, j: nat)
    requires j < |rows|
    ensures NoticesTo(c, t, shown, TokenHolders(emps, AssigneesOf(rows[..j + 1], t.id)))
         == NoticesTo(c, t, shown, TokenHolders(emps, AssigneesOf(rows[..j], t.id)))
          + (if rows[j].task == t.id && HasToken(emps, rows[j].employee)
             then [Notice(NoticeTitle(c), NoticeKind(c), rows[j].employee, t.id, t.name, shown)] else [])
  {
    assert rows[..j + 1][..j] == rows[..j];
    var a := AssigneesOf(rows[..j], t.id);
    var e := rows[j].employee;
    var h := TokenHolders(emps, a);
    if rows[j].task == t.id {
      assert AssigneesOf(rows[..j + 1], t.id) == a + [e];
      assert (a + [e])[..|a|] == a;
      if HasToken(emps, e) {
        assert TokenHolders(emps, a + [e]) == h + [e];
        NoticesToAppend(c, t, shown, h, e);
      } else {
        assert TokenHolders(emps, a + [e]) == h;
      }
    } else {
      assert AssigneesOf(rows[..j + 1], t.id) == a;
    }
  }
}
