/**
 * The read-only figures of the controller: the admin dashboard, the task
 * statistics and the employee dashboard.  Each figure is a COUNT(*) over
 * the tasks table (or over the employee's tasks) with one equality filter.
 */
module Dashboard {
  import opened Wrappers
  import opened TaskModel
  import opened Pivot

  datatype AdminFigures = AdminFigures(
    totalTasks: nat, pendingTasks: nat, completedTasks: nat, expiredTasks: nat, requestedTasks: nat, totalEmployees: nat)

  datatype TaskStatistics = TaskStatistics(
    daily: nat, weekly: nat, monthly: nat, yearly: nat, once: nat,
    pending: nat, completed: nat, expired: nat, requested: nat)

  datatype EmployeeFigures = EmployeeFigures(
    dailyTasks: nat, weeklyTasks: nat, monthlyTasks: nat, yearlyTasks: nat, onceTasks: nat, requestedTasks: nat)

  /** The ids of the employees whose role is r. */
  function HoldersOf(emps: map<EmployeeId, Employee>, r: string): set<EmployeeId> {
    set e | e in emps && emps[e].role == r
  }

  /** `Employee::where('role', r)->count()` */
  function RoleCount(emps: map<EmployeeId, Employee>, r: string): (n: nat)
    ensures n <= |emps|
    ensures n == 0 <==> forall e :: e in emps ==> emps[e].role != r
  {
    var holders := HoldersOf(emps, r);
    assert holders <= emps.Keys;
    SubsetSize(holders, emps.Keys);
    assert forall e :: e in emps && emps[e].role == r ==> e in holders;
    |holders|
  }

  /** The employees with role r and those with any other role add up to all employees. */
  lemma RolePartition(emps: map<EmployeeId, Employee>, r: string)
    ensures forall e :: e in emps.Keys - HoldersOf(emps, r) <==> e in emps && emps[e].role != r
    ensures RoleCount(emps, r) + |emps.Keys - HoldersOf(emps, r)| == |emps|
  {
  }

  /** Adding a new employee raises the count of its role by one and leaves every other role's count alone. */
  lemma RoleCountInsert(emps: map<EmployeeId, Employee>, e: EmployeeId, emp: Employee, r: string)
    requires e !in emps
    ensures RoleCount(emps[e := emp], r) == RoleCount(emps, r) + if emp.role == r then 1 else 0
  {
    if emp.role == r {
      assert HoldersOf(emps[e := emp], r) == HoldersOf(emps, r) + {e};
    } else {
      assert HoldersOf(emps[e := emp], r) == HoldersOf(emps, r);
    }
  }

  lemma SubsetSize<T>(a: set<T>, b: set<T>)
    requires a <= b
    ensures |a| <= |b|
  {
    assert b == a + (b - a);
  }

  /** adminDashboard: each figure counts the tasks with that status; employees count role 'employee'. */
  function AdminDashboard(ts: seq<Task>, emps: map<EmployeeId, Employee>): (r: AdminFigures)
    ensures r.totalTasks == |ts|
    ensures r.pendingTasks == |PositionsWhere(ts, WithStatus(Pending))|
    ensures r.completedTasks == |PositionsWhere(ts, WithStatus(Completed))|
    ensures r.expiredTasks == |PositionsWhere(ts, WithStatus(Expired))|
    ensures r.requestedTasks == |PositionsWhere(ts, WithStatus(Requested))|
    ensures r.pendingTasks + r.completedTasks + r.expiredTasks + r.requestedTasks <= r.totalTasks
    ensures r.totalEmployees == |HoldersOf(emps, "employee")| <= |emps|
  {
    CountWhereIsPositions(ts, WithStatus(Pending));
    CountWhereIsPositions(ts, WithStatus(Completed));
    CountWhereIsPositions(ts, WithStatus(Expired));
    CountWhereIsPositions(ts, WithStatus(Requested));
    StatusFiguresPartition(ts);
    AdminFigures(
      |ts|,
      CountWhere(ts, WithStatus(Pending)),
      CountWhere(ts, WithStatus(Completed)),
      CountWhere(ts, WithStatus(Expired)),
      CountWhere(ts, WithStatus(Requested)),
      RoleCount(emps, "employee"))
  }

  /** statistics: the tasks per type and per status. */
  function Statistics(ts: seq<Task>): (r: TaskStatistics)
    ensures r.daily == |PositionsWhere(ts, WithType(Daily))|
    ensures r.weekly == |PositionsWhere(ts, WithType(Weekly))|
    ensures r.monthly == |PositionsWhere(ts, WithType(Monthly))|
    ensures r.yearly == |PositionsWhere(ts, WithType(Yearly))|
    ensures r.once == |PositionsWhere(ts, WithType(Once))|
    ensures r.pending == |PositionsWhere(ts, WithStatus(Pending))|
    ensures r.completed == |PositionsWhere(ts, WithStatus(Completed))|
    ensures r.expired == |PositionsWhere(ts, WithStatus(Expired))|
    ensures r.requested == |PositionsWhere(ts, WithStatus(Requested))|
  {
    CountWhereIsPositions(ts, WithType(Daily));
    CountWhereIsPositions(ts, WithType(Weekly));
    CountWhereIsPositions(ts, WithType(Monthly));
    CountWhereIsPositions(ts, WithType(Yearly));
    CountWhereIsPositions(ts, WithType(Once));
    CountWhereIsPositions(ts, WithStatus(Pending));
    CountWhereIsPositions(ts, WithStatus(Completed));
    CountWhereIsPositions(ts, WithStatus(Expired));
    CountWhereIsPositions(ts, WithStatus(Requested));
    TaskStatistics(
      CountWhere(ts, WithType(Daily)), CountWhere(ts, WithType(Weekly)), CountWhere(ts, WithType(Monthly)),
      CountWhere(ts, WithType(Yearly)), CountWhere(ts, WithType(Once)),
      CountWhere(ts, WithStatus(Pending)), CountWhere(ts, WithStatus(Completed)),
      CountWhere(ts, WithStatus(Expired)), CountWhere(ts, WithStatus(Requested)))
  }

  function WithUnlistedType(): Task -> bool {
    (t: Task) => t.kind.Unlisted?
  }

  /**
   * The five type figures plus the tasks of some other (or no) type add up
   * to the number of tasks; with the statuses likewise.
   */
  lemma {:induction false} StatisticsPartition(ts: seq<Task>)
    ensures var r := Statistics(ts);
      && r.daily + r.weekly + r.monthly + r.yearly + r.once + CountWhere(ts, WithUnlistedType()) == |ts|
      && r.pending + r.completed + r.expired + r.requested + CountWhere(ts, WithUnlistedStatus()) == |ts|
  {
    TypeFiguresPartition(ts);
    StatusFiguresPartition(ts);
  }

  lemma {:induction false} TypeFiguresPartition(ts: seq<Task>)
    ensures CountWhere(ts, WithType(Daily)) + CountWhere(ts, WithType(Weekly)) + CountWhere(ts, WithType(Monthly))
          + CountWhere(ts, WithType(Yearly)) + CountWhere(ts, WithType(Once)) + CountWhere(ts, WithUnlistedType()) == |ts|
  {
    if ts != [] {
      TypeFiguresPartition(ts[..|ts| - 1]);
    }
  }

  // ---------------------------------------------------------------------------
  // The employee dashboard
  // ---------------------------------------------------------------------------

  /** The number of pivot rows linking task id and employee e. */
  function RowCount(rows: seq<Assignment>, id: TaskId, e: EmployeeId): nat {
    if rows == [] then 0
    else
      var last := rows[|rows| - 1];
      RowCount(rows[..|rows| - 1], id, e) + (if last.task == id && last.employee == e then 1 else 0)
  }

  function Copies(t: Task, n: nat): (r: seq<Task>)
    ensures |r| == n
  {
    seq(n, _ => t)
  }

  /**
   * `$employee->tasks()->get()`: the joined rows, one per pivot row of the
   * employee; a task the employee holds twice appears twice.
   */
  function EmployeeTasks(ts: seq<Task>, rows: seq<Assignment>, e: EmployeeId): seq<Task> {
    if ts == [] then []
    else
      var last := ts[|ts| - 1];
      EmployeeTasks(ts[..|ts| - 1], rows, e) + Copies(last, RowCount(rows, last.id, e))
  }

  /**
   * employeeDashboard: counts per type over the employee's tasks and a
   * constant 0 for requested tasks.  The task list it also returns formats
   * every deadline, which fails on a task without one: that request ends in
   * a server error (None).
   */
  function EmployeeDashboard(ts: seq<Task>, rows: seq<Assignment>, e: EmployeeId): (r: Option<EmployeeFigures>)
    ensures r.Some? <==> forall t :: t in EmployeeTasks(ts, rows, e) ==> t.deadline.Some?
    ensures r.Some? ==> r.value.requestedTasks == 0
  {
    var mine := EmployeeTasks(ts, rows, e);
    if exists t :: t in mine && t.deadline.None? then None
    else Some(EmployeeFigures(
      CountWhere(mine, WithType(Daily)), CountWhere(mine, WithType(Weekly)), CountWhere(mine, WithType(Monthly)),
      CountWhere(mine, WithType(Yearly)), CountWhere(mine, WithType(Once)), 0))
  }

  lemma {:induction false} CountWhereAppend(a: seq<Task>, b: seq<Task>, sel: Task -> bool)
    ensures CountWhere(a + b, sel) == CountWhere(a, sel) + CountWhere(b, sel)
    decreases |b|
  {
    if b == [] {
      assert a + b == a;
    } else {
      var n := |b| - 1;
      assert (a + b)[..|a + b| - 1] == a + b[..n];
      CountWhereAppend(a, b[..n], sel);
    }
  }

  lemma {:induction false} CountWhereCopies(t: Task, n: nat, sel: Task -> bool)
    ensures CountWhere(Copies(t, n), sel) == if sel(t) then n else 0
  {
    if n > 0 {
      assert Copies(t, n)[..n - 1] == Copies(t, n - 1);
      CountWhereCopies(t, n - 1, sel);
    }
  }

  /** Without duplicate rows, an employee holds a task at most once, and holds it exactly when assigned. */
  lemma {:induction false} RowCountOfAssignee(rows: seq<Assignment>, id: TaskId, e: EmployeeId)
    requires NoDuplicateAssignees(rows, id)
    ensures RowCount(rows, id, e) == if e in AssigneeSet(rows, id) then 1 else 0
  {
    if rows != [] {
      var p := rows[..|rows| - 1];
      var last := rows[|rows| - 1];
      assert NoDuplicateAssignees(p, id);
      RowCountOfAssignee(p, id, e);
      assert rows == p + [last];
    }
  }

  /** The tasks the employee is assigned to that sel matches, counted once each. */
  function AssignedWhere(rows: seq<Assignment>, e: EmployeeId, sel: Task -> bool): Task -> bool {
    (t: Task) => sel(t) && e in AssigneeSet(rows, t.id)
  }

  /**
   * When no task has two rows for the same employee, each type figure of
   * the employee dashboard is the number of tasks of that type the
   * employee is assigned to.
   */
  lemma {:induction false} EmployeeFiguresCountAssignedTasks(ts: seq<Task>, rows: seq<Assignment>, e: EmployeeId, sel: Task -> bool)
    requires forall i :: 0 <= i < |ts| ==> NoDuplicateAssignees(rows, ts[i].id)
    ensures CountWhere(EmployeeTasks(ts, rows, e), sel) == CountWhere(ts, AssignedWhere(rows, e, sel))
  {
    if ts != [] {
      var p := ts[..|ts| - 1];
      var last := ts[|ts| - 1];
      EmployeeFiguresCountAssignedTasks(p, rows, e, sel);
      CountWhereAppend(EmployeeTasks(p, rows, e), Copies(last, RowCount(rows, last.id, e)), sel);
      CountWhereCopies(last, RowCount(rows, last.id, e), sel);
      RowCountOfAssignee(rows, last.id, e);
    }
  }
}
