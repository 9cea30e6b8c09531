/**
 * The task store's entities: tasks, the task_assignments pivot rows,
 * employees and the notification records the push service saves.
 */
module TaskModel {
  import opened Wrappers
  import opened Calendar

  type TaskId = nat
  type EmployeeId = nat

  /**
   * The `type` column.  The controller's update action accepts any string of
   * at most 255 characters, or null, so values outside the five known ones
   * are representable.
   */
  datatype TaskType = Once | Daily | Weekly | Monthly | Yearly | Unlisted(text: Option<string>)

  /** The task's `status` column; an import writes whatever text its row holds. */
  datatype TaskStatus = Pending | Completed | Expired | Requested | UnlistedStatus(text: string)

  /** The pivot's `status` column: an enum with default 'pending'. */
  datatype AssignmentStatus = AssignmentPending | AssignmentCompleted | AssignmentExpired | AssignmentRequested

  datatype Task = Task(
    id: TaskId,
    name: string,
    description: string,
    kind: TaskType,
    deadline: Option<DateTime>,
    status: TaskStatus,
    createdBy: Option<EmployeeId>,
    photos: seq<string>,
    expiredCount: nat)

  /** One task_assignments row. */
  datatype Assignment = Assignment(task: TaskId, employee: EmployeeId, status: AssignmentStatus, assignedBy: Option<EmployeeId>)

  datatype Employee = Employee(role: string, deviceToken: Option<string>)

  /**
   * One saved notification.  The body text is not rendered: it is given by
   * the task name and the deadline it shows (None stands for "N/A").
   */
  datatype Notice = Notice(title: string, kind: string, recipient: EmployeeId, taskId: TaskId, taskName: string, shownDeadline: Option<DateTime>)

  // ---------------------------------------------------------------------------
  // Names of enumerated values
  // ---------------------------------------------------------------------------

  function TypeName(k: TaskType): Option<string> {
    match k
    case Once => Some("once")
    case Daily => Some("daily")
    case Weekly => Some("weekly")
    case Monthly => Some("monthly")
    case Yearly => Some("yearly")
    case Unlisted(text) => text
  }

  /** The stored `type` column read back from a (nullable) string. */
  function ParseType(s: Option<string>): TaskType {
    match s
    case None => Unlisted(None)
    case Some(t) =>
      if t == "once" then Once
      else if t == "daily" then Daily
      else if t == "weekly" then Weekly
      else if t == "monthly" then Monthly
      else if t == "yearly" then Yearly
      else Unlisted(Some(t))
  }

  /** A type is stored as its name: writing a name and reading it back is lossless. */
  lemma TypeNameRoundTrip(s: Option<string>)
    ensures TypeName(ParseType(s)) == s
  {
  }

  predicate CanonicalType(k: TaskType) {
    !k.Unlisted? || (k.text.Some? && k.text.value !in {"once", "daily", "weekly", "monthly", "yearly"})
  }

  lemma ParseTypeRoundTrip(k: TaskType)
    requires CanonicalType(k)
    ensures ParseType(TypeName(k)) == k
  {
  }

  function StatusName(s: TaskStatus): string {
    match s
    case Pending => "pending"
    case Completed => "completed"
    case Expired => "expired"
    case Requested => "requested"
    case UnlistedStatus(text) => text
  }

  function ParseStatus(s: string): TaskStatus {
    if s == "pending" then Pending
    else if s == "completed" then Completed
    else if s == "expired" then Expired
    else if s == "requested" then Requested
    else UnlistedStatus(s)
  }

  lemma StatusNameRoundTrip(s: string)
    ensures StatusName(ParseStatus(s)) == s
  {
  }

  predicate IsRecurring(k: TaskType) {
    k == Daily || k == Weekly || k == Monthly || k == Yearly
  }

  // ---------------------------------------------------------------------------
  // Employees and who gets notified
  // ---------------------------------------------------------------------------

  /** PHP truthiness of a string: null, "" and "0" are false. */
  predicate Truthy(s: Option<string>) {
    s.Some? && s.value != "" && s.value != "0"
  }

  /** `if ($employee->device_token)` for an existing employee. */
  predicate HasToken(emps: map<EmployeeId, Employee>, e: EmployeeId) {
    e in emps && Truthy(emps[e].deviceToken)
  }

  /** `$task->employees`: the employees of the task's pivot rows, in row order. */
  function AssigneesOf(rows: seq<Assignment>, id: TaskId): (es: seq<EmployeeId>)
    ensures |es| <= |rows|
  {
    if rows == [] then []
    else
      var last := rows[|rows| - 1];
      AssigneesOf(rows[..|rows| - 1], id) + (if last.task == id then [last.employee] else [])
  }

  lemma {:induction false} AssigneesOfMembership(rows: seq<Assignment>, id: TaskId, e: EmployeeId)
    ensures e in AssigneesOf(rows, id) <==> exists j :: 0 <= j < |rows| && rows[j].task == id && rows[j].employee == e
  {
    if rows != [] {
      var p := rows[..|rows| - 1];
      AssigneesOfMembership(p, id, e);
      if e in AssigneesOf(p, id) {
        var j :| 0 <= j < |p| && p[j].task == id && p[j].employee == e;
        assert rows[j] == p[j];
      }
      if exists j :: 0 <= j < |rows| && rows[j].task == id && rows[j].employee == e {
        var j :| 0 <= j < |rows| && rows[j].task == id && rows[j].employee == e;
        if j < |p| {
          assert p[j] == rows[j];
        }
      }
    }
  }

  /** The employees among es that the push loop notifies, in order and with repetitions. */
  function TokenHolders(emps: map<EmployeeId, Employee>, es: seq<EmployeeId>): (hs: seq<EmployeeId>)
    ensures |hs| <= |es|
  {
    if es == [] then []
    else
      var last := es[|es| - 1];
      TokenHolders(emps, es[..|es| - 1]) + (if HasToken(emps, last) then [last] else [])
  }

  /** Each token holder is notified as often as it occurs; everyone else never. */
  lemma {:induction false} TokenHoldersCount(emps: map<EmployeeId, Employee>, es: seq<EmployeeId>, e: EmployeeId)
    ensures multiset(TokenHolders(emps, es))[e] == if HasToken(emps, e) then multiset(es)[e] else 0
  {
    if es != [] {
      var p := es[..|es| - 1];
      TokenHoldersCount(emps, p, e);
      assert es == p + [es[|es| - 1]];
    }
  }

  // ---------------------------------------------------------------------------
  // Counting rows that match a query
  // ---------------------------------------------------------------------------

  /** The number of rows of ts the query sel matches. */
  function CountWhere(ts: seq<Task>, sel: Task -> bool): nat {
    if ts == [] then 0
    else CountWhere(ts[..|ts| - 1], sel) + (if sel(ts[|ts| - 1]) then 1 else 0)
  }

  /** The positions of ts holding a task the query sel matches. */
  function PositionsWhere(ts: seq<Task>, sel: Task -> bool): set<nat> {
    set i: nat | i < |ts| && sel(ts[i])
  }

  /** A count is the number of rows that match. */
  lemma {:induction false} CountWhereIsPositions(ts: seq<Task>, sel: Task -> bool)
    ensures CountWhere(ts, sel) == |PositionsWhere(ts, sel)|
  {
    if ts != [] {
      var n := |ts| - 1;
      var p := ts[..n];
      CountWhereIsPositions(p, sel);
      var before := PositionsWhere(p, sel);
      var after := PositionsWhere(ts, sel);
      var extra := if sel(ts[n]) then {n} else {};
      forall k | k in after
        ensures k in before + extra
      {
        if k < n {
          assert p[k] == ts[k];
        }
      }
      forall k | k in before + extra
        ensures k in after
      {
        if k < n {
          assert p[k] == ts[k];
        }
      }
      assert after == before + extra;
      assert n !in before;
    }
  }

  function WithStatus(s: TaskStatus): Task -> bool {
    (t: Task) => t.status == s
  }

  function WithType(k: TaskType): Task -> bool {
    (t: Task) => t.kind == k
  }

  function WithUnlistedStatus(): Task -> bool {
    (t: Task) => t.status.UnlistedStatus?
  }

  /** The four status figures and the tasks with some other status add up to the total. */
  lemma {:induction false} StatusFiguresPartition(ts: seq<Task>)
    ensures CountWhere(ts, WithStatus(Pending)) + CountWhere(ts, WithStatus(Completed)) + CountWhere(ts, WithStatus(Expired))
          + CountWhere(ts, WithStatus(Requested)) + CountWhere(ts, WithUnlistedStatus()) == |ts|
  {
    if ts != [] {
      StatusFiguresPartition(ts[..|ts| - 1]);
    }
  }
}
