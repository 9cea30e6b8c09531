/**
 * The TaskController actions that write: the expiry sweep inside index,
 * store, requestTask, updateTaskStatus, update and requestReassignTask.
 * Each takes the request's fields after Laravel's default middleware
 * (trimmed, empty strings turned into null) and answers with the HTTP
 * status code of its response.
 */
module Controller {
  import opened Wrappers
  import opened Calendar
  import opened TaskModel
  import opened Passes
  import opened Pivot
  import opened Store

  const OK: nat := 200
  const CREATED: nat := 201
  const FORBIDDEN: nat := 403
  const NOT_FOUND: nat := 404
  const UNPROCESSABLE: nat := 422

  /** A date field of a request: absent, text that is no date, or a date. */
  datatype DateField = Absent | NotADate | Date(value: DateTime)

  /** `required|string`: present and not empty. */
  predicate Given(s: Option<string>) {
    s.Some? && s.value != ""
  }

  /** `employee_ids.*` => `exists:employees,id` */
  predicate AllExist(emps: map<EmployeeId, Employee>, ids: seq<EmployeeId>) {
    forall k :: 0 <= k < |ids| ==> ids[k] in emps
  }

  /**
   * `required|array` of a list field: present and not empty.  The update
   * actions test `$request->filled(...)` instead, which holds for every
   * array, the empty one included, so there the test is only `Some?`.
   */
  predicate RequiredList<X>(xs: Option<seq<X>>) {
    xs.Some? && |xs.value| > 0
  }

  /** The rules store and requestTask share: name, description, type and a deadline after now. */
  predicate NewTaskValid(now: DateTime, name: Option<string>, description: Option<string>, typeText: Option<string>, deadline: DateField) {
    && Given(name) && |name.value| <= 255
    && Given(description)
    && typeText.Some? && typeText.value in {"daily", "weekly", "monthly", "yearly", "once"}
    && deadline.Date? && Before(now, deadline.value)
  }

  /** The row Task::create inserts for store and requestTask. */
  function NewTask(id: TaskId, name: string, description: string, typeText: string, deadline: DateTime): Task {
    Task(id, name, description, ParseType(Some(typeText)), Some(deadline), Pending, None, [], 0)
  }

  /** A task created through the API has one of the five types, pending status and its deadline. */
  lemma NewTaskIsWellFormed(id: TaskId, name: string, description: string, typeText: string, deadline: DateTime)
    requires typeText in {"daily", "weekly", "monthly", "yearly", "once"}
    ensures var t := NewTask(id, name, description, typeText, deadline);
      && !t.kind.Unlisted? && TypeName(t.kind) == Some(typeText)
      && (IsRecurring(t.kind) <==> typeText != "once")
      && t.status == Pending && t.deadline == Some(deadline)
  {
    TypeNameRoundTrip(Some(typeText));
  }

  /** Route model binding: the position of the task with this id. */
  function Find(ts: seq<Task>, id: TaskId): (r: Option<nat>)
    ensures r.Some? ==> r.value < |ts| && ts[r.value].id == id
    ensures r.None? ==> forall i :: 0 <= i < |ts| ==> ts[i].id != id
  {
    if ts == [] then None
    else if ts[|ts| - 1].id == id then Some(|ts| - 1)
    else Find(ts[..|ts| - 1], id)
  }

  // ---------------------------------------------------------------------------
  // index: the listing query and its expiry sweep
  // ---------------------------------------------------------------------------

  /** The `type` and `status` filters, each applied only when the request value is truthy. */
  predicate Listed(t: Task, typeFilter: Option<string>, statusFilter: Option<string>) {
    && (Truthy(typeFilter) ==> TypeName(t.kind) == typeFilter)
    && (Truthy(statusFilter) ==> Some(StatusName(t.status)) == statusFilter)
  }

  function ListedBy(typeFilter: Option<string>, statusFilter: Option<string>): Task -> bool {
    (t: Task) => Listed(t, typeFilter, statusFilter)
  }

  /**
   * `$task->deadline < Carbon::now()`.  PHP compares null with an object as
   * booleans (false < true), so a task without a deadline counts as overdue.
   */
  predicate Overdue(t: Task, now: DateTime) {
    t.deadline.None? || Before(t.deadline.value, now)
  }

  /** What the sweep does to one listed task. */
  function Swept(t: Task, now: DateTime): Task {
    if t.status == Pending && Overdue(t, now) then t.(status := Expired) else t
  }

  function SweptBy(now: DateTime): Task -> seq<Task> {
    (t: Task) => [Swept(t, now)]
  }

  /** The tasks table after index. */
  function IndexTasks(ts: seq<Task>, now: DateTime, typeFilter: Option<string>, statusFilter: Option<string>): (r: seq<Task>)
    ensures |r| == |ts|
  {
    seq(|ts|, i requires 0 <= i < |ts| => if Listed(ts[i], typeFilter, statusFilter) then Swept(ts[i], now) else ts[i])
  }

  /**
   * index: list the tasks the filters select and expire the pending ones
   * among them whose deadline has passed.
   */
  method Index(s: TaskStore, now: DateTime, typeFilter: Option<string>, statusFilter: Option<string>) returns (listed: seq<Task>)
    requires s.Valid()
    modifies s`tasks
    ensures s.Valid()
    ensures s.tasks == IndexTasks(old(s.tasks), now, typeFilter, statusFilter)
    ensures listed == Collect(old(s.tasks), ListedBy(typeFilter, statusFilter), SweptBy(now))
  {
    ghost var ts := s.tasks;
    listed := SweepListed(s, now, typeFilter, statusFilter);
    IndexKeepsIds(ts, now, typeFilter, statusFilter);
  }

  /** The `foreach` of index over the tasks, in table order. */
  method SweepListed(s: TaskStore, now: DateTime, typeFilter: Option<string>, statusFilter: Option<string>) returns (listed: seq<Task>)
    modifies s`tasks
    ensures s.tasks == IndexTasks(old(s.tasks), now, typeFilter, statusFilter)
    ensures listed == Collect(old(s.tasks), ListedBy(typeFilter, statusFilter), SweptBy(now))
  {
    ghost var ts := s.tasks;
    listed := [];
    var n := |s.tasks|;
    var i := 0;
    while i < n
      invariant i <= n == |ts| == |s.tasks|
      invariant IndexedUpTo(ts, now, typeFilter, statusFilter, i, s.tasks, listed)
    {
      var t := s.tasks[i];
      ghost var t0 := s.tasks;
      ghost var l0 := listed;
      if Listed(t, typeFilter, statusFilter) {
        if t.status == Pending && Overdue(t, now) {
          s.tasks := s.tasks[i := t.(status := Expired)];
        }
        listed := listed + [Swept(t, now)];
      }
      IndexAdvance(ts, now, typeFilter, statusFilter, i, t0, l0, s.tasks, listed);
      i := i + 1;
    }
    assert ts[..|ts|] == ts;
  }

  /** The sweep of index keeps every task's id, so ids stay unique. */
  lemma IndexKeepsIds(ts: seq<Task>, now: DateTime, typeFilter: Option<string>, statusFilter: Option<string>)
    ensures forall i :: 0 <= i < |ts| ==> IndexTasks(ts, now, typeFilter, statusFilter)[i].id == ts[i].id
    ensures UniqueIds(ts) ==> UniqueIds(IndexTasks(ts, now, typeFilter, statusFilter))
  {
  }

  /** The state of index's loop after the first i tasks of ts. */
  ghost predicate IndexedUpTo(ts: seq<Task>, now: DateTime, typeFilter: Option<string>, statusFilter: Option<string>,
                              i: nat, tasks: seq<Task>, listed: seq<Task>)
  {
    && i <= |ts| == |tasks|
    && (forall k :: 0 <= k < i ==> tasks[k] == IndexTasks(ts, now, typeFilter, statusFilter)[k])
    && (forall k :: i <= k < |ts| ==> tasks[k] == ts[k])
    && listed == Collect(ts[..i], ListedBy(typeFilter, statusFilter), SweptBy(now))
  }

  lemma IndexAdvance(ts: seq<Task>, now: DateTime, typeFilter: Option<string>, statusFilter: Option<string>,
                     i: nat, t0: seq<Task>, l0: seq<Task>, t1: seq<Task>, l1: seq<Task>)
    requires i < |ts| && IndexedUpTo(ts, now, typeFilter, statusFilter, i, t0, l0)
    requires t1 == if Listed(t0[i], typeFilter, statusFilter) && t0[i].status == Pending && Overdue(t0[i], now)
                   then t0[i := t0[i].(status := Expired)] else t0
    requires l1 == l0 + if Listed(t0[i], typeFilter, statusFilter) then [Swept(t0[i], now)] else []
    ensures IndexedUpTo(ts, now, typeFilter, statusFilter, i + 1, t1, l1)
  {
    PrefixStep(ts, ListedBy(typeFilter, statusFilter), SweptBy(now), i);
  }

  /**
   * After index no listed task is pending and overdue; the sweep changes
   * only the status, from pending to expired, and unlike the scheduled
   * expiry sweep does not count the expiry.  Running it twice changes
   * nothing more.
   */
  lemma {:induction false} IndexSweepEffect(ts: seq<Task>, now: DateTime, typeFilter: Option<string>, statusFilter: Option<string>)
    ensures var r := IndexTasks(ts, now, typeFilter, statusFilter);
      && (forall i :: 0 <= i < |ts| && Listed(ts[i], typeFilter, statusFilter) ==> !(r[i].status == Pending && Overdue(r[i], now)))
      && (forall i :: 0 <= i < |ts| ==> r[i] == ts[i] || (ts[i].status == Pending && r[i] == ts[i].(status := Expired)))
      && (forall i :: 0 <= i < |ts| ==> r[i].expiredCount == ts[i].expiredCount)
      && IndexTasks(r, now, typeFilter, statusFilter) == r
  {
    var r := IndexTasks(ts, now, typeFilter, statusFilter);
    var r2 := IndexTasks(r, now, typeFilter, statusFilter);
    forall i | 0 <= i < |ts|
      ensures r2[i] == r[i]
    {
      if Listed(ts[i], typeFilter, statusFilter) && ts[i].status == Pending && Overdue(ts[i], now) {
        assert r[i].status == Expired;
      }
    }
  }

  /**
   * A pending task without a deadline: index expires it, while the
   * scheduled expiry sweep never selects it.
   */
  lemma NullDeadlineExpiresOnListing(t: Task, now: DateTime)
    requires t.status == Pending && t.deadline.None?
    ensures IndexTasks([t], now, None, None) == [t.(status := Expired)]
    ensures !Selects(ExpiryWarning, t, now)
  {
    assert IndexTasks([t], now, None, None)[0] == t.(status := Expired);
  }

  // ---------------------------------------------------------------------------
  // store and requestTask
  // ---------------------------------------------------------------------------

  /** store: validate, create a pending task and attach the listed employees (duplicates included). */
  method StoreTask(s: TaskStore, now: DateTime, name: Option<string>, description: Option<string>, typeText: Option<string>,
                   deadline: DateField, employeeIds: Option<seq<EmployeeId>>) returns (code: nat, id: Option<TaskId>)
    requires s.Valid()
    modifies s`tasks, s`assignments, s`nextId
    ensures s.Valid()
    ensures code == CREATED || code == UNPROCESSABLE
    ensures code == CREATED <==>
      NewTaskValid(now, name, description, typeText, deadline) && RequiredList(employeeIds) && AllExist(s.employees, employeeIds.value)
    ensures code == UNPROCESSABLE ==>
      id.None? && s.tasks == old(s.tasks) && s.assignments == old(s.assignments) && s.nextId == old(s.nextId)
    ensures code == CREATED ==>
      && id == Some(old(s.nextId)) && s.nextId == old(s.nextId) + 1
      && s.tasks == old(s.tasks) + [NewTask(old(s.nextId), name.value, description.value, typeText.value, deadline.value)]
      && s.assignments == old(s.assignments) + AttachRows(old(s.nextId), employeeIds.value, None)
      && AssigneesOf(s.assignments, old(s.nextId)) == employeeIds.value
  {
    if !(NewTaskValid(now, name, description, typeText, deadline) && RequiredList(employeeIds) && AllExist(s.employees, employeeIds.value)) {
      return UNPROCESSABLE, None;
    }
    var newId := CreateTask(s, NewTask(s.nextId, name.value, description.value, typeText.value, deadline.value));
    AttachTo(s, newId, employeeIds.value);
    code, id := CREATED, Some(newId);
  }

  /** requestTask: the same rules without employee_ids; the requesting employee is attached. */
  method RequestTask(s: TaskStore, now: DateTime, caller: EmployeeId, name: Option<string>, description: Option<string>,
                     typeText: Option<string>, deadline: DateField) returns (code: nat, id: Option<TaskId>)
    requires s.Valid()
    modifies s`tasks, s`assignments, s`nextId
    ensures s.Valid()
    ensures code == CREATED || code == UNPROCESSABLE
    ensures code == CREATED <==> NewTaskValid(now, name, description, typeText, deadline)
    ensures code == UNPROCESSABLE ==>
      id.None? && s.tasks == old(s.tasks) && s.assignments == old(s.assignments) && s.nextId == old(s.nextId)
    ensures code == CREATED ==>
      && id == Some(old(s.nextId)) && s.nextId == old(s.nextId) + 1
      && s.tasks == old(s.tasks) + [NewTask(old(s.nextId), name.value, description.value, typeText.value, deadline.value)]
      && s.assignments == old(s.assignments) + [Assignment(old(s.nextId), caller, AssignmentPending, None)]
      && AssigneesOf(s.assignments, old(s.nextId)) == [caller]
  {
    if !NewTaskValid(now, name, description, typeText, deadline) {
      return UNPROCESSABLE, None;
    }
    var newId := CreateTask(s, NewTask(s.nextId, name.value, description.value, typeText.value, deadline.value));
    AttachTo(s, newId, [caller]);
    code, id := CREATED, Some(newId);
  }

  /** Task::create: insert the row under the next auto-increment id. */
  method CreateTask(s: TaskStore, t: Task) returns (id: TaskId)
    requires s.Valid() && t.id == s.nextId
    modifies s`tasks, s`nextId
    ensures id == old(s.nextId) && s.nextId == id + 1
    ensures s.tasks == old(s.tasks) + [t]
    ensures s.Valid()
    ensures forall j :: 0 <= j < |s.assignments| ==> s.assignments[j].task != id
  {
    id := s.nextId;
    s.tasks := s.tasks + [t];
    s.nextId := s.nextId + 1;
  }

  /** `$task->employees()->attach($ids)` on a task that has no rows yet. */
  method AttachTo(s: TaskStore, id: TaskId, ids: seq<EmployeeId>)
    requires s.Valid() && id < s.nextId
    requires forall j :: 0 <= j < |s.assignments| ==> s.assignments[j].task != id
    modifies s`assignments
    ensures s.assignments == old(s.assignments) + AttachRows(id, ids, None)
    ensures AssigneesOf(s.assignments, id) == ids
    ensures s.Valid()
  {
    AssigneesOfUnused(s.assignments, id);
    AssigneesOfAppend(s.assignments, AttachRows(id, ids, None), id);
    AssigneesOfAttach(id, ids, None, id);
    s.assignments := s.assignments + AttachRows(id, ids, None);
  }

  // ---------------------------------------------------------------------------
  // updateTaskStatus and update
  // ---------------------------------------------------------------------------

  /** The validation rules of updateTaskStatus. */
  predicate StatusUpdateValid(emps: map<EmployeeId, Employee>, statusText: Option<string>, employeeIds: Option<seq<EmployeeId>>) {
    && statusText.Some? && statusText.value in {"completed", "expired", "requested", "pending"}
    && (employeeIds.Some? ==> AllExist(emps, employeeIds.value))
  }

  /** The photo list after an upload: the stored photos followed by the new ones. */
  function MergedPhotos(existing: seq<string>, incoming: seq<string>): (r: seq<string>)
    ensures |r| == |existing| + |incoming|
    ensures r[..|existing|] == existing && r[|existing|..] == incoming
  {
    existing + incoming
  }

  /**
   * The photo list as updateTaskStatus computes it: the existing list is
   * read from `photo_base64`, which is not an attribute of a task and so
   * always reads null, making the "existing" part empty.
   */
  function PhotosAsWritten(t: Task, incoming: seq<string>): seq<string> {
    var existingAttribute: Option<seq<string>> := None;
    var existing := if existingAttribute.Some? then existingAttribute.value else [];
    existing + incoming
  }

  /** As written, an upload replaces a task's photos instead of adding to them. */
  lemma PhotosAsWrittenDropsStoredPhotos(t: Task, incoming: seq<string>)
    ensures PhotosAsWritten(t, incoming) == incoming
    ensures t.photos != [] ==> PhotosAsWritten(t, incoming) != MergedPhotos(t.photos, incoming)
  {
    if t.photos != [] {
      assert |MergedPhotos(t.photos, incoming)| > |incoming|;
    }
  }

  lemma PhotoUploadExample()
    ensures var t := Task(7, "clean", "", Daily, None, Pending, Some(1), ["a"], 0);
      PhotosAsWritten(t, ["b"]) == ["b"] && MergedPhotos(t.photos, ["b"]) == ["a", "b"]
  {
  }

  /** Replacing the pivot rows of an existing task keeps every row's task id known. */
  lemma SyncKeepsRowsKnown(rows: seq<Assignment>, id: TaskId, ids: seq<EmployeeId>, bound: nat)
    requires id < bound && forall j :: 0 <= j < |rows| ==> rows[j].task < bound
    ensures forall j :: 0 <= j < |SyncRows(rows, id, ids)| ==> SyncRows(rows, id, ids)[j].task < bound
  {
    var keep := set e | e in ids;
    var newIds := Fresh(ids, AssigneeSet(rows, id));
    KeepOnlyMembership(rows, id, keep);
    AttachMembership(id, newIds, None);
    var r := SyncRows(rows, id, ids);
    forall j | 0 <= j < |r|
      ensures r[j].task < bound
    {
      assert r[j] in KeepOnly(rows, id, keep) || r[j] in AttachRows(id, newIds, None);
    }
  }

  /**
   * updateTaskStatus: only an assigned employee may set the status; an
   * employee list, even an empty one, replaces the assignees (sync) and a
   * photo list is added to the stored photos.
   */
  method UpdateTaskStatus(s: TaskStore, caller: EmployeeId, taskId: TaskId, statusText: Option<string>,
                          employeeIds: Option<seq<EmployeeId>>, photos: Option<seq<string>>) returns (code: nat)
    requires s.Valid()
    modifies s`tasks, s`assignments
    ensures s.Valid()
    ensures code in {OK, FORBIDDEN, NOT_FOUND, UNPROCESSABLE}
    ensures code == NOT_FOUND <==> Find(old(s.tasks), taskId).None?
    ensures code == UNPROCESSABLE <==> Find(old(s.tasks), taskId).Some? && !StatusUpdateValid(s.employees, statusText, employeeIds)
    ensures code == FORBIDDEN <==>
      Find(old(s.tasks), taskId).Some? && StatusUpdateValid(s.employees, statusText, employeeIds)
      && caller !in AssigneeSet(old(s.assignments), taskId)
    ensures code != OK ==> s.tasks == old(s.tasks) && s.assignments == old(s.assignments)
    ensures code == OK ==>
      var k := Find(old(s.tasks), taskId).value;
      var t := old(s.tasks)[k];
      && s.tasks == old(s.tasks)[k := t.(status := ParseStatus(statusText.value),
                                         photos := if photos.Some? then MergedPhotos(t.photos, photos.value) else t.photos)]
      && s.assignments == if employeeIds.Some? then SyncRows(old(s.assignments), taskId, employeeIds.value) else old(s.assignments)
  {
    var found := Find(s.tasks, taskId);
    if found.None? {
      return NOT_FOUND;
    }
    if !StatusUpdateValid(s.employees, statusText, employeeIds) {
      return UNPROCESSABLE;
    }
    AssigneesOfIsAssigneeSet(s.assignments, taskId);
    if caller !in AssigneesOf(s.assignments, taskId) {
      return FORBIDDEN;
    }
    var k := found.value;
    s.tasks := s.tasks[k := s.tasks[k].(status := ParseStatus(statusText.value))];
    if employeeIds.Some? {
      SyncKeepsRowsKnown(s.assignments, taskId, employeeIds.value, s.nextId);
      s.assignments := SyncRows(s.assignments, taskId, employeeIds.value);
    }
    if photos.Some? {
      s.tasks := s.tasks[k := s.tasks[k].(photos := MergedPhotos(s.tasks[k].photos, photos.value))];
    }
    code := OK;
  }

  /** The validation rules of update. */
  predicate UpdateValid(now: DateTime, emps: map<EmployeeId, Employee>, typeText: Option<string>, statusText: Option<string>,
                        deadline: DateField, employeeIds: Option<seq<EmployeeId>>) {
    && (typeText.Some? ==> |typeText.value| <= 255)
    && statusText.Some? && statusText.value in {"pending", "completed", "expired"}
    && !deadline.NotADate?
    && (deadline.Date? ==> !Before(deadline.value, now))
    && (employeeIds.Some? ==> AllExist(emps, employeeIds.value))
  }

  /**
   * update: type, status and deadline are overwritten with the request's
   * values (an absent type or deadline becomes null); an employee list,
   * even an empty one, replaces the assignees.
   */
  method UpdateTask(s: TaskStore, now: DateTime, taskId: TaskId, typeText: Option<string>, statusText: Option<string>,
                    deadline: DateField, employeeIds: Option<seq<EmployeeId>>) returns (code: nat)
    requires s.Valid()
    modifies s`tasks, s`assignments
    ensures s.Valid()
    ensures code in {OK, NOT_FOUND, UNPROCESSABLE}
    ensures code == NOT_FOUND <==> Find(old(s.tasks), taskId).None?
    ensures code == UNPROCESSABLE <==>
      Find(old(s.tasks), taskId).Some? && !UpdateValid(now, s.employees, typeText, statusText, deadline, employeeIds)
    ensures code != OK ==> s.tasks == old(s.tasks) && s.assignments == old(s.assignments)
    ensures code == OK ==>
      var k := Find(old(s.tasks), taskId).value;
      && s.tasks == old(s.tasks)[k := old(s.tasks)[k].(kind := ParseType(typeText), status := ParseStatus(statusText.value),
                                                       deadline := if deadline.Date? then Some(deadline.value) else None)]
      && s.assignments == if employeeIds.Some? then SyncRows(old(s.assignments), taskId, employeeIds.value) else old(s.assignments)
  {
    var found := Find(s.tasks, taskId);
    if found.None? {
      return NOT_FOUND;
    }
    if !UpdateValid(now, s.employees, typeText, statusText, deadline, employeeIds) {
      return UNPROCESSABLE;
    }
    var k := found.value;
    var stored := if deadline.Date? then Some(deadline.value) else None;
    s.tasks := s.tasks[k := s.tasks[k].(kind := ParseType(typeText), status := ParseStatus(statusText.value), deadline := stored)];
    if employeeIds.Some? {
      SyncKeepsRowsKnown(s.assignments, taskId, employeeIds.value, s.nextId);
      s.assignments := SyncRows(s.assignments, taskId, employeeIds.value);
    }
    code := OK;
  }

  /**
   * `filled()` holds for an empty array, so an update carrying an empty
   * employee list detaches every assignee of the task and leaves the rows
   * of the other tasks as they were.
   */
  lemma EmptyIdListClearsAssignees(rows: seq<Assignment>, id: TaskId)
    ensures AssigneeSet(SyncRows(rows, id, []), id) == {}
    ensures RowsNotOf(SyncRows(rows, id, []), id) == RowsNotOf(rows, id)
  {
    SyncAssigneeSet(rows, id, []);
    SyncLeavesOtherTasks(rows, id, []);
  }

  /** An update that leaves the type out turns a recurring task into one no reset selects. */
  lemma UpdateWithoutTypeStopsResets(t: Task, now: DateTime, c: Command)
    requires c != ExpiryWarning
    ensures !Selects(c, t.(kind := ParseType(None)), now)
  {
  }

  // ---------------------------------------------------------------------------
  // requestReassignTask
  // ---------------------------------------------------------------------------

  predicate ReassignValid(ts: seq<Task>, emps: map<EmployeeId, Employee>, taskId: TaskId, toIds: seq<EmployeeId>) {
    Find(ts, taskId).Some? && |toIds| >= 1 && AllExist(emps, toIds)
  }

  /**
   * requestReassignTask: an assigned employee hands the task over.  Their
   * own rows are deleted, and each target not yet assigned is attached as
   * pending.  The task ends up assigned to the old assignees minus the
   * caller plus the targets; other tasks' rows are untouched.
   */
  method RequestReassignTask(s: TaskStore, caller: EmployeeId, taskId: TaskId, toIds: seq<EmployeeId>) returns (code: nat)
    requires s.Valid()
    modifies s`assignments
    ensures s.Valid()
    ensures code in {OK, FORBIDDEN, UNPROCESSABLE}
    ensures code == UNPROCESSABLE <==> !ReassignValid(s.tasks, s.employees, taskId, toIds)
    ensures code == FORBIDDEN <==>
      ReassignValid(s.tasks, s.employees, taskId, toIds) && caller !in AssigneeSet(old(s.assignments), taskId)
    ensures code != OK ==> s.assignments == old(s.assignments)
    ensures code == OK ==>
      && AssigneeSet(s.assignments, taskId) == (AssigneeSet(old(s.assignments), taskId) - {caller}) + Elems(toIds)
      && RowsNotOf(s.assignments, taskId) == RowsNotOf(old(s.assignments), taskId)
      && (forall r :: r in old(s.assignments) && r.task == taskId && r.employee != caller ==> r in s.assignments)
      && (forall r :: r in s.assignments && r !in old(s.assignments) ==>
            r.task == taskId && r.employee in toIds && r.status == AssignmentPending && r.assignedBy.None?)
      && (NoDuplicateAssignees(old(s.assignments), taskId) ==> NoDuplicateAssignees(s.assignments, taskId))
  {
    if !ReassignValid(s.tasks, s.employees, taskId, toIds) {
      return UNPROCESSABLE;
    }
    AssigneesOfIsAssigneeSet(s.assignments, taskId);
    if caller !in AssigneesOf(s.assignments, taskId) {
      return FORBIDDEN;
    }
    assert s.tasks[Find(s.tasks, taskId).value].id == taskId;
    HandOver(s, taskId, caller, toIds);
    assert toIds[..|toIds|] == toIds;
    code := OK;
  }

  /** Detach the caller, then attach each target that is not assigned yet. */
  method HandOver(s: TaskStore, taskId: TaskId, caller: EmployeeId, toIds: seq<EmployeeId>)
    requires s.Valid() && taskId < s.nextId
    modifies s`assignments
    ensures ReassignedUpTo(old(s.assignments), s.assignments, taskId, caller, toIds, |toIds|, s.nextId)
  {
    ghost var before := s.assignments;
    ReassignStart(before, taskId, caller, toIds, s.nextId);
    s.assignments := Detach(s.assignments, taskId, caller);
    var k := 0;
    while k < |toIds|
      invariant 0 <= k <= |toIds|
      invariant ReassignedUpTo(before, s.assignments, taskId, caller, toIds, k, s.nextId)
    {
      var target := toIds[k];
      AssigneesOfIsAssigneeSet(s.assignments, taskId);
      var alreadyAssigned := target in AssigneesOf(s.assignments, taskId);
      if !alreadyAssigned {
        ReassignAttach(before, s.assignments, taskId, caller, toIds, k, s.nextId);
        s.assignments := s.assignments + [Assignment(taskId, target, AssignmentPending, None)];
      } else {
        ReassignSkip(before, s.assignments, taskId, caller, toIds, k, s.nextId);
      }
      k := k + 1;
    }
  }

  /** The pivot rows after the caller is detached and the first k targets are handled. */
  ghost predicate ReassignedUpTo(before: seq<Assignment>, rows: seq<Assignment>, taskId: TaskId, caller: EmployeeId,
                                 toIds: seq<EmployeeId>, k: nat, bound: nat)
  {
    && k <= |toIds|
    && (forall j :: 0 <= j < |rows| ==> rows[j].task < bound)
    && AssigneeSet(rows, taskId) == (AssigneeSet(before, taskId) - {caller}) + Elems(toIds[..k])
    && RowsNotOf(rows, taskId) == RowsNotOf(before, taskId)
    && (forall r :: r in before && r.task == taskId && r.employee != caller ==> r in rows)
    && (forall r :: r in rows && r !in before ==>
          r.task == taskId && r.employee in toIds && r.status == AssignmentPending && r.assignedBy.None?)
    && (NoDuplicateAssignees(before, taskId) ==> NoDuplicateAssignees(rows, taskId))
  }

  lemma ReassignStart(before: seq<Assignment>, taskId: TaskId, caller: EmployeeId, toIds: seq<EmployeeId>, bound: nat)
    requires forall j :: 0 <= j < |before| ==> before[j].task < bound
    ensures ReassignedUpTo(before, Detach(before, taskId, caller), taskId, caller, toIds, 0, bound)
  {
    var rows := Detach(before, taskId, caller);
    DetachMembership(before, taskId, caller);
    RowsNotOfDetach(before, taskId, caller);
    if NoDuplicateAssignees(before, taskId) {
      DetachNoDuplicates(before, taskId, caller);
    }
    forall j | 0 <= j < |rows|
      ensures rows[j].task < bound
    {
      assert rows[j] in before;
    }
    assert toIds[..0] == [];
  }

  /** Target k is already assigned: nothing is attached. */
  lemma ReassignSkip(before: seq<Assignment>, rows: seq<Assignment>, taskId: TaskId, caller: EmployeeId,
                     toIds: seq<EmployeeId>, k: nat, bound: nat)
    requires k < |toIds| && toIds[k] in AssigneeSet(rows, taskId)
    requires ReassignedUpTo(before, rows, taskId, caller, toIds, k, bound)
    ensures ReassignedUpTo(before, rows, taskId, caller, toIds, k + 1, bound)
  {
    assert toIds[..k + 1] == toIds[..k] + [toIds[k]];
    assert Elems(toIds[..k + 1]) == Elems(toIds[..k]) + {toIds[k]};
  }

  /** Target k is not assigned yet: one pending row is attached for it. */
  lemma ReassignAttach(before: seq<Assignment>, rows: seq<Assignment>, taskId: TaskId, caller: EmployeeId,
                       toIds: seq<EmployeeId>, k: nat, bound: nat)
    requires k < |toIds| && taskId < bound && toIds[k] !in AssigneeSet(rows, taskId)
    requires ReassignedUpTo(before, rows, taskId, caller, toIds, k, bound)
    ensures ReassignedUpTo(before, rows + [Assignment(taskId, toIds[k], AssignmentPending, None)], taskId, caller, toIds, k + 1, bound)
  {
    var target := toIds[k];
    var row := Assignment(taskId, target, AssignmentPending, None);
    var rows' := rows + [row];
    assert toIds[..k + 1] == toIds[..k] + [target];
    assert Elems(toIds[..k + 1]) == Elems(toIds[..k]) + {target};
    AppendFreshRowIfUnique(rows, row, NoDuplicateAssignees(before, taskId));
    forall j | 0 <= j < |rows'|
      ensures rows'[j].task < bound
    {
      if j < |rows| {
        assert rows'[j] == rows[j];
      }
    }
    forall r | r in rows' && r !in before
      ensures r.task == taskId && r.employee in toIds && r.status == AssignmentPending && r.assignedBy.None?
    {
      if r != row {
        assert r in rows;
      }
    }
  }

  /** AppendFreshRow, with the uniqueness part only when it held before. */
  lemma AppendFreshRowIfUnique(rows: seq<Assignment>, r: Assignment, unique: bool)
    requires r.employee !in AssigneeSet(rows, r.task)
    requires unique ==> NoDuplicateAssignees(rows, r.task)
    ensures unique ==> NoDuplicateAssignees(rows + [r], r.task)
    ensures AssigneeSet(rows + [r], r.task) == AssigneeSet(rows, r.task) + {r.employee}
    ensures RowsNotOf(rows + [r], r.task) == RowsNotOf(rows, r.task)
  {
    if unique {
      AppendFreshRow(rows, r);
    } else {
      assert (rows + [r])[..|rows + [r]| - 1] == rows;
    }
  }
}
