/**
 * The task_assignments pivot table as Eloquent's belongsToMany relation
 * changes it: attach (insert rows), detach (delete the rows of one
 * employee), sync (keep exactly a given set of employees).
 */
module Pivot {
  import opened Wrappers
  import opened TaskModel

  /** The employees the task's rows name, as a set. */
  function AssigneeSet(rows: seq<Assignment>, id: TaskId): set<EmployeeId> {
    set r | r in rows && r.task == id :: r.employee
  }

  /** The elements of a list, as a set. */
  function Elems<T>(xs: seq<T>): set<T> {
    set x | x in xs
  }

  /** No employee has two rows for task id. */
  predicate NoDuplicateAssignees(rows: seq<Assignment>, id: TaskId) {
    forall i, j :: 0 <= i < j < |rows| && rows[i].task == id && rows[j].task == id ==> rows[i].employee != rows[j].employee
  }

  /** attach(es): one new row per element of es, with the column default 'pending'. */
  function AttachRows(id: TaskId, es: seq<EmployeeId>, assigner: Option<EmployeeId>): (r: seq<Assignment>)
    ensures |r| == |es|
  {
    seq(|es|, k requires 0 <= k < |es| => Assignment(id, es[k], AssignmentPending, assigner))
  }

  /** detach(e): delete every row of employee e for task id. */
  function Detach(rows: seq<Assignment>, id: TaskId, e: EmployeeId): (r: seq<Assignment>)
    ensures |r| <= |rows|
  {
    if rows == [] then []
    else
      var last := rows[|rows| - 1];
      Detach(rows[..|rows| - 1], id, e) + (if last.task == id && last.employee == e then [] else [last])
  }

  /** The detach half of sync: delete the task's rows whose employee is not in keep. */
  function KeepOnly(rows: seq<Assignment>, id: TaskId, keep: set<EmployeeId>): (r: seq<Assignment>)
    ensures |r| <= |rows|
  {
    if rows == [] then []
    else
      var last := rows[|rows| - 1];
      KeepOnly(rows[..|rows| - 1], id, keep) + (if last.task == id && last.employee !in keep then [] else [last])
  }

  /** The attach half of sync: the ids not yet attached, first occurrences only, in request order. */
  function Fresh(ids: seq<EmployeeId>, current: set<EmployeeId>): (r: seq<EmployeeId>)
    ensures |r| <= |ids|
  {
    if ids == [] then []
    else
      var p := ids[..|ids| - 1];
      var last := ids[|ids| - 1];
      Fresh(p, current) + (if last in current || last in p then [] else [last])
  }

  /** sync(ids) on the rows of task id. */
  function SyncRows(rows: seq<Assignment>, id: TaskId, ids: seq<EmployeeId>): seq<Assignment> {
    var keep := set e | e in ids;
    KeepOnly(rows, id, keep) + AttachRows(id, Fresh(ids, AssigneeSet(rows, id)), None)
  }

  /** The rows that belong to other tasks, in order. */
  function RowsNotOf(rows: seq<Assignment>, id: TaskId): seq<Assignment> {
    if rows == [] then []
    else
      var last := rows[|rows| - 1];
      RowsNotOf(rows[..|rows| - 1], id) + (if last.task == id then [] else [last])
  }

  // ---------------------------------------------------------------------------
  // Properties
  // ---------------------------------------------------------------------------

  lemma {:induction false} RowsNotOfAppend(a: seq<Assignment>, b: seq<Assignment>, id: TaskId)
    ensures RowsNotOf(a + b, id) == RowsNotOf(a, id) + RowsNotOf(b, id)
    decreases |b|
  {
    if b != [] {
      var n := |b| - 1;
      assert (a + b)[..|a + b| - 1] == a + b[..n];
      RowsNotOfAppend(a, b[..n], id);
    } else {
      assert a + b == a;
    }
  }

  lemma {:induction false} RowsNotOfAttach(id: TaskId, es: seq<EmployeeId>, assigner: Option<EmployeeId>)
    ensures RowsNotOf(AttachRows(id, es, assigner), id) == []
    decreases |es|
  {
    if es != [] {
      var n := |es| - 1;
      assert AttachRows(id, es, assigner)[..n] == AttachRows(id, es[..n], assigner);
      RowsNotOfAttach(id, es[..n], assigner);
    }
  }

  lemma {:induction false} RowsNotOfDetach(rows: seq<Assignment>, id: TaskId, e: EmployeeId)
    ensures RowsNotOf(Detach(rows, id, e), id) == RowsNotOf(rows, id)
  {
    if rows != [] {
      var p := rows[..|rows| - 1];
      var last := rows[|rows| - 1];
      RowsNotOfDetach(p, id, e);
      RowsNotOfAppend(Detach(p, id, e), if last.task == id && last.employee == e then [] else [last], id);
    }
  }

  lemma {:induction false} RowsNotOfKeepOnly(rows: seq<Assignment>, id: TaskId, keep: set<EmployeeId>)
    ensures RowsNotOf(KeepOnly(rows, id, keep), id) == RowsNotOf(rows, id)
  {
    if rows != [] {
      var p := rows[..|rows| - 1];
      var last := rows[|rows| - 1];
      RowsNotOfKeepOnly(p, id, keep);
      RowsNotOfAppend(KeepOnly(p, id, keep), if last.task == id && last.employee !in keep then [] else [last], id);
    }
  }

  lemma {:induction false} DetachMembership(rows: seq<Assignment>, id: TaskId, e: EmployeeId)
    ensures forall r :: r in Detach(rows, id, e) <==> r in rows && !(r.task == id && r.employee == e)
  {
    if rows != [] {
      var p := rows[..|rows| - 1];
      DetachMembership(p, id, e);
      assert rows == p + [rows[|rows| - 1]];
    }
  }

  lemma {:induction false} KeepOnlyMembership(rows: seq<Assignment>, id: TaskId, keep: set<EmployeeId>)
    ensures forall r :: r in KeepOnly(rows, id, keep) <==> r in rows && (r.task == id ==> r.employee in keep)
  {
    if rows != [] {
      var p := rows[..|rows| - 1];
      KeepOnlyMembership(p, id, keep);
      assert rows == p + [rows[|rows| - 1]];
    }
  }

  lemma {:induction false} FreshMembership(ids: seq<EmployeeId>, current: set<EmployeeId>)
    ensures forall e :: e in Fresh(ids, current) <==> e in ids && e !in current
    ensures forall i, j :: 0 <= i < j < |Fresh(ids, current)| ==> Fresh(ids, current)[i] != Fresh(ids, current)[j]
  {
    if ids != [] {
      var p := ids[..|ids| - 1];
      FreshMembership(p, current);
      assert ids == p + [ids[|ids| - 1]];
    }
  }

  lemma AttachMembership(id: TaskId, es: seq<EmployeeId>, assigner: Option<EmployeeId>)
    ensures forall r :: r in AttachRows(id, es, assigner) <==> r.task == id && r.employee in es && r.status == AssignmentPending && r.assignedBy == assigner
  {
    var a := AttachRows(id, es, assigner);
    forall r: Assignment | r.task == id && r.employee in es && r.status == AssignmentPending && r.assignedBy == assigner
      ensures r in a
    {
      var k :| 0 <= k < |es| && es[k] == r.employee;
      assert a[k] == r;
    }
  }

  /** After sync(ids) the task is assigned to exactly the employees in ids. */
  lemma SyncAssigneeSet(rows: seq<Assignment>, id: TaskId, ids: seq<EmployeeId>)
    ensures AssigneeSet(SyncRows(rows, id, ids), id) == set e | e in ids
  {
    var keep := set e | e in ids;
    var current := AssigneeSet(rows, id);
    var kept := KeepOnly(rows, id, keep);
    var added := AttachRows(id, Fresh(ids, current), None);
    KeepOnlyMembership(rows, id, keep);
    FreshMembership(ids, current);
    AttachMembership(id, Fresh(ids, current), None);
    assert SyncRows(rows, id, ids) == kept + added;
    forall e | e in ids
      ensures e in AssigneeSet(kept + added, id)
    {
      if e in current {
        var r :| r in rows && r.task == id && r.employee == e;
        assert r in kept;
      } else {
        assert Assignment(id, e, AssignmentPending, None) in added;
      }
    }
    forall e | e in AssigneeSet(kept + added, id)
      ensures e in ids
    {
      var r: Assignment :| r in kept + added && r.task == id && r.employee == e;
      if r in kept {
      } else {
        assert r in added;
      }
    }
  }

  /** sync(ids) on one task leaves every other task's rows as they were, in order. */
  lemma SyncLeavesOtherTasks(rows: seq<Assignment>, id: TaskId, ids: seq<EmployeeId>)
    ensures RowsNotOf(SyncRows(rows, id, ids), id) == RowsNotOf(rows, id)
  {
    var keep := set e | e in ids;
    var newIds := Fresh(ids, AssigneeSet(rows, id));
    RowsNotOfAppend(KeepOnly(rows, id, keep), AttachRows(id, newIds, None), id);
    RowsNotOfKeepOnly(rows, id, keep);
    RowsNotOfAttach(id, newIds, None);
  }

  /**
   * sync(ids) keeps the existing rows (and their statuses) of employees in
   * ids, and every row it adds is a pending row for an employee who was not
   * yet assigned.
   */
  lemma SyncKeepsAndAdds(rows: seq<Assignment>, id: TaskId, ids: seq<EmployeeId>)
    ensures forall r :: r in rows && r.task == id && r.employee in ids ==> r in SyncRows(rows, id, ids)
    ensures forall r :: r in SyncRows(rows, id, ids) && r !in rows ==>
      r.task == id && r.status == AssignmentPending && r.employee in ids && r.employee !in AssigneeSet(rows, id)
  {
    var keep := set e | e in ids;
    var current := AssigneeSet(rows, id);
    KeepOnlyMembership(rows, id, keep);
    FreshMembership(ids, current);
    AttachMembership(id, Fresh(ids, current), None);
  }

  /** sync(ids) creates no second row for an employee already on the task. */
  lemma SyncNoDuplicates(rows: seq<Assignment>, id: TaskId, ids: seq<EmployeeId>)
    requires NoDuplicateAssignees(rows, id)
    ensures NoDuplicateAssignees(SyncRows(rows, id, ids), id)
  {
    var keep := set e | e in ids;
    var current := AssigneeSet(rows, id);
    var kept := KeepOnly(rows, id, keep);
    var newIds := Fresh(ids, current);
    var added := AttachRows(id, newIds, None);
    var r' := kept + added;
    assert SyncRows(rows, id, ids) == r';
    KeepOnlyMembership(rows, id, keep);
    FreshMembership(ids, current);
    KeepOnlyNoDuplicates(rows, id, keep);
    forall i, j | 0 <= i < j < |r'| && r'[i].task == id && r'[j].task == id
      ensures r'[i].employee != r'[j].employee
    {
      if j < |kept| {
        assert r'[i] == kept[i] && r'[j] == kept[j];
      } else if i < |kept| {
        assert r'[i] in kept;
        assert r'[j] == added[j - |kept|];
        assert r'[j].employee in newIds;
      } else {
        assert r'[i] == added[i - |kept|] && r'[j] == added[j - |kept|];
      }
    }
  }

  lemma {:induction false} KeepOnlyNoDuplicates(rows: seq<Assignment>, id: TaskId, keep: set<EmployeeId>)
    requires NoDuplicateAssignees(rows, id)
    ensures NoDuplicateAssignees(KeepOnly(rows, id, keep), id)
  {
    if rows != [] {
      var p := rows[..|rows| - 1];
      var last := rows[|rows| - 1];
      KeepOnlyNoDuplicates(p, id, keep);
      KeepOnlyMembership(p, id, keep);
      var kp := KeepOnly(p, id, keep);
      if !(last.task == id && last.employee !in keep) && last.task == id {
        forall i | 0 <= i < |kp| && kp[i].task == id
          ensures kp[i].employee != last.employee
        {
          assert kp[i] in p;
          var k :| 0 <= k < |p| && p[k] == kp[i];
          assert rows[k] == p[k];
        }
      }
    }
  }

  lemma {:induction false} DetachNoDuplicates(rows: seq<Assignment>, id: TaskId, e: EmployeeId)
    requires NoDuplicateAssignees(rows, id)
    ensures NoDuplicateAssignees(Detach(rows, id, e), id)
  {
    if rows != [] {
      var p := rows[..|rows| - 1];
      var last := rows[|rows| - 1];
      DetachNoDuplicates(p, id, e);
      DetachMembership(p, id, e);
      var dp := Detach(p, id, e);
      if !(last.task == id && last.employee == e) && last.task == id {
        forall i | 0 <= i < |dp| && dp[i].task == id
          ensures dp[i].employee != last.employee
        {
          assert dp[i] in p;
          var k :| 0 <= k < |p| && p[k] == dp[i];
          assert rows[k] == p[k];
        }
      }
    }
  }

  /** Appending one row of task id for an employee not yet assigned keeps the pairs unique. */
  lemma AppendFreshRow(rows: seq<Assignment>, r: Assignment)
    requires NoDuplicateAssignees(rows, r.task) && r.employee !in AssigneeSet(rows, r.task)
    ensures NoDuplicateAssignees(rows + [r], r.task)
    ensures AssigneeSet(rows + [r], r.task) == AssigneeSet(rows, r.task) + {r.employee}
    ensures RowsNotOf(rows + [r], r.task) == RowsNotOf(rows, r.task)
  {
    var rs := rows + [r];
    forall i, j | 0 <= i < j < |rs| && rs[i].task == r.task && rs[j].task == r.task
      ensures rs[i].employee != rs[j].employee
    {
      if j == |rows| {
        assert rs[i] in rows;
      }
    }
    assert rs[..|rs| - 1] == rows;
  }

  lemma {:induction false} AssigneesOfAppend(a: seq<Assignment>, b: seq<Assignment>, id: TaskId)
    ensures AssigneesOf(a + b, id) == AssigneesOf(a, id) + AssigneesOf(b, id)
    decreases |b|
  {
    if b == [] {
      assert a + b == a;
    } else {
      var n := |b| - 1;
      assert (a + b)[..|a + b| - 1] == a + b[..n];
      AssigneesOfAppend(a, b[..n], id);
    }
  }

  /** attach(es) adds es, in order, to the task's assignees and nobody to other tasks. */
  lemma {:induction false} AssigneesOfAttach(id: TaskId, es: seq<EmployeeId>, assigner: Option<EmployeeId>, other: TaskId)
    ensures AssigneesOf(AttachRows(id, es, assigner), other) == if other == id then es else []
    decreases |es|
  {
    if es != [] {
      var n := |es| - 1;
      assert AttachRows(id, es, assigner)[..n] == AttachRows(id, es[..n], assigner);
      AssigneesOfAttach(id, es[..n], assigner, other);
      if other == id {
        assert es[..n] + [es[n]] == es;
      }
    }
  }

  /** A task with no pivot rows has no assignees. */
  lemma {:induction false} AssigneesOfUnused(rows: seq<Assignment>, id: TaskId)
    requires forall j :: 0 <= j < |rows| ==> rows[j].task != id
    ensures AssigneesOf(rows, id) == []
  {
    if rows != [] {
      AssigneesOfUnused(rows[..|rows| - 1], id);
    }
  }

  /** AssigneesOf and AssigneeSet agree. */
  lemma AssigneesOfIsAssigneeSet(rows: seq<Assignment>, id: TaskId)
    ensures forall e :: e in AssigneesOf(rows, id) <==> e in AssigneeSet(rows, id)
  {
    forall e
      ensures e in AssigneesOf(rows, id) <==> e in AssigneeSet(rows, id)
    {
      AssigneesOfMembership(rows, id, e);
      if e in AssigneeSet(rows, id) {
        var r :| r in rows && r.task == id && r.employee == e;
        var j :| 0 <= j < |rows| && rows[j] == r;
      }
    }
  }
}
