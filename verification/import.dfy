/**
 * The `tasks:import {file}` command: the first spreadsheet row is the
 * header, every later row that is not blank creates one task and one
 * pending assignment per comma-separated employee id, and the command
 * counts the rows it imported.  A row the database or the date parser
 * refuses ends the command with an exception; what was written before
 * stays written.
 */
module Import {
  import opened Wrappers
  import opened Calendar
  import opened TaskModel
  import opened Passes
  import opened Pivot
  import opened Store
  import opened Text

  /** The header a clean export of the tasks would carry. */
  const CanonicalHeader: seq<string> := ["name", "description", "type", "deadline", "status", "created_by", "employee_ids"]

  /** The row has every column the loop reads before it creates the task. */
  predicate HasTaskColumns(data: map<string, string>) {
    "name" in data && "description" in data && "type" in data && "deadline" in data && "status" in data && "created_by" in data
  }

  /** `empty(array_filter($row))`: every cell is falsy, that is "" or "0". */
  predicate BlankRow(row: seq<string>) {
    forall k :: 0 <= k < |row| ==> !Truthy(Some(row[k]))
  }

  /** Column k is the last one named header[k]. */
  predicate LastOccurrence(header: seq<string>, k: int)
    requires 0 <= k < |header|
  {
    forall j :: k < j < |header| ==> header[j] != header[k]
  }

  /** array_combine(header, row): the header cells become the keys; a repeated key keeps the later value. */
  function Combine(header: seq<string>, row: seq<string>): map<string, string>
    requires |header| == |row|
  {
    if header == [] then map[]
    else
      var n := |header| - 1;
      Combine(header[..n], row[..n])[header[n] := row[n]]
  }

  /** The keys are the header cells. */
  lemma {:induction false} CombineKeys(header: seq<string>, row: seq<string>)
    requires |header| == |row|
    ensures Combine(header, row).Keys == Elems(header)
  {
    if header != [] {
      var n := |header| - 1;
      CombineKeys(header[..n], row[..n]);
      assert header == header[..n] + [header[n]];
      assert Elems(header) == Elems(header[..n]) + {header[n]};
    }
  }

  /** Each key holds the cell under its last occurrence in the header. */
  lemma {:induction false} CombineLast(header: seq<string>, row: seq<string>)
    requires |header| == |row|
    ensures forall k :: 0 <= k < |header| && LastOccurrence(header, k) ==>
      header[k] in Combine(header, row) && Combine(header, row)[header[k]] == row[k]
  {
    if header != [] {
      var n := |header| - 1;
      CombineLast(header[..n], row[..n]);
      forall k | 0 <= k < |header| && LastOccurrence(header, k)
        ensures header[k] in Combine(header, row) && Combine(header, row)[header[k]] == row[k]
      {
        if k < n {
          assert LastOccurrence(header[..n], k);
          assert header[..n][k] == header[k] && row[..n][k] == row[k];
          assert header[k] != header[n];
        }
      }
    }
  }

  // ---------------------------------------------------------------------------
  // One row
  // ---------------------------------------------------------------------------

  /** The employee ids read from the pieces, up to the first piece the integer column refuses. */
  datatype ParsedIds = ParsedIds(ids: seq<EmployeeId>, complete: bool)

  function ParseIds(pieces: seq<string>): (r: ParsedIds)
    ensures |r.ids| <= |pieces|
    ensures r.complete <==> |r.ids| == |pieces|
  {
    if pieces == [] then ParsedIds([], true)
    else
      var n := |pieces| - 1;
      var p := ParseIds(pieces[..n]);
      if !p.complete then p
      else match ParseNat(Trim(pieces[n]))
        case None => ParsedIds(p.ids, false)
        case Some(e) => ParsedIds(p.ids + [e], true)
  }

  /** Each id read is the value of its piece, and reading stopped at the first piece that has none. */
  lemma {:induction false} ParseIdsValues(pieces: seq<string>)
    ensures var r := ParseIds(pieces);
      && (forall k :: 0 <= k < |r.ids| ==> ParseNat(Trim(pieces[k])) == Some(r.ids[k]))
      && (!r.complete ==> ParseNat(Trim(pieces[|r.ids|])).None?)
  {
    if pieces != [] {
      var n := |pieces| - 1;
      var p := ParseIds(pieces[..n]);
      ParseIdsValues(pieces[..n]);
      var r := ParseIds(pieces);
      assert forall k :: 0 <= k < |p.ids| ==> ParseNat(Trim(pieces[k])) == Some(p.ids[k]) by {
        forall k | 0 <= k < |p.ids|
          ensures ParseNat(Trim(pieces[k])) == Some(p.ids[k])
        {
          assert pieces[..n][k] == pieces[k];
        }
      }
      if p.complete {
        var v := ParseNat(Trim(pieces[n]));
        if v.Some? {
          assert r.ids == p.ids + [v.value];
        } else {
          assert r == ParsedIds(p.ids, false);
          assert |r.ids| == n;
          assert ParseNat(Trim(pieces[|r.ids|])) == v;
        }
      } else {
        assert r == p;
        assert pieces[..n][|p.ids|] == pieces[|p.ids|];
        assert ParseNat(Trim(pieces[|r.ids|])) == ParseNat(Trim(pieces[..n][|p.ids|]));
      }
    }
  }

  /**
   * The task `Task::create` inserts for a row, or None when the row ends the
   * command first: a row whose width differs from the header's, a missing
   * column, a deadline the parser refuses, or a creator id that is not an
   * integer.
   */
  function RowTask(header: seq<string>, row: seq<string>, id: TaskId, parseDate: string -> Option<DateTime>): (t: Option<Task>)
    ensures t.Some? ==> t.value.id == id && t.value.createdBy.Some? && t.value.photos == [] && t.value.expiredCount == 0
  {
    if |header| != |row| then None
    else
      var data := Combine(header, row);
      if !HasTaskColumns(data) then None
      else match (parseDate(data["deadline"]), ParseNat(data["created_by"]))
        case (Some(d), Some(creator)) =>
          Some(Task(id, data["name"], data["description"], ParseType(Some(data["type"])), Some(d),
                    ParseStatus(data["status"]), Some(creator), [], 0))
        case _ => None
  }

  /** What importing one non-blank row writes, and whether the command goes on. */
  datatype RowImport = RowImport(created: seq<Task>, attached: seq<Assignment>, complete: bool)

  function ImportRow(header: seq<string>, row: seq<string>, id: TaskId, parseDate: string -> Option<DateTime>): (r: RowImport)
    ensures |r.created| <= 1
    ensures r.complete ==> |r.created| == 1
    ensures r.created == [] ==> r.attached == []
  {
    match RowTask(header, row, id, parseDate)
    case None => RowImport([], [], false)
    case Some(t) =>
      var data := Combine(header, row);
      if "employee_ids" !in data then RowImport([t], [], false)
      else
        var p := ParseIds(Split(data["employee_ids"], ','));
        RowImport([t], AttachRows(id, p.ids, t.createdBy), p.complete)
  }

  /**
   * A row writes at most the task with id `id`, and it is written whenever
   * the command goes on; every assignment it writes is a pending row of
   * that task, assigned by the task's creator.
   */
  predicate RowShaped(r: RowImport, id: TaskId) {
    && |r.created| <= 1
    && (r.complete ==> |r.created| == 1)
    && (forall k :: 0 <= k < |r.created| ==> r.created[k].id == id)
    && (forall j :: 0 <= j < |r.attached| ==>
      && |r.created| == 1
      && r.attached[j].task == id
      && r.attached[j].status == AssignmentPending
      && r.attached[j].assignedBy == r.created[0].createdBy)
  }

  lemma ImportRowShape(header: seq<string>, row: seq<string>, id: TaskId, parseDate: string -> Option<DateTime>)
    ensures RowShaped(ImportRow(header, row, id, parseDate), id)
  {
  }

  // ---------------------------------------------------------------------------
  // The row loop
  // ---------------------------------------------------------------------------

  /** How a row is imported as the task with a given id. */
  type RowImporter = (seq<string>, TaskId) -> RowImport

  /** The row import of a header and a date parser. */
  function Importer(header: seq<string>, parseDate: string -> Option<DateTime>): RowImporter {
    (row: seq<string>, id: TaskId) => ImportRow(header, row, id, parseDate)
  }

  ghost predicate Shaped(importRow: RowImporter) {
    forall row, id :: RowShaped(importRow(row, id), id)
  }

  lemma ImporterShaped(header: seq<string>, parseDate: string -> Option<DateTime>)
    ensures Shaped(Importer(header, parseDate))
  {
    forall row, id
      ensures RowShaped(Importer(header, parseDate)(row, id), id)
    {
      ImportRowShape(header, row, id, parseDate);
    }
  }

  /** What the rows imported so far have written, how many were counted, and whether one failed. */
  datatype ImportState = ImportState(created: seq<Task>, attached: seq<Assignment>, count: nat, aborted: bool)

  /** The row loop: blank rows are skipped, and the first row that fails ends it. */
  function ImportRows(rows: seq<seq<string>>, firstId: TaskId, importRow: RowImporter): ImportState {
    if rows == [] then ImportState([], [], 0, false)
    else
      var n := |rows| - 1;
      var st := ImportRows(rows[..n], firstId, importRow);
      if st.aborted || BlankRow(rows[n]) then st
      else RowStep(st, importRow(rows[n], firstId + |st.created|))
  }

  /** Adding what one row wrote; the row is counted only when the command goes on. */
  function RowStep(st: ImportState, r: RowImport): ImportState {
    ImportState(st.created + r.created, st.attached + r.attached, st.count + (if r.complete then 1 else 0), !r.complete)
  }

  /**
   * The imported tasks take consecutive ids from firstId on, one per
   * counted row plus the one of a failed row.
   */
  lemma {:induction false} ImportRowsIds(rows: seq<seq<string>>, firstId: TaskId, importRow: RowImporter)
    requires Shaped(importRow)
    ensures var st := ImportRows(rows, firstId, importRow);
      && (|st.created| == st.count || (st.aborted && |st.created| == st.count + 1))
      && (forall k :: 0 <= k < |st.created| ==> st.created[k].id == firstId + k)
  {
    if rows != [] {
      var n := |rows| - 1;
      var st := ImportRows(rows[..n], firstId, importRow);
      ImportRowsIds(rows[..n], firstId, importRow);
      if !st.aborted && !BlankRow(rows[n]) {
        var id := firstId + |st.created|;
        var r := importRow(rows[n], id);
        assert RowShaped(r, id);
        var st' := RowStep(st, r);
        forall k | 0 <= k < |st'.created|
          ensures st'.created[k].id == firstId + k
        {
          if k < |st.created| {
            assert st'.created[k] == st.created[k];
          } else {
            assert st'.created[k] == r.created[k - |st.created|];
          }
        }
      }
    }
  }

  /**
   * Every imported assignment is a pending row of one of the imported
   * tasks, assigned by that task's creator.
   */
  predicate AttachedToCreated(st: ImportState, firstId: TaskId) {
    forall j :: 0 <= j < |st.attached| ==>
      && firstId <= st.attached[j].task < firstId + |st.created|
      && st.attached[j].status == AssignmentPending
      && st.attached[j].assignedBy == st.created[st.attached[j].task - firstId].createdBy
  }

  lemma {:induction false} ImportRowsAttached(rows: seq<seq<string>>, firstId: TaskId, importRow: RowImporter)
    requires Shaped(importRow)
    ensures AttachedToCreated(ImportRows(rows, firstId, importRow), firstId)
  {
    if rows != [] {
      var n := |rows| - 1;
      var st := ImportRows(rows[..n], firstId, importRow);
      ImportRowsAttached(rows[..n], firstId, importRow);
      if !st.aborted && !BlankRow(rows[n]) {
        var id := firstId + |st.created|;
        var r := importRow(rows[n], id);
        assert RowShaped(r, id);
        var st' := RowStep(st, r);
        assert AttachedToCreated(st, firstId);
        forall j | 0 <= j < |st'.attached|
          ensures && firstId <= st'.attached[j].task < firstId + |st'.created|
                  && st'.attached[j].status == AssignmentPending
                  && st'.attached[j].assignedBy == st'.created[st'.attached[j].task - firstId].createdBy
        {
          if j >= |st.attached| {
            assert st'.attached[j] == r.attached[j - |st.attached|];
            assert st'.created[id - firstId] == r.created[0];
          } else {
            var a := st.attached[j];
            assert st'.attached[j] == a;
            assert firstId <= a.task < firstId + |st.created|;
            assert st'.created[a.task - firstId] == st.created[a.task - firstId];
          }
        }
      }
    }
  }

  /** One more row, while no row has failed. */
  lemma ImportRowsStep(rows: seq<seq<string>>, i: nat, firstId: TaskId, importRow: RowImporter)
    requires i < |rows|
    requires !ImportRows(rows[..i], firstId, importRow).aborted
    ensures var st := ImportRows(rows[..i], firstId, importRow);
      ImportRows(rows[..i + 1], firstId, importRow)
        == if BlankRow(rows[i]) then st else RowStep(st, importRow(rows[i], firstId + |st.created|))
  {
    assert rows[..i + 1][..i] == rows[..i];
  }

  /** The number of rows that are not blank. */
  function NonBlankCount(rows: seq<seq<string>>): (n: nat)
    ensures n <= |rows|
  {
    if rows == [] then 0
    else NonBlankCount(rows[..|rows| - 1]) + (if BlankRow(rows[|rows| - 1]) then 0 else 1)
  }

  /**
   * When no row fails, the count is the number of non-blank rows and each
   * of them created one task; when one fails, fewer rows were counted.
   */
  lemma {:induction false} ImportCount(rows: seq<seq<string>>, firstId: TaskId, importRow: RowImporter)
    requires Shaped(importRow)
    ensures var st := ImportRows(rows, firstId, importRow);
      && (!st.aborted ==> st.count == |st.created| == NonBlankCount(rows))
      && (st.aborted ==> st.count < NonBlankCount(rows))
  {
    if rows != [] {
      var n := |rows| - 1;
      var st := ImportRows(rows[..n], firstId, importRow);
      ImportCount(rows[..n], firstId, importRow);
      ImportRowsIds(rows[..n], firstId, importRow);
      if !st.aborted && !BlankRow(rows[n]) {
        assert RowShaped(importRow(rows[n], firstId + |st.created|), firstId + |st.created|);
      }
    }
  }

  /** After a row fails, no later row is looked at. */
  lemma {:induction false} ImportStopsAtFailure(rows: seq<seq<string>>, n: nat, firstId: TaskId, importRow: RowImporter)
    requires n <= |rows|
    requires ImportRows(rows[..n], firstId, importRow).aborted
    ensures ImportRows(rows, firstId, importRow) == ImportRows(rows[..n], firstId, importRow)
    decreases |rows| - n
  {
    if n < |rows| {
      var m := |rows| - 1;
      assert rows[..m][..n] == rows[..n];
      ImportStopsAtFailure(rows[..m], n, firstId, importRow);
    } else {
      assert rows[..n] == rows;
    }
  }

  /** Later pieces are not read once one piece is refused. */
  lemma {:induction false} ParseIdsStops(pieces: seq<string>, n: nat)
    requires n <= |pieces|
    requires !ParseIds(pieces[..n]).complete
    ensures ParseIds(pieces) == ParseIds(pieces[..n])
    decreases |pieces| - n
  {
    if n < |pieces| {
      var m := |pieces| - 1;
      assert pieces[..m][..n] == pieces[..n];
      ParseIdsStops(pieces[..m], n);
    } else {
      assert pieces[..n] == pieces;
    }
  }

  lemma AttachRowsSnoc(id: TaskId, es: seq<EmployeeId>, e: EmployeeId, assigner: Option<EmployeeId>)
    ensures AttachRows(id, es + [e], assigner) == AttachRows(id, es, assigner) + [Assignment(id, e, AssignmentPending, assigner)]
  {
  }

  /** The decimal spellings of the ids, one piece per id. */
  function Spelled(ids: seq<EmployeeId>): (pieces: seq<string>)
    ensures |pieces| == |ids|
  {
    seq(|ids|, k requires 0 <= k < |ids| => NatToString(ids[k]))
  }

  /** The employee_ids cell of a clean export: the ids in decimal, separated by commas. */
  function IdsCell(ids: seq<EmployeeId>): string {
    Join(Spelled(ids), ',')
  }

  lemma {:induction false} ParseIdsOfSpelledIds(ids: seq<EmployeeId>)
    ensures ParseIds(Spelled(ids)) == ParsedIds(ids, true)
  {
    if ids != [] {
      var n := |ids| - 1;
      var pieces := Spelled(ids);
      assert pieces[..n] == Spelled(ids[..n]);
      ParseIdsOfSpelledIds(ids[..n]);
      TrimNatToString(ids[n]);
      ParseNatRoundTrip(ids[n]);
      assert ParseNat(Trim(pieces[n])) == Some(ids[n]);
      assert ids[..n] + [ids[n]] == ids;
    }
  }

  /** Under the canonical header every column holds the cell at its position. */
  lemma CanonicalColumns(row: seq<string>)
    requires |row| == 7
    ensures var data := Combine(CanonicalHeader, row);
      && HasTaskColumns(data) && "employee_ids" in data
      && data["name"] == row[0] && data["description"] == row[1] && data["type"] == row[2]
      && data["deadline"] == row[3] && data["status"] == row[4] && data["created_by"] == row[5]
      && data["employee_ids"] == row[6]
  {
    CombineLast(CanonicalHeader, row);
    assert forall k :: 0 <= k < 7 ==> LastOccurrence(CanonicalHeader, k);
  }

  /** The employee_ids cell of a clean export reads back as its ids. */
  lemma IdsCellRoundTrip(ids: seq<EmployeeId>)
    requires |ids| >= 1
    ensures ParseIds(Split(IdsCell(ids), ',')) == ParsedIds(ids, true)
  {
    var pieces := Spelled(ids);
    forall k | 0 <= k < |pieces|
      ensures ',' !in pieces[k]
    {
      AllDigitsChars(pieces[k]);
    }
    SplitJoin(pieces, ',');
    ParseIdsOfSpelledIds(ids);
  }

  /**
   * A row written from a task in the canonical column order imports as that
   * task, assigned to the listed employees by its creator.
   */
  lemma ImportRowRoundTrip(id: TaskId, name: string, description: string, typeText: string, deadlineText: string,
                           statusText: string, creator: EmployeeId, ids: seq<EmployeeId>,
                           parseDate: string -> Option<DateTime>, d: DateTime)
    requires parseDate(deadlineText) == Some(d)
    requires |ids| >= 1
    ensures ImportRow(CanonicalHeader, [name, description, typeText, deadlineText, statusText, NatToString(creator), IdsCell(ids)], id, parseDate)
         == RowImport([Task(id, name, description, ParseType(Some(typeText)), Some(d), ParseStatus(statusText), Some(creator), [], 0)],
                      AttachRows(id, ids, Some(creator)), true)
  {
    var row := [name, description, typeText, deadlineText, statusText, NatToString(creator), IdsCell(ids)];
    CanonicalColumns(row);
    ParseNatRoundTrip(creator);
    IdsCellRoundTrip(ids);
  }

  /**
   * An empty employee_ids cell is one empty piece, which the integer column
   * refuses: the task is created and the command stops.
   */
  lemma EmptyEmployeeIdsStops(header: seq<string>, row: seq<string>, k: nat, id: TaskId, parseDate: string -> Option<DateTime>)
    requires k < |header| == |row| && LastOccurrence(header, k)
    requires header[k] == "employee_ids" && row[k] == ""
    requires RowTask(header, row, id, parseDate).Some?
    ensures var r := ImportRow(header, row, id, parseDate);
      |r.created| == 1 && r.attached == [] && !r.complete
  {
    CombineLast(header, row);
    assert Split("", ',') == [""];
    assert ParseIds([""]) == ParsedIds([], false) by {
      assert [""][..0] == [];
    }
  }

  /** A header without one of the task columns creates nothing. */
  lemma MissingColumnCreatesNothing(header: seq<string>, row: seq<string>, id: TaskId, parseDate: string -> Option<DateTime>, c: string)
    requires c in {"name", "description", "type", "deadline", "status", "created_by"} && c !in header
    ensures ImportRow(header, row, id, parseDate) == RowImport([], [], false)
  {
    if |header| == |row| {
      CombineKeys(header, row);
      assert c !in Combine(header, row);
    }
  }

  // ---------------------------------------------------------------------------
  // The command
  // ---------------------------------------------------------------------------

  datatype ImportOutcome = Refused | Imported(count: nat) | Aborted(count: nat)

  predicate Supported(extension: string) {
    extension == "xls" || extension == "xlsx" || extension == "csv"
  }

  /** The header row: lower-cased for a workbook, as read for a CSV file. */
  function Header(extension: string, sheet: seq<seq<string>>): (h: seq<string>)
    ensures sheet != [] ==> |h| == |sheet[0]|
    ensures sheet != [] && extension == "csv" ==> h == sheet[0]
    ensures sheet != [] && (extension == "xls" || extension == "xlsx") ==>
      forall k :: 0 <= k < |h| ==> h[k] == LowerAscii(sheet[0][k])
  {
    if sheet == [] then []
    else if extension == "xls" || extension == "xlsx" then
      seq(|sheet[0]|, k requires 0 <= k < |sheet[0]| => LowerAscii(sheet[0][k]))
    else sheet[0]
  }

  function Body(sheet: seq<seq<string>>): seq<seq<string>> {
    if sheet == [] then [] else sheet[1..]
  }

  /**
   * What a run that gets past the file checks has written: consecutive new
   * task ids, pending assignments of those tasks by their creators, and a
   * count that equals the number of non-blank rows exactly when no row
   * failed.
   */
  lemma ImportSummary(header: seq<string>, rows: seq<seq<string>>, firstId: TaskId, parseDate: string -> Option<DateTime>)
    ensures var st := ImportRows(rows, firstId, Importer(header, parseDate));
      && (!st.aborted ==> st.count == |st.created| == NonBlankCount(rows))
      && (st.aborted ==> st.count < NonBlankCount(rows) && |st.created| <= st.count + 1)
      && (forall k :: 0 <= k < |st.created| ==> st.created[k].id == firstId + k)
      && AttachedToCreated(st, firstId)
  {
    ImporterShaped(header, parseDate);
    ImportCount(rows, firstId, Importer(header, parseDate));
    ImportRowsIds(rows, firstId, Importer(header, parseDate));
    ImportRowsAttached(rows, firstId, Importer(header, parseDate));
  }

  /** A workbook header written in capitals still names the canonical columns. */
  lemma WorkbookHeaderIgnoresCase(rest: seq<seq<string>>)
    ensures Header("xlsx", [["Name", "Description", "Type", "Deadline", "Status", "Created_By", "Employee_Ids"]] + rest)
         == CanonicalHeader
  {
    var h := Header("xlsx", [["Name", "Description", "Type", "Deadline", "Status", "Created_By", "Employee_Ids"]] + rest);
    assert h[0] == "name" && h[1] == "description" && h[2] == "type" && h[3] == "deadline";
    assert h[4] == "status" && h[5] == "created_by" && h[6] == "employee_ids";
  }

  /** The same header in a CSV file is kept as written, so none of its rows creates a task. */
  lemma CsvHeaderIsCaseSensitive(rest: seq<seq<string>>, row: seq<string>, id: TaskId, parseDate: string -> Option<DateTime>)
    ensures ImportRow(Header("csv", [["Name", "Description", "Type", "Deadline", "Status", "Created_By", "Employee_Ids"]] + rest),
                      row, id, parseDate) == RowImport([], [], false)
  {
    var h := Header("csv", [["Name", "Description", "Type", "Deadline", "Status", "Created_By", "Employee_Ids"]] + rest);
    assert "name" !in h;
    MissingColumnCreatesNothing(h, row, id, parseDate, "name");
  }

  /**
   * ImportTasks::handle.  The file is given as its cells (sheet) and whether
   * it exists; parseDate stands for Carbon::parse.
   */
  method ImportTasks(s: TaskStore, fileExists: bool, extension: string, sheet: seq<seq<string>>,
                     parseDate: string -> Option<DateTime>) returns (outcome: ImportOutcome)
    requires s.Valid()
    modifies s`tasks, s`assignments, s`nextId
    ensures s.Valid()
    ensures outcome.Refused? <==> !fileExists || !Supported(extension)
    ensures outcome.Refused? ==> s.tasks == old(s.tasks) && s.assignments == old(s.assignments) && s.nextId == old(s.nextId)
    ensures !outcome.Refused? ==>
      ImportedAll(Body(sheet), old(s.nextId), Importer(Header(extension, sheet), parseDate), old(s.tasks), old(s.assignments),
                  s.tasks, s.assignments, s.nextId, outcome)
  {
    if !fileExists {
      return Refused;
    }
    if !Supported(extension) {
      return Refused;
    }
    var header := Header(extension, sheet);
    var rows := Body(sheet);
    outcome := ImportAll(s, header, rows, parseDate);
  }

  /** The `foreach ($rows as $row)` loop. */
  method ImportAll(s: TaskStore, header: seq<string>, rows: seq<seq<string>>, parseDate: string -> Option<DateTime>)
    returns (outcome: ImportOutcome)
    requires s.Valid()
    modifies s`tasks, s`assignments, s`nextId
    ensures s.Valid()
    ensures ImportedAll(rows, old(s.nextId), Importer(header, parseDate), old(s.tasks), old(s.assignments),
                        s.tasks, s.assignments, s.nextId, outcome)
  {
    ghost var t0, a0, id0 := s.tasks, s.assignments, s.nextId;
    ghost var importRow := Importer(header, parseDate);
    var count := 0;
    var i := 0;
    assert rows[..0] == [];
    while i < |rows|
      invariant s.Valid()
      invariant ImportedUpTo(rows, i, id0, importRow, t0, a0, s.tasks, s.assignments, s.nextId, count)
    {
      var row := rows[i];
      if BlankRow(row) {
        ImportSkip(rows, i, id0, importRow, t0, a0, s.tasks, s.assignments, s.nextId, count);
        i := i + 1;
        continue;
      }
      ghost var tasks, assignments, nextId := s.tasks, s.assignments, s.nextId;
      var complete := ImportOne(s, header, row, parseDate);
      ImporterApplies(header, parseDate, row, nextId);
      ImportAdvance(rows, i, id0, importRow, t0, a0, tasks, assignments, nextId, count, s.tasks, s.assignments, s.nextId, complete);
      if !complete {
        return Aborted(count);
      }
      count := count + 1;
      i := i + 1;
    }
    ImportDone(rows, id0, importRow, t0, a0, s.tasks, s.assignments, s.nextId, count);
    return Imported(count);
  }

  /** The command's writes and outcome are those of the row loop. */
  ghost predicate ImportedAll(rows: seq<seq<string>>, id0: TaskId, importRow: RowImporter, t0: seq<Task>, a0: seq<Assignment>,
                              tasks: seq<Task>, assignments: seq<Assignment>, nextId: TaskId, outcome: ImportOutcome) {
    var st := ImportRows(rows, id0, importRow);
    && tasks == t0 + st.created
    && assignments == a0 + st.attached
    && nextId == id0 + |st.created|
    && outcome == (if st.aborted then Aborted(st.count) else Imported(st.count))
  }

  /** The loop invariant: the first i rows are imported and none failed. */
  ghost predicate ImportedUpTo(rows: seq<seq<string>>, i: nat, id0: TaskId, importRow: RowImporter, t0: seq<Task>, a0: seq<Assignment>,
                               tasks: seq<Task>, assignments: seq<Assignment>, nextId: TaskId, count: nat) {
    && i <= |rows|
    && var st := ImportRows(rows[..i], id0, importRow);
    && tasks == t0 + st.created
    && assignments == a0 + st.attached
    && nextId == id0 + |st.created|
    && count == st.count
    && !st.aborted
  }

  lemma ImporterApplies(header: seq<string>, parseDate: string -> Option<DateTime>, row: seq<string>, id: TaskId)
    ensures Importer(header, parseDate)(row, id) == ImportRow(header, row, id, parseDate)
  {
  }

  lemma ImportSkip(rows: seq<seq<string>>, i: nat, id0: TaskId, importRow: RowImporter, t0: seq<Task>, a0: seq<Assignment>,
                   tasks: seq<Task>, assignments: seq<Assignment>, nextId: TaskId, count: nat)
    requires ImportedUpTo(rows, i, id0, importRow, t0, a0, tasks, assignments, nextId, count)
    requires i < |rows| && BlankRow(rows[i])
    ensures ImportedUpTo(rows, i + 1, id0, importRow, t0, a0, tasks, assignments, nextId, count)
  {
    ImportRowsStep(rows, i, id0, importRow);
  }

  lemma ImportAdvance(rows: seq<seq<string>>, i: nat, id0: TaskId, importRow: RowImporter, t0: seq<Task>, a0: seq<Assignment>,
                      tasks: seq<Task>, assignments: seq<Assignment>, nextId: TaskId, count: nat,
                      tasks': seq<Task>, assignments': seq<Assignment>, nextId': TaskId, complete: bool)
    requires ImportedUpTo(rows, i, id0, importRow, t0, a0, tasks, assignments, nextId, count)
    requires i < |rows| && !BlankRow(rows[i])
    requires var r := importRow(rows[i], nextId);
      && tasks' == tasks + r.created
      && assignments' == assignments + r.attached
      && nextId' == nextId + |r.created|
      && complete == r.complete
    ensures complete ==> ImportedUpTo(rows, i + 1, id0, importRow, t0, a0, tasks', assignments', nextId', count + 1)
    ensures !complete ==> ImportedAll(rows, id0, importRow, t0, a0, tasks', assignments', nextId', Aborted(count))
  {
    var st := ImportRows(rows[..i], id0, importRow);
    var r := importRow(rows[i], nextId);
    ImportRowsStep(rows, i, id0, importRow);
    AppendAssoc(t0, st.created, r.created);
    AppendAssoc(a0, st.attached, r.attached);
    if !complete {
      ImportStopsAtFailure(rows, i + 1, id0, importRow);
    }
  }

  lemma ImportDone(rows: seq<seq<string>>, id0: TaskId, importRow: RowImporter, t0: seq<Task>, a0: seq<Assignment>,
                   tasks: seq<Task>, assignments: seq<Assignment>, nextId: TaskId, count: nat)
    requires ImportedUpTo(rows, |rows|, id0, importRow, t0, a0, tasks, assignments, nextId, count)
    ensures ImportedAll(rows, id0, importRow, t0, a0, tasks, assignments, nextId, Imported(count))
  {
    assert rows[..|rows|] == rows;
  }

  /** One non-blank row: create the task, then its assignments. */
  method ImportOne(s: TaskStore, header: seq<string>, row: seq<string>, parseDate: string -> Option<DateTime>)
    returns (complete: bool)
    requires s.Valid()
    modifies s`tasks, s`assignments, s`nextId
    ensures s.Valid()
    ensures var r := ImportRow(header, row, old(s.nextId), parseDate);
      && s.tasks == old(s.tasks) + r.created
      && s.assignments == old(s.assignments) + r.attached
      && s.nextId == old(s.nextId) + |r.created|
      && complete == r.complete
  {
    var task := RowTask(header, row, s.nextId, parseDate);
    if task.None? {
      return false;
    }
    var id := s.nextId;
    s.tasks := s.tasks + [task.value];
    s.nextId := s.nextId + 1;
    var data := Combine(header, row);
    if "employee_ids" !in data {
      return false;
    }
    var pieces := Split(data["employee_ids"], ',');
    complete := AttachPieces(s, id, pieces, task.value.createdBy);
  }

  /** The inner `foreach ($employeeIds ...)` loop: one pending row per piece, until a piece is refused. */
  method AttachPieces(s: TaskStore, id: TaskId, pieces: seq<string>, assigner: Option<EmployeeId>) returns (complete: bool)
    requires s.Valid() && id < s.nextId
    modifies s`assignments
    ensures s.Valid()
    ensures var p := ParseIds(pieces);
      && s.assignments == old(s.assignments) + AttachRows(id, p.ids, assigner)
      && complete == p.complete
  {
    ghost var a0 := s.assignments;
    var k := 0;
    while k < |pieces|
      invariant 0 <= k <= |pieces|
      invariant s.Valid()
      invariant ParseIds(pieces[..k]).complete
      invariant s.assignments == a0 + AttachRows(id, ParseIds(pieces[..k]).ids, assigner)
    {
      assert pieces[..k + 1][..k] == pieces[..k];
      var e := ParseNat(Trim(pieces[k]));
      if e.None? {
        ParseIdsStops(pieces, k + 1);
        return false;
      }
      AttachRowsSnoc(id, ParseIds(pieces[..k]).ids, e.value, assigner);
      s.assignments := s.assignments + [Assignment(id, e.value, AssignmentPending, assigner)];
      k := k + 1;
    }
    assert pieces[..k] == pieces;
    return true;
  }
}
