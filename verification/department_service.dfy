/** Applying a validated department file (`department.service.ts`): the
    rows are split by action and applied as three phases, inserts, then
    updates, then soft deletes, each against the store the previous phase
    left. */
module DepartmentService {
  import opened Wrappers
  import opened Collections
  import opened Text
  import opened Store
  import opened UploadDto
  import DepartmentValidation
  import FileValidation
  import opened DepartmentLookup

  // ---------------------------------------------------------------------
  // updates

  /** One row of `handleUpdates`: the department the row's code finds gets
      the row's name and parent; a row whose code finds nothing is
      skipped. */
  function UpdateWrite(db: Db, projectId: string, row: DepartmentDto): (w: Option<Write<Department>>)
    ensures w.Some? <==> DeptExists(db, projectId, ParseInt(row.code))
    ensures w.Some? ==> (Finds(db, projectId, row, w.value.id) && w.value.id < |db.departments|
      && w.value.value == db.departments[w.value.id].(name := row.name, parent := ParentOf(db, projectId, row)))
  {
    var found := DepartmentByCode(db, projectId, ParseInt(row.code));
    if found.None? then None
    else Some(Write(found.value, db.departments[found.value].(name := row.name, parent := ParentOf(db, projectId, row))))
  }

  function UpdateWrites(db: Db, projectId: string, rows: seq<DepartmentDto>): (ws: seq<Option<Write<Department>>>)
    ensures |ws| == |rows| && forall k :: 0 <= k < |rows| ==> ws[k] == UpdateWrite(db, projectId, rows[k])
    ensures forall k :: 0 <= k < |ws| && ws[k].Some? ==> ws[k].value.id < |db.departments|
  {
    seq(|rows|, k requires 0 <= k < |rows| => UpdateWrite(db, projectId, rows[k]))
  }

  /** Row `k` is the last row of the phase whose code finds department `i`. */
  predicate LastFinder(db: Db, projectId: string, rows: seq<DepartmentDto>, i: Id, k: int) {
    && 0 <= k < |rows|
    && Finds(db, projectId, rows[k], i)
    && forall k' :: k < k' < |rows| ==> !Finds(db, projectId, rows[k'], i)
  }

  /** Row `k` is the last row of the phase that finds department `i`, and
      `d` is department `i` with row `k`'s name and parent. */
  predicate RowWins(db: Db, projectId: string, rows: seq<DepartmentDto>, i: Id, k: int, d: Department) {
    && i < |db.departments|
    && LastFinder(db, projectId, rows, i, k)
    && d == db.departments[i].(name := rows[k].name, parent := ParentOf(db, projectId, rows[k]))
  }

  /** `after` is `before` with at most its name and parent changed. */
  predicate NameParentOnly(before: Department, after: Department) {
    after == before.(name := after.name, parent := after.parent)
  }

  /** Some row of the phase finds department `i`. */
  predicate Touched(db: Db, projectId: string, rows: seq<DepartmentDto>, i: Id) {
    exists k :: 0 <= k < |rows| && Finds(db, projectId, rows[k], i)
  }

  /** What saving the phase's writes does to department `i`: nothing when
      no row finds it, otherwise the last row that finds it wins. */
  lemma {:induction false} UpdateWritesEffect(db: Db, projectId: string, rows: seq<DepartmentDto>, i: Id)
    requires i < |db.departments|
    ensures var w := LastWrite(UpdateWrites(db, projectId, rows), i);
      && (w.None? <==> !Touched(db, projectId, rows, i))
      && (w.Some? ==> exists k :: RowWins(db, projectId, rows, i, k, w.value))
  {
    UntouchedNoWrite(db, projectId, rows, i);
    var w := LastWrite(UpdateWrites(db, projectId, rows), i);
    if w.Some? {
      LastWriteWins(db, projectId, rows, i);
    }
  }

  lemma {:induction false} UntouchedNoWrite(db: Db, projectId: string, rows: seq<DepartmentDto>, i: Id)
    ensures LastWrite(UpdateWrites(db, projectId, rows), i).None? <==> !Touched(db, projectId, rows, i)
  {
    WritesAimAtFound(db, projectId, rows, i);
  }

  lemma {:induction false} LastWriteWins(db: Db, projectId: string, rows: seq<DepartmentDto>, i: Id)
    requires i < |db.departments| && LastWrite(UpdateWrites(db, projectId, rows), i).Some?
    ensures exists k :: RowWins(db, projectId, rows, i, k, LastWrite(UpdateWrites(db, projectId, rows), i).value)
  {
    var ws := UpdateWrites(db, projectId, rows);
    var w := LastWrite(ws, i).value;
    var k :| 0 <= k < |ws| && ws[k] == Some(Write(i, w))
             && (forall k' :: k < k' < |ws| ==> ws[k'].None? || ws[k'].value.id != i);
    WriterWins(db, projectId, rows, i, k, w);
  }

  /** The row behind the last write aimed at `i` is the last row that
      finds `i`, and the write carries its contents. */
  lemma {:induction false} WriterWins(db: Db, projectId: string, rows: seq<DepartmentDto>, i: Id, k: nat, d: Department)
    requires i < |db.departments| && k < |rows|
    requires UpdateWrites(db, projectId, rows)[k] == Some(Write(i, d))
    requires forall k' :: k < k' < |rows| ==> (UpdateWrites(db, projectId, rows)[k'].None?
      || UpdateWrites(db, projectId, rows)[k'].value.id != i)
    ensures RowWins(db, projectId, rows, i, k, d)
  {
    WritesAimAtFound(db, projectId, rows, i);
  }


  /** Row `k`'s write aims at department `i` exactly when its code finds
      `i`. */
  lemma WritesAimAtFound(db: Db, projectId: string, rows: seq<DepartmentDto>, i: Id)
    ensures var ws := UpdateWrites(db, projectId, rows);
      forall k :: 0 <= k < |rows| ==> ((ws[k].Some? && ws[k].value.id == i) <==> Finds(db, projectId, rows[k], i))
  {
  }

  /** `handleUpdates`: every row whose code finds a live department of the
      project renames and re-parents it, keeping its code, manager and
      deletion flag; when several rows find the same department the last
      one wins; departments no row finds stay as they were, and no other
      table changes. */
  function UpdateDepartments(db: Db, projectId: string, rows: seq<DepartmentDto>): (r: Db)
    ensures r == db.(departments := r.departments) && |r.departments| == |db.departments|
    ensures forall i {:trigger r.departments[i]} :: 0 <= i < |db.departments| && Touched(db, projectId, rows, i) ==>
      exists k :: RowWins(db, projectId, rows, i, k, r.departments[i])
    ensures forall i {:trigger r.departments[i]} :: 0 <= i < |db.departments| && !Touched(db, projectId, rows, i) ==>
      r.departments[i] == db.departments[i]
    ensures forall i {:trigger r.departments[i]} :: 0 <= i < |db.departments| ==> NameParentOnly(db.departments[i], r.departments[i])
  {
    var ds := ApplyWrites(db.departments, UpdateWrites(db, projectId, rows));
    forall i | 0 <= i < |db.departments|
      ensures Touched(db, projectId, rows, i) ==> exists k :: RowWins(db, projectId, rows, i, k, ds[i])
      ensures !Touched(db, projectId, rows, i) ==> ds[i] == db.departments[i]
    {
      UpdateWritesEffect(db, projectId, rows, i);
    }
    db.(departments := ds)
  }

  // ---------------------------------------------------------------------
  // inserts

  /** The first pass of `handleInserts`: one department per row, with the
      row's code and name, no parent and no manager. */
  function NewDepartments(projectId: string, rows: seq<DepartmentDto>): (r: seq<Department>)
    requires CodesNumeric(rows)
    ensures |r| == |rows|
    ensures forall k :: 0 <= k < |rows| ==> (&& r[k].projectId == projectId
      && Some(r[k].code) == ParseInt(rows[k].code) && r[k].name == rows[k].name
      && r[k].parent.None? && r[k].manager.None? && !r[k].deleted)
  {
    seq(|rows|, k requires 0 <= k < |rows| => Department(projectId, ParseInt(rows[k].code).value, rows[k].name, None, None, false))
  }

  /** The rows whose parent cell is not null. */
  function WithParent(rows: seq<DepartmentDto>): (r: seq<DepartmentDto>)
    ensures forall i :: 0 <= i < |r| ==> r[i] in rows && r[i].ext.parent.Some?
    ensures forall k :: 0 <= k < |rows| && rows[k].ext.parent.Some? ==> rows[k] in r
  {
    if |rows| == 0 then []
    else (if rows[0].ext.parent.Some? then [rows[0]] else []) + WithParent(rows[1..])
  }

  /** `handleInserts`: nothing for an empty bucket; a failed save when a
      code is NaN; otherwise the new departments are saved first, and only
      then are the rows with a parent cell run through `handleUpdates`
      against the store that already holds them. */
  function InsertDepartments(db: Db, projectId: string, rows: seq<DepartmentDto>): (r: Option<Db>)
    ensures |rows| == 0 ==> r == Some(db)
    ensures r.None? <==> !CodesNumeric(rows)
    ensures r.Some? ==> (r.value == db.(departments := r.value.departments)
      && |r.value.departments| == |db.departments| + |rows|)
    ensures r.Some? ==> forall i {:trigger r.value.departments[i]} :: 0 <= i < |db.departments| ==>
      NameParentOnly(db.departments[i], r.value.departments[i])
    ensures r.Some? ==> forall k :: 0 <= k < |rows| ==> (&& r.value.departments[|db.departments| + k].projectId == projectId
      && Some(r.value.departments[|db.departments| + k].code) == ParseInt(rows[k].code)
      && r.value.departments[|db.departments| + k].manager.None?
      && !r.value.departments[|db.departments| + k].deleted)
  {
    if |rows| == 0 then Some(db)
    else if !CodesNumeric(rows) then None
    else
      Some(UpdateDepartments(Saved(db, projectId, rows), projectId, WithParent(rows)))
  }

  /** The batch's codes are new to the project and pairwise different as
      numbers: what the code checks of an accepted file promise for its
      Add rows. */
  predicate FreshCodes(db: Db, projectId: string, rows: seq<DepartmentDto>) {
    && CodesNumeric(rows)
    && (forall k :: 0 <= k < |rows| ==> !DeptExists(db, projectId, ParseInt(rows[k].code)))
    && (forall a, b :: 0 <= a < b < |rows| ==> ParseInt(rows[a].code) != ParseInt(rows[b].code))
  }

  /** The store after the first pass of `handleInserts`. */
  function Saved(db: Db, projectId: string, rows: seq<DepartmentDto>): (r: Db)
    requires CodesNumeric(rows)
    ensures r == db.(departments := r.departments) && |r.departments| == |db.departments| + |rows|
    ensures forall i {:trigger r.departments[i]} :: 0 <= i < |db.departments| ==> r.departments[i] == db.departments[i]
  {
    db.(departments := db.departments + NewDepartments(projectId, rows))
  }

  /** After the first pass, a batch code that is new to the project and
      differs from the codes before it finds the department its row
      inserted. */
  lemma {:induction false} FoundAfterSave(db: Db, projectId: string, rows: seq<DepartmentDto>, j: nat)
    requires CodesNumeric(rows) && j < |rows|
    requires !DeptExists(db, projectId, ParseInt(rows[j].code))
    requires forall a :: 0 <= a < j ==> ParseInt(rows[a].code) != ParseInt(rows[j].code)
    ensures Finds(Saved(db, projectId, rows), projectId, rows[j], |db.departments| + j)
  {
    var saved := Saved(db, projectId, rows);
    var code := ParseInt(rows[j].code);
    FirstMatchInSaved(db, projectId, rows, j);
    DepartmentByCodeIs(saved, projectId, code, |db.departments| + j);
    assert DepartmentByCode(saved, projectId, code) == Some(|db.departments| + j);
  }

  lemma {:induction false} FirstMatchInSaved(db: Db, projectId: string, rows: seq<DepartmentDto>, j: nat)
    requires CodesNumeric(rows) && j < |rows|
    requires !DeptExists(db, projectId, ParseInt(rows[j].code))
    requires forall a :: 0 <= a < j ==> ParseInt(rows[a].code) != ParseInt(rows[j].code)
    ensures var ds := Saved(db, projectId, rows).departments; var code := ParseInt(rows[j].code).value;
      && DeptWithCode(ds[|db.departments| + j], projectId, code)
      && forall i :: 0 <= i < |db.departments| + j ==> !DeptWithCode(ds[i], projectId, code)
  {
    var added := NewDepartments(projectId, rows);
    var code := ParseInt(rows[j].code).value;
    OldRowsLack(db, projectId, code);
    NewRowsBefore(projectId, rows, j);
    FirstInAppend(db.departments, added, projectId, code, j);
  }

  lemma {:induction false} FirstInAppend(ds: seq<Department>, added: seq<Department>, projectId: string, code: int, j: nat)
    requires j < |added| && DeptWithCode(added[j], projectId, code)
    requires forall i :: 0 <= i < |ds| ==> !DeptWithCode(ds[i], projectId, code)
    requires forall a :: 0 <= a < j ==> !DeptWithCode(added[a], projectId, code)
    ensures DeptWithCode((ds + added)[|ds| + j], projectId, code)
    ensures forall i :: 0 <= i < |ds| + j ==> !DeptWithCode((ds + added)[i], projectId, code)
  {
    forall i | 0 <= i < |ds| + j ensures !DeptWithCode((ds + added)[i], projectId, code) {
      if i < |ds| {
        assert (ds + added)[i] == ds[i];
      } else {
        assert (ds + added)[i] == added[i - |ds|];
      }
    }
  }

  lemma OldRowsLack(db: Db, projectId: string, code: int)
    requires !DeptExists(db, projectId, Some(code))
    ensures forall i :: 0 <= i < |db.departments| ==> !DeptWithCode(db.departments[i], projectId, code)
  {
  }

  lemma NewRowsBefore(projectId: string, rows: seq<DepartmentDto>, j: nat)
    requires CodesNumeric(rows) && j < |rows|
    requires forall a :: 0 <= a < j ==> ParseInt(rows[a].code) != ParseInt(rows[j].code)
    ensures forall a :: 0 <= a < j ==> !DeptWithCode(NewDepartments(projectId, rows)[a], projectId, ParseInt(rows[j].code).value)
    ensures DeptWithCode(NewDepartments(projectId, rows)[j], projectId, ParseInt(rows[j].code).value)
  {
  }

  /** Row `j` of a fresh batch finds the department it inserted. */
  lemma {:induction false} FoundFresh(db: Db, projectId: string, rows: seq<DepartmentDto>, j: nat)
    requires FreshCodes(db, projectId, rows) && j < |rows|
    ensures Finds(Saved(db, projectId, rows), projectId, rows[j], |db.departments| + j)
  {
    FoundAfterSave(db, projectId, rows, j);
  }

  /** Forward references resolve: when the batch's codes are fresh, an
      inserted department whose parent cell names another row of the same
      batch gets that row's department as parent, wherever the two rows
      stand in the file. */
  lemma {:induction false} ForwardReference(db: Db, projectId: string, rows: seq<DepartmentDto>, k: nat, j: nat)
    requires FreshCodes(db, projectId, rows)
    requires k < |rows| && j < |rows|
    requires rows[k].ext.parent.Some? && ParseInt(rows[k].ext.parent.value) == ParseInt(rows[j].code)
    ensures InsertDepartments(db, projectId, rows).Some?
    ensures InsertDepartments(db, projectId, rows).value.departments[|db.departments| + k].parent
            == Some(|db.departments| + j)
  {
    OwnRowWinsFresh(db, projectId, rows, k);
    ParentCellFresh(db, projectId, rows, k, j);
  }

  /** In a fresh batch, a parent cell naming row `j`'s code resolves to
      the department row `j` inserted. */
  lemma {:induction false} ParentCellFresh(db: Db, projectId: string, rows: seq<DepartmentDto>, k: nat, j: nat)
    requires FreshCodes(db, projectId, rows)
    requires k < |rows| && j < |rows|
    requires rows[k].ext.parent.Some? && ParseInt(rows[k].ext.parent.value) == ParseInt(rows[j].code)
    ensures ParentOf(Saved(db, projectId, rows), projectId, rows[k]) == Some(|db.departments| + j)
  {
    FoundFresh(db, projectId, rows, j);
  }

  /** In the second pass over a fresh batch, row `k`'s department takes
      its parent from row `k`'s own parent cell: no other row finds it. */
  lemma {:induction false} OwnRowWinsFresh(db: Db, projectId: string, rows: seq<DepartmentDto>, k: nat)
    requires FreshCodes(db, projectId, rows)
    requires k < |rows| && rows[k].ext.parent.Some?
    ensures UpdateDepartments(Saved(db, projectId, rows), projectId, WithParent(rows)).departments[|db.departments| + k].parent
            == ParentOf(Saved(db, projectId, rows), projectId, rows[k])
  {
    var saved := Saved(db, projectId, rows);
    var i := |db.departments| + k;
    FoundFresh(db, projectId, rows, k);
    OnlyOwnFinds(db, projectId, rows, k);
    OwnRowWins(saved, projectId, rows, i, k);
  }

  /** When row `k` alone finds department `i`, the second pass gives `i`
      row `k`'s parent. */
  lemma {:induction false} OwnRowWins(saved: Db, projectId: string, rows: seq<DepartmentDto>, i: nat, k: nat)
    requires k < |rows| && rows[k].ext.parent.Some? && i < |saved.departments|
    requires Finds(saved, projectId, rows[k], i)
    requires OnlyFinder(saved, projectId, rows, i, rows[k])
    ensures UpdateDepartments(saved, projectId, WithParent(rows)).departments[i]
            == saved.departments[i].(name := rows[k].name, parent := ParentOf(saved, projectId, rows[k]))
  {
    var wp := WithParent(rows);
    assert rows[k] in wp;
    var m :| 0 <= m < |wp| && wp[m] == rows[k];
    assert Finds(saved, projectId, wp[m], i);
    var r := UpdateDepartments(saved, projectId, wp);
    var last :| RowWins(saved, projectId, wp, i, last, r.departments[i]);
    assert wp[last] in rows;
    var j :| 0 <= j < |rows| && rows[j] == wp[last];
    assert Finds(saved, projectId, rows[j], i);
  }

  /** In a fresh batch, row `k`'s department ends the insert phase with
      row `k`'s name and with the parent its cell names in the saved store
      (none for a null cell). */
  lemma {:induction false} InsertedFresh(db: Db, projectId: string, rows: seq<DepartmentDto>, k: nat)
    requires FreshCodes(db, projectId, rows) && k < |rows|
    ensures var d := InsertDepartments(db, projectId, rows).value.departments[|db.departments| + k];
      d.name == rows[k].name && d.parent == ParentOf(Saved(db, projectId, rows), projectId, rows[k])
  {
    var saved := Saved(db, projectId, rows);
    var i := |db.departments| + k;
    var after := UpdateDepartments(saved, projectId, WithParent(rows));
    assert InsertDepartments(db, projectId, rows) == Some(after);
    assert saved.departments[i] == NewDepartments(projectId, rows)[k];
    FoundFresh(db, projectId, rows, k);
    OnlyOwnFinds(db, projectId, rows, k);
    if rows[k].ext.parent.Some? {
      OwnRowWins(saved, projectId, rows, i, k);
    } else {
      NoParentUntouched(saved, projectId, rows, i, k);
    }
  }

  /** A department that only a row without a parent cell finds is left
      alone by the second pass. */
  lemma {:induction false} NoParentUntouched(saved: Db, projectId: string, rows: seq<DepartmentDto>, i: nat, k: nat)
    requires k < |rows| && rows[k].ext.parent.None? && i < |saved.departments|
    requires OnlyFinder(saved, projectId, rows, i, rows[k])
    ensures UpdateDepartments(saved, projectId, WithParent(rows)).departments[i] == saved.departments[i]
  {
    var wp := WithParent(rows);
    forall m | 0 <= m < |wp| ensures !Finds(saved, projectId, wp[m], i) {
      assert wp[m] in rows && wp[m].ext.parent.Some?;
    }
  }

  /** In a fresh batch the insert phase leaves every earlier department as
      it was: no parent row finds one. */
  lemma {:induction false} InsertKeepsOldFresh(db: Db, projectId: string, rows: seq<DepartmentDto>, i: nat)
    requires FreshCodes(db, projectId, rows) && i < |db.departments|
    ensures InsertDepartments(db, projectId, rows).value.departments[i] == db.departments[i]
  {
    var saved := Saved(db, projectId, rows);
    var wp := WithParent(rows);
    assert !Touched(saved, projectId, wp, i);
  }

  /** In a fresh batch only row `k` finds the department row `k`
      inserted. */
  lemma {:induction false} OnlyOwnFinds(db: Db, projectId: string, rows: seq<DepartmentDto>, k: nat)
    requires FreshCodes(db, projectId, rows)
    requires k < |rows|
    ensures OnlyFinder(Saved(db, projectId, rows), projectId, rows, |db.departments| + k, rows[k])
  {
    forall m | 0 <= m < |rows| && Finds(Saved(db, projectId, rows), projectId, rows[m], |db.departments| + k)
      ensures rows[m] == rows[k]
    {
      SameCodeSameRow(db, projectId, rows, rows[m], k);
    }
  }

  /** In a fresh batch a row whose code finds the department row `k`
      inserted is row `k`. */
  lemma {:induction false} SameCodeSameRow(db: Db, projectId: string, rows: seq<DepartmentDto>, row: DepartmentDto, k: nat)
    requires FreshCodes(db, projectId, rows)
    requires k < |rows| && row in rows
    requires Finds(Saved(db, projectId, rows), projectId, row, |db.departments| + k)
    ensures row == rows[k]
  {
    var a :| 0 <= a < |rows| && rows[a] == row;
    FoundFresh(db, projectId, rows, a);
    var c := DepartmentByCode(Saved(db, projectId, rows), projectId, ParseInt(row.code));
    assert c == Some(|db.departments| + a);
    assert c == Some(|db.departments| + k);
    assert a == k;
  }

  // ---------------------------------------------------------------------
  // deletes

  /** Some row of the phase finds department `i`. */
  predicate Removed(db: Db, projectId: string, rows: seq<DepartmentDto>, i: Id) {
    exists k :: 0 <= k < |rows| && Finds(db, projectId, rows[k], i)
  }

  /** `handleDeletions`: `softRemove` of the departments the rows' codes
      find; missing codes are skipped and children are left alone. */
  function DeleteDepartments(db: Db, projectId: string, rows: seq<DepartmentDto>): (r: Db)
    ensures r == db.(departments := r.departments) && |r.departments| == |db.departments|
    ensures forall i :: 0 <= i < |db.departments| ==>
      r.departments[i] == db.departments[i].(deleted := db.departments[i].deleted || Removed(db, projectId, rows, i))
  {
    db.(departments := seq(|db.departments|, i requires 0 <= i < |db.departments| =>
      db.departments[i].(deleted := db.departments[i].deleted || Removed(db, projectId, rows, i))))
  }

  /** Live departments of a project have distinct codes. */
  predicate UniqueCodes(db: Db, projectId: string) {
    forall a, b :: 0 <= a < b < |db.departments| && !db.departments[a].deleted && !db.departments[b].deleted
      && db.departments[a].projectId == projectId && db.departments[b].projectId == projectId
      ==> db.departments[a].code != db.departments[b].code
  }

  /** When codes are unique in the project, no live department keeps the
      code of a deleted row. */
  lemma {:induction false} DeleteRemovesCodes(db: Db, projectId: string, rows: seq<DepartmentDto>, k: nat)
    requires UniqueCodes(db, projectId) && k < |rows|
    ensures !DeptExists(DeleteDepartments(db, projectId, rows), projectId, ParseInt(rows[k].code))
  {
    var r := DeleteDepartments(db, projectId, rows);
    var code := ParseInt(rows[k].code);
    if code.Some? {
      forall j | 0 <= j < |r.departments| ensures !DeptWithCode(r.departments[j], projectId, code.value) {
        var found := DepartmentByCode(db, projectId, code);
        if DeptWithCode(db.departments[j], projectId, code.value) {
          assert found.Some? && found.value == j;
          assert Finds(db, projectId, rows[k], j);
        }
      }
    }
  }

  // ---------------------------------------------------------------------
  // the whole upload

  /** The three phases on the buckets of an accepted file. */
  function ApplyDepartments(db: Db, projectId: string, items: seq<DepartmentDto>): (r: Option<Db>)
    ensures r.None? <==> !CodesNumeric(OfAction(items, ADD)) && |OfAction(items, ADD)| > 0
  {
    var inserted := InsertDepartments(db, projectId, OfAction(items, ADD));
    if inserted.None? then None
    else Some(DeleteDepartments(UpdateDepartments(inserted.value, projectId, OfAction(items, UPDATE)),
                                projectId, OfAction(items, DELETE)))
  }

  /** `processDepartments`: validate; stop with the report of every row
      when some row has errors; otherwise apply the buckets and answer
      with their sizes. */
  method ProcessDepartments(u: Utils, db: Db, projectId: string, dto: DepartmentFileDto)
    returns (validated: DepartmentFileDto, outcome: Outcome)
    ensures validated.file == dto.file && |validated.items| == |dto.items|
    ensures validated.hasErrors <==> dto.hasErrors || FileValidation.AnyErrors(validated.items)
    ensures outcome.Rejected? <==> validated.hasErrors
    ensures outcome.Rejected? ==> outcome.report == FileReport(validated.items)
    ensures outcome.Failed? <==> !validated.hasErrors && ApplyDepartments(db, projectId, validated.items).None?
    ensures outcome.Applied? ==> (&& Some(outcome.db) == ApplyDepartments(db, projectId, validated.items)
      && outcome.response == UploadResponse(dto.file, |OfAction(validated.items, ADD)|,
           |OfAction(validated.items, UPDATE)|, |OfAction(validated.items, DELETE)|))
  {
    var checked;
    checked, validated := DepartmentValidation.ValidateDepartment(u, db, projectId, dto);
    if validated.hasErrors {
      outcome := Rejected(FileReport(validated.items));
      return;
    }
    var applied := ApplyDepartments(db, projectId, validated.items);
    if applied.None? {
      outcome := Failed;
    } else {
      outcome := Applied(UploadResponse(dto.file, |OfAction(validated.items, ADD)|,
        |OfAction(validated.items, UPDATE)|, |OfAction(validated.items, DELETE)|), applied.value);
    }
  }
}
