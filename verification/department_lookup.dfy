/** What a department row's cells find in the store: the department its
    code names and the department its parent cell names. */
module DepartmentLookup {
  import opened Wrappers
  import opened Text
  import opened Store
  import opened UploadDto

  /** Row `row`'s code finds department `i`. */
  predicate Finds(db: Db, projectId: string, row: DepartmentDto, i: Id) {
    DepartmentByCode(db, projectId, ParseInt(row.code)) == Some(i)
  }

  /** `getParentByCode`, guarded by `dto.parent !== null`: the department
      the parent cell names, or null when the cell is null or names no live
      department of the project. */
  function ParentOf(db: Db, projectId: string, row: DepartmentDto): (r: Option<Id>)
    ensures r.Some? ==> (row.ext.parent.Some? && ParseInt(row.ext.parent.value).Some?
      && r.value < |db.departments|
      && DeptWithCode(db.departments[r.value], projectId, ParseInt(row.ext.parent.value).value))
    ensures r.None? <==> (row.ext.parent.None? || !DeptExists(db, projectId, ParseInt(row.ext.parent.value)))
  {
    if row.ext.parent.None? then None else DepartmentByCode(db, projectId, ParseInt(row.ext.parent.value))
  }

  /** Every row of `rows` whose code finds department `i` equals `row`. */
  predicate OnlyFinder(saved: Db, projectId: string, rows: seq<DepartmentDto>, i: Id, row: DepartmentDto) {
    forall m :: 0 <= m < |rows| && Finds(saved, projectId, rows[m], i) ==> rows[m] == row
  }
}
