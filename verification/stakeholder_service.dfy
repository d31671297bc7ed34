/** Applying a validated stakeholder file (`stakeholder.service.ts`): the
    insert, update and delete phases run inside one transaction together
    with the call that provisions the users, so either all of them take
    effect or none does. */
module StakeholderService {
  import opened Wrappers
  import opened Collections
  import opened Text
  import opened Store
  import opened UploadDto
  import StakeholderValidation
  import FileValidation

  /** The code of the first stakeholder ever created. */
  const FIRST_CODE := 10000

  // ---------------------------------------------------------------------
  // code allocation

  /** The greatest code of a non-empty table. */
  function MaxCode(ss: seq<Stakeholder>): (m: int)
    requires |ss| > 0
    ensures forall j :: 0 <= j < |ss| ==> ss[j].code <= m
    ensures exists j :: 0 <= j < |ss| && ss[j].code == m
  {
    if |ss| == 1 then ss[0].code
    else
      var n := |ss| - 1;
      var m := MaxCode(ss[..n]);
      assert forall j :: 0 <= j < n ==> ss[..n][j] == ss[j];
      if ss[n].code > m then ss[n].code else m
  }

  /** `generateCode`: one more than the greatest code of the whole table,
      soft-deleted rows and other projects included, or 10000 for an empty
      table. The result is above every code in use. */
  function GenerateCode(db: Db): (c: int)
    ensures |db.stakeholders| == 0 ==> c == FIRST_CODE
    ensures forall j :: 0 <= j < |db.stakeholders| ==> db.stakeholders[j].code < c
    ensures |db.stakeholders| > 0 ==> exists j :: 0 <= j < |db.stakeholders| && db.stakeholders[j].code + 1 == c
  {
    if |db.stakeholders| == 0 then FIRST_CODE else MaxCode(db.stakeholders) + 1
  }

  /** Stakeholder codes are unique over the whole table (the UNIQUE index
      on `code`). */
  predicate CodesUnique(ss: seq<Stakeholder>) {
    forall a, b :: 0 <= a < b < |ss| ==> ss[a].code != ss[b].code
  }

  // ---------------------------------------------------------------------
  // assignments

  /** The number of (department, position) pairs of a department column. */
  function PositionCount(entries: seq<DepartmentAndPosition>): nat {
    if |entries| == 0 then 0 else |entries[0].positions| + PositionCount(entries[1..])
  }

  /** The assignments of one entry: one per listed position, all in the
      entry's department; a department or position the lookup does not find
      is left empty. */
  function EntryPlacements(db: Db, projectId: string, s: Id, dept: Option<Id>, positions: seq<string>): (r: seq<Assignment>)
    ensures |r| == |positions|
    ensures forall j :: 0 <= j < |r| ==> r[j] == Assignment(Some(s), dept, PositionByCode(db, projectId, ParseInt(positions[j])), projectId, false)
  {
    if |positions| == 0 then []
    else [Assignment(Some(s), dept, PositionByCode(db, projectId, ParseInt(positions[0])), projectId, false)]
         + EntryPlacements(db, projectId, s, dept, positions[1..])
  }

  /** `insertStakeholderDepartmentPosition`: the assignments of a row,
      entry by entry. */
  function Placements(db: Db, projectId: string, s: Id, entries: seq<DepartmentAndPosition>): (r: seq<Assignment>)
    ensures |r| == PositionCount(entries)
    ensures forall a :: a in r ==> a.stakeholder == Some(s) && a.projectId == projectId && !a.deleted
  {
    if |entries| == 0 then []
    else EntryPlacements(db, projectId, s, DepartmentByCode(db, projectId, ParseInt(entries[0].department)), entries[0].positions)
         + Placements(db, projectId, s, entries[1..])
  }

  /** The `j`-th position of the `e`-th entry becomes the assignment at
      offset Σ|positions| of the earlier entries plus `j`, pairing the
      entry's department with that position. */
  lemma {:induction false} PlacementAt(db: Db, projectId: string, s: Id, entries: seq<DepartmentAndPosition>, e: nat, j: nat)
    requires e < |entries| && j < |entries[e].positions|
    ensures PositionCount(entries[..e]) + j < |Placements(db, projectId, s, entries)|
    ensures Placements(db, projectId, s, entries)[PositionCount(entries[..e]) + j]
         == Assignment(Some(s), DepartmentByCode(db, projectId, ParseInt(entries[e].department)),
                       PositionByCode(db, projectId, ParseInt(entries[e].positions[j])), projectId, false)
  {
    if e == 0 {
      assert entries[..0] == [];
    } else {
      PlacementAt(db, projectId, s, entries[1..], e - 1, j);
      PositionCountSplit(entries, e);
      var head := EntryPlacements(db, projectId, s, DepartmentByCode(db, projectId, ParseInt(entries[0].department)), entries[0].positions);
      var tail := Placements(db, projectId, s, entries[1..]);
      var i := PositionCount(entries[1..][..e - 1]) + j;
      assert Placements(db, projectId, s, entries) == head + tail;
      assert (head + tail)[|head| + i] == tail[i];
    }
  }

  lemma {:induction false} PositionCountSplit(entries: seq<DepartmentAndPosition>, e: nat)
    requires 0 < e <= |entries|
    ensures PositionCount(entries[..e]) == |entries[0].positions| + PositionCount(entries[1..][..e - 1])
    ensures PositionCount(entries) == |entries[0].positions| + PositionCount(entries[1..])
  {
    assert entries[..e][1..] == entries[1..][..e - 1];
  }

  /** The assignments of the Add rows: row `k` becomes stakeholder
      `first + k`. */
  function AddPlacements(db: Db, projectId: string, rows: seq<StakeholderDto>, first: Id): (r: seq<Assignment>)
    ensures forall a :: a in r ==> (&& a.stakeholder.Some? && first <= a.stakeholder.value < first + |rows|
      && a.projectId == projectId && !a.deleted)
  {
    if |rows| == 0 then []
    else Placements(db, projectId, first, rows[0].departmentsAndPositions)
         + AddPlacements(db, projectId, rows[1..], first + 1)
  }

  /** Σ over the rows of Σ|positions| of each row. */
  function RowsPositionCount(rows: seq<StakeholderDto>): nat {
    if |rows| == 0 then 0 else PositionCount(rows[0].departmentsAndPositions) + RowsPositionCount(rows[1..])
  }

  lemma {:induction false} AddPlacementsCount(db: Db, projectId: string, rows: seq<StakeholderDto>, first: Id)
    ensures |AddPlacements(db, projectId, rows, first)| == RowsPositionCount(rows)
  {
    if |rows| > 0 {
      AddPlacementsCount(db, projectId, rows[1..], first + 1);
    }
  }

  // ---------------------------------------------------------------------
  // managers

  /** A non-empty manager cell finds its department
      (`findOne({ code: parseInt(manager), projectId })`). */
  function ManagedDepartment(db: Db, projectId: string, row: StakeholderDto): Option<Id> {
    DepartmentByCode(db, projectId, ParseInt(row.manager))
  }

  /** Every non-empty manager cell finds a department; otherwise
      `setStakeholderManager` dereferences a missing row and the
      transaction is rolled back. */
  predicate ManagersFound(db: Db, projectId: string, rows: seq<StakeholderDto>) {
    forall k :: 0 <= k < |rows| && rows[k].manager != "" ==> ManagedDepartment(db, projectId, rows[k]).Some?
  }

  /** `setStakeholderManager`: the department the manager cell names, with
      `s` as its manager. */
  function SetManager(db: Db, projectId: string, row: StakeholderDto, s: Id): (w: Write<Department>)
    requires ManagedDepartment(db, projectId, row).Some?
    ensures w.id == ManagedDepartment(db, projectId, row).value && w.id < |db.departments|
    ensures DeptWithCode(db.departments[w.id], projectId, ParseInt(row.manager).value)
    ensures w.value == db.departments[w.id].(manager := Some(s))
  {
    var d := ManagedDepartment(db, projectId, row).value;
    Write(d, db.departments[d].(manager := Some(s)))
  }

  /** `unsetStakeholderManager`: the first department of the project that
      `s` manages loses its manager; nothing when it manages none. */
  function UnsetManager(db: Db, projectId: string, s: Id): (w: Option<Write<Department>>)
    ensures w.None? <==> DepartmentManagedBy(db, projectId, s).None?
    ensures w.Some? ==> (&& w.value.id < |db.departments| && db.departments[w.value.id].manager == Some(s)
      && w.value.value == db.departments[w.value.id].(manager := None))
  {
    var d := DepartmentManagedBy(db, projectId, s);
    if d.None? then None else Some(Write(d.value, db.departments[d.value].(manager := None)))
  }

  // ---------------------------------------------------------------------
  // inserts

  /** The stakeholder an Add row creates, with the code it is given. */
  function NewStakeholder(projectId: string, row: StakeholderDto, code: int): Stakeholder {
    Stakeholder(code, row.name, row.email, projectId, row.projectRoleId, false)
  }

  /** Row `k` becomes stakeholder `first + k` with code `base + k`. */
  function NewStakeholders(projectId: string, rows: seq<StakeholderDto>, base: int): (r: seq<Stakeholder>)
    ensures |r| == |rows|
    ensures forall k :: 0 <= k < |rows| ==> r[k] == NewStakeholder(projectId, rows[k], base + k)
  {
    seq(|rows|, k requires 0 <= k < |rows| => NewStakeholder(projectId, rows[k], base + k))
  }

  /** The department writes of the Add rows: a row with a manager cell
      makes the new stakeholder manager of that department. */
  function InsertManagerWrites(db: Db, projectId: string, rows: seq<StakeholderDto>, first: Id): (ws: seq<Option<Write<Department>>>)
    requires ManagersFound(db, projectId, rows)
    ensures |ws| == |rows|
    ensures forall k :: 0 <= k < |rows| ==> (ws[k].None? <==> rows[k].manager == "")
    ensures forall k :: 0 <= k < |rows| && rows[k].manager != "" ==> ws[k] == Some(SetManager(db, projectId, rows[k], first + k))
    ensures forall k :: 0 <= k < |ws| && ws[k].Some? ==> ws[k].value.id < |db.departments|
  {
    seq(|rows|, k requires 0 <= k < |rows| =>
      if rows[k].manager == "" then None else Some(SetManager(db, projectId, rows[k], first + k)))
  }

  /** `handleInserts`: nothing for an empty bucket; otherwise row `k`
      becomes a new stakeholder with code `generateCode() + k`, its
      assignments are added, and its manager cell, when set, makes it
      manager of that department. A manager cell that finds no department
      rolls the transaction back. */
  function InsertStakeholders(db: Db, projectId: string, rows: seq<StakeholderDto>): (r: Option<Db>)
    ensures |rows| == 0 ==> r == Some(db)
    ensures r.None? <==> !ManagersFound(db, projectId, rows)
    ensures r.Some? ==> (&& r.value == db.(stakeholders := r.value.stakeholders, assignments := r.value.assignments,
                                         departments := r.value.departments)
      && |r.value.stakeholders| == |db.stakeholders| + |rows|
      && r.value.stakeholders[..|db.stakeholders|] == db.stakeholders
      && r.value.assignments == db.assignments + AddPlacements(db, projectId, rows, |db.stakeholders|)
      && |r.value.departments| == |db.departments|)
    ensures r.Some? ==> forall k :: 0 <= k < |rows| ==>
      r.value.stakeholders[|db.stakeholders| + k] == NewStakeholder(projectId, rows[k], GenerateCode(db) + k)
  {
    if |rows| == 0 then Some(db)
    else if !ManagersFound(db, projectId, rows) then None
    else
      var n := |db.stakeholders|;
      var added := NewStakeholders(projectId, rows, GenerateCode(db));
      assert (db.stakeholders + added)[..n] == db.stakeholders;
      Some(db.(stakeholders := db.stakeholders + added,
               assignments := db.assignments + AddPlacements(db, projectId, rows, n),
               departments := ApplyWrites(db.departments, InsertManagerWrites(db, projectId, rows, n))))
  }

  /** The new codes are consecutive from `generateCode()`: strictly
      increasing in row order and above every code already in use, so
      codes that were unique stay unique. */
  lemma {:induction false} InsertKeepsCodesUnique(db: Db, projectId: string, rows: seq<StakeholderDto>)
    requires CodesUnique(db.stakeholders) && InsertStakeholders(db, projectId, rows).Some?
    ensures CodesUnique(InsertStakeholders(db, projectId, rows).value.stakeholders)
  {
    var ss := InsertStakeholders(db, projectId, rows).value.stakeholders;
    FreshCodesUnique(db.stakeholders, ss, GenerateCode(db));
  }

  /** Appending rows with consecutive codes above every existing code keeps
      codes unique. */
  lemma FreshCodesUnique(before: seq<Stakeholder>, ss: seq<Stakeholder>, base: int)
    requires CodesUnique(before) && |before| <= |ss| && ss[..|before|] == before
    requires forall j :: 0 <= j < |before| ==> before[j].code < base
    requires forall k :: |before| <= k < |ss| ==> ss[k].code == base + (k - |before|)
    ensures CodesUnique(ss)
  {
    var n := |before|;
    forall a, b | 0 <= a < b < |ss| ensures ss[a].code != ss[b].code {
      if a < n {
        assert ss[a] == before[a];
        if b < n {
          assert ss[b] == before[b];
        }
      }
    }
  }

  /** The last Add row naming department `d` in its manager cell makes its
      new stakeholder the manager of `d`. */
  lemma {:induction false} InsertSetsManager(db: Db, projectId: string, rows: seq<StakeholderDto>, k: nat, d: Id)
    requires InsertStakeholders(db, projectId, rows).Some? && k < |rows|
    requires rows[k].manager != "" && ManagedDepartment(db, projectId, rows[k]) == Some(d)
    requires forall k' :: k < k' < |rows| && rows[k'].manager != "" ==> ManagedDepartment(db, projectId, rows[k']) != Some(d)
    ensures d < |db.departments|
    ensures InsertStakeholders(db, projectId, rows).value.departments[d]
         == db.departments[d].(manager := Some(|db.stakeholders| + k))
  {
    InsertWriteWins(db, projectId, rows, |db.stakeholders|, k, d);
    InsertedDepartment(db, projectId, rows, d);
  }

  /** A department after the insert phase: the last manager write aimed at
      it, or the department as it was. */
  lemma InsertedDepartment(db: Db, projectId: string, rows: seq<StakeholderDto>, d: Id)
    requires InsertStakeholders(db, projectId, rows).Some? && d < |db.departments|
    ensures InsertStakeholders(db, projectId, rows).value.departments[d]
         == LastWrite(InsertManagerWrites(db, projectId, rows, |db.stakeholders|), d).GetOr(db.departments[d])
  {
  }

  lemma {:induction false} InsertWriteWins(db: Db, projectId: string, rows: seq<StakeholderDto>, first: Id, k: nat, d: Id)
    requires ManagersFound(db, projectId, rows) && k < |rows|
    requires rows[k].manager != "" && ManagedDepartment(db, projectId, rows[k]) == Some(d)
    requires forall k' :: k < k' < |rows| && rows[k'].manager != "" ==> ManagedDepartment(db, projectId, rows[k']) != Some(d)
    ensures d < |db.departments|
    ensures LastWrite(InsertManagerWrites(db, projectId, rows, first), d) == Some(db.departments[d].(manager := Some(first + k)))
  {
    var ws := InsertManagerWrites(db, projectId, rows, first);
    forall k' | k < k' < |rows| ensures ws[k'].None? || ws[k'].value.id != d {
      if rows[k'].manager != "" {
        assert ws[k'] == Some(SetManager(db, projectId, rows[k'], first + k'));
      }
    }
    LastWriteAfter(ws, d, k, db.departments[d].(manager := Some(first + k)));
  }

  /** A department no manager cell names keeps its manager. */
  lemma {:induction false} InsertLeavesOtherDepartments(db: Db, projectId: string, rows: seq<StakeholderDto>, d: Id)
    requires InsertStakeholders(db, projectId, rows).Some? && d < |db.departments|
    requires forall k :: 0 <= k < |rows| && rows[k].manager != "" ==> ManagedDepartment(db, projectId, rows[k]) != Some(d)
    ensures InsertStakeholders(db, projectId, rows).value.departments[d] == db.departments[d]
  {
    var ws := InsertManagerWrites(db, projectId, rows, |db.stakeholders|);
    assert LastWrite(ws, d).None?;
  }

  // ---------------------------------------------------------------------
  // updates

  /** The stakeholder an Update or Delete row names
      (`findOne({ projectId, code: parseInt(stakeholderId) })`). */
  function Target(db: Db, projectId: string, row: StakeholderDto): Option<Id> {
    StakeholderByCode(db, projectId, ParseIntOpt(row.stakeholderId))
  }

  /** Every Update row finds its stakeholder, the stakeholder has a project
      role to re-point, and every manager cell finds its department; a row
      breaking this dereferences a missing row and rolls the transaction
      back. */
  predicate UpdatesResolve(db: Db, projectId: string, rows: seq<StakeholderDto>) {
    && (forall k :: 0 <= k < |rows| ==> Target(db, projectId, rows[k]).Some?)
    && (forall k :: 0 <= k < |rows| ==> db.stakeholders[Target(db, projectId, rows[k]).value].projectRole.Some?)
    && ManagersFound(db, projectId, rows)
  }

  /** Some row of the bucket names stakeholder `s`. */
  predicate Targeted(db: Db, projectId: string, rows: seq<StakeholderDto>, s: Option<Id>) {
    s.Some? && exists k :: 0 <= k < |rows| && Target(db, projectId, rows[k]) == s
  }

  /** The assignments that survive the hard deletes of an update phase:
      every row of a stakeholder some Update row names is gone, soft-deleted
      ones included. */
  function Unassigned(db: Db, projectId: string, rows: seq<StakeholderDto>, xs: seq<Assignment>): (r: seq<Assignment>)
    ensures forall a :: a in r <==> a in xs && !Targeted(db, projectId, rows, a.stakeholder)
  {
    if |xs| == 0 then []
    else
      var n := |xs| - 1;
      var init := Unassigned(db, projectId, rows, xs[..n]);
      assert forall a :: a in xs <==> a in xs[..n] || a == xs[n] by { assert xs == xs[..n] + [xs[n]]; }
      if Targeted(db, projectId, rows, xs[n].stakeholder) then init else init + [xs[n]]
  }

  /** The new assignments of the Update rows, row by row. */
  function UpdatePlacements(db: Db, projectId: string, rows: seq<StakeholderDto>): (r: seq<Assignment>)
    requires forall k :: 0 <= k < |rows| ==> Target(db, projectId, rows[k]).Some?
    ensures forall a :: a in r ==> Targeted(db, projectId, rows, a.stakeholder) && a.projectId == projectId && !a.deleted
  {
    if |rows| == 0 then []
    else
      var rest := UpdatePlacements(db, projectId, rows[1..]);
      assert forall a :: a in rest ==> Targeted(db, projectId, rows, a.stakeholder) by {
        forall a | a in rest ensures Targeted(db, projectId, rows, a.stakeholder) {
          var k :| 0 <= k < |rows[1..]| && Target(db, projectId, rows[1..][k]) == a.stakeholder;
          assert Target(db, projectId, rows[k + 1]) == a.stakeholder;
        }
      }
      Placements(db, projectId, Target(db, projectId, rows[0]).value, rows[0].departmentsAndPositions) + rest
  }

  /** One Update row's stakeholder write: the new name and project role. */
  function Renamed(db: Db, projectId: string, row: StakeholderDto): (w: Write<Stakeholder>)
    requires Target(db, projectId, row).Some?
    ensures w.id == Target(db, projectId, row).value && w.id < |db.stakeholders|
    ensures w.value == db.stakeholders[w.id].(name := row.name, projectRole := row.projectRoleId)
  {
    var s := Target(db, projectId, row).value;
    Write(s, db.stakeholders[s].(name := row.name, projectRole := row.projectRoleId))
  }

  function RenameWrites(db: Db, projectId: string, rows: seq<StakeholderDto>): (ws: seq<Option<Write<Stakeholder>>>)
    requires forall k :: 0 <= k < |rows| ==> Target(db, projectId, rows[k]).Some?
    ensures |ws| == |rows| && forall k :: 0 <= k < |rows| ==> ws[k] == Some(Renamed(db, projectId, rows[k]))
    ensures forall k :: 0 <= k < |ws| && ws[k].Some? ==> ws[k].value.id < |db.stakeholders|
  {
    seq(|rows|, k requires 0 <= k < |rows| => Some(Renamed(db, projectId, rows[k])))
  }

  /** One Update row's department write: its manager cell sets the manager
      of that department, an empty cell clears one department the
      stakeholder manages. */
  function UpdateManagerWrite(db: Db, projectId: string, row: StakeholderDto): (w: Option<Write<Department>>)
    requires Target(db, projectId, row).Some?
    requires row.manager != "" ==> ManagedDepartment(db, projectId, row).Some?
    ensures row.manager != "" ==> w == Some(SetManager(db, projectId, row, Target(db, projectId, row).value))
    ensures row.manager == "" ==> w == UnsetManager(db, projectId, Target(db, projectId, row).value)
  {
    var s := Target(db, projectId, row).value;
    if row.manager != "" then Some(SetManager(db, projectId, row, s)) else UnsetManager(db, projectId, s)
  }

  function UpdateManagerWrites(db: Db, projectId: string, rows: seq<StakeholderDto>): (ws: seq<Option<Write<Department>>>)
    requires UpdatesResolve(db, projectId, rows)
    ensures |ws| == |rows| && forall k :: 0 <= k < |rows| ==> ws[k] == UpdateManagerWrite(db, projectId, rows[k])
    ensures forall k :: 0 <= k < |ws| && ws[k].Some? ==> ws[k].value.id < |db.departments|
  {
    seq(|rows|, k requires 0 <= k < |rows| => UpdateManagerWrite(db, projectId, rows[k]))
  }

  /** `handleUpdates`: nothing for an empty bucket; otherwise every row
      renames its stakeholder and re-points its role, every earlier
      assignment of the stakeholders it names is hard-deleted and the rows'
      new assignments added, and the manager cells set or clear managers.
      A stakeholder without a role, or a manager cell that finds no
      department, makes the source read a property of null, and the
      transaction rolls back. Validation guarantees that every Update row
      of an accepted file finds its stakeholder; the model treats a miss as
      a rollback too. */
  function UpdateStakeholders(db: Db, projectId: string, rows: seq<StakeholderDto>): (r: Option<Db>)
    ensures |rows| == 0 ==> r == Some(db)
    ensures |rows| > 0 ==> (r.None? <==> !UpdatesResolve(db, projectId, rows))
    ensures r.Some? ==> (&& r.value == db.(stakeholders := r.value.stakeholders, assignments := r.value.assignments,
                                         departments := r.value.departments)
      && |r.value.stakeholders| == |db.stakeholders| && |r.value.departments| == |db.departments|)
    ensures r.Some? && |rows| > 0 ==>
      r.value.assignments == Unassigned(db, projectId, rows, db.assignments) + UpdatePlacements(db, projectId, rows)
  {
    if |rows| == 0 then Some(db)
    else if !UpdatesResolve(db, projectId, rows) then None
    else
      Some(db.(stakeholders := ApplyWrites(db.stakeholders, RenameWrites(db, projectId, rows)),
               assignments := Unassigned(db, projectId, rows, db.assignments) + UpdatePlacements(db, projectId, rows),
               departments := ApplyWrites(db.departments, UpdateManagerWrites(db, projectId, rows))))
  }

  /** The last Update row naming stakeholder `s` decides its name and
      role; nothing else about it changes. */
  lemma {:induction false} UpdateRenames(db: Db, projectId: string, rows: seq<StakeholderDto>, k: nat)
    requires UpdateStakeholders(db, projectId, rows).Some? && k < |rows| && Target(db, projectId, rows[k]).Some?
    requires forall k' :: k < k' < |rows| ==> Target(db, projectId, rows[k']) != Target(db, projectId, rows[k])
    ensures var s := Target(db, projectId, rows[k]).value;
      UpdateStakeholders(db, projectId, rows).value.stakeholders[s]
        == db.stakeholders[s].(name := rows[k].name, projectRole := rows[k].projectRoleId)
  {
    RenameWins(db, projectId, rows, k);
  }

  lemma {:induction false} RenameWins(db: Db, projectId: string, rows: seq<StakeholderDto>, k: nat)
    requires forall k' :: 0 <= k' < |rows| ==> Target(db, projectId, rows[k']).Some?
    requires k < |rows|
    requires forall k' :: k < k' < |rows| ==> Target(db, projectId, rows[k']) != Target(db, projectId, rows[k])
    ensures LastWrite(RenameWrites(db, projectId, rows), Target(db, projectId, rows[k]).value)
         == Some(Renamed(db, projectId, rows[k]).value)
  {
    var w := Renamed(db, projectId, rows[k]);
    LastWriteAfter(RenameWrites(db, projectId, rows), w.id, k, w.value);
  }

  /** After an update phase, a stakeholder some row names holds exactly the
      assignments its rows list: none of its earlier ones survive. */
  lemma {:induction false} UpdateReplacesAssignments(db: Db, projectId: string, rows: seq<StakeholderDto>, k: nat)
    requires UpdateStakeholders(db, projectId, rows).Some? && k < |rows|
    ensures var r := UpdateStakeholders(db, projectId, rows).value;
      forall a :: a in db.assignments && a.stakeholder == Target(db, projectId, rows[k]) ==>
        a !in r.assignments[..|r.assignments| - |UpdatePlacements(db, projectId, rows)|]
  {
    var r := UpdateStakeholders(db, projectId, rows).value;
    var kept := Unassigned(db, projectId, rows, db.assignments);
    var placed := UpdatePlacements(db, projectId, rows);
    assert r.assignments == kept + placed;
    assert r.assignments[..|r.assignments| - |placed|] == kept;
    forall a | a in db.assignments && a.stakeholder == Target(db, projectId, rows[k]) ensures a !in kept {
      assert Targeted(db, projectId, rows, a.stakeholder);
    }
  }

  /** The department an Update or Delete row's stakeholder manages: the
      one an empty manager cell clears. */
  function ClearedDepartment(db: Db, projectId: string, row: StakeholderDto): (d: Option<Id>)
    ensures d.Some? ==> (&& Target(db, projectId, row).Some? && d.value < |db.departments|
      && UnsetManager(db, projectId, Target(db, projectId, row).value) == Some(Write(d.value, db.departments[d.value].(manager := None))))
  {
    var s := Target(db, projectId, row);
    if s.None? then None
    else
      var w := UnsetManager(db, projectId, s.value);
      if w.None? then None else Some(w.value.id)
  }

  /** An Update row with an empty manager cell clears the department its
      stakeholder managed, unless a later row's manager cell names that
      department. */
  lemma {:induction false} UpdateClearsManager(db: Db, projectId: string, rows: seq<StakeholderDto>, k: nat, d: Id)
    requires UpdateStakeholders(db, projectId, rows).Some? && k < |rows|
    requires rows[k].manager == "" && ClearedDepartment(db, projectId, rows[k]) == Some(d)
    requires forall k' :: k < k' < |rows| && rows[k'].manager != "" ==> ManagedDepartment(db, projectId, rows[k']) != Some(d)
    ensures d < |db.departments|
    ensures UpdateStakeholders(db, projectId, rows).value.departments[d] == db.departments[d].(manager := None)
  {
    UpdateWriteClears(db, projectId, rows, k, d);
  }

  lemma {:induction false} UpdateWriteClears(db: Db, projectId: string, rows: seq<StakeholderDto>, k: nat, d: Id)
    requires UpdatesResolve(db, projectId, rows) && k < |rows|
    requires rows[k].manager == "" && ClearedDepartment(db, projectId, rows[k]) == Some(d)
    requires forall k' :: k < k' < |rows| && rows[k'].manager != "" ==> ManagedDepartment(db, projectId, rows[k']) != Some(d)
    ensures d < |db.departments|
    ensures LastWrite(UpdateManagerWrites(db, projectId, rows), d) == Some(db.departments[d].(manager := None))
  {
    var ws := UpdateManagerWrites(db, projectId, rows);
    var v := db.departments[d].(manager := None);
    forall k' | k < k' < |rows| && ws[k'].Some? && ws[k'].value.id == d ensures ws[k'].value.value == v {
      assert rows[k'].manager == "";
    }
    LastWriteAfter(ws, d, k, v);
  }

  // ---------------------------------------------------------------------
  // deletions

  /** The department writes of the Delete rows: each found stakeholder
      stops managing the department it managed. */
  function DeleteManagerWrites(db: Db, projectId: string, rows: seq<StakeholderDto>): (ws: seq<Option<Write<Department>>>)
    ensures |ws| == |rows|
    ensures forall k :: 0 <= k < |rows| ==> ws[k] == (if Target(db, projectId, rows[k]).None? then None
                                                     else UnsetManager(db, projectId, Target(db, projectId, rows[k]).value))
    ensures forall k :: 0 <= k < |ws| && ws[k].Some? ==> ws[k].value.id < |db.departments|
  {
    seq(|rows|, k requires 0 <= k < |rows| =>
      if Target(db, projectId, rows[k]).None? then None else UnsetManager(db, projectId, Target(db, projectId, rows[k]).value))
  }

  /** `handleDeletions`: every stakeholder a row finds is soft-removed
      together with all its assignments, and the department it managed
      loses its manager; rows that find nothing are skipped. */
  function DeleteStakeholders(db: Db, projectId: string, rows: seq<StakeholderDto>): (r: Db)
    ensures r == db.(stakeholders := r.stakeholders, assignments := r.assignments, departments := r.departments)
    ensures |r.stakeholders| == |db.stakeholders| && |r.assignments| == |db.assignments|
      && |r.departments| == |db.departments|
    ensures forall i :: 0 <= i < |db.stakeholders| ==> (r.stakeholders[i]
      == db.stakeholders[i].(deleted := db.stakeholders[i].deleted || Targeted(db, projectId, rows, Some(i))))
    ensures forall i :: 0 <= i < |db.assignments| ==> (r.assignments[i]
      == db.assignments[i].(deleted := db.assignments[i].deleted || Targeted(db, projectId, rows, db.assignments[i].stakeholder)))
  {
    db.(stakeholders := seq(|db.stakeholders|, i requires 0 <= i < |db.stakeholders| =>
          db.stakeholders[i].(deleted := db.stakeholders[i].deleted || Targeted(db, projectId, rows, Some(i)))),
        assignments := seq(|db.assignments|, i requires 0 <= i < |db.assignments| =>
          db.assignments[i].(deleted := db.assignments[i].deleted || Targeted(db, projectId, rows, db.assignments[i].stakeholder))),
        departments := ApplyWrites(db.departments, DeleteManagerWrites(db, projectId, rows)))
  }

  /** A deleted stakeholder can no longer be found by its code. */
  lemma {:induction false} DeleteHidesStakeholder(db: Db, projectId: string, rows: seq<StakeholderDto>, k: nat)
    requires k < |rows| && Target(db, projectId, rows[k]).Some?
    requires CodesUnique(db.stakeholders)
    ensures Target(DeleteStakeholders(db, projectId, rows), projectId, rows[k]).None?
  {
    var r := DeleteStakeholders(db, projectId, rows);
    var s := Target(db, projectId, rows[k]).value;
    assert Targeted(db, projectId, rows, Some(s));
    forall j | 0 <= j < |r.stakeholders| ensures !StakeholderWithCode(r.stakeholders[j], projectId, ParseIntOpt(rows[k].stakeholderId).value) {
      if j != s {
        assert db.stakeholders[j].code != db.stakeholders[s].code;
      }
    }
  }

  /** None of a deleted stakeholder's assignments stays live. */
  lemma {:induction false} DeleteRetiresAssignments(db: Db, projectId: string, rows: seq<StakeholderDto>, k: nat)
    requires k < |rows| && Target(db, projectId, rows[k]).Some?
    ensures forall a :: (a in DeleteStakeholders(db, projectId, rows).assignments
      && a.stakeholder == Target(db, projectId, rows[k])) ==> a.deleted
  {
    var r := DeleteStakeholders(db, projectId, rows);
    forall a | a in r.assignments && a.stakeholder == Target(db, projectId, rows[k]) ensures a.deleted {
      var i :| 0 <= i < |r.assignments| && r.assignments[i] == a;
      assert Targeted(db, projectId, rows, db.assignments[i].stakeholder);
    }
  }

  /** The department a deleted stakeholder managed ends with no manager:
      every write to it clears the same manager. */
  lemma {:induction false} DeleteClearsManager(db: Db, projectId: string, rows: seq<StakeholderDto>, k: nat)
    requires k < |rows| && Target(db, projectId, rows[k]).Some?
    requires UnsetManager(db, projectId, Target(db, projectId, rows[k]).value).Some?
    ensures var d := UnsetManager(db, projectId, Target(db, projectId, rows[k]).value).value.id;
      DeleteStakeholders(db, projectId, rows).departments[d] == db.departments[d].(manager := None)
  {
    var w := UnsetManager(db, projectId, Target(db, projectId, rows[k]).value).value;
    var ws := DeleteManagerWrites(db, projectId, rows);
    SameWrites(ws, w.id, k, w.value);
  }

  // ---------------------------------------------------------------------
  // the whole upload

  /** The action cell of a row. */
  function ActionOf(item: StakeholderDto): string {
    item.action
  }

  /** The rows of one action, in file order: `fileDto.items.filter(d => d.action === a)`.
      `BucketCount` and `BucketAppend` state what it keeps. */
  function Bucket(items: seq<StakeholderDto>, action: string): (r: seq<StakeholderDto>)
    ensures |r| <= |items|
    ensures forall x :: x in r <==> x in items && x.action == action
  {
    if |items| == 0 then []
    else (if items[0].action == action then [items[0]] else []) + Bucket(items[1..], action)
  }

  /** The same rows as the generic filter on the action cell. */
  lemma {:induction false} BucketIsFilter(items: seq<StakeholderDto>, action: string)
    ensures Bucket(items, action) == Collections.Filter(items, ActionOf, action)
  {
    if |items| > 0 {
      BucketIsFilter(items[1..], action);
    }
  }

  /** Each row with the action is in its bucket as often as in the file,
      and no other row is. */
  lemma BucketCount(items: seq<StakeholderDto>, action: string)
    ensures forall x :: multiset(Bucket(items, action))[x] == if x.action == action then multiset(items)[x] else 0
  {
    BucketIsFilter(items, action);
    Collections.FilterCount(items, ActionOf, action);
  }

  /** When every row has one of the three actions, the buckets split the
      file: the summary's three counts add up to the number of rows. */
  lemma BucketsSplit(items: seq<StakeholderDto>)
    requires forall i :: 0 <= i < |items| ==> items[i].action == ADD || items[i].action == UPDATE || items[i].action == DELETE
    ensures |Bucket(items, ADD)| + |Bucket(items, UPDATE)| + |Bucket(items, DELETE)| == |items|
  {
    BucketIsFilter(items, ADD);
    BucketIsFilter(items, UPDATE);
    BucketIsFilter(items, DELETE);
    Collections.FilterPartition(items, ActionOf, ADD, UPDATE, DELETE);
  }

  /** The buckets keep the file order. */
  lemma BucketAppend(a: seq<StakeholderDto>, b: seq<StakeholderDto>, action: string)
    ensures Bucket(a + b, action) == Bucket(a, action) + Bucket(b, action)
  {
    BucketIsFilter(a + b, action);
    BucketIsFilter(a, action);
    BucketIsFilter(b, action);
    Collections.FilterAppend(a, b, ActionOf, action);
  }

  /** `{ name, email }` of one row, as sent to the identity service. */
  datatype UserDto = UserDto(name: string, email: string)

  /** The users to provision: the Add rows' then the Update rows'. */
  function UsersToProvision(items: seq<StakeholderDto>): (r: seq<UserDto>)
    ensures |r| == |Bucket(items, ADD)| + |Bucket(items, UPDATE)|
    ensures forall k :: 0 <= k < |Bucket(items, ADD)| ==>
      r[k] == UserDto(Bucket(items, ADD)[k].name, Bucket(items, ADD)[k].email)
    ensures forall k :: 0 <= k < |Bucket(items, UPDATE)| ==>
      r[|Bucket(items, ADD)| + k] == UserDto(Bucket(items, UPDATE)[k].name, Bucket(items, UPDATE)[k].email)
  {
    Users(Bucket(items, ADD)) + Users(Bucket(items, UPDATE))
  }

  function Users(rows: seq<StakeholderDto>): (r: seq<UserDto>)
    ensures |r| == |rows| && forall k :: 0 <= k < |rows| ==> r[k] == UserDto(rows[k].name, rows[k].email)
  {
    seq(|rows|, k requires 0 <= k < |rows| => UserDto(rows[k].name, rows[k].email))
  }

  /** The three phases of an accepted file inside the transaction; `None`
      when one of them rolls it back. */
  function ApplyStakeholders(db: Db, projectId: string, items: seq<StakeholderDto>): (r: Option<Db>)
    ensures r.Some? ==> (&& InsertStakeholders(db, projectId, Bucket(items, ADD)).Some?
      && UpdateStakeholders(InsertStakeholders(db, projectId, Bucket(items, ADD)).value, projectId, Bucket(items, UPDATE)).Some?)
    ensures r.Some? ==> r.value == DeleteStakeholders(
      UpdateStakeholders(InsertStakeholders(db, projectId, Bucket(items, ADD)).value, projectId, Bucket(items, UPDATE)).value,
      projectId, Bucket(items, DELETE))
    ensures r.None? ==> (|| InsertStakeholders(db, projectId, Bucket(items, ADD)).None?
      || UpdateStakeholders(InsertStakeholders(db, projectId, Bucket(items, ADD)).value, projectId, Bucket(items, UPDATE)).None?)
  {
    var inserted := InsertStakeholders(db, projectId, Bucket(items, ADD));
    if inserted.None? then None
    else
      var updated := UpdateStakeholders(inserted.value, projectId, Bucket(items, UPDATE));
      if updated.None? then None
      else Some(DeleteStakeholders(updated.value, projectId, Bucket(items, DELETE)))
  }

  /** `processStakeholdersFile`: validate; stop with the report of every
      row when some row has errors; otherwise run the phases and the
      provisioning call in one transaction. When a phase or the call
      fails, nothing is stored and the upload fails; otherwise the answer
      gives the bucket sizes. `provision` is the identity service's answer
      to the users it is sent. A department cell that does not parse makes
      the validation's lookup fail, and the upload fails before any
      report. */
  method ProcessStakeholders(u: Utils, db: Db, projectId: string, dto: StakeholderFileDto,
                             provision: seq<UserDto> -> bool)
    returns (validated: Option<StakeholderFileDto>, outcome: Outcome)
    ensures validated.None? <==> StakeholderValidation.AnyLookupFails(dto.items)
    ensures validated.None? ==> outcome.Failed?
    ensures validated.Some? ==> validated.value.file == dto.file && |validated.value.items| == |dto.items|
    ensures validated.Some? ==> (validated.value.hasErrors
      <==> dto.hasErrors || FileValidation.AnyStakeholderErrors(validated.value.items))
    ensures outcome.Rejected? <==> validated.Some? && validated.value.hasErrors
    ensures outcome.Rejected? ==> outcome.report == StakeholderReport(validated.value.items)
    ensures outcome.Failed? <==> (|| validated.None?
      || (&& !validated.value.hasErrors
          && (|| ApplyStakeholders(db, projectId, validated.value.items).None?
              || !provision(UsersToProvision(validated.value.items)))))
    ensures outcome.Applied? ==> (&& validated.Some?
      && Some(outcome.db) == ApplyStakeholders(db, projectId, validated.value.items)
      && outcome.response == UploadResponse(dto.file, |Bucket(validated.value.items, ADD)|,
           |Bucket(validated.value.items, UPDATE)|, |Bucket(validated.value.items, DELETE)|))
  {
    var checked, rows;
    checked, rows, validated := StakeholderValidation.ValidateStakeholder(u, db, projectId, dto);
    if validated.None? {
      outcome := Failed;
      return;
    }
    var file := validated.value;
    if file.hasErrors {
      outcome := Rejected(StakeholderReport(file.items));
      return;
    }
    var applied := ApplyStakeholders(db, projectId, file.items);
    if applied.None? || !provision(UsersToProvision(file.items)) {
      outcome := Failed;
    } else {
      outcome := Applied(UploadResponse(dto.file, |Bucket(file.items, ADD)|,
        |Bucket(file.items, UPDATE)|, |Bucket(file.items, DELETE)|), applied.value);
    }
  }

  // ---------------------------------------------------------------------
  // department subtrees

  /** A live department of the project (`findOne({ id, projectId })`). */
  predicate LiveIn(db: Db, projectId: string, id: Id) {
    id < |db.departments| && !db.departments[id].deleted && db.departments[id].projectId == projectId
  }

  /** `getAllDepartmentIds`: for each requested id that is a live
      department of the project, the id followed by the ids of its
      subtree, depth first; other ids contribute nothing. `fuel` bounds the
      depth of the walk. */
  function AllDepartmentIds(db: Db, projectId: string, ids: seq<Id>, fuel: nat): (r: seq<Id>)
    ensures forall x :: x in r ==> LiveIn(db, projectId, x)
    ensures fuel > 0 ==> forall k :: 0 <= k < |ids| && LiveIn(db, projectId, ids[k]) ==> ids[k] in r
    decreases fuel, |ids|
  {
    if |ids| == 0 || fuel == 0 then []
    else
      var rest := AllDepartmentIds(db, projectId, ids[1..], fuel);
      assert forall k :: 1 <= k < |ids| ==> ids[k] == ids[1..][k - 1];
      if LiveIn(db, projectId, ids[0]) then
        [ids[0]] + AllDepartmentIds(db, projectId, ChildrenOf(db.departments, ids[0]), fuel - 1) + rest
      else rest
  }

  /** A live child of a department in the result, in the same project, is
      in the result too when the walk has depth to spare. */
  lemma {:induction false} ChildrenIncluded(db: Db, projectId: string, ids: seq<Id>, fuel: nat, k: nat, c: Id)
    requires fuel > 1 && k < |ids| && LiveIn(db, projectId, ids[k]) && LiveIn(db, projectId, c)
    requires db.departments[c].parent == Some(ids[k])
    ensures c in AllDepartmentIds(db, projectId, ids, fuel)
    decreases |ids|
  {
    if k == 0 {
      var children := ChildrenOf(db.departments, ids[0]);
      var i :| 0 <= i < |children| && children[i] == c;
      assert c in AllDepartmentIds(db, projectId, children, fuel - 1);
    } else {
      ChildrenIncluded(db, projectId, ids[1..], fuel, k - 1, c);
    }
  }
}
