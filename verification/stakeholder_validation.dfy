/** The checks of a stakeholder file against the store
    (`stakeholder-validate.service.ts`): after the file checks, every row's
    email, stakeholder id, department and position cells and manager are
    looked up in the project; a last pass resolves each row's project
    role. */
module StakeholderValidation {
  import opened Wrappers
  import opened Text
  import opened Store
  import opened UploadDto
  import opened Messages
  import FileValidation

  // ---------------------------------------------------------------------
  // conditions

  /** Some live stakeholder of the project has this email. */
  predicate EmailTaken(db: Db, projectId: string, email: string) {
    exists j :: 0 <= j < |db.stakeholders| && StakeholderWithEmail(db.stakeholders[j], projectId, email)
  }

  /** The stakeholder found by this row's email has a code other than the
      row's stakeholder id (a missing id never matches). */
  predicate EmailOfOther(db: Db, projectId: string, item: StakeholderDto) {
    var found := StakeholderByEmail(db, projectId, item.email);
    found.Some? && Some(db.stakeholders[found.value].code) != ParseIntOpt(item.stakeholderId)
  }

  /** Some live stakeholder of the project has the row's stakeholder id. */
  predicate IdKnown(db: Db, projectId: string, item: StakeholderDto) {
    StakeholderExists(db, projectId, ParseIntOpt(item.stakeholderId))
  }

  /** Some live department of the project has the code this cell parses to. */
  predicate DeptKnown(db: Db, projectId: string, code: string) {
    DeptExists(db, projectId, ParseInt(code))
  }

  /** Some live position of the project has one of these codes: the
      `externalId: In(positions)` lookup. */
  predicate SomePositionKnown(db: Db, projectId: string, positions: seq<string>) {
    exists p :: p in positions && PositionExists(db, projectId, ParseInt(p))
  }

  /** The department lookup of `validateDepartmentAndPosition` is not
      guarded by `isNumber`: a department cell that does not parse sends
      NaN to the database, and the statement fails. It runs for every
      entry of a row that is not deleted. */
  predicate DepartmentLookupFails(item: StakeholderDto) {
    && item.action != DELETE
    && SomeUnparsed(item.departmentsAndPositions)
  }

  /** The entry's department cell does not parse. */
  predicate Unparsed(entry: DepartmentAndPosition) {
    ParseInt(entry.department).None?
  }

  /** Number of entries whose department is not in the store. */
  function MissingDepartments(db: Db, projectId: string, entries: seq<DepartmentAndPosition>): (n: nat)
    ensures n <= |entries|
  {
    if |entries| == 0 then 0
    else
      var last := entries[|entries| - 1];
      MissingDepartments(db, projectId, entries[..|entries| - 1]) + (if DeptKnown(db, projectId, last.department) then 0 else 1)
  }

  /** Number of entries none of whose positions is in the store. */
  function MissingPositions(db: Db, projectId: string, entries: seq<DepartmentAndPosition>): (n: nat)
    ensures n <= |entries|
  {
    if |entries| == 0 then 0
    else
      var last := entries[|entries| - 1];
      MissingPositions(db, projectId, entries[..|entries| - 1]) + (if SomePositionKnown(db, projectId, last.positions) then 0 else 1)
  }

  // ---------------------------------------------------------------------
  // per-row checks

  /** `validateEmail`: an added email must be new to the project; the
      email of an updated or deleted row must exist and belong to the
      row's stakeholder id. */
  method ValidateEmail(db: Db, projectId: string, item: StakeholderDto) returns (e: seq<Msg>)
    ensures forall m :: m in e ==> m == EmailExists || m == EmailNotFound || m == EmailOfAnother
    ensures EmailExists in e <==> item.action == ADD && EmailTaken(db, projectId, item.email)
    ensures EmailNotFound in e <==> item.action != ADD && !EmailTaken(db, projectId, item.email)
    ensures EmailOfAnother in e <==> item.action != ADD && EmailOfOther(db, projectId, item)
  {
    var found := StakeholderByEmail(db, projectId, item.email);
    e := [];
    if item.action == ADD && found.Some? {
      e := e + [EmailExists];
    } else if item.action != ADD {
      if found.None? {
        e := e + [EmailNotFound];
      }
      if found.Some? && Some(db.stakeholders[found.value].code) != ParseIntOpt(item.stakeholderId) {
        e := e + [EmailOfAnother];
      }
    }
  }

  /** `validateStakeholderId`: nothing is checked for a non-numeric id;
      otherwise an added id must be new and an updated or deleted id must
      exist. */
  method ValidateStakeholderId(u: Utils, db: Db, projectId: string, item: StakeholderDto) returns (e: seq<Msg>)
    ensures forall m :: m in e ==> m == IdExists || m == IdNotFound
    ensures !IsNumberOpt(u, item.stakeholderId) ==> e == []
    ensures IdExists in e <==> IsNumberOpt(u, item.stakeholderId) && item.action == ADD && IdKnown(db, projectId, item)
    ensures IdNotFound in e <==> (IsNumberOpt(u, item.stakeholderId) && (item.action == UPDATE || item.action == DELETE)
                                  && !IdKnown(db, projectId, item))
  {
    e := [];
    if IsNumberOpt(u, item.stakeholderId) {
      var found := StakeholderByCode(db, projectId, ParseIntOpt(item.stakeholderId));
      if item.action == ADD && found.Some? {
        e := e + [IdExists];
      }
      if (item.action == UPDATE || item.action == DELETE) && found.None? {
        e := e + [IdNotFound];
      }
    }
  }

  predicate AssignmentMessage(m: Msg) {
    m == DepartmentNotFound || m == PositionsNotFound
  }

  /** One entry of `validateDepartmentAndPosition`: the position lookup,
      then the department lookup, which fails on a cell that does not
      parse. */
  method CheckAssignment(db: Db, projectId: string, entry: DepartmentAndPosition) returns (failed: bool, e: seq<Msg>)
    ensures failed <==> Unparsed(entry)
    ensures failed ==> e == []
    ensures forall m :: m in e ==> AssignmentMessage(m)
    ensures !failed ==> Count(e, DepartmentNotFound) == (if DeptKnown(db, projectId, entry.department) then 0 else 1)
    ensures !failed ==> Count(e, PositionsNotFound) == (if SomePositionKnown(db, projectId, entry.positions) then 0 else 1)
  {
    var position := FindPosition(db, projectId, entry.positions);
    e := [];
    if ParseInt(entry.department).None? {
      return true, [];
    }
    failed := false;
    var department := DepartmentByCode(db, projectId, ParseInt(entry.department));
    if department.None? {
      e := e + [DepartmentNotFound];
    }
    if position.None? {
      e := e + [PositionsNotFound];
    }
  }

  /** The first live position of the project whose code is one of the
      given cells, if any. */
  method FindPosition(db: Db, projectId: string, positions: seq<string>) returns (r: Option<Id>)
    ensures r.None? <==> !SomePositionKnown(db, projectId, positions)
    ensures r.Some? ==> r.value < |db.positions| && !db.positions[r.value].deleted
                        && db.positions[r.value].projectId == projectId
                        && exists p :: p in positions && ParseInt(p) == Some(db.positions[r.value].externalId)
  {
    r := None;
    for j := 0 to |db.positions|
      invariant forall k :: 0 <= k < j ==> !(exists p :: p in positions && PositionMatches(db.positions[k], projectId, p))
    {
      if exists p :: p in positions && PositionMatches(db.positions[j], projectId, p) {
        return Some(j);
      }
    }
    NoPositionFound(db, projectId, positions);
  }

  predicate PositionMatches(x: Position, projectId: string, p: string) {
    ParseInt(p).Some? && PositionWithCode(x, projectId, ParseInt(p).value)
  }

  lemma NoPositionFound(db: Db, projectId: string, positions: seq<string>)
    requires forall k :: 0 <= k < |db.positions| ==> !(exists p :: p in positions && PositionMatches(db.positions[k], projectId, p))
    ensures !SomePositionKnown(db, projectId, positions)
  {
    forall p | p in positions
      ensures !PositionExists(db, projectId, ParseInt(p))
    {
      forall j | 0 <= j < |db.positions|
        ensures ParseInt(p).Some? ==> !PositionWithCode(db.positions[j], projectId, ParseInt(p).value)
      {
        assert !PositionMatches(db.positions[j], projectId, p);
      }
    }
  }

  /** Some entry's department cell does not parse. */
  predicate SomeUnparsed(entries: seq<DepartmentAndPosition>) {
    exists k :: 0 <= k < |entries| && Unparsed(entries[k])
  }

  /** One more entry's messages keep the counts of the entry loop. */
  lemma EntryStep(db: Db, projectId: string, entries: seq<DepartmentAndPosition>, k: nat, e: seq<Msg>, more: seq<Msg>)
    requires k < |entries|
    requires Count(e, DepartmentNotFound) == MissingDepartments(db, projectId, entries[..k])
    requires Count(e, PositionsNotFound) == MissingPositions(db, projectId, entries[..k])
    requires Count(more, DepartmentNotFound) == (if DeptKnown(db, projectId, entries[k].department) then 0 else 1)
    requires Count(more, PositionsNotFound) == (if SomePositionKnown(db, projectId, entries[k].positions) then 0 else 1)
    ensures Count(e + more, DepartmentNotFound) == MissingDepartments(db, projectId, entries[..k + 1])
    ensures Count(e + more, PositionsNotFound) == MissingPositions(db, projectId, entries[..k + 1])
  {
    assert entries[..k + 1][..k] == entries[..k];
    CountAppend(e, more, DepartmentNotFound);
    CountAppend(e, more, PositionsNotFound);
  }

  /** The loop of `validateDepartmentAndPosition` over the entries of one
      row. Its department lookup fails at the first department cell that
      does not parse; the failure discards every message, so the model
      tests for it before the loop. */
  method EntryMessages(db: Db, projectId: string, entries: seq<DepartmentAndPosition>) returns (failed: bool, e: seq<Msg>)
    ensures failed <==> SomeUnparsed(entries)
    ensures forall m :: m in e ==> AssignmentMessage(m)
    ensures !failed ==> Count(e, DepartmentNotFound) == MissingDepartments(db, projectId, entries)
    ensures !failed ==> Count(e, PositionsNotFound) == MissingPositions(db, projectId, entries)
  {
    e := [];
    failed := SomeUnparsed(entries);
    if failed {
      return;
    }
    for k := 0 to |entries|
      invariant forall m :: m in e ==> AssignmentMessage(m)
      invariant Count(e, DepartmentNotFound) == MissingDepartments(db, projectId, entries[..k])
      invariant Count(e, PositionsNotFound) == MissingPositions(db, projectId, entries[..k])
    {
      var _, more := CheckAssignment(db, projectId, entries[k]);
      EntryStep(db, projectId, entries, k, e, more);
      e := e + more;
    }
    assert entries[..|entries|] == entries;
  }

  /** `validateDepartmentAndPosition`: nothing for a deleted row;
      otherwise, entry by entry, one message for a department that is not
      in the store and one for an entry none of whose positions is. The
      check fails at the first department cell that does not parse. */
  method ValidateDepartmentAndPosition(db: Db, projectId: string, item: StakeholderDto) returns (failed: bool, e: seq<Msg>)
    ensures failed <==> DepartmentLookupFails(item)
    ensures forall m :: m in e ==> AssignmentMessage(m)
    ensures item.action == DELETE ==> e == []
    ensures !failed ==> (Count(e, DepartmentNotFound)
         == if item.action == DELETE then 0 else MissingDepartments(db, projectId, item.departmentsAndPositions))
    ensures !failed ==> (Count(e, PositionsNotFound)
         == if item.action == DELETE then 0 else MissingPositions(db, projectId, item.departmentsAndPositions))
  {
    if item.action == DELETE {
      return false, [];
    }
    failed, e := EntryMessages(db, projectId, item.departmentsAndPositions);
  }

  /** `validateManager`: a numeric manager cell must name a department of
      the project. */
  method ValidateManager(u: Utils, db: Db, projectId: string, item: StakeholderDto) returns (e: seq<Msg>)
    ensures forall m :: m in e ==> m == ManagerNotFound
    ensures ManagerNotFound in e <==> u.isNumber(item.manager) && !DeptKnown(db, projectId, item.manager)
  {
    e := [];
    if u.isNumber(item.manager) {
      var found := DepartmentByCode(db, projectId, ParseInt(item.manager));
      if found.None? {
        e := [ManagerNotFound];
      }
    }
  }

  /** The messages the per-row store checks append to one stakeholder row. */
  predicate IdentityMessage(m: Msg) {
    m == EmailExists || m == EmailNotFound || m == EmailOfAnother || m == IdExists || m == IdNotFound
  }

  predicate PlacementMessage(m: Msg) {
    m == DepartmentNotFound || m == PositionsNotFound || m == ManagerNotFound
  }

  /** Each identity message is present exactly when its flag is set. */
  predicate IdentityFlags(e: seq<Msg>, emailExists: bool, emailNotFound: bool, emailOfAnother: bool,
                          idExists: bool, idNotFound: bool) {
    && (EmailExists in e <==> emailExists)
    && (EmailNotFound in e <==> emailNotFound)
    && (EmailOfAnother in e <==> emailOfAnother)
    && (IdExists in e <==> idExists)
    && (IdNotFound in e <==> idNotFound)
  }

  /** The email and stakeholder id messages of one row. */
  predicate IdentityOk(u: Utils, db: Db, projectId: string, item: StakeholderDto, e: seq<Msg>) {
    IdentityFlags(e,
      item.action == ADD && EmailTaken(db, projectId, item.email),
      item.action != ADD && !EmailTaken(db, projectId, item.email),
      item.action != ADD && EmailOfOther(db, projectId, item),
      IsNumberOpt(u, item.stakeholderId) && item.action == ADD && IdKnown(db, projectId, item),
      IsNumberOpt(u, item.stakeholderId) && (item.action == UPDATE || item.action == DELETE) && !IdKnown(db, projectId, item))
  }

  /** The placement messages occur as often as the counts say, and the
      manager message exactly when its flag is set. */
  predicate PlacementCounts(e: seq<Msg>, departmentsMissing: nat, positionsMissing: nat, managerMissing: bool) {
    && Count(e, DepartmentNotFound) == departmentsMissing
    && Count(e, PositionsNotFound) == positionsMissing
    && (ManagerNotFound in e <==> managerMissing)
  }

  /** The department, position and manager messages of one row. */
  predicate PlacementOk(u: Utils, db: Db, projectId: string, item: StakeholderDto, e: seq<Msg>) {
    var entries := item.departmentsAndPositions;
    PlacementCounts(e,
      if item.action == DELETE then 0 else MissingDepartments(db, projectId, entries),
      if item.action == DELETE then 0 else MissingPositions(db, projectId, entries),
      u.isNumber(item.manager) && !DeptKnown(db, projectId, item.manager))
  }

  /** The messages the per-row store checks append to one stakeholder row. */
  predicate StoreMessagesOk(u: Utils, db: Db, projectId: string, item: StakeholderDto, e: seq<Msg>) {
    IdentityOk(u, db, projectId, item, e) && PlacementOk(u, db, projectId, item, e)
  }

  /** One stakeholder row after the per-row store checks: only its error
      list changes, by appending the messages above. */
  predicate StoreChecked(u: Utils, db: Db, projectId: string, before: StakeholderDto, after: StakeholderDto) {
    && after == before.(errors := after.errors)
    && Extends(before.errors, after.errors)
    && StoreMessagesOk(u, db, projectId, before, Added(before.errors, after.errors))
  }

  /** The first half of `validateItems`: email, then stakeholder id. */
  method IdentityMessages(u: Utils, db: Db, projectId: string, item: StakeholderDto) returns (e: seq<Msg>)
    ensures forall m :: m in e ==> IdentityMessage(m)
    ensures IdentityOk(u, db, projectId, item, e)
  {
    var a := ValidateEmail(db, projectId, item);
    var b := ValidateStakeholderId(u, db, projectId, item);
    e := a + b;
  }

  /** The second half of `validateItems`: departments and positions, then
      manager. */
  method PlacementMessages(u: Utils, db: Db, projectId: string, item: StakeholderDto) returns (failed: bool, e: seq<Msg>)
    ensures failed <==> DepartmentLookupFails(item)
    ensures forall m :: m in e ==> PlacementMessage(m)
    ensures !failed ==> PlacementOk(u, db, projectId, item, e)
  {
    var c;
    failed, c := ValidateDepartmentAndPosition(db, projectId, item);
    if failed {
      return true, [];
    }
    var d := ValidateManager(u, db, projectId, item);
    e := c + d;
    CountAppend(c, d, DepartmentNotFound);
    CountAppend(c, d, PositionsNotFound);
  }

  /** The identity messages survive appending the placement messages. */
  lemma IdentityAppend(x: seq<Msg>, y: seq<Msg>, f1: bool, f2: bool, f3: bool, f4: bool, f5: bool)
    requires IdentityFlags(x, f1, f2, f3, f4, f5)
    requires forall m :: m in y ==> PlacementMessage(m)
    ensures IdentityFlags(x + y, f1, f2, f3, f4, f5)
  {
    assert EmailExists !in y && EmailNotFound !in y && EmailOfAnother !in y && IdExists !in y && IdNotFound !in y;
  }

  /** The placement messages survive being appended to the identity
      messages. */
  lemma PlacementPrepend(x: seq<Msg>, y: seq<Msg>, departmentsMissing: nat, positionsMissing: nat, managerMissing: bool)
    requires forall m :: m in x ==> IdentityMessage(m)
    requires PlacementCounts(y, departmentsMissing, positionsMissing, managerMissing)
    ensures PlacementCounts(x + y, departmentsMissing, positionsMissing, managerMissing)
  {
    assert DepartmentNotFound !in x && PositionsNotFound !in x && ManagerNotFound !in x;
    CountAppend(x, y, DepartmentNotFound);
    CountAppend(x, y, PositionsNotFound);
  }

  /** `validateItems`: email, stakeholder id, departments and positions,
      manager; nothing when a department lookup fails. */
  method ValidateStoreItem(u: Utils, db: Db, projectId: string, item: StakeholderDto) returns (r: Option<StakeholderDto>)
    ensures r.None? <==> DepartmentLookupFails(item)
    ensures r.Some? ==> StoreChecked(u, db, projectId, item, r.value)
  {
    var x := IdentityMessages(u, db, projectId, item);
    var failed, y := PlacementMessages(u, db, projectId, item);
    if failed {
      return None;
    }
    var entries := item.departmentsAndPositions;
    IdentityAppend(x, y,
      item.action == ADD && EmailTaken(db, projectId, item.email),
      item.action != ADD && !EmailTaken(db, projectId, item.email),
      item.action != ADD && EmailOfOther(db, projectId, item),
      IsNumberOpt(u, item.stakeholderId) && item.action == ADD && IdKnown(db, projectId, item),
      IsNumberOpt(u, item.stakeholderId) && (item.action == UPDATE || item.action == DELETE) && !IdKnown(db, projectId, item));
    PlacementPrepend(x, y,
      if item.action == DELETE then 0 else MissingDepartments(db, projectId, entries),
      if item.action == DELETE then 0 else MissingPositions(db, projectId, entries),
      u.isNumber(item.manager) && !DeptKnown(db, projectId, item.manager));
    var e := x + y;
    var checked := item.(errors := item.errors + e);
    assert Added(item.errors, checked.errors) == e;
    r := Some(checked);
  }

  // ---------------------------------------------------------------------
  // project roles

  /** The role a row asks for: an empty cell means the default role. */
  function RoleName(item: StakeholderDto): (name: string)
    ensures name != ""
    ensures item.projectRole != "" ==> name == item.projectRole
  {
    if item.projectRole == "" then "End User" else item.projectRole
  }

  /** A row after the role pass: a deleted row is untouched; any other row
      gets its default role name filled in and either the id of the first
      live role with that name or, when there is none, one message. */
  predicate RoleChecked(db: Db, before: StakeholderDto, after: StakeholderDto) {
    if before.action == DELETE then after == before
    else
      var role := RoleByName(db, RoleName(before));
      && after.(projectRoleId := before.projectRoleId, errors := before.errors) == before.(projectRole := RoleName(before))
      && Extends(before.errors, after.errors)
      && (role.None? ==> Added(before.errors, after.errors) == [ProjectRoleInvalid] && after.projectRoleId == before.projectRoleId)
      && (role.Some? ==> Added(before.errors, after.errors) == [] && after.projectRoleId == role)
  }

  /** `validateProjectRole` on one row. */
  method ResolveRole(db: Db, item: StakeholderDto) returns (r: StakeholderDto)
    ensures RoleChecked(db, item, r)
  {
    if item.action == DELETE {
      return item;
    }
    var named := item.(projectRole := RoleName(item));
    var role := RoleByName(db, named.projectRole);
    if role.None? {
      r := named.(errors := named.errors + [ProjectRoleInvalid]);
      assert Added(item.errors, r.errors) == [ProjectRoleInvalid];
    } else {
      r := named.(projectRoleId := role);
      assert Added(item.errors, r.errors) == [];
    }
  }

  /** `validateProjectRole`: the role pass over all rows. */
  method ValidateProjectRole(db: Db, items: seq<StakeholderDto>) returns (r: seq<StakeholderDto>)
    ensures |r| == |items|
    ensures forall i :: 0 <= i < |items| ==> RoleChecked(db, items[i], r[i])
    ensures ErrorsKept(items, r)
  {
    r := [];
    for i := 0 to |items|
      invariant |r| == i
      invariant forall k :: 0 <= k < i ==> RoleChecked(db, items[k], r[k])
      invariant forall k :: 0 <= k < i ==> |items[k].errors| <= |r[k].errors|
    {
      var item := ResolveRole(db, items[i]);
      r := r + [item];
    }
  }

  // ---------------------------------------------------------------------
  // the whole file

  /** Row by row, `after` has at least the messages of `before`. */
  predicate ErrorsKept(before: seq<StakeholderDto>, after: seq<StakeholderDto>) {
    |before| == |after| && forall i :: 0 <= i < |before| ==> |before[i].errors| <= |after[i].errors|
  }

  /** A row with errors keeps having errors. */
  lemma ErrorsStay(before: seq<StakeholderDto>, after: seq<StakeholderDto>)
    requires ErrorsKept(before, after)
    ensures FileValidation.AnyStakeholderErrors(before) ==> FileValidation.AnyStakeholderErrors(after)
  {
    if FileValidation.AnyStakeholderErrors(before) {
      var i :| 0 <= i < |before| && |before[i].errors| > 0;
      assert |after[i].errors| > 0;
    }
  }

  lemma CheckedStep(u: Utils, db: Db, projectId: string, items: seq<StakeholderDto>, done: seq<StakeholderDto>,
                    i: nat, item: StakeholderDto)
    requires i < |items| && |done| == i
    requires forall k :: 0 <= k < i ==> StoreChecked(u, db, projectId, items[k], done[k])
    requires forall k :: 0 <= k < i ==> |items[k].errors| <= |done[k].errors|
    requires StoreChecked(u, db, projectId, items[i], item)
    ensures forall k :: 0 <= k < i + 1 ==> StoreChecked(u, db, projectId, items[k], (done + [item])[k])
    ensures forall k :: 0 <= k < i + 1 ==> |items[k].errors| <= |(done + [item])[k].errors|
  {
    assert |items[i].errors| <= |item.errors|;
  }

  /** Some row's department lookup fails. */
  predicate AnyLookupFails(items: seq<StakeholderDto>) {
    exists i :: 0 <= i < |items| && DepartmentLookupFails(items[i])
  }

  /** The per-row store checks over all rows; nothing when a lookup
      fails. */
  method CheckRows(u: Utils, db: Db, projectId: string, items: seq<StakeholderDto>) returns (rows: Option<seq<StakeholderDto>>)
    ensures rows.None? <==> AnyLookupFails(items)
    ensures rows.Some? ==> |rows.value| == |items|
    ensures rows.Some? ==> forall i :: 0 <= i < |items| ==> StoreChecked(u, db, projectId, items[i], rows.value[i])
    ensures rows.Some? ==> ErrorsKept(items, rows.value)
  {
    var done := [];
    for i := 0 to |items|
      invariant |done| == i
      invariant forall k :: 0 <= k < i ==> !DepartmentLookupFails(items[k])
      invariant forall k :: 0 <= k < i ==> StoreChecked(u, db, projectId, items[k], done[k])
      invariant forall k :: 0 <= k < i ==> |items[k].errors| <= |done[k].errors|
    {
      var item := ValidateStoreItem(u, db, projectId, items[i]);
      if item.None? {
        assert DepartmentLookupFails(items[i]);
        return None;
      }
      CheckedStep(u, db, projectId, items, done, i, item.value);
      done := done + [item.value];
    }
    rows := Some(done);
  }

  /** The file checks only append messages, so they leave the lookups'
      failure as it was. */
  lemma {:induction false} LookupFailsKept(before: seq<StakeholderDto>, after: seq<StakeholderDto>)
    requires |before| == |after|
    requires forall i :: 0 <= i < |before| ==> after[i] == before[i].(errors := after[i].errors)
    ensures AnyLookupFails(after) <==> AnyLookupFails(before)
  {
    assert forall i :: 0 <= i < |before| ==> (DepartmentLookupFails(after[i]) <==> DepartmentLookupFails(before[i]));
  }

  /** `validateStakeholder`: the file checks (giving `checked`), the
      per-row store checks (giving `rows`), the role pass, then the file
      flagged when some row has errors. A failing department lookup
      aborts the validation: there are then no rows and no file. */
  method ValidateStakeholder(u: Utils, db: Db, projectId: string, dto: StakeholderFileDto)
    returns (checked: StakeholderFileDto, rows: Option<seq<StakeholderDto>>, r: Option<StakeholderFileDto>)
    ensures checked.file == dto.file && |checked.items| == |dto.items|
    ensures forall i :: 0 <= i < |dto.items| ==>
      FileValidation.StakeholderChecked(u, multiset(dto.emails)[dto.items[i].email] > 1,
                                        multiset(dto.stakeholderIds)[Key(dto.items[i].stakeholderId)] > 1,
                                        dto.items[i], checked.items[i])
    ensures r.None? <==> AnyLookupFails(dto.items)
    ensures rows.None? <==> r.None?
    ensures rows.Some? ==> |rows.value| == |dto.items|
    ensures r.Some? ==> |r.value.items| == |dto.items|
    ensures rows.Some? ==> forall i :: 0 <= i < |dto.items| ==> StoreChecked(u, db, projectId, checked.items[i], rows.value[i])
    ensures r.Some? ==> forall i :: 0 <= i < |dto.items| ==> RoleChecked(db, rows.value[i], r.value.items[i])
    ensures r.Some? ==> r.value.file == dto.file && r.value.emails == dto.emails && r.value.stakeholderIds == dto.stakeholderIds
    ensures r.Some? ==> (r.value.hasErrors <==> dto.hasErrors || FileValidation.AnyStakeholderErrors(r.value.items))
  {
    checked := FileValidation.ValidateStakeholderFile(u, dto);
    LookupFailsKept(dto.items, checked.items);
    rows := CheckRows(u, db, projectId, checked.items);
    if rows.None? {
      return checked, None, None;
    }
    var items := ValidateProjectRole(db, rows.value);
    ErrorsStay(checked.items, rows.value);
    ErrorsStay(rows.value, items);
    r := Some(checked.(items := items, hasErrors := checked.hasErrors || FileValidation.AnyStakeholderErrors(items)));
  }
}
