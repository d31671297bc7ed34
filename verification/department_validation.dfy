/** The checks of a department file against the store
    (`department-validate.service.ts`): after the file checks, every row's
    name, code and parent are looked up in the project's departments. */
module DepartmentValidation {
  import opened Wrappers
  import opened Collections
  import opened Text
  import opened Store
  import opened UploadDto
  import opened Messages
  import FileValidation

  /** Some live department of the project carries this name. */
  predicate NameTaken(db: Db, projectId: string, name: string) {
    exists j :: 0 <= j < |db.departments| && DeptWithName(db.departments[j], projectId, name)
  }

  /** The department found by this row's name has a different code. */
  predicate NameOfOther(db: Db, projectId: string, item: DepartmentDto) {
    var found := DepartmentByName(db, projectId, item.name);
    found.Some? && ParseInt(item.code) != Some(db.departments[found.value].code)
  }

  /** Some live department of the project has the code this cell parses to. */
  predicate Known(db: Db, projectId: string, code: string) {
    DeptExists(db, projectId, ParseInt(code))
  }

  /** `validateName`: an added name must be new to the project; an updated
      name may only belong to the department being updated. */
  method ValidateName(db: Db, projectId: string, item: DepartmentDto) returns (e: seq<Msg>)
    ensures forall m :: m in e ==> m == NameExists || m == NameOfAnother("department")
    ensures NameExists in e <==> item.action == ADD && NameTaken(db, projectId, item.name)
    ensures NameOfAnother("department") in e <==> item.action == UPDATE && NameOfOther(db, projectId, item)
  {
    var found := DepartmentByName(db, projectId, item.name);
    e := [];
    if item.action == ADD && found.Some? {
      e := e + [NameExists];
    }
    if item.action == UPDATE && found.Some? && ParseInt(item.code) != Some(db.departments[found.value].code) {
      e := e + [NameOfAnother("department")];
    }
  }

  /** The codes of the live children of department `id`. */
  function ChildCodes(db: Db, id: Id): (r: seq<int>)
    ensures |r| == |ChildrenOf(db.departments, id)|
    ensures forall c :: c in r <==> (exists k :: 0 <= k < |db.departments| && !db.departments[k].deleted
                                       && db.departments[k].parent == Some(id) && db.departments[k].code == c)
  {
    var children := ChildrenOf(db.departments, id);
    var r := seq(|children|, i requires 0 <= i < |children| => db.departments[children[i]].code);
    assert forall c :: (exists k :: 0 <= k < |db.departments| && !db.departments[k].deleted
                                   && db.departments[k].parent == Some(id) && db.departments[k].code == c) ==> c in r by {
      forall c | exists k :: 0 <= k < |db.departments| && !db.departments[k].deleted
                           && db.departments[k].parent == Some(id) && db.departments[k].code == c
        ensures c in r
      {
        var k :| 0 <= k < |db.departments| && !db.departments[k].deleted
                 && db.departments[k].parent == Some(id) && db.departments[k].code == c;
        assert k in children;
        var i :| 0 <= i < |children| && children[i] == k;
        assert r[i] == c;
      }
    }
    r
  }

  /** A batch row that names `code` as its parent and is not itself being
      deleted: it keeps a child under a department the batch deletes. */
  predicate BlocksDelete(row: DepartmentDto, code: Option<int>) {
    SameNumber(ParseIntOpt(row.ext.parent), code) && row.action != DELETE
  }

  predicate AnyBlocks(rows: seq<DepartmentDto>, code: Option<int>) {
    exists k :: 0 <= k < |rows| && BlocksDelete(rows[k], code)
  }

  /** Some batch row keeps a child under the department with this code. */
  predicate ChildBlocking(rows: seq<DepartmentDto>, code: string) {
    AnyBlocks(rows, ParseInt(code))
  }

  /** A batch row that deletes one of the given child codes. */
  predicate DeletesChild(row: DepartmentDto, childCodes: seq<int>) {
    row.action == DELETE && ParseInt(row.code).Some? && ParseInt(row.code).value in childCodes
  }

  /** Number of batch rows that delete one of the given child codes. */
  function DeletedChildRows(rows: seq<DepartmentDto>, childCodes: seq<int>): (n: nat)
    ensures n <= |rows|
  {
    if |rows| == 0 then 0
    else DeletedChildRows(rows[..|rows| - 1], childCodes) + (if DeletesChild(rows[|rows| - 1], childCodes) then 1 else 0)
  }

  lemma DeletedChildRowsStep(rows: seq<DepartmentDto>, k: nat, childCodes: seq<int>)
    requires k < |rows|
    ensures DeletedChildRows(rows[..k + 1], childCodes)
         == DeletedChildRows(rows[..k], childCodes) + (if DeletesChild(rows[k], childCodes) then 1 else 0)
  {
    assert rows[..k + 1][..k] == rows[..k];
  }

  /** The department a delete row removes has children the batch leaves
      behind: fewer delete rows name its children than it has. */
  predicate ChildrenLeft(db: Db, projectId: string, item: DepartmentDto, rows: seq<DepartmentDto>) {
    var found := DepartmentByCode(db, projectId, ParseInt(item.code));
    found.Some? && DeletedChildRows(rows, ChildCodes(db, found.value)) != |ChildrenOf(db.departments, found.value)|
  }

  /** The loop of `validateCode` over the batch for a department being
      deleted: it stops at the first row that keeps a child under it, and
      otherwise counts the rows that delete one of its children. */
  method ScanRows(rows: seq<DepartmentDto>, code: Option<int>, childCodes: seq<int>) returns (blocked: bool, count: nat)
    ensures blocked <==> AnyBlocks(rows, code)
    ensures !blocked ==> count == DeletedChildRows(rows, childCodes)
  {
    count := 0;
    for k := 0 to |rows|
      invariant forall j :: 0 <= j < k ==> !BlocksDelete(rows[j], code)
      invariant count == DeletedChildRows(rows[..k], childCodes)
    {
      var stop, next := ScanRow(rows[k], code, childCodes, count);
      if stop {
        return true, count;
      }
      DeletedChildRowsStep(rows, k, childCodes);
      count := next;
    }
    assert rows[..|rows|] == rows;
    blocked := false;
  }

  /** One iteration of that loop. */
  method ScanRow(row: DepartmentDto, code: Option<int>, childCodes: seq<int>, count: nat) returns (stop: bool, next: nat)
    ensures stop == BlocksDelete(row, code)
    ensures next == count + (if DeletesChild(row, childCodes) then 1 else 0)
  {
    stop := BlocksDelete(row, code);
    next := if DeletesChild(row, childCodes) then count + 1 else count;
  }

  predicate CodeMessage(m: Msg) {
    m == CodeExists || m == CodeNotFound || m == ChildOfDeletedParent || m == ChildrenNotDeleted
  }

  /** `validateCode`: nothing is checked for a non-numeric code; otherwise
      an added code must be new, an updated or deleted code must exist,
      and a deleted department must neither keep a child in the batch nor
      leave a stored direct child undeleted. At most one message. */
  method ValidateCode(u: Utils, db: Db, projectId: string, item: DepartmentDto, rows: seq<DepartmentDto>)
    returns (e: seq<Msg>)
    ensures |e| <= 1 && forall m :: m in e ==> CodeMessage(m)
    ensures !u.isNumber(item.code) ==> e == []
    ensures CodeExists in e <==> (u.isNumber(item.code) && item.action == ADD
      && Known(db, projectId, item.code))
    ensures CodeNotFound in e <==> (u.isNumber(item.code) && (item.action == UPDATE || item.action == DELETE)
      && !Known(db, projectId, item.code))
    ensures ChildOfDeletedParent in e <==> (u.isNumber(item.code) && item.action == DELETE
      && Known(db, projectId, item.code) && ChildBlocking(rows, item.code))
    ensures ChildrenNotDeleted in e <==> (u.isNumber(item.code) && item.action == DELETE
      && !ChildBlocking(rows, item.code) && ChildrenLeft(db, projectId, item, rows))
  {
    e := [];
    if !u.isNumber(item.code) {
      return;
    }
    var found := DepartmentByCode(db, projectId, ParseInt(item.code));
    if item.action == ADD && found.Some? {
      e := [CodeExists];
    } else if (item.action == UPDATE || item.action == DELETE) && found.None? {
      e := [CodeNotFound];
    } else if item.action == DELETE && found.Some? {
      var childCodes := ChildCodes(db, found.value);
      var blocked, count := ScanRows(rows, ParseInt(item.code), childCodes);
      if blocked {
        e := [ChildOfDeletedParent];
      } else if count != |childCodes| {
        e := [ChildrenNotDeleted];
      }
    }
  }

  /** `validateParent`: a row may not be its own parent, a parent must be
      numeric, and a numeric parent that no batch row carries as its code
      must exist in the store for an added or updated row. */
  method ValidateParent(u: Utils, db: Db, projectId: string, item: DepartmentDto, countCodes: map<string, nat>)
    returns (e: seq<Msg>)
    ensures forall m :: m in e ==> m == OwnParent || m == ParentNotNumeric || m == ParentNotFound
    ensures OwnParent in e <==> item.ext.parent == Some(item.code)
    ensures ParentNotNumeric in e <==> item.ext.parent.Some? && !u.isNumber(item.ext.parent.value)
    ensures ParentNotFound in e <==> (item.ext.parent.Some? && item.ext.parent.value !in countCodes
      && u.isNumber(item.ext.parent.value) && (item.action == UPDATE || item.action == ADD)
      && !Known(db, projectId, item.ext.parent.value))
  {
    var parent := item.ext.parent;
    e := [];
    if parent == Some(item.code) {
      e := e + [OwnParent];
    }
    if parent.Some? && !u.isNumber(parent.value) {
      e := e + [ParentNotNumeric];
    }
    if parent.Some? && parent.value !in countCodes && u.isNumber(parent.value) {
      var found := DepartmentByCode(db, projectId, ParseInt(parent.value));
      if (item.action == UPDATE || item.action == ADD) && found.None? {
        e := e + [ParentNotFound];
      }
    }
  }

  /** The check a store message of a department row comes from, in the
      order the checks run: name, code, parent. */
  function Stage(m: Msg): nat {
    if m == NameExists || m == NameOfAnother("department") then 0
    else if CodeMessage(m) then 1
    else 2
  }

  /** The three kinds of parent message. */
  predicate ParentMessage(m: Msg) {
    m == OwnParent || m == ParentNotNumeric || m == ParentNotFound
  }

  /** The kinds of message the store checks give a department row. */
  predicate StoreMessage(m: Msg) {
    m == NameExists || m == NameOfAnother("department") || CodeMessage(m) || ParentMessage(m)
  }

  /** Name messages, then code messages, then parent messages: the stages
      never go back. */
  lemma StagesInOrder(a: seq<Msg>, b: seq<Msg>, c: seq<Msg>)
    requires forall m :: m in a ==> m == NameExists || m == NameOfAnother("department")
    requires forall m :: m in b ==> CodeMessage(m)
    requires forall m :: m in c ==> ParentMessage(m)
    ensures forall m :: m in a + b + c ==> StoreMessage(m)
    ensures var e := a + b + c;
      forall i, j :: 0 <= i < j < |e| ==> Stage(e[i]) <= Stage(e[j])
  {
    var e := a + b + c;
    forall k | 0 <= k < |e| ensures Stage(e[k]) == if k < |a| then 0 else if k < |a| + |b| then 1 else 2 {
      if k < |a| { assert e[k] == a[k] && a[k] in a; }
      else if k < |a| + |b| { assert e[k] == b[k - |a|] && b[k - |a|] in b; }
      else { assert e[k] == c[k - |a| - |b|] && c[k - |a| - |b|] in c; }
    }
  }

  /** The messages the store checks append to one department row, each
      present exactly when its condition holds; `rows` and `codes` are the
      batch's rows and code column. */
  predicate DepartmentMessagesOk(u: Utils, db: Db, projectId: string, rows: seq<DepartmentDto>, codes: seq<string>,
                                 item: DepartmentDto, e: seq<Msg>) {
    var parent := item.ext.parent;
    && (NameExists in e <==> item.action == ADD && NameTaken(db, projectId, item.name))
    && (NameOfAnother("department") in e <==> item.action == UPDATE && NameOfOther(db, projectId, item))
    && (CodeExists in e <==> (u.isNumber(item.code) && item.action == ADD
         && Known(db, projectId, item.code)))
    && (CodeNotFound in e <==> (u.isNumber(item.code) && (item.action == UPDATE || item.action == DELETE)
         && !Known(db, projectId, item.code)))
    && (ChildOfDeletedParent in e <==> (u.isNumber(item.code) && item.action == DELETE
         && Known(db, projectId, item.code) && ChildBlocking(rows, item.code)))
    && (ChildrenNotDeleted in e <==> (u.isNumber(item.code) && item.action == DELETE
         && !ChildBlocking(rows, item.code) && ChildrenLeft(db, projectId, item, rows)))
    && (OwnParent in e <==> parent == Some(item.code))
    && (ParentNotNumeric in e <==> parent.Some? && !u.isNumber(parent.value))
    && (ParentNotFound in e <==> (parent.Some? && parent.value !in codes
         && u.isNumber(parent.value) && (item.action == UPDATE || item.action == ADD)
         && !Known(db, projectId, parent.value)))
  }

  /** One department row after the store checks: only its error list
      changes, by appending the messages above and no other. */
  predicate DepartmentChecked(u: Utils, db: Db, projectId: string, rows: seq<DepartmentDto>, codes: seq<string>,
                              before: DepartmentDto, after: DepartmentDto) {
    && after == before.(errors := after.errors)
    && Extends(before.errors, after.errors)
    && DepartmentMessagesOk(u, db, projectId, rows, codes, before, Added(before.errors, after.errors))
    && (forall m :: m in Added(before.errors, after.errors) ==> StoreMessage(m))
  }

  /** `validateItems`: name, then code, then parent. */
  method ValidateDepartmentItem(u: Utils, db: Db, projectId: string, item: DepartmentDto, rows: seq<DepartmentDto>,
                                codes: seq<string>, countCodes: map<string, nat>)
    returns (r: DepartmentDto)
    requires forall k :: k in countCodes <==> k in codes
    ensures DepartmentChecked(u, db, projectId, rows, codes, item, r)
    ensures var e := Added(item.errors, r.errors);
      forall i, j :: 0 <= i < j < |e| ==> Stage(e[i]) <= Stage(e[j])
  {
    var a := ValidateName(db, projectId, item);
    var b := ValidateCode(u, db, projectId, item, rows);
    var c := ValidateParent(u, db, projectId, item, countCodes);
    var e := a + b + c;
    assert DepartmentMessagesOk(u, db, projectId, rows, codes, item, e);
    r := item.(errors := item.errors + e);
    assert Added(item.errors, r.errors) == e;
    StagesInOrder(a, b, c);
  }

  /** Appending one more checked row keeps every row checked. */
  lemma CheckedStep(u: Utils, db: Db, projectId: string, rows: seq<DepartmentDto>, codes: seq<string>,
                    items: seq<DepartmentDto>, item: DepartmentDto)
    requires |items| < |rows|
    requires forall k :: 0 <= k < |items| ==> DepartmentChecked(u, db, projectId, rows, codes, rows[k], items[k])
    requires DepartmentChecked(u, db, projectId, rows, codes, rows[|items|], item)
    ensures forall k :: 0 <= k < |items| + 1 ==> DepartmentChecked(u, db, projectId, rows, codes, rows[k], (items + [item])[k])
  {
  }

  /** `validateDepartment`: the file checks (giving `checked`), then the
      store checks of every row against the checked rows and the code
      column, then the file flagged when some row has errors. */
  method ValidateDepartment(u: Utils, db: Db, projectId: string, dto: DepartmentFileDto)
    returns (checked: DepartmentFileDto, r: DepartmentFileDto)
    ensures FileValidation.FileChecked(u, dto, checked)
    ensures r.file == dto.file && r.names == dto.names && r.codes == dto.codes
    ensures |r.items| == |dto.items|
    ensures forall i :: 0 <= i < |r.items| ==>
      DepartmentChecked(u, db, projectId, checked.items, dto.codes, checked.items[i], r.items[i])
    ensures r.hasErrors <==> dto.hasErrors || FileValidation.AnyErrors(r.items)
  {
    checked := FileValidation.ValidateFile(u, dto);
    var countCodes := CountMap(checked.codes);
    var items: seq<DepartmentDto> := [];
    for i := 0 to |checked.items|
      invariant |items| == i
      invariant forall k :: 0 <= k < i ==>
        DepartmentChecked(u, db, projectId, checked.items, dto.codes, checked.items[k], items[k])
    {
      var item := ValidateDepartmentItem(u, db, projectId, checked.items[i], checked.items, checked.codes, countCodes);
      CheckedStep(u, db, projectId, checked.items, dto.codes, items, item);
      items := items + [item];
    }
    r := checked.(items := items, hasErrors := checked.hasErrors || FileValidation.AnyErrors(items));
    if FileValidation.AnyErrors(checked.items) {
      var i :| 0 <= i < |checked.items| && |checked.items[i].errors| > 0;
      assert |r.items[i].errors| > 0;
    }
  }
}
