/** The checks of a position file against the store
    (`positions-validate.service.ts`): after the file checks, every row's
    name and code are looked up in the project's positions. */
module PositionValidation {
  import opened Wrappers
  import opened Text
  import opened Store
  import opened UploadDto
  import opened Messages
  import FileValidation

  /** Some live position of the project carries this name. */
  predicate NameTaken(db: Db, projectId: string, name: string) {
    exists j :: 0 <= j < |db.positions| && PositionWithName(db.positions[j], projectId, name)
  }

  /** The position found by this row's name has a different code. */
  predicate NameOfOther(db: Db, projectId: string, item: PositionDto) {
    var found := PositionByName(db, projectId, item.name);
    found.Some? && ParseInt(item.code) != Some(db.positions[found.value].externalId)
  }

  /** Some live position of the project has the code this cell parses to. */
  predicate Known(db: Db, projectId: string, code: string) {
    PositionExists(db, projectId, ParseInt(code))
  }

  /** The position with this code still has live assignments. */
  predicate Assigned(db: Db, projectId: string, code: string) {
    var found := PositionByCode(db, projectId, ParseInt(code));
    found.Some? && |AssignmentsOfPosition(db, found.value)| > 0
  }

  /** `validateName`: an added name must be new to the project; an updated
      name may only belong to the position being updated. */
  method ValidateName(db: Db, projectId: string, item: PositionDto) returns (e: seq<Msg>)
    ensures forall m :: m in e ==> m == NameExists || m == NameOfAnother("position")
    ensures NameExists in e <==> item.action == ADD && NameTaken(db, projectId, item.name)
    ensures NameOfAnother("position") in e <==> item.action == UPDATE && NameOfOther(db, projectId, item)
  {
    var found := PositionByName(db, projectId, item.name);
    e := [];
    if item.action == ADD && found.Some? {
      e := e + [NameExists];
    }
    if item.action == UPDATE && found.Some? && ParseInt(item.code) != Some(db.positions[found.value].externalId) {
      e := e + [NameOfAnother("position")];
    }
  }

  predicate CodeMessage(m: Msg) {
    m == CodeExists || m == CodeNotFound || m == StakeholdersNotDeleted
  }

  /** `validateCode`: nothing is checked for a non-numeric code; otherwise
      an added code must be new, an updated or deleted code must exist, and
      a deleted position must no longer be held by anyone. At most one
      message. */
  method ValidateCode(u: Utils, db: Db, projectId: string, item: PositionDto) returns (e: seq<Msg>)
    ensures |e| <= 1 && forall m :: m in e ==> CodeMessage(m)
    ensures !u.isNumber(item.code) ==> e == []
    ensures CodeExists in e <==> u.isNumber(item.code) && item.action == ADD && Known(db, projectId, item.code)
    ensures CodeNotFound in e <==> (u.isNumber(item.code) && (item.action == UPDATE || item.action == DELETE)
      && !Known(db, projectId, item.code))
    ensures StakeholdersNotDeleted in e <==> (u.isNumber(item.code) && item.action == DELETE
      && Assigned(db, projectId, item.code))
  {
    e := [];
    if u.isNumber(item.code) {
      var found := PositionByCode(db, projectId, ParseInt(item.code));
      if item.action == ADD && found.Some? {
        e := [CodeExists];
      } else if (item.action == UPDATE || item.action == DELETE) && found.None? {
        e := [CodeNotFound];
      } else if item.action == DELETE && found.Some? && |AssignmentsOfPosition(db, found.value)| > 0 {
        e := [StakeholdersNotDeleted];
      }
    }
  }

  /** The check a store message of a position row comes from, in the
      order the checks run: name, then code. */
  function Stage(m: Msg): nat {
    if m == NameExists || m == NameOfAnother("position") then 0 else 1
  }

  /** The kinds of message the store checks give a position row. */
  predicate StoreMessage(m: Msg) {
    m == NameExists || m == NameOfAnother("position") || CodeMessage(m)
  }

  /** Name messages, then code messages: the stages never go back. */
  lemma StagesInOrder(a: seq<Msg>, b: seq<Msg>)
    requires forall m :: m in a ==> m == NameExists || m == NameOfAnother("position")
    requires forall m :: m in b ==> CodeMessage(m)
    ensures forall m :: m in a + b ==> StoreMessage(m)
    ensures var e := a + b;
      forall i, j :: 0 <= i < j < |e| ==> Stage(e[i]) <= Stage(e[j])
  {
    var e := a + b;
    forall k | 0 <= k < |e| ensures Stage(e[k]) == if k < |a| then 0 else 1 {
      if k < |a| { assert e[k] == a[k] && a[k] in a; }
      else { assert e[k] == b[k - |a|] && b[k - |a|] in b; }
    }
  }

  /** The messages the store checks append to one position row, each
      present exactly when its condition holds. */
  predicate PositionMessagesOk(u: Utils, db: Db, projectId: string, item: PositionDto, e: seq<Msg>) {
    && (NameExists in e <==> item.action == ADD && NameTaken(db, projectId, item.name))
    && (NameOfAnother("position") in e <==> item.action == UPDATE && NameOfOther(db, projectId, item))
    && (CodeExists in e <==> u.isNumber(item.code) && item.action == ADD && Known(db, projectId, item.code))
    && (CodeNotFound in e <==> (u.isNumber(item.code) && (item.action == UPDATE || item.action == DELETE)
         && !Known(db, projectId, item.code)))
    && (StakeholdersNotDeleted in e <==> (u.isNumber(item.code) && item.action == DELETE
         && Assigned(db, projectId, item.code)))
  }

  /** One position row after the store checks: only its error list
      changes, by appending the messages above. */
  predicate PositionChecked(u: Utils, db: Db, projectId: string, before: PositionDto, after: PositionDto) {
    && after == before.(errors := after.errors)
    && Extends(before.errors, after.errors)
    && PositionMessagesOk(u, db, projectId, before, Added(before.errors, after.errors))
    && (forall m :: m in Added(before.errors, after.errors) ==> StoreMessage(m))
  }

  /** `validateItems`: name, then code. */
  method ValidatePositionItem(u: Utils, db: Db, projectId: string, item: PositionDto) returns (r: PositionDto)
    ensures PositionChecked(u, db, projectId, item, r)
    ensures var e := Added(item.errors, r.errors);
      forall i, j :: 0 <= i < j < |e| ==> Stage(e[i]) <= Stage(e[j])
  {
    var a := ValidateName(db, projectId, item);
    var b := ValidateCode(u, db, projectId, item);
    var e := a + b;
    assert PositionMessagesOk(u, db, projectId, item, e);
    r := item.(errors := item.errors + e);
    assert Added(item.errors, r.errors) == e;
    StagesInOrder(a, b);
  }

  /** Appending one more checked row keeps every row checked. */
  lemma CheckedStep(u: Utils, db: Db, projectId: string, before: seq<PositionDto>, items: seq<PositionDto>, item: PositionDto)
    requires |items| < |before|
    requires forall k :: 0 <= k < |items| ==> PositionChecked(u, db, projectId, before[k], items[k])
    requires PositionChecked(u, db, projectId, before[|items|], item)
    ensures forall k :: 0 <= k < |items| + 1 ==> PositionChecked(u, db, projectId, before[k], (items + [item])[k])
  {
  }

  /** `validatePosition`: the file checks (giving `checked`), then the
      store checks of every row, then the file flagged when some row has
      errors. */
  method ValidatePosition(u: Utils, db: Db, projectId: string, dto: PositionFileDto)
    returns (checked: PositionFileDto, r: PositionFileDto)
    ensures FileValidation.FileChecked(u, dto, checked)
    ensures r.file == dto.file && r.names == dto.names && r.codes == dto.codes
    ensures |r.items| == |dto.items|
    ensures forall i :: 0 <= i < |r.items| ==> PositionChecked(u, db, projectId, checked.items[i], r.items[i])
    ensures r.hasErrors <==> dto.hasErrors || FileValidation.AnyErrors(r.items)
  {
    checked := FileValidation.ValidateFile(u, dto);
    var items: seq<PositionDto> := [];
    for i := 0 to |checked.items|
      invariant |items| == i
      invariant forall k :: 0 <= k < i ==> PositionChecked(u, db, projectId, checked.items[k], items[k])
    {
      var item := ValidatePositionItem(u, db, projectId, checked.items[i]);
      CheckedStep(u, db, projectId, checked.items, items, item);
      items := items + [item];
    }
    r := checked.(items := items, hasErrors := checked.hasErrors || FileValidation.AnyErrors(items));
    if FileValidation.AnyErrors(checked.items) {
      var i :| 0 <= i < |checked.items| && |checked.items[i].errors| > 0;
      assert |r.items[i].errors| > 0;
    }
  }
}
