/** The in-memory shapes an uploaded CSV file is turned into
    (`file.dto.ts`, `department.dto.ts`, `stakeholder.dto.ts`,
    `influencer.dto.ts`), the per-row report and the summary a successful
    upload returns, and the two field checks every validator shares. */
module UploadDto {
  import opened Wrappers
  import Store
  import opened Messages
  import opened Text
  import Collections

  /** `UploadFileAction`: the three row actions. */
  const ADD := "A"
  const UPDATE := "U"
  const DELETE := "D"

  /** `isNumber` and `isValidEmail` from the shared validation helpers,
      which are not part of this model; every validator receives them. */
  datatype Utils = Utils(isNumber: string -> bool, isValidEmail: string -> bool)

  /** `isNumber` on a nullable value: null is never numeric. */
  predicate IsNumberOpt(u: Utils, s: Option<string>) {
    s.Some? && u.isNumber(s.value)
  }

  /** The property name JavaScript uses when a nullable value indexes an
      object: `countMap[null]` reads the key "null". */
  function Key(s: Option<string>): string {
    match s
    case None => "null"
    case Some(v) => v
  }

  // ---------------------------------------------------------------------
  // department and position files

  /** `FileItem`: one data row of a department or position file. The extra
      columns of a department row are carried in `ext`. */
  datatype FileItem<X> = FileItem(
    row: int,
    name: string,
    code: string,
    action: string,
    errors: seq<Msg>,
    ext: X)

  /** `FileDto`: the parsed file with its name and code columns collected
      for the duplicate checks. */
  datatype FileDto<X> = FileDto(
    file: string,
    names: seq<string>,
    codes: seq<string>,
    items: seq<FileItem<X>>,
    hasErrors: bool)

  /** The two columns a department row adds to `FileItem`. */
  datatype DepartmentExt = DepartmentExt(parent: Option<string>, manager: string)

  type DepartmentDto = FileItem<DepartmentExt>
  type DepartmentFileDto = FileDto<DepartmentExt>

  /** Every row's code parses as an integer; a NaN code makes the insert of
      its row fail in the database. */
  predicate CodesNumeric<X>(rows: seq<FileItem<X>>) {
    forall k :: 0 <= k < |rows| ==> ParseInt(rows[k].code).Some?
  }

  /** A position row has no column beyond those of `FileItem`. */
  datatype NoExt = NoExt

  type PositionDto = FileItem<NoExt>
  type PositionFileDto = FileDto<NoExt>

  // ---------------------------------------------------------------------
  // stakeholder files

  /** One `department:position-position` entry of the department column. */
  datatype DepartmentAndPosition = DepartmentAndPosition(department: string, positions: seq<string>)

  /** `StakeholderDto`: one data row of a stakeholder file.
      `projectRoleId` is filled in by the role check. */
  datatype StakeholderDto = StakeholderDto(
    row: int,
    name: string,
    email: string,
    stakeholderId: Option<string>,
    departmentsAndPositions: seq<DepartmentAndPosition>,
    manager: string,
    projectRole: string,
    projectRoleId: Option<Store.Id>,
    action: string,
    errors: seq<Msg>)

  datatype StakeholderFileDto = StakeholderFileDto(
    file: string,
    emails: seq<string>,
    stakeholderIds: seq<string>,
    items: seq<StakeholderDto>,
    hasErrors: bool)

  // ---------------------------------------------------------------------
  // influencer files

  /** `InfluencerItem`: one data row of an influencer file.
      `stakeholderId` is filled in when the stakeholder is found. */
  datatype InfluencerItem = InfluencerItem(
    row: int,
    stakeholderCode: string,
    influence: string,
    excluded: string,
    action: string,
    stakeholderId: Option<Store.Id>,
    errors: seq<Msg>)

  datatype InfluencerDto = InfluencerDto(
    file: string,
    stakeholderIds: seq<string>,
    items: seq<InfluencerItem>,
    hasErrors: bool)

  // ---------------------------------------------------------------------
  // outcomes

  /** One line of the error report: the row number and its messages. */
  datatype RowReport = RowReport(row: int, errors: seq<Msg>)

  /** The summary of an applied upload: file name and bucket sizes. */
  datatype UploadResponse = UploadResponse(name: string, additions: nat, updates: nat, deletions: nat)

  /** What an upload produces: the report when validation found errors
      (nothing was written); `Failed` when a write of the first phase was
      refused by the database, so the upload threw before anything was
      stored; or the summary with the new store. */
  datatype Outcome =
    | Rejected(report: seq<RowReport>)
    | Failed
    | Applied(response: UploadResponse, db: Store.Db)

  /** The action cell of a department or position row. */
  function ActionOf<X>(item: FileItem<X>): string {
    item.action
  }

  /** The rows of one action, in file order: `items.filter(d => d.action === a)`.
      `OfActionCount` and `OfActionAppend` state what it keeps. */
  function OfAction<X(==,!new)>(items: seq<FileItem<X>>, action: string): (r: seq<FileItem<X>>)
    ensures |r| <= |items|
    ensures forall x :: x in r <==> x in items && x.action == action
    ensures forall k :: 0 <= k < |r| ==> r[k].action == action
  {
    if |items| == 0 then []
    else (if items[0].action == action then [items[0]] else []) + OfAction(items[1..], action)
  }

  /** The same rows as the generic filter on the action cell. */
  lemma {:induction false} OfActionIsFilter<X(!new)>(items: seq<FileItem<X>>, action: string)
    ensures OfAction(items, action) == Collections.Filter(items, ActionOf, action)
  {
    if |items| > 0 {
      OfActionIsFilter(items[1..], action);
    }
  }

  /** Each row with the action is in its bucket as often as in the file,
      and no other row is. */
  lemma OfActionCount<X(!new)>(items: seq<FileItem<X>>, action: string)
    ensures forall x :: multiset(OfAction(items, action))[x] == if x.action == action then multiset(items)[x] else 0
  {
    OfActionIsFilter(items, action);
    Collections.FilterCount(items, ActionOf, action);
  }

  /** When every row has one of the three actions, the buckets split the
      file: the summary's three counts add up to the number of rows. */
  lemma ActionsSplit<X(!new)>(items: seq<FileItem<X>>)
    requires forall i :: 0 <= i < |items| ==> items[i].action == ADD || items[i].action == UPDATE || items[i].action == DELETE
    ensures |OfAction(items, ADD)| + |OfAction(items, UPDATE)| + |OfAction(items, DELETE)| == |items|
  {
    OfActionIsFilter(items, ADD);
    OfActionIsFilter(items, UPDATE);
    OfActionIsFilter(items, DELETE);
    Collections.FilterPartition(items, ActionOf, ADD, UPDATE, DELETE);
  }

  /** The buckets keep the file order: the buckets of two files read one
      after the other are those of the first followed by those of the
      second. */
  lemma OfActionAppend<X(!new)>(a: seq<FileItem<X>>, b: seq<FileItem<X>>, action: string)
    ensures OfAction(a + b, action) == OfAction(a, action) + OfAction(b, action)
  {
    OfActionIsFilter(a + b, action);
    OfActionIsFilter(a, action);
    OfActionIsFilter(b, action);
    Collections.FilterAppend(a, b, ActionOf, action);
  }

  /** The error report: one line per row, in file order, rows without
      errors included. */
  function FileReport<X>(items: seq<FileItem<X>>): (r: seq<RowReport>)
    ensures |r| == |items|
    ensures forall i :: 0 <= i < |items| ==> r[i].row == items[i].row && r[i].errors == items[i].errors
  {
    seq(|items|, i requires 0 <= i < |items| => RowReport(items[i].row, items[i].errors))
  }

  function StakeholderReport(items: seq<StakeholderDto>): (r: seq<RowReport>)
    ensures |r| == |items|
    ensures forall i :: 0 <= i < |items| ==> r[i].row == items[i].row && r[i].errors == items[i].errors
  {
    seq(|items|, i requires 0 <= i < |items| => RowReport(items[i].row, items[i].errors))
  }

  function InfluencerReport(items: seq<InfluencerItem>): (r: seq<RowReport>)
    ensures |r| == |items|
    ensures forall i :: 0 <= i < |items| ==> r[i].row == items[i].row && r[i].errors == items[i].errors
  {
    seq(|items|, i requires 0 <= i < |items| => RowReport(items[i].row, items[i].errors))
  }
}
