/** The repository-independent checks of an uploaded file
    (`validate-file.service.ts`): row actions, name length, numeric codes,
    duplicates inside the file, and for stakeholder files the e-mail,
    manager and department/position columns. Each check appends messages to
    the row's error list; the file is flagged when any row has one. */
module FileValidation {
  import opened Wrappers
  import opened Collections
  import opened UploadDto
  import opened Messages

  predicate ValidAction(action: string) {
    action == ADD || action == DELETE || action == UPDATE
  }

  /** `xs[..n]` holds some value twice. */
  predicate DuplicateBefore(xs: seq<string>, n: nat)
    requires n <= |xs|
  {
    exists i, j :: 0 <= i < j < n && xs[i] == xs[j]
  }

  /** Extending a prefix by one element adds a duplicate exactly when that
      element already occurs in the prefix. */
  lemma DuplicateStep(xs: seq<string>, n: nat)
    requires n < |xs|
    ensures DuplicateBefore(xs, n + 1) <==> DuplicateBefore(xs, n) || xs[n] in xs[..n]
  {
    if xs[n] in xs[..n] {
      var i :| 0 <= i < n && xs[..n][i] == xs[n];
      assert xs[i] == xs[n];
    }
    if DuplicateBefore(xs, n + 1) && !DuplicateBefore(xs, n) {
      var i, j :| 0 <= i < j < n + 1 && xs[i] == xs[j];
      assert j == n;
      assert xs[..n][i] == xs[n];
    }
  }

  /** Some element of `xs` fails `isNumber`. */
  predicate SomeNotNumeric(u: Utils, xs: seq<string>) {
    exists k :: 0 <= k < |xs| && !u.isNumber(xs[k])
  }

  // ---------------------------------------------------------------------
  // department and position files

  /** The five kinds of message the file checks give a department or
      position row. */
  predicate ItemMessage(m: Msg) {
    m == ActionInvalid || m == NameDuplicated || m == NameTooShort || m == CodeDuplicated || m == NotNumeric(CodeColumn)
  }

  /** The outcome `validateItems` promises for one row: only the error
      list changes, by appending, each message is present exactly when its
      condition holds, and there is no other message. The duplicate
      conditions are passed in because they depend on the whole file. */
  predicate ItemChecked<X(==)>(u: Utils, nameDup: bool, codeDup: bool, before: FileItem<X>, after: FileItem<X>) {
    && after == before.(errors := after.errors)
    && Extends(before.errors, after.errors)
    && var e := Added(before.errors, after.errors);
    && (ActionInvalid in e <==> !ValidAction(before.action))
    && (NameDuplicated in e <==> nameDup)
    && (NameTooShort in e <==> |before.name| < 3)
    && (CodeDuplicated in e <==> codeDup)
    && (NotNumeric(CodeColumn) in e <==> !u.isNumber(before.code))
    && (forall m :: m in e ==> ItemMessage(m))
  }

  /** The messages of one department or position row, in the order the
      source checks them: action, name (duplicate, length), code
      (duplicate, numeric). */
  method ItemMessages(u: Utils, action: string, name: string, code: string, nameDup: bool, codeDup: bool) returns (e: seq<Msg>)
    ensures ActionInvalid in e <==> !ValidAction(action)
    ensures NameDuplicated in e <==> nameDup
    ensures NameTooShort in e <==> |name| < 3
    ensures CodeDuplicated in e <==> codeDup
    ensures NotNumeric(CodeColumn) in e <==> !u.isNumber(code)
    ensures forall m :: m in e ==> ItemMessage(m)
  {
    e := [];
    if !ValidAction(action) { e := e + [ActionInvalid]; }
    if nameDup { e := e + [NameDuplicated]; }
    if |name| < 3 { e := e + [NameTooShort]; }
    if codeDup { e := e + [CodeDuplicated]; }
    if !u.isNumber(code) { e := e + [NotNumeric(CodeColumn)]; }
  }

  /** `validateItems` on one row: the row's messages appended to its error
      list, the duplicate conditions read from the file's count maps. */
  method ValidateItem<X(==)>(u: Utils, item: FileItem<X>, countNames: map<string, nat>, countCodes: map<string, nat>)
    returns (r: FileItem<X>)
    ensures ItemChecked(u, Repeated(countNames, item.name), Repeated(countCodes, item.code), item, r)
  {
    var added := ItemMessages(u, item.action, item.name, item.code, Repeated(countNames, item.name), Repeated(countCodes, item.code));
    r := item.(errors := item.errors + added);
    assert Added(item.errors, r.errors) == added;
  }

  /** Some row of the list carries at least one message. */
  predicate AnyErrors<X>(items: seq<FileItem<X>>) {
    exists i :: 0 <= i < |items| && |items[i].errors| > 0
  }

  /** The count map of a column flags a value exactly when it occurs more
      than once in the column. */
  lemma RepeatedCount(xs: seq<string>, k: string)
    ensures Repeated(CountMap(xs), k) <==> multiset(xs)[k] > 1
  {
    if k !in xs {
      assert multiset(xs)[k] == 0;
    }
  }

  /** The row-by-row outcome of `validateFile`: the columns are kept, and
      every row is checked, a duplicate being reported on each row whose
      value occurs more than once in its column. */
  predicate FileChecked<X(==)>(u: Utils, dto: FileDto<X>, r: FileDto<X>) {
    && r.file == dto.file && r.names == dto.names && r.codes == dto.codes
    && |r.items| == |dto.items|
    && forall i :: 0 <= i < |r.items| ==>
         ItemChecked(u, multiset(dto.names)[dto.items[i].name] > 1, multiset(dto.codes)[dto.items[i].code] > 1,
                     dto.items[i], r.items[i])
  }

  /** `validateFile`: every row checked against the file's name and code
      columns, then the file flagged when a row has errors. A duplicate is
      reported on every row whose value occurs more than once in its
      column. */
  method ValidateFile<X(==)>(u: Utils, dto: FileDto<X>) returns (r: FileDto<X>)
    ensures FileChecked(u, dto, r)
    ensures r.hasErrors <==> dto.hasErrors || AnyErrors(r.items)
  {
    var countNames := CountMap(dto.names);
    var countCodes := CountMap(dto.codes);
    var items: seq<FileItem<X>> := [];
    for i := 0 to |dto.items|
      invariant |items| == i
      invariant forall k :: 0 <= k < i ==>
        ItemChecked(u, multiset(dto.names)[dto.items[k].name] > 1, multiset(dto.codes)[dto.items[k].code] > 1,
                    dto.items[k], items[k])
    {
      var item := ValidateItem(u, dto.items[i], countNames, countCodes);
      RepeatedCount(dto.names, dto.items[i].name);
      RepeatedCount(dto.codes, dto.items[i].code);
      items := items + [item];
    }
    r := dto.(items := items, hasErrors := dto.hasErrors || AnyErrors(items));
  }

  // ---------------------------------------------------------------------
  // stakeholder files: the department/position column

  /** The department names of the column's entries, in order. */
  function Departments(entries: seq<DepartmentAndPosition>): (r: seq<string>)
    ensures |r| == |entries|
    ensures forall k :: 0 <= k < |entries| ==> r[k] == entries[k].department
  {
    seq(|entries|, k requires 0 <= k < |entries| => entries[k].department)
  }

  /** Two entries of the column name the same department. */
  predicate RepeatedDepartment(entries: seq<DepartmentAndPosition>) {
    DuplicateBefore(Departments(entries), |entries|)
  }

  /** Some entry of the column lists a position twice. */
  predicate SomePositionRepeated(entries: seq<DepartmentAndPosition>) {
    exists k :: 0 <= k < |entries| && DuplicateBefore(entries[k].positions, |entries[k].positions|)
  }

  /** Some entry of the column has a non-numeric department. */
  predicate SomeDepartmentNotNumeric(u: Utils, entries: seq<DepartmentAndPosition>) {
    SomeNotNumeric(u, Departments(entries))
  }

  /** The messages of the positions of one entry: a non-numeric message
      naming the department, and a repetition message, per position. */
  method CheckPositions(u: Utils, department: string, positions: seq<string>) returns (e: seq<Msg>)
    ensures forall m :: m in e ==> m == PositionNotNumeric(department) || m == PositionRepeated
    ensures PositionNotNumeric(department) in e <==> SomeNotNumeric(u, positions)
    ensures PositionRepeated in e <==> DuplicateBefore(positions, |positions|)
  {
    var seen: set<string> := {};
    e := [];
    for i := 0 to |positions|
      invariant forall x :: x in seen <==> x in positions[..i]
      invariant forall m :: m in e ==> m == PositionNotNumeric(department) || m == PositionRepeated
      invariant PositionNotNumeric(department) in e <==> exists k :: 0 <= k < i && !u.isNumber(positions[k])
      invariant PositionRepeated in e <==> DuplicateBefore(positions, i)
    {
      var p := positions[i];
      DuplicateStep(positions, i);
      if !u.isNumber(p) { e := e + [PositionNotNumeric(department)]; }
      if p in seen { e := e + [PositionRepeated]; }
      seen := seen + {p};
      assert positions[..i + 1] == positions[..i] + [p];
    }
  }

  /** The four kinds of message the department column can produce. */
  predicate EntryMessage(m: Msg) {
    m.DepartmentNotNumeric? || m.DepartmentRepeated? || m.PositionNotNumeric? || m.PositionRepeated?
  }

  /** Some entry for department `d` lists a position that is not numeric:
      the condition of the message that names `d`. */
  predicate PositionsNotNumeric(u: Utils, entries: seq<DepartmentAndPosition>, d: string) {
    exists k :: 0 <= k < |entries| && entries[k].department == d && SomeNotNumeric(u, entries[k].positions)
  }

  /** One entry of the department column: the department must be numeric
      and not seen before on this row, then its positions are checked. */
  method CheckEntry(u: Utils, entry: DepartmentAndPosition, seen: set<string>) returns (e: seq<Msg>)
    ensures forall m :: m in e ==> EntryMessage(m)
    ensures forall d :: PositionNotNumeric(d) in e <==> d == entry.department && SomeNotNumeric(u, entry.positions)
    ensures DepartmentNotNumeric in e <==> !u.isNumber(entry.department)
    ensures DepartmentRepeated in e <==> entry.department in seen
    ensures PositionRepeated in e <==> DuplicateBefore(entry.positions, |entry.positions|)
  {
    var pe := CheckPositions(u, entry.department, entry.positions);
    e := When(!u.isNumber(entry.department), DepartmentNotNumeric)
      + When(entry.department in seen, DepartmentRepeated) + pe;
  }

  /** The messages naming departments after one more entry: those before
      it and the one its positions give. */
  lemma PositionsStep(u: Utils, entries: seq<DepartmentAndPosition>, i: nat, e: seq<Msg>, pe: seq<Msg>)
    requires i < |entries|
    requires forall d :: PositionNotNumeric(d) in e <==> PositionsNotNumeric(u, entries[..i], d)
    requires forall d :: PositionNotNumeric(d) in pe <==> d == entries[i].department && SomeNotNumeric(u, entries[i].positions)
    ensures forall d :: PositionNotNumeric(d) in e + pe <==> PositionsNotNumeric(u, entries[..i + 1], d)
  {
    var s := entries[..i + 1];
    forall d ensures PositionNotNumeric(d) in e + pe <==> PositionsNotNumeric(u, s, d) {
      if PositionsNotNumeric(u, s, d) && PositionNotNumeric(d) !in pe {
        var k :| 0 <= k < |s| && s[k].department == d && SomeNotNumeric(u, s[k].positions);
        assert k < i && entries[..i][k] == s[k];
      }
      if PositionsNotNumeric(u, entries[..i], d) {
        var k :| 0 <= k < i && entries[..i][k].department == d && SomeNotNumeric(u, entries[..i][k].positions);
        assert s[k] == entries[..i][k];
      }
    }
  }

  /** `validateDeparmentAndPositions`: the entries checked left to right
      with the set of departments seen so far; the positions of each entry
      are checked with a fresh set. */
  method CheckDepartmentColumn(u: Utils, entries: seq<DepartmentAndPosition>) returns (e: seq<Msg>)
    ensures forall m :: m in e ==> EntryMessage(m)
    ensures DepartmentNotNumeric in e <==> SomeDepartmentNotNumeric(u, entries)
    ensures DepartmentRepeated in e <==> RepeatedDepartment(entries)
    ensures PositionRepeated in e <==> SomePositionRepeated(entries)
    ensures forall d :: PositionNotNumeric(d) in e <==> PositionsNotNumeric(u, entries, d)
  {
    var deps := Departments(entries);
    var seen: set<string> := {};
    e := [];
    for i := 0 to |entries|
      invariant forall x :: x in seen <==> x in deps[..i]
      invariant forall m :: m in e ==> EntryMessage(m)
      invariant DepartmentNotNumeric in e <==> exists k :: 0 <= k < i && !u.isNumber(deps[k])
      invariant DepartmentRepeated in e <==> DuplicateBefore(deps, i)
      invariant PositionRepeated in e <==>
        exists k :: 0 <= k < i && DuplicateBefore(entries[k].positions, |entries[k].positions|)
      invariant forall d :: PositionNotNumeric(d) in e <==> PositionsNotNumeric(u, entries[..i], d)
    {
      DuplicateStep(deps, i);
      var pe := CheckEntry(u, entries[i], seen);
      PositionsStep(u, entries, i, e, pe);
      e := e + pe;
      seen := seen + {deps[i]};
      assert deps[..i + 1] == deps[..i] + [deps[i]];
    }
    assert entries[..|entries|] == entries;
  }

  // ---------------------------------------------------------------------
  // stakeholder files: whole rows

  /** The manager column names one of the row's departments. */
  predicate ManagerInDepartments(item: StakeholderDto) {
    exists i :: 0 <= i < |item.departmentsAndPositions| && item.departmentsAndPositions[i].department == item.manager
  }

  /** The kinds of message the stakeholder file checks give a row. */
  predicate StakeholderFileMessage(m: Msg) {
    RowMessage(m) || IdentityMessage(m) || EntryMessage(m)
  }

  /** The messages the stakeholder file checks append to one row: each is
      present exactly when its condition holds, and there is no other. The
      duplicate conditions are passed in because they depend on the whole
      file. */
  predicate StakeholderMessagesOk(u: Utils, emailDup: bool, idDup: bool, item: StakeholderDto, e: seq<Msg>) {
    var entries := item.departmentsAndPositions;
    && (ActionInvalid in e <==> !ValidAction(item.action))
    && (NameTooShort in e <==> |item.name| < 3)
    && (ManagerNotNumeric in e <==> item.manager != "" && !u.isNumber(item.manager))
    && (ManagerNotInDepartments in e <==> item.manager != "" && !ManagerInDepartments(item))
    && (EmailDuplicated in e <==> emailDup)
    && (EmailInvalid in e <==> !u.isValidEmail(item.email))
    && (IdDuplicated in e <==> idDup)
    && (NotNumeric(StakeholderIdColumn) in e <==> item.action != ADD && !IsNumberOpt(u, item.stakeholderId))
    && (DepartmentNotNumeric in e <==> SomeDepartmentNotNumeric(u, entries))
    && (DepartmentRepeated in e <==> RepeatedDepartment(entries))
    && (PositionRepeated in e <==> SomePositionRepeated(entries))
    && PositionsNamed(u, entries, e)
    && (forall m :: m in e ==> StakeholderFileMessage(m))
  }

  /** A non-numeric position message names department `d` exactly when
      some entry for `d` lists a non-numeric position. */
  predicate PositionsNamed(u: Utils, entries: seq<DepartmentAndPosition>, e: seq<Msg>) {
    && (forall m :: m in e && m.PositionNotNumeric? ==> PositionsNotNumeric(u, entries, m.department))
    && (forall k :: 0 <= k < |entries| && SomeNotNumeric(u, entries[k].positions) ==>
          PositionNotNumeric(entries[k].department) in e)
  }

  /** The kinds of message the row and identity checks give. */
  predicate RowMessage(m: Msg) {
    m.ActionInvalid? || m.NameTooShort? || m.ManagerNotNumeric? || m.ManagerNotInDepartments?
  }

  predicate IdentityMessage(m: Msg) {
    m.EmailDuplicated? || m.EmailInvalid? || m.IdDuplicated? || m == NotNumeric(StakeholderIdColumn)
  }

  /** The row and identity messages keep their meaning once the three
      groups are put together. */
  lemma RowMessagesJoined(u: Utils, emailDup: bool, idDup: bool, item: StakeholderDto,
                          a: seq<Msg>, b: seq<Msg>, c: seq<Msg>)
    requires forall m :: m in a ==> RowMessage(m)
    requires ActionInvalid in a <==> !ValidAction(item.action)
    requires NameTooShort in a <==> |item.name| < 3
    requires ManagerNotNumeric in a <==> item.manager != "" && !u.isNumber(item.manager)
    requires ManagerNotInDepartments in a <==> item.manager != "" && !ManagerInDepartments(item)
    requires forall m :: m in b ==> IdentityMessage(m)
    requires EmailDuplicated in b <==> emailDup
    requires EmailInvalid in b <==> !u.isValidEmail(item.email)
    requires IdDuplicated in b <==> idDup
    requires NotNumeric(StakeholderIdColumn) in b <==> item.action != ADD && !IsNumberOpt(u, item.stakeholderId)
    requires forall m :: m in c ==> EntryMessage(m)
    ensures var e := a + b + c;
      && (ActionInvalid in e <==> !ValidAction(item.action))
      && (NameTooShort in e <==> |item.name| < 3)
      && (ManagerNotNumeric in e <==> item.manager != "" && !u.isNumber(item.manager))
      && (ManagerNotInDepartments in e <==> item.manager != "" && !ManagerInDepartments(item))
      && (EmailDuplicated in e <==> emailDup)
      && (EmailInvalid in e <==> !u.isValidEmail(item.email))
      && (IdDuplicated in e <==> idDup)
      && (NotNumeric(StakeholderIdColumn) in e <==> item.action != ADD && !IsNumberOpt(u, item.stakeholderId))
  {
  }

  /** The column messages keep their meaning once the three groups are put
      together: only the column names departments, and nothing outside
      the three groups appears. */
  lemma ColumnMessagesJoined(u: Utils, entries: seq<DepartmentAndPosition>, a: seq<Msg>, b: seq<Msg>, c: seq<Msg>)
    requires forall m :: m in a ==> RowMessage(m)
    requires forall m :: m in b ==> IdentityMessage(m)
    requires forall m :: m in c ==> EntryMessage(m)
    requires DepartmentNotNumeric in c <==> SomeDepartmentNotNumeric(u, entries)
    requires DepartmentRepeated in c <==> RepeatedDepartment(entries)
    requires PositionRepeated in c <==> SomePositionRepeated(entries)
    requires forall d :: PositionNotNumeric(d) in c <==> PositionsNotNumeric(u, entries, d)
    ensures var e := a + b + c;
      && (DepartmentNotNumeric in e <==> SomeDepartmentNotNumeric(u, entries))
      && (DepartmentRepeated in e <==> RepeatedDepartment(entries))
      && (PositionRepeated in e <==> SomePositionRepeated(entries))
      && PositionsNamed(u, entries, e)
      && (forall m :: m in e ==> StakeholderFileMessage(m))
  {
    forall k | 0 <= k < |entries| && SomeNotNumeric(u, entries[k].positions)
      ensures PositionNotNumeric(entries[k].department) in a + b + c
    {
      assert PositionsNotNumeric(u, entries, entries[k].department);
    }
  }

  /** One row after the stakeholder file checks: only the error list
      changes, by appending the messages above. */
  predicate StakeholderChecked(u: Utils, emailDup: bool, idDup: bool, before: StakeholderDto, after: StakeholderDto) {
    && after == before.(errors := after.errors)
    && Extends(before.errors, after.errors)
    && StakeholderMessagesOk(u, emailDup, idDup, before, Added(before.errors, after.errors))
  }

  /** The row-level checks of a stakeholder row: action, name length and
      the manager column. */
  method RowMessages(u: Utils, item: StakeholderDto) returns (e: seq<Msg>)
    ensures forall m :: m in e ==> RowMessage(m)
    ensures ActionInvalid in e <==> !ValidAction(item.action)
    ensures NameTooShort in e <==> |item.name| < 3
    ensures ManagerNotNumeric in e <==> item.manager != "" && !u.isNumber(item.manager)
    ensures ManagerNotInDepartments in e <==> item.manager != "" && !ManagerInDepartments(item)
  {
    e := [];
    if !ValidAction(item.action) { e := e + [ActionInvalid]; }
    if |item.name| < 3 { e := e + [NameTooShort]; }
    if item.manager != "" {
      if !u.isNumber(item.manager) { e := e + [ManagerNotNumeric]; }
      if !ManagerInDepartments(item) { e := e + [ManagerNotInDepartments]; }
    }
  }

  /** The identity checks of a stakeholder row: e-mail (duplicate, format)
      and stakeholder id (duplicate, numeric unless the row adds). */
  method IdentityMessages(u: Utils, item: StakeholderDto, emailDup: bool, idDup: bool) returns (e: seq<Msg>)
    ensures forall m :: m in e ==> IdentityMessage(m)
    ensures EmailDuplicated in e <==> emailDup
    ensures EmailInvalid in e <==> !u.isValidEmail(item.email)
    ensures IdDuplicated in e <==> idDup
    ensures NotNumeric(StakeholderIdColumn) in e <==> item.action != ADD && !IsNumberOpt(u, item.stakeholderId)
  {
    e := [];
    if emailDup { e := e + [EmailDuplicated]; }
    if !u.isValidEmail(item.email) { e := e + [EmailInvalid]; }
    if idDup { e := e + [IdDuplicated]; }
    if item.action != ADD && !IsNumberOpt(u, item.stakeholderId) { e := e + [NotNumeric(StakeholderIdColumn)]; }
  }

  /** One stakeholder row, checked in the order action, name length,
      manager, e-mail, id, departments. */
  method ValidateStakeholderItem(u: Utils, item: StakeholderDto, countIds: map<string, nat>, countEmails: map<string, nat>)
    returns (r: StakeholderDto)
    ensures StakeholderChecked(u, Repeated(countEmails, item.email), Repeated(countIds, Key(item.stakeholderId)), item, r)
  {
    var a := RowMessages(u, item);
    var b := IdentityMessages(u, item, Repeated(countEmails, item.email), Repeated(countIds, Key(item.stakeholderId)));
    var c := CheckDepartmentColumn(u, item.departmentsAndPositions);
    RowMessagesJoined(u, Repeated(countEmails, item.email), Repeated(countIds, Key(item.stakeholderId)), item, a, b, c);
    ColumnMessagesJoined(u, item.departmentsAndPositions, a, b, c);
    var e := a + b + c;
    assert StakeholderMessagesOk(u, Repeated(countEmails, item.email), Repeated(countIds, Key(item.stakeholderId)), item, e);
    r := item.(errors := item.errors + e);
    assert Added(item.errors, r.errors) == e;
  }

  predicate AnyStakeholderErrors(items: seq<StakeholderDto>) {
    exists i :: 0 <= i < |items| && |items[i].errors| > 0
  }

  /** `validateStakeholderFile`: every row checked against the file's id
      and e-mail columns, then the file flagged when a row has errors. */
  method ValidateStakeholderFile(u: Utils, dto: StakeholderFileDto) returns (r: StakeholderFileDto)
    ensures r.file == dto.file && r.emails == dto.emails && r.stakeholderIds == dto.stakeholderIds
    ensures |r.items| == |dto.items|
    ensures forall i :: 0 <= i < |r.items| ==>
      StakeholderChecked(u, multiset(dto.emails)[dto.items[i].email] > 1,
                         multiset(dto.stakeholderIds)[Key(dto.items[i].stakeholderId)] > 1,
                         dto.items[i], r.items[i])
    ensures r.hasErrors <==> dto.hasErrors || AnyStakeholderErrors(r.items)
  {
    var countIds := CountMap(dto.stakeholderIds);
    var countEmails := CountMap(dto.emails);
    var items: seq<StakeholderDto> := [];
    for i := 0 to |dto.items|
      invariant |items| == i
      invariant forall k :: 0 <= k < i ==>
        StakeholderChecked(u, multiset(dto.emails)[dto.items[k].email] > 1,
                           multiset(dto.stakeholderIds)[Key(dto.items[k].stakeholderId)] > 1,
                           dto.items[k], items[k])
    {
      var item := ValidateStakeholderItem(u, dto.items[i], countIds, countEmails);
      RepeatedCount(dto.emails, dto.items[i].email);
      RepeatedCount(dto.stakeholderIds, Key(dto.items[i].stakeholderId));
      items := items + [item];
    }
    r := dto.(items := items, hasErrors := dto.hasErrors || AnyStakeholderErrors(items));
  }
}
