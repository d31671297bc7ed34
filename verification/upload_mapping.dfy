/** How each upload service turns an uploaded CSV file into its file DTO
    (`*-upload-file.service.ts`): the file precondition, the header check,
    the record-to-row mapping with its defaults, the `splitDepartments`
    mini-parser of the stakeholder department column, row numbering and the
    collected columns, and the "Empty file" rejection. Records arrive
    already decoded: record `k` is data line `k + 1` (the header line is
    skipped), a cell the line does not have is `None`. */
module UploadMapping {
  import opened Wrappers
  import opened Text
  import opened UploadDto

  /** One decoded data line of the CSV file. */
  type Record = seq<Option<string>>

  /** `csvRecord[i]`. */
  function Cell(rec: Record, i: nat): Option<string> {
    if i < |rec| then rec[i] else None
  }

  /** `csvRecord[i] || ''`: a missing cell reads as the empty string. */
  function CellOr(rec: Record, i: nat): string {
    if Cell(rec, i).Some? then Cell(rec, i).value else ""
  }

  /** The multer file: whether a buffer came with it, its mimetype and
      size, whether its first line is the header the service expects, and
      its data records. */
  datatype UploadedFile = UploadedFile(
    originalname: string,
    hasBuffer: bool,
    mimetype: string,
    size: int,
    headerOk: bool,
    records: seq<Record>)

  /** The BadRequest reasons: "No valid file provided", the header
      mismatch, a department cell `splitDepartments` cannot read (the
      source throws a TypeError there), and "Empty file". */
  datatype UploadError = NoValidFile | HeaderMismatch | MalformedDepartments | EmptyFile

  /** The precondition every upload service checks first. */
  predicate Acceptable(file: Option<UploadedFile>) {
    file.Some? && file.value.hasBuffer && file.value.mimetype == "text/csv" && file.value.size != 0
  }

  /** A file that passes the precondition and the header check. */
  predicate Admitted(file: Option<UploadedFile>) {
    Acceptable(file) && file.value.headerOk
  }

  /** The rejections every service shares, in the order they are made. */
  function Admit(file: Option<UploadedFile>): (r: Option<UploadError>)
    ensures r.None? <==> Admitted(file)
  {
    if !Acceptable(file) then Some(NoValidFile)
    else if !file.value.headerOk then Some(HeaderMismatch)
    else None
  }

  /** The shared shape of a parsed department or position file: rows
      numbered from 1 in record order, no errors yet, and one `names` and
      one `codes` entry per row, in row order, empty values included. */
  predicate Collected<X>(dto: FileDto<X>) {
    && |dto.names| == |dto.items| && |dto.codes| == |dto.items| && !dto.hasErrors
    && forall k :: 0 <= k < |dto.items| ==>
      (dto.items[k].row == k + 1 && dto.items[k].errors == []
       && dto.names[k] == dto.items[k].name && dto.codes[k] == dto.items[k].code)
  }

  /** The name and code columns of the rows. */
  function Names<X>(items: seq<FileItem<X>>): (r: seq<string>)
    ensures |r| == |items| && forall k :: 0 <= k < |items| ==> r[k] == items[k].name
  {
    seq(|items|, k requires 0 <= k < |items| => items[k].name)
  }

  function Codes<X>(items: seq<FileItem<X>>): (r: seq<string>)
    ensures |r| == |items| && forall k :: 0 <= k < |items| ==> r[k] == items[k].code
  {
    seq(|items|, k requires 0 <= k < |items| => items[k].code)
  }

  // ---------------------------------------------------------------------
  // department files

  /** The department columns without a default: code and parent. */
  predicate DepartmentCells(rec: Record) {
    Cell(rec, 0).Some? && Cell(rec, 2).Some?
  }

  /** Columns code, name, parent, manager, action: an empty parent becomes
      null; a missing name, manager or action becomes "". */
  function DepartmentRow(rec: Record, row: int): (d: DepartmentDto)
    requires DepartmentCells(rec)
    ensures d.row == row && d.errors == [] && d.code == Cell(rec, 0).value
    ensures d.ext.parent.None? <==> Cell(rec, 2).value == ""
    ensures d.ext.parent.Some? ==> d.ext.parent.value == Cell(rec, 2).value
    ensures (Cell(rec, 1).None? ==> d.name == "") && (Cell(rec, 1).Some? ==> d.name == Cell(rec, 1).value)
    ensures (Cell(rec, 3).None? ==> d.ext.manager == "") && (Cell(rec, 3).Some? ==> d.ext.manager == Cell(rec, 3).value)
    ensures (Cell(rec, 4).None? ==> d.action == "") && (Cell(rec, 4).Some? ==> d.action == Cell(rec, 4).value)
  {
    var parent := Cell(rec, 2).value;
    FileItem(row, CellOr(rec, 1), Cell(rec, 0).value, CellOr(rec, 4), [],
      DepartmentExt(if parent == "" then None else Some(parent), CellOr(rec, 3)))
  }

  /** The record a department row is written as. */
  function DepartmentRecord(d: DepartmentDto): Record {
    [Some(d.code), Some(d.name), Some(d.ext.parent.GetOr("")), Some(d.ext.manager), Some(d.action)]
  }

  /** The mapping loses nothing: a fresh row whose parent is not the
      empty string comes back from its record, and a full record comes back
      from its row. */
  lemma DepartmentRowRoundTrip(d: DepartmentDto, rec: Record)
    requires d.errors == [] && d.ext.parent != Some("")
    requires |rec| == 5 && forall i :: 0 <= i < 5 ==> rec[i].Some?
    ensures DepartmentRow(DepartmentRecord(d), d.row) == d
    ensures DepartmentRecord(DepartmentRow(rec, 1)) == rec
  {
  }

  /** `parseCsvFile` of the department service, after the precondition
      and the header check. */
  function ParseDepartments(file: Option<UploadedFile>): (r: Result<DepartmentFileDto, UploadError>)
    requires file.Some? ==> forall k :: 0 <= k < |file.value.records| ==> DepartmentCells(file.value.records[k])
    ensures r.Failure? && r.error != EmptyFile <==> !Admitted(file)
    ensures r.Failure? ==> Some(r.error) == Admit(file) || r.error == EmptyFile
    ensures r == Failure(EmptyFile) <==> (Admitted(file) && |file.value.records| == 0)
    ensures r.Success? ==> (&& Collected(r.value) && r.value.file == file.value.originalname
      && |r.value.items| == |file.value.records|
      && forall k :: 0 <= k < |r.value.items| ==> r.value.items[k] == DepartmentRow(file.value.records[k], k + 1))
  {
    if Admit(file).Some? then Failure(Admit(file).value)
    else
      var recs := file.value.records;
      if |recs| == 0 then Failure(EmptyFile)
      else
        var items := seq(|recs|, k requires 0 <= k < |recs| => DepartmentRow(recs[k], k + 1));
        Success(FileDto(file.value.originalname, Names(items), Codes(items), items, false))
  }

  // ---------------------------------------------------------------------
  // position files

  /** The position column without a default: code. */
  predicate PositionCells(rec: Record) {
    Cell(rec, 1).Some?
  }

  /** Columns name, code, action: a missing name or action becomes "". */
  function PositionRow(rec: Record, row: int): (p: PositionDto)
    requires PositionCells(rec)
    ensures p.row == row && p.errors == [] && p.code == Cell(rec, 1).value
    ensures (Cell(rec, 0).None? ==> p.name == "") && (Cell(rec, 0).Some? ==> p.name == Cell(rec, 0).value)
    ensures (Cell(rec, 2).None? ==> p.action == "") && (Cell(rec, 2).Some? ==> p.action == Cell(rec, 2).value)
  {
    FileItem(row, CellOr(rec, 0), Cell(rec, 1).value, CellOr(rec, 2), [], NoExt)
  }

  function PositionRecord(p: PositionDto): Record {
    [Some(p.name), Some(p.code), Some(p.action)]
  }

  /** The position mapping loses nothing, in both directions. */
  lemma PositionRowRoundTrip(p: PositionDto, rec: Record)
    requires p.errors == []
    requires |rec| == 3 && forall i :: 0 <= i < 3 ==> rec[i].Some?
    ensures PositionRow(PositionRecord(p), p.row) == p
    ensures PositionRecord(PositionRow(rec, 1)) == rec
  {
    var q := PositionRow(PositionRecord(p), p.row);
    assert q.name == p.name;
    assert q.code == p.code;
    assert q.action == p.action;
    assert q.ext == p.ext;
  }

  /** `parseCsvFile` of the position service. */
  function ParsePositions(file: Option<UploadedFile>): (r: Result<PositionFileDto, UploadError>)
    requires file.Some? ==> forall k :: 0 <= k < |file.value.records| ==> PositionCells(file.value.records[k])
    ensures r.Failure? && r.error != EmptyFile <==> !Admitted(file)
    ensures r.Failure? ==> Some(r.error) == Admit(file) || r.error == EmptyFile
    ensures r == Failure(EmptyFile) <==> (Admitted(file) && |file.value.records| == 0)
    ensures r.Success? ==> (&& Collected(r.value) && r.value.file == file.value.originalname
      && |r.value.items| == |file.value.records|
      && forall k :: 0 <= k < |r.value.items| ==> r.value.items[k] == PositionRow(file.value.records[k], k + 1))
  {
    if Admit(file).Some? then Failure(Admit(file).value)
    else
      var recs := file.value.records;
      if |recs| == 0 then Failure(EmptyFile)
      else
        var items := seq(|recs|, k requires 0 <= k < |recs| => PositionRow(recs[k], k + 1));
        Success(FileDto(file.value.originalname, Names(items), Codes(items), items, false))
  }

  // ---------------------------------------------------------------------
  // influencer files

  /** The influencer columns without a default: influence, excluded,
      action. */
  predicate InfluencerCells(rec: Record) {
    Cell(rec, 1).Some? && Cell(rec, 2).Some? && Cell(rec, 3).Some?
  }

  /** Columns stakeholder code, influence, excluded, action: a missing
      stakeholder code becomes "". */
  function InfluencerRow(rec: Record, row: int): (x: InfluencerItem)
    requires InfluencerCells(rec)
    ensures x.row == row && x.errors == [] && x.stakeholderId.None?
    ensures (Cell(rec, 0).None? ==> x.stakeholderCode == "") && (Cell(rec, 0).Some? ==> x.stakeholderCode == Cell(rec, 0).value)
    ensures x.influence == Cell(rec, 1).value && x.excluded == Cell(rec, 2).value && x.action == Cell(rec, 3).value
  {
    InfluencerItem(row, CellOr(rec, 0), Cell(rec, 1).value, Cell(rec, 2).value, Cell(rec, 3).value, None, [])
  }

  function InfluencerRecord(x: InfluencerItem): Record {
    [Some(x.stakeholderCode), Some(x.influence), Some(x.excluded), Some(x.action)]
  }

  /** The influencer mapping loses nothing, in both directions. */
  lemma InfluencerRowRoundTrip(x: InfluencerItem, rec: Record)
    requires x.errors == [] && x.stakeholderId.None?
    requires |rec| == 4 && forall i :: 0 <= i < 4 ==> rec[i].Some?
    ensures InfluencerRow(InfluencerRecord(x), x.row) == x
    ensures InfluencerRecord(InfluencerRow(rec, 1)) == rec
  {
  }

  /** `parseCsvFile` of the influencer service: `stakeholderIds` holds
      every row's stakeholder code, one per row, in order. */
  function ParseInfluencers(file: Option<UploadedFile>): (r: Result<InfluencerDto, UploadError>)
    requires file.Some? ==> forall k :: 0 <= k < |file.value.records| ==> InfluencerCells(file.value.records[k])
    ensures r.Failure? && r.error != EmptyFile <==> !Admitted(file)
    ensures r.Failure? ==> Some(r.error) == Admit(file) || r.error == EmptyFile
    ensures r == Failure(EmptyFile) <==> (Admitted(file) && |file.value.records| == 0)
    ensures r.Success? ==> (&& r.value.file == file.value.originalname && !r.value.hasErrors
      && |r.value.items| == |file.value.records| && |r.value.stakeholderIds| == |r.value.items|
      && forall k :: 0 <= k < |r.value.items| ==>
        (r.value.items[k] == InfluencerRow(file.value.records[k], k + 1)
         && r.value.stakeholderIds[k] == r.value.items[k].stakeholderCode))
  {
    if Admit(file).Some? then Failure(Admit(file).value)
    else
      var recs := file.value.records;
      if |recs| == 0 then Failure(EmptyFile)
      else
        var items := seq(|recs|, k requires 0 <= k < |recs| => InfluencerRow(recs[k], k + 1));
        var ids := seq(|items|, k requires 0 <= k < |items| => items[k].stakeholderCode);
        Success(InfluencerDto(file.value.originalname, ids, items, false))
  }

  // ---------------------------------------------------------------------
  // splitDepartments

  /** One `department:position-position` segment: the department is the
      text before the first ':', the positions the second ':'-field split
      on '-' (further fields are ignored). A segment without ':' has no
      second field, and the source's `split` on it throws. */
  function Entry(segment: string): (e: Option<DepartmentAndPosition>)
    ensures e.None? <==> ':' !in segment
  {
    var fields := Split(segment, ':');
    if |fields| < 2 then
      JoinSplit(segment, ':');
      None
    else
      SplitHasSep(segment, ':');
      Some(DepartmentAndPosition(fields[0], Split(fields[1], '-')))
  }

  /** A string that splits into two or more pieces holds the separator. */
  lemma {:induction false} SplitHasSep(s: string, sep: char)
    requires |Split(s, sep)| >= 2
    ensures sep in s
    decreases |s|
  {
    if s[0] != sep {
      SplitHasSep(s[1..], sep);
    }
  }

  function Entries(segments: seq<string>): (r: Option<seq<DepartmentAndPosition>>)
    ensures r.None? <==> exists k :: 0 <= k < |segments| && Entry(segments[k]).None?
    ensures r.Some? ==> (|r.value| == |segments|
      && forall k :: 0 <= k < |segments| ==> Entry(segments[k]) == Some(r.value[k]))
  {
    if |segments| == 0 then Some([])
    else
      var head := Entry(segments[0]);
      var rest := Entries(segments[1..]);
      if head.None? then None
      else if rest.None? then
        var k :| 0 <= k < |segments[1..]| && Entry(segments[1..][k]).None?;
        assert Entry(segments[k + 1]).None?;
        None
      else
        var r := [head.value] + rest.value;
        assert forall k :: 1 <= k < |segments| ==> segments[k] == segments[1..][k - 1];
        Some(r)
  }

  /** `splitDepartments`: the empty cell gives no entries; otherwise one
      entry per '|'-segment, in order, or a failure when a segment has no
      ':'. */
  function SplitDepartments(input: string): (r: Option<seq<DepartmentAndPosition>>)
    ensures input == "" ==> r == Some([])
    ensures (r.Some? && input != "") ==> (|r.value| == |Split(input, '|')|
      && forall k :: 0 <= k < |r.value| ==> Entry(Split(input, '|')[k]) == Some(r.value[k]))
  {
    if input == "" then Some([]) else Entries(Split(input, '|'))
  }

  /** `splitDepartments` fails exactly when the cell is not empty and one
      of its segments has no ':'. */
  lemma SplitDepartmentsFails(input: string)
    ensures SplitDepartments(input).None? <==> (input != "" && exists k :: 0 <= k < |Split(input, '|')| && ':' !in Split(input, '|')[k])
  {
    if input != "" {
      var segs := Split(input, '|');
      if SplitDepartments(input).None? {
        var k :| 0 <= k < |segs| && Entry(segs[k]).None?;
        assert 0 <= k < |Split(input, '|')| && ':' !in Split(input, '|')[k];
      } else {
        forall k | 0 <= k < |segs|
          ensures ':' in segs[k]
        {
          assert Entry(segs[k]).Some?;
        }
      }
    }
  }

  /** An entry the department column can express: the department and the
      positions are free of the three separators and there is at least one
      position. */
  predicate WellFormedEntry(e: DepartmentAndPosition) {
    && |e.positions| >= 1 && '|' !in e.department && ':' !in e.department
    && forall j :: 0 <= j < |e.positions| ==> ('|' !in e.positions[j] && ':' !in e.positions[j] && '-' !in e.positions[j])
  }

  /** The cell text of one entry, and of a list of entries. */
  function PositionsCell(e: DepartmentAndPosition): string {
    if |e.positions| == 0 then "" else Join(e.positions, '-')
  }

  function Segment(e: DepartmentAndPosition): string {
    Join([e.department, PositionsCell(e)], ':')
  }

  function Segments(entries: seq<DepartmentAndPosition>): (r: seq<string>)
    ensures |r| == |entries| && forall k :: 0 <= k < |entries| ==> r[k] == Segment(entries[k])
  {
    seq(|entries|, k requires 0 <= k < |entries| => Segment(entries[k]))
  }

  function FormatDepartments(entries: seq<DepartmentAndPosition>): string {
    if |entries| == 0 then "" else Join(Segments(entries), '|')
  }

  /** A character that no piece holds and that is not the separator is
      not in the join. */
  lemma {:induction false} JoinAvoids(parts: seq<string>, sep: char, c: char)
    requires |parts| >= 1 && c != sep
    requires forall i :: 0 <= i < |parts| ==> c !in parts[i]
    ensures c !in Join(parts, sep)
    decreases |parts|
  {
    if |parts| > 1 {
      JoinAvoids(parts[1..], sep, c);
    }
  }

  /** A character the input does not hold is in none of its pieces. */
  lemma {:induction false} SplitAvoids(s: string, sep: char, c: char)
    requires c !in s
    ensures forall i :: 0 <= i < |Split(s, sep)| ==> c !in Split(s, sep)[i]
    decreases |s|
  {
    if |s| > 0 {
      SplitAvoids(s[1..], sep, c);
      var rest := Split(s[1..], sep);
      if s[0] != sep {
        assert Split(s, sep) == [[s[0]] + rest[0]] + rest[1..];
      }
    }
  }

  /** A well-formed entry's segment reads back as the entry and holds no
      '|'. */
  lemma SegmentEntry(e: DepartmentAndPosition)
    requires WellFormedEntry(e)
    ensures Entry(Segment(e)) == Some(e) && '|' !in Segment(e)
  {
    JoinAvoids(e.positions, '-', ':');
    JoinAvoids(e.positions, '-', '|');
    JoinAvoids([e.department, PositionsCell(e)], ':', '|');
    SplitJoin([e.department, PositionsCell(e)], ':');
    SplitJoin(e.positions, '-');
  }

  /** Segments that read back one by one read back together. */
  lemma {:induction false} EntriesOf(segs: seq<string>, entries: seq<DepartmentAndPosition>)
    requires |segs| == |entries|
    requires forall k :: 0 <= k < |segs| ==> Entry(segs[k]) == Some(entries[k])
    ensures Entries(segs) == Some(entries)
  {
    var r := Entries(segs);
    assert forall k :: 0 <= k < |segs| ==> Entry(segs[k]).Some?;
    assert !exists k :: 0 <= k < |segs| && Entry(segs[k]).None?;
    assert r.Some?;
    assert |r.value| == |entries|;
    assert forall k :: 0 <= k < |entries| ==> r.value[k] == entries[k];
    assert r.value == entries;
  }

  /** `splitDepartments` reads back every list of well-formed entries
      written as a department cell. */
  lemma SplitFormat(entries: seq<DepartmentAndPosition>)
    requires forall k :: 0 <= k < |entries| ==> WellFormedEntry(entries[k])
    ensures SplitDepartments(FormatDepartments(entries)) == Some(entries)
  {
    if |entries| > 0 {
      var segs := Segments(entries);
      forall k | 0 <= k < |segs|
        ensures '|' !in segs[k] && Entry(segs[k]) == Some(entries[k])
      {
        SegmentEntry(entries[k]);
      }
      SplitJoin(segs, '|');
      assert ':' in segs[0];
      assert FormatDepartments(entries) != "";
      EntriesOf(segs, entries);
    }
  }

  /** Every entry `splitDepartments` produces is well formed. */
  lemma SplitWellFormed(input: string)
    requires SplitDepartments(input).Some?
    ensures forall k :: 0 <= k < |SplitDepartments(input).value| ==> WellFormedEntry(SplitDepartments(input).value[k])
  {
    if input != "" {
      var segs := Split(input, '|');
      var es := SplitDepartments(input).value;
      forall k | 0 <= k < |es|
        ensures WellFormedEntry(es[k])
      {
        var fields := Split(segs[k], ':');
        SplitAvoids(segs[k], ':', '|');
        SplitAvoids(fields[1], '-', '|');
        SplitAvoids(fields[1], '-', ':');
      }
    }
  }

  // ---------------------------------------------------------------------
  // stakeholder files

  /** The stakeholder columns without a default: all but the action. */
  predicate StakeholderCells(rec: Record) {
    && Cell(rec, 0).Some? && Cell(rec, 1).Some? && Cell(rec, 2).Some?
    && Cell(rec, 3).Some? && Cell(rec, 4).Some? && Cell(rec, 5).Some?
  }

  /** `csvRecord[0] !== 'null' ? csvRecord[0] : null`. */
  function IdCell(cell: string): (r: Option<string>)
    ensures r.None? <==> cell == "null"
    ensures r.Some? ==> r.value == cell
  {
    if cell == "null" then None else Some(cell)
  }

  /** Columns stakeholder id, name, email, departments, manager, project
      role, action: a missing action becomes "". */
  function StakeholderRow(rec: Record, row: int, entries: seq<DepartmentAndPosition>): (s: StakeholderDto)
    requires StakeholderCells(rec)
    ensures s.row == row && s.errors == [] && s.projectRoleId.None? && s.departmentsAndPositions == entries
    ensures s.stakeholderId == IdCell(Cell(rec, 0).value)
    ensures s.name == Cell(rec, 1).value && s.email == Cell(rec, 2).value
    ensures s.manager == Cell(rec, 4).value && s.projectRole == Cell(rec, 5).value
    ensures (Cell(rec, 6).None? ==> s.action == "") && (Cell(rec, 6).Some? ==> s.action == Cell(rec, 6).value)
  {
    StakeholderDto(row, Cell(rec, 1).value, Cell(rec, 2).value, IdCell(Cell(rec, 0).value), entries,
      Cell(rec, 4).value, Cell(rec, 5).value, None, CellOr(rec, 6), [])
  }

  /** `if (item.stakeholderId) stakeholderIds.push(...)`: the non-null,
      non-empty ids, in row order. */
  function ListedIds(items: seq<StakeholderDto>): (r: seq<string>)
    ensures forall v :: v in r <==> (v != "" && exists k :: 0 <= k < |items| && items[k].stakeholderId == Some(v))
  {
    if |items| == 0 then []
    else
      var rest := ListedIds(items[1..]);
      assert forall k :: 1 <= k < |items| ==> items[k] == items[1..][k - 1];
      var id := items[0].stakeholderId;
      if id.Some? && id.value != "" then [id.value] + rest else rest
  }

  /** The id cell of every row, in row order, null included. */
  function IdCells(items: seq<StakeholderDto>): (r: seq<Option<string>>)
    ensures |r| == |items| && forall k :: 0 <= k < |items| ==> r[k] == items[k].stakeholderId
  {
    seq(|items|, k requires 0 <= k < |items| => items[k].stakeholderId)
  }

  /** A listed id occurs in `stakeholderIds` as often as rows carry it, so
      the duplicate count of the column is the number of rows with that
      id. */
  lemma {:induction false} ListedIdsCount(items: seq<StakeholderDto>)
    ensures forall v :: v != "" ==> multiset(ListedIds(items))[v] == multiset(IdCells(items))[Some(v)]
  {
    if |items| > 0 {
      ListedIdsCount(items[1..]);
      assert IdCells(items) == [items[0].stakeholderId] + IdCells(items[1..]);
    }
  }

  /** The department column of a record. */
  function DepartmentCell(rec: Record): string
    requires StakeholderCells(rec)
  {
    Cell(rec, 3).value
  }

  /** The department cell of every record reads. */
  predicate CellsReadable(recs: seq<Record>)
    requires forall k :: 0 <= k < |recs| ==> StakeholderCells(recs[k])
  {
    forall k :: 0 <= k < |recs| ==> SplitDepartments(DepartmentCell(recs[k])).Some?
  }

  /** `parseCsvFile` of the stakeholder service. */
  function ParseStakeholders(file: Option<UploadedFile>): (r: Result<StakeholderFileDto, UploadError>)
    requires file.Some? ==> forall k :: 0 <= k < |file.value.records| ==> StakeholderCells(file.value.records[k])
    ensures r.Failure? && r.error in {NoValidFile, HeaderMismatch} <==> !Admitted(file)
    ensures r.Failure? ==> Some(r.error) == Admit(file) || r.error in {MalformedDepartments, EmptyFile}
    ensures r == Failure(MalformedDepartments) <==> (Admitted(file) && !CellsReadable(file.value.records))
    ensures r == Failure(EmptyFile) <==> (Admitted(file) && |file.value.records| == 0)
    ensures r.Success? ==> (&& r.value.file == file.value.originalname && !r.value.hasErrors
      && |r.value.items| == |file.value.records| && |r.value.emails| == |r.value.items|
      && r.value.stakeholderIds == ListedIds(r.value.items)
      && forall k :: 0 <= k < |r.value.items| ==>
        (r.value.items[k] == StakeholderRow(file.value.records[k], k + 1, SplitDepartments(DepartmentCell(file.value.records[k])).value)
         && r.value.emails[k] == r.value.items[k].email))
  {
    if Admit(file).Some? then Failure(Admit(file).value)
    else
      var recs := file.value.records;
      if !CellsReadable(recs) then Failure(MalformedDepartments)
      else if |recs| == 0 then Failure(EmptyFile)
      else
        var items := seq(|recs|, k requires 0 <= k < |recs| =>
          StakeholderRow(recs[k], k + 1, SplitDepartments(DepartmentCell(recs[k])).value));
        var emails := seq(|items|, k requires 0 <= k < |items| => items[k].email);
        Success(StakeholderFileDto(file.value.originalname, emails, ListedIds(items), items, false))
  }

  /** A literal "null" id cell never reaches the `stakeholderIds` column,
      nor does an empty one. */
  lemma NullIdsNotListed(file: Option<UploadedFile>)
    requires file.Some? ==> forall k :: 0 <= k < |file.value.records| ==> StakeholderCells(file.value.records[k])
    requires ParseStakeholders(file).Success?
    ensures "null" !in ParseStakeholders(file).value.stakeholderIds
    ensures "" !in ParseStakeholders(file).value.stakeholderIds
  {
  }
}
