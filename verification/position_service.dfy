/** Applying a validated position file (`position.service.ts`): inserts,
    then name updates, then soft deletes, each phase against the store the
    previous one left. */
module PositionService {
  import opened Wrappers
  import opened Collections
  import opened Text
  import opened Store
  import opened UploadDto
  import PositionValidation
  import FileValidation

  /** Row `row`'s code finds position `i`
      (`findOne({ projectId, externalId: parseInt(code) })`). */
  predicate Finds(db: Db, projectId: string, row: PositionDto, i: Id) {
    PositionByCode(db, projectId, ParseInt(row.code)) == Some(i)
  }

  // ---------------------------------------------------------------------
  // inserts

  /** One new position per row: external id `parseInt(code)`, the row's
      name, the project. */
  function NewPositions(projectId: string, rows: seq<PositionDto>): (r: seq<Position>)
    requires CodesNumeric(rows)
    ensures |r| == |rows|
    ensures forall k :: 0 <= k < |rows| ==> (&& r[k].projectId == projectId
      && Some(r[k].externalId) == ParseInt(rows[k].code) && r[k].name == rows[k].name && !r[k].deleted)
  {
    seq(|rows|, k requires 0 <= k < |rows| => Position(projectId, rows[k].name, ParseInt(rows[k].code).value, false))
  }

  /** `handleInserts`: an empty bucket writes nothing; a NaN code makes the
      single save fail; otherwise every row becomes a new position after
      the existing ones, and no other table changes. */
  function InsertPositions(db: Db, projectId: string, rows: seq<PositionDto>): (r: Option<Db>)
    ensures |rows| == 0 ==> r == Some(db)
    ensures r.None? <==> !CodesNumeric(rows)
    ensures r.Some? ==> (&& r.value == db.(positions := r.value.positions)
      && |r.value.positions| == |db.positions| + |rows|
      && r.value.positions[..|db.positions|] == db.positions)
    ensures r.Some? ==> forall k :: 0 <= k < |rows| ==> (&& r.value.positions[|db.positions| + k].projectId == projectId
      && Some(r.value.positions[|db.positions| + k].externalId) == ParseInt(rows[k].code)
      && r.value.positions[|db.positions| + k].name == rows[k].name
      && !r.value.positions[|db.positions| + k].deleted)
  {
    if |rows| == 0 then Some(db)
    else if !CodesNumeric(rows) then None
    else
      var added := NewPositions(projectId, rows);
      assert (db.positions + added)[..|db.positions|] == db.positions;
      Some(db.(positions := db.positions + added))
  }

  /** After an insert, every row's code names a live position of the
      project, so uploading the same Add row again is refused with "already
      exists". */
  lemma {:induction false} InsertMakesKnown(db: Db, projectId: string, rows: seq<PositionDto>, k: nat)
    requires k < |rows| && InsertPositions(db, projectId, rows).Some?
    ensures PositionValidation.Known(InsertPositions(db, projectId, rows).value, projectId, rows[k].code)
  {
    var r := InsertPositions(db, projectId, rows).value;
    assert PositionWithCode(r.positions[|db.positions| + k], projectId, ParseInt(rows[k].code).value);
  }

  // ---------------------------------------------------------------------
  // updates

  /** One row of `handleUpdates`: the position its code finds gets the
      row's name; a row whose code finds nothing is skipped. */
  function UpdateWrite(db: Db, projectId: string, row: PositionDto): (w: Option<Write<Position>>)
    ensures w.Some? <==> PositionExists(db, projectId, ParseInt(row.code))
    ensures w.Some? ==> (Finds(db, projectId, row, w.value.id) && w.value.id < |db.positions|
      && w.value.value == db.positions[w.value.id].(name := row.name))
  {
    var found := PositionByCode(db, projectId, ParseInt(row.code));
    if found.None? then None
    else Some(Write(found.value, db.positions[found.value].(name := row.name)))
  }

  function UpdateWrites(db: Db, projectId: string, rows: seq<PositionDto>): (ws: seq<Option<Write<Position>>>)
    ensures |ws| == |rows| && forall k :: 0 <= k < |rows| ==> ws[k] == UpdateWrite(db, projectId, rows[k])
    ensures forall k :: 0 <= k < |ws| && ws[k].Some? ==> ws[k].value.id < |db.positions|
  {
    seq(|rows|, k requires 0 <= k < |rows| => UpdateWrite(db, projectId, rows[k]))
  }

  /** Row `k` is the last row of the phase whose code finds position `i`,
      and `p` is position `i` renamed to row `k`'s name. */
  predicate RowWins(db: Db, projectId: string, rows: seq<PositionDto>, i: Id, k: int, p: Position) {
    && i < |db.positions|
    && 0 <= k < |rows|
    && Finds(db, projectId, rows[k], i)
    && (forall k' :: k < k' < |rows| ==> !Finds(db, projectId, rows[k'], i))
    && p == db.positions[i].(name := rows[k].name)
  }

  /** Some row of the phase finds position `i`. */
  predicate Touched(db: Db, projectId: string, rows: seq<PositionDto>, i: Id) {
    exists k :: 0 <= k < |rows| && Finds(db, projectId, rows[k], i)
  }

  /** Row `k`'s write aims at position `i` exactly when its code finds
      `i`. */
  lemma WritesAimAtFound(db: Db, projectId: string, rows: seq<PositionDto>, i: Id)
    ensures var ws := UpdateWrites(db, projectId, rows);
      forall k :: 0 <= k < |rows| ==> ((ws[k].Some? && ws[k].value.id == i) <==> Finds(db, projectId, rows[k], i))
  {
  }

  lemma {:induction false} UntouchedNoWrite(db: Db, projectId: string, rows: seq<PositionDto>, i: Id)
    ensures LastWrite(UpdateWrites(db, projectId, rows), i).None? <==> !Touched(db, projectId, rows, i)
  {
    WritesAimAtFound(db, projectId, rows, i);
  }

  lemma {:induction false} LastWriteWins(db: Db, projectId: string, rows: seq<PositionDto>, i: Id)
    requires i < |db.positions| && LastWrite(UpdateWrites(db, projectId, rows), i).Some?
    ensures exists k :: RowWins(db, projectId, rows, i, k, LastWrite(UpdateWrites(db, projectId, rows), i).value)
  {
    var ws := UpdateWrites(db, projectId, rows);
    var w := LastWrite(ws, i).value;
    var k :| 0 <= k < |ws| && ws[k] == Some(Write(i, w))
             && (forall k' :: k < k' < |ws| ==> ws[k'].None? || ws[k'].value.id != i);
    WriterWins(db, projectId, rows, i, k, w);
  }

  /** The row behind the last write aimed at `i` is the last row that
      finds `i`, and the write carries its contents. */
  lemma {:induction false} WriterWins(db: Db, projectId: string, rows: seq<PositionDto>, i: Id, k: nat, d: Position)
    requires i < |db.positions| && k < |rows|
    requires UpdateWrites(db, projectId, rows)[k] == Some(Write(i, d))
    requires forall k' :: k < k' < |rows| ==> (UpdateWrites(db, projectId, rows)[k'].None?
      || UpdateWrites(db, projectId, rows)[k'].value.id != i)
    ensures RowWins(db, projectId, rows, i, k, d)
  {
    WritesAimAtFound(db, projectId, rows, i);
  }

  /** `handleUpdates`: every row whose code finds a live position of the
      project renames it, and nothing else about it changes; when several
      rows find the same position the last one wins; positions no row
      finds stay as they were, and no other table changes. */
  function UpdatePositions(db: Db, projectId: string, rows: seq<PositionDto>): (r: Db)
    ensures r == db.(positions := r.positions) && |r.positions| == |db.positions|
    ensures forall i {:trigger r.positions[i]} :: 0 <= i < |db.positions| && Touched(db, projectId, rows, i) ==>
      exists k :: RowWins(db, projectId, rows, i, k, r.positions[i])
    ensures forall i {:trigger r.positions[i]} :: 0 <= i < |db.positions| && !Touched(db, projectId, rows, i) ==>
      r.positions[i] == db.positions[i]
  {
    var ps := ApplyWrites(db.positions, UpdateWrites(db, projectId, rows));
    forall i | 0 <= i < |db.positions|
      ensures Touched(db, projectId, rows, i) ==> exists k :: RowWins(db, projectId, rows, i, k, ps[i])
      ensures !Touched(db, projectId, rows, i) ==> ps[i] == db.positions[i]
    {
      UntouchedNoWrite(db, projectId, rows, i);
      if LastWrite(UpdateWrites(db, projectId, rows), i).Some? {
        LastWriteWins(db, projectId, rows, i);
      }
    }
    db.(positions := ps)
  }

  /** A position keeps its code and liveness under an update, so the codes
      of the project are the same before and after. */
  lemma {:induction false} UpdateKeepsCodes(db: Db, projectId: string, rows: seq<PositionDto>, i: Id)
    requires i < |db.positions|
    ensures var r := UpdatePositions(db, projectId, rows);
      && r.positions[i].externalId == db.positions[i].externalId
      && r.positions[i].deleted == db.positions[i].deleted
      && r.positions[i].projectId == db.positions[i].projectId
  {
    var r := UpdatePositions(db, projectId, rows);
    if Touched(db, projectId, rows, i) {
      var k :| RowWins(db, projectId, rows, i, k, r.positions[i]);
    }
  }

  // ---------------------------------------------------------------------
  // deletes

  /** `handleDeletions`: `softRemove` of the positions the rows' codes
      find; missing codes are skipped; no other table changes (the
      position's assignments in particular). */
  function DeletePositions(db: Db, projectId: string, rows: seq<PositionDto>): (r: Db)
    ensures r == db.(positions := r.positions) && |r.positions| == |db.positions|
    ensures forall i :: 0 <= i < |db.positions| ==>
      r.positions[i] == db.positions[i].(deleted := db.positions[i].deleted || Touched(db, projectId, rows, i))
  {
    db.(positions := seq(|db.positions|, i requires 0 <= i < |db.positions| =>
      db.positions[i].(deleted := db.positions[i].deleted || Touched(db, projectId, rows, i))))
  }

  /** Live positions of a project have distinct external ids. */
  predicate UniqueCodes(db: Db, projectId: string) {
    forall a, b :: 0 <= a < b < |db.positions| && !db.positions[a].deleted && !db.positions[b].deleted
      && db.positions[a].projectId == projectId && db.positions[b].projectId == projectId
      ==> db.positions[a].externalId != db.positions[b].externalId
  }

  /** When external ids are unique in the project, a deleted row's code no
      longer names a live position: a second upload of the same Delete row
      is refused with "cannot be found". */
  lemma {:induction false} DeleteRemovesCodes(db: Db, projectId: string, rows: seq<PositionDto>, k: nat)
    requires UniqueCodes(db, projectId) && k < |rows|
    ensures !PositionValidation.Known(DeletePositions(db, projectId, rows), projectId, rows[k].code)
  {
    var r := DeletePositions(db, projectId, rows);
    var code := ParseInt(rows[k].code);
    if code.Some? {
      forall j | 0 <= j < |r.positions| ensures !PositionWithCode(r.positions[j], projectId, code.value) {
        var found := PositionByCode(db, projectId, code);
        if PositionWithCode(db.positions[j], projectId, code.value) {
          assert found.Some? && found.value == j;
          assert Finds(db, projectId, rows[k], j);
        }
      }
    }
  }

  // ---------------------------------------------------------------------
  // the whole upload

  /** The three phases on the buckets of an accepted file: a failed insert
      stops the upload before the other phases; only the position table
      changes. */
  function ApplyPositions(db: Db, projectId: string, items: seq<PositionDto>): (r: Option<Db>)
    ensures r.None? <==> !CodesNumeric(OfAction(items, ADD))
    ensures r.Some? ==> (&& r.value == db.(positions := r.value.positions)
      && |r.value.positions| == |db.positions| + |OfAction(items, ADD)|)
  {
    var inserted := InsertPositions(db, projectId, OfAction(items, ADD));
    if inserted.None? then None
    else Some(DeletePositions(UpdatePositions(inserted.value, projectId, OfAction(items, UPDATE)),
                              projectId, OfAction(items, DELETE)))
  }

  /** An accepted file without Add, Update or Delete rows leaves the store
      as it was. */
  lemma NothingToApply(db: Db, projectId: string, items: seq<PositionDto>)
    requires OfAction(items, ADD) == [] && OfAction(items, UPDATE) == [] && OfAction(items, DELETE) == []
    ensures ApplyPositions(db, projectId, items) == Some(db)
  {
    var u := UpdatePositions(db, projectId, []);
    assert u.positions == db.positions;
    assert DeletePositions(u, projectId, []).positions == db.positions;
  }

  /** `processPositions`: validate; stop with the report of every row when
      some row has errors; otherwise apply the buckets and answer with the
      file name and their sizes. */
  method ProcessPositions(u: Utils, db: Db, projectId: string, dto: PositionFileDto)
    returns (validated: PositionFileDto, outcome: Outcome)
    ensures validated.file == dto.file && |validated.items| == |dto.items|
    ensures validated.hasErrors <==> dto.hasErrors || FileValidation.AnyErrors(validated.items)
    ensures outcome.Rejected? <==> validated.hasErrors
    ensures outcome.Rejected? ==> outcome.report == FileReport(validated.items)
    ensures outcome.Failed? <==> !validated.hasErrors && ApplyPositions(db, projectId, validated.items).None?
    ensures outcome.Applied? ==> (&& Some(outcome.db) == ApplyPositions(db, projectId, validated.items)
      && outcome.response == UploadResponse(dto.file, |OfAction(validated.items, ADD)|,
           |OfAction(validated.items, UPDATE)|, |OfAction(validated.items, DELETE)|))
  {
    var checked;
    checked, validated := PositionValidation.ValidatePosition(u, db, projectId, dto);
    if validated.hasErrors {
      outcome := Rejected(FileReport(validated.items));
      return;
    }
    var applied := ApplyPositions(db, projectId, validated.items);
    if applied.None? {
      outcome := Failed;
    } else {
      outcome := Applied(UploadResponse(dto.file, |OfAction(validated.items, ADD)|,
        |OfAction(validated.items, UPDATE)|, |OfAction(validated.items, DELETE)|), applied.value);
    }
  }
}
