/** The sprint rules of `sprint.service.ts`: creation and edition refuse a
    start after the end and a code another live sprint of the project
    already uses; removal is a soft delete; the recommended sprint is the
    project's live sprint with the greatest code. */
module SprintService {
  import opened Wrappers
  import opened Store
  import Text

  /** sprint.dto.ts. The validation pipe checks the dates with
      `@IsDateString` but does not transform the body, so the service
      receives them as strings. */
  datatype SprintDto = SprintDto(name: string, code: int, startDate: string, endDate: string)

  /** `startDate > endDate` on the two strings: character order, not the
      order of the instants they denote. */
  predicate StartsAfterEnd(dto: SprintDto) {
    Text.StrLess(dto.endDate, dto.startDate)
  }

  /** BadRequest, Conflict and NotFound of the service. */
  datatype SprintError = BadDates | CodeTaken | SprintNotFound

  // ---------------------------------------------------------------------
  // lookups

  predicate LiveWithCode(s: Sprint, projectId: string, code: int) {
    !s.deleted && s.projectId == projectId && s.code == code
  }

  /** `findOne({ where: { code, projectId } })`. */
  function SprintByCode(ss: seq<Sprint>, projectId: string, code: int): (r: Option<Id>)
    ensures r.Some? ==> r.value < |ss| && LiveWithCode(ss[r.value], projectId, code)
    ensures r.Some? ==> forall j :: 0 <= j < r.value ==> !LiveWithCode(ss[j], projectId, code)
    ensures r.None? <==> forall j :: 0 <= j < |ss| ==> !LiveWithCode(ss[j], projectId, code)
  {
    if |ss| == 0 then None
    else if LiveWithCode(ss[0], projectId, code) then Some(0)
    else
      var rest := SprintByCode(ss[1..], projectId, code);
      if rest.None? then None else Some(rest.value + 1)
  }

  /** `findSprintById` / `findOneBy({ id })`: soft-deleted sprints are not
      found. */
  predicate Found(db: Db, id: Id) {
    id < |db.sprints| && !db.sprints[id].deleted
  }

  /** Live sprints of one project never share a code. */
  predicate CodesUnique(db: Db) {
    forall i, j :: (0 <= i < j < |db.sprints| && !db.sprints[i].deleted && !db.sprints[j].deleted
      && db.sprints[i].projectId == db.sprints[j].projectId) ==> db.sprints[i].code != db.sprints[j].code
  }

  // ---------------------------------------------------------------------
  // create

  /** `create`: equal dates are allowed; the new sprint's due date is the
      DTO's end date. Its id is the next row of the table. */
  function Create(db: Db, dto: SprintDto, projectId: string): (r: Result<Db, SprintError>)
    ensures r == Failure(BadDates) <==> StartsAfterEnd(dto)
    ensures r == Failure(CodeTaken) <==> (!StartsAfterEnd(dto) && SprintByCode(db.sprints, projectId, dto.code).Some?)
    ensures r.Success? ==> (&& r.value == db.(sprints := r.value.sprints)
      && |r.value.sprints| == |db.sprints| + 1 && r.value.sprints[..|db.sprints|] == db.sprints
      && var s := r.value.sprints[|db.sprints|];
         s.name == dto.name && s.code == dto.code && s.projectId == projectId
         && s.startDate == dto.startDate && s.dueDate == dto.endDate && !s.deleted)
  {
    if StartsAfterEnd(dto) then Failure(BadDates)
    else if SprintByCode(db.sprints, projectId, dto.code).Some? then Failure(CodeTaken)
    else
      var s := Sprint(dto.name, dto.code, projectId, dto.startDate, dto.endDate, false);
      assert (db.sprints + [s])[..|db.sprints|] == db.sprints;
      Success(db.(sprints := db.sprints + [s]))
  }

  /** A successful creation keeps live codes unique within each project. */
  lemma CreateKeepsCodesUnique(db: Db, dto: SprintDto, projectId: string)
    requires CodesUnique(db) && Create(db, dto, projectId).Success?
    ensures CodesUnique(Create(db, dto, projectId).value)
  {
    var r := Create(db, dto, projectId).value;
    forall i, j | 0 <= i < j < |r.sprints| && !r.sprints[i].deleted && !r.sprints[j].deleted
      && r.sprints[i].projectId == r.sprints[j].projectId
      ensures r.sprints[i].code != r.sprints[j].code
    {
      if j == |db.sprints| {
        assert r.sprints[i] == db.sprints[i];
        assert !LiveWithCode(db.sprints[i], projectId, dto.code);
      } else {
        assert r.sprints[i] == db.sprints[i] && r.sprints[j] == db.sprints[j];
      }
    }
  }

  /** Equal dates never trip the date check, as the message "End date must
      be greater than or equal to startDate" promises. */
  lemma EqualDatesAccepted(db: Db, dto: SprintDto, projectId: string)
    requires dto.startDate == dto.endDate
    ensures Create(db, dto, projectId) != Failure(BadDates)
  {
    Text.StrLessTrichotomy(dto.startDate, dto.endDate);
  }

  /** The check orders the strings, not the instants: a start of 01:00 UTC
      written with a +05:00 offset is refused against an end of 02:00 UTC,
      because "06" sorts after "02". */
  lemma OffsetStartRefused(db: Db, projectId: string)
    ensures Create(db, SprintDto("s", 1, "2024-01-10T06:00:00+05:00", "2024-01-10T02:00:00Z"), projectId) == Failure(BadDates)
  {
    var dto := SprintDto("s", 1, "2024-01-10T06:00:00+05:00", "2024-01-10T02:00:00Z");
    DiffersAt12(dto.endDate, dto.startDate);
    assert StartsAfterEnd(dto);
  }

  /** "2024-01-10T02…" comes before "2024-01-10T06…": they first differ
      at index 12. */
  lemma DiffersAt12(a: string, b: string)
    requires a == "2024-01-10T02:00:00Z" && b == "2024-01-10T06:00:00+05:00"
    ensures Text.StrLess(a, b)
  {
    assert a[..12] == b[..12];
    Text.StrLessAt(a, b);
    assert Text.LessAt(a, b, 12);
  }

  /** The created sprint is the one its code now finds. */
  lemma CreateThenFind(db: Db, dto: SprintDto, projectId: string)
    requires Create(db, dto, projectId).Success?
    ensures SprintByCode(Create(db, dto, projectId).value.sprints, projectId, dto.code) == Some(|db.sprints|)
  {
    var r := Create(db, dto, projectId).value;
    assert LiveWithCode(r.sprints[|db.sprints|], projectId, dto.code);
  }

  // ---------------------------------------------------------------------
  // update

  /** `update`: the date check comes first, then the sprint must be found;
      the code is checked against the project only when it changes. The
      edited sprint keeps its project. */
  function Update(db: Db, id: Id, dto: SprintDto, projectId: string): (r: Result<Db, SprintError>)
    ensures r == Failure(BadDates) <==> StartsAfterEnd(dto)
    ensures r == Failure(SprintNotFound) <==> (!StartsAfterEnd(dto) && !Found(db, id))
    ensures r == Failure(CodeTaken) <==> (&& !StartsAfterEnd(dto) && Found(db, id)
      && dto.code != db.sprints[id].code && SprintByCode(db.sprints, projectId, dto.code).Some?)
    ensures r.Success? ==> (&& r.value == db.(sprints := r.value.sprints)
      && |r.value.sprints| == |db.sprints|
      && (forall j :: 0 <= j < |db.sprints| && j != id ==> r.value.sprints[j] == db.sprints[j])
      && r.value.sprints[id] == Sprint(dto.name, dto.code, db.sprints[id].projectId, dto.startDate, dto.endDate, false))
  {
    if StartsAfterEnd(dto) then Failure(BadDates)
    else if !Found(db, id) then Failure(SprintNotFound)
    else if dto.code != db.sprints[id].code && SprintByCode(db.sprints, projectId, dto.code).Some? then Failure(CodeTaken)
    else
      var s := db.sprints[id];
      Success(db.(sprints := db.sprints[id := s.(code := dto.code, name := dto.name, startDate := dto.startDate, dueDate := dto.endDate)]))
  }

  /** Re-sending a sprint's own code is never a conflict, even when another
      live sprint of the project shares it. */
  lemma UpdateSameCodeAllowed(db: Db, id: Id, dto: SprintDto, projectId: string)
    requires !StartsAfterEnd(dto) && Found(db, id) && dto.code == db.sprints[id].code
    ensures Update(db, id, dto, projectId).Success?
  {
  }

  /** An edit through the sprint's own project keeps live codes unique. */
  lemma UpdateKeepsCodesUnique(db: Db, id: Id, dto: SprintDto)
    requires CodesUnique(db) && Found(db, id)
    requires Update(db, id, dto, db.sprints[id].projectId).Success?
    ensures CodesUnique(Update(db, id, dto, db.sprints[id].projectId).value)
  {
    var p := db.sprints[id].projectId;
    var r := Update(db, id, dto, p).value;
    forall i, j | 0 <= i < j < |r.sprints| && !r.sprints[i].deleted && !r.sprints[j].deleted
      && r.sprints[i].projectId == r.sprints[j].projectId
      ensures r.sprints[i].code != r.sprints[j].code
    {
      if i == id || j == id {
        var other := if i == id then j else i;
        assert r.sprints[other] == db.sprints[other];
        if dto.code != db.sprints[id].code {
          assert !LiveWithCode(db.sprints[other], p, dto.code);
        }
      }
    }
  }

  // ---------------------------------------------------------------------
  // remove

  /** `remove`: a sprint that is missing or already removed is NotFound;
      otherwise it is soft-removed and nothing else changes. */
  function Remove(db: Db, id: Id): (r: Result<Db, SprintError>)
    ensures r.Failure? <==> !Found(db, id)
    ensures r.Failure? ==> r.error == SprintNotFound
    ensures r.Success? ==> (&& r.value == db.(sprints := r.value.sprints)
      && |r.value.sprints| == |db.sprints|
      && r.value.sprints[id] == db.sprints[id].(deleted := true)
      && (forall j :: 0 <= j < |db.sprints| && j != id ==> r.value.sprints[j] == db.sprints[j]))
  {
    if !Found(db, id) then Failure(SprintNotFound)
    else Success(db.(sprints := db.sprints[id := db.sprints[id].(deleted := true)]))
  }

  /** Removing twice: the second removal finds nothing. */
  lemma RemoveTwice(db: Db, id: Id)
    requires Remove(db, id).Success?
    ensures Remove(Remove(db, id).value, id) == Failure(SprintNotFound)
  {
  }

  /** Removal keeps live codes unique. */
  lemma RemoveKeepsCodesUnique(db: Db, id: Id)
    requires CodesUnique(db) && Remove(db, id).Success?
    ensures CodesUnique(Remove(db, id).value)
  {
    var r := Remove(db, id).value;
    forall i, j | 0 <= i < j < |r.sprints| && !r.sprints[i].deleted && !r.sprints[j].deleted
      && r.sprints[i].projectId == r.sprints[j].projectId
      ensures r.sprints[i].code != r.sprints[j].code
    {
      assert r.sprints[i] == db.sprints[i] && r.sprints[j] == db.sprints[j];
    }
  }

  // ---------------------------------------------------------------------
  // recommended sprint

  predicate InProject(s: Sprint, projectId: string) {
    !s.deleted && s.projectId == projectId
  }

  /** `findOne({ where: { projectId }, order: { code: 'DESC' } })`: among the
      project's live sprints one with the greatest code (the first in table
      order among equals), or none when the project has no live sprint. */
  function Recommended(ss: seq<Sprint>, projectId: string): (r: Option<Id>)
    ensures r.Some? ==> r.value < |ss| && InProject(ss[r.value], projectId)
    ensures r.Some? ==> forall j :: 0 <= j < |ss| && InProject(ss[j], projectId) ==> ss[j].code <= ss[r.value].code
    ensures r.None? <==> forall j :: 0 <= j < |ss| ==> !InProject(ss[j], projectId)
  {
    if |ss| == 0 then None
    else
      var rest := Recommended(ss[1..], projectId);
      if !InProject(ss[0], projectId) then (if rest.None? then None else Some(rest.value + 1))
      else if rest.None? || ss[1..][rest.value].code <= ss[0].code then Some(0)
      else Some(rest.value + 1)
  }

  /** A created sprint whose code beats every live sprint of the project
      becomes the recommended one. */
  lemma CreatedRecommended(db: Db, dto: SprintDto, projectId: string)
    requires Create(db, dto, projectId).Success?
    requires forall j :: 0 <= j < |db.sprints| && InProject(db.sprints[j], projectId) ==> db.sprints[j].code < dto.code
    ensures Recommended(Create(db, dto, projectId).value.sprints, projectId) == Some(|db.sprints|)
  {
    var ss := Create(db, dto, projectId).value.sprints;
    assert InProject(ss[|db.sprints|], projectId);
  }
}
