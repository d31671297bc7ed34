/** The persisted entities (the TypeORM entity classes) and the
    relational store they live in. Every table is a sequence of rows and a
    row's id is its position in its table; a soft-deleted row keeps its
    place with `deleted` set. Lookups are TypeORM's `findOne`: the first
    live (not soft-deleted) row in table order that matches. */
module Store {
  import opened Wrappers
  import opened Collections

  /** Primary key of a row: its index in its table. */
  type Id = nat

  /** department.entity.ts: `code` is unique per project only by convention;
      `parent` is the self-reference, `manager` a stakeholder. */
  datatype Department = Department(
    projectId: string,
    code: int,
    name: string,
    parent: Option<Id>,
    manager: Option<Id>,
    deleted: bool)

  /** position.entity.ts: `externalId` is the position's code. */
  datatype Position = Position(
    projectId: string,
    name: string,
    externalId: int,
    deleted: bool)

  /** stakeholder.entity.ts: `code` carries a global UNIQUE index. */
  datatype Stakeholder = Stakeholder(
    code: int,
    name: string,
    email: string,
    projectId: string,
    projectRole: Option<Id>,
    deleted: bool)

  /** stakeholder-department-position.entity.ts: "the stakeholder holds this
      position in this department". */
  datatype Assignment = Assignment(
    stakeholder: Option<Id>,
    department: Option<Id>,
    position: Option<Id>,
    projectId: string,
    deleted: bool)

  /** stakeholder-user.entity.ts: the link to the external identity. */
  datatype StakeholderUser = StakeholderUser(
    stakeholder: Option<Id>,
    userId: string,
    isUser: bool,
    deleted: bool)

  /** influencer.entity.ts */
  datatype Influencer = Influencer(
    projectId: string,
    stakeholder: Option<Id>,
    isExcluded: bool,
    selectedFutureProcess: string,
    deleted: bool)

  /** The influence types (`InfluenceTypes`). */
  const SME := "SME"
  const PKL := "PKL"
  const SKL := "SKL"
  const MAPPER := "MAPPER"
  const INFLUENCER := "INFLUENCER"

  predicate IsInfluenceType(t: string) {
    t == SME || t == PKL || t == SKL || t == MAPPER || t == INFLUENCER
  }

  /** influence.entity.ts: `influenceType` is the entity's `type` column. */
  datatype Influence = Influence(
    influenceType: string,
    influencer: Option<Id>,
    deleted: bool)

  /** proyect-role.entity.ts */
  datatype ProjectRole = ProjectRole(name: string, deleted: bool)

  /** sprint.entity.ts. The dates hold the request's ISO strings as the
      service receives them. */
  datatype Sprint = Sprint(
    name: string,
    code: int,
    projectId: string,
    startDate: string,
    dueDate: string,
    deleted: bool)

  /** The whole relational store, all projects together. */
  datatype Db = Db(
    departments: seq<Department>,
    positions: seq<Position>,
    stakeholders: seq<Stakeholder>,
    assignments: seq<Assignment>,
    users: seq<StakeholderUser>,
    influencers: seq<Influencer>,
    influences: seq<Influence>,
    roles: seq<ProjectRole>,
    sprints: seq<Sprint>)

  // ---------------------------------------------------------------------
  // match predicates

  predicate DeptWithCode(d: Department, projectId: string, code: int) {
    !d.deleted && d.projectId == projectId && d.code == code
  }

  predicate DeptWithName(d: Department, projectId: string, name: string) {
    !d.deleted && d.projectId == projectId && d.name == name
  }

  predicate DeptManagedBy(d: Department, projectId: string, s: Id) {
    !d.deleted && d.projectId == projectId && d.manager == Some(s)
  }

  predicate PositionWithCode(p: Position, projectId: string, code: int) {
    !p.deleted && p.projectId == projectId && p.externalId == code
  }

  predicate PositionWithName(p: Position, projectId: string, name: string) {
    !p.deleted && p.projectId == projectId && p.name == name
  }

  predicate StakeholderWithCode(s: Stakeholder, projectId: string, code: int) {
    !s.deleted && s.projectId == projectId && s.code == code
  }

  predicate StakeholderWithEmail(s: Stakeholder, projectId: string, email: string) {
    !s.deleted && s.projectId == projectId && s.email == email
  }

  /** Some live department of the project has this code; a NaN code
      matches nothing. */
  predicate DeptExists(db: Db, projectId: string, code: Option<int>) {
    code.Some? && exists j :: 0 <= j < |db.departments| && DeptWithCode(db.departments[j], projectId, code.value)
  }

  /** Some live position of the project has this code. */
  predicate PositionExists(db: Db, projectId: string, code: Option<int>) {
    code.Some? && exists j :: 0 <= j < |db.positions| && PositionWithCode(db.positions[j], projectId, code.value)
  }

  /** Some live stakeholder of the project has this code. */
  predicate StakeholderExists(db: Db, projectId: string, code: Option<int>) {
    code.Some? && exists j :: 0 <= j < |db.stakeholders| && StakeholderWithCode(db.stakeholders[j], projectId, code.value)
  }

  // ---------------------------------------------------------------------
  // where clauses

  /** The `where` clause of a `findOne` on a table, besides the project. */
  datatype Where = Code(code: int) | Name(name: string) | Manager(s: Id) | Email(email: string)

  predicate DeptMatches(d: Department, projectId: string, w: Where) {
    match w
    case Code(c) => DeptWithCode(d, projectId, c)
    case Name(n) => DeptWithName(d, projectId, n)
    case Manager(s) => DeptManagedBy(d, projectId, s)
    case Email(_) => false
  }

  predicate PositionMatches(p: Position, projectId: string, w: Where) {
    match w
    case Code(c) => PositionWithCode(p, projectId, c)
    case Name(n) => PositionWithName(p, projectId, n)
    case _ => false
  }

  predicate StakeholderMatches(s: Stakeholder, projectId: string, w: Where) {
    match w
    case Code(c) => StakeholderWithCode(s, projectId, c)
    case Email(e) => StakeholderWithEmail(s, projectId, e)
    case _ => false
  }

  /** `findOne` on the department table: the first live match in table
      order. */
  function FirstDept(ds: seq<Department>, projectId: string, w: Where): (r: Option<Id>)
    ensures r.Some? ==> r.value < |ds| && DeptMatches(ds[r.value], projectId, w)
    ensures r.Some? ==> forall j :: 0 <= j < r.value ==> !DeptMatches(ds[j], projectId, w)
    ensures r.None? <==> forall j :: 0 <= j < |ds| ==> !DeptMatches(ds[j], projectId, w)
  {
    if |ds| == 0 then None
    else if DeptMatches(ds[0], projectId, w) then Some(0)
    else
      var rest := FirstDept(ds[1..], projectId, w);
      if rest.None? then None else Some(rest.value + 1)
  }

  /** `findOne` on the position table. */
  function FirstPosition(ps: seq<Position>, projectId: string, w: Where): (r: Option<Id>)
    ensures r.Some? ==> r.value < |ps| && PositionMatches(ps[r.value], projectId, w)
    ensures r.Some? ==> forall j :: 0 <= j < r.value ==> !PositionMatches(ps[j], projectId, w)
    ensures r.None? <==> forall j :: 0 <= j < |ps| ==> !PositionMatches(ps[j], projectId, w)
  {
    if |ps| == 0 then None
    else if PositionMatches(ps[0], projectId, w) then Some(0)
    else
      var rest := FirstPosition(ps[1..], projectId, w);
      if rest.None? then None else Some(rest.value + 1)
  }

  /** `findOne` on the stakeholder table. */
  function FirstStakeholder(ss: seq<Stakeholder>, projectId: string, w: Where): (r: Option<Id>)
    ensures r.Some? ==> r.value < |ss| && StakeholderMatches(ss[r.value], projectId, w)
    ensures r.Some? ==> forall j :: 0 <= j < r.value ==> !StakeholderMatches(ss[j], projectId, w)
    ensures r.None? <==> forall j :: 0 <= j < |ss| ==> !StakeholderMatches(ss[j], projectId, w)
  {
    if |ss| == 0 then None
    else if StakeholderMatches(ss[0], projectId, w) then Some(0)
    else
      var rest := FirstStakeholder(ss[1..], projectId, w);
      if rest.None? then None else Some(rest.value + 1)
  }

  // ---------------------------------------------------------------------
  // department lookups

  /** `findOne({ projectId, code })`. The query would fail on NaN: the
      unguarded callers test for NaN first, and the others pass NaN only
      when `isNumber` accepts a cell that `parseInt` rejects. */
  function DepartmentByCode(db: Db, projectId: string, code: Option<int>): (r: Option<Id>)
    ensures r.Some? ==> code.Some? && r.value < |db.departments|
                        && DeptWithCode(db.departments[r.value], projectId, code.value)
    ensures r.Some? ==> forall j :: 0 <= j < r.value ==> !DeptWithCode(db.departments[j], projectId, code.value)
    ensures r.None? <==> code.None? || forall j :: 0 <= j < |db.departments| ==> !DeptWithCode(db.departments[j], projectId, code.value)
  {
    if code.None? then None else FirstDept(db.departments, projectId, Code(code.value))
  }

  /** The first live department of the project with the code is the one
      found. */
  lemma DepartmentByCodeIs(db: Db, projectId: string, code: Option<int>, i: nat)
    requires code.Some? && i < |db.departments| && DeptWithCode(db.departments[i], projectId, code.value)
    requires forall j :: 0 <= j < i ==> !DeptWithCode(db.departments[j], projectId, code.value)
    ensures DepartmentByCode(db, projectId, code) == Some(i)
  {
  }

  /** `findOne({ projectId, name })`. */
  function DepartmentByName(db: Db, projectId: string, name: string): (r: Option<Id>)
    ensures r.Some? ==> r.value < |db.departments| && DeptWithName(db.departments[r.value], projectId, name)
    ensures r.Some? ==> forall j :: 0 <= j < r.value ==> !DeptWithName(db.departments[j], projectId, name)
    ensures r.None? <==> forall j :: 0 <= j < |db.departments| ==> !DeptWithName(db.departments[j], projectId, name)
  {
    FirstDept(db.departments, projectId, Name(name))
  }

  /** `findOne({ manager: { id }, projectId })`: a department this
      stakeholder manages. */
  function DepartmentManagedBy(db: Db, projectId: string, s: Id): (r: Option<Id>)
    ensures r.Some? ==> r.value < |db.departments| && DeptManagedBy(db.departments[r.value], projectId, s)
    ensures r.Some? ==> forall j :: 0 <= j < r.value ==> !DeptManagedBy(db.departments[j], projectId, s)
    ensures r.None? <==> forall j :: 0 <= j < |db.departments| ==> !DeptManagedBy(db.departments[j], projectId, s)
  {
    FirstDept(db.departments, projectId, Manager(s))
  }

  /** Ids of the live departments whose parent is `id`, in table order:
      the loaded `children` relation. */
  function ChildrenOf(depts: seq<Department>, id: Id): (r: seq<Id>)
    ensures forall c: nat :: c in r <==> c < |depts| && !depts[c].deleted && depts[c].parent == Some(id)
    ensures forall i :: 0 <= i < |r| ==> r[i] < |depts|
    ensures forall i, j :: 0 <= i < j < |r| ==> r[i] < r[j]
  {
    if |depts| == 0 then []
    else
      var n := |depts| - 1;
      var init := ChildrenOf(depts[..n], id);
      if !depts[n].deleted && depts[n].parent == Some(id) then init + [n] else init
  }

  // ---------------------------------------------------------------------
  // position lookups

  /** `findOne({ projectId, externalId })`. The query would fail on NaN;
      its callers pass NaN only when `isNumber` accepts a cell that
      `parseInt` rejects. */
  function PositionByCode(db: Db, projectId: string, code: Option<int>): (r: Option<Id>)
    ensures r.Some? ==> code.Some? && r.value < |db.positions|
                        && PositionWithCode(db.positions[r.value], projectId, code.value)
    ensures r.Some? ==> forall j :: 0 <= j < r.value ==> !PositionWithCode(db.positions[j], projectId, code.value)
    ensures r.None? <==> code.None? || forall j :: 0 <= j < |db.positions| ==> !PositionWithCode(db.positions[j], projectId, code.value)
  {
    if code.None? then None else FirstPosition(db.positions, projectId, Code(code.value))
  }

  /** `findOne({ projectId, name })`. */
  function PositionByName(db: Db, projectId: string, name: string): (r: Option<Id>)
    ensures r.Some? ==> r.value < |db.positions| && PositionWithName(db.positions[r.value], projectId, name)
    ensures r.Some? ==> forall j :: 0 <= j < r.value ==> !PositionWithName(db.positions[j], projectId, name)
    ensures r.None? <==> forall j :: 0 <= j < |db.positions| ==> !PositionWithName(db.positions[j], projectId, name)
  {
    FirstPosition(db.positions, projectId, Name(name))
  }

  /** Live assignments of `xs` that reference position `p`, in order. */
  function LiveHolders(xs: seq<Assignment>, p: Id): (r: seq<Assignment>)
    ensures forall a :: a in r <==> a in xs && !a.deleted && a.position == Some(p)
  {
    if |xs| == 0 then []
    else
      var n := |xs| - 1;
      var init := LiveHolders(xs[..n], p);
      assert forall a :: a in xs <==> a in xs[..n] || a == xs[n] by { assert xs == xs[..n] + [xs[n]]; }
      if !xs[n].deleted && xs[n].position == Some(p) then init + [xs[n]] else init
  }

  /** The loaded `stakeholderDepartmentPositions` relation of a position:
      its live assignments. */
  function AssignmentsOfPosition(db: Db, p: Id): (r: seq<Assignment>)
    ensures forall a :: a in r <==> a in db.assignments && !a.deleted && a.position == Some(p)
  {
    LiveHolders(db.assignments, p)
  }

  // ---------------------------------------------------------------------
  // stakeholder lookups

  /** `findOne({ projectId, code })`. The query would fail on NaN: the
      unguarded callers test for NaN first, and the others pass NaN only
      when `isNumber` accepts a cell that `parseInt` rejects. */
  function StakeholderByCode(db: Db, projectId: string, code: Option<int>): (r: Option<Id>)
    ensures r.Some? ==> code.Some? && r.value < |db.stakeholders|
                        && StakeholderWithCode(db.stakeholders[r.value], projectId, code.value)
    ensures r.Some? ==> forall j :: 0 <= j < r.value ==> !StakeholderWithCode(db.stakeholders[j], projectId, code.value)
    ensures r.None? <==> code.None? || forall j :: 0 <= j < |db.stakeholders| ==> !StakeholderWithCode(db.stakeholders[j], projectId, code.value)
  {
    if code.None? then None else FirstStakeholder(db.stakeholders, projectId, Code(code.value))
  }

  /** `findOne({ projectId, email })`. */
  function StakeholderByEmail(db: Db, projectId: string, email: string): (r: Option<Id>)
    ensures r.Some? ==> r.value < |db.stakeholders| && StakeholderWithEmail(db.stakeholders[r.value], projectId, email)
    ensures r.Some? ==> forall j :: 0 <= j < r.value ==> !StakeholderWithEmail(db.stakeholders[j], projectId, email)
    ensures r.None? <==> forall j :: 0 <= j < |db.stakeholders| ==> !StakeholderWithEmail(db.stakeholders[j], projectId, email)
  {
    FirstStakeholder(db.stakeholders, projectId, Email(email))
  }

  /** `findOne({ id })`: the row itself if it is live. */
  function LiveStakeholder(db: Db, id: Option<Id>): (r: Option<Id>)
    ensures r.Some? <==> id.Some? && id.value < |db.stakeholders| && !db.stakeholders[id.value].deleted
    ensures r.Some? ==> r == id
  {
    if id.Some? && id.value < |db.stakeholders| && !db.stakeholders[id.value].deleted then id else None
  }

  // ---------------------------------------------------------------------
  // influencer lookups

  /** The influencer row of stakeholder `s` for a future process. */
  predicate InfluencerFor(x: Influencer, processId: string, s: Id) {
    !x.deleted && x.selectedFutureProcess == processId && x.stakeholder == Some(s)
  }

  /** `findOne({ selectedFutureProcess, stakeholder: { id } })` on a table. */
  function FirstInfluencerFor(xs: seq<Influencer>, processId: string, s: Id): (r: Option<Id>)
    ensures r.Some? ==> r.value < |xs| && InfluencerFor(xs[r.value], processId, s)
    ensures r.Some? ==> forall j :: 0 <= j < r.value ==> !InfluencerFor(xs[j], processId, s)
    ensures r.None? <==> forall j :: 0 <= j < |xs| ==> !InfluencerFor(xs[j], processId, s)
  {
    if |xs| == 0 then None
    else if InfluencerFor(xs[0], processId, s) then Some(0)
    else
      var rest := FirstInfluencerFor(xs[1..], processId, s);
      if rest.None? then None else Some(rest.value + 1)
  }

  function InfluencerByStakeholder(db: Db, processId: string, s: Id): (r: Option<Id>)
    ensures r.Some? ==> r.value < |db.influencers| && InfluencerFor(db.influencers[r.value], processId, s)
    ensures r.Some? ==> forall j :: 0 <= j < r.value ==> !InfluencerFor(db.influencers[j], processId, s)
    ensures r.None? <==> forall j :: 0 <= j < |db.influencers| ==> !InfluencerFor(db.influencers[j], processId, s)
  {
    FirstInfluencerFor(db.influencers, processId, s)
  }

  // ---------------------------------------------------------------------
  // role lookup

  /** `find(role => role.name === name)` over the live roles. */
  function FirstRoleNamed(roles: seq<ProjectRole>, name: string): (r: Option<Id>)
    ensures r.Some? ==> r.value < |roles| && !roles[r.value].deleted && roles[r.value].name == name
    ensures r.None? <==> forall j :: 0 <= j < |roles| ==> roles[j].deleted || roles[j].name != name
  {
    if |roles| == 0 then None
    else if !roles[0].deleted && roles[0].name == name then Some(0)
    else
      var rest := FirstRoleNamed(roles[1..], name);
      if rest.None? then None else Some(rest.value + 1)
  }

  /** `projectRoleRepository.find()` followed by `find(role => role.name === name)`. */
  function RoleByName(db: Db, name: string): (r: Option<Id>)
    ensures r.Some? ==> r.value < |db.roles| && !db.roles[r.value].deleted && db.roles[r.value].name == name
    ensures r.None? <==> forall j :: 0 <= j < |db.roles| ==> db.roles[j].deleted || db.roles[j].name != name
  {
    FirstRoleNamed(db.roles, name)
  }

  // ---------------------------------------------------------------------
  // frame helpers

  /** Replaces the department table and nothing else. */
  function WithDepartments(db: Db, ds: seq<Department>): Db {
    db.(departments := ds)
  }
}
