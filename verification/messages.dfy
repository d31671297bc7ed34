/** The validation messages a row can receive. Each constructor is one
    message of the source; `Text` gives its exact wording, so two
    constructors never stand for the same text. */
module Messages {

  datatype Msg =
    // file checks shared by every upload
    | ActionInvalid
    | NameDuplicated
    | NameTooShort
    | CodeDuplicated
    | NotNumeric(column: Column)
    // stakeholder file checks
    | EmailDuplicated
    | EmailInvalid
    | IdDuplicated
    | ManagerNotNumeric
    | ManagerNotInDepartments
    | DepartmentNotNumeric
    | DepartmentRepeated
    | PositionNotNumeric(department: string)
    | PositionRepeated
    // department and position checks against the store
    | NameExists
    | NameOfAnother(entity: string)
    | CodeExists
    | CodeNotFound
    | ChildOfDeletedParent
    | ChildrenNotDeleted
    | OwnParent
    | ParentNotNumeric
    | ParentNotFound
    | StakeholdersNotDeleted
    // stakeholder checks against the store
    | ProjectRoleInvalid
    | EmailExists
    | EmailNotFound
    | EmailOfAnother
    | IdExists
    | IdNotFound
    | DepartmentNotFound
    | PositionsNotFound
    | ManagerNotFound
    // influencer checks
    | IdNotNumeric
    | InfluencerNotFound
    | InfluencerExists
    | InfluencerActionInvalid
    | InfluenceNotUnique
    | InfluenceInvalid(token: string)
    | ExcludedInvalid
    | MapperExists
    | MapperRepeated

  /** The columns `validateItemNumber` is applied to. */
  datatype Column = CodeColumn | StakeholderIdColumn

  function ColumnName(c: Column): string {
    match c
    case CodeColumn => "code"
    case StakeholderIdColumn => "stakeholderId"
  }

  /** The wording the source pushes for each message. */
  function Text(m: Msg): string {
    match m
    case ActionInvalid => "Invalid column 'action', must be completed with (A, U, D)"
    case NameDuplicated => "Invalid column 'name', duplicated in this file."
    case NameTooShort => "Invalid column 'name', must be longer than 3 characters."
    case CodeDuplicated => "Invalid column 'code', duplicated in this file."
    case NotNumeric(column) => "Invalid column " + ColumnName(column) + ", must be numeric."
    case EmailDuplicated => "Invalid column 'email', duplicated in this file."
    case EmailInvalid => "Invalid column 'email'."
    case IdDuplicated => "Invalid column 'stakeholderId', duplicated in this file."
    case ManagerNotNumeric => "Invalid column Manager, must be numeric."
    case ManagerNotInDepartments => "Invalid column Manager...."
    case DepartmentNotNumeric => "Invalid Department, must be numeric."
    case DepartmentRepeated => "Invalid Department, already exist."
    case PositionNotNumeric(department) => "Invalid Position in department " + department + ", must be numeric."
    case PositionRepeated => "Invalid Department, position already exist."
    case NameExists => "Invalid column 'name', already exists in database."
    case NameOfAnother(entity) => "Invalid column 'name', already exists for another " + entity + " in database."
    case CodeExists => "Invalid column 'code', already exists in database."
    case CodeNotFound => "Invalid column 'code', cannot be found in database."
    case ChildOfDeletedParent => "Invalid column 'code', cannot add or edit a child of a parent to be deleted"
    case ChildrenNotDeleted => "Invalid column 'code', all department children must be deleted too"
    case OwnParent => "Invalid column 'parent', cannot be its own parent."
    case ParentNotNumeric => "Invalid column 'parent', must be numeric."
    case ParentNotFound => "Invalid column 'parent', cannot be found in database."
    case StakeholdersNotDeleted => "Invalid column 'code', all stakeholders must be deleted too"
    case ProjectRoleInvalid => "Invalid column 'projectRole'"
    case EmailExists => "Invalid column 'email', already exists in database."
    case EmailNotFound => "Invalid column 'email', cannot be found in database."
    case EmailOfAnother => "Invalid column 'email', stakeholderId does not correspond to the registered email."
    case IdExists => "Invalid column 'stakeholderId', already exists in database."
    case IdNotFound => "Invalid column 'stakeholderId', cannot be found in database."
    case DepartmentNotFound => "Invalid column 'department', cannot be found in database."
    case PositionsNotFound => "Invalid column 'department', positions cannot be found in database."
    case ManagerNotFound => "Invalid column 'manager', cannot be found departmentId in database."
    case IdNotNumeric => "Invalid column 'stakeholderId', must be numeric."
    case InfluencerNotFound => "Invalid column 'stakeholderId', influencer cannot be found in database."
    case InfluencerExists => "Invalid column 'stakeholderId', influencer already exist."
    case InfluencerActionInvalid => "Invalid column 'action', must be completed with (A, D)"
    case InfluenceNotUnique => "Invalid column influence, must be unique."
    case InfluenceInvalid(token) => "Invalid column influence '" + token + "', must be one of ('SME','PKL','SKL','MAPPER','INFLUENCER')"
    case ExcludedInvalid => "Invalid column excluded, must be 'TRUE' or 'FALSE'"
    case MapperExists => "Invalid column influence, 'MAPPER' influence already exists in the database."
    case MapperRepeated => "Invalid column influence, multiple occurrences of 'MAPPER' influence found in this file."
  }

  /** A message when the condition holds, nothing otherwise: one
      `if (...) errors.push(...)` of the source. */
  function When(cond: bool, m: Msg): (r: seq<Msg>)
    ensures m in r <==> cond
    ensures forall x :: x in r ==> x == m
  {
    if cond then [m] else []
  }

  /** The messages appended to a row's error list by one validation pass:
      everything past the list it started with. */
  function Added(before: seq<Msg>, after: seq<Msg>): seq<Msg>
    requires |before| <= |after|
  {
    after[|before|..]
  }

  /** `after` is `before` with messages appended. */
  predicate Extends(before: seq<Msg>, after: seq<Msg>) {
    |before| <= |after| && after[..|before|] == before
  }

  /** Appending twice is appending once: the messages of the two passes
      follow each other. */
  lemma ExtendsTrans(a: seq<Msg>, b: seq<Msg>, c: seq<Msg>)
    requires Extends(a, b) && Extends(b, c)
    ensures Extends(a, c)
    ensures Added(a, c) == Added(a, b) + Added(b, c)
  {
    assert c[..|a|] == b[..|a|];
    assert c[|a|..] == c[|a|..|b|] + c[|b|..];
  }

  /** How many times `m` occurs in `e`. */
  function Count(e: seq<Msg>, m: Msg): (n: nat)
    ensures n <= |e|
    ensures n == 0 <==> m !in e
  {
    if |e| == 0 then 0 else (if e[0] == m then 1 else 0) + Count(e[1..], m)
  }

  /** Occurrences add up over a concatenation. */
  lemma {:induction false} CountAppend(a: seq<Msg>, b: seq<Msg>, m: Msg)
    ensures Count(a + b, m) == Count(a, m) + Count(b, m)
  {
    if |a| == 0 {
      assert a + b == b;
    } else {
      assert (a + b)[0] == a[0];
      assert (a + b)[1..] == a[1..] + b;
      CountAppend(a[1..], b, m);
    }
  }
}
