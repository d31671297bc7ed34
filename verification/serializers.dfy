/** The response serializers that shape loaded entities: grouping of a
    stakeholder's assignments by department, first-seen de-duplication of
    positions and influence types, the influence flag record, and the
    recursive department tree. Inputs are the entities as loaded with their
    relations; only the fields the serializers read are kept. */
module Serializers {
  import opened Wrappers
  import opened Collections
  import opened Text

  // ---------------------------------------------------------------------
  // loaded entities

  /** A loaded stakeholder reference: a department's manager. */
  datatype Person = Person(id: string, name: string)

  /** `sdp.department` with its manager relation. */
  datatype DepartmentRef = DepartmentRef(id: string, name: string, manager: Option<Person>)

  /** A `StakeholderDepartmentPosition` with its department (possibly null)
      and the name of its position. */
  datatype AssignmentRef = AssignmentRef(department: Option<DepartmentRef>, position: string)

  /** `stakeholderUser`. */
  datatype UserRef = UserRef(userId: string, isUser: bool)

  /** A stakeholder with its relations: assignments, project role name,
      user record, and the influence types of each of its influencers. */
  datatype StakeholderView = StakeholderView(
    id: string,
    code: int,
    name: string,
    email: string,
    assignments: seq<AssignmentRef>,
    projectRole: Option<string>,
    user: Option<UserRef>,
    influencers: seq<seq<string>>)

  /** An influencer with its stakeholder and the types of its influences. */
  datatype InfluencerView = InfluencerView(id: string, stakeholder: StakeholderView, isExcluded: bool, types: seq<string>)

  // ---------------------------------------------------------------------
  // per-assignment projections

  /** `sdp.department?.id`: the grouping key, absent for a null department. */
  function DepartmentKey(a: AssignmentRef): Option<string> {
    if a.department.Some? then Some(a.department.value.id) else None
  }

  /** `sdp.department ? sdp.department.name : null`. */
  function DepartmentName(a: AssignmentRef): Option<string> {
    if a.department.Some? then Some(a.department.value.name) else None
  }

  /** `sdp.department?.manager?.id === item.id`. */
  predicate ManagedBy(sid: string, a: AssignmentRef) {
    a.department.Some? && a.department.value.manager.Some? && a.department.value.manager.value.id == sid
  }

  function Keys(asgs: seq<AssignmentRef>): (r: seq<Option<string>>)
    ensures |r| == |asgs| && forall k :: 0 <= k < |asgs| ==> r[k] == DepartmentKey(asgs[k])
  {
    seq(|asgs|, k requires 0 <= k < |asgs| => DepartmentKey(asgs[k]))
  }

  function PositionNames(asgs: seq<AssignmentRef>): (r: seq<string>)
    ensures |r| == |asgs| && forall k :: 0 <= k < |asgs| ==> r[k] == asgs[k].position
  {
    seq(|asgs|, k requires 0 <= k < |asgs| => asgs[k].position)
  }

  /** `Array.from(new Set(positions))`: every position name once, in the
      order of first occurrence. */
  function Positions(asgs: seq<AssignmentRef>): (r: seq<string>)
    ensures forall x :: x in r <==> exists k :: 0 <= k < |asgs| && asgs[k].position == x
    ensures NoDup(r)
    ensures forall x :: x in r ==> x in PositionNames(asgs)
    ensures forall i, j :: 0 <= i < j < |r| ==> FirstIndex(PositionNames(asgs), r[i]) < FirstIndex(PositionNames(asgs), r[j])
  {
    var names := PositionNames(asgs);
    assert forall x :: x in names <==> exists k :: 0 <= k < |asgs| && asgs[k].position == x;
    Distinct(names)
  }

  /** The influence types of all influencers, influencer by influencer. */
  function AllTypes(influencers: seq<seq<string>>): (r: seq<string>)
    ensures forall t :: t in r <==> exists i :: 0 <= i < |influencers| && t in influencers[i]
  {
    if |influencers| == 0 then []
    else
      var rest := AllTypes(influencers[1..]);
      assert forall i :: 1 <= i < |influencers| ==> influencers[i] == influencers[1..][i - 1];
      influencers[0] + rest
  }

  // ---------------------------------------------------------------------
  // stakeholder-detail: grouping by department

  /** One department entry of the detail view. */
  datatype DepartmentGroup = DepartmentGroup(id: Option<string>, name: Option<string>, manager: bool, positions: seq<string>)

  function GroupIndex(gs: seq<DepartmentGroup>, key: Option<string>): (r: Option<nat>)
    ensures r.Some? ==> r.value < |gs| && gs[r.value].id == key
    ensures r.None? <==> forall i :: 0 <= i < |gs| ==> gs[i].id != key
  {
    if |gs| == 0 then None
    else if gs[0].id == key then Some(0)
    else
      var rest := GroupIndex(gs[1..], key);
      if rest.None? then None else Some(rest.value + 1)
  }

  /** One step of the `forEach`: the entry of the assignment's department
      is created on first sight, with the manager flag of this assignment,
      and the position is appended to it. */
  function AddToGroups(gs: seq<DepartmentGroup>, sid: string, a: AssignmentRef): seq<DepartmentGroup> {
    var i := GroupIndex(gs, DepartmentKey(a));
    if i.Some? then gs[i.value := gs[i.value].(positions := gs[i.value].positions + [a.position])]
    else gs + [DepartmentGroup(DepartmentKey(a), DepartmentName(a), ManagedBy(sid, a), [a.position])]
  }

  /** `Array.from(departmentMap.values())` after all assignments. */
  function GroupByDepartment(sid: string, asgs: seq<AssignmentRef>): seq<DepartmentGroup>
    decreases |asgs|
  {
    if |asgs| == 0 then []
    else AddToGroups(GroupByDepartment(sid, asgs[..|asgs| - 1]), sid, asgs[|asgs| - 1])
  }

  function GroupIds(gs: seq<DepartmentGroup>): (r: seq<Option<string>>)
    ensures |r| == |gs| && forall i :: 0 <= i < |gs| ==> r[i] == gs[i].id
  {
    seq(|gs|, i requires 0 <= i < |gs| => gs[i].id)
  }

  /** The positions of the assignments of one department key, in order,
      repeats kept. */
  function PositionsUnder(asgs: seq<AssignmentRef>, key: Option<string>): seq<string>
    decreases |asgs|
  {
    if |asgs| == 0 then []
    else
      var a := asgs[|asgs| - 1];
      PositionsUnder(asgs[..|asgs| - 1], key) + (if DepartmentKey(a) == key then [a.position] else [])
  }

  /** The first assignment of a department key. */
  function FirstOf(asgs: seq<AssignmentRef>, key: Option<string>): AssignmentRef
    requires key in Keys(asgs)
  {
    asgs[FirstIndex(Keys(asgs), key)]
  }

  lemma KeysPrefix(asgs: seq<AssignmentRef>)
    requires |asgs| > 0
    ensures Keys(asgs) == Keys(asgs[..|asgs| - 1]) + [DepartmentKey(asgs[|asgs| - 1])]
  {
  }

  /** There is one entry per distinct department key, in first-seen
      order. */
  lemma {:induction false} GroupedIds(sid: string, asgs: seq<AssignmentRef>)
    ensures GroupIds(GroupByDepartment(sid, asgs)) == Distinct(Keys(asgs))
    decreases |asgs|
  {
    if |asgs| > 0 {
      var init := asgs[..|asgs| - 1];
      var a := asgs[|asgs| - 1];
      var gs := GroupByDepartment(sid, init);
      GroupedIds(sid, init);
      KeysPrefix(asgs);
      var ks := Keys(asgs);
      assert ks[..|ks| - 1] == Keys(init);
      var i := GroupIndex(gs, DepartmentKey(a));
      if i.Some? {
        assert DepartmentKey(a) in GroupIds(gs);
        assert GroupIds(AddToGroups(gs, sid, a)) == GroupIds(gs);
      } else {
        assert DepartmentKey(a) !in GroupIds(gs);
        assert GroupIds(AddToGroups(gs, sid, a)) == GroupIds(gs) + [DepartmentKey(a)];
      }
    }
  }

  /** Each entry lists the positions of all assignments of its department,
      in order, repeats kept. */
  lemma {:induction false} GroupedPositions(sid: string, asgs: seq<AssignmentRef>)
    ensures forall i :: 0 <= i < |GroupByDepartment(sid, asgs)| ==>
      GroupByDepartment(sid, asgs)[i].positions == PositionsUnder(asgs, GroupByDepartment(sid, asgs)[i].id)
    decreases |asgs|
  {
    if |asgs| > 0 {
      var init := asgs[..|asgs| - 1];
      var a := asgs[|asgs| - 1];
      var gs := GroupByDepartment(sid, init);
      GroupedPositions(sid, init);
      GroupIdsDistinct(sid, init);
      var r := AddToGroups(gs, sid, a);
      var gi := GroupIndex(gs, DepartmentKey(a));
      forall i | 0 <= i < |r|
        ensures r[i].positions == PositionsUnder(asgs, r[i].id)
      {
        var key := r[i].id;
        assert PositionsUnder(asgs, key) == PositionsUnder(init, key) + (if DepartmentKey(a) == key then [a.position] else []);
        if i < |gs| {
          assert key == gs[i].id;
          if !(gi.Some? && gi.value == i) {
            assert gs[i].id != DepartmentKey(a);
          }
        } else {
          GroupedIds(sid, init);
          assert key !in GroupIds(gs);
          assert forall k :: 0 <= k < |init| ==> Keys(init)[k] == DepartmentKey(init[k]);
          PositionsUnderAbsent(init, key);
        }
      }
    }
  }

  lemma {:induction false} PositionsUnderAbsent(asgs: seq<AssignmentRef>, key: Option<string>)
    requires forall k :: 0 <= k < |asgs| ==> DepartmentKey(asgs[k]) != key
    ensures PositionsUnder(asgs, key) == []
    decreases |asgs|
  {
    if |asgs| > 0 {
      PositionsUnderAbsent(asgs[..|asgs| - 1], key);
    }
  }

  /** No two entries share a department key. */
  lemma GroupIdsDistinct(sid: string, asgs: seq<AssignmentRef>)
    ensures forall i, j :: 0 <= i < j < |GroupByDepartment(sid, asgs)| ==>
      GroupByDepartment(sid, asgs)[i].id != GroupByDepartment(sid, asgs)[j].id
  {
    GroupedIds(sid, asgs);
    var gs := GroupByDepartment(sid, asgs);
    forall i, j | 0 <= i < j < |gs|
      ensures gs[i].id != gs[j].id
    {
      assert GroupIds(gs)[i] == gs[i].id && GroupIds(gs)[j] == gs[j].id;
    }
  }

  /** An entry's id, name and manager flag come from the first assignment
      of its department; the manager flag is true exactly when that
      department's manager is the stakeholder. */
  lemma {:induction false} GroupedHeads(sid: string, asgs: seq<AssignmentRef>)
    ensures forall i :: 0 <= i < |GroupByDepartment(sid, asgs)| ==>
      (&& GroupByDepartment(sid, asgs)[i].id in Keys(asgs)
       && var a := FirstOf(asgs, GroupByDepartment(sid, asgs)[i].id);
          GroupByDepartment(sid, asgs)[i].name == DepartmentName(a)
          && (GroupByDepartment(sid, asgs)[i].manager <==> ManagedBy(sid, a)))
    decreases |asgs|
  {
    if |asgs| > 0 {
      var init := asgs[..|asgs| - 1];
      var a := asgs[|asgs| - 1];
      var gs := GroupByDepartment(sid, init);
      GroupedHeads(sid, init);
      KeysPrefix(asgs);
      var ks := Keys(asgs);
      assert ks[..|ks| - 1] == Keys(init);
      var r := AddToGroups(gs, sid, a);
      forall i | 0 <= i < |r|
        ensures r[i].id in ks && r[i].name == DepartmentName(FirstOf(asgs, r[i].id))
          && (r[i].manager <==> ManagedBy(sid, FirstOf(asgs, r[i].id)))
      {
        if i < |gs| {
          assert r[i].id == gs[i].id && r[i].name == gs[i].name && r[i].manager == gs[i].manager;
          FirstIndexPrefix(ks, |ks| - 1, r[i].id);
        } else {
          assert GroupIndex(gs, DepartmentKey(a)).None?;
          GroupedIds(sid, init);
          assert DepartmentKey(a) !in GroupIds(gs);
          assert DepartmentKey(a) !in Keys(init);
          assert FirstIndex(ks, DepartmentKey(a)) == |ks| - 1;
        }
      }
    }
  }

  /** The detail view of a stakeholder. */
  datatype StakeholderDetail = StakeholderDetail(
    id: string,
    code: int,
    name: string,
    email: string,
    departments: seq<DepartmentGroup>,
    projectRole: Option<string>,
    isUser: Option<bool>)

  /** `StakeholderDetailSerializer.serialize`. */
  function SerializeStakeholderDetail(s: StakeholderView): (r: StakeholderDetail)
    ensures r.id == s.id && r.code == s.code && r.name == s.name && r.email == s.email && r.projectRole == s.projectRole
    ensures r.isUser.Some? <==> s.user.Some?
    ensures r.isUser.Some? ==> r.isUser.value == s.user.value.isUser
    ensures GroupIds(r.departments) == Distinct(Keys(s.assignments))
  {
    GroupedIds(s.id, s.assignments);
    StakeholderDetail(s.id, s.code, s.name, s.email, GroupByDepartment(s.id, s.assignments), s.projectRole,
      if s.user.Some? then Some(s.user.value.isUser) else None)
  }

  // ---------------------------------------------------------------------
  // stakeholder-survey-detail

  datatype SurveyDepartment = SurveyDepartment(id: Option<string>, name: Option<string>)

  /** The departments of the survey view: the first assignment of each
      distinct key, in first-seen order. */
  function SurveyDepartments(asgs: seq<AssignmentRef>): (r: seq<SurveyDepartment>)
    ensures |r| == |Distinct(Keys(asgs))|
    ensures forall i :: 0 <= i < |r| ==>
      (r[i].id == Distinct(Keys(asgs))[i] && r[i].name == DepartmentName(FirstOf(asgs, Distinct(Keys(asgs))[i])))
  {
    var ks := Distinct(Keys(asgs));
    seq(|ks|, i requires 0 <= i < |ks| => SurveyDepartment(ks[i], DepartmentName(FirstOf(asgs, ks[i]))))
  }

  /** The survey departments are the detail groups without positions and
      manager flags. */
  lemma SurveyMatchesDetail(s: StakeholderView)
    ensures |SurveyDepartments(s.assignments)| == |GroupByDepartment(s.id, s.assignments)|
    ensures forall i :: 0 <= i < |SurveyDepartments(s.assignments)| ==>
      (SurveyDepartments(s.assignments)[i].id == GroupByDepartment(s.id, s.assignments)[i].id
       && SurveyDepartments(s.assignments)[i].name == GroupByDepartment(s.id, s.assignments)[i].name)
  {
    GroupedIds(s.id, s.assignments);
    GroupedHeads(s.id, s.assignments);
    var gs := GroupByDepartment(s.id, s.assignments);
    assert forall i :: 0 <= i < |gs| ==> GroupIds(gs)[i] == gs[i].id;
  }

  datatype StakeholderSurveyDetail = StakeholderSurveyDetail(
    id: string,
    name: string,
    projectRole: Option<string>,
    departments: seq<SurveyDepartment>,
    positions: seq<string>,
    influencerType: seq<string>)

  /** `StakeholderSurveyDetailSerializer.serialize`: the project role is
      always null; positions and influence types are each listed once. */
  function SerializeSurveyDetail(s: StakeholderView): (r: StakeholderSurveyDetail)
    ensures r.id == s.id && r.name == s.name && r.projectRole.None?
    ensures forall x :: x in r.positions <==> exists k :: 0 <= k < |s.assignments| && s.assignments[k].position == x
    ensures forall t :: t in r.influencerType <==> exists i :: 0 <= i < |s.influencers| && t in s.influencers[i]
    ensures NoDup(r.positions) && NoDup(r.influencerType)
  {
    StakeholderSurveyDetail(s.id, s.name, None, SurveyDepartments(s.assignments), Positions(s.assignments),
      Distinct(AllTypes(s.influencers)))
  }

  // ---------------------------------------------------------------------
  // stakeholder-answers and stakeholder-list

  datatype AnswerDepartment = AnswerDepartment(id: Option<string>, name: Option<string>, manager: bool)

  datatype StakeholderAnswers = StakeholderAnswers(
    id: string,
    userId: string,
    name: string,
    departments: seq<AnswerDepartment>,
    positions: seq<string>,
    projectRole: Option<string>,
    influencers: seq<string>)

  /** `StakeholderAnswersSerializer.serialize`: one department per
      assignment, in order, no de-duplication. The source reads
      `stakeholderUser.userId` without a null check. */
  function SerializeAnswers(s: StakeholderView): (r: StakeholderAnswers)
    requires s.user.Some?
    ensures r.id == s.id && r.userId == s.user.value.userId && r.name == s.name && r.projectRole == s.projectRole
    ensures |r.departments| == |s.assignments|
    ensures forall k :: 0 <= k < |s.assignments| ==>
      (r.departments[k].id == DepartmentKey(s.assignments[k]) && r.departments[k].name == DepartmentName(s.assignments[k])
       && (r.departments[k].manager <==> ManagedBy(s.id, s.assignments[k])))
    ensures forall x :: x in r.positions <==> exists k :: 0 <= k < |s.assignments| && s.assignments[k].position == x
    ensures forall t :: t in r.influencers <==> exists i :: 0 <= i < |s.influencers| && t in s.influencers[i]
    ensures NoDup(r.positions) && NoDup(r.influencers)
  {
    var asgs := s.assignments;
    var departments := seq(|asgs|, k requires 0 <= k < |asgs| =>
      AnswerDepartment(DepartmentKey(asgs[k]), DepartmentName(asgs[k]), ManagedBy(s.id, asgs[k])));
    StakeholderAnswers(s.id, s.user.value.userId, s.name, departments, Positions(asgs), s.projectRole,
      Distinct(AllTypes(s.influencers)))
  }

  datatype ListDepartment = ListDepartment(name: Option<string>, manager: bool)

  datatype StakeholderListItem = StakeholderListItem(
    id: string,
    code: int,
    name: string,
    email: string,
    departments: seq<ListDepartment>,
    positions: seq<string>,
    projectRole: Option<string>)

  /** `StakeholderListSerializer.serialize`. */
  function SerializeStakeholderList(s: StakeholderView): (r: StakeholderListItem)
    ensures r.id == s.id && r.code == s.code && r.name == s.name && r.email == s.email && r.projectRole == s.projectRole
    ensures |r.departments| == |s.assignments|
    ensures forall k :: 0 <= k < |s.assignments| ==>
      (r.departments[k].name == DepartmentName(s.assignments[k]) && (r.departments[k].manager <==> ManagedBy(s.id, s.assignments[k])))
    ensures forall x :: x in r.positions <==> exists k :: 0 <= k < |s.assignments| && s.assignments[k].position == x
    ensures NoDup(r.positions)
  {
    var asgs := s.assignments;
    var departments := seq(|asgs|, k requires 0 <= k < |asgs| => ListDepartment(DepartmentName(asgs[k]), ManagedBy(s.id, asgs[k])));
    StakeholderListItem(s.id, s.code, s.name, s.email, departments, Positions(asgs), s.projectRole)
  }

  /** The detail groups count each assignment exactly once: their
      positions together are as many as the list view's departments. */
  lemma {:induction false} GroupsCoverAssignments(sid: string, asgs: seq<AssignmentRef>)
    ensures TotalPositions(GroupByDepartment(sid, asgs)) == |asgs|
    decreases |asgs|
  {
    if |asgs| > 0 {
      var init := asgs[..|asgs| - 1];
      var a := asgs[|asgs| - 1];
      var gs := GroupByDepartment(sid, init);
      GroupsCoverAssignments(sid, init);
      var i := GroupIndex(gs, DepartmentKey(a));
      if i.Some? {
        TotalUpdate(gs, i.value, gs[i.value].(positions := gs[i.value].positions + [a.position]));
      } else {
        TotalAppend(gs, DepartmentGroup(DepartmentKey(a), DepartmentName(a), ManagedBy(sid, a), [a.position]));
      }
    }
  }

  function TotalPositions(gs: seq<DepartmentGroup>): nat
    decreases |gs|
  {
    if |gs| == 0 then 0 else TotalPositions(gs[..|gs| - 1]) + |gs[|gs| - 1].positions|
  }

  lemma TotalAppend(gs: seq<DepartmentGroup>, g: DepartmentGroup)
    ensures TotalPositions(gs + [g]) == TotalPositions(gs) + |g.positions|
  {
    assert (gs + [g])[..|gs|] == gs;
  }

  lemma {:induction false} TotalUpdate(gs: seq<DepartmentGroup>, i: nat, g: DepartmentGroup)
    requires i < |gs|
    ensures TotalPositions(gs[i := g]) == TotalPositions(gs) - |gs[i].positions| + |g.positions|
    decreases |gs|
  {
    var n := |gs| - 1;
    if i < n {
      assert gs[i := g][..n] == gs[..n][i := g];
      TotalUpdate(gs[..n], i, g);
    } else {
      assert gs[i := g][..n] == gs[..n];
    }
  }

  // ---------------------------------------------------------------------
  // influencer-detail: the flag record

  /** The `influences` object: the five keys, then any other lower-cased
      type, in the order it was first set. */
  datatype InfluenceFlags = InfluenceFlags(sme: bool, pkl: bool, skl: bool, mapper: bool, influencer: bool, extra: seq<string>)

  predicate IsFlagKey(key: string) {
    key == "sme" || key == "pkl" || key == "skl" || key == "mapper" || key == "influencer"
  }

  /** `acc[key] = true`. */
  function SetFlag(f: InfluenceFlags, key: string): (g: InfluenceFlags)
    ensures g.sme == (f.sme || key == "sme") && g.pkl == (f.pkl || key == "pkl") && g.skl == (f.skl || key == "skl")
    ensures g.mapper == (f.mapper || key == "mapper") && g.influencer == (f.influencer || key == "influencer")
    ensures g.extra == if IsFlagKey(key) || key in f.extra then f.extra else f.extra + [key]
  {
    if key == "sme" then f.(sme := true)
    else if key == "pkl" then f.(pkl := true)
    else if key == "skl" then f.(skl := true)
    else if key == "mapper" then f.(mapper := true)
    else if key == "influencer" then f.(influencer := true)
    else if key in f.extra then f
    else f.(extra := f.extra + [key])
  }

  /** The `reduce` over the influences, from the all-false record. */
  function ReduceFlags(types: seq<string>): InfluenceFlags
    decreases |types|
  {
    if |types| == 0 then InfluenceFlags(false, false, false, false, false, [])
    else SetFlag(ReduceFlags(types[..|types| - 1]), ToLower(types[|types| - 1]))
  }

  /** Some type lower-cases to `key`. */
  predicate Mentions(types: seq<string>, key: string) {
    exists i :: 0 <= i < |types| && ToLower(types[i]) == key
  }

  /** Each of the five keys is true exactly when some type lower-cases to
      it. */
  ghost predicate KeysReflect(f: InfluenceFlags, types: seq<string>) {
    && (f.sme <==> Mentions(types, "sme")) && (f.pkl <==> Mentions(types, "pkl"))
    && (f.skl <==> Mentions(types, "skl")) && (f.mapper <==> Mentions(types, "mapper"))
    && (f.influencer <==> Mentions(types, "influencer"))
  }

  /** Every other lower-cased type is an extra key, once. */
  ghost predicate ExtraReflects(f: InfluenceFlags, types: seq<string>) {
    && NoDup(f.extra)
    && forall key :: key in f.extra <==> (!IsFlagKey(key) && Mentions(types, key))
  }

  ghost predicate Reflects(f: InfluenceFlags, types: seq<string>) {
    KeysReflect(f, types) && ExtraReflects(f, types)
  }

  lemma SetFlagKey(was: bool, now: bool, xs: seq<string>, ys: seq<string>, t: string, key: string)
    requires was <==> Mentions(xs, key)
    requires Mentions(ys, key) <==> (Mentions(xs, key) || t == key)
    requires now == (was || t == key)
    ensures now <==> Mentions(ys, key)
  {
  }

  lemma SetFlagKeys(f: InfluenceFlags, xs: seq<string>, ys: seq<string>, t: string)
    requires KeysReflect(f, xs)
    requires forall key :: Mentions(ys, key) <==> (Mentions(xs, key) || t == key)
    ensures KeysReflect(SetFlag(f, t), ys)
  {
    var g := SetFlag(f, t);
    SetFlagKey(f.sme, g.sme, xs, ys, t, "sme");
    SetFlagKey(f.pkl, g.pkl, xs, ys, t, "pkl");
    SetFlagKey(f.skl, g.skl, xs, ys, t, "skl");
    SetFlagKey(f.mapper, g.mapper, xs, ys, t, "mapper");
    SetFlagKey(f.influencer, g.influencer, xs, ys, t, "influencer");
  }

  lemma SetFlagExtra(f: InfluenceFlags, xs: seq<string>, ys: seq<string>, t: string)
    requires ExtraReflects(f, xs)
    requires forall key :: Mentions(ys, key) <==> (Mentions(xs, key) || t == key)
    ensures ExtraReflects(SetFlag(f, t), ys)
  {
    if !IsFlagKey(t) && t !in f.extra {
      NoDupSnoc(f.extra, t);
      assert SetFlag(f, t).extra == f.extra + [t];
    } else {
      assert SetFlag(f, t).extra == f.extra;
    }
  }

  /** Setting one more key keeps the record in step with the types seen. */
  lemma SetFlagReflects(f: InfluenceFlags, xs: seq<string>, ys: seq<string>, t: string)
    requires Reflects(f, xs)
    requires forall key :: Mentions(ys, key) <==> (Mentions(xs, key) || t == key)
    ensures Reflects(SetFlag(f, t), ys)
  {
    SetFlagKeys(f, xs, ys, t);
    SetFlagExtra(f, xs, ys, t);
  }

  lemma MentionsSnoc(types: seq<string>)
    requires |types| > 0
    ensures forall key :: Mentions(types, key) <==>
      (Mentions(types[..|types| - 1], key) || ToLower(types[|types| - 1]) == key)
  {
    var init := types[..|types| - 1];
    assert forall i :: 0 <= i < |init| ==> init[i] == types[i];
    forall key | Mentions(types, key)
      ensures Mentions(init, key) || ToLower(types[|types| - 1]) == key
    {
      var i :| 0 <= i < |types| && ToLower(types[i]) == key;
      if i < |init| {
        assert ToLower(init[i]) == key;
      }
    }
  }

  /** The reduced record reflects exactly the types of the influences. */
  lemma {:induction false} FlagsMentioned(types: seq<string>)
    ensures Reflects(ReduceFlags(types), types)
    decreases |types|
  {
    if |types| > 0 {
      var init := types[..|types| - 1];
      FlagsMentioned(init);
      MentionsSnoc(types);
      SetFlagReflects(ReduceFlags(init), init, types, ToLower(types[|types| - 1]));
    }
  }

  datatype InfluencerStakeholder = InfluencerStakeholder(
    id: string,
    code: int,
    name: string,
    email: string,
    positions: seq<string>,
    projectRole: Option<string>,
    isUser: Option<bool>)

  datatype InfluencerDetail = InfluencerDetail(id: string, stakeholder: InfluencerStakeholder, excluded: bool, influences: InfluenceFlags)

  /** `InfluencerDetailSerializer.serialize`. */
  function SerializeInfluencerDetail(x: InfluencerView): (r: InfluencerDetail)
    ensures r.id == x.id && r.excluded == x.isExcluded
    ensures r.stakeholder.id == x.stakeholder.id && r.stakeholder.code == x.stakeholder.code
    ensures r.stakeholder.name == x.stakeholder.name && r.stakeholder.email == x.stakeholder.email
    ensures r.stakeholder.projectRole == x.stakeholder.projectRole
    ensures r.stakeholder.isUser.Some? <==> x.stakeholder.user.Some?
    ensures r.stakeholder.isUser.Some? ==> r.stakeholder.isUser.value == x.stakeholder.user.value.isUser
    ensures forall p :: p in r.stakeholder.positions <==>
      exists k :: 0 <= k < |x.stakeholder.assignments| && x.stakeholder.assignments[k].position == p
    ensures NoDup(r.stakeholder.positions)
    ensures Reflects(r.influences, x.types)
  {
    FlagsMentioned(x.types);
    var s := x.stakeholder;
    InfluencerDetail(x.id,
      InfluencerStakeholder(s.id, s.code, s.name, s.email, Positions(s.assignments), s.projectRole,
        if s.user.Some? then Some(s.user.value.isUser) else None),
      x.isExcluded, ReduceFlags(x.types))
  }

  // ---------------------------------------------------------------------
  // influencer-list

  datatype InfluencerListItem = InfluencerListItem(
    id: string,
    name: string,
    departments: seq<Option<string>>,
    positions: seq<string>,
    projectRole: Option<string>,
    influences: seq<string>,
    excluded: bool)

  /** `InfluencerListSerializer.serialize`. */
  function SerializeInfluencerList(x: InfluencerView): (r: InfluencerListItem)
    ensures r.id == x.id && r.name == x.stakeholder.name && r.excluded == x.isExcluded
    ensures r.projectRole == x.stakeholder.projectRole
    ensures |r.departments| == |x.stakeholder.assignments|
    ensures forall k :: 0 <= k < |r.departments| ==> r.departments[k] == DepartmentName(x.stakeholder.assignments[k])
    ensures forall p :: p in r.positions <==>
      exists k :: 0 <= k < |x.stakeholder.assignments| && x.stakeholder.assignments[k].position == p
    ensures forall t :: t in r.influences <==> t in x.types
    ensures NoDup(r.positions) && NoDup(r.influences)
    ensures forall i, j :: 0 <= i < j < |r.influences| ==> FirstIndex(x.types, r.influences[i]) < FirstIndex(x.types, r.influences[j])
  {
    var asgs := x.stakeholder.assignments;
    InfluencerListItem(x.id, x.stakeholder.name, seq(|asgs|, k requires 0 <= k < |asgs| => DepartmentName(asgs[k])),
      Positions(asgs), x.stakeholder.projectRole, Distinct(x.types), x.isExcluded)
  }

  // ---------------------------------------------------------------------
  // department-detail: the recursive tree

  /** A department's `children` relation: not loaded (the source then
      serializes no children) or loaded. */
  datatype Children = NotLoaded | Loaded(nodes: seq<DepartmentNode>)

  /** A department as loaded: `parent` is present only when the relation was
      loaded and set. */
  datatype DepartmentNode = DepartmentNode(
    id: string,
    code: int,
    name: string,
    manager: Option<Person>,
    parent: Option<DepartmentNode>,
    children: Children)

  datatype DepartmentDetail = DepartmentDetail(
    id: string,
    code: int,
    name: string,
    manager: Option<Person>,
    parent: Option<DepartmentDetail>,
    children: seq<DepartmentDetail>)

  /** `DepartmentDetailSerializer.serialize`: the parent and every loaded
      child are serialized the same way; unloaded children become []. */
  function SerializeDepartment(d: DepartmentNode): (r: DepartmentDetail)
    ensures r.id == d.id && r.code == d.code && r.name == d.name && r.manager == d.manager
    ensures r.parent.Some? <==> d.parent.Some?
    ensures |r.children| == if d.children.Loaded? then |d.children.nodes| else 0
    decreases d
  {
    var parent := if d.parent.Some? then Some(SerializeDepartment(d.parent.value)) else None;
    var children := if d.children.NotLoaded? then []
      else
        var cs := d.children.nodes;
        seq(|cs|, i requires 0 <= i < |cs| => SerializeDepartment(cs[i]));
    DepartmentDetail(d.id, d.code, d.name, d.manager, parent, children)
  }

  /** Every `children` relation of the tree was loaded. */
  predicate FullyLoaded(d: DepartmentNode)
    decreases d
  {
    && (d.parent.Some? ==> FullyLoaded(d.parent.value))
    && d.children.Loaded?
    && forall i :: 0 <= i < |d.children.nodes| ==> FullyLoaded(d.children.nodes[i])
  }

  /** The loaded tree a serialized tree describes. */
  function Reload(r: DepartmentDetail): DepartmentNode
    decreases r
  {
    DepartmentNode(r.id, r.code, r.name, r.manager,
      if r.parent.Some? then Some(Reload(r.parent.value)) else None,
      Loaded(seq(|r.children|, i requires 0 <= i < |r.children| => Reload(r.children[i]))))
  }

  /** Serialization loses nothing of a fully loaded tree. */
  lemma {:induction false} ReloadSerialized(d: DepartmentNode)
    requires FullyLoaded(d)
    ensures Reload(SerializeDepartment(d)) == d
    decreases d
  {
    if d.parent.Some? {
      ReloadSerialized(d.parent.value);
    }
    var cs := d.children.nodes;
    forall i | 0 <= i < |cs|
      ensures Reload(SerializeDepartment(cs[i])) == cs[i]
    {
      ReloadSerialized(cs[i]);
    }
    var back := Reload(SerializeDepartment(d)).children.nodes;
    assert |back| == |cs|;
    assert forall i :: 0 <= i < |cs| ==> back[i] == cs[i];
  }

  /** Every serialized tree is the serialization of its reload. */
  lemma {:induction false} SerializeReloaded(r: DepartmentDetail)
    ensures SerializeDepartment(Reload(r)) == r
    decreases r
  {
    if r.parent.Some? {
      SerializeReloaded(r.parent.value);
    }
    forall i | 0 <= i < |r.children|
      ensures SerializeDepartment(Reload(r.children[i])) == r.children[i]
    {
      SerializeReloaded(r.children[i]);
    }
    var back := SerializeDepartment(Reload(r)).children;
    assert |back| == |r.children|;
    assert forall i :: 0 <= i < |back| ==> back[i] == r.children[i];
  }
}
