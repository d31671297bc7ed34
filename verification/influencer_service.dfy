/** Applying a validated influencer file and editing one influencer's
    influences (`influencer.service.ts`). */
module InfluencerService {
  import opened Wrappers
  import Collections
  import opened Text
  import opened Store
  import opened UploadDto
  import InfluencerValidation

  // ---------------------------------------------------------------------
  // inserts

  /** The influencer an Add row creates: the row's stakeholder when it is
      live, excluded exactly when the cell is "TRUE", for the future
      process. */
  function NewInfluencer(db: Db, projectId: string, processId: string, row: InfluencerItem): (x: Influencer)
    ensures x.isExcluded <==> row.excluded == "TRUE"
    ensures x.selectedFutureProcess == processId && x.projectId == projectId && !x.deleted
    ensures x.stakeholder == LiveStakeholder(db, row.stakeholderId)
  {
    Influencer(projectId, LiveStakeholder(db, row.stakeholderId), row.excluded == "TRUE", processId, false)
  }

  /** `handleInsertsInfluence`: one influence per token, in token order. */
  function TokenInfluences(tokens: seq<string>, x: Id): (r: seq<Influence>)
    ensures |r| == |tokens|
    ensures forall j :: 0 <= j < |r| ==> r[j] == Influence(tokens[j], Some(x), false)
  {
    if |tokens| == 0 then [] else [Influence(tokens[0], Some(x), false)] + TokenInfluences(tokens[1..], x)
  }

  /** The influences for a list of token lists: list `k`'s go to
      influencer `first + k`. */
  function TokenListInfluences(lists: seq<seq<string>>, first: Id): (r: seq<Influence>)
    ensures forall j :: 0 <= j < |r| ==> (r[j].influencer.Some? && first <= r[j].influencer.value < first + |lists| && !r[j].deleted)
  {
    if |lists| == 0 then []
    else
      var head := TokenInfluences(lists[0], first);
      var tail := TokenListInfluences(lists[1..], first + 1);
      assert forall j :: |head| <= j < |head + tail| ==> (head + tail)[j] == tail[j - |head|];
      head + tail
  }

  /** The influence cell of every Add row, split on `|`. */
  function InfluenceCells(rows: seq<InfluencerItem>): (r: seq<seq<string>>)
    ensures |r| == |rows|
    ensures forall k :: 0 <= k < |rows| ==> r[k] == Split(rows[k].influence, '|')
  {
    seq(|rows|, k requires 0 <= k < |rows| => Split(rows[k].influence, '|'))
  }

  /** The influences of the Add rows: row `k`'s go to influencer
      `first + k`. */
  function AddInfluences(rows: seq<InfluencerItem>, first: Id): (r: seq<Influence>)
    ensures forall j :: 0 <= j < |r| ==> (r[j].influencer.Some? && first <= r[j].influencer.value < first + |rows| && !r[j].deleted)
  {
    TokenListInfluences(InfluenceCells(rows), first)
  }

  /** `handleInserts`: every Add row becomes a new influencer after the
      existing ones, with its influences; nothing else changes. */
  function InsertInfluencers(db: Db, projectId: string, processId: string, rows: seq<InfluencerItem>): (r: Db)
    ensures r == db.(influencers := r.influencers, influences := r.influences)
    ensures |r.influencers| == |db.influencers| + |rows| && r.influencers[..|db.influencers|] == db.influencers
    ensures forall k :: 0 <= k < |rows| ==> r.influencers[|db.influencers| + k] == NewInfluencer(db, projectId, processId, rows[k])
    ensures r.influences == db.influences + AddInfluences(rows, |db.influencers|)
  {
    var added := seq(|rows|, k requires 0 <= k < |rows| => NewInfluencer(db, projectId, processId, rows[k]));
    assert (db.influencers + added)[..|db.influencers|] == db.influencers;
    db.(influencers := db.influencers + added,
        influences := db.influences + AddInfluences(rows, |db.influencers|))
  }

  /** The types of the live influences of influencer `x`, in table order. */
  function TypesOf(xs: seq<Influence>, x: Id): (r: seq<string>)
    ensures |r| <= |xs|
  {
    if |xs| == 0 then []
    else (if !xs[0].deleted && xs[0].influencer == Some(x) then [xs[0].influenceType] else []) + TypesOf(xs[1..], x)
  }

  lemma {:induction false} TypesOfAppend(a: seq<Influence>, b: seq<Influence>, x: Id)
    ensures TypesOf(a + b, x) == TypesOf(a, x) + TypesOf(b, x)
  {
    if |a| == 0 {
      assert a + b == b;
    } else {
      assert (a + b)[1..] == a[1..] + b;
      TypesOfAppend(a[1..], b, x);
    }
  }

  lemma {:induction false} TypesOfTokens(tokens: seq<string>, y: Id, x: Id)
    ensures TypesOf(TokenInfluences(tokens, y), x) == if x == y then tokens else []
  {
    if |tokens| > 0 {
      TypesOfTokens(tokens[1..], y, x);
    }
  }

  /** No influence of `xs` points at `x` or beyond. */
  lemma {:induction false} TypesOfBelow(xs: seq<Influence>, x: Id)
    requires forall j :: 0 <= j < |xs| && xs[j].influencer.Some? ==> xs[j].influencer.value < x
    ensures TypesOf(xs, x) == []
  {
    if |xs| > 0 {
      TypesOfBelow(xs[1..], x);
    }
  }

  lemma {:induction false} TypesOfAbove(xs: seq<Influence>, x: Id)
    requires forall j :: 0 <= j < |xs| && xs[j].influencer.Some? ==> xs[j].influencer.value > x
    ensures TypesOf(xs, x) == []
  {
    if |xs| > 0 {
      TypesOfAbove(xs[1..], x);
    }
  }

  lemma {:induction false} TypesOfListed(lists: seq<seq<string>>, first: Id, k: nat)
    requires k < |lists|
    ensures TypesOf(TokenListInfluences(lists, first), first + k) == lists[k]
  {
    var head := TokenInfluences(lists[0], first);
    var tail := TokenListInfluences(lists[1..], first + 1);
    assert TokenListInfluences(lists, first) == head + tail;
    TypesOfAppend(head, tail, first + k);
    TypesOfTokens(lists[0], first, first + k);
    if k == 0 {
      TypesOfAbove(tail, first);
      assert TypesOf(head + tail, first) == lists[0] + [];
    } else {
      TypesOfListed(lists[1..], first + 1, k - 1);
      assert TypesOf(head + tail, first + k) == [] + lists[k];
    }
  }

  /** Every influence of the store points at an existing influencer. */
  predicate InfluencesLinked(db: Db) {
    forall j :: 0 <= j < |db.influences| && db.influences[j].influencer.Some? ==>
      db.influences[j].influencer.value < |db.influencers|
  }

  /** The influencer row `k` creates has exactly one influence per token of
      its influence cell, in token order. */
  lemma {:induction false} InsertedInfluences(db: Db, projectId: string, processId: string, rows: seq<InfluencerItem>, k: nat)
    requires InfluencesLinked(db) && k < |rows|
    ensures TypesOf(InsertInfluencers(db, projectId, processId, rows).influences, |db.influencers| + k)
         == Split(rows[k].influence, '|')
  {
    AddedTypes(db.influences, rows, |db.influencers|, k);
  }

  lemma {:induction false} AddedTypes(before: seq<Influence>, rows: seq<InfluencerItem>, first: Id, k: nat)
    requires forall j :: 0 <= j < |before| && before[j].influencer.Some? ==> before[j].influencer.value < first
    requires k < |rows|
    ensures TypesOf(before + AddInfluences(rows, first), first + k) == Split(rows[k].influence, '|')
  {
    TypesOfAppend(before, AddInfluences(rows, first), first + k);
    TypesOfBelow(before, first + k);
    TypesOfListed(InfluenceCells(rows), first, k);
  }

  // ---------------------------------------------------------------------
  // deletions

  /** The influencer of stakeholder `s` for the future process of the
      project. */
  predicate InfluencerOf(x: Influencer, projectId: string, processId: string, s: Id) {
    !x.deleted && x.projectId == projectId && x.selectedFutureProcess == processId && x.stakeholder == Some(s)
  }

  function FirstInfluencerOf(xs: seq<Influencer>, projectId: string, processId: string, s: Id): (r: Option<Id>)
    ensures r.Some? ==> r.value < |xs| && InfluencerOf(xs[r.value], projectId, processId, s)
    ensures r.None? <==> forall j :: 0 <= j < |xs| ==> !InfluencerOf(xs[j], projectId, processId, s)
  {
    if |xs| == 0 then None
    else if InfluencerOf(xs[0], projectId, processId, s) then Some(0)
    else
      var rest := FirstInfluencerOf(xs[1..], projectId, processId, s);
      if rest.None? then None else Some(rest.value + 1)
  }

  /** The influencer a Delete row names
      (`findOne({ projectId, selectedFutureProcess, stakeholder: { id } })`);
      a row without a stakeholder finds nothing. */
  function DeleteTarget(db: Db, projectId: string, processId: string, row: InfluencerItem): (r: Option<Id>)
    ensures r.Some? ==> (row.stakeholderId.Some? && r.value < |db.influencers|
      && InfluencerOf(db.influencers[r.value], projectId, processId, row.stakeholderId.value))
  {
    if row.stakeholderId.None? then None
    else FirstInfluencerOf(db.influencers, projectId, processId, row.stakeholderId.value)
  }

  /** Some Delete row names influencer `x`. */
  predicate Dropped(db: Db, projectId: string, processId: string, rows: seq<InfluencerItem>, x: Option<Id>) {
    x.Some? && exists k :: 0 <= k < |rows| && DeleteTarget(db, projectId, processId, rows[k]) == x
  }

  /** `handleDeletions`: every influencer a row finds is soft-removed
      together with all its influences; rows that find nothing are
      skipped. */
  function DeleteInfluencers(db: Db, projectId: string, processId: string, rows: seq<InfluencerItem>): (r: Db)
    ensures r == db.(influencers := r.influencers, influences := r.influences)
    ensures |r.influencers| == |db.influencers| && |r.influences| == |db.influences|
    ensures forall i :: 0 <= i < |db.influencers| ==> (r.influencers[i]
      == db.influencers[i].(deleted := db.influencers[i].deleted || Dropped(db, projectId, processId, rows, Some(i))))
    ensures forall j :: 0 <= j < |db.influences| ==> (r.influences[j]
      == db.influences[j].(deleted := db.influences[j].deleted || Dropped(db, projectId, processId, rows, db.influences[j].influencer)))
  {
    db.(influencers := seq(|db.influencers|, i requires 0 <= i < |db.influencers| =>
          db.influencers[i].(deleted := db.influencers[i].deleted || Dropped(db, projectId, processId, rows, Some(i)))),
        influences := seq(|db.influences|, j requires 0 <= j < |db.influences| =>
          db.influences[j].(deleted := db.influences[j].deleted || Dropped(db, projectId, processId, rows, db.influences[j].influencer))))
  }

  /** After a deletion the influencer a row found has no live influence
      left, and a row whose stakeholder has no influencer changes nothing. */
  lemma {:induction false} DeleteEmptiesInfluencer(db: Db, projectId: string, processId: string, rows: seq<InfluencerItem>, k: nat)
    requires k < |rows| && DeleteTarget(db, projectId, processId, rows[k]).Some?
    ensures var x := DeleteTarget(db, projectId, processId, rows[k]).value;
      var r := DeleteInfluencers(db, projectId, processId, rows);
      r.influencers[x].deleted && TypesOf(r.influences, x) == []
  {
    var x := DeleteTarget(db, projectId, processId, rows[k]).value;
    var r := DeleteInfluencers(db, projectId, processId, rows);
    assert Dropped(db, projectId, processId, rows, Some(x));
    NoLiveTypes(r.influences, x);
  }

  lemma {:induction false} NoLiveTypes(xs: seq<Influence>, x: Id)
    requires forall j :: 0 <= j < |xs| && xs[j].influencer == Some(x) ==> xs[j].deleted
    ensures TypesOf(xs, x) == []
  {
    if |xs| > 0 {
      NoLiveTypes(xs[1..], x);
    }
  }

  // ---------------------------------------------------------------------
  // the whole upload

  /** The action cell of a row. */
  function ActionOf(item: InfluencerItem): string {
    item.action
  }

  /** The rows of one action, in file order: `dto.items.filter(i => i.action === a)`.
      `BucketCount` and `BucketAppend` state what it keeps. */
  function Bucket(items: seq<InfluencerItem>, action: string): (r: seq<InfluencerItem>)
    ensures |r| <= |items|
    ensures forall x :: x in r <==> x in items && x.action == action
  {
    if |items| == 0 then []
    else (if items[0].action == action then [items[0]] else []) + Bucket(items[1..], action)
  }

  /** The same rows as the generic filter on the action cell. */
  lemma {:induction false} BucketIsFilter(items: seq<InfluencerItem>, action: string)
    ensures Bucket(items, action) == Collections.Filter(items, ActionOf, action)
  {
    if |items| > 0 {
      BucketIsFilter(items[1..], action);
    }
  }

  /** Each row with the action is in its bucket as often as in the file,
      and no other row is. */
  lemma BucketCount(items: seq<InfluencerItem>, action: string)
    ensures forall x :: multiset(Bucket(items, action))[x] == if x.action == action then multiset(items)[x] else 0
  {
    BucketIsFilter(items, action);
    Collections.FilterCount(items, ActionOf, action);
  }

  /** When every row has one of the three actions, the buckets split the
      file: the Update rows, which are never applied and not counted in the
      summary, are exactly what the Add and Delete counts leave out. */
  lemma BucketsSplit(items: seq<InfluencerItem>)
    requires forall i :: 0 <= i < |items| ==> items[i].action == ADD || items[i].action == UPDATE || items[i].action == DELETE
    ensures |Bucket(items, ADD)| + |Bucket(items, UPDATE)| + |Bucket(items, DELETE)| == |items|
  {
    BucketIsFilter(items, ADD);
    BucketIsFilter(items, UPDATE);
    BucketIsFilter(items, DELETE);
    Collections.FilterPartition(items, ActionOf, ADD, UPDATE, DELETE);
  }

  /** The buckets keep the file order. */
  lemma BucketAppend(a: seq<InfluencerItem>, b: seq<InfluencerItem>, action: string)
    ensures Bucket(a + b, action) == Bucket(a, action) + Bucket(b, action)
  {
    BucketIsFilter(a + b, action);
    BucketIsFilter(a, action);
    BucketIsFilter(b, action);
    Collections.FilterAppend(a, b, ActionOf, action);
  }

  /** Inserts, then deletions; an Update row is never applied. */
  function ApplyInfluencers(db: Db, projectId: string, processId: string, items: seq<InfluencerItem>): (r: Db)
    ensures r == db.(influencers := r.influencers, influences := r.influences)
    ensures |r.influencers| == |db.influencers| + |Bucket(items, ADD)|
  {
    DeleteInfluencers(InsertInfluencers(db, projectId, processId, Bucket(items, ADD)), projectId, processId, Bucket(items, DELETE))
  }

  /** `influencerCreate`: the future process must exist (`processExists`
      is the process service's answer); then validate, which fails on a
      stakeholder code that does not parse; stop with the report of every
      row when some row has errors, otherwise apply and answer with the
      Add and Delete counts and no updates. */
  method ProcessInfluencers(u: Utils, db: Db, projectId: string, processId: string, processExists: bool, dto: InfluencerDto)
    returns (validated: Option<InfluencerDto>, outcome: Outcome)
    ensures !processExists ==> validated.None? && outcome.Failed?
    ensures processExists ==> (validated.None? <==> InfluencerValidation.AnyLookupFails(dto.items))
    ensures validated.None? ==> outcome.Failed?
    ensures validated.Some? ==> (outcome.Rejected? <==> validated.value.hasErrors)
    ensures validated.Some? ==> validated.value.file == dto.file && |validated.value.items| == |dto.items|
    ensures validated.Some? ==> (validated.value.hasErrors
      <==> dto.hasErrors || InfluencerValidation.AnyErrors(validated.value.items))
    ensures outcome.Rejected? ==> validated.Some? && outcome.report == InfluencerReport(validated.value.items)
    ensures outcome.Applied? ==> (&& validated.Some?
      && outcome.db == ApplyInfluencers(db, projectId, processId, validated.value.items)
      && outcome.response == UploadResponse(dto.file, |Bucket(validated.value.items, ADD)|, 0,
                                            |Bucket(validated.value.items, DELETE)|))
  {
    if !processExists {
      return None, Failed;
    }
    var rows;
    rows, validated := InfluencerValidation.ValidateInfluencerFile(u, db, projectId, processId, dto);
    if validated.None? {
      outcome := Failed;
      return;
    }
    var file := validated.value;
    if file.hasErrors {
      outcome := Rejected(InfluencerReport(file.items));
      return;
    }
    outcome := Applied(UploadResponse(dto.file, |Bucket(file.items, ADD)|, 0, |Bucket(file.items, DELETE)|),
                       ApplyInfluencers(db, projectId, processId, file.items));
  }

  // ---------------------------------------------------------------------
  // editing one influencer

  /** `InfluencesType`: one flag per influence key. */
  datatype InfluencesType = InfluencesType(sme: bool, pkl: bool, skl: bool, mapper: bool, influencer: bool)

  /** `InfluencerUpdate`. */
  datatype InfluencerUpdate = InfluencerUpdate(processId: string, excluded: bool, influences: InfluencesType)

  /** `dto.influences[key]`; a key the record does not have reads as
      false. */
  function Flag(f: InfluencesType, key: string): bool {
    if key == "sme" then f.sme
    else if key == "pkl" then f.pkl
    else if key == "skl" then f.skl
    else if key == "mapper" then f.mapper
    else if key == "influencer" then f.influencer
    else false
  }

  /** The influence type a flag asks for. */
  predicate Wanted(f: InfluencesType, t: string) {
    || (t == SME && f.sme) || (t == PKL && f.pkl) || (t == SKL && f.skl)
    || (t == MAPPER && f.mapper) || (t == INFLUENCER && f.influencer)
  }

  /** The refusals of `updateProcessInfluences`. */
  datatype EditError = InfluencerNotFound | MapperExists

  /** `getInfluencer`: the live influencer with this id, project and future
      process. */
  predicate Editable(db: Db, id: Id, projectId: string, processId: string) {
    id < |db.influencers| && !db.influencers[id].deleted
    && db.influencers[id].projectId == projectId && db.influencers[id].selectedFutureProcess == processId
  }

  /** The first live MAPPER influence, at or after `k`, of a live
      influencer of the process (`validateMapperInfluence`'s `findOne`). */
  function FirstMapper(db: Db, processId: string, k: nat): (r: Option<nat>)
    ensures r.Some? ==> k <= r.value && InfluencerValidation.MapperLink(db, processId, r.value)
    ensures r.Some? ==> forall j :: k <= j < r.value ==> !InfluencerValidation.MapperLink(db, processId, j)
    ensures r.None? <==> forall j :: k <= j < |db.influences| ==> !InfluencerValidation.MapperLink(db, processId, j)
    decreases |db.influences| - k
  {
    if k >= |db.influences| then None
    else if InfluencerValidation.MapperLink(db, processId, k) then Some(k)
    else FirstMapper(db, processId, k + 1)
  }

  /** The MAPPER influence found belongs to another influencer. */
  predicate MapperTaken(db: Db, processId: string, id: Id) {
    var m := FirstMapper(db, processId, 0);
    m.Some? && db.influences[m.value].influencer != Some(id)
  }

  /** The influences `insertOrDeleteInfluences` removes: the live ones of
      the influencer whose lower-cased type has no true flag. */
  predicate Unwanted(f: InfluencesType, id: Id, a: Influence) {
    !a.deleted && a.influencer == Some(id) && !Flag(f, ToLower(a.influenceType))
  }

  /** The table after the removals (`remove` is a hard delete). */
  function Remaining(f: InfluencesType, id: Id, xs: seq<Influence>): (r: seq<Influence>)
    ensures forall a :: a in r <==> a in xs && !Unwanted(f, id, a)
  {
    if |xs| == 0 then []
    else
      var n := |xs| - 1;
      var init := Remaining(f, id, xs[..n]);
      assert forall a :: a in xs <==> a in xs[..n] || a == xs[n] by { assert xs == xs[..n] + [xs[n]]; }
      if Unwanted(f, id, xs[n]) then init else init + [xs[n]]
  }

  /** The influencer had a live influence of type `t` when it was loaded. */
  predicate Loaded(db: Db, id: Id, t: string) {
    exists j :: 0 <= j < |db.influences| && !db.influences[j].deleted
      && db.influences[j].influencer == Some(id) && db.influences[j].influenceType == t
  }

  /** One key of the flag record: a new influence of the upper-cased key
      when the flag is true and no loaded influence has that type. */
  function AddIfMissing(db: Db, id: Id, flag: bool, key: string): (r: seq<Influence>)
    ensures r == [] || r == [Influence(ToUpper(key), Some(id), false)]
    ensures |r| == 1 <==> flag && !Loaded(db, id, ToUpper(key))
  {
    if flag && !Loaded(db, id, ToUpper(key)) then [Influence(ToUpper(key), Some(id), false)] else []
  }

  /** The influences added for the keys, in the record's key order. */
  function Additions(db: Db, id: Id, f: InfluencesType): (r: seq<Influence>) {
    AddIfMissing(db, id, f.sme, "sme") + AddIfMissing(db, id, f.pkl, "pkl") + AddIfMissing(db, id, f.skl, "skl")
    + AddIfMissing(db, id, f.mapper, "mapper") + AddIfMissing(db, id, f.influencer, "influencer")
  }

  /** `updateProcessInfluences`: a missing influencer is refused; asking
      for MAPPER when the process's MAPPER influence belongs to another
      influencer is refused; otherwise the unwanted influences are removed,
      the missing wanted ones added and `isExcluded` overwritten. */
  function UpdateProcessInfluences(db: Db, projectId: string, id: Id, dto: InfluencerUpdate): (r: Result<Db, EditError>)
    ensures r == Failure(InfluencerNotFound) <==> !Editable(db, id, projectId, dto.processId)
    ensures r == Failure(MapperExists) <==> (Editable(db, id, projectId, dto.processId)
      && dto.influences.mapper && MapperTaken(db, dto.processId, id))
    ensures r.Success? ==> (&& r.value == db.(influencers := r.value.influencers, influences := r.value.influences)
      && |r.value.influencers| == |db.influencers|
      && r.value.influencers[id] == db.influencers[id].(isExcluded := dto.excluded)
      && (forall i :: 0 <= i < |db.influencers| && i != id ==> r.value.influencers[i] == db.influencers[i]))
  {
    if !Editable(db, id, projectId, dto.processId) then Failure(InfluencerNotFound)
    else if dto.influences.mapper && MapperTaken(db, dto.processId, id) then Failure(MapperExists)
    else
      Success(db.(influences := Remaining(dto.influences, id, db.influences) + Additions(db, id, dto.influences),
                  influencers := db.influencers[id := db.influencers[id].(isExcluded := dto.excluded)]))
  }

  /** A MAPPER influence of the same influencer does not block the edit. */
  lemma OwnMapperAllowed(db: Db, projectId: string, id: Id, dto: InfluencerUpdate)
    requires Editable(db, id, projectId, dto.processId)
    requires var m := FirstMapper(db, dto.processId, 0); m.Some? && db.influences[m.value].influencer == Some(id)
    ensures UpdateProcessInfluences(db, projectId, id, dto).Success?
  {
  }

  /** Influence `t` of the influencer is live in the table. */
  predicate HasType(xs: seq<Influence>, id: Id, t: string) {
    exists a :: a in xs && !a.deleted && a.influencer == Some(id) && a.influenceType == t
  }

  lemma TypeKeys()
    ensures ToLower(SME) == "sme" && ToLower(PKL) == "pkl" && ToLower(SKL) == "skl"
    ensures ToLower(MAPPER) == "mapper" && ToLower(INFLUENCER) == "influencer"
    ensures ToUpper("sme") == SME && ToUpper("pkl") == PKL && ToUpper("skl") == SKL
    ensures ToUpper("mapper") == MAPPER && ToUpper("influencer") == INFLUENCER
  {
  }

  /** For a canonical type, its lower-cased key's flag is exactly whether
      the type is wanted. */
  lemma FlagOfType(f: InfluencesType, t: string)
    requires IsInfluenceType(t)
    ensures Flag(f, ToLower(t)) <==> Wanted(f, t)
  {
    TypeKeys();
  }

  /** The types an influence in the additions can have. */
  lemma AdditionsWanted(db: Db, id: Id, f: InfluencesType, a: Influence)
    requires a in Additions(db, id, f)
    ensures a.influencer == Some(id) && !a.deleted && Wanted(f, a.influenceType)
    ensures !Loaded(db, id, a.influenceType)
  {
    TypeKeys();
  }

  /** A wanted type the influencer lacked is among the additions. */
  lemma WantedAdded(db: Db, id: Id, f: InfluencesType, t: string)
    requires Wanted(f, t) && !Loaded(db, id, t)
    ensures Influence(t, Some(id), false) in Additions(db, id, f)
  {
    TypeKeys();
  }

  /** When every live influence of the influencer has one of the five
      types, after the edit its live types are exactly the types whose flag
      is true. */
  lemma {:induction false} EditedTypes(db: Db, projectId: string, id: Id, dto: InfluencerUpdate, t: string)
    requires UpdateProcessInfluences(db, projectId, id, dto).Success?
    requires forall j :: 0 <= j < |db.influences| ==>
      (!db.influences[j].deleted && db.influences[j].influencer == Some(id) ==> IsInfluenceType(db.influences[j].influenceType))
    ensures HasType(UpdateProcessInfluences(db, projectId, id, dto).value.influences, id, t) <==> Wanted(dto.influences, t)
  {
    var f := dto.influences;
    var kept := Remaining(f, id, db.influences);
    var added := Additions(db, id, f);
    var xs := UpdateProcessInfluences(db, projectId, id, dto).value.influences;
    assert xs == kept + added;
    if HasType(xs, id, t) {
      var a :| a in xs && !a.deleted && a.influencer == Some(id) && a.influenceType == t;
      if a in kept {
        var j :| 0 <= j < |db.influences| && db.influences[j] == a;
        FlagOfType(f, t);
      } else {
        AdditionsWanted(db, id, f, a);
      }
    }
    if Wanted(f, t) {
      if Loaded(db, id, t) {
        var j :| 0 <= j < |db.influences| && !db.influences[j].deleted
          && db.influences[j].influencer == Some(id) && db.influences[j].influenceType == t;
        FlagOfType(f, t);
        assert db.influences[j] in kept;
      } else {
        WantedAdded(db, id, f, t);
        assert Influence(t, Some(id), false) in xs;
      }
    }
  }

  /** No two influences of `xs` have the same type. */
  predicate DistinctTypes(xs: seq<Influence>) {
    forall i, j :: 0 <= i < j < |xs| ==> xs[i].influenceType != xs[j].influenceType
  }

  lemma DistinctTypesAppend(a: seq<Influence>, b: seq<Influence>)
    requires DistinctTypes(a) && DistinctTypes(b)
    requires forall i, j :: 0 <= i < |a| && 0 <= j < |b| ==> a[i].influenceType != b[j].influenceType
    ensures DistinctTypes(a + b)
  {
  }

  /** No type is added twice, and none the influencer already had. */
  lemma AdditionsFresh(db: Db, id: Id, f: InfluencesType)
    ensures DistinctTypes(Additions(db, id, f))
    ensures forall a :: a in Additions(db, id, f) ==> !Loaded(db, id, a.influenceType)
  {
    TypeKeys();
    var p1 := AddIfMissing(db, id, f.sme, "sme");
    var p2 := AddIfMissing(db, id, f.pkl, "pkl");
    var p3 := AddIfMissing(db, id, f.skl, "skl");
    var p4 := AddIfMissing(db, id, f.mapper, "mapper");
    var p5 := AddIfMissing(db, id, f.influencer, "influencer");
    DistinctTypesAppend(p1, p2);
    DistinctTypesAppend(p1 + p2, p3);
    DistinctTypesAppend(p1 + p2 + p3, p4);
    DistinctTypesAppend(p1 + p2 + p3 + p4, p5);
    forall a | a in Additions(db, id, f)
      ensures !Loaded(db, id, a.influenceType)
    {
      AdditionsWanted(db, id, f, a);
    }
  }
}
