/** The checks of an influencer file (`influencer-validate-file.service.ts`):
    every row's action, influence list, excluded flag and stakeholder code,
    then one pass over the whole file for the single MAPPER influence of a
    future process. */
module InfluencerValidation {
  import opened Wrappers
  import opened Collections
  import opened Text
  import opened Store
  import opened UploadDto
  import opened Messages

  /** The influence cell read as a `|`-separated list. */
  function Tokens(item: InfluencerItem): seq<string> {
    Split(item.influence, '|')
  }

  /** An influencer row may only add or delete. */
  predicate ActionOk(action: string) {
    action == ADD || action == DELETE
  }

  predicate ExcludedOk(excluded: string) {
    excluded == "TRUE" || excluded == "FALSE"
  }

  /** `validateAction`. */
  function ValidateAction(action: string): (e: seq<Msg>)
    ensures forall m :: m in e ==> m == InfluencerActionInvalid
    ensures InfluencerActionInvalid in e <==> !ActionOk(action)
  {
    When(!ActionOk(action), InfluencerActionInvalid)
  }

  /** `validateExcluded`. */
  function ValidateExcluded(excluded: string): (e: seq<Msg>)
    ensures forall m :: m in e ==> m == ExcludedInvalid
    ensures ExcludedInvalid in e <==> !ExcludedOk(excluded)
  {
    When(!ExcludedOk(excluded), ExcludedInvalid)
  }

  /** One message per unknown token, in order. */
  function Invalids(ts: seq<string>): (r: seq<Msg>)
    ensures forall m :: m in r ==> m.InfluenceInvalid?
    ensures forall t :: InfluenceInvalid(t) in r <==> t in ts
  {
    if |ts| == 0 then [] else [InfluenceInvalid(ts[0])] + Invalids(ts[1..])
  }

  /** `xs` lists tokens of `tokens` in the order of their first
      appearance there. */
  ghost predicate InTokenOrder(tokens: seq<string>, xs: seq<string>) {
    && (forall k :: 0 <= k < |xs| ==> xs[k] in tokens)
    && (forall i, j :: 0 <= i < j < |xs| ==> FirstIndex(tokens, xs[i]) < FirstIndex(tokens, xs[j]))
  }

  /** The unknown tokens of a list, once each, in order of first
      appearance. */
  ghost predicate UnknownOf(tokens: seq<string>, unknown: seq<string>) {
    && (forall t :: t in unknown <==> t in tokens && !IsInfluenceType(t))
    && NoDup(unknown)
    && InTokenOrder(tokens, unknown)
  }

  /** The `forEach` over the `Set` of tokens, keeping the unknown ones. */
  function KeepUnknown(ds: seq<string>): (r: seq<string>)
    ensures forall t :: t in r <==> t in ds && !IsInfluenceType(t)
  {
    if |ds| == 0 then []
    else (if IsInfluenceType(ds[0]) then [] else [ds[0]]) + KeepUnknown(ds[1..])
  }

  lemma OrderTail(tokens: seq<string>, ds: seq<string>)
    requires |ds| > 0 && NoDup(ds) && InTokenOrder(tokens, ds)
    ensures NoDup(ds[1..]) && InTokenOrder(tokens, ds[1..])
  {
    var rest := ds[1..];
    forall i, j | 0 <= i < j < |rest|
      ensures rest[i] != rest[j] && FirstIndex(tokens, rest[i]) < FirstIndex(tokens, rest[j])
    {
      assert rest[i] == ds[i + 1] && rest[j] == ds[j + 1];
    }
  }

  /** The first token comes before every token kept from the rest. */
  lemma HeadFirst(tokens: seq<string>, ds: seq<string>, kept: seq<string>)
    requires |ds| > 0 && NoDup(ds) && InTokenOrder(tokens, ds)
    requires InTokenOrder(tokens, kept)
    requires forall t :: t in kept ==> t in ds[1..]
    ensures forall j :: 0 <= j < |kept| ==> kept[j] != ds[0] && FirstIndex(tokens, ds[0]) < FirstIndex(tokens, kept[j])
  {
    forall j | 0 <= j < |kept|
      ensures kept[j] != ds[0] && FirstIndex(tokens, ds[0]) < FirstIndex(tokens, kept[j])
    {
      assert kept[j] in ds[1..];
      var k :| 0 <= k < |ds[1..]| && ds[1..][k] == kept[j];
      assert ds[k + 1] == kept[j];
    }
  }

  lemma OrderCons(tokens: seq<string>, x: string, kept: seq<string>)
    requires x in tokens && NoDup(kept) && InTokenOrder(tokens, kept)
    requires forall j :: 0 <= j < |kept| ==> kept[j] != x && FirstIndex(tokens, x) < FirstIndex(tokens, kept[j])
    ensures NoDup([x] + kept) && InTokenOrder(tokens, [x] + kept)
  {
    var r := [x] + kept;
    forall i, j | 0 <= i < j < |r| ensures r[i] != r[j] && FirstIndex(tokens, r[i]) < FirstIndex(tokens, r[j]) {
      assert r[j] == kept[j - 1];
      if i > 0 {
        assert r[i] == kept[i - 1];
      }
    }
  }

  /** Keeping some tokens keeps them distinct and in order. */
  lemma {:induction false} KeepUnknownOrder(tokens: seq<string>, ds: seq<string>)
    requires NoDup(ds) && InTokenOrder(tokens, ds)
    ensures NoDup(KeepUnknown(ds)) && InTokenOrder(tokens, KeepUnknown(ds))
  {
    if |ds| > 0 {
      OrderTail(tokens, ds);
      KeepUnknownOrder(tokens, ds[1..]);
      var kept := KeepUnknown(ds[1..]);
      if !IsInfluenceType(ds[0]) {
        HeadFirst(tokens, ds, kept);
        OrderCons(tokens, ds[0], kept);
      }
    }
  }

  /** The `Set` of tokens, filtered to the unknown ones. */
  function UnknownTokens(tokens: seq<string>): (unknown: seq<string>)
    ensures UnknownOf(tokens, unknown)
  {
    var unique := Distinct(tokens);
    KeepUnknownOrder(tokens, unique);
    KeepUnknown(unique)
  }

  predicate InfluenceMessage(m: Msg) {
    m == InfluenceNotUnique || m.InfluenceInvalid?
  }

  /** `validateInfluence`: a repeated token is reported once, first; then
      every unknown token, once each, in the order `UnknownTokens` gives
      (the iteration order of a JavaScript `Set`). */
  method ValidateInfluence(influence: string) returns (e: seq<Msg>)
    ensures forall m :: m in e ==> InfluenceMessage(m)
    ensures InfluenceNotUnique in e <==> !NoDup(Split(influence, '|'))
    ensures InfluenceNotUnique in e ==> e[0] == InfluenceNotUnique
    ensures forall t :: InfluenceInvalid(t) in e <==> t in Split(influence, '|') && !IsInfluenceType(t)
  {
    var tokens := Split(influence, '|');
    DistinctSize(tokens);
    e := When(|Distinct(tokens)| != |tokens|, InfluenceNotUnique) + Invalids(UnknownTokens(tokens));
  }

  /** Some live stakeholder of the project has the code this cell parses to. */
  predicate Known(db: Db, projectId: string, code: string) {
    StakeholderExists(db, projectId, ParseInt(code))
  }

  /** The stakeholder already is an influencer of the future process. */
  predicate Influencing(db: Db, processId: string, s: Id) {
    exists j :: 0 <= j < |db.influencers| && InfluencerFor(db.influencers[j], processId, s)
  }

  predicate LookupMessage(m: Msg) {
    m == IdNotFound || m == InfluencerNotFound || m == InfluencerExists
  }

  /** The stakeholder lookup of `validateStakeholders` runs even after the
      must-be-numeric message: a code that does not parse sends NaN to the
      database, and the statement fails. */
  predicate LookupFails(item: InfluencerItem) {
    ParseInt(item.stakeholderCode).None?
  }

  /** The store half of `validateStakeholders`: the stakeholder with the
      row's code, and for a found one whether it already is an influencer
      of the process. At most one message; nothing when the lookup
      fails. */
  method LookupStakeholder(db: Db, projectId: string, processId: string, item: InfluencerItem)
    returns (failed: bool, e: seq<Msg>, found: Option<Id>)
    ensures failed <==> LookupFails(item)
    ensures failed ==> e == [] && found.None?
    ensures |e| <= 1 && forall m :: m in e ==> LookupMessage(m)
    ensures found.Some? <==> Known(db, projectId, item.stakeholderCode)
    ensures found.Some? ==> (found.value < |db.stakeholders|
      && StakeholderWithCode(db.stakeholders[found.value], projectId, ParseInt(item.stakeholderCode).value))
    ensures IdNotFound in e <==> !failed && found.None?
    ensures InfluencerNotFound in e <==> (found.Some? && item.action == DELETE
      && !Influencing(db, processId, found.value))
    ensures InfluencerExists in e <==> (found.Some? && item.action == ADD
      && Influencing(db, processId, found.value))
  {
    if LookupFails(item) {
      return true, [], None;
    }
    failed := false;
    found := StakeholderByCode(db, projectId, ParseInt(item.stakeholderCode));
    if found.None? {
      e := [IdNotFound];
    } else {
      var influencer := InfluencerByStakeholder(db, processId, found.value);
      if influencer.None? && item.action == DELETE {
        e := [InfluencerNotFound];
      } else if influencer.Some? && item.action == ADD {
        e := [InfluencerExists];
      } else {
        e := [];
      }
    }
  }

  predicate CellMessage(m: Msg) {
    m == InfluencerActionInvalid || m == InfluenceNotUnique || m.InfluenceInvalid? || m == ExcludedInvalid
  }

  predicate StakeholderMessage(m: Msg) {
    m == IdDuplicated || m == IdNotNumeric || LookupMessage(m)
  }

  /** The messages of the checks of the action, influence and excluded
      cells, with the outcome of each check given as a flag. */
  ghost predicate CellFlags(e: seq<Msg>, badAction: bool, repeated: bool, tokens: seq<string>, badExcluded: bool) {
    && (InfluencerActionInvalid in e <==> badAction)
    && (InfluenceNotUnique in e <==> repeated)
    && (forall t :: InfluenceInvalid(t) in e <==> t in tokens && !IsInfluenceType(t))
    && (ExcludedInvalid in e <==> badExcluded)
  }

  /** The messages of the stakeholder checks, likewise. */
  ghost predicate StakeholderFlags(e: seq<Msg>, duplicated: bool, notNumeric: bool, notFound: bool,
                                   notInfluencer: bool, influencer: bool) {
    && (IdDuplicated in e <==> duplicated)
    && (IdNotNumeric in e <==> notNumeric)
    && (IdNotFound in e <==> notFound)
    && (InfluencerNotFound in e <==> notInfluencer)
    && (InfluencerExists in e <==> influencer)
  }

  /** Stakeholder messages appended after the cell messages leave the
      cell flags as they were. */
  lemma CellsKept(x: seq<Msg>, y: seq<Msg>, f1: bool, f2: bool, tokens: seq<string>, f3: bool)
    requires CellFlags(x, f1, f2, tokens, f3)
    requires forall m :: m in y ==> StakeholderMessage(m)
    ensures CellFlags(x + y, f1, f2, tokens, f3)
  {
    assert InfluencerActionInvalid !in y && InfluenceNotUnique !in y && ExcludedInvalid !in y;
    assert forall t :: InfluenceInvalid(t) !in y;
  }

  /** Cell messages before the stakeholder messages leave the stakeholder
      flags as they were. */
  lemma StakeholdersKept(x: seq<Msg>, y: seq<Msg>, g1: bool, g2: bool, g3: bool, g4: bool, g5: bool)
    requires forall m :: m in x ==> CellMessage(m)
    requires StakeholderFlags(y, g1, g2, g3, g4, g5)
    ensures StakeholderFlags(x + y, g1, g2, g3, g4, g5)
  {
    assert IdDuplicated !in x && IdNotNumeric !in x && IdNotFound !in x;
    assert InfluencerNotFound !in x && InfluencerExists !in x;
  }

  /** The messages the row checks append to one influencer row; `found`
      is the stakeholder the row's code names, if any. */
  ghost predicate RowMessagesOk(u: Utils, db: Db, projectId: string, processId: string,
                                counts: map<string, nat>, item: InfluencerItem, found: Option<Id>, e: seq<Msg>) {
    && CellFlags(e, !ActionOk(item.action), !NoDup(Tokens(item)), Tokens(item), !ExcludedOk(item.excluded))
    && StakeholderFlags(e, Repeated(counts, item.stakeholderCode), !u.isNumber(item.stakeholderCode),
         !Known(db, projectId, item.stakeholderCode),
         found.Some? && item.action == DELETE && !Influencing(db, processId, found.value),
         found.Some? && item.action == ADD && Influencing(db, processId, found.value))
  }

  /** One influencer row after the row checks: messages are appended, and
      the id of the stakeholder is recorded when its code is known. */
  ghost predicate RowChecked(u: Utils, db: Db, projectId: string, processId: string,
                       counts: map<string, nat>, before: InfluencerItem, after: InfluencerItem) {
    && after == before.(errors := after.errors, stakeholderId := after.stakeholderId)
    && Extends(before.errors, after.errors)
    && (!Known(db, projectId, before.stakeholderCode) ==> after.stakeholderId == before.stakeholderId)
    && (Known(db, projectId, before.stakeholderCode) ==> (after.stakeholderId.Some?
         && after.stakeholderId.value < |db.stakeholders|
         && StakeholderWithCode(db.stakeholders[after.stakeholderId.value], projectId,
                                ParseInt(before.stakeholderCode).value)))
    && RowMessagesOk(u, db, projectId, processId, counts, before,
                     if Known(db, projectId, before.stakeholderCode) then after.stakeholderId else None,
                     Added(before.errors, after.errors))
  }

  /** The checks of the action, influence and excluded cells. */
  method CheckCells(item: InfluencerItem) returns (x: seq<Msg>)
    ensures forall m :: m in x ==> CellMessage(m)
    ensures CellFlags(x, !ActionOk(item.action), !NoDup(Tokens(item)), Tokens(item), !ExcludedOk(item.excluded))
  {
    var a := ValidateAction(item.action);
    var b := ValidateInfluence(item.influence);
    var c := ValidateExcluded(item.excluded);
    assert InfluencerActionInvalid !in b && InfluencerActionInvalid !in c;
    assert ExcludedInvalid !in a && ExcludedInvalid !in b;
    assert InfluenceNotUnique !in a && InfluenceNotUnique !in c;
    assert forall t :: InfluenceInvalid(t) !in a && InfluenceInvalid(t) !in c;
    x := a + b + c;
  }

  /** The file checks of the stakeholder code come before the store
      lookup's message, and the two do not mix. */
  lemma StakeholderCombine(dup: bool, notNumeric: bool, l: seq<Msg>, g3: bool, g4: bool, g5: bool)
    requires forall m :: m in l ==> LookupMessage(m)
    requires (IdNotFound in l <==> g3) && (InfluencerNotFound in l <==> g4) && (InfluencerExists in l <==> g5)
    ensures forall m :: m in When(dup, IdDuplicated) + When(notNumeric, IdNotNumeric) + l ==> StakeholderMessage(m)
    ensures StakeholderFlags(When(dup, IdDuplicated) + When(notNumeric, IdNotNumeric) + l, dup, notNumeric, g3, g4, g5)
  {
    assert IdDuplicated !in l && IdNotNumeric !in l;
  }

  /** `validateStakeholders`: the code must be unique in the file and
      numeric, then the store lookup, which fails on a code that does not
      parse. */
  method CheckStakeholder(u: Utils, db: Db, projectId: string, processId: string,
                          counts: map<string, nat>, item: InfluencerItem)
    returns (failed: bool, y: seq<Msg>, found: Option<Id>)
    ensures failed <==> LookupFails(item)
    ensures forall m :: m in y ==> StakeholderMessage(m)
    ensures found.Some? <==> Known(db, projectId, item.stakeholderCode)
    ensures found.Some? ==> (found.value < |db.stakeholders|
      && StakeholderWithCode(db.stakeholders[found.value], projectId, ParseInt(item.stakeholderCode).value))
    ensures !failed ==> StakeholderFlags(y, Repeated(counts, item.stakeholderCode), !u.isNumber(item.stakeholderCode),
      found.None?,
      found.Some? && item.action == DELETE && !Influencing(db, processId, found.value),
      found.Some? && item.action == ADD && Influencing(db, processId, found.value))
  {
    var dup := Repeated(counts, item.stakeholderCode);
    var notNumeric := !u.isNumber(item.stakeholderCode);
    var l;
    failed, l, found := LookupStakeholder(db, projectId, processId, item);
    y := When(dup, IdDuplicated) + When(notNumeric, IdNotNumeric) + l;
    StakeholderCombine(dup, notNumeric, l, IdNotFound in l, InfluencerNotFound in l, InfluencerExists in l);
  }

  /** The row's messages are the cell messages, then the stakeholder
      messages. */
  lemma RowAssembled(u: Utils, db: Db, projectId: string, processId: string,
                     counts: map<string, nat>, item: InfluencerItem, x: seq<Msg>, y: seq<Msg>, found: Option<Id>)
    requires forall m :: m in x ==> CellMessage(m)
    requires CellFlags(x, !ActionOk(item.action), !NoDup(Tokens(item)), Tokens(item), !ExcludedOk(item.excluded))
    requires forall m :: m in y ==> StakeholderMessage(m)
    requires found.Some? <==> Known(db, projectId, item.stakeholderCode)
    requires found.Some? ==> (found.value < |db.stakeholders|
      && StakeholderWithCode(db.stakeholders[found.value], projectId, ParseInt(item.stakeholderCode).value))
    requires StakeholderFlags(y, Repeated(counts, item.stakeholderCode), !u.isNumber(item.stakeholderCode),
      found.None?,
      found.Some? && item.action == DELETE && !Influencing(db, processId, found.value),
      found.Some? && item.action == ADD && Influencing(db, processId, found.value))
    ensures RowMessagesOk(u, db, projectId, processId, counts, item, found, x + y)
  {
    CellsKept(x, y, !ActionOk(item.action), !NoDup(Tokens(item)), Tokens(item), !ExcludedOk(item.excluded));
    StakeholdersKept(x, y, Repeated(counts, item.stakeholderCode), !u.isNumber(item.stakeholderCode),
      found.None?, found.Some? && item.action == DELETE && !Influencing(db, processId, found.value),
      found.Some? && item.action == ADD && Influencing(db, processId, found.value));
  }

  /** The row with its messages appended and the stakeholder's id
      recorded. */
  lemma RowRecorded(u: Utils, db: Db, projectId: string, processId: string,
                    counts: map<string, nat>, item: InfluencerItem, e: seq<Msg>, found: Option<Id>)
    requires found.Some? <==> Known(db, projectId, item.stakeholderCode)
    requires found.Some? ==> (found.value < |db.stakeholders|
      && StakeholderWithCode(db.stakeholders[found.value], projectId, ParseInt(item.stakeholderCode).value))
    requires RowMessagesOk(u, db, projectId, processId, counts, item, found, e)
    ensures RowChecked(u, db, projectId, processId, counts, item,
      item.(errors := item.errors + e, stakeholderId := if found.Some? then found else item.stakeholderId))
  {
    var r := item.(errors := item.errors + e, stakeholderId := if found.Some? then found else item.stakeholderId);
    assert Added(item.errors, r.errors) == e;
  }

  /** `validateItems`: action, influence, excluded, then stakeholder
      (duplicate, numeric, then the store lookup); nothing when the lookup
      fails. */
  method ValidateRow(u: Utils, db: Db, projectId: string, processId: string,
                     counts: map<string, nat>, item: InfluencerItem)
    returns (r: Option<InfluencerItem>)
    ensures r.None? <==> LookupFails(item)
    ensures r.Some? ==> RowChecked(u, db, projectId, processId, counts, item, r.value)
  {
    var x := CheckCells(item);
    var failed, y, found := CheckStakeholder(u, db, projectId, processId, counts, item);
    if failed {
      return None;
    }
    RowAssembled(u, db, projectId, processId, counts, item, x, y, found);
    RowRecorded(u, db, projectId, processId, counts, item, x + y, found);
    r := Some(item.(errors := item.errors + (x + y), stakeholderId := if found.Some? then found else item.stakeholderId));
  }

  // ---------------------------------------------------------------------
  // the MAPPER pass

  /** Influence `k` is a live MAPPER influence of a live influencer of the
      future process. */
  predicate MapperLink(db: Db, processId: string, k: int) {
    && 0 <= k < |db.influences|
    && !db.influences[k].deleted
    && db.influences[k].influenceType == MAPPER
    && db.influences[k].influencer.Some?
    && db.influences[k].influencer.value < |db.influencers|
    && !db.influencers[db.influences[k].influencer.value].deleted
    && db.influencers[db.influences[k].influencer.value].selectedFutureProcess == processId
  }

  /** The future process already has a mapper. */
  ghost predicate HasMapper(db: Db, processId: string) {
    exists k :: MapperLink(db, processId, k)
  }

  /** The query for the influencers of the process holding a MAPPER
      influence, reduced to whether it finds any. */
  method FindMapper(db: Db, processId: string) returns (b: bool)
    ensures b <==> HasMapper(db, processId)
  {
    for k := 0 to |db.influences|
      invariant forall j :: 0 <= j < k ==> !MapperLink(db, processId, j)
    {
      if MapperLink(db, processId, k) {
        return true;
      }
    }
    return false;
  }

  /** A row that asks for the MAPPER influence: it does not delete and
      MAPPER is one of its tokens. */
  predicate ClaimsMapper(item: InfluencerItem) {
    item.action != DELETE && MAPPER in Tokens(item)
  }

  /** The number of rows that ask for the MAPPER influence. */
  function MapperClaims(items: seq<InfluencerItem>): (n: nat)
    ensures n <= |items|
    ensures n == 0 <==> forall i :: 0 <= i < |items| ==> !ClaimsMapper(items[i])
  {
    if |items| == 0 then 0
    else MapperClaims(items[..|items| - 1]) + (if ClaimsMapper(items[|items| - 1]) then 1 else 0)
  }

  lemma MapperClaimsStep(items: seq<InfluencerItem>, i: nat)
    requires i < |items|
    ensures MapperClaims(items[..i + 1]) == MapperClaims(items[..i]) + (if ClaimsMapper(items[i]) then 1 else 0)
  {
    assert items[..i + 1][..i] == items[..i];
  }

  /** The count of claims depends on the actions and influence cells only,
      so the row checks, which change neither, leave it as it was. */
  lemma {:induction false} MapperClaimsKept(a: seq<InfluencerItem>, b: seq<InfluencerItem>)
    requires |a| == |b|
    requires forall i :: 0 <= i < |a| ==> a[i].action == b[i].action && a[i].influence == b[i].influence
    ensures MapperClaims(a) == MapperClaims(b)
  {
    if |a| > 0 {
      MapperClaimsKept(a[..|a| - 1], b[..|b| - 1]);
    }
  }

  /** One row after the MAPPER pass: a claiming row is refused when the
      process already has a mapper, and when more than one row claims it
      every row whose raw cell contains "MAPPER" is refused, whatever its
      action. */
  predicate MapperChecked(hasMapper: bool, claims: nat, before: InfluencerItem, after: InfluencerItem) {
    after == before.(errors := before.errors
                               + When(ClaimsMapper(before) && hasMapper, MapperExists)
                               + When(claims > 1 && Includes(before.influence, MAPPER), MapperRepeated))
  }

  /** The first pass of `validateMapper` on one row. */
  function FlagExisting(hasMapper: bool, item: InfluencerItem): InfluencerItem {
    if ClaimsMapper(item) && hasMapper then item.(errors := item.errors + [MapperExists]) else item
  }

  /** The second pass of `validateMapper` on one row: the raw cell is
      searched for the text "MAPPER", whatever the row's action. */
  function FlagRepeated(claims: nat, item: InfluencerItem): InfluencerItem {
    if claims > 1 && Includes(item.influence, MAPPER) then item.(errors := item.errors + [MapperRepeated]) else item
  }

  lemma FlagsChecked(hasMapper: bool, claims: nat, item: InfluencerItem)
    ensures MapperChecked(hasMapper, claims, item, FlagRepeated(claims, FlagExisting(hasMapper, item)))
  {
  }

  lemma FlagStep(hasMapper: bool, items: seq<InfluencerItem>, r: seq<InfluencerItem>, i: nat, item: InfluencerItem)
    requires i < |items| && |r| == i && forall k :: 0 <= k < i ==> r[k] == FlagExisting(hasMapper, items[k])
    requires item == FlagExisting(hasMapper, items[i])
    ensures forall k :: 0 <= k < i + 1 ==> (r + [item])[k] == FlagExisting(hasMapper, items[k])
  {
  }

  /** The first pass: count the claims and flag them when the process
      already has a mapper. */
  method FirstPass(hasMapper: bool, items: seq<InfluencerItem>) returns (count: nat, r: seq<InfluencerItem>)
    ensures count == MapperClaims(items)
    ensures |r| == |items| && forall i :: 0 <= i < |items| ==> r[i] == FlagExisting(hasMapper, items[i])
  {
    count := 0;
    r := [];
    for i := 0 to |items|
      invariant count == MapperClaims(items[..i])
      invariant |r| == i && forall k :: 0 <= k < i ==> r[k] == FlagExisting(hasMapper, items[k])
    {
      MapperClaimsStep(items, i);
      var item := items[i];
      if ClaimsMapper(item) {
        count := count + 1;
        if hasMapper {
          item := item.(errors := item.errors + [MapperExists]);
        }
      }
      FlagStep(hasMapper, items, r, i, item);
      r := r + [item];
    }
    assert items[..|items|] == items;
  }

  /** The second pass: when more than one row claims MAPPER, flag every
      row whose cell contains it. */
  method SecondPass(count: nat, items: seq<InfluencerItem>) returns (r: seq<InfluencerItem>)
    ensures |r| == |items| && forall i :: 0 <= i < |items| ==> r[i] == FlagRepeated(count, items[i])
  {
    r := [];
    for i := 0 to |items|
      invariant |r| == i && forall k :: 0 <= k < i ==> r[k] == FlagRepeated(count, items[k])
    {
      var item := items[i];
      if count > 1 && Includes(item.influence, MAPPER) {
        item := item.(errors := item.errors + [MapperRepeated]);
      }
      r := r + [item];
    }
  }

  /** `validateMapper`: the two passes over the rows. */
  method ValidateMapper(db: Db, processId: string, items: seq<InfluencerItem>) returns (r: seq<InfluencerItem>)
    ensures |r| == |items|
    ensures forall i :: 0 <= i < |items| ==>
      MapperChecked(HasMapper(db, processId), MapperClaims(items), items[i], r[i])
  {
    var hasMapper := FindMapper(db, processId);
    var count, first := FirstPass(hasMapper, items);
    r := SecondPass(count, first);
    forall i | 0 <= i < |items|
      ensures MapperChecked(hasMapper, count, items[i], r[i])
    {
      FlagsChecked(hasMapper, count, items[i]);
    }
  }

  /** After the MAPPER pass every row claiming MAPPER carries an error
      when the process already has a mapper or another row claims it too:
      a file that passes claims MAPPER at most once, and only for a process
      without a mapper. */
  lemma MapperRefused(hasMapper: bool, items: seq<InfluencerItem>, r: seq<InfluencerItem>)
    requires |r| == |items|
    requires forall i :: 0 <= i < |items| ==> MapperChecked(hasMapper, MapperClaims(items), items[i], r[i])
    ensures forall i :: 0 <= i < |items| && ClaimsMapper(items[i]) && (hasMapper || MapperClaims(items) > 1) ==>
      |r[i].errors| > |items[i].errors|
  {
    forall i | 0 <= i < |items| && ClaimsMapper(items[i])
      ensures Includes(items[i].influence, MAPPER)
    {
      SplitIncludes(items[i].influence, '|', MAPPER);
    }
  }

  predicate AnyErrors(items: seq<InfluencerItem>) {
    exists i :: 0 <= i < |items| && |items[i].errors| > 0
  }

  /** Some row's stakeholder lookup fails. */
  predicate AnyLookupFails(items: seq<InfluencerItem>) {
    exists i :: 0 <= i < |items| && LookupFails(items[i])
  }

  /** The row checks of every row, in file order; nothing when a lookup
      fails. The first failure discards every row checked before it, so
      the model tests for one before the loop. */
  method CheckRows(u: Utils, db: Db, projectId: string, processId: string,
                   counts: map<string, nat>, items: seq<InfluencerItem>)
    returns (rows: Option<seq<InfluencerItem>>)
    ensures rows.None? <==> AnyLookupFails(items)
    ensures rows.Some? ==> |rows.value| == |items|
    ensures rows.Some? ==> forall i :: 0 <= i < |items| ==> RowChecked(u, db, projectId, processId, counts, items[i], rows.value[i])
  {
    if AnyLookupFails(items) {
      return None;
    }
    var done := [];
    for i := 0 to |items|
      invariant |done| == i
      invariant forall k :: 0 <= k < i ==> RowChecked(u, db, projectId, processId, counts, items[k], done[k])
    {
      var item := ValidateRow(u, db, projectId, processId, counts, items[i]);
      done := done + [item.value];
    }
    rows := Some(done);
  }

  /** `validateFile`: the count of every stakeholder code in the file, the
      row checks (giving `rows`), the MAPPER pass, then the file flagged
      when some row has errors. A failing stakeholder lookup aborts the
      validation: there are then no rows and no file. */
  method ValidateInfluencerFile(u: Utils, db: Db, projectId: string, processId: string, dto: InfluencerDto)
    returns (rows: Option<seq<InfluencerItem>>, r: Option<InfluencerDto>)
    ensures r.None? <==> AnyLookupFails(dto.items)
    ensures rows.None? <==> r.None?
    ensures rows.Some? ==> |rows.value| == |dto.items|
    ensures r.Some? ==> |r.value.items| == |dto.items|
    ensures rows.Some? ==> forall i :: 0 <= i < |dto.items| ==>
      RowChecked(u, db, projectId, processId, CountMap(dto.stakeholderIds), dto.items[i], rows.value[i])
    ensures r.Some? ==> forall i :: 0 <= i < |dto.items| ==>
      MapperChecked(HasMapper(db, processId), MapperClaims(dto.items), rows.value[i], r.value.items[i])
    ensures r.Some? ==> r.value.file == dto.file && r.value.stakeholderIds == dto.stakeholderIds
    ensures r.Some? ==> (r.value.hasErrors <==> dto.hasErrors || AnyErrors(r.value.items))
  {
    var counts := CountMap(dto.stakeholderIds);
    rows := CheckRows(u, db, projectId, processId, counts, dto.items);
    if rows.None? {
      return None, None;
    }
    MapperClaimsKept(dto.items, rows.value);
    var items := ValidateMapper(db, processId, rows.value);
    r := Some(dto.(items := items, hasErrors := dto.hasErrors || AnyErrors(items)));
  }
}
