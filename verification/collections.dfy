/** Collection helpers that mirror the JavaScript idioms of the upload
    engine: the `reduce`-built occurrence map, `Array.from(new Set(xs))`,
    `Array.prototype.find` and `filter`. */
module Collections {
  import opened Wrappers

  // ---------------------------------------------------------------------
  // occurrence counts

  /** `getCountMap`: each key mapped to its number of occurrences. The
      list is folded from the left, one increment per element. */
  function CountMap<T(==,!new)>(arr: seq<T>): (m: map<T, nat>)
    ensures forall k :: k in m <==> k in arr
    ensures forall k :: k in m ==> m[k] == multiset(arr)[k]
  {
    if |arr| == 0 then map[]
    else
      var init := arr[..|arr| - 1];
      var last := arr[|arr| - 1];
      assert arr == init + [last];
      var m := CountMap(init);
      m[last := (if last in m then m[last] else 0) + 1]
  }

  /** `countMap[k] > 1`, where a missing key reads as `undefined`. */
  predicate Repeated<T>(m: map<T, nat>, k: T) {
    k in m && m[k] > 1
  }

  // ---------------------------------------------------------------------
  // filtering by a key

  /** `items.filter(x => keyOf(x) === key)`. */
  function Filter<T>(items: seq<T>, keyOf: T -> string, key: string): (r: seq<T>)
    ensures |r| <= |items|
  {
    if |items| == 0 then []
    else (if keyOf(items[0]) == key then [items[0]] else []) + Filter(items[1..], keyOf, key)
  }

  /** The filter keeps every element with the key as often as it occurs,
      and nothing else. */
  lemma {:induction false} FilterCount<T(!new)>(items: seq<T>, keyOf: T -> string, key: string)
    ensures forall x :: multiset(Filter(items, keyOf, key))[x] == if keyOf(x) == key then multiset(items)[x] else 0
  {
    if |items| > 0 {
      assert items == [items[0]] + items[1..];
      FilterCount(items[1..], keyOf, key);
    }
  }

  /** The filter keeps the order of the list: filtering a concatenation is
      the concatenation of the filtered parts. */
  lemma {:induction false} FilterAppend<T>(a: seq<T>, b: seq<T>, keyOf: T -> string, key: string)
    ensures Filter(a + b, keyOf, key) == Filter(a, keyOf, key) + Filter(b, keyOf, key)
  {
    if |a| == 0 {
      assert a + b == b;
    } else {
      var head := if keyOf(a[0]) == key then [a[0]] else [];
      assert (a + b)[0] == a[0] && (a + b)[1..] == a[1..] + b;
      assert Filter(a + b, keyOf, key) == head + Filter(a[1..] + b, keyOf, key);
      FilterAppend(a[1..], b, keyOf, key);
      assert Filter(a, keyOf, key) == head + Filter(a[1..], keyOf, key);
    }
  }

  /** Three filters by three distinct keys that cover every element split
      the list: their sizes add up to its length. */
  lemma {:induction false} FilterPartition<T>(items: seq<T>, keyOf: T -> string, a: string, b: string, c: string)
    requires a != b && a != c && b != c
    requires forall i :: 0 <= i < |items| ==> keyOf(items[i]) == a || keyOf(items[i]) == b || keyOf(items[i]) == c
    ensures |Filter(items, keyOf, a)| + |Filter(items, keyOf, b)| + |Filter(items, keyOf, c)| == |items|
  {
    if |items| > 0 {
      FilterPartition(items[1..], keyOf, a, b, c);
    }
  }

  // ---------------------------------------------------------------------
  // first-seen de-duplication

  predicate NoDup<T(==)>(xs: seq<T>) {
    forall i, j :: 0 <= i < j < |xs| ==> xs[i] != xs[j]
  }

  lemma NoDupSnoc<T>(xs: seq<T>, x: T)
    requires NoDup(xs) && x !in xs
    ensures NoDup(xs + [x])
  {
    var e := xs + [x];
    forall i, j | 0 <= i < j < |e|
      ensures e[i] != e[j]
    {
      assert e[i] == xs[i];
    }
  }

  /** Position of the first occurrence of `x` in `xs`. */
  function FirstIndex<T(==)>(xs: seq<T>, x: T): (i: nat)
    requires x in xs
    ensures i < |xs| && xs[i] == x
    ensures forall j :: 0 <= j < i ==> xs[j] != x
  {
    if xs[0] == x then 0 else 1 + FirstIndex(xs[1..], x)
  }

  lemma {:induction false} FirstIndexPrefix<T>(xs: seq<T>, n: nat, x: T)
    requires n <= |xs| && x in xs[..n]
    ensures FirstIndex(xs, x) == FirstIndex(xs[..n], x)
  {
    var i := FirstIndex(xs[..n], x);
    var k := FirstIndex(xs, x);
    assert xs[i] == x;
    assert k <= i;
    assert xs[..n][k] == x;
  }

  /** `Array.from(new Set(xs))`: every distinct element once, in the order
      of its first occurrence. */
  function Distinct<T(==,!new)>(xs: seq<T>): (r: seq<T>)
    ensures forall x :: x in r <==> x in xs
    ensures NoDup(r)
    ensures forall i, j :: 0 <= i < j < |r| ==> FirstIndex(xs, r[i]) < FirstIndex(xs, r[j])
  {
    if |xs| == 0 then []
    else
      var init := xs[..|xs| - 1];
      var last := xs[|xs| - 1];
      assert xs == init + [last];
      var d := Distinct(init);
      forall y | y in d
        ensures FirstIndex(xs, y) == FirstIndex(init, y)
      {
        FirstIndexPrefix(xs, |xs| - 1, y);
      }
      if last in d then d
      else
        assert FirstIndex(xs, last) == |xs| - 1;
        d + [last]
  }

  /** The set is as large as the sequence exactly when nothing repeats:
      `new Set(xs).size === xs.length`. */
  lemma {:induction false} DistinctSize<T(!new)>(xs: seq<T>)
    ensures |Distinct(xs)| <= |xs|
    ensures |Distinct(xs)| == |xs| <==> NoDup(xs)
  {
    if |xs| > 0 {
      var init := xs[..|xs| - 1];
      var last := xs[|xs| - 1];
      assert xs == init + [last];
      DistinctSize(init);
      if last in init {
        var i :| 0 <= i < |init| && init[i] == last;
        assert xs[i] == xs[|xs| - 1];
      } else {
        assert Distinct(xs) == Distinct(init) + [last];
        if NoDup(init) {
          forall i, j | 0 <= i < j < |xs| ensures xs[i] != xs[j] {
            if j < |xs| - 1 {
              assert xs[i] == init[i] && xs[j] == init[j];
            } else {
              assert xs[i] == init[i];
            }
          }
        } else {
          var i, j :| 0 <= i < j < |init| && init[i] == init[j];
          assert xs[i] == xs[j];
        }
      }
    }
  }

  // ---------------------------------------------------------------------
  // saving loaded rows

  /** One row to save: the loaded row at `id` with its new contents. */
  datatype Write<T> = Write(id: nat, value: T)

  /** The value the last write aimed at position `i` carries, if any. */
  function LastWrite<T(==)>(ws: seq<Option<Write<T>>>, i: nat): (r: Option<T>)
    ensures r.None? <==> forall k :: 0 <= k < |ws| ==> ws[k].None? || ws[k].value.id != i
    ensures r.Some? ==> exists k :: 0 <= k < |ws| && ws[k] == Some(Write(i, r.value))
                                  && (forall k' :: k < k' < |ws| ==> ws[k'].None? || ws[k'].value.id != i)
  {
    if |ws| == 0 then None
    else
      var init := ws[..|ws| - 1];
      var last := ws[|ws| - 1];
      if last.Some? && last.value.id == i then Some(last.value.value)
      else
        var r := LastWrite(init, i);
        assert forall k :: 0 <= k < |init| ==> ws[k] == init[k];
        r
  }

  /** A write that every later write to the same row repeats is the one
      that sticks. */
  lemma LastWriteAfter<T>(ws: seq<Option<Write<T>>>, i: nat, k: nat, v: T)
    requires k < |ws| && ws[k] == Some(Write(i, v))
    requires forall k' :: k < k' < |ws| && ws[k'].Some? && ws[k'].value.id == i ==> ws[k'].value.value == v
    ensures LastWrite(ws, i) == Some(v)
  {
    var r := LastWrite(ws, i);
    var k0 :| 0 <= k0 < |ws| && ws[k0] == Some(Write(i, r.value))
              && (forall k' :: k0 < k' < |ws| ==> ws[k'].None? || ws[k'].value.id != i);
    assert k <= k0;
  }

  /** When every write aimed at row `i` carries the same value, the order of
      the writes does not matter. */
  lemma SameWrites<T>(ws: seq<Option<Write<T>>>, i: nat, k: nat, v: T)
    requires k < |ws| && ws[k].Some? && ws[k].value.id == i
    requires forall k' :: 0 <= k' < |ws| && ws[k'].Some? && ws[k'].value.id == i ==> ws[k'].value.value == v
    ensures LastWrite(ws, i) == Some(v)
  {
  }

  /** TypeORM `save` of a list of loaded rows: each write replaces the row
      at its id, in list order, so when two writes aim at the same row the
      later one wins. A `None` entry is a row that was not found and is not
      saved. */
  function ApplyWrites<T(==)>(s: seq<T>, ws: seq<Option<Write<T>>>): (r: seq<T>)
    requires forall k :: 0 <= k < |ws| && ws[k].Some? ==> ws[k].value.id < |s|
    ensures |r| == |s|
    ensures forall i :: 0 <= i < |s| ==> r[i] == LastWrite(ws, i).GetOr(s[i])
  {
    if |ws| == 0 then s
    else
      var init := ws[..|ws| - 1];
      var r := ApplyWrites(s, init);
      var last := ws[|ws| - 1];
      if last.Some? then r[last.value.id := last.value.value] else r
  }
}
