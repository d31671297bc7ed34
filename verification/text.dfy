/** The JavaScript string primitives the upload engine relies on:
    `split` on a one-character separator, substring `includes`, `parseInt`
    without a radix, the `<` order on strings, and ASCII case mapping. */
module Text {
  import opened Wrappers

  // ---------------------------------------------------------------------
  // split / join

  /** `s.split(sep)`: the maximal separator-free pieces of `s`, in order.
      There is always at least one piece; `"".split(sep)` is `[""]`. */
  function Split(s: string, sep: char): (r: seq<string>)
    ensures |r| >= 1
    ensures forall i :: 0 <= i < |r| ==> sep !in r[i]
    decreases |s|
  {
    if |s| == 0 then [""]
    else
      var rest := Split(s[1..], sep);
      if s[0] == sep then [""] + rest
      else
        assert sep !in rest[0];
        [[s[0]] + rest[0]] + rest[1..]
  }

  /** `parts.join(sep)`. */
  function Join(parts: seq<string>, sep: char): string
    requires |parts| >= 1
    decreases |parts|
  {
    if |parts| == 1 then parts[0] else parts[0] + [sep] + Join(parts[1..], sep)
  }

  /** Joining the pieces of a split gives back the original string. */
  lemma {:induction false} JoinSplit(s: string, sep: char)
    ensures Join(Split(s, sep), sep) == s
    decreases |s|
  {
    if |s| == 0 {
    } else {
      var rest := Split(s[1..], sep);
      JoinSplit(s[1..], sep);
      if s[0] == sep {
        assert Split(s, sep) == [""] + rest;
        assert ([""] + rest)[1..] == rest;
        assert s == [sep] + s[1..];
      } else {
        var r := Split(s, sep);
        assert r == [[s[0]] + rest[0]] + rest[1..];
        if |rest| == 1 {
          assert Join(rest, sep) == rest[0];
        } else {
          assert Join(rest, sep) == rest[0] + [sep] + Join(rest[1..], sep);
          assert r[1..] == rest[1..];
          assert Join(r, sep) == r[0] + [sep] + Join(rest[1..], sep);
        }
        assert s == [s[0]] + s[1..];
      }
    }
  }

  /** Splitting a separator-free string gives that one piece. */
  lemma {:induction false} SplitNoSep(a: string, sep: char)
    requires sep !in a
    ensures Split(a, sep) == [a]
    decreases |a|
  {
    if |a| > 0 {
      SplitNoSep(a[1..], sep);
      assert [a[0]] + a[1..] == a;
    }
  }

  /** Splitting `a + sep + b` where `a` has no separator peels `a` off. */
  lemma {:induction false} SplitCons(a: string, b: string, sep: char)
    requires sep !in a
    ensures Split(a + [sep] + b, sep) == [a] + Split(b, sep)
    decreases |a|
  {
    var s := a + [sep] + b;
    if |a| == 0 {
      assert s == [sep] + b;
      assert s[1..] == b;
    } else {
      assert s[1..] == a[1..] + [sep] + b;
      SplitCons(a[1..], b, sep);
      assert [a[0]] + a[1..] == a;
    }
  }

  /** Splitting the join of separator-free pieces gives back the pieces. */
  lemma {:induction false} SplitJoin(parts: seq<string>, sep: char)
    requires |parts| >= 1
    requires forall i :: 0 <= i < |parts| ==> sep !in parts[i]
    ensures Split(Join(parts, sep), sep) == parts
    decreases |parts|
  {
    if |parts| == 1 {
      SplitNoSep(parts[0], sep);
    } else {
      SplitJoin(parts[1..], sep);
      SplitCons(parts[0], Join(parts[1..], sep), sep);
      assert [parts[0]] + parts[1..] == parts;
    }
  }

  // ---------------------------------------------------------------------
  // includes

  /** `p` is a prefix of `s`. */
  predicate IsPrefix(p: string, s: string) {
    |p| <= |s| && s[..|p|] == p
  }

  /** `sub` occurs in `s` at position `i`. */
  predicate OccursAt(s: string, sub: string, i: int) {
    0 <= i && i + |sub| <= |s| && s[i..i + |sub|] == sub
  }

  /** `s.includes(sub)`: substring search. */
  function Includes(s: string, sub: string): (b: bool)
    ensures b <==> exists i :: OccursAt(s, sub, i)
    decreases |s|
  {
    if IsPrefix(sub, s) then
      assert OccursAt(s, sub, 0);
      true
    else if |s| == 0 then
      false
    else
      var b := Includes(s[1..], sub);
      if b then
        var i :| OccursAt(s[1..], sub, i);
        assert s[1..][i..i + |sub|] == s[i + 1..i + 1 + |sub|];
        assert OccursAt(s, sub, i + 1);
        true
      else
        assert !OccursAt(s, sub, 0);
        forall i | OccursAt(s, sub, i)
          ensures OccursAt(s[1..], sub, i - 1)
        {
          assert s[1..][i - 1..i - 1 + |sub|] == s[i..i + |sub|];
        }
        false
  }

  /** Every piece of a join occurs in it. */
  lemma {:induction false} JoinOccurs(parts: seq<string>, sep: char, k: nat)
    requires k < |parts|
    ensures exists i :: OccursAt(Join(parts, sep), parts[k], i)
    decreases |parts|
  {
    var s := Join(parts, sep);
    if |parts| == 1 {
      assert OccursAt(s, parts[k], 0);
    } else if k == 0 {
      assert s[..|parts[0]|] == parts[0];
      assert OccursAt(s, parts[k], 0);
    } else {
      JoinOccurs(parts[1..], sep, k - 1);
      var rest := Join(parts[1..], sep);
      var i :| OccursAt(rest, parts[k], i);
      var off := |parts[0]| + 1;
      assert s == (parts[0] + [sep]) + rest;
      assert s[off + i..off + i + |parts[k]|] == rest[i..i + |parts[k]|];
      assert OccursAt(s, parts[k], off + i);
    }
  }

  /** Every piece of a split occurs in the split string: a token found by
      `split` is also found by `includes`. */
  lemma SplitIncludes(s: string, sep: char, t: string)
    requires t in Split(s, sep)
    ensures Includes(s, t)
  {
    var k :| 0 <= k < |Split(s, sep)| && Split(s, sep)[k] == t;
    JoinSplit(s, sep);
    JoinOccurs(Split(s, sep), sep, k);
  }

  // ---------------------------------------------------------------------
  // parseInt

  predicate IsDigit(c: char) {
    '0' <= c <= '9'
  }

  /** The characters parseInt skips before the number: ECMAScript's
      white space (tab, vertical tab, form feed, the byte order mark and
      the Unicode space separators) and line terminators. */
  predicate IsSpace(c: char) {
    || c == '\t' || c == '\U{000B}' || c == '\U{000C}' || c == '\U{FEFF}'
    || c == ' ' || c == '\U{00A0}' || c == '\U{1680}' || ('\U{2000}' <= c <= '\U{200A}')
    || c == '\U{202F}' || c == '\U{205F}' || c == '\U{3000}'
    || c == '\n' || c == '\r' || c == '\U{2028}' || c == '\U{2029}'
  }

  predicate IsHexDigit(c: char) {
    IsDigit(c) || 'a' <= c <= 'f' || 'A' <= c <= 'F'
  }

  function HexDigitValue(c: char): nat
    requires IsHexDigit(c)
  {
    if IsDigit(c) then c as int - '0' as int
    else if 'a' <= c <= 'f' then c as int - 'a' as int + 10
    else c as int - 'A' as int + 10
  }

  /** The longest prefix of `s` made of decimal digits. */
  function DigitPrefix(s: string): (r: string)
    ensures IsPrefix(r, s)
    ensures forall i :: 0 <= i < |r| ==> IsDigit(r[i])
    ensures |r| < |s| ==> !IsDigit(s[|r|])
  {
    if |s| == 0 || !IsDigit(s[0]) then "" else [s[0]] + DigitPrefix(s[1..])
  }

  /** The longest prefix of `s` made of hexadecimal digits. */
  function HexPrefix(s: string): (r: string)
    ensures IsPrefix(r, s)
    ensures forall i :: 0 <= i < |r| ==> IsHexDigit(r[i])
    ensures |r| < |s| ==> !IsHexDigit(s[|r|])
  {
    if |s| == 0 || !IsHexDigit(s[0]) then "" else [s[0]] + HexPrefix(s[1..])
  }

  /** The value of a string of hexadecimal digits. */
  function HexValue(d: string): nat
    requires forall i :: 0 <= i < |d| ==> IsHexDigit(d[i])
  {
    if |d| == 0 then 0
    else HexValue(d[..|d| - 1]) * 16 + HexDigitValue(d[|d| - 1])
  }

  /** The value of a string of decimal digits. */
  function DigitsValue(d: string): nat
    requires forall i :: 0 <= i < |d| ==> IsDigit(d[i])
  {
    if |d| == 0 then 0
    else
      assert IsDigit(d[|d| - 1]);
      DigitsValue(d[..|d| - 1]) * 10 + (d[|d| - 1] as int - '0' as int)
  }

  /** The body after the sign starts with `0x` or `0X`. */
  predicate HexMarked(body: string) {
    |body| >= 2 && body[0] == '0' && (body[1] == 'x' || body[1] == 'X')
  }

  /** The value of the digits following an optional sign: hexadecimal
      after a `0x` or `0X` prefix, decimal otherwise. No digit is NaN. */
  function SignedDigits(s: string): Option<int> {
    var neg := |s| > 0 && s[0] == '-';
    var body := if |s| > 0 && (s[0] == '-' || s[0] == '+') then s[1..] else s;
    var v: Option<nat> :=
      if HexMarked(body) then
        var digits := HexPrefix(body[2..]);
        if |digits| == 0 then None else Some(HexValue(digits))
      else
        var digits := DigitPrefix(body);
        if |digits| == 0 then None else Some(DigitsValue(digits));
    if v.None? then None else Some(if neg then 0 - v.value else v.value as int)
  }

  /** `parseInt(s)` without a radix; None stands for NaN. */
  function ParseInt(s: string): Option<int> {
    if |s| > 0 && IsSpace(s[0]) then ParseInt(s[1..]) else SignedDigits(s)
  }

  /** `parseInt` applied to a nullable value: `parseInt(null)` is NaN. */
  function ParseIntOpt(s: Option<string>): Option<int> {
    match s
    case None => None
    case Some(v) => ParseInt(v)
  }

  /** JavaScript `===` between two parseInt results: NaN equals nothing. */
  predicate SameNumber(a: Option<int>, b: Option<int>) {
    a.Some? && b.Some? && a.value == b.value
  }

  /** The decimal digits of a natural number, without leading zeros. */
  function Show(n: nat): (r: string)
    ensures |r| >= 1
    ensures forall i :: 0 <= i < |r| ==> IsDigit(r[i])
  {
    var d := ['0' + (n % 10) as char];
    if n < 10 then d else Show(n / 10) + d
  }

  lemma {:induction false} DigitsValueShow(n: nat)
    ensures DigitsValue(Show(n)) == n
  {
    var s := Show(n);
    if n >= 10 {
      DigitsValueShow(n / 10);
      assert s[..|s| - 1] == Show(n / 10);
    }
  }

  lemma {:induction false} DigitPrefixAll(s: string)
    requires forall i :: 0 <= i < |s| ==> IsDigit(s[i])
    ensures DigitPrefix(s) == s
  {
    if |s| > 0 {
      DigitPrefixAll(s[1..]);
    }
  }

  /** parseInt reads back the decimal text of every natural number. */
  lemma ParseIntShow(n: nat)
    ensures ParseInt(Show(n)) == Some(n)
  {
    var s := Show(n);
    assert !IsSpace(s[0]);
    assert !HexMarked(s) by {
      if |s| >= 2 { assert IsDigit(s[1]); }
    }
    DigitPrefixAll(s);
    DigitsValueShow(n);
  }

  // ---------------------------------------------------------------------
  // string order

  /** `a < b` on two strings: the first differing character decides, and a
      proper prefix comes before the longer string. */
  predicate StrLess(a: string, b: string)
    decreases |a|
  {
    if |a| == 0 then |b| > 0
    else if |b| == 0 then false
    else if a[0] != b[0] then a[0] < b[0]
    else StrLess(a[1..], b[1..])
  }

  /** The two strings agree before `k` and `k` is where they first differ:
      a character that is smaller, or the end of `a`. */
  predicate LessAt(a: string, b: string, k: nat) {
    && k <= |a| && k < |b| && a[..k] == b[..k]
    && (k == |a| || a[k] < b[k])
  }

  /** The recursive order is the order of the first difference. */
  lemma {:induction false} StrLessAt(a: string, b: string)
    ensures StrLess(a, b) <==> exists k: nat :: LessAt(a, b, k)
    decreases |a|
  {
    if |a| == 0 {
      if |b| > 0 { assert LessAt(a, b, 0); }
    } else if |b| == 0 {
    } else if a[0] != b[0] {
      if a[0] < b[0] { assert LessAt(a, b, 0); }
    } else {
      StrLessAt(a[1..], b[1..]);
      if StrLess(a[1..], b[1..]) {
        var k: nat :| LessAt(a[1..], b[1..], k);
        assert a[..k + 1] == [a[0]] + a[1..][..k] && b[..k + 1] == [b[0]] + b[1..][..k];
        assert LessAt(a, b, k + 1);
      } else {
        forall k: nat | LessAt(a, b, k) ensures false {
          if k > 0 {
            assert a[1..][..k - 1] == a[..k][1..] && b[1..][..k - 1] == b[..k][1..];
            assert LessAt(a[1..], b[1..], k - 1);
          }
        }
      }
    }
  }

  /** Exactly one of `a < b`, `a == b` and `b < a` holds. */
  lemma {:induction false} StrLessTrichotomy(a: string, b: string)
    ensures StrLess(a, b) || a == b || StrLess(b, a)
    ensures !(StrLess(a, b) && StrLess(b, a))
    ensures !StrLess(a, a)
    decreases |a|
  {
    if |a| > 0 && |b| > 0 && a[0] == b[0] {
      StrLessTrichotomy(a[1..], b[1..]);
      if a[1..] == b[1..] { assert a == [a[0]] + a[1..] && b == [b[0]] + b[1..]; }
    }
    if |a| > 0 { StrLessTrichotomy(a[1..], a[1..]); }
  }

  /** The order is transitive. */
  lemma {:induction false} StrLessTrans(a: string, b: string, c: string)
    requires StrLess(a, b) && StrLess(b, c)
    ensures StrLess(a, c)
    decreases |a|
  {
    if |a| > 0 && a[0] == b[0] && b[0] == c[0] {
      StrLessTrans(a[1..], b[1..], c[1..]);
    }
  }

  // ---------------------------------------------------------------------
  // case mapping

  function LowerChar(c: char): char {
    if 'A' <= c <= 'Z' then (c as int + 32) as char else c
  }

  function UpperChar(c: char): char {
    if 'a' <= c <= 'z' then (c as int - 32) as char else c
  }

  /** `s.toLowerCase()` on ASCII letters. */
  function ToLower(s: string): (r: string)
    ensures |r| == |s|
    ensures forall i :: 0 <= i < |s| ==> r[i] == LowerChar(s[i])
  {
    seq(|s|, i requires 0 <= i < |s| => LowerChar(s[i]))
  }

  /** `s.toUpperCase()` on ASCII letters. */
  function ToUpper(s: string): (r: string)
    ensures |r| == |s|
    ensures forall i :: 0 <= i < |s| ==> r[i] == UpperChar(s[i])
  {
    seq(|s|, i requires 0 <= i < |s| => UpperChar(s[i]))
  }
}
