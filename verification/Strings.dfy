/**
 Strings as the indexer uses them: Go's byte-wise order, sorted key lists and keys
 made by joining names with a separator.
 */
module Strings {
  /** The strict lexicographic order of Go's `<` on strings. */
  predicate Less(a: string, b: string) {
    if b == "" then false
    else if a == "" then true
    else a[0] < b[0] || (a[0] == b[0] && Less(a[1..], b[1..]))
  }

  /** A proper prefix comes first; otherwise the first difference decides. */
  lemma {:induction false} LessIsBytewise(a: string, b: string)
    ensures Less(a, b) <==> a < b || exists i :: 0 <= i < |a| && i < |b| && a[..i] == b[..i] && a[i] < b[i]
  {
    if a == "" || b == "" {
    } else if a[0] == b[0] {
      LessIsBytewise(a[1..], b[1..]);
      assert a == [a[0]] + a[1..] && b == [b[0]] + b[1..];
      if i :| 0 <= i < |a| && i < |b| && a[..i] == b[..i] && a[i] < b[i] {
        assert a[1..][..i - 1] == a[..i][1..] && b[1..][..i - 1] == b[..i][1..];
      }
      if j :| 0 <= j < |a[1..]| && j < |b[1..]| && a[1..][..j] == b[1..][..j] && a[1..][j] < b[1..][j] {
        assert a[..j + 1] == [a[0]] + a[1..][..j] && b[..j + 1] == [b[0]] + b[1..][..j];
        assert a[j + 1] < b[j + 1];
      }
    } else {
      assert a[..0] == b[..0];
      if i :| 0 <= i < |a| && i < |b| && a[..i] == b[..i] && a[i] < b[i] {
        assert i > 0 ==> a[..i][0] == b[..i][0];
      }
    }
  }

  lemma {:induction false} LessIrreflexive(a: string)
    ensures !Less(a, a)
  {
    if a != "" {
      LessIrreflexive(a[1..]);
    }
  }

  lemma {:induction false} LessTransitive(a: string, b: string, c: string)
    requires Less(a, b) && Less(b, c)
    ensures Less(a, c)
  {
    if a != "" && a[0] == b[0] && b[0] == c[0] {
      LessTransitive(a[1..], b[1..], c[1..]);
    }
  }

  lemma {:induction false} LessTotal(a: string, b: string)
    ensures Less(a, b) || a == b || Less(b, a)
  {
    if a != "" && b != "" && a[0] == b[0] {
      LessTotal(a[1..], b[1..]);
      assert a == [a[0]] + a[1..] && b == [b[0]] + b[1..];
    }
  }

  predicate AtMost(a: string, b: string) {
    a == b || Less(a, b)
  }

  lemma AtMostTransitive(a: string, b: string, c: string)
    requires AtMost(a, b) && AtMost(b, c)
    ensures AtMost(a, c)
  {
    if Less(a, b) && Less(b, c) {
      LessTransitive(a, b, c);
    }
  }

  ghost predicate StrictlySorted(s: seq<string>) {
    forall i, j :: 0 <= i < j < |s| ==> Less(s[i], s[j])
  }

  ghost predicate NoDuplicates<T>(s: seq<T>) {
    forall i, j :: 0 <= i < j < |s| ==> s[i] != s[j]
  }

  lemma StrictlySortedHasNoDuplicates(s: seq<string>)
    requires StrictlySorted(s)
    ensures NoDuplicates(s)
  {
    forall i, j | 0 <= i < j < |s|
      ensures s[i] != s[j]
    {
      LessIrreflexive(s[i]);
    }
  }

  lemma SomeMember<T>(s: seq<T>) returns (x: T)
    requires s != []
    ensures x in s
  {
    x := s[0];
  }

  /** A set of strings has one strictly sorted listing, so sorting map keys makes iteration deterministic. */
  lemma {:induction false} SortedListingIsUnique(s: seq<string>, t: seq<string>)
    requires StrictlySorted(s) && StrictlySorted(t)
    requires forall x :: x in s <==> x in t
    ensures s == t
  {
    if s == [] {
      if t != [] {
        var x := SomeMember(t);
        assert false;
      }
    } else {
      assert s[0] in t;
      var j :| 0 <= j < |t| && t[j] == s[0];
      assert t[0] in s;
      var k :| 0 <= k < |s| && s[k] == t[0];
      if j > 0 {
        assert Less(t[0], t[j]);
        if k > 0 {
          assert Less(s[0], s[k]);
          LessTransitive(s[0], t[0], s[0]);
        }
        LessIrreflexive(s[0]);
      }
      forall x
        ensures x in s[1..] <==> x in t[1..]
      {
        LessIrreflexive(s[0]);
        if x in s[1..] {
          var m :| 0 <= m < |s[1..]| && s[1..][m] == x;
          assert Less(s[0], s[m + 1]) && s[m + 1] in s;
          var n :| 0 <= n < |t| && t[n] == x;
          assert t[1..][n - 1] == x;
        }
        if x in t[1..] {
          var m :| 0 <= m < |t[1..]| && t[1..][m] == x;
          assert Less(t[0], t[m + 1]) && t[m + 1] in t;
          var n :| 0 <= n < |s| && s[n] == x;
          assert s[1..][n - 1] == x;
        }
      }
      SortedListingIsUnique(s[1..], t[1..]);
      assert s == [s[0]] + s[1..] && t == [t[0]] + t[1..];
    }
  }

  /** Where `x` belongs in a sorted listing that does not hold it. */
  method InsertionPoint(s: seq<string>, x: string) returns (at: nat)
    requires StrictlySorted(s) && x !in s
    ensures at <= |s|
    ensures forall i :: 0 <= i < at ==> Less(s[i], x)
    ensures forall i :: at <= i < |s| ==> Less(x, s[i])
  {
    at := 0;
    while at < |s| && Less(s[at], x)
      invariant at <= |s|
      invariant forall i :: 0 <= i < at ==> Less(s[i], x)
    {
      at := at + 1;
    }
    if at < |s| {
      LessTotal(s[at], x);
      forall i | at <= i < |s|
        ensures Less(x, s[i])
      {
        if i > at {
          LessTransitive(x, s[at], s[i]);
        }
      }
    }
  }

  ghost function InsertionIndex(s: seq<string>, x: string): (at: nat)
    requires StrictlySorted(s) && x !in s
    ensures at <= |s|
    ensures forall i :: 0 <= i < at ==> Less(s[i], x)
    ensures forall i :: at <= i < |s| ==> Less(x, s[i])
  {
    if s == [] then 0
    else
      var last := s[|s| - 1];
      LessTotal(last, x);
      if Less(last, x) then
        (assert forall i :: 0 <= i < |s| ==> Less(s[i], x) by {
          forall i | 0 <= i < |s| - 1
            ensures Less(s[i], x)
          {
            LessTransitive(s[i], last, x);
          }
        }
        |s|)
      else
        var front := s[..|s| - 1];
        var at := InsertionIndex(front, x);
        assert forall i :: 0 <= i < at ==> s[i] == front[i];
        assert forall i :: at <= i < |front| ==> s[i] == front[i];
        at
  }

  function InsertAt<T>(s: seq<T>, x: T, at: nat): (t: seq<T>)
    requires at <= |s|
    ensures |t| == |s| + 1 && t[at] == x
    ensures forall i :: 0 <= i < at ==> t[i] == s[i]
    ensures forall i :: at < i < |t| ==> t[i] == s[i - 1]
  {
    s[..at] + [x] + s[at..]
  }

  lemma InsertedElements<T>(s: seq<T>, x: T, at: nat)
    requires at <= |s|
    ensures forall y :: y in InsertAt(s, x, at) <==> y == x || y in s
    ensures multiset(InsertAt(s, x, at)) == multiset(s) + multiset{x}
  {
    assert s == s[..at] + s[at..];
  }

  lemma InsertedIsSorted(s: seq<string>, x: string, at: nat)
    requires StrictlySorted(s) && at <= |s|
    requires forall i :: 0 <= i < at ==> Less(s[i], x)
    requires forall i :: at <= i < |s| ==> Less(x, s[i])
    ensures StrictlySorted(InsertAt(s, x, at))
  {
    var t := InsertAt(s, x, at);
    forall i, j | 0 <= i < j < |t|
      ensures Less(t[i], t[j])
    {
      if i < at < j {
        assert Less(s[i], s[j - 1]);
      }
    }
  }

  /** The ascending listing of a set of strings. */
  ghost function SortedListing(keys: set<string>): (sorted: seq<string>)
    ensures StrictlySorted(sorted)
    ensures forall x :: x in sorted <==> x in keys
  {
    if keys == {} then []
    else
      var x :| x in keys;
      var rest := SortedListing(keys - {x});
      var at := InsertionIndex(rest, x);
      InsertedIsSorted(rest, x, at);
      InsertedElements(rest, x, at);
      InsertAt(rest, x, at)
  }

  /** The keys of a set in ascending order (`sortedKeys`, and every `sort.Strings` over map keys). */
  method SortedKeys(keys: set<string>) returns (sorted: seq<string>)
    ensures StrictlySorted(sorted)
    ensures forall x :: x in sorted <==> x in keys
  {
    sorted := [];
    var rest := keys;
    while rest != {}
      invariant rest <= keys
      invariant StrictlySorted(sorted)
      invariant forall x :: x in sorted <==> x in keys && x !in rest
      decreases rest
    {
      var x :| x in rest;
      var at := InsertionPoint(sorted, x);
      InsertedIsSorted(sorted, x, at);
      InsertedElements(sorted, x, at);
      sorted := InsertAt(sorted, x, at);
      rest := rest - {x};
    }
  }

  ghost predicate SortedBy<T>(idOf: T -> string, s: seq<T>) {
    forall i, j :: 0 <= i < j < |s| ==> AtMost(idOf(s[i]), idOf(s[j]))
  }

  lemma InsertKeepsSorted<T>(idOf: T -> string, s: seq<T>, x: T, at: nat)
    requires SortedBy(idOf, s) && at <= |s|
    requires at > 0 ==> AtMost(idOf(s[at - 1]), idOf(x))
    requires forall j :: at <= j < |s| ==> AtMost(idOf(x), idOf(s[j]))
    ensures SortedBy(idOf, InsertAt(s, x, at))
  {
    var t := InsertAt(s, x, at);
    forall i, j | 0 <= i < j < |t|
      ensures AtMost(idOf(t[i]), idOf(t[j]))
    {
      if j == at && i + 1 < at {
        AtMostTransitive(idOf(s[i]), idOf(s[at - 1]), idOf(x));
      }
      if i < at < j {
        assert AtMost(idOf(s[i]), idOf(s[j - 1]));
      }
    }
  }

  /** `sort.Slice` by an identifier: some ascending permutation; equal identifiers keep no particular order. */
  method SortById<T>(idOf: T -> string, items: seq<T>) returns (sorted: seq<T>)
    ensures multiset(sorted) == multiset(items)
    ensures SortedBy(idOf, sorted)
  {
    sorted := [];
    for i := 0 to |items|
      invariant multiset(sorted) == multiset(items[..i])
      invariant SortedBy(idOf, sorted)
    {
      var at: nat := |sorted|;
      while at > 0 && Less(idOf(items[i]), idOf(sorted[at - 1]))
        invariant at <= |sorted|
        invariant forall j :: at <= j < |sorted| ==> AtMost(idOf(items[i]), idOf(sorted[j]))
      {
        at := at - 1;
      }
      if at > 0 {
        LessTotal(idOf(items[i]), idOf(sorted[at - 1]));
      }
      InsertKeepsSorted(idOf, sorted, items[i], at);
      InsertedElements(sorted, items[i], at);
      sorted := InsertAt(sorted, items[i], at);
      assert items[..i + 1] == items[..i] + [items[i]];
    }
    assert items[..|items|] == items;
  }

  // ---- parts of names ----

  predicate HasSuffix(s: string, suffix: string) {
    |suffix| <= |s| && s[|s| - |suffix|..] == suffix
  }

  lemma SuffixStripped(s: string, suffix: string, base: string)
    ensures s == base + suffix <==> HasSuffix(s, suffix) && base == s[..|s| - |suffix|]
  {
  }

  /** What follows the last `c`; all of `s` when there is none. */
  function AfterLast(c: char, s: string): string {
    if s == "" || s[|s| - 1] == c then "" else AfterLast(c, s[..|s| - 1]) + [s[|s| - 1]]
  }

  lemma {:induction false} AfterLastIs(c: char, s: string)
    ensures c !in AfterLast(c, s)
    ensures if c in s then exists pre :: s == pre + [c] + AfterLast(c, s) else AfterLast(c, s) == s
  {
    if s == "" {
    } else {
      var front, x := s[..|s| - 1], s[|s| - 1];
      assert s == front + [x];
      if x == c {
        assert s == front + [c] + "";
      } else {
        AfterLastIs(c, front);
        if c in front {
          var pre :| front == pre + [c] + AfterLast(c, front);
          assert s == pre + [c] + (AfterLast(c, front) + [x]);
        }
      }
    }
  }

  // ---- lists of names ----

  /** Element by element, `p` comes before `q`. */
  ghost predicate LexLess(p: seq<string>, q: seq<string>) {
    exists i :: 0 <= i < |p| && i < |q| && p[..i] == q[..i] && Less(p[i], q[i])
  }

  lemma LexTransitive(p: seq<string>, q: seq<string>, r: seq<string>)
    requires LexLess(p, q) && LexLess(q, r)
    ensures LexLess(p, r)
  {
    var i :| 0 <= i < |p| && i < |q| && p[..i] == q[..i] && Less(p[i], q[i]);
    var j :| 0 <= j < |q| && j < |r| && q[..j] == r[..j] && Less(q[j], r[j]);
    var k := if i < j then i else j;
    assert p[..k] == p[..i][..k] && q[..k] == q[..j][..k] == q[..i][..k] && r[..k] == r[..j][..k];
    if i == j {
      LessTransitive(p[i], q[i], r[i]);
    } else if i < j {
      assert q[i] == q[..j][i] == r[..j][i] == r[i];
    } else {
      assert p[j] == p[..i][j] == q[..i][j] == q[j];
    }
    assert p[..k] == r[..k] && Less(p[k], r[k]);
  }

  lemma LexExtends(p: seq<string>, q: seq<string>, x: string, y: string)
    requires |p| == |q| && LexLess(p, q)
    ensures LexLess(p + [x], q + [y])
  {
    var i :| 0 <= i < |p| && i < |q| && p[..i] == q[..i] && Less(p[i], q[i]);
    assert (p + [x])[..i] == p[..i] && (q + [y])[..i] == q[..i];
    assert (p + [x])[i] == p[i] && (q + [y])[i] == q[i];
  }

  lemma LexLast(p: seq<string>, x: string, y: string)
    requires Less(x, y)
    ensures LexLess(p + [x], p + [y])
  {
    assert (p + [x])[..|p|] == p == (p + [y])[..|p|];
    assert (p + [x])[|p|] == x && (p + [y])[|p|] == y;
  }

  // ---- keys made by joining names ----

  const ARROW := "->"

  predicate OccursAt(t: string, s: string, i: nat) {
    i + |t| <= |s| && s[i..i + |t|] == t
  }

  /** `s` does not contain the separator `->`. */
  ghost predicate ArrowFree(s: string) {
    forall i: nat :: !OccursAt(ARROW, s, i)
  }

  /** `strings.Join(parts, "->")`. */
  function Join(parts: seq<string>): string {
    if |parts| == 0 then ""
    else if |parts| == 1 then parts[0]
    else parts[0] + ARROW + Join(parts[1..])
  }

  /** In `a->x` with `a` free of the separator, the first separator ends `a`. */
  lemma FirstArrow(a: string, x: string)
    requires ArrowFree(a)
    ensures OccursAt(ARROW, a + ARROW + x, |a|)
    ensures forall i: nat :: i < |a| ==> !OccursAt(ARROW, a + ARROW + x, i)
  {
    var s := a + ARROW + x;
    assert s[|a|..|a| + 2] == ARROW;
    forall i: nat | i < |a|
      ensures !OccursAt(ARROW, s, i)
    {
      if i + 2 <= |a| {
        assert s[i..i + 2] == a[i..i + 2];
        assert !OccursAt(ARROW, a, i);
      } else {
        assert s[i..i + 2][1] == '-';
      }
    }
  }

  /** A key `a->x` determines `a` and `x` when `a` is free of the separator. */
  lemma ArrowKeyIsInjective(a: string, x: string, b: string, y: string)
    requires ArrowFree(a) && ArrowFree(b)
    requires a + ARROW + x == b + ARROW + y
    ensures a == b && x == y
  {
    var s := a + ARROW + x;
    FirstArrow(a, x);
    FirstArrow(b, y);
    assert !(|a| < |b|) && !(|b| < |a|);
    assert a == s[..|a|] && b == s[..|a|];
    assert x == s[|a| + 2..] && y == s[|a| + 2..];
  }

  /** Joined name lists are equal only when the lists are, provided no name contains the separator. */
  lemma {:induction false} JoinIsInjective(p: seq<string>, q: seq<string>)
    requires p != [] && q != []
    requires forall n :: n in p || n in q ==> ArrowFree(n)
    requires Join(p) == Join(q)
    ensures p == q
  {
    assert p[0] in p && q[0] in q;
    if |p| == 1 && |q| == 1 {
    } else if |p| == 1 {
      FirstArrow(q[0], Join(q[1..]));
    } else if |q| == 1 {
      FirstArrow(p[0], Join(p[1..]));
    } else {
      ArrowKeyIsInjective(p[0], Join(p[1..]), q[0], Join(q[1..]));
      JoinIsInjective(p[1..], q[1..]);
      assert p == [p[0]] + p[1..] && q == [q[0]] + q[1..];
    }
  }
}
