/** Stock facts about sequences, their multisets and filters. */
module Sequences {
  function Filter<T>(keep: T -> bool, s: seq<T>): (r: seq<T>) {
    if s == [] then []
    else Filter(keep, s[..|s| - 1]) + (if keep(s[|s| - 1]) then [s[|s| - 1]] else [])
  }

  lemma {:induction false} FilterMembers<T>(keep: T -> bool, s: seq<T>)
    ensures forall x :: x in Filter(keep, s) <==> x in s && keep(x)
  {
    if s == [] {
    } else {
      FilterMembers(keep, s[..|s| - 1]);
      assert s == s[..|s| - 1] + [s[|s| - 1]];
    }
  }

  lemma FilterMember<T>(keep: T -> bool, s: seq<T>, x: T)
    requires x in Filter(keep, s)
    ensures x in s && keep(x)
  {
    FilterMembers(keep, s);
  }

  lemma {:induction false} FilterConcat<T>(keep: T -> bool, s: seq<T>, t: seq<T>)
    ensures Filter(keep, s + t) == Filter(keep, s) + Filter(keep, t)
  {
    if t == [] {
      assert s + t == s;
    } else {
      var u := s + t;
      assert u[..|u| - 1] == s + t[..|t| - 1];
      FilterConcat(keep, s, t[..|t| - 1]);
    }
  }

  lemma FilterOne<T>(keep: T -> bool, x: T)
    ensures Filter(keep, [x]) == if keep(x) then [x] else []
  {
    assert [x][..0] == [];
  }

  lemma FilterThree<T>(keep: T -> bool, a: seq<T>, x: seq<T>, b: seq<T>)
    ensures Filter(keep, a + x + b) == Filter(keep, a) + Filter(keep, x) + Filter(keep, b)
  {
    FilterConcat(keep, a + x, b);
    FilterConcat(keep, a, x);
  }

  lemma SplitAt<T>(s: seq<T>, k: nat)
    requires k < |s|
    ensures s == s[..k] + [s[k]] + s[k + 1..]
  {
  }

  lemma MultisetOfParts<T>(a: seq<T>, x: seq<T>, b: seq<T>)
    ensures multiset(a + x + b) == multiset(a + b) + multiset(x)
  {
  }

  function RemoveAt<T>(s: seq<T>, k: nat): seq<T>
    requires k < |s|
  {
    s[..k] + s[k + 1..]
  }

  lemma FilterRemoveAt<T>(keep: T -> bool, s: seq<T>, k: nat)
    requires k < |s|
    ensures multiset(Filter(keep, s)) ==
            multiset(Filter(keep, RemoveAt(s, k))) + if keep(s[k]) then multiset{s[k]} else multiset{}
  {
    var a, x, b := s[..k], [s[k]], s[k + 1..];
    SplitAt(s, k);
    FilterThree(keep, a, x, b);
    FilterConcat(keep, a, b);
    FilterOne(keep, s[k]);
    MultisetOfParts(Filter(keep, a), Filter(keep, x), Filter(keep, b));
  }

  lemma RemoveAtMultiset<T>(s: seq<T>, k: nat)
    requires k < |s|
    ensures multiset(s) == multiset{s[k]} + multiset(RemoveAt(s, k))
    ensures multiset(RemoveAt(s, k)) == multiset(s) - multiset{s[k]}
  {
    assert s == s[..k] + ([s[k]] + s[k + 1..]);
  }

  /** Where the first element of a list stands in a permutation of it. */
  lemma SameElement<T>(s: seq<T>, t: seq<T>) returns (k: nat)
    requires s != [] && multiset(s) == multiset(t)
    ensures k < |t| && t[k] == s[0]
    ensures multiset(RemoveAt(s, 0)) == multiset(RemoveAt(t, k))
  {
    assert s[0] in multiset(s) && s[0] in t;
    k :| k < |t| && t[k] == s[0];
    RemoveAtMultiset(s, 0);
    RemoveAtMultiset(t, k);
  }

  lemma SameMembers<T>(s: seq<T>, t: seq<T>)
    requires multiset(s) == multiset(t)
    ensures |s| == |t| && forall x :: x in s <==> x in t
  {
    assert |s| == |multiset(s)| == |multiset(t)| == |t|;
    assert forall x :: x in s <==> x in multiset(s);
    assert forall x :: x in t <==> x in multiset(t);
  }

  lemma {:induction false} FilterPermutation<T>(keep: T -> bool, s: seq<T>, t: seq<T>)
    requires multiset(s) == multiset(t)
    ensures multiset(Filter(keep, s)) == multiset(Filter(keep, t))
    decreases |s|
  {
    assert |s| == |multiset(s)| == |multiset(t)| == |t|;
    if s == [] {
    } else {
      var k := SameElement(s, t);
      FilterRemoveAt(keep, s, 0);
      FilterRemoveAt(keep, t, k);
      FilterPermutation(keep, RemoveAt(s, 0), RemoveAt(t, k));
    }
  }

  function Not<T>(keep: T -> bool): T -> bool {
    x => !keep(x)
  }

  lemma SplitGrows<T>(a: seq<T>, b: seq<T>, x: T)
    ensures multiset(a + [x] + b) == multiset(a + b) + multiset{x}
    ensures multiset(a + (b + [x])) == multiset(a + b) + multiset{x}
  {
  }

  /** A list is a permutation of its kept part followed by its dropped part. */
  lemma {:induction false} FilterSplits<T>(keep: T -> bool, s: seq<T>)
    ensures multiset(Filter(keep, s) + Filter(Not(keep), s)) == multiset(s)
  {
    if s == [] {
    } else {
      var front, x := s[..|s| - 1], s[|s| - 1];
      assert s == front + [x];
      FilterSplits(keep, front);
      SplitGrows(Filter(keep, front), Filter(Not(keep), front), x);
    }
  }

  lemma {:induction false} FilterAll<T>(keep: T -> bool, s: seq<T>)
    requires forall x :: x in s ==> keep(x)
    ensures Filter(keep, s) == s
  {
    if s == [] {
    } else {
      assert s == s[..|s| - 1] + [s[|s| - 1]];
      FilterAll(keep, s[..|s| - 1]);
    }
  }

  lemma {:induction false} FilterNone<T>(keep: T -> bool, s: seq<T>)
    requires forall x :: x in s ==> !keep(x)
    ensures Filter(keep, s) == []
  {
    if s == [] {
    } else {
      FilterNone(keep, s[..|s| - 1]);
      assert s[|s| - 1] in s;
    }
  }

  function Map<T, U>(f: T -> U, s: seq<T>): (r: seq<U>)
    ensures |r| == |s|
    ensures forall i :: 0 <= i < |s| ==> r[i] == f(s[i])
  {
    seq(|s|, i requires 0 <= i < |s| => f(s[i]))
  }

  lemma MapConcat<T, U>(f: T -> U, s: seq<T>, t: seq<T>)
    ensures Map(f, s + t) == Map(f, s) + Map(f, t)
  {
  }

  lemma MapSnoc<T, U>(f: T -> U, s: seq<T>, x: T)
    ensures Map(f, s + [x]) == Map(f, s) + [f(x)]
  {
  }

  lemma MapRemoveAt<T, U>(f: T -> U, s: seq<T>, k: nat)
    requires k < |s|
    ensures RemoveAt(Map(f, s), k) == Map(f, RemoveAt(s, k))
  {
  }

  lemma {:induction false} MapPermutation<T, U>(f: T -> U, s: seq<T>, t: seq<T>)
    requires multiset(s) == multiset(t)
    ensures multiset(Map(f, s)) == multiset(Map(f, t))
    decreases |s|
  {
    assert |s| == |multiset(s)| == |multiset(t)| == |t|;
    if s == [] {
    } else {
      var k := SameElement(s, t);
      MapPermutation(f, RemoveAt(s, 0), RemoveAt(t, k));
      MapRemoveAt(f, s, 0);
      MapRemoveAt(f, t, k);
      RemoveAtMultiset(Map(f, s), 0);
      RemoveAtMultiset(Map(f, t), k);
    }
  }

  lemma MapCons<T, U>(f: T -> U, x: T, rest: seq<T>, images: seq<U>) returns (t: seq<T>)
    requires images != [] && images[0] == f(x) && Map(f, rest) == RemoveAt(images, 0)
    ensures multiset(t) == multiset{x} + multiset(rest) && Map(f, t) == images
  {
    t := [x] + rest;
  }

  /** A permutation of the images comes from a permutation of the sources. */
  lemma {:induction false} PermuteSources<T, U>(f: T -> U, s: seq<T>, images: seq<U>) returns (t: seq<T>)
    requires multiset(images) == multiset(Map(f, s))
    ensures multiset(t) == multiset(s) && Map(f, t) == images
    decreases |images|
  {
    assert |images| == |multiset(images)| == |multiset(Map(f, s))| == |s|;
    t := [];
    if images == [] {
    } else {
      var k := SameElement(images, Map(f, s));
      MapRemoveAt(f, s, k);
      var rest := PermuteSources(f, RemoveAt(s, k), RemoveAt(images, 0));
      t := MapCons(f, s[k], rest, images);
      RemoveAtMultiset(s, k);
    }
  }

  /** Bring two distinct positions of a list to its front. */
  lemma BringToFront<T>(s: seq<T>, i: nat, j: nat) returns (rest: seq<T>)
    requires i < |s| && j < |s| && i != j
    ensures multiset(s) == multiset{s[i]} + multiset{s[j]} + multiset(rest)
  {
    var j' := if j < i then j else j - 1;
    var others := RemoveAt(s, i);
    assert j' < |others| && others[j'] == s[j];
    RemoveAtMultiset(s, i);
    RemoveAtMultiset(others, j');
    hide RemoveAt;
    rest := RemoveAt(others, j');
    assert multiset(others) == multiset{s[j]} + multiset(rest);
  }

  lemma FilterOfDropped<T>(keep: T -> bool, s: seq<T>)
    ensures Filter(keep, Filter(Not(keep), s)) == []
  {
    forall x | x in Filter(Not(keep), s)
      ensures !keep(x)
    {
      FilterMember(Not(keep), s, x);
    }
    FilterNone(keep, Filter(Not(keep), s));
  }

  /** Listing the kept elements first, in any order, permutes the list. */
  lemma ReorderKept<T>(keep: T -> bool, s: seq<T>, g: seq<T>) returns (t: seq<T>)
    requires multiset(g) == multiset(Filter(keep, s))
    ensures multiset(t) == multiset(s) && Filter(keep, t) == g
  {
    var others := Filter(Not(keep), s);
    FilterMembers(keep, s);
    forall x | x in g
      ensures keep(x)
    {
      assert x in multiset(g) && x in multiset(Filter(keep, s));
    }
    FilterAll(keep, g);
    FilterOfDropped(keep, s);
    FilterConcat(keep, g, others);
    FilterSplits(keep, s);
    t := g + others;
  }

  // ---- lists without duplicates ----

  lemma CountsTwice<T>(t: seq<T>, i: nat, j: nat)
    requires i < j < |t| && t[i] == t[j]
    ensures multiset(t)[t[i]] >= 2
  {
    assert t == t[..j] + t[j..];
    assert t[i] in t[..j] && t[i] in t[j..];
  }

  lemma {:induction false} CountsAtMostOne<T>(s: seq<T>)
    requires forall i, j :: 0 <= i < j < |s| ==> s[i] != s[j]
    ensures forall x :: multiset(s)[x] <= 1
  {
    if s == [] {
    } else {
      var front := s[..|s| - 1];
      CountsAtMostOne(front);
      assert s == front + [s[|s| - 1]];
      assert s[|s| - 1] !in multiset(front);
    }
  }

  /** A permutation of a list without duplicates has none, and the same elements. */
  lemma PermutationKeepsDistinct<T>(s: seq<T>, t: seq<T>)
    requires multiset(s) == multiset(t)
    requires forall i, j :: 0 <= i < j < |s| ==> s[i] != s[j]
    ensures forall i, j :: 0 <= i < j < |t| ==> t[i] != t[j]
    ensures |t| == |s| && forall x :: x in t <==> x in s
  {
    assert |multiset(s)| == |multiset(t)|;
    forall x
      ensures x in t <==> x in s
    {
      assert x in t <==> x in multiset(t);
      assert x in s <==> x in multiset(s);
    }
    CountsAtMostOne(s);
    forall i, j | 0 <= i < j < |t|
      ensures t[i] != t[j]
    {
      if t[i] == t[j] {
        CountsTwice(t, i, j);
      }
    }
  }

  /** A list without duplicates has as many elements as positions. */
  lemma {:induction false} DistinctCount<T>(s: seq<T>)
    requires forall i, j :: 0 <= i < j < |s| ==> s[i] != s[j]
    ensures |set x | x in s| == |s|
  {
    if s == [] {
    } else {
      var front, last := s[..|s| - 1], s[|s| - 1];
      DistinctCount(front);
      assert (set x | x in s) == (set x | x in front) + {last};
      assert last !in front;
    }
  }

  // ---- lists of lists ----

  /** Counting the positions below a bound, one at a time. */
  lemma OneMorePosition(keep: nat -> bool, n: nat)
    ensures |set i: nat | i < n + 1 && keep(i)| == |set i: nat | i < n && keep(i)| + if keep(n) then 1 else 0
  {
    var before := set i: nat | i < n && keep(i);
    assert (set i: nat | i < n + 1 && keep(i)) == if keep(n) then before + {n} else before;
  }

  // ---- concatenations ----

  /** Between its cuts, `all` is the `i`-th of several lists. */
  ghost predicate PieceAt<T>(all: seq<T>, parts: seq<seq<T>>, cuts: seq<nat>, i: nat) {
    i < |parts| && i + 1 < |cuts| && cuts[i] <= cuts[i + 1] <= |all| && all[cuts[i]..cuts[i + 1]] == parts[i]
  }

  ghost predicate CutInto<T>(all: seq<T>, parts: seq<seq<T>>, cuts: seq<nat>) {
    && |cuts| == |parts| + 1 && cuts[0] == 0 && cuts[|parts|] == |all|
    && forall i: nat :: i < |parts| ==> PieceAt(all, parts, cuts, i)
  }

  /** `all` is the lists one after the other. */
  ghost predicate Concatenates<T>(all: seq<T>, parts: seq<seq<T>>) {
    exists cuts :: CutInto(all, parts, cuts)
  }

  lemma ConcatenatesNothing<T>()
    ensures Concatenates<T>([], [])
  {
    assert CutInto<T>([], [], [0]);
  }

  lemma ConcatenatesMore<T>(all: seq<T>, parts: seq<seq<T>>, part: seq<T>)
    requires Concatenates(all, parts)
    ensures Concatenates(all + part, parts + [part])
  {
    var cuts: seq<nat> :| CutInto(all, parts, cuts);
    var all', parts', cuts' := all + part, parts + [part], cuts + [|all + part|];
    forall i: nat | i < |parts'|
      ensures PieceAt(all', parts', cuts', i)
    {
      if i < |parts| {
        assert PieceAt(all, parts, cuts, i);
        assert all'[cuts[i]..cuts[i + 1]] == all[cuts[i]..cuts[i + 1]];
      }
    }
    assert CutInto(all', parts', cuts');
  }

  /** The last list can grow at its end. */
  lemma ConcatenatesLonger<T>(all: seq<T>, parts: seq<seq<T>>, part: seq<T>, x: T)
    requires Concatenates(all, parts + [part])
    ensures Concatenates(all + [x], parts + [part + [x]])
  {
    var cuts: seq<nat> :| CutInto(all, parts + [part], cuts);
    var n, all' := |parts|, all + [x];
    var cuts' := cuts[n + 1 := |all'|];
    assert PieceAt(all, parts + [part], cuts, n);
    assert all'[cuts[n]..] == all[cuts[n]..] + [x];
    forall i: nat | i < n + 1
      ensures PieceAt(all', parts + [part + [x]], cuts', i)
    {
      assert PieceAt(all, parts + [part], cuts, i);
      assert i < n ==> all'[cuts[i]..cuts[i + 1]] == all[cuts[i]..cuts[i + 1]];
    }
    assert CutInto(all', parts + [part + [x]], cuts');
  }

  lemma {:induction false} PieceOf<T>(all: seq<T>, parts: seq<seq<T>>, cuts: seq<nat>, n: nat, k: nat) returns (i: nat)
    requires CutInto(all, parts, cuts) && n <= |parts| && k < cuts[n]
    ensures i < |parts| && cuts[i] <= k < cuts[i + 1]
  {
    if n > 1 && k < cuts[n - 1] {
      i := PieceOf(all, parts, cuts, n - 1, k);
    } else {
      i := n - 1;
    }
  }

  /** What is in a concatenation is in one of its parts, and conversely. */
  lemma ConcatenatedMembers<T>(all: seq<T>, parts: seq<seq<T>>, x: T)
    requires Concatenates(all, parts)
    ensures x in all <==> exists i :: 0 <= i < |parts| && x in parts[i]
  {
    var cuts: seq<nat> :| CutInto(all, parts, cuts);
    if i :| 0 <= i < |parts| && x in parts[i] {
      assert PieceAt(all, parts, cuts, i);
      assert x in all[cuts[i]..cuts[i + 1]];
    }
    if k: nat :| k < |all| && all[k] == x {
      var i := PieceOf(all, parts, cuts, |parts|, k);
      assert PieceAt(all, parts, cuts, i);
      assert all[cuts[i]..cuts[i + 1]][k - cuts[i]] == x;
    }
  }

  function FlatMap<T, U>(f: T -> seq<U>, s: seq<T>): seq<U> {
    if s == [] then [] else FlatMap(f, s[..|s| - 1]) + f(s[|s| - 1])
  }

  lemma {:induction false} FlatMapConcat<T, U>(f: T -> seq<U>, s: seq<T>, t: seq<T>)
    ensures FlatMap(f, s + t) == FlatMap(f, s) + FlatMap(f, t)
  {
    if t == [] {
      assert s + t == s;
    } else {
      var u := s + t;
      assert u[..|u| - 1] == s + t[..|t| - 1];
      FlatMapConcat(f, s, t[..|t| - 1]);
    }
  }

  lemma FlatMapRemoveAt<T, U>(f: T -> seq<U>, s: seq<T>, k: nat)
    requires k < |s|
    ensures multiset(FlatMap(f, s)) == multiset(f(s[k])) + multiset(FlatMap(f, RemoveAt(s, k)))
  {
    var a, x, b := s[..k], [s[k]], s[k + 1..];
    SplitAt(s, k);
    FlatMapConcat(f, a + x, b);
    FlatMapConcat(f, a, x);
    FlatMapConcat(f, a, b);
    assert x[..0] == [] && FlatMap(f, x) == [] + f(s[k]) == f(s[k]);
    MultisetOfParts(FlatMap(f, a), f(s[k]), FlatMap(f, b));
  }

  /** Permuting the outer list permutes the flat one. */
  lemma {:induction false} FlatMapPermutation<T, U>(f: T -> seq<U>, s: seq<T>, t: seq<T>)
    requires multiset(s) == multiset(t)
    ensures multiset(FlatMap(f, s)) == multiset(FlatMap(f, t))
    decreases |s|
  {
    assert |s| == |multiset(s)| == |multiset(t)| == |t|;
    if s == [] {
    } else {
      var k := SameElement(s, t);
      FlatMapRemoveAt(f, s, 0);
      FlatMapRemoveAt(f, t, k);
      FlatMapPermutation(f, RemoveAt(s, 0), RemoveAt(t, k));
    }
  }

  /** Two lists without duplicates and with the same elements are permutations of each other. */
  lemma DistinctListsPermute<T>(s: seq<T>, t: seq<T>)
    requires forall i, j :: 0 <= i < j < |s| ==> s[i] != s[j]
    requires forall i, j :: 0 <= i < j < |t| ==> t[i] != t[j]
    requires forall x :: x in s <==> x in t
    ensures multiset(s) == multiset(t)
  {
    CountsAtMostOne(s);
    CountsAtMostOne(t);
    forall x
      ensures multiset(s)[x] == multiset(t)[x]
    {
      assert x in s <==> x in multiset(s);
      assert x in t <==> x in multiset(t);
    }
  }
}
