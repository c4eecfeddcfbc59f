/**
 What a depth-first search that goes through names in ascending order meets: each service on its
 least simple walk, and each edge back onto such a walk (internal/query/topology.go).
 */
module LeastWalks {
  import opened Strings
  import opened CycleForms

  // ---- order of walks ----

  /** A list comes after its proper prefixes and after lists that are smaller element by element. */
  ghost predicate Precedes(p: seq<string>, q: seq<string>) {
    p < q || LexLess(p, q)
  }

  lemma LexExtended(p: seq<string>, q: seq<string>, r: seq<string>)
    requires LexLess(p, q) && q <= r
    ensures LexLess(p, r)
  {
    var i :| 0 <= i < |p| && i < |q| && p[..i] == q[..i] && Less(p[i], q[i]);
    assert r[..i] == q[..i] && r[i] == q[i];
  }

  lemma LexOfExtended(p: seq<string>, q: seq<string>, r: seq<string>)
    requires LexLess(p, q) && p <= r
    ensures LexLess(r, q)
  {
    var i :| 0 <= i < |p| && i < |q| && p[..i] == q[..i] && Less(p[i], q[i]);
    assert r[..i] == p[..i] && r[i] == p[i];
  }

  lemma LexIrreflexive(p: seq<string>)
    ensures !LexLess(p, p)
  {
    if LexLess(p, p) {
      var i :| 0 <= i < |p| && Less(p[i], p[i]);
      LessIrreflexive(p[i]);
    }
  }

  lemma LexPrepend(x: string, p: seq<string>, q: seq<string>)
    requires Precedes(p, q)
    ensures Precedes([x] + p, [x] + q)
  {
    if p < q {
      assert ([x] + q)[..|p| + 1] == [x] + p;
    } else {
      var i :| 0 <= i < |p| && i < |q| && p[..i] == q[..i] && Less(p[i], q[i]);
      assert ([x] + p)[..i + 1] == [x] + p[..i] == ([x] + q)[..i + 1];
      assert ([x] + p)[i + 1] == p[i] && ([x] + q)[i + 1] == q[i];
    }
  }

  lemma {:induction false} PrecedesIsTotal(p: seq<string>, q: seq<string>)
    ensures p == q || Precedes(p, q) || Precedes(q, p)
  {
    if p == [] {
    } else if q == [] {
    } else if p[0] == q[0] {
      PrecedesIsTotal(p[1..], q[1..]);
      assert p == [p[0]] + p[1..] && q == [p[0]] + q[1..];
      if Precedes(p[1..], q[1..]) {
        LexPrepend(p[0], p[1..], q[1..]);
      } else if Precedes(q[1..], p[1..]) {
        LexPrepend(p[0], q[1..], p[1..]);
      }
    } else {
      LessTotal(p[0], q[0]);
      assert p[..0] == q[..0];
    }
  }

  /** Without its last name a bound is passed earlier, or is a prefix. */
  lemma LexBeforeStep(q: seq<string>, p: seq<string>, x: string)
    requires LexLess(q, p + [x])
    ensures LexLess(q, p) || (p <= q && |q| > |p| && Less(q[|p|], x))
  {
    var r := p + [x];
    var i :| 0 <= i < |q| && i < |r| && q[..i] == r[..i] && Less(q[i], r[i]);
    if i < |p| {
      assert q[..i] == p[..i] && Less(q[i], p[i]);
    } else {
      assert q[..i] == p;
    }
  }

  /** What precedes `p + [x]` without preceding `p` is `p` itself or goes on from it with a smaller name. */
  lemma BetweenSteps(q: seq<string>, p: seq<string>, x: string)
    requires Precedes(q, p + [x]) && !Precedes(q, p)
    ensures p <= q && (|q| > |p| ==> Less(q[|p|], x))
  {
    if q < p + [x] {
      assert q == (p + [x])[..|q|] == p[..|q|];
    } else {
      LexBeforeStep(q, p, x);
    }
  }

  ghost predicate LexAscending(walks: seq<seq<string>>) {
    forall i, j :: 0 <= i < j < |walks| ==> LexLess(walks[i], walks[j])
  }

  lemma HeadsAgree(a: seq<seq<string>>, b: seq<seq<string>>)
    requires LexAscending(a) && LexAscending(b) && a != [] && b != [] && forall w :: w in a <==> w in b
    ensures a[0] == b[0]
  {
    assert a[0] in b && b[0] in a;
    var i :| 0 <= i < |b| && b[i] == a[0];
    var j :| 0 <= j < |a| && a[j] == b[0];
    if i > 0 && j > 0 {
      LexTransitive(a[0], b[0], a[0]);
      LexIrreflexive(a[0]);
    }
  }

  lemma TailMember(a: seq<seq<string>>, w: seq<string>)
    requires LexAscending(a) && a != []
    ensures w in a[1..] <==> w in a && w != a[0]
  {
    LexIrreflexive(a[0]);
    if w in a[1..] {
      var i :| 0 <= i < |a[1..]| && a[1..][i] == w;
      assert a[i + 1] == w && LexLess(a[0], a[i + 1]);
    }
    if w in a && w != a[0] {
      var i :| 0 <= i < |a| && a[i] == w;
      assert a[1..][i - 1] == w;
    }
  }

  /** An ascending list is determined by its members. */
  lemma {:induction false} AscendingIsUnique(a: seq<seq<string>>, b: seq<seq<string>>)
    requires LexAscending(a) && LexAscending(b) && forall w :: w in a <==> w in b
    ensures a == b
  {
    if a == [] {
      assert forall k :: 0 <= k < |b| ==> b[k] in b;
    } else {
      assert a[0] in b;
      HeadsAgree(a, b);
      var a', b' := a[1..], b[1..];
      forall w
        ensures w in a' <==> w in b'
      {
        TailMember(a, w);
        TailMember(b, w);
      }
      AscendingIsUnique(a', b');
      assert a == [a[0]] + a' && b == [b[0]] + b';
    }
  }

  // ---- least simple walks ----

  /** `p` starts at one of these services, follows edges and repeats no service. */
  ghost predicate SimpleWalk(adj: Adjacency, services: set<string>, p: seq<string>) {
    p != [] && p[0] in services && NoDuplicates(p) && forall i: nat :: i + 1 < |p| ==> EdgeAt(adj, p, i)
  }

  /** No simple walk to the same service comes before `p`. */
  ghost predicate Least(adj: Adjacency, services: set<string>, p: seq<string>) {
    && SimpleWalk(adj, services, p)
    && forall q :: SimpleWalk(adj, services, q) && q[|q| - 1] == p[|p| - 1] ==> q == p || LexLess(p, q)
  }

  /** A least walk and one step from its end back onto it. */
  ghost predicate Closing(adj: Adjacency, services: set<string>, b: seq<string>) {
    && |b| >= 2 && Least(adj, services, b[..|b| - 1])
    && b[|b| - 1] in Targets(adj, b[|b| - 2]) && b[|b| - 1] in b[..|b| - 1]
  }

  /** All closing walks of the graph, in ascending order. */
  ghost predicate AllClosing(adj: Adjacency, services: set<string>, backs: seq<seq<string>>) {
    LexAscending(backs) && forall b :: b in backs <==> Closing(adj, services, b)
  }

  lemma WalkIsSome(adj: Adjacency, services: set<string>, p: seq<string>)
    requires SimpleWalk(adj, services, p)
    ensures p != []
  {
  }

  lemma LeastIsUnique(adj: Adjacency, services: set<string>, p: seq<string>, q: seq<string>)
    requires Least(adj, services, p) && Least(adj, services, q) && p[|p| - 1] == q[|q| - 1]
    ensures p == q
  {
    if p != q {
      LexTransitive(p, q, p);
      LexIrreflexive(p);
    }
  }

  lemma AllClosingIsUnique(adj: Adjacency, services: set<string>, a: seq<seq<string>>, b: seq<seq<string>>)
    requires AllClosing(adj, services, a) && AllClosing(adj, services, b)
    ensures a == b
  {
    AscendingIsUnique(a, b);
  }

  /** Where a walk can go on: from anywhere when it is empty, else along an edge from its end. */
  function Choices(adj: Adjacency, services: set<string>, p: seq<string>): set<string> {
    if p == [] then services else Targets(adj, p[|p| - 1])
  }

  lemma WalkGoesOn(adj: Adjacency, services: set<string>, p: seq<string>, x: string)
    requires p == [] || SimpleWalk(adj, services, p)
    requires x in Choices(adj, services, p) && x !in p
    ensures SimpleWalk(adj, services, p + [x])
  {
    var q := p + [x];
    forall i: nat | i + 1 < |q|
      ensures EdgeAt(adj, q, i)
    {
      assert i + 1 < |p| ==> EdgeAt(adj, p, i);
    }
  }

  lemma ChosenNext(adj: Adjacency, services: set<string>, q: seq<string>, n: nat)
    requires SimpleWalk(adj, services, q) && n < |q|
    ensures q[n] in Choices(adj, services, q[..n]) && q[n] !in q[..n]
  {
    assert n > 0 ==> EdgeAt(adj, q, n - 1);
  }

  // ---- what the search has met ----

  /** Every simple walk before `bound` ends at a service met already. */
  ghost predicate Passed(adj: Adjacency, services: set<string>, met: set<string>, bound: seq<string>) {
    forall q :: SimpleWalk(adj, services, q) && Precedes(q, bound) ==> q[|q| - 1] in met
  }

  lemma NothingPassed(adj: Adjacency, services: set<string>)
    ensures Passed(adj, services, {}, [])
  {
    assert forall q: seq<string> :: !Precedes(q, []);
  }

  lemma PassedGrows(adj: Adjacency, services: set<string>, met: set<string>, more: set<string>, bound: seq<string>)
    requires Passed(adj, services, met, bound) && met <= more
    ensures Passed(adj, services, more, bound)
  {
  }

  /** A list without repetitions does not end like a proper prefix. */
  lemma PrefixEndsElsewhere(p: seq<string>, q: seq<string>)
    ensures NoDuplicates(q) && p != [] && p <= q && p[|p| - 1] == q[|q| - 1] ==> p == q
  {
    if NoDuplicates(q) && p != [] && p <= q && p[|p| - 1] == q[|q| - 1] {
      assert q[|p| - 1] == q[|q| - 1];
    }
  }

  /** A service not met before is entered on its least walk. */
  lemma EntersLeast(adj: Adjacency, services: set<string>, met: set<string>, p: seq<string>)
    requires SimpleWalk(adj, services, p) && Passed(adj, services, met, p) && p[|p| - 1] !in met
    ensures Least(adj, services, p)
  {
    forall q | SimpleWalk(adj, services, q) && q[|q| - 1] == p[|p| - 1] && q != p
      ensures LexLess(p, q)
    {
      PrecedesIsTotal(p, q);
      PrefixEndsElsewhere(p, q);
    }
  }

  /** Edges out of finished services lead to finished services or back onto the open path. */
  ghost predicate ClosedOff(adj: Adjacency, finished: set<string>, path: seq<string>) {
    forall u, v :: u in finished && v in Targets(adj, u) ==> v in finished || v in path
  }

  /** A walk that has reached a finished service and avoids the path stays among finished services. */
  lemma {:induction false} StaysFinished(adj: Adjacency, services: set<string>, finished: set<string>, q: seq<string>, n: nat, m: nat)
    requires n <= m < |q| && SimpleWalk(adj, services, q) && ClosedOff(adj, finished, q[..n]) && q[n] in finished
    ensures q[m] in finished
  {
    if m == n {
    } else {
      StaysFinished(adj, services, finished, q, n, m - 1);
      assert EdgeAt(adj, q, m - 1);
    }
  }

  /** A walk that leaves the path for a smaller name ends at a finished service. */
  lemma SmallerIsFinished(adj: Adjacency, services: set<string>, finished: set<string>, path: seq<string>, x: string, q: seq<string>)
    requires SimpleWalk(adj, services, q) && path <= q && |q| > |path| && Less(q[|path|], x)
    requires ClosedOff(adj, finished, path)
    requires forall v :: v in Choices(adj, services, path) && Less(v, x) ==> v in finished || v in path
    ensures q[|q| - 1] in finished
  {
    assert q[..|path|] == path;
    ChosenNext(adj, services, q, |path|);
    StaysFinished(adj, services, finished, q, |path|, |q| - 1);
  }

  /** Once all smaller choices are finished or open, every walk before the next one ends at a service met. */
  lemma PassedByNext(adj: Adjacency, services: set<string>, finished: set<string>, met: set<string>, path: seq<string>, x: string)
    requires Passed(adj, services, met, path) && ClosedOff(adj, finished, path) && finished <= met
    requires path != [] ==> path[|path| - 1] in met
    requires forall v :: v in Choices(adj, services, path) && Less(v, x) ==> v in finished || v in path
    ensures Passed(adj, services, met, path + [x])
  {
    hide ClosedOff, Choices, Precedes, SimpleWalk;
    forall q | SimpleWalk(adj, services, q) && Precedes(q, path + [x])
      ensures q != [] && q[|q| - 1] in met
    {
      WalkIsSome(adj, services, q);
      if !Precedes(q, path) {
        BetweenSteps(q, path, x);
        if |q| > |path| {
          SmallerIsFinished(adj, services, finished, path, x, q);
        }
      }
    }
  }

  // ---- the closing walks found so far ----

  /** All closing walks whose step back leaves one of these services are found. */
  ghost predicate FoundFrom(adj: Adjacency, services: set<string>, finished: set<string>, backs: seq<seq<string>>) {
    forall b :: Closing(adj, services, b) && b[|b| - 2] in finished ==> b in backs
  }

  /** The closing walks of the finished services are found, in ascending order, and nothing else. */
  ghost predicate Told(adj: Adjacency, services: set<string>, path: seq<string>, finished: set<string>, backs: seq<seq<string>>) {
    && ClosedOff(adj, finished, path) && LexAscending(backs)
    && (forall b :: b in backs ==> Closing(adj, services, b))
    && FoundFrom(adj, services, finished, backs)
  }

  ghost predicate AllBefore(backs: seq<seq<string>>, bound: seq<string>) {
    forall b :: b in backs ==> LexLess(b, bound)
  }

  lemma OneMoreName(names: seq<string>, i: nat)
    requires i < |names|
    ensures names[..i + 1] == names[..i] + [names[i]]
  {
  }

  /** Each of these goes on from `path` with one of these names. */
  ghost predicate AllBeyond(walks: seq<seq<string>>, path: seq<string>, names: seq<string>) {
    forall b :: b in walks ==> |b| > |path| && b[..|path|] == path && b[|path|] in names
  }

  lemma NothingTold(adj: Adjacency, services: set<string>)
    ensures Told(adj, services, [], {}, [])
  {
  }

  lemma StepBackCloses(adj: Adjacency, services: set<string>, path: seq<string>, x: string)
    requires path != [] && Least(adj, services, path) && x in Targets(adj, path[|path| - 1]) && x in path
    ensures Closing(adj, services, path + [x])
  {
    var b := path + [x];
    assert b[..|b| - 1] == path;
  }

  /** A step from the open path back onto it is the next closing walk. */
  lemma TellBack(adj: Adjacency, services: set<string>, path: seq<string>, finished: set<string>, backs: seq<seq<string>>, x: string)
    requires Told(adj, services, path, finished, backs) && AllBefore(backs, path + [x])
    requires path != [] && Least(adj, services, path) && x in Targets(adj, path[|path| - 1]) && x in path
    ensures Told(adj, services, path, finished, backs + [path + [x]])
  {
    hide Closing, Least, ClosedOff, LexLess, Targets;
    StepBackCloses(adj, services, path, x);
  }

  lemma TellEntered(adj: Adjacency, services: set<string>, path: seq<string>, finished: set<string>, backs: seq<seq<string>>, x: string)
    requires Told(adj, services, path, finished, backs)
    ensures Told(adj, services, path + [x], finished, backs)
  {
  }

  /** A closing walk through the last service of a least walk is that walk and one step. */
  lemma BackFromLeast(adj: Adjacency, services: set<string>, path: seq<string>, b: seq<string>)
    requires Least(adj, services, path) && Closing(adj, services, b) && b[|b| - 2] == path[|path| - 1]
    ensures b == path + [b[|b| - 1]] && b[|b| - 1] in Targets(adj, path[|path| - 1]) && b[|b| - 1] in path
  {
    LeastIsUnique(adj, services, b[..|b| - 1], path);
  }

  lemma FoundFromOneMore(adj: Adjacency, services: set<string>, path: seq<string>, finished: set<string>, backs: seq<seq<string>>)
    requires FoundFrom(adj, services, finished, backs) && Least(adj, services, path)
    requires forall v :: v in Targets(adj, path[|path| - 1]) && v in path ==> path + [v] in backs
    ensures FoundFrom(adj, services, finished + {path[|path| - 1]}, backs)
  {
    forall b | Closing(adj, services, b) && b[|b| - 2] == path[|path| - 1]
      ensures b in backs
    {
      BackFromLeast(adj, services, path, b);
    }
  }

  /** A service all of whose targets are finished or on its path, each of the latter told of, is finished. */
  lemma TellFinished(adj: Adjacency, services: set<string>, path: seq<string>, finished: set<string>, backs: seq<seq<string>>, x: string)
    requires Told(adj, services, path + [x], finished, backs) && Least(adj, services, path + [x])
    requires forall v :: v in Targets(adj, x) ==> v in finished || v in path + [x]
    requires forall v :: v in Targets(adj, x) && v in path + [x] ==> path + [x] + [v] in backs
    ensures Told(adj, services, path, finished + {x}, backs)
  {
    hide Closing, Least, FoundFrom, LexAscending, Targets;
    FoundFromOneMore(adj, services, path + [x], finished, backs);
    assert (path + [x])[|path + [x]| - 1] == x;
  }

  /** What was found under smaller names comes before the next one. */
  lemma BeforeNext(path: seq<string>, earlier: seq<seq<string>>, found: seq<seq<string>>, names: seq<string>, x: string)
    requires AllBefore(earlier, path) && AllBeyond(found, path, names) && forall n :: n in names ==> Less(n, x)
    ensures AllBefore(earlier + found, path + [x])
  {
    forall b | b in earlier + found
      ensures LexLess(b, path + [x])
    {
      if b in earlier {
        LexExtended(b, path, path + [x]);
      } else {
        LexLast(path, b[|path|], x);
        assert b[..|path| + 1] == path + [b[|path|]];
        LexOfExtended(path + [b[|path|]], path + [x], b);
      }
    }
  }

  ghost predicate AllFrom(walks: seq<seq<string>>, path: seq<string>) {
    forall b :: b in walks ==> path <= b
  }

  /** Beyond the earlier walks, those found go on from `path` with one of these names. */
  ghost predicate Found(path: seq<string>, names: seq<string>, earlier: seq<seq<string>>, backs: seq<seq<string>>) {
    earlier <= backs && AllBefore(earlier, path) && AllBeyond(backs[|earlier|..], path, names)
  }

  lemma NothingFound()
    ensures Found([], [], [], [])
  {
  }

  lemma FoundBeforeNext(path: seq<string>, names: seq<string>, earlier: seq<seq<string>>, backs: seq<seq<string>>, x: string)
    requires Found(path, names, earlier, backs) && forall n :: n in names ==> Less(n, x)
    ensures AllBefore(backs, path + [x])
  {
    BeforeNext(path, earlier, backs[|earlier|..], names, x);
    assert backs == earlier + backs[|earlier|..];
  }

  lemma FoundMore(path: seq<string>, names: seq<string>, earlier: seq<seq<string>>, backs: seq<seq<string>>,
                  more: seq<seq<string>>, x: string)
    requires Found(path, names, earlier, backs) && backs <= more && AllFrom(more[|backs|..], path + [x])
    ensures Found(path, names + [x], earlier, more)
  {
    assert more[|earlier|..] == backs[|earlier|..] + more[|backs|..];
    forall b | b in more[|backs|..]
      ensures |b| > |path| && b[..|path|] == path && b[|path|] == x
    {
      assert b[..|path| + 1] == path + [x];
    }
  }

  lemma FoundIsFrom(path: seq<string>, names: seq<string>, earlier: seq<seq<string>>, backs: seq<seq<string>>)
    requires Found(path, names, earlier, backs)
    ensures earlier <= backs && AllFrom(backs[|earlier|..], path)
  {
  }

  /** When all services are finished, all closing walks are found. */
  lemma AllTold(adj: Adjacency, services: set<string>, finished: set<string>, backs: seq<seq<string>>)
    requires Told(adj, services, [], finished, backs) && services <= finished
    requires forall u :: Targets(adj, u) <= services
    ensures AllClosing(adj, services, backs)
  {
    forall b | Closing(adj, services, b)
      ensures b in backs
    {
      var front := b[..|b| - 1];
      ChosenNext(adj, services, front, |front| - 1);
    }
  }

  // ---- the report ----

  /** The cycle a closing walk ends in. */
  function CycleOf(b: seq<string>): seq<string> {
    if b == [] || b[0] == b[|b| - 1] then b else CycleOf(b[1..])
  }

  lemma {:induction false} CycleOfBack(path: seq<string>, idx: nat)
    requires idx < |path| && forall j :: 0 <= j < idx ==> path[j] != path[idx]
    ensures CycleOf(path + [path[idx]]) == path[idx..] + [path[idx]]
  {
    var b := path + [path[idx]];
    if idx == 0 {
      assert path[0..] == path;
    } else {
      CycleOfBack(path[1..], idx - 1);
      assert b[1..] == path[1..] + [path[1..][idx - 1]];
    }
  }

  /** That cycle as it is reported. */
  function FormOf(b: seq<string>): seq<string> {
    NormalForm(CycleOf(b))
  }

  /** Some list has this joined key. */
  ghost predicate Reported(cycles: seq<seq<string>>, key: string) {
    exists k :: 0 <= k < |cycles| && Join(cycles[k]) == key
  }

  /** The normal forms of the cycles these walks end in, each key once. */
  ghost function Kept(backs: seq<seq<string>>): seq<seq<string>> {
    if backs == [] then []
    else
      var before := Kept(backs[..|backs| - 1]);
      var cycle := FormOf(backs[|backs| - 1]);
      if Reported(before, Join(cycle)) then before else before + [cycle]
  }

  lemma KeptStep(backs: seq<seq<string>>, b: seq<string>)
    ensures var cycle := FormOf(b);
            Kept(backs + [b]) == if Reported(Kept(backs), Join(cycle)) then Kept(backs) else Kept(backs) + [cycle]
  {
    assert (backs + [b])[..|backs|] == backs;
  }

  /** No earlier walk ends in a cycle with the key of this one's. */
  ghost predicate FirstWithKey(backs: seq<seq<string>>, i: int) {
    && 0 <= i < |backs|
    && forall j :: 0 <= j < i ==> Join(FormOf(backs[j])) != Join(FormOf(backs[i]))
  }

  ghost predicate Ascending(at: seq<int>) {
    forall i, j :: 0 <= i < j < |at| ==> at[i] < at[j]
  }

  ghost predicate PicksFirsts(backs: seq<seq<string>>, at: seq<int>) {
    Ascending(at) && forall i :: i in at <==> FirstWithKey(backs, i)
  }

  ghost predicate FormsAt(backs: seq<seq<string>>, kept: seq<seq<string>>, at: seq<int>) {
    |at| == |kept| && forall k :: 0 <= k < |kept| ==> 0 <= at[k] < |backs| && kept[k] == FormOf(backs[at[k]])
  }

  /** What is kept stands, in order, for exactly the walks whose key is new. */
  ghost predicate KeptAt(backs: seq<seq<string>>, kept: seq<seq<string>>, at: seq<int>) {
    PicksFirsts(backs, at) && FormsAt(backs, kept, at)
  }

  lemma FirstsStay(backs: seq<seq<string>>, b: seq<string>)
    ensures forall i :: i < |backs| ==> (FirstWithKey(backs + [b], i) <==> FirstWithKey(backs, i))
  {
    hide FormOf;
    forall i | i < |backs|
      ensures FirstWithKey(backs + [b], i) <==> FirstWithKey(backs, i)
    {
      assert forall j :: 0 <= j < |backs| ==> (backs + [b])[j] == backs[j];
    }
  }

  lemma PicksMore(backs: seq<seq<string>>, b: seq<string>, at: seq<int>)
    requires PicksFirsts(backs, at)
    ensures PicksFirsts(backs + [b], if FirstWithKey(backs + [b], |backs|) then at + [|backs|] else at)
  {
    FirstsStay(backs, b);
    var more, n := backs + [b], |backs|;
    var at' := if FirstWithKey(more, n) then at + [n] else at;
    forall k | 0 <= k < |at|
      ensures at[k] < n
    {
      assert at[k] in at;
    }
    forall i
      ensures i in at' <==> FirstWithKey(more, i)
    {
      assert i in at ==> i < n;
      assert i > n ==> !FirstWithKey(more, i);
    }
  }

  lemma {:induction false} FirstOf(backs: seq<seq<string>>, j: nat) returns (i: nat)
    requires j < |backs|
    ensures FirstWithKey(backs, i) && Join(FormOf(backs[i])) == Join(FormOf(backs[j]))
  {
    if FirstWithKey(backs, j) {
      i := j;
    } else {
      var h :| 0 <= h < j && Join(FormOf(backs[h])) == Join(FormOf(backs[j]));
      i := FirstOf(backs, h);
    }
  }

  lemma ReportedKeyIsEarlier(backs: seq<seq<string>>, at: seq<int>, key: string)
    requires KeptAt(backs, Kept(backs), at)
    ensures Reported(Kept(backs), key) <==> exists j :: 0 <= j < |backs| && Join(FormOf(backs[j])) == key
  {
    if Reported(Kept(backs), key) {
      var k :| 0 <= k < |Kept(backs)| && Join(Kept(backs)[k]) == key;
      assert Join(FormOf(backs[at[k]])) == key;
    }
    if j :| 0 <= j < |backs| && Join(FormOf(backs[j])) == key {
      var i := FirstOf(backs, j);
      var k :| 0 <= k < |at| && at[k] == i;
      assert Join(Kept(backs)[k]) == key;
    }
  }

  lemma NewKeyIsFirst(backs: seq<seq<string>>, b: seq<string>, at: seq<int>)
    requires KeptAt(backs, Kept(backs), at)
    ensures FirstWithKey(backs + [b], |backs|) <==> !Reported(Kept(backs), Join(FormOf(b)))
  {
    hide FormOf, Kept, Reported, KeptAt;
    ReportedKeyIsEarlier(backs, at, Join(FormOf(b)));
    assert forall j :: 0 <= j < |backs| ==> (backs + [b])[j] == backs[j];
    assert (backs + [b])[|backs|] == b;
  }

  lemma KeptAtMore(backs: seq<seq<string>>, b: seq<string>, at: seq<int>)
    requires KeptAt(backs, Kept(backs), at)
    ensures KeptAt(backs + [b], Kept(backs + [b]), if FirstWithKey(backs + [b], |backs|) then at + [|backs|] else at)
  {
    hide FormOf, Kept, Reported, PicksFirsts, FirstWithKey;
    KeptStep(backs, b);
    NewKeyIsFirst(backs, b, at);
    PicksMore(backs, b, at);
  }

  lemma NothingKept()
    ensures KeptAt([], Kept([]), [])
  {
  }

  lemma {:induction false} KeptIsFirsts(backs: seq<seq<string>>) returns (at: seq<int>)
    ensures KeptAt(backs, Kept(backs), at)
  {
    hide KeptAt, Kept, FirstWithKey;
    if backs == [] {
      at := [];
      NothingKept();
    } else {
      var n := |backs| - 1;
      at := KeptIsFirsts(backs[..n]);
      KeptAtMore(backs[..n], backs[n], at);
      assert backs == backs[..n] + [backs[n]];
      at := if FirstWithKey(backs, n) then at + [n] else at;
    }
  }
}
