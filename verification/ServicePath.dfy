/**
 Shortest service-to-service path: `FindPath` (internal/query/topology.go).
 */
module ServicePath {
  import opened Options
  import opened Strings
  import opened CircularDependencies

  datatype Hop = Hop(from: string, to: string, kind: string)

  /** source -> target -> the first connection seen between them. */
  type FirstConnections = map<string, map<string, Connection>>

  function Neighbours(adj: FirstConnections, u: string): set<string> {
    if u in adj then adj[u].Keys else {}
  }

  /** The earliest row between two services. */
  ghost predicate FirstRow(conns: seq<Connection>, k: nat, u: string, v: string) {
    && k < |conns| && conns[k].source == u && conns[k].target == v
    && forall j :: 0 <= j < k ==> conns[j].source != u || conns[j].target != v
  }

  /** `adj` holds the first of the first `n` rows between any two services, and nothing else. */
  ghost predicate Represents(adj: FirstConnections, conns: seq<Connection>, n: nat) {
    && n <= |conns|
    && (forall u, v :: v in Neighbours(adj, u) ==> exists k: nat :: k < n && FirstRow(conns, k, u, v) && adj[u][v] == conns[k])
    && (forall k :: 0 <= k < n ==> conns[k].target in Neighbours(adj, conns[k].source))
  }

  /** A row between two services is kept when it is their first. */
  lemma OneMoreRow(before: FirstConnections, adj: FirstConnections, conns: seq<Connection>, i: nat)
    requires i < |conns| && Represents(before, conns, i)
    requires forall u, v :: v in Neighbours(adj, u) <==> v in Neighbours(before, u) || (u == conns[i].source && v == conns[i].target)
    requires forall u, v :: v in Neighbours(adj, u) ==>
               adj[u][v] == if v in Neighbours(before, u) then before[u][v] else conns[i]
    ensures Represents(adj, conns, i + 1)
  {
    var c := conns[i];
    if c.target !in Neighbours(before, c.source) {
      assert FirstRow(conns, i, c.source, c.target);
    }
  }

  method BuildAdjacency(conns: seq<Connection>) returns (adj: FirstConnections)
    ensures Represents(adj, conns, |conns|)
  {
    adj := map[];
    for i := 0 to |conns|
      invariant Represents(adj, conns, i)
    {
      ghost var before := adj;
      var c := conns[i];
      if c.source !in adj {
        adj := adj[c.source := map[]];
      }
      if c.target !in adj[c.source] {
        adj := adj[c.source := adj[c.source][c.target := c]];
      }
      OneMoreRow(before, adj, conns, i);
    }
  }

  // ---- walks ----

  ghost predicate StepAt(adj: FirstConnections, p: seq<string>, i: nat) {
    i + 1 < |p| && p[i + 1] in Neighbours(adj, p[i])
  }

  /** `p` leads from `s` to `t` along connections. */
  ghost predicate Walk(adj: FirstConnections, p: seq<string>, s: string, t: string) {
    && p != [] && p[0] == s && p[|p| - 1] == t
    && forall i: nat :: i + 1 < |p| ==> StepAt(adj, p, i)
  }

  lemma WalkExtends(adj: FirstConnections, p: seq<string>, s: string, u: string, v: string)
    requires Walk(adj, p, s, u) && v in Neighbours(adj, u)
    ensures Walk(adj, p + [v], s, v)
  {
    var q := p + [v];
    forall i: nat | i + 1 < |q|
      ensures StepAt(adj, q, i)
    {
      assert i + 1 < |p| ==> StepAt(adj, p, i);
    }
  }

  lemma WalkPrefix(adj: FirstConnections, p: seq<string>, s: string, t: string)
    requires Walk(adj, p, s, t) && |p| >= 2
    ensures Walk(adj, p[..|p| - 1], s, p[|p| - 2]) && t in Neighbours(adj, p[|p| - 2])
    ensures p == p[..|p| - 1] + [t]
  {
    var q := p[..|p| - 1];
    assert StepAt(adj, p, |p| - 2);
    forall i: nat | i + 1 < |q|
      ensures StepAt(adj, q, i)
    {
      assert StepAt(adj, p, i);
    }
  }

  ghost predicate Reachable(adj: FirstConnections, s: string, t: string) {
    exists p :: Walk(adj, p, s, t)
  }

  /** `p` is a walk with as few services as any other. */
  ghost predicate ShortestWalk(adj: FirstConnections, p: seq<string>, s: string, t: string) {
    Walk(adj, p, s, t) && forall q :: Walk(adj, q, s, t) ==> |p| <= |q|
  }

  // ---- the least path ----

  /** No walk of the same length between the same services comes before `p`. */
  ghost predicate LeastWalk(adj: FirstConnections, p: seq<string>, s: string, t: string) {
    forall q :: Walk(adj, q, s, t) && |q| == |p| ==> q == p || LexLess(p, q)
  }

  /** There is only one least shortest walk, so the path found does not depend on the order of the rows. */
  lemma LeastShortestIsUnique(adj: FirstConnections, p: seq<string>, q: seq<string>, s: string, t: string)
    requires ShortestWalk(adj, p, s, t) && LeastWalk(adj, p, s, t)
    requires ShortestWalk(adj, q, s, t) && LeastWalk(adj, q, s, t)
    ensures p == q
  {
    assert |p| == |q|;
    if p != q {
      LexTransitive(p, q, p);
      var i :| 0 <= i < |p| && Less(p[i], p[i]);
      LessIrreflexive(p[i]);
    }
  }

  // ---- the queue of paths ----

  function Last(p: seq<string>): string {
    if p == [] then "" else p[|p| - 1]
  }

  ghost predicate Queued(queue: seq<seq<string>>, v: string) {
    exists k :: 0 <= k < |queue| && Last(queue[k]) == v
  }

  /** Queue lengths never fall from front to back and are `level` or `level + 1`. */
  ghost predicate TwoLevels(queue: seq<seq<string>>, level: nat) {
    && (forall i, j :: 0 <= i < j < |queue| ==> |queue[i]| <= |queue[j]|)
    && (forall i :: 0 <= i < |queue| ==> level <= |queue[i]| <= level + 1)
  }

  /** A shortest walk to `v` visits `depth[v]` services; unvisited services lie beyond the level `level`. */
  ghost predicate Depths(adj: FirstConnections, s: string, depth: map<string, nat>, level: nat) {
    forall p, v {:trigger Walk(adj, p, s, v)} :: Walk(adj, p, s, v) ==>
      if v in depth then depth[v] <= |p| else level < |p|
  }

  /** Every queued path is a walk from `s` with its end's depth as length. */
  ghost predicate QueuedWalks(adj: FirstConnections, s: string, queue: seq<seq<string>>, depth: map<string, nat>) {
    forall k :: 0 <= k < |queue| ==>
      Walk(adj, queue[k], s, Last(queue[k])) && Last(queue[k]) in depth && depth[Last(queue[k])] == |queue[k]|
  }

  /** A service that was visited and has left the queue is not the target and has only visited neighbours. */
  ghost predicate Expanded(adj: FirstConnections, t: string, queue: seq<seq<string>>, visited: set<string>, open: set<string>) {
    forall u :: u in visited && u !in open && !Queued(queue, u) ==> Neighbours(adj, u) <= visited && u != t
  }

  ghost predicate EnqueuedOnce(visited: set<string>, enqueued: seq<string>) {
    NoDuplicates(enqueued) && forall v :: v in enqueued <==> v in visited
  }

  /** The search between two steps, at BFS level `level`, while the services `open` are being expanded. */
  ghost predicate Searching(adj: FirstConnections, s: string, t: string, queue: seq<seq<string>>, visited: set<string>,
                            depth: map<string, nat>, enqueued: seq<string>, level: nat, open: set<string>) {
    && depth.Keys == visited && s in visited && level >= 1
    && EnqueuedOnce(visited, enqueued)
    && QueuedWalks(adj, s, queue, depth)
    && TwoLevels(queue, level)
    && Expanded(adj, t, queue, visited, open)
    && Depths(adj, s, depth, level)
  }

  /** Queued paths are least walks, ascend within a level, and those of a level ascend with what they were made from. */
  ghost predicate Ascending(adj: FirstConnections, s: string, queue: seq<seq<string>>) {
    && (forall k :: 0 <= k < |queue| ==> LeastWalk(adj, queue[k], s, Last(queue[k])))
    && (forall i, j :: 0 <= i < j < |queue| && |queue[i]| == |queue[j]| ==> LexLess(queue[i], queue[j]))
    && (forall i, j :: 0 <= i < |queue| && 0 <= j < |queue| && |queue[j]| == |queue[i]| + 1 ==>
          LexLess(queue[j][..|queue[i]|], queue[i]))
  }

  /** `path` comes before the rest of its level; the next level was made from earlier paths or from it, with the ends `done`. */
  ghost predicate Opening(path: seq<string>, queue: seq<seq<string>>, done: seq<string>) {
    && (forall k :: 0 <= k < |queue| && |queue[k]| == |path| ==> LexLess(path, queue[k]))
    && (forall k :: 0 <= k < |queue| && |queue[k]| == |path| + 1 ==>
          LexLess(queue[k][..|path|], path) || (queue[k][..|path|] == path && queue[k][|path|] in done))
  }

  lemma StartAscending(adj: FirstConnections, s: string)
    ensures Ascending(adj, s, [[s]])
  {
    forall q | Walk(adj, q, s, s) && |q| == 1
      ensures q == [s]
    {
    }
    assert Last([s]) == s;
  }

  lemma DequeueAscending(adj: FirstConnections, s: string, queue: seq<seq<string>>)
    requires queue != [] && Ascending(adj, s, queue)
    ensures Ascending(adj, s, queue[1..]) && Opening(queue[0], queue[1..], []) && LeastWalk(adj, queue[0], s, Last(queue[0]))
  {
    hide LexLess, LeastWalk;
    var rest := queue[1..];
    assert forall k :: 0 <= k < |rest| ==> rest[k] == queue[k + 1];
  }

  /** The path to a service seen for the first time is the least of its length. */
  lemma EnqueuedIsLeast(adj: FirstConnections, s: string, t: string, queue: seq<seq<string>>, visited: set<string>,
                        depth: map<string, nat>, enqueued: seq<string>, path: seq<string>, cur: string, n: string, done: seq<string>)
    requires Walk(adj, path, s, cur) && n in Neighbours(adj, cur) && n !in visited
    requires Searching(adj, s, t, queue, visited, depth, enqueued, |path|, {cur})
    requires LeastWalk(adj, path, s, cur) && Ascending(adj, s, queue) && Opening(path, queue, done)
    ensures LeastWalk(adj, path + [n], s, n)
  {
    hide LexLess, EnqueuedOnce, Walk, Neighbours;
    forall q | Walk(adj, q, s, n) && |q| == |path| + 1
      ensures q == path + [n] || LexLess(path + [n], q)
    {
      WalkPrefix(adj, q, s, n);
      var front, u := q[..|q| - 1], q[|q| - 2];
      assert u in depth && depth[u] <= |path|;
      if u == cur {
        assert front == path || LexLess(path, front);
        if front != path {
          LexExtends(path, front, n, n);
        }
      } else {
        assert Queued(queue, u);
        var k :| 0 <= k < |queue| && Last(queue[k]) == u;
        assert |queue[k]| == |path|;
        assert front == queue[k] || LexLess(queue[k], front);
        if front != queue[k] {
          LexTransitive(path, queue[k], front);
        }
        LexExtends(path, front, n, n);
      }
    }
  }

  lemma EnqueueAscending(adj: FirstConnections, s: string, queue: seq<seq<string>>, path: seq<string>, n: string, done: seq<string>)
    requires TwoLevels(queue, |path|) && Ascending(adj, s, queue) && Opening(path, queue, done)
    requires LeastWalk(adj, path + [n], s, n) && forall d :: d in done ==> Less(d, n)
    ensures Ascending(adj, s, queue + [path + [n]]) && Opening(path, queue + [path + [n]], done + [n])
  {
    hide LeastWalk;
    var added := path + [n];
    var queue' := queue + [added];
    assert Last(added) == n && added[..|path|] == path;
    forall k | 0 <= k < |queue| && |queue[k]| == |added|
      ensures LexLess(queue[k], added)
    {
      var parent, end := queue[k][..|path|], queue[k][|path|];
      assert queue[k] == parent + [end];
      if parent == path && end in done {
        LexLast(path, end, n);
      } else {
        LexExtends(parent, path, end, n);
      }
    }
    hide LexLess;
    assert forall k :: 0 <= k < |queue| ==> queue'[k] == queue[k];
  }

  /** When all paths of a level have been expanded, unvisited services lie one level further. */
  lemma LevelDone(adj: FirstConnections, s: string, queue: seq<seq<string>>, visited: set<string>,
                  depth: map<string, nat>, level: nat)
    requires depth.Keys == visited && s in visited && level >= 1
    requires Depths(adj, s, depth, level)
    requires forall k :: 0 <= k < |queue| ==> Last(queue[k]) in visited && depth[Last(queue[k])] == |queue[k]| > level
    requires forall u :: u in visited && !Queued(queue, u) ==> Neighbours(adj, u) <= visited
    ensures Depths(adj, s, depth, level + 1)
  {
    forall p, v | Walk(adj, p, s, v)
      ensures if v in depth then depth[v] <= |p| else level + 1 < |p|
    {
      if v !in depth && |p| == level + 1 {
        WalkPrefix(adj, p, s, v);
        assert false;
      }
    }
  }

  /** A closed visited set without queued paths holds everything reachable. */
  lemma {:induction false} ClosedSetHoldsReachable(adj: FirstConnections, s: string, visited: set<string>, p: seq<string>, t: string)
    requires s in visited && Walk(adj, p, s, t)
    requires forall u :: u in visited ==> Neighbours(adj, u) <= visited
    ensures t in visited
    decreases |p|
  {
    if |p| >= 2 {
      WalkPrefix(adj, p, s, t);
      ClosedSetHoldsReachable(adj, s, visited, p[..|p| - 1], p[|p| - 2]);
    }
  }

  function KindOr(kind: string): string {
    if kind == "" then "unknown" else kind
  }

  /** The hops of a path, each with the kind of the first connection between the two services. */
  ghost predicate HopsOf(adj: FirstConnections, p: seq<string>, hops: seq<Hop>) {
    && p != [] && |hops| == |p| - 1
    && forall i :: 0 <= i < |hops| ==>
         && p[i + 1] in Neighbours(adj, p[i])
         && hops[i].from == p[i] && hops[i].to == p[i + 1]
         && hops[i].kind == if adj[p[i]][p[i + 1]].kind == "" then "unknown" else adj[p[i]][p[i + 1]].kind
  }

  method RenderHops(adj: FirstConnections, path: seq<string>, ghost s: string, ghost t: string) returns (hops: seq<Hop>)
    requires Walk(adj, path, s, t)
    ensures HopsOf(adj, path, hops)
  {
    hops := [];
    var i := 0;
    while i + 1 < |path|
      invariant i < |path| && |hops| == i
      invariant HopsOf(adj, path[..i + 1], hops)
    {
      assert StepAt(adj, path, i);
      hops := hops + [Hop(path[i], path[i + 1], KindOr(adj[path[i]][path[i + 1]].kind))];
      i := i + 1;
    }
    assert path[..i + 1] == path;
  }

  lemma StartSearch(adj: FirstConnections, s: string, t: string)
    ensures Searching(adj, s, t, [[s]], {s}, map[s := 1], [s], 1, {})
  {
    assert Queued([[s]], s) by {
      assert Last([[s]][0]) == s;
    }
    assert Walk(adj, [s], s, s);
    assert Last([s]) == s;
  }

  /** Taking the front path off the queue leaves its end to be expanded. */
  lemma Dequeue(adj: FirstConnections, s: string, t: string, queue: seq<seq<string>>, visited: set<string>,
                depth: map<string, nat>, enqueued: seq<string>, level: nat)
    requires queue != [] && Searching(adj, s, t, queue, visited, depth, enqueued, level, {})
    ensures Searching(adj, s, t, queue[1..], visited, depth, enqueued, |queue[0]|, {Last(queue[0])})
  {
    forall u | Queued(queue, u) && u != Last(queue[0])
      ensures Queued(queue[1..], u)
    {
      var k :| 0 <= k < |queue| && Last(queue[k]) == u;
      assert queue[1..][k - 1] == queue[k];
    }
    if |queue[0]| == level + 1 {
      forall u | u in visited && !Queued(queue, u)
        ensures Neighbours(adj, u) <= visited
      {
      }
      LevelDone(adj, s, queue, visited, depth, level);
    }
  }

  /** Queueing the path to a neighbour seen for the first time. */
  lemma Enqueue(adj: FirstConnections, s: string, t: string, queue: seq<seq<string>>, visited: set<string>,
                depth: map<string, nat>, enqueued: seq<string>, path: seq<string>, cur: string, n: string)
    requires Walk(adj, path, s, cur) && n in Neighbours(adj, cur) && n !in visited
    requires Searching(adj, s, t, queue, visited, depth, enqueued, |path|, {cur})
    ensures Searching(adj, s, t, queue + [path + [n]], visited + {n}, depth[n := |path| + 1], enqueued + [n], |path|, {cur})
  {
    var queue' := queue + [path + [n]];
    WalkExtends(adj, path, s, cur, n);
    assert Last(queue'[|queue|]) == n;
    forall u | Queued(queue, u)
      ensures Queued(queue', u)
    {
      var k :| 0 <= k < |queue| && Last(queue[k]) == u;
      assert queue'[k] == queue[k];
    }
    forall u | u in visited + {n} && u !in {cur} && !Queued(queue', u)
      ensures Neighbours(adj, u) <= visited + {n} && u != t
    {
      assert !Queued(queue, u);
    }
  }

  /** Once all neighbours of `cur` are visited it counts as expanded. */
  lemma CloseService(adj: FirstConnections, s: string, t: string, queue: seq<seq<string>>, visited: set<string>,
                     depth: map<string, nat>, enqueued: seq<string>, level: nat, cur: string)
    requires Searching(adj, s, t, queue, visited, depth, enqueued, level, {cur})
    requires Neighbours(adj, cur) <= visited && cur != t
    ensures Searching(adj, s, t, queue, visited, depth, enqueued, level, {})
  {
  }

  lemma NothingLeft(adj: FirstConnections, s: string, t: string, visited: set<string>, depth: map<string, nat>,
                    enqueued: seq<string>, level: nat)
    requires Searching(adj, s, t, [], visited, depth, enqueued, level, {})
    ensures !Reachable(adj, s, t)
  {
    if Reachable(adj, s, t) {
      var p :| Walk(adj, p, s, t);
      assert forall u :: !Queued([], u);
      ClosedSetHoldsReachable(adj, s, visited, p, t);
      assert false;
    }
  }

  lemma FrontIsShortest(adj: FirstConnections, s: string, t: string, queue: seq<seq<string>>, visited: set<string>,
                        depth: map<string, nat>, enqueued: seq<string>, level: nat)
    requires queue != [] && Searching(adj, s, t, queue, visited, depth, enqueued, level, {})
    ensures queue[0] != [] && Walk(adj, queue[0], s, Last(queue[0])) && ShortestWalk(adj, queue[0], s, Last(queue[0]))
  {
  }

  lemma FewerAreLeft(nodes: set<string>, before: set<string>, visited: set<string>)
    requires before <= visited <= nodes
    ensures nodes - visited <= nodes - before
    ensures visited != before ==> nodes - visited < nodes - before
  {
    if visited != before {
      var x :| x in visited && x !in before;
      assert x in nodes - before && x !in nodes - visited;
    }
  }

  lemma WalkIsReached(adj: FirstConnections, p: seq<string>, s: string, t: string)
    requires Walk(adj, p, s, t)
    ensures Reachable(adj, s, t)
  {
  }

  lemma NoHopsToItself(adj: FirstConnections, p: seq<string>, hops: seq<Hop>, s: string, t: string)
    requires ShortestWalk(adj, p, s, t) && HopsOf(adj, p, hops)
    ensures s == t ==> hops == []
  {
    assert s == t ==> Walk(adj, [s], s, t);
  }

  lemma ReachesItself(adj: FirstConnections, s: string)
    ensures Reachable(adj, s, s)
  {
    assert Walk(adj, [s], s, s);
  }

  lemma NeighboursAreTargets(adj: FirstConnections, conns: seq<Connection>, u: string, nodes: set<string>)
    requires Represents(adj, conns, |conns|)
    requires forall k :: 0 <= k < |conns| ==> conns[k].target in nodes
    ensures Neighbours(adj, u) <= nodes
  {
    forall v | v in Neighbours(adj, u)
      ensures v in nodes
    {
      var k: nat :| k < |conns| && FirstRow(conns, k, u, v);
    }
  }

  lemma SearchLevels(adj: FirstConnections, s: string, t: string, queue: seq<seq<string>>, visited: set<string>,
                     depth: map<string, nat>, enqueued: seq<string>, level: nat, open: set<string>)
    requires Searching(adj, s, t, queue, visited, depth, enqueued, level, open)
    ensures TwoLevels(queue, level)
  {
  }

  lemma OpeningGrows(path: seq<string>, queue: seq<seq<string>>, done: seq<string>, n: string)
    requires Opening(path, queue, done)
    ensures Opening(path, queue, done + [n])
  {
  }

  /** Visit the neighbours of the path's end in ascending order, queueing a path to each new one. */
  method ExpandService(adj: FirstConnections, ghost s: string, ghost t: string, path: seq<string>, queue0: seq<seq<string>>,
                       visited0: set<string>, ghost depth0: map<string, nat>, ghost enqueued0: seq<string>,
                       ghost nodes: set<string>)
    returns (queue: seq<seq<string>>, visited: set<string>, ghost depth: map<string, nat>, ghost enqueued: seq<string>)
    requires path != [] && Walk(adj, path, s, Last(path)) && Last(path) != t
    requires visited0 <= nodes && Neighbours(adj, Last(path)) <= nodes
    requires Searching(adj, s, t, queue0, visited0, depth0, enqueued0, |path|, {Last(path)})
    requires LeastWalk(adj, path, s, Last(path)) && Ascending(adj, s, queue0) && Opening(path, queue0, [])
    ensures Searching(adj, s, t, queue, visited, depth, enqueued, |path|, {})
    ensures Ascending(adj, s, queue)
    ensures visited0 <= visited <= nodes
    ensures visited == visited0 ==> queue == queue0
    ensures enqueued0 <= enqueued
  {
    hide LeastWalk, Ascending, Opening, Searching, LexLess, Walk;
    queue, visited, depth, enqueued := queue0, visited0, depth0, enqueued0;
    var cur := path[|path| - 1];
    var next := SortedKeys(Neighbours(adj, cur));
    for i := 0 to |next|
      invariant Searching(adj, s, t, queue, visited, depth, enqueued, |path|, {cur})
      invariant Ascending(adj, s, queue) && Opening(path, queue, next[..i])
      invariant visited0 <= visited <= nodes
      invariant visited == visited0 ==> queue == queue0
      invariant forall j :: 0 <= j < i ==> next[j] in visited
      invariant enqueued0 <= enqueued
    {
      assert next[..i + 1] == next[..i] + [next[i]];
      if next[i] !in visited {
        EnqueuedIsLeast(adj, s, t, queue, visited, depth, enqueued, path, cur, next[i], next[..i]);
        SearchLevels(adj, s, t, queue, visited, depth, enqueued, |path|, {cur});
        EnqueueAscending(adj, s, queue, path, next[i], next[..i]);
        Enqueue(adj, s, t, queue, visited, depth, enqueued, path, cur, next[i]);
        assert next[i] !in visited0;
        visited := visited + {next[i]};
        queue := queue + [path + [next[i]]];
        depth := depth[next[i] := |path| + 1];
        enqueued := enqueued + [next[i]];
      } else {
        OpeningGrows(path, queue, next[..i], next[i]);
      }
    }
    CloseService(adj, s, t, queue, visited, depth, enqueued, |path|, cur);
  }

  /**
   `FindPath`: a path with the fewest hops when the target can be reached, the empty path when
   source and target are the same, nothing when the target cannot be reached.
   */
  method FindPath(conns: seq<Connection>, source: string, target: string)
    returns (result: Option<seq<Hop>>, adj: FirstConnections)
    ensures Represents(adj, conns, |conns|)
    ensures result.None? <==> !Reachable(adj, source, target)
    ensures result.Some? ==>
              exists p :: ShortestWalk(adj, p, source, target) && LeastWalk(adj, p, source, target) && HopsOf(adj, p, result.value)
    ensures source == target ==> result == Some([])
  {
    hide LeastWalk, Ascending, Opening, LexLess, Searching, HopsOf, Represents, Reachable, Neighbours, ShortestWalk, Walk, Last;
    adj := BuildAdjacency(conns);
    var queue := [[source]];
    var visited := {source};
    ghost var depth: map<string, nat> := map[source := 1];
    ghost var enqueued := [source];
    ghost var level: nat := 1;
    ghost var nodes := {source} + set k | 0 <= k < |conns| :: conns[k].target;
    StartSearch(adj, source, target);
    StartAscending(adj, source);
    while queue != []
      invariant Searching(adj, source, target, queue, visited, depth, enqueued, level, {})
      invariant Ascending(adj, source, queue)
      invariant visited <= nodes
      decreases nodes - visited, |queue|
    {
      var path := queue[0];
      FrontIsShortest(adj, source, target, queue, visited, depth, enqueued, level);
      Dequeue(adj, source, target, queue, visited, depth, enqueued, level);
      DequeueAscending(adj, source, queue);
      if Last(path) == target {
        var hops := RenderHops(adj, path, source, target);
        WalkIsReached(adj, path, source, target);
        NoHopsToItself(adj, path, hops, source, target);
        return Some(hops), adj;
      }
      queue := queue[1..];
      NeighboursAreTargets(adj, conns, Last(path), nodes);
      ghost var before := visited;
      queue, visited, depth, enqueued := ExpandService(adj, source, target, path, queue, visited, depth, enqueued, nodes);
      FewerAreLeft(nodes, before, visited);
      level := |path|;
    }
    NothingLeft(adj, source, target, visited, depth, enqueued, level);
    ReachesItself(adj, source);
    result := None;
  }
}
