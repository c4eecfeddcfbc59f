/**
 Service-level cycle search: `FindCircular` and `dfsFindCycles`
 (internal/query/topology.go).
 */
module CircularDependencies {
  import opened Strings
  import opened CycleForms
  import opened LeastWalks

  datatype Connection = Connection(source: string, target: string, kind: string)

  ghost predicate Connected(conns: seq<Connection>, u: string, v: string) {
    exists k :: 0 <= k < |conns| && conns[k].source == u && conns[k].target == v
  }

  ghost function Sources(conns: seq<Connection>): set<string> {
    set k | 0 <= k < |conns| :: conns[k].source
  }

  ghost function Services(conns: seq<Connection>): set<string> {
    Sources(conns) + set k | 0 <= k < |conns| :: conns[k].target
  }

  /** The service graph of the given connections. */
  ghost function Graph(conns: seq<Connection>): (adj: Adjacency)
    ensures forall u, v :: v in Targets(adj, u) <==> Connected(conns, u, v)
  {
    map s | s in Sources(conns) :: (set k | 0 <= k < |conns| && conns[k].source == s :: conns[k].target)
  }

  // ---- what a set of reported cycles explains ----

  /** A cycle in the shape `FindCircular` reports it. */
  ghost predicate Reportable(adj: Adjacency, c: seq<string>) {
    SimpleCycle(adj, c) && StartsAtLeast(c)
  }

  /** Some cycle through the edge (u, v) has the key of a reported cycle. */
  ghost predicate Acknowledged(adj: Adjacency, cycles: seq<seq<string>>, u: string, v: string) {
    exists c :: Reportable(adj, c) && HasEdge(c, u, v) && Reported(cycles, Join(c))
  }

  ghost predicate SharedAt(c: seq<string>, w: seq<string>, i: nat) {
    i + 1 < |w| && HasEdge(c, w[i], w[i + 1])
  }

  ghost predicate SharesEdge(c: seq<string>, w: seq<string>) {
    exists i: nat :: SharedAt(c, w, i)
  }

  ghost predicate CoveredWalk(cycles: seq<seq<string>>, w: seq<string>) {
    exists k :: 0 <= k < |cycles| && SharesEdge(cycles[k], w)
  }

  /** Every closed walk runs over an edge of some reported cycle. */
  ghost predicate CoversEveryCycle(adj: Adjacency, cycles: seq<seq<string>>) {
    forall w :: ClosedWalk(adj, w) ==> CoveredWalk(cycles, w)
  }

  /** All reported cycles are real, in normal form and distinct in their keys. */
  ghost predicate WellReported(adj: Adjacency, cycles: seq<seq<string>>) {
    && (forall k :: 0 <= k < |cycles| ==> Reportable(adj, cycles[k]))
    && (forall i, j :: 0 <= i < j < |cycles| ==> Join(cycles[i]) != Join(cycles[j]))
  }

  ghost predicate AcknowledgedAt(adj: Adjacency, cycles: seq<seq<string>>, w: seq<string>, i: nat) {
    i + 1 < |w| && Acknowledged(adj, cycles, w[i], w[i + 1])
  }

  ghost predicate AcknowledgedWalk(adj: Adjacency, cycles: seq<seq<string>>, w: seq<string>) {
    exists i: nat :: AcknowledgedAt(adj, cycles, w, i)
  }

  /** Every cycle of the graph runs over an edge that some reported key stands for. */
  ghost predicate AcknowledgesEveryCycle(adj: Adjacency, cycles: seq<seq<string>>) {
    forall w {:trigger AcknowledgedWalk(adj, cycles, w)} :: ClosedWalk(adj, w) ==> AcknowledgedWalk(adj, cycles, w)
  }

  lemma AcknowledgedGrows(adj: Adjacency, cycles: seq<seq<string>>, cycles': seq<seq<string>>, u: string, v: string)
    requires Acknowledged(adj, cycles, u, v) && cycles <= cycles'
    ensures Acknowledged(adj, cycles', u, v)
  {
    var c :| Reportable(adj, c) && HasEdge(c, u, v) && Reported(cycles, Join(c));
    var k :| 0 <= k < |cycles| && Join(cycles[k]) == Join(c);
    assert cycles'[k] == cycles[k];
  }

  lemma AllAcknowledgedGrow(adj: Adjacency, cycles: seq<seq<string>>, cycles': seq<seq<string>>, u: string)
    requires cycles <= cycles'
    ensures forall v :: Acknowledged(adj, cycles, u, v) ==> Acknowledged(adj, cycles', u, v)
  {
    forall v | Acknowledged(adj, cycles, u, v)
      ensures Acknowledged(adj, cycles', u, v)
    {
      AcknowledgedGrows(adj, cycles, cycles', u, v);
    }
  }

  lemma ReportedAfter(cycles: seq<seq<string>>, cycle: seq<string>)
    ensures forall key :: Reported(cycles + [cycle], key) <==> Reported(cycles, key) || key == Join(cycle)
  {
    var cycles' := cycles + [cycle];
    assert cycles'[|cycles|] == cycle;
    forall key | Reported(cycles, key)
      ensures Reported(cycles', key)
    {
      var i :| 0 <= i < |cycles| && Join(cycles[i]) == key;
      assert cycles'[i] == cycles[i];
    }
  }

  // ---- finishing order ----

  ghost predicate Before(order: seq<string>, v: string, u: string) {
    exists i, j :: 0 <= i < j < |order| && order[i] == v && order[j] == u
  }

  /** Each edge out of `u` leads to a service finished earlier, or is acknowledged by a report. */
  ghost predicate Settled(adj: Adjacency, order: seq<string>, cycles: seq<seq<string>>, u: string) {
    forall v :: v in Targets(adj, u) ==> Before(order, v, u) || Acknowledged(adj, cycles, u, v)
  }

  lemma SettledGrows(adj: Adjacency, order: seq<string>, cycles: seq<seq<string>>,
                     order': seq<string>, cycles': seq<seq<string>>, u: string)
    requires Settled(adj, order, cycles, u) && order <= order' && cycles <= cycles'
    ensures Settled(adj, order', cycles', u)
  {
    forall v | v in Targets(adj, u)
      ensures Before(order', v, u) || Acknowledged(adj, cycles', u, v)
    {
      if Before(order, v, u) {
        var i, j :| 0 <= i < j < |order| && order[i] == v && order[j] == u;
        assert order'[i] == v && order'[j] == u;
      } else {
        AcknowledgedGrows(adj, cycles, cycles', u, v);
      }
    }
  }

  ghost function Position(order: seq<string>, u: string): (i: nat)
    requires u in order
    ensures i < |order| && order[i] == u
  {
    var i: nat :| i < |order| && order[i] == u;
    i
  }

  /** Along unacknowledged edges the finishing positions strictly fall. */
  lemma {:induction false} PositionsFall(adj: Adjacency, order: seq<string>, cycles: seq<seq<string>>, w: seq<string>, i: nat)
    requires NoDuplicates(order) && ClosedWalk(adj, w) && i < |w|
    requires forall k :: 0 <= k < |w| ==> w[k] in order && Settled(adj, order, cycles, w[k])
    requires forall k: nat :: !AcknowledgedAt(adj, cycles, w, k)
    ensures i > 0 ==> Position(order, w[i]) < Position(order, w[0])
  {
    if i == 0 {
    } else {
      PositionsFall(adj, order, cycles, w, i - 1);
      assert EdgeAt(adj, w, i - 1);
      assert !AcknowledgedAt(adj, cycles, w, i - 1);
      assert Before(order, w[i], w[i - 1]);
    }
  }

  lemma EveryCycleIsAcknowledged(adj: Adjacency, order: seq<string>, cycles: seq<seq<string>>, w: seq<string>)
    requires NoDuplicates(order) && ClosedWalk(adj, w)
    requires forall k :: 0 <= k < |w| ==> w[k] in order && Settled(adj, order, cycles, w[k])
    ensures AcknowledgedWalk(adj, cycles, w)
  {
    if forall i: nat :: !AcknowledgedAt(adj, cycles, w, i) {
      PositionsFall(adj, order, cycles, w, |w| - 1);
      assert false;
    }
  }

  // ---- the search ----

  ghost predicate OnPath(adj: Adjacency, stack: seq<string>) {
    && NoDuplicates(stack)
    && forall i: nat :: i + 1 < |stack| ==> EdgeAt(adj, stack, i)
  }

  lemma BackEdgeClosesCycle(adj: Adjacency, stack: seq<string>, idx: nat)
    requires OnPath(adj, stack) && idx < |stack| && stack[idx] in Targets(adj, stack[|stack| - 1])
    ensures SimpleCycle(adj, stack[idx..] + [stack[idx]])
    ensures HasEdge(stack[idx..] + [stack[idx]], stack[|stack| - 1], stack[idx])
  {
    var c := stack[idx..] + [stack[idx]];
    assert Body(c) == stack[idx..];
    assert HopAt(c, |c| - 2, stack[|stack| - 1], stack[idx]);
    forall i: nat | i + 1 < |c|
      ensures EdgeAt(adj, c, i)
    {
      if i + 2 < |c| {
        assert EdgeAt(adj, stack, idx + i);
      }
    }
  }

  lemma SmallerAreEarlier(names: seq<string>, i: nat)
    requires StrictlySorted(names) && i < |names|
    ensures forall v :: v in names && Less(v, names[i]) ==> v in names[..i]
  {
    forall v | v in names && Less(v, names[i])
      ensures v in names[..i]
    {
      var k :| 0 <= k < |names| && names[k] == v;
      if k >= i {
        LessIrreflexive(v);
        if k > i {
          LessTransitive(v, names[i], v);
        }
      }
    }
  }

  /** The cycle a back edge closes, as it is reported. */
  lemma BackEdgeCycle(adj: Adjacency, stack: seq<string>, idx: nat)
    requires OnPath(adj, stack) && idx < |stack| && stack[idx] in Targets(adj, stack[|stack| - 1])
    ensures var form := NormalForm(stack[idx..] + [stack[idx]]);
            && form == FormOf(stack + [stack[idx]])
            && Reportable(adj, form) && HasEdge(form, stack[|stack| - 1], stack[idx])
  {
    assert forall j :: 0 <= j < idx ==> stack[j] != stack[idx];
    BackEdgeClosesCycle(adj, stack, idx);
    CycleOfBack(stack, idx);
    NormalFormIsSameCycle(adj, stack[idx..] + [stack[idx]]);
  }

  lemma ReportedIsAcknowledged(adj: Adjacency, cycles: seq<seq<string>>, c: seq<string>, u: string, v: string)
    requires Reportable(adj, c) && HasEdge(c, u, v) && Reported(cycles, Join(c))
    ensures Acknowledged(adj, cycles, u, v)
  {
  }

  /** The on-stack set mirrors the path, and edges were explored once, out of finished or open services. */
  ghost predicate Opened(adj: Adjacency, stack: seq<string>, inStack: set<string>, visited: set<string>, explored: seq<(string, string)>) {
    && OnPath(adj, stack)
    && (forall u :: u in inStack <==> u in stack) && visited !! inStack
    && NoDuplicates(explored)
    && (forall e :: e in explored ==> e.1 in Targets(adj, e.0) && (e.0 in visited || e.0 in inStack))
  }

  /** Every finished service is settled. */
  ghost predicate Finished(adj: Adjacency, visited: set<string>, order: seq<string>, cycles: seq<seq<string>>) {
    && NoDuplicates(order) && (forall u :: u in visited <==> u in order)
    && (forall u :: u in visited ==> Settled(adj, order, cycles, u))
  }

  /** The cycles are reported as they should be, and `seen` holds their keys. */
  ghost predicate Reporting(adj: Adjacency, cycles: seq<seq<string>>, seen: set<string>) {
    WellReported(adj, cycles) && forall key :: key in seen <==> Reported(cycles, key)
  }

  lemma ReportingMore(adj: Adjacency, cycles: seq<seq<string>>, seen: set<string>, cycle: seq<string>)
    requires Reporting(adj, cycles, seen) && Reportable(adj, cycle) && Join(cycle) !in seen
    ensures Reporting(adj, cycles + [cycle], seen + {Join(cycle)}) && Reported(cycles + [cycle], Join(cycle))
  {
    ReportedAfter(cycles, cycle);
    hide Reportable;
    forall i | 0 <= i < |cycles|
      ensures Join(cycles[i]) != Join(cycle)
    {
      assert Reported(cycles, Join(cycles[i]));
    }
  }

  lemma FinishedKeeps(adj: Adjacency, visited: set<string>, order: seq<string>, cycles: seq<seq<string>>, more: seq<seq<string>>)
    requires Finished(adj, visited, order, cycles) && cycles <= more
    ensures Finished(adj, visited, order, more)
  {
    forall u | u in visited
      ensures Settled(adj, order, more, u)
    {
      SettledGrows(adj, order, cycles, order, more, u);
    }
    hide Settled;
  }

  lemma FinishedMore(adj: Adjacency, visited: set<string>, order: seq<string>, cycles: seq<seq<string>>, node: string)
    requires Finished(adj, visited, order, cycles) && node !in visited
    requires forall v :: v in Targets(adj, node) ==> v in visited || Acknowledged(adj, cycles, node, v)
    ensures Finished(adj, visited + {node}, order + [node], cycles)
  {
    var order' := order + [node];
    hide Acknowledged;
    forall v | v in Targets(adj, node) && v in order
      ensures Before(order', v, node)
    {
      var i :| 0 <= i < |order| && order[i] == v;
      assert order'[i] == v && order'[|order|] == node;
    }
    assert Settled(adj, order', cycles, node);
    forall u | u in visited
      ensures Settled(adj, order', cycles, u)
    {
      SettledGrows(adj, order, cycles, order', cycles, u);
    }
    hide Settled, Before;
  }

  lemma OpenedMore(adj: Adjacency, stack: seq<string>, inStack: set<string>, visited: set<string>, explored: seq<(string, string)>, node: string)
    requires Opened(adj, stack, inStack, visited, explored) && node !in inStack && node !in visited
    requires stack != [] ==> node in Targets(adj, stack[|stack| - 1])
    ensures Opened(adj, stack + [node], inStack + {node}, visited, explored)
    ensures forall e :: e in explored ==> e.0 != node
  {
    var path := stack + [node];
    forall i: nat | i + 1 < |path|
      ensures EdgeAt(adj, path, i)
    {
      assert i + 1 < |stack| ==> EdgeAt(adj, stack, i);
    }
  }

  lemma OpenedLess(adj: Adjacency, stack: seq<string>, inStack: set<string>, visited: set<string>, explored: seq<(string, string)>, node: string)
    requires Opened(adj, stack + [node], inStack, visited, explored)
    ensures Opened(adj, stack, inStack - {node}, visited + {node}, explored)
    ensures node !in visited && node in inStack
  {
    var path := stack + [node];
    assert forall i: nat :: i < |stack| ==> path[i] == stack[i];
    assert path[|stack|] == node;
    forall i: nat | i + 1 < |stack|
      ensures EdgeAt(adj, stack, i)
    {
      assert EdgeAt(adj, path, i);
    }
  }

  /** What the search leaves of an explored target of the path's last service. */
  ghost predicate Handled(adj: Adjacency, path: seq<string>, cycles: seq<seq<string>>, visited: set<string>, backs: seq<seq<string>>, v: string)
    requires path != []
  {
    && (v in visited || v in path)
    && (v in path ==> path + [v] in backs)
    && (v in visited || Acknowledged(adj, cycles, path[|path| - 1], v))
  }

  lemma HandledStays(adj: Adjacency, path: seq<string>, cycles: seq<seq<string>>, visited: set<string>, backs: seq<seq<string>>,
                     cycles': seq<seq<string>>, visited': set<string>, backs': seq<seq<string>>)
    requires path != [] && cycles <= cycles' && visited <= visited' && backs <= backs'
    ensures forall v :: Handled(adj, path, cycles, visited, backs, v) ==> Handled(adj, path, cycles', visited', backs', v)
  {
    AllAcknowledgedGrow(adj, cycles, cycles', path[|path| - 1]);
  }

  class Search {
    const adj: Adjacency
    ghost const services: set<string>
    var inStack: set<string>
    var cycles: seq<seq<string>>
    var seen: set<string>
    var visited: set<string>
    ghost var order: seq<string>
    ghost var explored: seq<(string, string)>
    ghost var backs: seq<seq<string>>  // the paths closed by an edge back, in the order they were met

    /** The closing walks met so far are told, and the report keeps the first of each key. */
    ghost predicate Ordered(stack: seq<string>)
      reads this`visited, this`backs, this`cycles
    {
      Told(adj, services, stack, visited, backs) && cycles == Kept(backs)
    }

    /** What holds at every call with the given path of open services. */
    ghost predicate Valid(stack: seq<string>)
      reads this`inStack, this`order, this`visited, this`cycles, this`seen, this`explored
    {
      && Opened(adj, stack, inStack, visited, explored)
      && Finished(adj, visited, order, cycles)
      && Reporting(adj, cycles, seen)
    }

    constructor (adj: Adjacency, ghost services: set<string>)
      ensures this.adj == adj && this.services == services && cycles == [] && inStack == {} && visited == {} && backs == [] && Valid([]) && Ordered([])
    {
      this.adj, this.services := adj, services;
      inStack, cycles, seen, visited, order, explored, backs := {}, [], {}, {}, [], [], [];
    }

    method Record(cycle: seq<string>, ghost stack: seq<string>)
      requires Valid(stack) && Reportable(adj, cycle) && Join(cycle) !in seen
      modifies this`cycles, this`seen
      ensures Valid(stack) && cycles == old(cycles) + [cycle]
      ensures Reported(cycles, Join(cycle))
    {
      ReportingMore(adj, cycles, seen, cycle);
      FinishedKeeps(adj, visited, order, cycles, cycles + [cycle]);
      hide Opened, Finished, Reporting, Reportable;
      seen := seen + {Join(cycle)};
      cycles := cycles + [cycle];
    }

    /** A service in the on-stack set is found on the path. */
    lemma FindsOnPath(node: string, stack: seq<string>)
      requires Valid(stack)
      ensures OnPath(adj, stack) && (node in inStack <==> node in stack)
      ensures forall key :: key in seen <==> Reported(cycles, key)
    {
    }

    /** The back-edge branch: build the cycle from the path, normalise it, report it unless its key was seen. */
    method Report(node: string, stack: seq<string>)
      requires Valid(stack) && node in inStack && stack != [] && node in Targets(adj, stack[|stack| - 1])
      requires Ordered(stack) && Least(adj, services, stack) && AllBefore(backs, stack + [node])
      modifies this`cycles, this`seen, this`backs
      ensures Valid(stack) && old(cycles) <= cycles
      ensures Acknowledged(adj, cycles, stack[|stack| - 1], node)
      ensures Ordered(stack) && backs == old(backs) + [stack + [node]]
    {
      hide Told, Least, AllBefore, Finished, Opened, Reporting, OnPath, Kept, NormalForm, FormOf, Reported, Reportable, HasEdge,
        Acknowledged, Targets;
      FindsOnPath(node, stack);
      var idx := -1;
      for i := 0 to |stack|
        invariant idx == -1
        invariant forall j :: 0 <= j < i ==> stack[j] != node
      {
        if stack[i] == node {
          idx := i;
          break;
        }
      }
      if idx < 0 {
        assert false;
      } else {
        var cycle := stack[idx..] + [node];
        BackEdgeCycle(adj, stack, idx);
        var normalized := NormalizeCycle(cycle);
        KeptStep(backs, stack + [node]);
        TellBack(adj, services, stack, visited, backs, node);
        if Join(normalized) !in seen {
          Record(normalized, stack);
        }
        ReportedIsAcknowledged(adj, cycles, normalized, stack[|stack| - 1], node);
        backs := backs + [stack + [node]];
      }
    }

    /** Opening `node`: it joins both the path and the on-stack set. */
    method Enter(node: string, ghost stack: seq<string>)
      requires Valid(stack) && node !in inStack && node !in visited && Ordered(stack)
      requires stack != [] ==> node in Targets(adj, stack[|stack| - 1])
      modifies this`inStack
      ensures Valid(stack + [node]) && inStack == old(inStack) + {node} && Ordered(stack + [node])
      ensures forall e :: e in explored ==> e.0 != node
    {
      TellEntered(adj, services, stack, visited, backs, node);
      OpenedMore(adj, stack, inStack, visited, explored, node);
      hide Told, Kept, Opened, Finished, Reporting;
      inStack := inStack + {node};
    }

    ghost method Explore(node: string, child: string, path: seq<string>)
      requires Valid(path) && node in inStack && child in Targets(adj, node) && (node, child) !in explored
      modifies this`explored
      ensures Valid(path) && explored == old(explored) + [(node, child)]
    {
      hide Finished, Reporting;
      explored := explored + [(node, child)];
    }

    lemma IsClosedOff(stack: seq<string>)
      requires Ordered(stack)
      ensures ClosedOff(adj, visited, stack)
    {
    }

    /** One edge of the open service `node`, explored for the only time after those to smaller names. */
    method VisitChild(node: string, child: string, path: seq<string>, ghost names: seq<string>, ghost earlier: seq<seq<string>>,
                      ghost nodes: set<string>)
      requires Valid(path) && inStack <= nodes && path != [] && path[|path| - 1] == node
      requires child in Targets(adj, node) && (node, child) !in explored
      requires forall u :: Targets(adj, u) <= nodes
      requires Ordered(path) && Least(adj, services, path) && Passed(adj, services, visited + inStack, path)
      requires Found(path, names, earlier, backs) && forall n :: n in names ==> Less(n, child)
      requires forall v :: v in Targets(adj, node) && Less(v, child) ==> Handled(adj, path, cycles, visited, backs, v)
      modifies this
      decreases nodes - inStack, 1
      ensures Ordered(path) && Found(path, names + [child], earlier, backs) && old(visited) <= visited && old(backs) <= backs
      ensures Passed(adj, services, visited + inStack, path)
      ensures Handled(adj, path, cycles, visited, backs, child)
      ensures Valid(path) && inStack == old(inStack)
      ensures old(order) <= order && old(cycles) <= cycles
      ensures forall e :: e in explored && e.0 in old(visited) + old(inStack) ==> e in old(explored) || e == (node, child)
    {
      IsClosedOff(path);
      hide Told, Kept, Least, Passed, Found, Opened, Finished, Reporting;
      PassedByNext(adj, services, visited, visited + inStack, path, child);
      FoundBeforeNext(path, names, earlier, backs, child);
      Explore(node, child, path);
      ghost var before, met := backs, visited + inStack;
      Dfs(child, path, nodes);
      FoundMore(path, names, earlier, before, backs, child);
      PassedGrows(adj, services, met, visited + inStack, path);
    }

    /** Leaving `node` once all its edges are explored. */
    method Finish(node: string, stack: seq<string>)
      requires Valid(stack + [node]) && Ordered(stack + [node]) && Least(adj, services, stack + [node])
      requires forall v :: v in Targets(adj, node) ==> Handled(adj, stack + [node], cycles, visited, backs, v)
      modifies this`inStack, this`visited, this`order
      ensures Ordered(stack)
      ensures Valid(stack) && inStack == old(inStack) - {node}
      ensures visited == old(visited) + {node} && order == old(order) + [node]
    {
      hide Told, Kept, Least, Opened, Finished, Reporting, Acknowledged, Targets;
      TellFinished(adj, services, stack, visited, backs, node);
      OpenedLess(adj, stack, inStack, visited, explored, node);
      FinishedMore(adj, visited, order, cycles, node);
      inStack := inStack - {node};
      visited := visited + {node};
      order := order + [node];
    }

    /** A service about to be opened stands at the end of its least walk. */
    lemma EntersPath(node: string, stack: seq<string>)
      requires Valid(stack) && node !in inStack && node !in visited
      requires stack != [] ==> Least(adj, services, stack)
      requires node in Choices(adj, services, stack)
      requires Passed(adj, services, visited + inStack, stack + [node]) && AllBefore(backs, stack + [node])
      ensures Least(adj, services, stack + [node]) && Passed(adj, services, visited + inStack + {node}, stack + [node])
      ensures Found(stack + [node], [], backs, backs)
    {
      WalkGoesOn(adj, services, stack, node);
      EntersLeast(adj, services, visited + inStack, stack + [node]);
    }

    /** `dfsFindCycles`; `inStack` mirrors the path `stack` throughout, so a node on the stack is always found in it. */
    method Dfs(node: string, stack: seq<string>, ghost nodes: set<string>)
      requires Valid(stack) && node in nodes && inStack <= nodes
      requires forall u :: Targets(adj, u) <= nodes
      requires stack != [] ==> node in Targets(adj, stack[|stack| - 1]) && Least(adj, services, stack)
      requires Ordered(stack) && node in Choices(adj, services, stack)
      requires Passed(adj, services, visited + inStack, stack + [node]) && AllBefore(backs, stack + [node])
      modifies this
      decreases nodes - inStack, 0
      ensures Ordered(stack) && old(visited) <= visited && old(backs) <= backs && AllFrom(backs[|old(backs)|..], stack + [node])
      ensures node in visited || node in stack
      ensures node in stack ==> stack + [node] in backs
      ensures Valid(stack) && inStack == old(inStack)
      ensures old(order) <= order && old(cycles) <= cycles
      ensures node in visited || (stack != [] && Acknowledged(adj, cycles, stack[|stack| - 1], node))
      ensures forall e :: e in explored && e.0 in old(visited) + old(inStack) ==> e in old(explored)
    {
      hide Told, Kept, Least, Passed, Found, AllBefore, Reportable, Opened, Finished, Reporting, Acknowledged, Handled, Targets, Choices;
      FindsOnPath(node, stack);
      if node in inStack {
        Report(node, stack);
        return;
      }
      if node in visited {
        return;
      }
      var path := stack + [node];
      EntersPath(node, stack);
      Enter(node, stack);
      assert visited + inStack == old(visited + inStack) + {node};
      var children := SortedKeys(Targets(adj, node));
      StrictlySortedHasNoDuplicates(children);
      for i := 0 to |children|
        invariant Valid(path) && inStack == old(inStack) + {node}
        invariant Ordered(path) && old(visited) <= visited && Passed(adj, services, visited + inStack, path)
        invariant Found(path, children[..i], old(backs), backs)
        invariant old(order) <= order && old(cycles) <= cycles
        invariant forall j :: 0 <= j < i ==> Handled(adj, path, cycles, visited, backs, children[j])
        invariant forall e :: e in explored && e.0 in old(visited) + old(inStack) ==> e in old(explored)
        invariant forall j :: i <= j < |children| ==> (node, children[j]) !in explored
      {
        ghost var known, done, found := cycles, visited, backs;
        SmallerAreEarlier(children, i);
        VisitChild(node, children[i], path, children[..i], old(backs), nodes);
        HandledStays(adj, path, known, done, found, cycles, visited, backs);
        OneMoreName(children, i);
      }
      FoundIsFrom(path, children[..|children|], old(backs), backs);
      Finish(node, stack);
    }
  }

  lemma ConnectedAfter(conns: seq<Connection>, i: nat)
    requires i < |conns|
    ensures forall u, v :: Connected(conns[..i + 1], u, v) <==>
                           Connected(conns[..i], u, v) || (u == conns[i].source && v == conns[i].target)
    ensures Sources(conns[..i + 1]) == Sources(conns[..i]) + {conns[i].source}
  {
    assert conns[..i + 1] == conns[..i] + [conns[i]];
    assert conns[..i + 1][i] == conns[i];
    forall u, v | Connected(conns[..i], u, v)
      ensures Connected(conns[..i + 1], u, v)
    {
      var k :| 0 <= k < i && conns[..i][k].source == u && conns[..i][k].target == v;
      assert conns[..i + 1][k] == conns[k];
    }
    forall s | s in Sources(conns[..i])
      ensures s in Sources(conns[..i + 1])
    {
      var k :| 0 <= k < i && conns[..i][k].source == s;
      assert conns[..i + 1][k].source == s;
    }
  }

  method BuildAdjacency(conns: seq<Connection>) returns (adj: Adjacency)
    ensures adj == Graph(conns)
  {
    adj := map[];
    for i := 0 to |conns|
      invariant adj.Keys == Sources(conns[..i])
      invariant forall u, v :: v in Targets(adj, u) <==> Connected(conns[..i], u, v)
    {
      ghost var before := adj;
      var c := conns[i];
      if c.source !in adj {
        adj := adj[c.source := {}];
      }
      adj := adj[c.source := adj[c.source] + {c.target}];
      ConnectedAfter(conns, i);
      assert forall u, v :: v in Targets(adj, u) <==> v in Targets(before, u) || (u == c.source && v == c.target);
    }
    assert conns[..|conns|] == conns;
    forall s | s in adj
      ensures adj[s] == Graph(conns)[s]
    {
      assert Targets(adj, s) == Targets(Graph(conns), s);
    }
  }

  lemma EmptyReportIffAcyclic(adj: Adjacency, cycles: seq<seq<string>>)
    requires WellReported(adj, cycles) && AcknowledgesEveryCycle(adj, cycles)
    ensures cycles == [] <==> Acyclic(adj)
  {
    if cycles != [] {
      assert Reportable(adj, cycles[0]) && ClosedWalk(adj, cycles[0]);
    }
    if !Acyclic(adj) {
      var w :| ClosedWalk(adj, w);
      assert AcknowledgedWalk(adj, cycles, w);
      var i: nat :| AcknowledgedAt(adj, cycles, w, i);
      var c :| Reportable(adj, c) && Reported(cycles, Join(c));
    }
  }

  /** No two cycles of the graph, in normal form, have the same joined key. */
  ghost predicate KeysDistinguish(adj: Adjacency) {
    forall c, d :: Reportable(adj, c) && Reportable(adj, d) && Join(c) == Join(d) ==> c == d
  }

  /** The report covers every cycle as long as the joined keys tell the graph's cycles apart. */
  lemma DistinctKeysCoverEveryCycle(adj: Adjacency, cycles: seq<seq<string>>)
    requires WellReported(adj, cycles) && AcknowledgesEveryCycle(adj, cycles) && KeysDistinguish(adj)
    ensures CoversEveryCycle(adj, cycles)
  {
    forall w | ClosedWalk(adj, w)
      ensures CoveredWalk(cycles, w)
    {
      assert AcknowledgedWalk(adj, cycles, w);
      var i: nat :| AcknowledgedAt(adj, cycles, w, i);
      var c :| Reportable(adj, c) && HasEdge(c, w[i], w[i + 1]) && Reported(cycles, Join(c));
      var k :| 0 <= k < |cycles| && Join(cycles[k]) == Join(c);
      assert Reportable(adj, cycles[k]);
      assert SharedAt(cycles[k], w, i);
      assert SharesEdge(cycles[k], w);
    }
  }

  ghost predicate NamesArrowFree(conns: seq<Connection>) {
    forall k :: 0 <= k < |conns| ==> ArrowFree(conns[k].source) && ArrowFree(conns[k].target)
  }

  lemma WalkNamesArrowFree(conns: seq<Connection>, w: seq<string>)
    requires NamesArrowFree(conns) && ClosedWalk(Graph(conns), w)
    ensures forall n :: n in w ==> ArrowFree(n)
  {
    forall i | 0 <= i < |w|
      ensures ArrowFree(w[i])
    {
      var j := if i == 0 then |w| - 2 else i - 1;
      assert EdgeAt(Graph(conns), w, j);
      assert Connected(conns, w[j], w[i]);
    }
  }

  lemma ArrowFreeNamesDistinguish(conns: seq<Connection>)
    requires NamesArrowFree(conns)
    ensures KeysDistinguish(Graph(conns))
  {
    var adj := Graph(conns);
    forall c, d | Reportable(adj, c) && Reportable(adj, d) && Join(c) == Join(d)
      ensures c == d
    {
      WalkNamesArrowFree(conns, c);
      WalkNamesArrowFree(conns, d);
      JoinIsInjective(c, d);
    }
  }

  /** All services that take part in a connection. */
  method CollectServices(conns: seq<Connection>, adj: Adjacency) returns (services: set<string>)
    requires adj.Keys == Sources(conns)
    ensures services == Services(conns)
  {
    services := adj.Keys;
    for i := 0 to |conns|
      invariant services == adj.Keys + set k | 0 <= k < i :: conns[k].target
    {
      services := services + {conns[i].target};
    }
  }

  lemma TargetsAreServices(conns: seq<Connection>)
    ensures forall u :: Targets(Graph(conns), u) <= Services(conns)
  {
    forall u, v | v in Targets(Graph(conns), u)
      ensures v in Services(conns)
    {
      assert Connected(conns, u, v);
    }
  }

  /** Depth-first from every service in ascending order. */
  method SearchFrom(adj: Adjacency, services: set<string>) returns (search: Search)
    requires forall u :: Targets(adj, u) <= services
    ensures fresh(search) && search.adj == adj && search.services == services
    ensures search.Valid([]) && search.Ordered([]) && services <= search.visited
  {
    hide Search.Valid, Search.Ordered, Passed, Found, ClosedOff, AllBefore, AllFrom, Acknowledged;
    var starts := SortedKeys(services);
    search := new Search(adj, services);
    NothingPassed(adj, services);
    NothingFound();
    for i := 0 to |starts|
      invariant search.Valid([]) && search.inStack == {}
      invariant search.adj == adj && search.services == services && fresh(search)
      invariant search.Ordered([]) && Passed(adj, services, search.visited, []) && Found([], starts[..i], [], search.backs)
      invariant forall j :: 0 <= j < i ==> starts[j] in search.visited
    {
      search.IsClosedOff([]);
      ghost var before, met := search.backs, search.visited;
      SmallerAreEarlier(starts, i);
      assert search.visited + search.inStack == search.visited;
      PassedByNext(adj, services, search.visited, search.visited, [], starts[i]);
      FoundBeforeNext([], starts[..i], [], search.backs, starts[i]);
      search.Dfs(starts[i], [], services);
      FoundMore([], starts[..i], [], before, search.backs, starts[i]);
      PassedGrows(adj, services, met, search.visited, []);
      OneMoreName(starts, i);
    }
  }

  /** When every service is finished and settled, every cycle is acknowledged. */
  lemma FinishedAcknowledges(conns: seq<Connection>, order: seq<string>, cycles: seq<seq<string>>)
    requires NoDuplicates(order)
    requires forall u :: u in Services(conns) ==> u in order && Settled(Graph(conns), order, cycles, u)
    ensures AcknowledgesEveryCycle(Graph(conns), cycles)
  {
    var adj := Graph(conns);
    TargetsAreServices(conns);
    forall w | ClosedWalk(adj, w)
      ensures AcknowledgedWalk(adj, cycles, w)
    {
      forall k | 0 <= k < |w|
        ensures w[k] in Services(conns)
      {
        assert EdgeAt(adj, w, if k == 0 then |w| - 2 else k - 1);
      }
      EveryCycleIsAcknowledged(adj, order, cycles, w);
    }
  }

  /**
   `FindCircular` over the rows of `crossServiceConnections`: every reported cycle is real,
   simple, in normal form and reported once; the report is empty exactly when the graph is
   acyclic; and it covers every cycle when no service name contains the key separator. The
   report is the first cycle of each key among those that edges back onto least walks close,
   in ascending order of the walks.
   */
  method FindCircular(conns: seq<Connection>) returns (cycles: seq<seq<string>>, ghost backs: seq<seq<string>>)
    ensures WellReported(Graph(conns), cycles)
    ensures AcknowledgesEveryCycle(Graph(conns), cycles)
    ensures cycles == [] <==> Acyclic(Graph(conns))
    ensures NamesArrowFree(conns) ==> CoversEveryCycle(Graph(conns), cycles)
    ensures AllClosing(Graph(conns), Services(conns), backs) && cycles == Kept(backs)
  {
    var adj := BuildAdjacency(conns);
    var services := CollectServices(conns, adj);
    TargetsAreServices(conns);
    var search := SearchFrom(adj, services);
    cycles, backs := search.cycles, search.backs;
    FinishedAcknowledges(conns, search.order, cycles);
    EmptyReportIffAcyclic(adj, cycles);
    if NamesArrowFree(conns) {
      ArrowFreeNamesDistinguish(conns);
      DistinctKeysCoverEveryCycle(adj, cycles);
    }
    hide AllClosing, Settled;
    AllTold(adj, services, search.visited, backs);
  }

  lemma SameRowsSameServices(conns: seq<Connection>, conns': seq<Connection>)
    requires forall u, v :: Connected(conns, u, v) ==> Connected(conns', u, v)
    ensures Sources(conns) <= Sources(conns') && Services(conns) <= Services(conns')
  {
    forall k | 0 <= k < |conns|
      ensures conns[k].source in Sources(conns') && conns[k].target in Services(conns')
    {
      assert Connected(conns, conns[k].source, conns[k].target);
    }
  }

  /** The report is determined by which services are connected: rows in another order, or repeated, give the same list. */
  lemma ReportIsDetermined(conns: seq<Connection>, conns': seq<Connection>, backs: seq<seq<string>>, backs': seq<seq<string>>)
    requires forall u, v :: Connected(conns, u, v) <==> Connected(conns', u, v)
    requires AllClosing(Graph(conns), Services(conns), backs) && AllClosing(Graph(conns'), Services(conns'), backs')
    ensures Kept(backs) == Kept(backs')
  {
    SameRowsSameServices(conns, conns');
    SameRowsSameServices(conns', conns);
    assert Graph(conns) == Graph(conns') by {
      assert forall s :: s in Sources(conns) ==> Targets(Graph(conns), s) == Targets(Graph(conns'), s);
    }
    AllClosingIsUnique(Graph(conns), Services(conns), backs, backs');
  }

  // ---- what a report means ----

  /** No other reportable cycle runs over an edge of this one. */
  ghost predicate Apart(adj: Adjacency, c: seq<string>) {
    forall d :: Reportable(adj, d) && SharesEdge(d, c) ==> d == c
  }

  lemma CoveredApart(adj: Adjacency, cycles: seq<seq<string>>, c: seq<string>) returns (k: nat)
    requires WellReported(adj, cycles) && CoversEveryCycle(adj, cycles) && Reportable(adj, c) && Apart(adj, c)
    ensures k < |cycles| && cycles[k] == c
  {
    assert CoveredWalk(cycles, c);
    k :| 0 <= k < |cycles| && SharesEdge(cycles[k], c);
    assert Reportable(adj, cycles[k]);
  }

  lemma KeysDiffer(adj: Adjacency, cycles: seq<seq<string>>, i: nat, j: nat)
    requires WellReported(adj, cycles) && i < j < |cycles|
    ensures Join(cycles[i]) != Join(cycles[j])
  {
  }

  /** Two cycles with one key that share no edge with any other cycle: every report leaves one of them out. */
  lemma CollisionApartHidesCycle(adj: Adjacency, cycles: seq<seq<string>>, c: seq<string>, d: seq<string>)
    requires WellReported(adj, cycles) && Reportable(adj, c) && Reportable(adj, d)
    requires c != d && Join(c) == Join(d) && Apart(adj, c) && Apart(adj, d)
    ensures !CoversEveryCycle(adj, cycles)
  {
    if CoversEveryCycle(adj, cycles) {
      var i := CoveredApart(adj, cycles, c);
      var j := CoveredApart(adj, cycles, d);
      KeysDiffer(adj, cycles, if i < j then i else j, if i < j then j else i);
    }
  }

  /** Where no edge lies on two cycles, a report covers every cycle exactly when the joined keys tell the cycles apart. */
  lemma CoverageIffKeysDistinguish(adj: Adjacency, cycles: seq<seq<string>>)
    requires WellReported(adj, cycles) && AcknowledgesEveryCycle(adj, cycles)
    requires forall c :: Reportable(adj, c) ==> Apart(adj, c)
    ensures CoversEveryCycle(adj, cycles) <==> KeysDistinguish(adj)
  {
    if KeysDistinguish(adj) {
      DistinctKeysCoverEveryCycle(adj, cycles);
    } else {
      var c, d :| Reportable(adj, c) && Reportable(adj, d) && Join(c) == Join(d) && c != d;
      CollisionApartHidesCycle(adj, cycles, c, d);
    }
  }

  /** Two edge-disjoint cycles whose joined keys collide: a -> b -> c -> a and a -> `b->c` -> a. */
  const COLLIDING := [Connection("a", "b", ""), Connection("b", "c", ""), Connection("c", "a", ""),
                      Connection("a", "b->c", ""), Connection("b->c", "a", "")]

  lemma CollidingEdges(u: string, v: string)
    ensures Connected(COLLIDING, u, v) <==>
            || (u == "a" && (v == "b" || v == "b->c"))
            || (u == "b" && v == "c")
            || (u == "c" && v == "a")
            || (u == "b->c" && v == "a")
  {
    if u == "a" && v == "b" { assert COLLIDING[0].source == u && COLLIDING[0].target == v; }
    if u == "b" && v == "c" { assert COLLIDING[1].source == u && COLLIDING[1].target == v; }
    if u == "c" && v == "a" { assert COLLIDING[2].source == u && COLLIDING[2].target == v; }
    if u == "a" && v == "b->c" { assert COLLIDING[3].source == u && COLLIDING[3].target == v; }
    if u == "b->c" && v == "a" { assert COLLIDING[4].source == u && COLLIDING[4].target == v; }
  }

  lemma CollidingNext(w: seq<string>, i: nat)
    requires ClosedWalk(Graph(COLLIDING), w) && i + 1 < |w|
    ensures w[i] == "a" ==> w[i + 1] == "b" || w[i + 1] == "b->c"
    ensures w[i] == "b" ==> w[i + 1] == "c"
    ensures w[i] == "c" || w[i] == "b->c" ==> w[i + 1] == "a"
    ensures w[i] == "a" || w[i] == "b" || w[i] == "c" || w[i] == "b->c"
  {
    assert EdgeAt(Graph(COLLIDING), w, i);
    CollidingEdges(w[i], w[i + 1]);
  }

  /** Every walk passes through `a`, the least name, so a cycle in normal form starts there. */
  lemma CollidingStart(c: seq<string>)
    requires Reportable(Graph(COLLIDING), c)
    ensures c[0] == "a"
  {
    CollidingNext(c, 0);
    assert !Less("b", "a") && !Less("c", "a") && !Less("b->c", "a");
    if |c| > 2 {
      CollidingNext(c, 1);
    }
    assert AtMost(c[0], c[1]) && (|c| > 2 ==> AtMost(c[0], c[2]));
  }

  lemma BodyIsDistinct(c: seq<string>, i: nat, j: nat)
    requires i < j < |c| - 1 && NoDuplicates(Body(c))
    ensures c[i] != c[j]
  {
    assert Body(c)[i] == c[i] && Body(c)[j] == c[j];
  }

  lemma CollidingCycles(c: seq<string>)
    requires Reportable(Graph(COLLIDING), c)
    ensures c == ["a", "b", "c", "a"] || c == ["a", "b->c", "a"]
  {
    CollidingNext(c, 0);
    CollidingStart(c);
    if |c| > 2 {
      CollidingNext(c, 1);
      if |c| > 3 {
        CollidingNext(c, 2);
        if |c| > 4 {
          BodyIsDistinct(c, 0, 3);
        }
      }
    }
  }

  /** Both cycles are there, with one key and no common edge. */
  lemma CollidingWalks()
    ensures var long, short := ["a", "b", "c", "a"], ["a", "b->c", "a"];
            && Join(long) == Join(short)
            && ClosedWalk(Graph(COLLIDING), long) && ClosedWalk(Graph(COLLIDING), short)
            && !SharesEdge(long, short) && !SharesEdge(short, long)
  {
    assert Join(["a", "b", "c", "a"]) == Join(["a", "b->c", "a"]) == "a->b->c->a";
    forall u, v { CollidingEdges(u, v); }
  }

  /** Where names contain the separator the report can leave a cycle without any of its edges: no result of the search covers both cycles. */
  lemma SeparatorInNamesHidesCycle(cycles: seq<seq<string>>)
    requires WellReported(Graph(COLLIDING), cycles)
    ensures !CoversEveryCycle(Graph(COLLIDING), cycles)
  {
    var long, short := ["a", "b", "c", "a"], ["a", "b->c", "a"];
    CollidingWalks();
    forall k | 0 <= k < |cycles|
      ensures cycles[k] == long || cycles[k] == short
    {
      CollidingCycles(cycles[k]);
    }
    hide ClosedWalk, Reportable;
    assert |cycles| <= 1 by {
      if |cycles| > 1 {
        KeysDiffer(Graph(COLLIDING), cycles, 0, 1);
      }
    }
  }
}
