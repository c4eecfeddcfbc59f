/**
 MODULE nodes and CONTAINS edges for nodes that name a module
 (internal/analyzer/linker/module_containment_linker.go). Pairs are looked up by the string
 `module:m->id`, so a name holding the separator can hide a pair.
 */
module ModuleContainmentLinker {
  import opened CodeModel
  import opened ConfidenceMerge
  import opened Linker
  import opened Options
  import opened Sequences
  import opened Strings

  const MODULE_PREFIX := "module:"

  function ModuleId(m: string): string {
    MODULE_PREFIX + m
  }

  /** The node the linker creates; its layer is the zero value of the source's enumeration. */
  function ModuleNode(m: string): NodeView {
    NodeView(ModuleId(m), "module", m, 0, m, m, "", 0, 0, "frontend", "linker:module_containment", [], map[])
  }

  function ContainsEdge(p: Pair): EdgeView {
    EdgeView("module-link:" + p.source + ARROW + p.target, "contains", p.source, p.target, 0,
             "linker:module_containment", map["inferred" := Flag(true)])
  }

  // ---- what the loops compute ----

  function ModuleOf(n: NodeView): Option<string> {
    if n.kind == "module" || n.moduleName == "" then None else Some(n.moduleName)
  }

  ghost function Modules(nodes: seq<NodeView>): set<string> {
    set n | n in nodes && ModuleOf(n).Some? :: n.moduleName
  }

  ghost function Members(nodes: seq<NodeView>, m: string): set<string> {
    set n | n in nodes && ModuleOf(n) == Some(m) :: n.id
  }

  ghost function ModuleNodeIds(nodes: seq<NodeView>): set<string> {
    set n | n in nodes && n.kind == "module" :: n.id
  }

  function MemberPair(m: string): string -> Pair {
    id => Pair(ModuleId(m), id)
  }

  ghost function WantedUnder(nodes: seq<NodeView>, modules: seq<string>): seq<Pair> {
    if modules == [] then []
    else
      var m := modules[|modules| - 1];
      WantedUnder(nodes, modules[..|modules| - 1]) + Map(MemberPair(m), SortedListing(Members(nodes, m)))
  }

  /** The containments the nodes ask for, modules and members in ascending order. */
  ghost function Wanted(nodes: seq<NodeView>): seq<Pair> {
    WantedUnder(nodes, SortedListing(Modules(nodes)))
  }

  ghost function KeysOf(pairs: seq<Pair>): set<string> {
    set p | p in pairs :: PairKey(p)
  }

  /** The pairs whose key is neither known nor used by an earlier pair. */
  ghost function Fresh(known: set<string>, pairs: seq<Pair>): seq<Pair> {
    if pairs == [] then []
    else
      var front, last := pairs[..|pairs| - 1], pairs[|pairs| - 1];
      Fresh(known, front) + if PairKey(last) in known + KeysOf(front) then [] else [last]
  }

  ghost function Missing(have: set<string>, modules: seq<string>): seq<string> {
    if modules == [] then []
    else
      var last := modules[|modules| - 1];
      Missing(have, modules[..|modules| - 1]) + if ModuleId(last) in have then [] else [last]
  }

  ghost function NewNodes(nodes: seq<NodeView>): seq<NodeView> {
    Map(ModuleNode, Missing(ModuleNodeIds(nodes), SortedListing(Modules(nodes))))
  }

  ghost function NewEdges(nodes: seq<NodeView>, edges: seq<EdgeView>): seq<EdgeView> {
    Map(ContainsEdge, Fresh(JoinedKeys(edges, "contains"), Wanted(nodes)))
  }

  // ---- the linker ----

  function Identity(n: NodeView): NodeView {
    n
  }

  /** After `pairs`, which continue `before`, the edges of `added` are out and the keys in `existing` are known. */
  ghost predicate Tracks(known: set<string>, before: seq<Pair>, pairs: seq<Pair>, added: seq<Pair>, existing: set<string>) {
    Fresh(known, pairs) == Fresh(known, before) + added && existing == known + KeysOf(pairs)
  }

  lemma TracksChain(known: set<string>, before: seq<Pair>, pairs: seq<Pair>, added: seq<Pair>, more: seq<Pair>, existing: set<string>)
    requires exists earlier :: Tracks(known, [], before, added, earlier)
    requires Tracks(known, before, pairs, more, existing)
    ensures Tracks(known, [], pairs, added + more, existing)
  {
    assert Fresh(known, []) == [];
  }

  lemma TracksStart(known: set<string>, before: seq<Pair>, earlier: seq<Pair>, existing: set<string>)
    requires Tracks(known, [], before, earlier, existing)
    ensures Tracks(known, before, before, [], existing)
  {
    assert Fresh(known, before) + [] == Fresh(known, before);
  }

  lemma TracksStep(known: set<string>, before: seq<Pair>, pairs: seq<Pair>, added: seq<Pair>, existing: set<string>, p: Pair)
    requires Tracks(known, before, pairs, added, existing)
    ensures if PairKey(p) in existing then Tracks(known, before, pairs + [p], added, existing)
            else Tracks(known, before, pairs + [p], added + [p], existing + {PairKey(p)})
  {
    assert (pairs + [p])[..|pairs|] == pairs;
    assert KeysOf(pairs + [p]) == KeysOf(pairs) + {PairKey(p)};
  }

  lemma MemberIsTracked(known: set<string>, before: seq<Pair>, m: string, ids: seq<string>, id: string, added: seq<Pair>, existing: set<string>)
    requires id in ids && Tracks(known, before, before + Map(MemberPair(m), ids), added, existing)
    ensures PairKey(Pair(ModuleId(m), id)) in existing
  {
    var i :| 0 <= i < |ids| && ids[i] == id;
    var pairs := before + Map(MemberPair(m), ids);
    assert pairs[|before| + i] == Pair(ModuleId(m), id);
    assert Pair(ModuleId(m), id) in pairs;
  }

  /** `ids` lists the IDs of the nodes in ascending order, once each. */
  ghost predicate Lists(ids: seq<string>, nodes: seq<NodeView>) {
    StrictlySorted(ids) && forall x :: x in ids <==> HasNode(nodes, x)
  }

  ghost predicate EndsWith(ids: seq<string>, nodes: seq<NodeView>) {
    if nodes == [] then ids == [] else ids != [] && ids[|ids| - 1] == nodes[|nodes| - 1].id
  }

  lemma ListsKeep(ids: seq<string>, sorted: seq<NodeView>, j: nat)
    requires j < |sorted| && SortedBy(NodeId, sorted) && sorted[j].id in ids
    requires Lists(ids, sorted[..j]) && EndsWith(ids, sorted[..j])
    ensures Lists(ids, sorted[..j + 1]) && EndsWith(ids, sorted[..j + 1])
  {
    var x := sorted[j].id;
    assert sorted[..j + 1] == sorted[..j] + [sorted[j]];
    assert j > 0;
    assert AtMost(NodeId(sorted[j - 1]), NodeId(sorted[j]));
    var i :| 0 <= i < |ids| && ids[i] == x;
    LessIrreflexive(x);
    if i < |ids| - 1 && Less(ids[|ids| - 1], x) {
      LessTransitive(x, ids[|ids| - 1], x);
    }
  }

  lemma ListsGrow(ids: seq<string>, sorted: seq<NodeView>, j: nat)
    requires j < |sorted| && SortedBy(NodeId, sorted) && sorted[j].id !in ids
    requires Lists(ids, sorted[..j]) && EndsWith(ids, sorted[..j])
    ensures Lists(ids + [sorted[j].id], sorted[..j + 1]) && EndsWith(ids + [sorted[j].id], sorted[..j + 1])
  {
    var x := sorted[j].id;
    assert sorted[..j + 1] == sorted[..j] + [sorted[j]];
    if ids != [] {
      var last := ids[|ids| - 1];
      assert AtMost(NodeId(sorted[j - 1]), NodeId(sorted[j]));
      forall i | 0 <= i < |ids|
        ensures Less(ids[i], x)
      {
        if i < |ids| - 1 {
          LessTransitive(ids[i], last, x);
        }
      }
    }
  }

  lemma SortedMembersAre(nodes: seq<NodeView>, m: string, members: seq<NodeView>, sorted: seq<NodeView>, ids: seq<string>)
    requires members == GroupOf(ModuleOf, Identity, nodes, m) && multiset(sorted) == multiset(members)
    requires Lists(ids, sorted)
    ensures ids == SortedListing(Members(nodes, m))
  {
    forall x
      ensures x in ids <==> x in Members(nodes, m)
    {
      if x in ids {
        var n :| n in sorted && n.id == x;
        assert n in multiset(members);
        GroupMember(ModuleOf, Identity, nodes, m, n);
      }
      if x in Members(nodes, m) {
        var n :| n in nodes && ModuleOf(n) == Some(m) && n.id == x;
        GroupMember(ModuleOf, Identity, nodes, m, n);
        assert n in multiset(sorted);
      }
    }
    SortedListingIsUnique(ids, SortedListing(Members(nodes, m)));
  }

  /** One module's members in ID order: nodes that share an ID share its key, so only the first can add an edge. */
  method AddMembers(nodes: seq<NodeView>, m: string, members: seq<NodeView>, existing: set<string>,
                    ghost known: set<string>, ghost before: seq<Pair>, ghost earlier: seq<Pair>)
    returns (newEdges: seq<EdgeView>, existing': set<string>, ghost added: seq<Pair>)
    requires members == GroupOf(ModuleOf, Identity, nodes, m)
    requires Tracks(known, [], before, earlier, existing)
    ensures Tracks(known, before, before + Map(MemberPair(m), SortedListing(Members(nodes, m))), added, existing')
    ensures newEdges == Map(ContainsEdge, added)
  {
    hide Tracks, GroupOf;
    var sorted := SortById(NodeId, members);
    TracksStart(known, before, earlier, existing);
    newEdges, existing', added := [], existing, [];
    ghost var ids: seq<string> := [];
    ghost var pairs := before;
    assert before + Map(MemberPair(m), ids) == before;
    for j := 0 to |sorted|
      invariant Lists(ids, sorted[..j]) && EndsWith(ids, sorted[..j])
      invariant pairs == before + Map(MemberPair(m), ids)
      invariant Tracks(known, before, pairs, added, existing')
      invariant newEdges == Map(ContainsEdge, added)
    {
      hide Lists, EndsWith, SortedBy, PairKey, Map, ContainsEdge, ModuleId;
      var p := Pair(ModuleId(m), sorted[j].id);
      if p.target in ids {
        MemberIsTracked(known, before, m, ids, p.target, added, existing');
        ListsKeep(ids, sorted, j);
      } else {
        ListsGrow(ids, sorted, j);
        MapSnoc(MemberPair(m), ids, p.target);
        TracksStep(known, before, pairs, added, existing', p);
        ids, pairs := ids + [p.target], pairs + [p];
        assert pairs == before + Map(MemberPair(m), ids);
      }
      if PairKey(p) !in existing' {
        MapSnoc(ContainsEdge, added, p);
        added := added + [p];
        newEdges := newEdges + [ContainsEdge(p)];
        existing' := existing' + {PairKey(p)};
      }
    }
    assert sorted[..|sorted|] == sorted;
    SortedMembersAre(nodes, m, members, sorted, ids);
  }

  method AddContains(nodes: seq<NodeView>, moduleNames: seq<string>, byModule: map<string, seq<NodeView>>, existing: set<string>)
    returns (newEdges: seq<EdgeView>)
    requires forall m :: m in moduleNames ==> m in byModule && byModule[m] == GroupOf(ModuleOf, Identity, nodes, m)
    ensures newEdges == Map(ContainsEdge, Fresh(existing, WantedUnder(nodes, moduleNames)))
  {
    var existingContains := existing;
    ghost var added: seq<Pair> := [];
    newEdges := [];
    for i := 0 to |moduleNames|
      invariant Tracks(existing, [], WantedUnder(nodes, moduleNames[..i]), added, existingContains)
      invariant newEdges == Map(ContainsEdge, added)
    {
      hide Tracks, GroupOf, Map, ContainsEdge, ModuleId, SortedListing;
      var m := moduleNames[i];
      ghost var before := WantedUnder(nodes, moduleNames[..i]);
      assert moduleNames[..i + 1][..i] == moduleNames[..i];
      var more: seq<EdgeView>;
      ghost var emitted;
      more, existingContains, emitted := AddMembers(nodes, m, byModule[m], existingContains, existing, before, added);
      TracksChain(existing, before, WantedUnder(nodes, moduleNames[..i + 1]), added, emitted, existingContains);
      MapConcat(ContainsEdge, added, emitted);
      added := added + emitted;
      newEdges := newEdges + more;
    }
    assert moduleNames[..|moduleNames|] == moduleNames;
  }

  lemma ModuleIdIsInjective(m: string, n: string)
    ensures ModuleId(m) == ModuleId(n) ==> m == n
  {
    assert ModuleId(m)[|MODULE_PREFIX|..] == m && ModuleId(n)[|MODULE_PREFIX|..] == n;
  }

  lemma LaterModulesDiffer(modules: seq<string>, i: nat)
    requires StrictlySorted(modules) && i < |modules|
    ensures forall j :: i < j < |modules| ==> ModuleId(modules[j]) != ModuleId(modules[i])
  {
    StrictlySortedHasNoDuplicates(modules);
    forall j | i < j < |modules|
      ensures ModuleId(modules[j]) != ModuleId(modules[i])
    {
      ModuleIdIsInjective(modules[i], modules[j]);
    }
  }

  /** The modules that have no node yet. The source does this in the loop that adds the edges. */
  method AddModuleNodes(nodes: seq<NodeView>, moduleNames: seq<string>, existingModules: set<string>) returns (newNodes: seq<NodeView>)
    requires StrictlySorted(moduleNames) && existingModules == ModuleNodeIds(nodes)
    ensures newNodes == Map(ModuleNode, Missing(ModuleNodeIds(nodes), moduleNames))
  {
    newNodes := [];
    var existing := existingModules;
    for i := 0 to |moduleNames|
      invariant forall j :: i <= j < |moduleNames| ==> (ModuleId(moduleNames[j]) in existing <==> ModuleId(moduleNames[j]) in existingModules)
      invariant newNodes == Map(ModuleNode, Missing(existingModules, moduleNames[..i]))
    {
      var m := moduleNames[i];
      assert moduleNames[..i + 1][..i] == moduleNames[..i];
      if ModuleId(m) !in existing {
        newNodes := newNodes + [ModuleNode(m)];
        existing := existing + {ModuleId(m)};
        LaterModulesDiffer(moduleNames, i);
      }
    }
    assert moduleNames[..|moduleNames|] == moduleNames;
  }

  lemma ModulesAreGroups(nodes: seq<NodeView>, groups: map<string, seq<NodeView>>)
    requires forall k :: k in groups <==> GroupOf(ModuleOf, Identity, nodes, k) != []
    ensures groups.Keys == Modules(nodes)
  {
    forall k
      ensures k in groups <==> k in Modules(nodes)
    {
      if k in groups {
        var n := SomeMember(GroupOf(ModuleOf, Identity, nodes, k));
        GroupMember(ModuleOf, Identity, nodes, k, n);
      }
      if k in Modules(nodes) {
        var n :| n in nodes && ModuleOf(n).Some? && n.moduleName == k;
        GroupMember(ModuleOf, Identity, nodes, k, n);
      }
    }
  }

  method CollectModuleIds(nodes: seq<NodeView>) returns (ids: set<string>)
    ensures ids == ModuleNodeIds(nodes)
  {
    ids := {};
    for i := 0 to |nodes|
      invariant ids == ModuleNodeIds(nodes[..i])
    {
      assert nodes[..i + 1] == nodes[..i] + [nodes[i]];
      if nodes[i].kind == "module" {
        ids := ids + {nodes[i].id};
      }
    }
    assert nodes[..|nodes|] == nodes;
  }

  method Link(nodes: seq<NodeView>, edges: seq<EdgeView>) returns (r: Result)
    ensures r == Result(NewNodes(nodes), NewEdges(nodes, edges))
  {
    var existingModules := CollectModuleIds(nodes);
    var byModule := Group(ModuleOf, Identity, nodes);
    assert byModule.Keys == Modules(nodes) by {
      ModulesAreGroups(nodes, byModule);
    }
    if byModule == map[] {
      return Result([], []);
    }
    var existingContains := CollectKeys(edges, "contains");
    var moduleNames := SortedKeys(byModule.Keys);
    SortedListingIsUnique(moduleNames, SortedListing(Modules(nodes)));
    var newNodes := AddModuleNodes(nodes, moduleNames, existingModules);
    var newEdges := AddContains(nodes, moduleNames, byModule, existingContains);
    r := Result(newNodes, newEdges);
  }

  // ---- what is wanted, and which of it is new ----

  /** Some non-module node names the module the pair starts at. */
  ghost predicate Wants(nodes: seq<NodeView>, p: Pair) {
    exists n :: n in nodes && ModuleOf(n).Some? && p == Pair(ModuleId(n.moduleName), n.id)
  }

  lemma {:induction false} WantedUnderIsExact(nodes: seq<NodeView>, modules: seq<string>, p: Pair)
    ensures p in WantedUnder(nodes, modules) <==> exists m :: m in modules && p.source == ModuleId(m) && p.target in Members(nodes, m)
  {
    if modules == [] {
    } else {
      var front, m := modules[..|modules| - 1], modules[|modules| - 1];
      WantedUnderIsExact(nodes, front, p);
      assert modules == front + [m];
      var ids := SortedListing(Members(nodes, m));
      if p.source == ModuleId(m) && p.target in Members(nodes, m) {
        var i :| 0 <= i < |ids| && ids[i] == p.target;
        assert Map(MemberPair(m), ids)[i] == p;
      }
    }
  }

  lemma WantedIsExact(nodes: seq<NodeView>, p: Pair)
    ensures p in Wanted(nodes) <==> Wants(nodes, p)
  {
    WantedUnderIsExact(nodes, SortedListing(Modules(nodes)), p);
    if Wants(nodes, p) {
      var n :| n in nodes && ModuleOf(n).Some? && p == Pair(ModuleId(n.moduleName), n.id);
      assert n.moduleName in Modules(nodes) && p.target in Members(nodes, n.moduleName);
    }
  }

  lemma KeysOfOneMore(pairs: seq<Pair>, p: Pair)
    ensures KeysOf(pairs + [p]) == KeysOf(pairs) + {PairKey(p)}
  {
    hide PairKey;
    assert forall q :: q in pairs + [p] <==> q in pairs || q == p;
  }

  lemma {:induction false} FreshMembers(known: set<string>, pairs: seq<Pair>)
    ensures forall p :: p in Fresh(known, pairs) ==> p in pairs && PairKey(p) !in known
  {
    hide PairKey, KeysOf;
    if pairs == [] {
    } else {
      FreshMembers(known, pairs[..|pairs| - 1]);
    }
  }

  /** With the known keys, the new pairs have the keys of all pairs. */
  lemma {:induction false} FreshKeys(known: set<string>, pairs: seq<Pair>)
    ensures known + KeysOf(Fresh(known, pairs)) == known + KeysOf(pairs)
  {
    hide PairKey, KeysOf;
    if pairs == [] {
    } else {
      var front, last := pairs[..|pairs| - 1], pairs[|pairs| - 1];
      FreshKeys(known, front);
      assert pairs == front + [last];
      KeysOfOneMore(front, last);
      KeysOfOneMore(Fresh(known, front), last);
      assert Fresh(known, front) + [] == Fresh(known, front);
    }
  }

  ghost predicate KeysDiffer(pairs: seq<Pair>) {
    forall i, j :: 0 <= i < j < |pairs| ==> PairKey(pairs[i]) != PairKey(pairs[j])
  }

  /** No two new pairs share a key, so none is added twice. */
  lemma {:induction false} FreshKeysDiffer(known: set<string>, pairs: seq<Pair>)
    ensures KeysDiffer(Fresh(known, pairs))
  {
    if pairs == [] {
    } else {
      var front, last := pairs[..|pairs| - 1], pairs[|pairs| - 1];
      FreshKeysDiffer(known, front);
      FreshMembers(known, front);
      var before := Fresh(known, front);
      if PairKey(last) !in known + KeysOf(front) {
        forall i | 0 <= i < |before|
          ensures PairKey(before[i]) != PairKey(last)
        {
          assert before[i] in before && before[i] in front;
        }
      } else {
        assert before + [] == before;
      }
    }
  }

  lemma {:induction false} NothingFresh(known: set<string>, pairs: seq<Pair>)
    requires KeysOf(pairs) <= known
    ensures Fresh(known, pairs) == []
  {
    if pairs == [] {
    } else {
      var front, last := pairs[..|pairs| - 1], pairs[|pairs| - 1];
      assert pairs == front + [last];
      assert last in pairs;
      NothingFresh(known, front);
    }
  }

  lemma NewEdgeKeys(edges: seq<EdgeView>, added: seq<Pair>)
    ensures JoinedKeys(edges + Map(ContainsEdge, added), "contains") == JoinedKeys(edges, "contains") + KeysOf(added)
  {
    var extra := Map(ContainsEdge, added);
    JoinedKeysConcat(edges, extra, "contains");
    assert JoinedKeys(extra, "contains") == KeysOf(added) by {
      forall p | p in added
        ensures PairKey(p) in JoinedKeys(extra, "contains")
      {
        var i :| 0 <= i < |added| && added[i] == p;
        assert extra[i] in extra && Ends(extra[i]) == p;
      }
      forall e | e in extra
        ensures PairKey(Ends(e)) in KeysOf(added)
      {
        var i :| 0 <= i < |extra| && extra[i] == e;
        assert added[i] in added;
      }
    }
  }

  // ---- running twice ----

  lemma {:induction false} MissingAre(have: set<string>, modules: seq<string>, m: string)
    ensures m in Missing(have, modules) <==> m in modules && ModuleId(m) !in have
  {
    if modules == [] {
    } else {
      MissingAre(have, modules[..|modules| - 1], m);
      assert modules == modules[..|modules| - 1] + [modules[|modules| - 1]];
    }
  }

  lemma {:induction false} NothingMissing(have: set<string>, modules: seq<string>)
    requires forall m :: m in modules ==> ModuleId(m) in have
    ensures Missing(have, modules) == []
  {
    if modules == [] {
    } else {
      assert modules == modules[..|modules| - 1] + [modules[|modules| - 1]];
      NothingMissing(have, modules[..|modules| - 1]);
    }
  }

  /** After the run every module some node names has its MODULE node. */
  lemma EveryModuleHasANode(nodes: seq<NodeView>, m: string)
    requires m in Modules(nodes)
    ensures ModuleId(m) in ModuleNodeIds(nodes + NewNodes(nodes))
  {
    var missing := Missing(ModuleNodeIds(nodes), SortedListing(Modules(nodes)));
    MissingAre(ModuleNodeIds(nodes), SortedListing(Modules(nodes)), m);
    if m in missing {
      var i :| 0 <= i < |missing| && missing[i] == m;
      var n := NewNodes(nodes)[i];
      assert n in nodes + NewNodes(nodes) && n.kind == "module" && n.id == ModuleId(m);
    } else {
      var n :| n in nodes && n.kind == "module" && n.id == ModuleId(m);
      assert n in nodes + NewNodes(nodes);
    }
  }

  lemma {:induction false} SameWanted(nodes: seq<NodeView>, nodes': seq<NodeView>, modules: seq<string>)
    requires forall m :: Members(nodes, m) == Members(nodes', m)
    ensures WantedUnder(nodes, modules) == WantedUnder(nodes', modules)
  {
    if modules == [] {
    } else {
      SameWanted(nodes, nodes', modules[..|modules| - 1]);
    }
  }

  /** The new nodes ask for nothing themselves. */
  lemma NewNodesWantNothing(nodes: seq<NodeView>, more: seq<NodeView>)
    requires forall n :: n in more ==> n.kind == "module"
    ensures Modules(nodes + more) == Modules(nodes) && Wanted(nodes + more) == Wanted(nodes)
  {
    assert Modules(nodes + more) == Modules(nodes);
    assert forall m :: Members(nodes + more, m) == Members(nodes, m);
    SameWanted(nodes, nodes + more, SortedListing(Modules(nodes)));
  }

  lemma NewNodesAreModules(nodes: seq<NodeView>)
    ensures forall n :: n in NewNodes(nodes) ==> n.kind == "module"
  {
  }

  /** Run again on its own output, the linker adds nothing. */
  lemma SecondRunAddsNothing(nodes: seq<NodeView>, edges: seq<EdgeView>)
    ensures NewNodes(nodes + NewNodes(nodes)) == []
    ensures NewEdges(nodes + NewNodes(nodes), edges + NewEdges(nodes, edges)) == []
  {
    var nodes' := nodes + NewNodes(nodes);
    var known := JoinedKeys(edges, "contains");
    NewNodesAreModules(nodes);
    NewNodesWantNothing(nodes, NewNodes(nodes));
    forall m | m in SortedListing(Modules(nodes'))
      ensures ModuleId(m) in ModuleNodeIds(nodes')
    {
      EveryModuleHasANode(nodes, m);
    }
    NothingMissing(ModuleNodeIds(nodes'), SortedListing(Modules(nodes')));
    FreshKeys(known, Wanted(nodes));
    NewEdgeKeys(edges, Fresh(known, Wanted(nodes)));
    NothingFresh(JoinedKeys(edges + NewEdges(nodes, edges), "contains"), Wanted(nodes'));
  }

  // ---- is every member contained? ----

  ghost predicate Contained(edges: seq<EdgeView>, p: Pair) {
    Joined(edges, "contains", p)
  }

  lemma ContainedAfter(edges: seq<EdgeView>, added: seq<Pair>, p: Pair)
    ensures Contained(edges + Map(ContainsEdge, added), p) <==> Contained(edges, p) || p in added
  {
    var extra := Map(ContainsEdge, added);
    if Contained(edges, p) {
      var e :| e in edges && e.kind == "contains" && Ends(e) == p;
      assert e in edges + extra;
    }
    if p in added {
      var i :| 0 <= i < |added| && added[i] == p;
      assert extra[i] in edges + extra && Ends(extra[i]) == p;
    }
    if Contained(edges + extra, p) && !Contained(edges, p) {
      var e :| e in edges + extra && e.kind == "contains" && Ends(e) == p;
      assert e in extra;
      var i :| 0 <= i < |extra| && extra[i] == e;
      assert added[i] == p;
    }
  }

  /** No known edge has this pair's key, and no other wanted pair does. */
  ghost predicate KeyIsOwn(nodes: seq<NodeView>, edges: seq<EdgeView>, p: Pair) {
    && PairKey(p) !in JoinedKeys(edges, "contains")
    && forall q :: Wants(nodes, q) && PairKey(q) == PairKey(p) ==> q == p
  }

  lemma ContainedHasKey(edges: seq<EdgeView>, p: Pair)
    requires Contained(edges, p)
    ensures PairKey(p) in JoinedKeys(edges, "contains")
  {
    var e :| e in edges && e.kind == "contains" && Ends(e) == p;
  }

  lemma OneHolderPerKey(added: seq<Pair>, p: Pair, q: Pair)
    requires KeysDiffer(added)
    requires p in added && q in added && PairKey(p) == PairKey(q)
    ensures p == q
  {
    var i :| 0 <= i < |added| && added[i] == p;
    var j :| 0 <= j < |added| && added[j] == q;
  }

  /**
   Every member ends up in its module's node exactly when each wanted pair has an edge already
   or a key of its own.
   */
  lemma EveryMemberContainedIff(nodes: seq<NodeView>, edges: seq<EdgeView>)
    ensures (forall p :: Wants(nodes, p) ==> Contained(edges + NewEdges(nodes, edges), p)) <==>
            (forall p :: Wants(nodes, p) ==> Contained(edges, p) || KeyIsOwn(nodes, edges, p))
  {
    var known, wanted := JoinedKeys(edges, "contains"), Wanted(nodes);
    var added := Fresh(known, wanted);
    FreshKeys(known, wanted);
    FreshMembers(known, wanted);
    FreshKeysDiffer(known, wanted);
    forall p
      ensures Contained(edges + NewEdges(nodes, edges), p) <==> Contained(edges, p) || p in added
    {
      ContainedAfter(edges, added, p);
    }
    forall p
      ensures p in wanted <==> Wants(nodes, p)
    {
      WantedIsExact(nodes, p);
    }
    if forall p :: Wants(nodes, p) ==> Contained(edges + NewEdges(nodes, edges), p) {
      forall p | Wants(nodes, p) && !Contained(edges, p)
        ensures KeyIsOwn(nodes, edges, p)
      {
        assert p in added;
        forall q | Wants(nodes, q) && PairKey(q) == PairKey(p)
          ensures q == p
        {
          if Contained(edges, q) {
            ContainedHasKey(edges, q);
          } else {
            assert q in added;
            OneHolderPerKey(added, p, q);
          }
        }
      }
    }
    if forall p :: Wants(nodes, p) ==> Contained(edges, p) || KeyIsOwn(nodes, edges, p) {
      forall p | Wants(nodes, p)
        ensures Contained(edges, p) || p in added
      {
        if !Contained(edges, p) {
          assert PairKey(p) in known + KeysOf(added);
          var q :| q in added && PairKey(q) == PairKey(p);
          assert q in wanted;
        }
      }
    }
  }

  lemma WantedSource(nodes: seq<NodeView>, p: Pair)
    requires Wants(nodes, p)
    ensures exists m :: m in Modules(nodes) && p.source == ModuleId(m)
  {
    var n :| n in nodes && ModuleOf(n).Some? && p == Pair(ModuleId(n.moduleName), n.id);
    assert n.moduleName in Modules(nodes);
  }

  /** With separator-free module names and CONTAINS sources, every member is contained. */
  lemma SeparatorFreeNamesSuffice(nodes: seq<NodeView>, edges: seq<EdgeView>)
    requires forall m :: m in Modules(nodes) ==> ArrowFree(ModuleId(m))
    requires forall e :: e in edges && e.kind == "contains" ==> ArrowFree(e.sourceId)
    ensures forall p :: Wants(nodes, p) ==> Contained(edges + NewEdges(nodes, edges), p)
  {
    EveryMemberContainedIff(nodes, edges);
    forall p | Wants(nodes, p) && !Contained(edges, p)
      ensures KeyIsOwn(nodes, edges, p)
    {
      WantedSource(nodes, p);
      KeyMeansEdge(edges, "contains", p);
      forall q | Wants(nodes, q) && PairKey(q) == PairKey(p)
        ensures q == p
      {
        WantedSource(nodes, q);
        ArrowKeyIsInjective(q.source, q.target, p.source, p.target);
      }
    }
  }

  /** Member `b->c` of module `a` and member `c` of module `a->b` share a key: one of them is left out. */
  lemma SeparatorInNamesHidesMember()
    ensures var b := ModuleNode("").(kind := "class", id := "b->c", moduleName := "a");
            var c := ModuleNode("").(kind := "class", id := "c", moduleName := "a->b");
            var nodes := [b, c];
            !forall p :: Wants(nodes, p) ==> Contained(NewEdges(nodes, []), p)
  {
    var b := ModuleNode("").(kind := "class", id := "b->c", moduleName := "a");
    var c := ModuleNode("").(kind := "class", id := "c", moduleName := "a->b");
    var nodes := [b, c];
    var p, q := Pair("module:a", "b->c"), Pair("module:a->b", "c");
    assert b in nodes && ModuleId("a") == p.source && Wants(nodes, p);
    assert c in nodes && ModuleId("a->b") == q.source && Wants(nodes, q);
    assert PairKey(p) == "module:a->b->c" == PairKey(q);
    assert p.target != q.target;
    EveryMemberContainedIff(nodes, []);
    assert [] + NewEdges(nodes, []) == NewEdges(nodes, []);
  }

  // ---- closedness and IDs ----

  lemma StaysClosed(nodes: seq<NodeView>, edges: seq<EdgeView>)
    requires Closed(nodes, edges)
    ensures Closed(nodes + NewNodes(nodes), edges + NewEdges(nodes, edges))
  {
    var added := Fresh(JoinedKeys(edges, "contains"), Wanted(nodes));
    FreshMembers(JoinedKeys(edges, "contains"), Wanted(nodes));
    var nodes' := nodes + NewNodes(nodes);
    forall e | e in NewEdges(nodes, edges)
      ensures HasNode(nodes', e.sourceId) && HasNode(nodes', e.targetId)
    {
      var i :| 0 <= i < |added| && ContainsEdge(added[i]) == e;
      assert added[i] in added;
      WantedIsExact(nodes, added[i]);
      var n :| n in nodes && ModuleOf(n).Some? && added[i] == Pair(ModuleId(n.moduleName), n.id);
      EveryModuleHasANode(nodes, n.moduleName);
      var m :| m in nodes' && m.kind == "module" && m.id == ModuleId(n.moduleName);
      assert n in nodes';
    }
    ClosedGrows(nodes, edges, NewNodes(nodes), NewEdges(nodes, edges));
  }

  /** A node that is no module has the ID some named module would get. */
  ghost predicate IdIsTaken(nodes: seq<NodeView>, m: string) {
    m in Modules(nodes) && ModuleId(m) !in ModuleNodeIds(nodes) && HasNode(nodes, ModuleId(m))
  }

  lemma {:induction false} MissingAreDistinct(have: set<string>, modules: seq<string>)
    requires NoDuplicates(modules)
    ensures NoDuplicates(Missing(have, modules))
  {
    if modules == [] {
    } else {
      var front, last := modules[..|modules| - 1], modules[|modules| - 1];
      MissingAreDistinct(have, front);
      var missing := Missing(have, front);
      forall i | 0 <= i < |missing|
        ensures missing[i] != last
      {
        MissingAre(have, front, missing[i]);
        var j :| 0 <= j < |front| && front[j] == missing[i];
        assert modules[j] != modules[|modules| - 1];
      }
    }
  }

  /** Node IDs stay unique exactly when no other node already has a new module's ID. */
  lemma IdsStayUniqueIff(nodes: seq<NodeView>)
    requires UniqueIds(nodes)
    ensures UniqueIds(nodes + NewNodes(nodes)) <==> forall m :: !IdIsTaken(nodes, m)
  {
    var modules := SortedListing(Modules(nodes));
    var missing := Missing(ModuleNodeIds(nodes), modules);
    var all := nodes + NewNodes(nodes);
    StrictlySortedHasNoDuplicates(modules);
    MissingAreDistinct(ModuleNodeIds(nodes), modules);
    if m :| IdIsTaken(nodes, m) {
      MissingAre(ModuleNodeIds(nodes), modules, m);
      var k :| 0 <= k < |missing| && missing[k] == m;
      var n :| n in nodes && n.id == ModuleId(m);
      var i :| 0 <= i < |nodes| && nodes[i] == n;
      assert all[i].id == all[|nodes| + k].id;
    }
    if forall m :: !IdIsTaken(nodes, m) {
      forall i, j | 0 <= i < j < |all|
        ensures all[i].id != all[j].id
      {
        if j >= |nodes| {
          var m := missing[j - |nodes|];
          assert m in missing;
          MissingAre(ModuleNodeIds(nodes), modules, m);
          if i < |nodes| {
            assert nodes[i] in nodes && !IdIsTaken(nodes, m);
          } else {
            ModuleIdIsInjective(missing[i - |nodes|], m);
          }
        }
      }
    }
  }

  /** A class with the ID `module:m` beside a member of module `m`: two nodes end up with that ID. */
  lemma ClassWithModuleIdIsDuplicated()
    ensures var taken := ModuleNode("").(kind := "class", id := "module:m", moduleName := "");
            var member := ModuleNode("").(kind := "class", id := "c", moduleName := "m");
            var nodes := [taken, member];
            UniqueIds(nodes) && !UniqueIds(nodes + NewNodes(nodes))
  {
    var taken := ModuleNode("").(kind := "class", id := "module:m", moduleName := "");
    var member := ModuleNode("").(kind := "class", id := "c", moduleName := "m");
    var nodes := [taken, member];
    assert |taken.id| != |member.id|;
    assert member in nodes && "m" in Modules(nodes);
    assert taken in nodes && taken.id == ModuleId("m") && HasNode(nodes, ModuleId("m"));
    assert ModuleNodeIds(nodes) == {};
    assert IdIsTaken(nodes, "m");
    IdsStayUniqueIff(nodes);
  }

  /** Only nodes that name a module, module nodes and CONTAINS edges matter. */
  lemma OnlyContainmentMatters(nodes: seq<NodeView>, edges: seq<EdgeView>, more: seq<EdgeView>)
    requires forall e :: e in more ==> e.kind != "contains"
    ensures NewEdges(nodes, edges + more) == NewEdges(nodes, edges)
  {
    assert JoinedKeys(edges + more, "contains") == JoinedKeys(edges, "contains");
  }

  /** The result depends on which nodes and CONTAINS edges there are, not on their order. */
  lemma OnlySetsMatter(nodes: seq<NodeView>, edges: seq<EdgeView>, nodes': seq<NodeView>, edges': seq<EdgeView>)
    requires forall n :: n in nodes <==> n in nodes'
    requires forall e: EdgeView :: e.kind == "contains" ==> (e in edges <==> e in edges')
    ensures NewNodes(nodes) == NewNodes(nodes') && NewEdges(nodes, edges) == NewEdges(nodes', edges')
  {
    assert Modules(nodes) == Modules(nodes') && ModuleNodeIds(nodes) == ModuleNodeIds(nodes');
    assert forall m :: Members(nodes, m) == Members(nodes', m);
    assert JoinedKeys(edges, "contains") == JoinedKeys(edges', "contains");
    SameWanted(nodes, nodes', SortedListing(Modules(nodes)));
  }

  // ---- the result, field by field ----

  /** A node that is no module itself names this module. */
  ghost predicate Names(nodes: seq<NodeView>, m: string) {
    exists n :: n in nodes && n.kind != "module" && n.moduleName == m != ""
  }

  ghost predicate HasModuleNode(nodes: seq<NodeView>, m: string) {
    exists n :: n in nodes && n.kind == "module" && n.id == "module:" + m
  }

  ghost predicate Creates(nodes: seq<NodeView>, m: string, n: NodeView) {
    && Names(nodes, m) && !HasModuleNode(nodes, m)
    && n == NodeView("module:" + m, "module", m, 0, m, m, "", 0, 0, "frontend", "linker:module_containment", [], map[])
  }

  lemma NamedAreModules(nodes: seq<NodeView>, m: string)
    ensures m in Modules(nodes) <==> Names(nodes, m)
    ensures ModuleId(m) in ModuleNodeIds(nodes) <==> HasModuleNode(nodes, m)
  {
    assert ModuleId(m) == "module:" + m;
    if Names(nodes, m) {
      var n :| n in nodes && n.kind != "module" && n.moduleName == m != "";
      assert ModuleOf(n) == Some(m);
    }
  }

  /** The created nodes: one for every module that is named and has no node yet. */
  lemma NewNodesAreExact(nodes: seq<NodeView>)
    ensures forall n :: n in NewNodes(nodes) <==> exists m :: Creates(nodes, m, n)
    ensures NoDuplicates(NewNodes(nodes))
  {
    var have, modules := ModuleNodeIds(nodes), SortedListing(Modules(nodes));
    var missing := Missing(have, modules);
    StrictlySortedHasNoDuplicates(modules);
    MissingAreDistinct(have, modules);
    forall m
      ensures m in missing <==> Names(nodes, m) && !HasModuleNode(nodes, m)
    {
      MissingAre(have, modules, m);
      NamedAreModules(nodes, m);
    }
    hide Names, HasModuleNode, Missing;
    forall n
      ensures n in NewNodes(nodes) <==> exists m :: Creates(nodes, m, n)
    {
      if n in NewNodes(nodes) {
        var i :| 0 <= i < |missing| && NewNodes(nodes)[i] == n;
        assert missing[i] in missing;
        assert Creates(nodes, missing[i], n);
      }
      if m :| Creates(nodes, m, n) {
        var i :| 0 <= i < |missing| && missing[i] == m;
        assert NewNodes(nodes)[i] == n;
      }
    }
    forall i, j | 0 <= i < j < |missing|
      ensures NewNodes(nodes)[i] != NewNodes(nodes)[j]
    {
      assert NewNodes(nodes)[i].name == missing[i] && NewNodes(nodes)[j].name == missing[j];
    }
  }

  /** A node that names the module the pair starts at. */
  ghost predicate Asks(nodes: seq<NodeView>, p: Pair) {
    exists n :: n in nodes && n.kind != "module" && n.moduleName != "" && p == Pair("module:" + n.moduleName, n.id)
  }

  lemma AskedIsWanted(nodes: seq<NodeView>, p: Pair)
    ensures p in Wanted(nodes) <==> Asks(nodes, p)
  {
    WantedIsExact(nodes, p);
    if Asks(nodes, p) {
      var n :| n in nodes && n.kind != "module" && n.moduleName != "" && p == Pair("module:" + n.moduleName, n.id);
      assert ModuleOf(n).Some? && p == Pair(ModuleId(n.moduleName), n.id);
    }
  }

  /** By source, then by target. */
  ghost predicate PairLess(p: Pair, q: Pair) {
    Less(p.source, q.source) || (p.source == q.source && Less(p.target, q.target))
  }

  ghost predicate PairsAscend(pairs: seq<Pair>) {
    forall i, j :: 0 <= i < j < |pairs| ==> PairLess(pairs[i], pairs[j])
  }

  lemma {:induction false} PrefixKeepsOrder(prefix: string, a: string, b: string)
    requires Less(a, b)
    ensures Less(prefix + a, prefix + b)
  {
    if prefix == "" {
      assert prefix + a == a && prefix + b == b;
    } else {
      PrefixKeepsOrder(prefix[1..], a, b);
      assert (prefix + a)[1..] == prefix[1..] + a && (prefix + b)[1..] == prefix[1..] + b;
    }
  }

  lemma {:induction false} WantedAscend(nodes: seq<NodeView>, modules: seq<string>)
    requires StrictlySorted(modules)
    ensures PairsAscend(WantedUnder(nodes, modules))
  {
    if modules == [] {
    } else {
      var front, m := modules[..|modules| - 1], modules[|modules| - 1];
      WantedAscend(nodes, front);
      var earlier := WantedUnder(nodes, front);
      forall i | 0 <= i < |earlier|
        ensures Less(earlier[i].source, ModuleId(m))
      {
        assert earlier[i] in earlier;
        WantedUnderIsExact(nodes, front, earlier[i]);
        var k :| k in front && earlier[i].source == ModuleId(k);
        var at :| 0 <= at < |front| && front[at] == k;
        PrefixKeepsOrder(MODULE_PREFIX, modules[at], m);
      }
    }
  }

  /** The first asked-for pair of its key, when no edge has the key. */
  ghost predicate FirstOfKey(nodes: seq<NodeView>, known: set<string>, p: Pair) {
    && Asks(nodes, p) && PairKey(p) !in known
    && forall q :: Asks(nodes, q) && PairKey(q) == PairKey(p) ==> q == p || PairLess(p, q)
  }

  /** The `i`-th pair is `p`, and none before it has its key. */
  ghost predicate FirstAt(pairs: seq<Pair>, p: Pair, i: int) {
    0 <= i < |pairs| && pairs[i] == p && PairKey(p) !in KeysOf(pairs[..i])
  }

  lemma FirstInLonger(front: seq<Pair>, x: Pair, p: Pair, i: int)
    ensures FirstAt(front + [x], p, i) <==>
            FirstAt(front, p, i) || (i == |front| && p == x && PairKey(p) !in KeysOf(front))
  {
    assert 0 <= i <= |front| ==> (front + [x])[..i] == front[..i];
    assert front[..|front|] == front;
  }

  lemma FirstHasKey(pairs: seq<Pair>, p: Pair)
    ensures (exists i :: FirstAt(pairs, p, i)) ==> PairKey(p) in KeysOf(pairs)
  {
  }

  lemma {:induction false} FreshIsFirst(known: set<string>, pairs: seq<Pair>, p: Pair)
    ensures p in Fresh(known, pairs) <==> PairKey(p) !in known && exists i :: FirstAt(pairs, p, i)
  {
    if pairs == [] {
    } else {
      var front, x := pairs[..|pairs| - 1], pairs[|pairs| - 1];
      FreshIsFirst(known, front, p);
      assert pairs == front + [x];
      forall i
        ensures FirstAt(pairs, p, i) <==> FirstAt(front, p, i) || (i == |front| && p == x && PairKey(p) !in KeysOf(front))
      {
        FirstInLonger(front, x, p, i);
      }
      FirstHasKey(front, p);
      hide PairKey, KeysOf, FirstAt;
      if i :| FirstAt(front, p, i) {
        assert FirstAt(pairs, p, i);
      }
      assert p == x && PairKey(p) !in KeysOf(front) ==> FirstAt(pairs, p, |front|);
    }
  }

  lemma InFront(pairs: seq<Pair>, i: nat, k: nat)
    requires k < i <= |pairs|
    ensures PairKey(pairs[k]) in KeysOf(pairs[..i])
  {
    assert pairs[..i][k] == pairs[k];
  }

  /** What is in a list but has a key of no early element stands later. */
  lemma StandsLater(pairs: seq<Pair>, i: nat, q: Pair) returns (j: nat)
    requires i <= |pairs| && q in pairs && PairKey(q) !in KeysOf(pairs[..i])
    ensures i <= j < |pairs| && pairs[j] == q
  {
    hide PairKey;
    j :| j < |pairs| && pairs[j] == q;
    if j < i {
      var k := j;
      InFront(pairs, i, k);
    }
  }

  lemma PairOrderIsStrict(p: Pair, q: Pair)
    requires PairLess(p, q)
    ensures p != q && !PairLess(q, p)
  {
    LessIrreflexive(p.source);
    LessIrreflexive(p.target);
    if Less(p.source, q.source) && Less(q.source, p.source) {
      LessTransitive(p.source, q.source, p.source);
    }
    if Less(p.target, q.target) && Less(q.target, p.target) {
      LessTransitive(p.target, q.target, p.target);
    }
  }

  lemma NoEarlierKey(pairs: seq<Pair>, i: nat)
    requires i < |pairs| && PairsAscend(pairs)
    requires forall q :: q in pairs && PairKey(q) == PairKey(pairs[i]) ==> q == pairs[i] || PairLess(pairs[i], q)
    ensures PairKey(pairs[i]) !in KeysOf(pairs[..i])
  {
    hide PairKey;
    forall q | q in pairs[..i] && PairKey(q) == PairKey(pairs[i])
      ensures false
    {
      var j :| 0 <= j < i && pairs[j] == q;
      assert PairLess(q, pairs[i]);
      PairOrderIsStrict(q, pairs[i]);
    }
  }

  lemma FreshAreFirst(nodes: seq<NodeView>, known: set<string>, p: Pair)
    ensures p in Fresh(known, Wanted(nodes)) <==> FirstOfKey(nodes, known, p)
  {
    var pairs := Wanted(nodes);
    WantedAscend(nodes, SortedListing(Modules(nodes)));
    FreshIsFirst(known, pairs, p);
    forall q
      ensures q in pairs <==> Asks(nodes, q)
    {
      AskedIsWanted(nodes, q);
    }
    hide Wanted, Asks, PairKey, PairLess, KeysOf, Fresh;
    if p in Fresh(known, pairs) {
      var i :| FirstAt(pairs, p, i);
      forall q | q in pairs && PairKey(q) == PairKey(p)
        ensures q == p || PairLess(p, q)
      {
        var j := StandsLater(pairs, i, q);
      }
    }
    if FirstOfKey(nodes, known, p) {
      var i: nat :| i < |pairs| && pairs[i] == p;
      NoEarlierKey(pairs, i);
      assert FirstAt(pairs, p, i);
    }
  }

  ghost predicate Contains(nodes: seq<NodeView>, known: set<string>, p: Pair, e: EdgeView) {
    && FirstOfKey(nodes, known, p)
    && e == EdgeView("module-link:" + p.source + "->" + p.target, "contains", p.source, p.target, 0, "linker:module_containment",
                     map["inferred" := Flag(true)])
  }

  /** The added edges: one for the first asked-for pair of every key that no CONTAINS edge has. */
  lemma NewEdgesAreExact(nodes: seq<NodeView>, edges: seq<EdgeView>)
    ensures forall e :: e in NewEdges(nodes, edges) <==> exists p :: Contains(nodes, JoinedKeys(edges, "contains"), p, e)
    ensures NoDuplicates(NewEdges(nodes, edges))
  {
    var known := JoinedKeys(edges, "contains");
    var added := Fresh(known, Wanted(nodes));
    FreshKeysDiffer(known, Wanted(nodes));
    forall p
      ensures p in added <==> FirstOfKey(nodes, known, p)
    {
      FreshAreFirst(nodes, known, p);
    }
    hide FirstOfKey, Wanted, Fresh;
    forall e
      ensures e in NewEdges(nodes, edges) <==> exists p :: Contains(nodes, known, p, e)
    {
      if e in NewEdges(nodes, edges) {
        var i :| 0 <= i < |added| && NewEdges(nodes, edges)[i] == e;
        assert added[i] in added;
        assert Contains(nodes, known, added[i], e);
      }
      if p :| Contains(nodes, known, p, e) {
        var i :| 0 <= i < |added| && added[i] == p;
        assert NewEdges(nodes, edges)[i] == e;
      }
    }
    forall i, j | 0 <= i < j < |added|
      ensures NewEdges(nodes, edges)[i] != NewEdges(nodes, edges)[j]
    {
      assert Ends(NewEdges(nodes, edges)[i]) == added[i] && Ends(NewEdges(nodes, edges)[j]) == added[j];
    }
  }
}
