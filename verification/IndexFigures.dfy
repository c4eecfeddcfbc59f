/**
 The figures an index run prints (internal/analyzer/analyzer.go, graph_builder.go): they depend on
 identities only, so an incremental run prints what a forced run on an empty cache prints.
 */
module IndexFigures {
  import opened CodeModel
  import opened GraphBuilder
  import opened IndexRuns
  import opened Sequences
  import opened Strings
  import E = IndexEquivalence
  import M = MergeOrder

  /** The identities in one emission. */
  function IdsOf(c: M.Emission): Ids {
    Ids(Map(NodeId, c.nodes), Map(KeyOf, c.edges))
  }

  // ---- figures depend on identities ----

  lemma NodeKeys(ns: seq<NodeView>, id: string)
    ensures id in M.Nodes(ns).entries <==> id in Map(NodeId, ns)
  {
    M.NodeIsFold(ns, id);
    var withId := M.NodesWithId(ns, id);
    FilterMembers((n: NodeView) => n.id == id, ns);
    if id in Map(NodeId, ns) {
      var i :| 0 <= i < |ns| && Map(NodeId, ns)[i] == id;
      assert ns[i] in withId;
    }
    if withId != [] {
      var n := SomeMember(withId);
      var i :| 0 <= i < |ns| && ns[i] == n;
      assert Map(NodeId, ns)[i] == id;
    }
  }

  lemma EdgeKeysOf(es: seq<EdgeView>, k: EdgeKey)
    ensures k in M.Edges(es).entries <==> k in Map(KeyOf, es)
  {
    M.EdgeIsFold(es, k);
    var withKey := M.EdgesWithKey(es, k);
    FilterMembers((e: EdgeView) => KeyOf(e) == k, es);
    if k in Map(KeyOf, es) {
      var i :| 0 <= i < |es| && Map(KeyOf, es)[i] == k;
      assert es[i] in withKey;
    }
    if withKey != [] {
      var e := SomeMember(withKey);
      var i :| 0 <= i < |es| && es[i] == e;
      assert Map(KeyOf, es)[i] == k;
    }
  }

  lemma SameNodeFigures(ns: seq<NodeView>, ms: seq<NodeView>)
    requires multiset(Map(NodeId, ns)) == multiset(Map(NodeId, ms))
    ensures M.Nodes(ns).entries.Keys == M.Nodes(ms).entries.Keys && M.Nodes(ns).deduped == M.Nodes(ms).deduped
  {
    hide M.Nodes;
    SameMembers(Map(NodeId, ns), Map(NodeId, ms));
    forall id
      ensures id in M.Nodes(ns).entries.Keys <==> id in M.Nodes(ms).entries.Keys
    {
      NodeKeys(ns, id);
      NodeKeys(ms, id);
    }
    M.EmittedNodesAreCounted(ns);
    M.EmittedNodesAreCounted(ms);
    assert M.Nodes(ns).entries.Keys == M.Nodes(ms).entries.Keys;
    assert |M.Nodes(ns).entries| == |M.Nodes(ns).entries.Keys| && |M.Nodes(ms).entries| == |M.Nodes(ms).entries.Keys|;
  }

  lemma SameEdgeFigures(es: seq<EdgeView>, fs: seq<EdgeView>)
    requires multiset(Map(KeyOf, es)) == multiset(Map(KeyOf, fs))
    ensures M.Edges(es).entries.Keys == M.Edges(fs).entries.Keys && M.Edges(es).deduped == M.Edges(fs).deduped
  {
    hide M.Edges;
    SameMembers(Map(KeyOf, es), Map(KeyOf, fs));
    forall k
      ensures k in M.Edges(es).entries.Keys <==> k in M.Edges(fs).entries.Keys
    {
      EdgeKeysOf(es, k);
      EdgeKeysOf(fs, k);
    }
    M.EmittedEdgesAreCounted(es);
    M.EmittedEdgesAreCounted(fs);
    assert M.Edges(es).entries.Keys == M.Edges(fs).entries.Keys;
    assert |M.Edges(es).entries| == |M.Edges(es).entries.Keys| && |M.Edges(fs).entries| == |M.Edges(fs).entries.Keys|;
  }

  /** Emissions with the same identities, as often and in whatever order, give the same figures. */
  lemma IdentitiesDecideFigures(calls: seq<M.Emission>, calls': seq<M.Emission>)
    requires multiset(Map(NodeId, M.AllNodes(calls))) == multiset(Map(NodeId, M.AllNodes(calls')))
    requires multiset(Map(KeyOf, M.AllEdges(calls))) == multiset(Map(KeyOf, M.AllEdges(calls')))
    ensures FiguresOf(M.Run(calls)) == FiguresOf(M.Run(calls'))
  {
    M.RunIsFlat(calls);
    M.RunIsFlat(calls');
    SameNodeFigures(M.AllNodes(calls), M.AllNodes(calls'));
    SameEdgeFigures(M.AllEdges(calls), M.AllEdges(calls'));
    M.SameFigures(M.Run(calls), M.Run(calls'));
  }

  // ---- what a run hands to the builder ----

  /** The calls hand over what the tasks of a finished run emitted, file after file in the order `ps`. */
  ghost predicate Realises(s: State, ps: seq<string>, calls: seq<M.Emission>) {
    && |calls| == |ps| && NoDuplicates(ps) && (forall p :: p in ps <==> p in s.tasks)
    && forall k :: 0 <= k < |ps| ==> ps[k] in s.tasks && s.tasks[ps[k]].emitted == [IdsOf(calls[k])]
  }

  function DetectedNodes(cfg: Config, disk: Disk): string -> seq<string> {
    p => if p in disk then cfg.detect(p, disk[p]).nodes else []
  }

  function DetectedEdges(cfg: Config, disk: Disk): string -> seq<EdgeKey> {
    p => if p in disk then cfg.detect(p, disk[p]).edges else []
  }

  lemma {:induction false} CallsCarryDetections(cfg: Config, disk: Disk, ps: seq<string>, calls: seq<M.Emission>)
    requires |calls| == |ps| && forall k :: 0 <= k < |ps| ==> ps[k] in disk && IdsOf(calls[k]) == cfg.detect(ps[k], disk[ps[k]])
    ensures Map(NodeId, M.AllNodes(calls)) == FlatMap(DetectedNodes(cfg, disk), ps)
    ensures Map(KeyOf, M.AllEdges(calls)) == FlatMap(DetectedEdges(cfg, disk), ps)
  {
    if ps == [] {
      assert M.AllNodes(calls) == [] && M.AllEdges(calls) == [];
    } else {
      var n := |ps| - 1;
      CallsCarryDetections(cfg, disk, ps[..n], calls[..n]);
      MapConcat(NodeId, M.AllNodes(calls[..n]), calls[n].nodes);
      MapConcat(KeyOf, M.AllEdges(calls[..n]), calls[n].edges);
    }
  }

  /**
   With distinct contents and no live content cached under another live path, every complete
   incremental run prints the node, edge, deduplicated and dropped counts of every complete
   forced run on an empty cache, in whatever order each of them handed its emissions over.
   */
  lemma RunsPrintSameFigures(cfg: Config, disk: Disk, cache: Rows, steps: seq<string>, ps: seq<string>, calls: seq<M.Emission>,
                             forced: seq<string>, qs: seq<string>, calls': seq<M.Emission>)
    requires Injective(cfg.sha) && OneRowPerPath(cache) && Faithful(cfg, cache)
    requires E.DistinctContents(disk) && E.NoForeignRow(cfg, disk, cache)
    requires Schedule(disk, steps) && AllDone(RunTo(cfg, disk, false, cache, steps))
    requires Schedule(disk, forced) && AllDone(RunTo(cfg, disk, true, map[], forced))
    requires Realises(RunTo(cfg, disk, false, cache, steps), ps, calls)
    requires Realises(RunTo(cfg, disk, true, map[], forced), qs, calls')
    ensures FiguresOf(M.Run(calls)) == FiguresOf(M.Run(calls'))
  {
    hide Exec, Faithful, OneRowPerPath, FiguresOf, Injective, AllDone, Start;
    E.IncrementalRunIsComplete(cfg, disk, cache, steps);
    E.ForcedRunIsComplete(cfg, disk, forced);
    hide IdsOf;
    CallsCarryDetections(cfg, disk, ps, calls);
    CallsCarryDetections(cfg, disk, qs, calls');
    DistinctListsPermute(ps, qs);
    FlatMapPermutation(DetectedNodes(cfg, disk), ps, qs);
    FlatMapPermutation(DetectedEdges(cfg, disk), ps, qs);
    IdentitiesDecideFigures(calls, calls');
  }
}
