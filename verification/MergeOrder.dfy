/**
 What the graph builder's result owes to the order in which workers add their emissions:
 identities, counts, confidences and filled slots are the same for every order, and for
 values exactly the cases that are (internal/analyzer/graph_builder.go, merger.go).
 */
module MergeOrder {
  import opened Strings
  import opened Sequences
  import opened ConfidenceMerge
  import opened CodeModel
  import opened GraphBuilder

  // ---- one ID ----

  ghost function NodesWithId(ns: seq<NodeView>, id: string): seq<NodeView> {
    Filter((n: NodeView) => n.id == id, ns)
  }

  ghost function NodeRecords(ns: seq<NodeView>, id: string): seq<Record> {
    Map(NodeRecord, NodesWithId(ns, id))
  }

  ghost function EdgesWithKey(es: seq<EdgeView>, k: EdgeKey): seq<EdgeView> {
    Filter((e: EdgeView) => KeyOf(e) == k, es)
  }

  ghost function EdgeRecords(es: seq<EdgeView>, k: EdgeKey): seq<Record> {
    Map(EdgeRecord, EdgesWithKey(es, k))
  }

  ghost function Nodes(ns: seq<NodeView>): NodeBuffer {
    AddNodes(Merged(map[], 0), ns)
  }

  ghost function Edges(es: seq<EdgeView>): EdgeBuffer {
    AddEdges(Merged(map[], 0), es)
  }

  ghost predicate Annotated(ns: seq<NodeView>, id: string, a: string) {
    exists n :: n in ns && n.id == id && a in n.annotations
  }

  /** The buffered node of an ID is the fold of the records emitted for it. */
  lemma {:induction false} NodeIsFold(ns: seq<NodeView>, id: string)
    ensures id in Nodes(ns).entries <==> NodeRecords(ns, id) != []
    ensures id in Nodes(ns).entries ==>
              && Nodes(ns).entries[id].id == id
              && NodeRecord(Nodes(ns).entries[id]) == Fold(NodeRecords(ns, id))
  {
    if ns == [] {
    } else {
      var front, n := ns[..|ns| - 1], ns[|ns| - 1];
      assert ns == front + [n];
      NodeIsFold(front, id);
      if n.id == id {
        var earlier := NodesWithId(front, id);
        assert NodesWithId(ns, id) == earlier + [n];
        assert NodeRecords(ns, id) == NodeRecords(front, id) + [NodeRecord(n)];
        assert NodeRecords(ns, id)[..|earlier|] == NodeRecords(front, id);
        if earlier != [] {
          MergeNodesMergesRecords(Nodes(front).entries[id], n);
        }
      } else {
        assert NodesWithId(ns, id) == NodesWithId(front, id);
      }
    }
  }

  lemma MergeUnitesAnnotations(x: NodeView, y: NodeView)
    ensures forall a :: a in MergeNodes(x, y).annotations <==> a in x.annotations || a in y.annotations
  {
  }

  lemma AnnotatedAfter(ns: seq<NodeView>, n: NodeView, id: string)
    ensures forall a :: Annotated(ns + [n], id, a) <==> Annotated(ns, id, a) || (n.id == id && a in n.annotations)
  {
    assert forall m :: m in ns + [n] <==> m in ns || m == n;
  }

  /** A buffered node carries exactly the annotations emitted for its ID. */
  lemma {:induction false} AnnotationsAreUnion(ns: seq<NodeView>, id: string)
    ensures id in Nodes(ns).entries ==>
              forall a :: a in Nodes(ns).entries[id].annotations <==> Annotated(ns, id, a)
    ensures id !in Nodes(ns).entries ==> forall a :: !Annotated(ns, id, a)
  {
    if ns == [] {
    } else {
      var front, n := ns[..|ns| - 1], ns[|ns| - 1];
      assert ns == front + [n];
      AnnotationsAreUnion(front, id);
      AnnotatedAfter(front, n, id);
      if id == n.id && id in Nodes(front).entries {
        MergeUnitesAnnotations(Nodes(front).entries[id], n);
      }
    }
  }

  lemma {:induction false} EdgeIsFold(es: seq<EdgeView>, k: EdgeKey)
    ensures k in Edges(es).entries <==> EdgeRecords(es, k) != []
    ensures k in Edges(es).entries ==>
              && KeyOf(Edges(es).entries[k]) == k
              && EdgeRecord(Edges(es).entries[k]) == Fold(EdgeRecords(es, k))
  {
    if es == [] {
    } else {
      var front, e := es[..|es| - 1], es[|es| - 1];
      assert es == front + [e];
      EdgeIsFold(front, k);
      if KeyOf(e) == k {
        var earlier := EdgesWithKey(front, k);
        assert EdgesWithKey(es, k) == earlier + [e];
        assert EdgeRecords(es, k) == EdgeRecords(front, k) + [EdgeRecord(e)];
        assert EdgeRecords(es, k)[..|earlier|] == EdgeRecords(front, k);
        if earlier != [] {
          MergeEdgesMergesRecords(Edges(front).entries[k], e);
        }
      } else {
        assert EdgesWithKey(es, k) == EdgesWithKey(front, k);
      }
    }
  }

  /** Nothing is lost: every emitted node is kept or counted as deduplicated. */
  lemma {:induction false} EmittedNodesAreCounted(ns: seq<NodeView>)
    ensures |Nodes(ns).entries| + Nodes(ns).deduped == |ns|
  {
    if ns == [] {
    } else {
      var front, n := ns[..|ns| - 1], ns[|ns| - 1];
      EmittedNodesAreCounted(front);
      if n.id in Nodes(front).entries {
        assert Nodes(ns).entries.Keys == Nodes(front).entries.Keys;
        assert |Nodes(ns).entries.Keys| == |Nodes(front).entries.Keys|;
      }
    }
  }

  lemma {:induction false} EmittedEdgesAreCounted(es: seq<EdgeView>)
    ensures |Edges(es).entries| + Edges(es).deduped == |es|
  {
    if es == [] {
    } else {
      var front, e := es[..|es| - 1], es[|es| - 1];
      EmittedEdgesAreCounted(front);
      if KeyOf(e) in Edges(front).entries {
        assert Edges(es).entries.Keys == Edges(front).entries.Keys;
        assert |Edges(es).entries.Keys| == |Edges(front).entries.Keys|;
      }
    }
  }

  // ---- all orders ----

  /** What one detector call or one cache hit hands to `Add`. */
  datatype Emission = Emission(nodes: seq<NodeView>, edges: seq<EdgeView>)

  /** The buffers after a run of `Add` calls. */
  ghost function Run(calls: seq<Emission>): (NodeBuffer, EdgeBuffer) {
    if calls == [] then (Merged(map[], 0), Merged(map[], 0))
    else
      var before := Run(calls[..|calls| - 1]);
      (AddNodes(before.0, calls[|calls| - 1].nodes), AddEdges(before.1, calls[|calls| - 1].edges))
  }

  ghost function AllNodes(calls: seq<Emission>): seq<NodeView> {
    if calls == [] then [] else AllNodes(calls[..|calls| - 1]) + calls[|calls| - 1].nodes
  }

  ghost function AllEdges(calls: seq<Emission>): seq<EdgeView> {
    if calls == [] then [] else AllEdges(calls[..|calls| - 1]) + calls[|calls| - 1].edges
  }

  lemma {:induction false} AddNodesConcat(b: NodeBuffer, s: seq<NodeView>, t: seq<NodeView>)
    ensures AddNodes(b, s + t) == AddNodes(AddNodes(b, s), t)
  {
    if t == [] {
      assert s + t == s;
    } else {
      var u := s + t;
      assert u[..|u| - 1] == s + t[..|t| - 1];
      AddNodesConcat(b, s, t[..|t| - 1]);
    }
  }

  lemma {:induction false} AddEdgesConcat(b: EdgeBuffer, s: seq<EdgeView>, t: seq<EdgeView>)
    ensures AddEdges(b, s + t) == AddEdges(AddEdges(b, s), t)
  {
    if t == [] {
      assert s + t == s;
    } else {
      var u := s + t;
      assert u[..|u| - 1] == s + t[..|t| - 1];
      AddEdgesConcat(b, s, t[..|t| - 1]);
    }
  }

  /** How emissions are grouped into calls is irrelevant. */
  lemma {:induction false} RunIsFlat(calls: seq<Emission>)
    ensures Run(calls).0 == Nodes(AllNodes(calls)) && Run(calls).1 == Edges(AllEdges(calls))
  {
    if calls == [] {
    } else {
      var front, last := calls[..|calls| - 1], calls[|calls| - 1];
      RunIsFlat(front);
      AddNodesConcat(Merged(map[], 0), AllNodes(front), last.nodes);
      AddEdgesConcat(Merged(map[], 0), AllEdges(front), last.edges);
    }
  }

  /** What two nodes buffered for one ID share whatever the order: confidence, filled slots, annotation set. */
  ghost predicate NodesAgree(m: NodeView, n: NodeView) {
    && m.confidence == n.confidence
    && NodeRecord(m).slots.Keys == NodeRecord(n).slots.Keys
    && m.properties.Keys == n.properties.Keys
    && forall a :: a in m.annotations <==> a in n.annotations
  }

  ghost predicate EdgesAgree(e: EdgeView, f: EdgeView) {
    && e.confidence == f.confidence
    && EdgeRecord(e).slots.Keys == EdgeRecord(f).slots.Keys
    && e.properties.Keys == f.properties.Keys
  }

  ghost predicate NodeBuffersAgree(b: NodeBuffer, c: NodeBuffer) {
    && b.entries.Keys == c.entries.Keys && b.deduped == c.deduped
    && forall id :: id in b.entries ==> NodesAgree(b.entries[id], c.entries[id])
  }

  ghost predicate EdgeBuffersAgree(b: EdgeBuffer, c: EdgeBuffer) {
    && b.entries.Keys == c.entries.Keys && b.deduped == c.deduped
    && forall k :: k in b.entries ==> EdgesAgree(b.entries[k], c.entries[k])
  }

  lemma PropertyKeysFromSlots(m: map<string, Any>, n: map<string, Any>, r: map<Slot, Any>, t: map<Slot, Any>)
    requires r.Keys == t.Keys
    requires forall key :: Property(key) in r <==> key in m
    requires forall key :: Property(key) in t <==> key in n
    ensures m.Keys == n.Keys
  {
    forall key
      ensures key in m <==> key in n
    {
      assert Property(key) in r.Keys <==> Property(key) in t.Keys;
    }
  }

  lemma NodeRecordsPermute(ns: seq<NodeView>, ms: seq<NodeView>, id: string)
    requires multiset(ns) == multiset(ms)
    ensures multiset(NodeRecords(ns, id)) == multiset(NodeRecords(ms, id))
  {
    FilterPermutation((n: NodeView) => n.id == id, ns, ms);
    MapPermutation(NodeRecord, NodesWithId(ns, id), NodesWithId(ms, id));
  }

  lemma SameAnnotations(ns: seq<NodeView>, ms: seq<NodeView>, id: string)
    requires multiset(ns) == multiset(ms)
    requires id in Nodes(ns).entries && id in Nodes(ms).entries
    ensures forall a :: a in Nodes(ns).entries[id].annotations <==> a in Nodes(ms).entries[id].annotations
  {
    AnnotationsAreUnion(ns, id);
    AnnotationsAreUnion(ms, id);
    assert forall x :: x in ns <==> x in multiset(ns);
    assert forall x :: x in ms <==> x in multiset(ms);
    assert forall a :: Annotated(ns, id, a) <==> Annotated(ms, id, a);
  }

  lemma OneNodeAgrees(ns: seq<NodeView>, ms: seq<NodeView>, id: string)
    requires multiset(ns) == multiset(ms)
    requires id in Nodes(ns).entries && id in Nodes(ms).entries
    ensures NodesAgree(Nodes(ns).entries[id], Nodes(ms).entries[id])
  {
    hide Nodes, NodeRecord, NodeRecords, Fold, Annotated;
    var m, n := Nodes(ns).entries[id], Nodes(ms).entries[id];
    NodeIsFold(ns, id);
    NodeIsFold(ms, id);
    NodeRecordsPermute(ns, ms, id);
    SummaryIsOrderIndependent(NodeRecords(ns, id), NodeRecords(ms, id));
    PropertyKeysFromSlots(m.properties, n.properties, NodeRecord(m).slots, NodeRecord(n).slots);
    SameAnnotations(ns, ms, id);
  }

  lemma PermutedNodesAgree(ns: seq<NodeView>, ms: seq<NodeView>)
    requires multiset(ns) == multiset(ms)
    ensures NodeBuffersAgree(Nodes(ns), Nodes(ms))
  {
    forall id
      ensures id in Nodes(ns).entries <==> id in Nodes(ms).entries
      ensures id in Nodes(ns).entries ==> NodesAgree(Nodes(ns).entries[id], Nodes(ms).entries[id])
    {
      NodeIsFold(ns, id);
      NodeIsFold(ms, id);
      NodeRecordsPermute(ns, ms, id);
      assert |multiset(NodeRecords(ns, id))| == |multiset(NodeRecords(ms, id))|;
      if id in Nodes(ns).entries {
        OneNodeAgrees(ns, ms, id);
      }
    }
    EmittedNodesAreCounted(ns);
    EmittedNodesAreCounted(ms);
    assert |ns| == |multiset(ns)| == |multiset(ms)| == |ms|;
    assert Nodes(ns).entries.Keys == Nodes(ms).entries.Keys;
    assert |Nodes(ns).entries.Keys| == |Nodes(ms).entries.Keys|;
  }

  lemma EdgeRecordsPermute(es: seq<EdgeView>, fs: seq<EdgeView>, k: EdgeKey)
    requires multiset(es) == multiset(fs)
    ensures multiset(EdgeRecords(es, k)) == multiset(EdgeRecords(fs, k))
  {
    FilterPermutation((e: EdgeView) => KeyOf(e) == k, es, fs);
    MapPermutation(EdgeRecord, EdgesWithKey(es, k), EdgesWithKey(fs, k));
  }

  lemma OneEdgeAgrees(es: seq<EdgeView>, fs: seq<EdgeView>, k: EdgeKey)
    requires multiset(es) == multiset(fs)
    requires k in Edges(es).entries && k in Edges(fs).entries
    ensures EdgesAgree(Edges(es).entries[k], Edges(fs).entries[k])
  {
    hide Edges, EdgeRecord, EdgeRecords, Fold;
    var e, f := Edges(es).entries[k], Edges(fs).entries[k];
    EdgeIsFold(es, k);
    EdgeIsFold(fs, k);
    EdgeRecordsPermute(es, fs, k);
    SummaryIsOrderIndependent(EdgeRecords(es, k), EdgeRecords(fs, k));
    PropertyKeysFromSlots(e.properties, f.properties, EdgeRecord(e).slots, EdgeRecord(f).slots);
  }

  lemma PermutedEdgesAgree(es: seq<EdgeView>, fs: seq<EdgeView>)
    requires multiset(es) == multiset(fs)
    ensures EdgeBuffersAgree(Edges(es), Edges(fs))
  {
    forall k
      ensures k in Edges(es).entries <==> k in Edges(fs).entries
      ensures k in Edges(es).entries ==> EdgesAgree(Edges(es).entries[k], Edges(fs).entries[k])
    {
      EdgeIsFold(es, k);
      EdgeIsFold(fs, k);
      EdgeRecordsPermute(es, fs, k);
      assert |multiset(EdgeRecords(es, k))| == |multiset(EdgeRecords(fs, k))|;
      if k in Edges(es).entries {
        OneEdgeAgrees(es, fs, k);
      }
    }
    EmittedEdgesAreCounted(es);
    EmittedEdgesAreCounted(fs);
    assert |es| == |multiset(es)| == |multiset(fs)| == |fs|;
    assert Edges(es).entries.Keys == Edges(fs).entries.Keys;
    assert |Edges(es).entries.Keys| == |Edges(fs).entries.Keys|;
  }

  // ---- the figures of a run ----

  lemma SameFigures(b: (NodeBuffer, EdgeBuffer), c: (NodeBuffer, EdgeBuffer))
    requires b.0.entries.Keys == c.0.entries.Keys && b.0.deduped == c.0.deduped
    requires b.1.entries.Keys == c.1.entries.Keys && b.1.deduped == c.1.deduped
    ensures FiguresOf(b) == FiguresOf(c)
  {
    var ids := b.0.entries.Keys;
    assert |b.0.entries.Keys| == |c.0.entries.Keys|;
    assert (set k | k in b.1.entries && !Dangling(ids, k)) == (set k | k in c.1.entries && !Dangling(ids, k));
    assert (set k | k in b.1.entries && Dangling(ids, k)) == (set k | k in c.1.entries && Dangling(ids, k));
  }

  /** Scheduling decides neither what the graph holds nor the figures a run prints. */
  lemma ScheduleIndependence(calls: seq<Emission>, calls': seq<Emission>)
    requires multiset(AllNodes(calls)) == multiset(AllNodes(calls'))
    requires multiset(AllEdges(calls)) == multiset(AllEdges(calls'))
    ensures NodeBuffersAgree(Run(calls).0, Run(calls').0)
    ensures EdgeBuffersAgree(Run(calls).1, Run(calls').1)
    ensures FiguresOf(Run(calls)) == FiguresOf(Run(calls'))
  {
    RunIsFlat(calls);
    RunIsFlat(calls');
    PermutedNodesAgree(AllNodes(calls), AllNodes(calls'));
    PermutedEdgesAgree(AllEdges(calls), AllEdges(calls'));
    SameFigures(Run(calls), Run(calls'));
  }

  /** Every emission is accounted for: kept, merged into another, or dropped for a missing end. */
  lemma EmissionsAreConserved(calls: seq<Emission>)
    ensures FiguresOf(Run(calls)).nodes + FiguresOf(Run(calls)).dedupedNodes == |AllNodes(calls)|
    ensures FiguresOf(Run(calls)).edges + FiguresOf(Run(calls)).dedupedEdges + FiguresOf(Run(calls)).droppedEdges
            == |AllEdges(calls)|
  {
    hide Run, Nodes, Edges, AllNodes, AllEdges, Dangling;
    RunIsFlat(calls);
    EmittedNodesAreCounted(AllNodes(calls));
    EmittedEdgesAreCounted(AllEdges(calls));
    var ids, es := Run(calls).0.entries.Keys, Run(calls).1.entries;
    var kept, dropped := set k | k in es && !Dangling(ids, k), set k | k in es && Dangling(ids, k);
    assert es.Keys == kept + dropped && kept !! dropped;
    assert |es| == |es.Keys| == |kept| + |dropped|;
  }

  // ---- values ----

  lemma MembersOfRecords(ns: seq<NodeView>, id: string)
    ensures forall n :: n in ns && n.id == id ==> NodeRecord(n) in NodeRecords(ns, id)
    ensures forall r :: r in NodeRecords(ns, id) ==> exists n :: n in ns && n.id == id && r == NodeRecord(n)
  {
    FilterMembers((n: NodeView) => n.id == id, ns);
    var fs := NodesWithId(ns, id);
    forall n | n in ns && n.id == id
      ensures NodeRecord(n) in NodeRecords(ns, id)
    {
      var i :| 0 <= i < |fs| && fs[i] == n;
      assert NodeRecords(ns, id)[i] == NodeRecord(n);
    }
    forall r | r in NodeRecords(ns, id)
      ensures exists n :: n in ns && n.id == id && r == NodeRecord(n)
    {
      var i :| 0 <= i < |fs| && NodeRecords(ns, id)[i] == r;
      assert fs[i] in ns;
    }
  }

  /** The most confident emission of an ID keeps its non-empty fields and properties, whatever the order. */
  lemma MostConfidentSurvives(ns: seq<NodeView>, top: NodeView, s: Slot)
    requires top in ns && NodeSlot(top, s).0
    requires forall n :: n in ns && n.id == top.id && n != top ==> n.confidence < top.confidence
    ensures top.id in Nodes(ns).entries
    ensures Nodes(ns).entries[top.id].confidence == top.confidence
    ensures NodeSlot(Nodes(ns).entries[top.id], s) == NodeSlot(top, s)
  {
    hide Nodes, NodeRecord, NodeRecords, Fold;
    var id := top.id;
    NodeIsFold(ns, id);
    FilterMembers((n: NodeView) => n.id == id, ns);
    assert top in NodesWithId(ns, id);
    MembersOfRecords(ns, id);
    StrictTopWins(NodeRecords(ns, id), NodeRecord(top), s);
  }

  /** The first of the most confident nodes stands at `p`. */
  ghost predicate FirstNodeOf(ms: seq<NodeView>, p: int) {
    && 0 <= p < |ms|
    && (forall i :: 0 <= i < p ==> ms[i].confidence < ms[p].confidence)
    && (forall i :: p < i < |ms| ==> ms[i].confidence <= ms[p].confidence)
  }

  ghost predicate FirstEdgeOf(ms: seq<EdgeView>, p: int) {
    && 0 <= p < |ms|
    && (forall i :: 0 <= i < p ==> ms[i].confidence < ms[p].confidence)
    && (forall i :: p < i < |ms| ==> ms[i].confidence <= ms[p].confidence)
  }

  lemma FirstNodeSplit(earlier: seq<NodeView>, last: NodeView, p: int)
    requires FirstNodeOf(earlier + [last], p)
    ensures if p < |earlier| then FirstNodeOf(earlier, p) && last.confidence <= earlier[p].confidence
            else p == |earlier| && forall m :: m in earlier ==> m.confidence < last.confidence
  {
    var all := earlier + [last];
    assert all[|earlier|] == last && forall i :: 0 <= i < |earlier| ==> all[i] == earlier[i];
  }

  lemma ConfidenceBelow(ns: seq<NodeView>, id: string, c: int)
    requires forall n :: n in NodesWithId(ns, id) ==> n.confidence < c
    ensures id in Nodes(ns).entries ==> Nodes(ns).entries[id].id == id && Nodes(ns).entries[id].confidence < c
  {
    hide Nodes, NodeRecord, NodesWithId, Fold;
    NodeIsFold(ns, id);
    if id in Nodes(ns).entries {
      FoldSummary(NodeRecords(ns, id));
    }
  }

  /** The buffered node is the object emitted first among the most confident of its ID. */
  lemma {:induction false} SurvivingNode(ns: seq<NodeView>, id: string, p: int)
    requires FirstNodeOf(NodesWithId(ns, id), p)
    ensures id in Nodes(ns).entries
    ensures var v, m := Nodes(ns).entries[id], NodesWithId(ns, id)[p];
            v.id == id && v.kind == m.kind && v.name == m.name && v.confidence == m.confidence
  {
    var front, n := ns[..|ns| - 1], ns[|ns| - 1];
    assert ns == front + [n];
    if n.id == id {
      var earlier := NodesWithId(front, id);
      assert NodesWithId(ns, id) == earlier + [n];
      FirstNodeSplit(earlier, n, p);
      if p < |earlier| {
        SurvivingNode(front, id, p);
      } else {
        ConfidenceBelow(front, id, n.confidence);
      }
    } else {
      assert NodesWithId(ns, id) == NodesWithId(front, id);
      SurvivingNode(front, id, p);
    }
  }

  lemma FirstEdgeSplit(earlier: seq<EdgeView>, last: EdgeView, p: int)
    requires FirstEdgeOf(earlier + [last], p)
    ensures if p < |earlier| then FirstEdgeOf(earlier, p) && last.confidence <= earlier[p].confidence
            else p == |earlier| && forall m :: m in earlier ==> m.confidence < last.confidence
  {
    var all := earlier + [last];
    assert all[|earlier|] == last && forall i :: 0 <= i < |earlier| ==> all[i] == earlier[i];
  }

  lemma EdgeConfidenceBelow(es: seq<EdgeView>, k: EdgeKey, c: int)
    requires forall e :: e in EdgesWithKey(es, k) ==> e.confidence < c
    ensures k in Edges(es).entries ==> KeyOf(Edges(es).entries[k]) == k && Edges(es).entries[k].confidence < c
  {
    hide Edges, EdgeRecord, EdgesWithKey, Fold;
    EdgeIsFold(es, k);
    if k in Edges(es).entries {
      FoldSummary(EdgeRecords(es, k));
    }
  }

  /** The buffered edge is the object emitted first among the most confident of its key. */
  lemma {:induction false} SurvivingEdge(es: seq<EdgeView>, k: EdgeKey, p: int)
    requires FirstEdgeOf(EdgesWithKey(es, k), p)
    ensures k in Edges(es).entries
    ensures var v, m := Edges(es).entries[k], EdgesWithKey(es, k)[p];
            KeyOf(v) == k && v.id == m.id && v.confidence == m.confidence
  {
    var front, e := es[..|es| - 1], es[|es| - 1];
    assert es == front + [e];
    if KeyOf(e) == k {
      var earlier := EdgesWithKey(front, k);
      assert EdgesWithKey(es, k) == earlier + [e];
      FirstEdgeSplit(earlier, e, p);
      if p < |earlier| {
        SurvivingEdge(front, k, p);
      } else {
        EdgeConfidenceBelow(front, k, e.confidence);
      }
    } else {
      assert EdgesWithKey(es, k) == EdgesWithKey(front, k);
      SurvivingEdge(front, k, p);
    }
  }

  /** What the surviving node fills it keeps, and what nobody before it filled comes from the first later emission that does. */
  lemma NodeSlotOrigin(ns: seq<NodeView>, id: string, p: nat, s: Slot)
    requires FirstNodeOf(NodesWithId(ns, id), p)
    ensures id in Nodes(ns).entries
    ensures var v, ms := Nodes(ns).entries[id], NodesWithId(ns, id);
            && (NodeSlot(ms[p], s).0 ==> NodeSlot(v, s) == NodeSlot(ms[p], s))
            && (forall q :: p < q < |ms| && (forall i :: 0 <= i < q ==> !NodeSlot(ms[i], s).0) && NodeSlot(ms[q], s).0 ==>
                  NodeSlot(v, s) == NodeSlot(ms[q], s))
  {
    hide Nodes, NodesWithId, Fold;
    NodeIsFold(ns, id);
    hide NodeRecord;
    var ms, rs := NodesWithId(ns, id), NodeRecords(ns, id);
    assert forall i :: 0 <= i < |ms| ==> rs[i] == NodeRecord(ms[i]);
    assert FirstTop(rs, p);
    SlotOrigin(rs, p, s);
    forall q | p < q < |ms| && (forall i :: 0 <= i < q ==> !NodeSlot(ms[i], s).0) && NodeSlot(ms[q], s).0
      ensures NodeSlot(Nodes(ns).entries[id], s) == NodeSlot(ms[q], s)
    {
      assert s in rs[q].slots;
    }
  }

  lemma RecordsOfConcat(ns: seq<NodeView>, more: seq<NodeView>, id: string)
    ensures |NodeRecords(ns, id)| <= |NodeRecords(ns + more, id)|
    ensures NodeRecords(ns + more, id)[..|NodeRecords(ns, id)|] == NodeRecords(ns, id)
  {
    FilterConcat((n: NodeView) => n.id == id, ns, more);
    MapConcat(NodeRecord, NodesWithId(ns, id), NodesWithId(more, id));
  }

  /** Confidence of an ID is the greatest emitted for it and never drops while emissions arrive. */
  lemma ConfidenceIsMaximum(ns: seq<NodeView>, more: seq<NodeView>, id: string)
    requires id in Nodes(ns).entries
    ensures forall n :: n in ns && n.id == id ==> n.confidence <= Nodes(ns).entries[id].confidence
    ensures exists n :: n in ns && n.id == id && n.confidence == Nodes(ns).entries[id].confidence
    ensures id in Nodes(ns + more).entries
    ensures Nodes(ns).entries[id].confidence <= Nodes(ns + more).entries[id].confidence
  {
    hide Nodes, NodeRecord, NodesWithId;
    NodeIsFold(ns, id);
    NodeIsFold(ns + more, id);
    MembersOfRecords(ns, id);
    FoldSummary(NodeRecords(ns, id));
    RecordsOfConcat(ns, more, id);
    ConfidenceNeverDrops(NodeRecords(ns + more, id), |NodeRecords(ns, id)|);
  }

  ghost function BufferedValue(ns: seq<NodeView>, id: string, s: Slot): Any {
    if id in Nodes(ns).entries then SlotValue(NodeRecord(Nodes(ns).entries[id]), s) else Nil
  }

  ghost predicate NodeValueIsOrderIndependent(ns: seq<NodeView>, id: string, s: Slot) {
    forall ms :: multiset(ms) == multiset(ns) ==> BufferedValue(ms, id, s) == BufferedValue(ns, id, s)
  }

  /** All emissions of the ID that fill the slot agree, or all most confident ones fill it and agree. */
  ghost predicate EmissionsAgree(ns: seq<NodeView>, id: string, s: Slot) {
    CarriersAgree(NodeRecords(ns, id), s) || TopsAgree(NodeRecords(ns, id), s)
  }

  lemma AgreeingEmissionsGiveOneValue(ns: seq<NodeView>, ms: seq<NodeView>, id: string, s: Slot)
    requires multiset(ms) == multiset(ns) && EmissionsAgree(ns, id, s)
    ensures BufferedValue(ms, id, s) == BufferedValue(ns, id, s)
  {
    NodeIsFold(ns, id);
    NodeIsFold(ms, id);
    NodeRecordsPermute(ns, ms, id);
    var rs, ts := NodeRecords(ns, id), NodeRecords(ms, id);
    assert |multiset(rs)| == |multiset(ts)|;
    if rs != [] {
      AgreementGivesIndependence(rs, ts, s);
    }
  }

  /** Any order of one ID's records comes from an order of all emissions. */
  lemma RealiseOrder(ns: seq<NodeView>, id: string, rs: seq<Record>, s: Slot) returns (ms: seq<NodeView>)
    requires rs != [] && multiset(rs) == multiset(NodeRecords(ns, id))
    ensures multiset(ms) == multiset(ns) && BufferedValue(ms, id, s) == SlotValue(Fold(rs), s)
  {
    var gs := PermuteSources(NodeRecord, NodesWithId(ns, id), rs);
    ms := ReorderKept((n: NodeView) => n.id == id, ns, gs);
    assert NodesWithId(ms, id) == gs;
    NodeIsFold(ms, id);
  }

  /**
   The value a node's slot ends up with is the same for every arrival order exactly when the
   emissions of its ID agree on it in the sense of `EmissionsAgree`.
   */
  lemma NodeValueIndependenceIsExact(ns: seq<NodeView>, id: string, s: Slot)
    ensures NodeValueIsOrderIndependent(ns, id, s) <==> EmissionsAgree(ns, id, s)
  {
    var rs := NodeRecords(ns, id);
    if EmissionsAgree(ns, id, s) {
      forall ms | multiset(ms) == multiset(ns)
        ensures BufferedValue(ms, id, s) == BufferedValue(ns, id, s)
      {
        AgreeingEmissionsGiveOneValue(ns, ms, id, s);
      }
    } else {
      assert rs != [];
      var xs, ys := DisagreementGivesDependence(rs, s);
      var ms := RealiseOrder(ns, id, xs, s);
      var ls := RealiseOrder(ns, id, ys, s);
    }
  }

  // ---- a case where the order decides ----

  const FRAMEWORK := Property("framework")

  function Emitted(confidence: int, properties: map<string, Any>): NodeView {
    NodeView("n", "class", "N", confidence, "", "", "", 0, 0, LAYER_UNKNOWN, "", [], properties)
  }

  lemma FrameworkRecord(n: NodeView)
    ensures FRAMEWORK in NodeRecord(n).slots <==> "framework" in n.properties
    ensures "framework" in n.properties ==> NodeRecord(n).slots[FRAMEWORK] == n.properties["framework"]
  {
  }

  lemma OneMoreNode(ns: seq<NodeView>, n: NodeView)
    ensures Nodes(ns + [n]) == AddNode(Nodes(ns), n)
  {
    assert (ns + [n])[..|ns|] == ns;
  }

  lemma MergingArrival(ns: seq<NodeView>, n: NodeView)
    requires n.id in Nodes(ns).entries
    ensures n.id in Nodes(ns + [n]).entries && Nodes(ns + [n]).entries[n.id] == MergeNodes(Nodes(ns).entries[n.id], n)
  {
    OneMoreNode(ns, n);
  }

  lemma ThreeArrivals(a: NodeView, b: NodeView, c: NodeView, s: Slot)
    requires a.id == b.id == c.id == "n"
    ensures BufferedValue([a, b, c], "n", s) == SlotValue(Merge(Merge(NodeRecord(a), NodeRecord(b)), NodeRecord(c)), s)
  {
    hide MergeNodes, NodeRecord;
    OneMoreNode([], a);
    assert [] + [a] == [a];
    MergingArrival([a], b);
    assert [a] + [b] == [a, b];
    MergingArrival([a, b], c);
    assert [a, b] + [c] == [a, b, c];
    MergeNodesMergesRecords(a, b);
    MergeNodesMergesRecords(MergeNodes(a, b), c);
  }

  /** Three emissions of rising confidence, only the two weaker ones naming a framework: the order decides which name is kept. */
  lemma ArrivalOrderCanDecideProperty()
    ensures exists c1: NodeView, c2: NodeView, c3: NodeView ::
              && c1.confidence < c2.confidence < c3.confidence
              && BufferedValue([c1, c2, c3], "n", FRAMEWORK) == Text("b")
              && BufferedValue([c3, c1, c2], "n", FRAMEWORK) == Text("a")
  {
    hide BufferedValue, NodeRecord;
    var c1 := Emitted(0, map["framework" := Text("a")]);
    var c2 := Emitted(1, map["framework" := Text("b")]);
    var c3 := Emitted(2, map[]);
    FrameworkRecord(c1);
    FrameworkRecord(c2);
    FrameworkRecord(c3);
    ThreeArrivals(c1, c2, c3, FRAMEWORK);
    ThreeArrivals(c3, c1, c2, FRAMEWORK);
  }
}
