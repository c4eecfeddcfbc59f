/**
 The buffer all workers emit into (internal/analyzer/graph_builder.go): `Add` merges
 emissions under their ID or edge key, `Snapshot` sorts what is left and drops dangling edges.
 */
module GraphBuilder {
  import opened Strings
  import opened Sequences
  import opened ConfidenceMerge
  import opened CodeModel

  // ---- the buffer as a value ----

  /** One dedup map with the number of emissions that met an existing entry. */
  datatype Merged<K, V> = Merged(entries: map<K, V>, deduped: nat)

  type NodeBuffer = Merged<string, NodeView>
  type EdgeBuffer = Merged<EdgeKey, EdgeView>

  ghost function AddNode(b: NodeBuffer, n: NodeView): NodeBuffer {
    if n.id in b.entries
    then Merged(b.entries[n.id := MergeNodes(b.entries[n.id], n)], b.deduped + 1)
    else Merged(b.entries[n.id := n], b.deduped)
  }

  ghost function AddEdge(b: EdgeBuffer, e: EdgeView): EdgeBuffer {
    if KeyOf(e) in b.entries
    then Merged(b.entries[KeyOf(e) := MergeEdges(b.entries[KeyOf(e)], e)], b.deduped + 1)
    else Merged(b.entries[KeyOf(e) := e], b.deduped)
  }

  ghost function AddNodes(b: NodeBuffer, ns: seq<NodeView>): NodeBuffer {
    if ns == [] then b else AddNode(AddNodes(b, ns[..|ns| - 1]), ns[|ns| - 1])
  }

  ghost function AddEdges(b: EdgeBuffer, es: seq<EdgeView>): EdgeBuffer {
    if es == [] then b else AddEdge(AddEdges(b, es[..|es| - 1]), es[|es| - 1])
  }

  // ---- the figures of a run ----

  ghost predicate Dangling(nodes: set<string>, k: EdgeKey) {
    k.source !in nodes || k.target !in nodes
  }

  /** The counts a run prints. */
  datatype Figures = Figures(nodes: nat, edges: nat, dedupedNodes: nat, dedupedEdges: nat, droppedEdges: nat)

  ghost function FiguresOf(b: (NodeBuffer, EdgeBuffer)): Figures {
    var ids := b.0.entries.Keys;
    Figures(|b.0.entries|, |set k | k in b.1.entries && !Dangling(ids, k)|, b.0.deduped, b.1.deduped,
            |set k | k in b.1.entries && Dangling(ids, k)|)
  }

  // ---- the builder ----

  datatype SortedGraph = SortedGraph(nodes: seq<CodeNode>, edges: seq<CodeEdge>,
                               dedupedNodes: nat, dedupedEdges: nat, droppedEdges: nat)

  /** Nodes by strictly ascending ID, edges by ID and no two with one (source, target, kind). */
  ghost predicate SnapshotSorted(snap: SortedGraph) {
    && (forall i, j :: 0 <= i < j < |snap.nodes| ==> Less(snap.nodes[i].id, snap.nodes[j].id))
    && (forall i, j :: 0 <= i < j < |snap.edges| ==> AtMost(snap.edges[i].id, snap.edges[j].id))
    && (forall i, j :: 0 <= i < j < |snap.edges| ==> snap.edges[i].Key() != snap.edges[j].Key())
  }

  /** The counts `Run` prints of a snapshot. */
  function SnapshotFigures(snap: SortedGraph): Figures {
    Figures(|snap.nodes|, |snap.edges|, snap.dedupedNodes, snap.dedupedEdges, snap.droppedEdges)
  }

  /** The objects have the buffered values. */
  ghost predicate SnapshotShows(snap: SortedGraph, ns: NodeBuffer, es: EdgeBuffer)
    reads snap.nodes, snap.edges
  {
    && (forall n :: n in snap.nodes ==> n.id in ns.entries && n.View() == ns.entries[n.id])
    && (forall e :: e in snap.edges ==> e.Key() in es.entries && e.View() == es.entries[e.Key()])
  }

  lemma NotYetAdded<T>(s: seq<T>, i: nat)
    requires NoDuplicates(s) && i < |s|
    ensures s[i] !in s[..i] && s[..i + 1] == s[..i] + [s[i]]
    ensures s[i] in s
  {
  }

  lemma ValuesAfterUpdate<K, V>(m: map<K, V>, k: K, v: V)
    ensures m[k := v].Values <= m.Values + {v}
  {
  }

  // ---- what a snapshot holds ----

  lemma KeysSplit(ids: set<string>, all: set<EdgeKey>, kept: seq<EdgeKey>)
    requires forall k :: k in kept <==> k in all && !Dangling(ids, k)
    ensures (set k | k in kept) == (set k | k in all && !Dangling(ids, k))
    ensures |all| == |set k | k in all && !Dangling(ids, k)| + |set k | k in all && Dangling(ids, k)|
  {
    var there, gone := set k | k in all && !Dangling(ids, k), set k | k in all && Dangling(ids, k);
    assert all == there + gone && there !! gone;
  }

  lemma DistinctKeys(edges: map<EdgeKey, CodeEdge>, es: seq<CodeEdge>)
    requires forall k :: k in edges ==> edges[k].Key() == k
    requires NoDuplicates(es) && forall e :: e in es ==> e in edges.Values
    ensures forall i, j :: 0 <= i < j < |es| ==> es[i].Key() != es[j].Key()
  {
    forall i, j | 0 <= i < j < |es|
      ensures es[i].Key() != es[j].Key()
    {
      assert es[i] in es && es[j] in es && es[i] != es[j];
    }
  }

  lemma KeysThere(ids: set<string>, edges: map<EdgeKey, CodeEdge>, kept: seq<CodeEdge>, keys: seq<EdgeKey>)
    requires forall k :: k in edges ==> edges[k].Key() == k
    requires forall e :: e in kept <==> e in edges.Values && e.sourceId in ids && e.targetId in ids
    requires |keys| == |kept| && forall i :: 0 <= i < |kept| ==> keys[i] == kept[i].Key()
    ensures forall k :: k in keys <==> k in edges && !Dangling(ids, k)
  {
    forall k
      ensures k in keys <==> k in edges && !Dangling(ids, k)
    {
      if k in keys {
        var i :| 0 <= i < |keys| && keys[i] == k;
        assert kept[i] in kept;
      }
      if k in edges && !Dangling(ids, k) {
        assert edges[k] in edges.Values && edges[k].Key() == k;
        var i :| 0 <= i < |kept| && kept[i] == edges[k];
        assert keys[i] == k;
      }
    }
  }

  /** As many edges are kept as keys do not dangle, and as many dropped as do. */
  lemma EdgeFigures(ids: set<string>, edges: map<EdgeKey, CodeEdge>, kept: seq<CodeEdge>, dropped: nat)
    requires forall k :: k in edges ==> edges[k].Key() == k
    requires NoDuplicates(kept) && |kept| + dropped == |edges|
    requires forall e :: e in kept <==> e in edges.Values && e.sourceId in ids && e.targetId in ids
    ensures |kept| == |set k | k in edges.Keys && !Dangling(ids, k)|
    ensures dropped == |set k | k in edges.Keys && Dangling(ids, k)|
  {
    var keys := seq(|kept|, i requires 0 <= i < |kept| => kept[i].Key());
    DistinctKeys(edges, kept);
    DistinctCount(keys);
    KeysThere(ids, edges, kept, keys);
    hide Dangling;
    KeysSplit(ids, edges.Keys, keys);
    assert |edges| == |edges.Keys|;
  }

  lemma AllEndsKept(nodes: map<string, CodeNode>, edges: map<EdgeKey, CodeEdge>, ns: seq<CodeNode>, es: seq<CodeEdge>)
    requires forall id :: id in nodes ==> nodes[id].id == id
    requires forall k :: k in edges ==> edges[k].Key() == k
    requires forall n :: n in ns <==> n in nodes.Values
    requires forall i, j :: 0 <= i < j < |ns| ==> Less(ns[i].id, ns[j].id)
    requires NoDuplicates(es) && forall e :: e in es <==> e in edges.Values && e.sourceId in nodes && e.targetId in nodes
    ensures UniqueIds(NodeViews(ns)) && Closed(NodeViews(ns), EdgeViews(es))
    ensures forall i, j :: 0 <= i < j < |es| ==> es[i].Key() != es[j].Key()
  {
    DistinctKeys(edges, es);
    forall i, j | 0 <= i < j < |ns|
      ensures NodeViews(ns)[i].id != NodeViews(ns)[j].id
    {
      LessIrreflexive(ns[i].id);
    }
    forall id | id in nodes
      ensures HasNode(NodeViews(ns), id)
    {
      assert nodes[id] in nodes.Values && nodes[id] in ns;
      var i :| 0 <= i < |ns| && ns[i] == nodes[id];
      assert NodeViews(ns)[i].id == id;
    }
    forall d | d in EdgeViews(es)
      ensures HasNode(NodeViews(ns), d.sourceId) && HasNode(NodeViews(ns), d.targetId)
    {
      var i :| 0 <= i < |es| && EdgeViews(es)[i] == d;
      assert es[i] in es;
    }
  }

  class Builder {
    var nodes: map<string, CodeNode>
    var edges: map<EdgeKey, CodeEdge>
    var dedupedNodes: nat
    var dedupedEdges: nat
    ghost var nodeState: NodeBuffer
    ghost var edgeState: EdgeBuffer

    /** The node state holds the values of the buffered nodes. */
    ghost predicate ValidNodes()
      reads this`nodes, this`dedupedNodes, this`nodeState, nodes.Values
    {
      && nodeState.deduped == dedupedNodes
      && nodeState.entries.Keys == nodes.Keys
      && forall id :: id in nodes ==> nodes[id].id == id && nodes[id].View() == nodeState.entries[id]
    }

    ghost predicate ValidEdges()
      reads this`edges, this`dedupedEdges, this`edgeState, edges.Values
    {
      && edgeState.deduped == dedupedEdges
      && edgeState.entries.Keys == edges.Keys
      && forall k :: k in edges ==> edges[k].Key() == k && edges[k].View() == edgeState.entries[k]
    }

    constructor ()
      ensures ValidNodes() && ValidEdges() && nodeState == Merged(map[], 0) && edgeState == Merged(map[], 0)
      ensures nodes == map[] && edges == map[]
    {
      nodes, edges, dedupedNodes, dedupedEdges := map[], map[], 0, 0;
      nodeState, edgeState := Merged(map[], 0), Merged(map[], 0);
    }

    /** Every object stands under its own ID or key, so distinct entries are distinct objects. */
    ghost predicate Keyed()
      reads this`nodes, this`edges
    {
      && (forall id :: id in nodes ==> nodes[id].id == id)
      && (forall k :: k in edges ==> edges[k].Key() == k)
    }

    /** Only the merged entry changes its value. */
    method MergeWithEntry(n: CodeNode) returns (merged: CodeNode)
      requires ValidNodes() && n !in nodes.Values && n.id in nodes
      modifies nodes[n.id], n
      ensures merged.id == n.id && merged in {n, nodes[n.id]}
      ensures merged.View() == MergeNodes(nodeState.entries[n.id], old(n.View()))
      ensures forall id :: id in nodes && id != n.id ==> nodes[id].View() == nodeState.entries[id]
    {
      var existing := nodes[n.id];
      assert forall id :: id in nodes && id != n.id ==> nodes[id] != existing && nodes[id] != n && nodes[id] in nodes.Values;
      merged := MergeNode(existing, n);
    }

    method AddOneNode(n: CodeNode)
      requires ValidNodes() && n !in nodes.Values
      modifies this`nodes, this`dedupedNodes, this`nodeState, nodes.Values, n
      ensures ValidNodes() && nodeState == AddNode(old(nodeState), old(n.View()))
      ensures nodes.Values <= old(nodes.Values) + {n}
    {
      ghost var state := AddNode(nodeState, n.View());
      var entry := n;
      if n.id in nodes {
        entry := MergeWithEntry(n);
        dedupedNodes := dedupedNodes + 1;
      }
      ValuesAfterUpdate(nodes, n.id, entry);
      nodes := nodes[n.id := entry];
      nodeState := state;
    }

    method MergeWithEdgeEntry(e: CodeEdge) returns (merged: CodeEdge)
      requires ValidEdges() && e !in edges.Values && e.Key() in edges
      modifies edges[e.Key()], e
      ensures merged.Key() == e.Key() && merged in {e, edges[e.Key()]}
      ensures merged.View() == MergeEdges(edgeState.entries[e.Key()], old(e.View()))
      ensures forall k :: k in edges && k != e.Key() ==> edges[k].View() == edgeState.entries[k]
    {
      var existing := edges[e.Key()];
      assert forall k :: k in edges && k != e.Key() ==> edges[k] != existing && edges[k] != e && edges[k] in edges.Values;
      merged := MergeEdge(existing, e);
    }

    method AddOneEdge(e: CodeEdge)
      requires ValidEdges() && e !in edges.Values
      modifies this`edges, this`dedupedEdges, this`edgeState, edges.Values, e
      ensures ValidEdges() && edgeState == AddEdge(old(edgeState), old(e.View()))
      ensures edges.Values <= old(edges.Values) + {e}
    {
      ghost var state := AddEdge(edgeState, e.View());
      var entry := e;
      if e.Key() in edges {
        entry := MergeWithEdgeEntry(e);
        dedupedEdges := dedupedEdges + 1;
      }
      ValuesAfterUpdate(edges, e.Key(), entry);
      edges := edges[e.Key() := entry];
      edgeState := state;
    }

    twostate lemma NodesKept()
      requires old(ValidNodes()) && unchanged(this`nodes, this`dedupedNodes, this`nodeState)
      requires forall n :: n in nodes.Values ==> unchanged(n)
      ensures ValidNodes()
    {
    }

    /** The edge loop of `Add`. */
    method AddEdgeList(es: seq<CodeEdge>, ghost views: seq<EdgeView>)
      requires ValidEdges() && NoDuplicates(es) && (forall e :: e in es ==> e !in edges.Values)
      requires |views| == |es| && forall i :: 0 <= i < |es| ==> es[i].View() == views[i]
      modifies this`edges, this`dedupedEdges, this`edgeState, edges.Values, es
      ensures ValidEdges() && edgeState == AddEdges(old(edgeState), views)
      ensures forall x :: x in edges.Values ==> x in old(edges.Values) || x in es
    {
      for i := 0 to |es|
        invariant ValidEdges() && edgeState == AddEdges(old(edgeState), views[..i])
        invariant forall x :: x in edges.Values ==> x in old(edges.Values) || x in es[..i]
        invariant forall j :: i <= j < |es| ==> es[j].View() == views[j]
      {
        NotYetAdded(es, i);
        AddOneEdge(es[i]);
        assert views[..i + 1][..i] == views[..i];
      }
      assert views[..|es|] == views && es[..|es|] == es;
    }

    /** Adding edges leaves the buffered nodes as they are. */
    method AddEdgesOnly(es: seq<CodeEdge>, ghost ev: seq<EdgeView>)
      requires ValidNodes()
      requires ValidEdges() && NoDuplicates(es) && (forall e :: e in es ==> e !in edges.Values)
      requires |ev| == |es| && forall i :: 0 <= i < |es| ==> es[i].View() == ev[i]
      modifies this`edges, this`dedupedEdges, this`edgeState, edges.Values, es
      ensures ValidNodes()
      ensures ValidEdges() && edgeState == AddEdges(old(edgeState), ev)
      ensures forall x :: x in edges.Values ==> x in old(edges.Values) || x in es
    {
      AddEdgeList(es, ev);
      NodesKept();
    }

    /** The node loop of `Add`. */
    method AddNodeList(ns: seq<CodeNode>, ghost views: seq<NodeView>)
      requires ValidNodes() && NoDuplicates(ns) && (forall n :: n in ns ==> n !in nodes.Values)
      requires |views| == |ns| && forall i :: 0 <= i < |ns| ==> ns[i].View() == views[i]
      modifies this`nodes, this`dedupedNodes, this`nodeState, nodes.Values, ns
      ensures ValidNodes() && nodeState == AddNodes(old(nodeState), views)
      ensures forall x :: x in nodes.Values ==> x in old(nodes.Values) || x in ns
    {
      for i := 0 to |ns|
        invariant ValidNodes() && nodeState == AddNodes(old(nodeState), views[..i])
        invariant forall x :: x in nodes.Values ==> x in old(nodes.Values) || x in ns[..i]
        invariant forall j :: i <= j < |ns| ==> ns[j].View() == views[j]
      {
        NotYetAdded(ns, i);
        AddOneNode(ns[i]);
        assert views[..i + 1][..i] == views[..i];
      }
      assert views[..|ns|] == views && ns[..|ns|] == ns;
    }

    /**
     `Add`: nodes first, then edges, each merged into the buffer. The caller hands its objects
     over; `nv` and `ev` name the values they have at the call.
     */
    method Add(ns: seq<CodeNode>, es: seq<CodeEdge>, ghost nv: seq<NodeView>, ghost ev: seq<EdgeView>)
      requires ValidNodes() && NoDuplicates(ns) && (forall n :: n in ns ==> n !in nodes.Values)
      requires ValidEdges() && NoDuplicates(es) && (forall e :: e in es ==> e !in edges.Values)
      requires |nv| == |ns| && forall i :: 0 <= i < |ns| ==> ns[i].View() == nv[i]
      requires |ev| == |es| && forall i :: 0 <= i < |es| ==> es[i].View() == ev[i]
      modifies this, nodes.Values, edges.Values, ns, es
      ensures ValidNodes() && nodeState == AddNodes(old(nodeState), nv)
      ensures ValidEdges() && edgeState == AddEdges(old(edgeState), ev)
      ensures forall x :: x in nodes.Values ==> x in old(nodes.Values) || x in ns
      ensures forall x :: x in edges.Values ==> x in old(edges.Values) || x in es
    {
      AddNodeList(ns, nv);
      AddEdgesOnly(es, ev);
    }

    /** The dedup maps go; the objects in the snapshot are not touched. */
    method Release(ghost snap: SortedGraph)
      modifies this`nodes, this`edges
      ensures nodes == map[] && edges == map[]
      ensures NodeViews(snap.nodes) == old(NodeViews(snap.nodes)) && EdgeViews(snap.edges) == old(EdgeViews(snap.edges))
      ensures SnapshotShows(snap, nodeState, edgeState) == old(SnapshotShows(snap, nodeState, edgeState))
    {
      ghost var ns, es := NodeViews(snap.nodes), EdgeViews(snap.edges);
      nodes, edges := map[], map[];
      forall i | 0 <= i < |snap.nodes|
        ensures snap.nodes[i].View() == ns[i]
      {
      }
      forall i | 0 <= i < |snap.edges|
        ensures snap.edges[i].View() == es[i]
      {
      }
      assert NodeViews(snap.nodes) == ns && EdgeViews(snap.edges) == es;
    }

    lemma BufferShown(snap: SortedGraph)
      requires ValidNodes() && ValidEdges()
      requires forall n :: n in snap.nodes ==> n in nodes.Values
      requires forall e :: e in snap.edges ==> e in edges.Values
      ensures SnapshotShows(snap, nodeState, edgeState)
    {
    }

    lemma FiguresAgree(ids: set<string>, keys: set<EdgeKey>, snap: SortedGraph)
      requires nodeState.entries.Keys == ids && edgeState.entries.Keys == keys
      requires snap.dedupedNodes == nodeState.deduped && snap.dedupedEdges == edgeState.deduped
      requires |snap.nodes| == |ids|
      requires |snap.edges| == |set k | k in keys && !Dangling(ids, k)| && snap.droppedEdges == |set k | k in keys && Dangling(ids, k)|
      ensures SnapshotFigures(snap) == FiguresOf((nodeState, edgeState))
    {
      assert |nodeState.entries| == |nodeState.entries.Keys|;
      assert (set k | k in keys && !Dangling(ids, k)) == (set k | k in edgeState.entries && !Dangling(ids, k));
      assert (set k | k in keys && Dangling(ids, k)) == (set k | k in edgeState.entries && Dangling(ids, k));
    }

    method CollectNodes() returns (all: seq<CodeNode>)
      requires Keyed()
      ensures NoDuplicates(all) && (forall n :: n in all <==> n in nodes.Values) && |all| == |nodes|
    {
      all := [];
      var keys := nodes.Keys;
      while keys != {}
        invariant keys <= nodes.Keys && |all| + |keys| == |nodes|
        invariant NoDuplicates(all)
        invariant forall n :: n in all <==> n.id in nodes.Keys - keys && nodes[n.id] == n
        decreases keys
      {
        var k :| k in keys;
        all := all + [nodes[k]];
        keys := keys - {k};
      }
    }

    method SortNodes() returns (sorted: seq<CodeNode>)
      requires Keyed()
      ensures NoDuplicates(sorted) && (forall n :: n in sorted <==> n in nodes.Values) && |sorted| == |nodes.Keys|
      ensures forall i, j :: 0 <= i < j < |sorted| ==> Less(sorted[i].id, sorted[j].id)
    {
      var all := CollectNodes();
      sorted := SortById((n: CodeNode) => n.id, all);
      PermutationKeepsDistinct(all, sorted);
      forall i, j | 0 <= i < j < |sorted|
        ensures Less(sorted[i].id, sorted[j].id)
      {
        assert sorted[i] in nodes.Values && sorted[j] in nodes.Values;
      }
    }

    method CollectEdges() returns (kept: seq<CodeEdge>, dropped: nat)
      requires Keyed()
      ensures NoDuplicates(kept) && |kept| + dropped == |edges|
      ensures forall e :: e in kept <==> e in edges.Values && e.sourceId in nodes && e.targetId in nodes
    {
      kept, dropped := [], 0;
      var keys := edges.Keys;
      while keys != {}
        invariant keys <= edges.Keys && |kept| + dropped + |keys| == |edges|
        invariant NoDuplicates(kept)
        invariant forall e :: e in kept <==>
                    e.Key() in edges.Keys - keys && edges[e.Key()] == e && e.sourceId in nodes && e.targetId in nodes
        decreases keys
      {
        var k :| k in keys;
        keys := keys - {k};
        var e := edges[k];
        if e.sourceId !in nodes {
          dropped := dropped + 1;
          continue;
        }
        if e.targetId !in nodes {
          dropped := dropped + 1;
          continue;
        }
        kept := kept + [e];
      }
    }

    method SortEdges() returns (sorted: seq<CodeEdge>, dropped: nat)
      requires Keyed()
      ensures NoDuplicates(sorted)
      ensures forall e :: e in sorted <==> e in edges.Values && e.sourceId in nodes && e.targetId in nodes
      ensures forall i, j :: 0 <= i < j < |sorted| ==> AtMost(sorted[i].id, sorted[j].id)
      ensures |sorted| == |set k | k in edges.Keys && !Dangling(nodes.Keys, k)|
      ensures dropped == |set k | k in edges.Keys && Dangling(nodes.Keys, k)|
    {
      var kept;
      kept, dropped := CollectEdges();
      sorted := SortById((e: CodeEdge) => e.id, kept);
      PermutationKeepsDistinct(kept, sorted);
      EdgeFigures(nodes.Keys, edges, kept, dropped);
    }

    /** The sorted graph, before the maps are released. */
    method Collect() returns (snap: SortedGraph)
      requires ValidNodes() && ValidEdges()
      ensures forall n :: n in snap.nodes <==> n in nodes.Values
      ensures forall e :: e in snap.edges <==> e in edges.Values && e.sourceId in nodes && e.targetId in nodes
      ensures SnapshotSorted(snap) && SnapshotFigures(snap) == FiguresOf((nodeState, edgeState))
      ensures SnapshotShows(snap, nodeState, edgeState)
      ensures UniqueIds(NodeViews(snap.nodes)) && Closed(NodeViews(snap.nodes), EdgeViews(snap.edges))
    {
      hide UniqueIds, Closed, FiguresOf, Dangling, SnapshotShows;
      var sortedNodes := SortNodes();
      var sortedEdges, dropped := SortEdges();
      snap := SortedGraph(sortedNodes, sortedEdges, dedupedNodes, dedupedEdges, dropped);
      AllEndsKept(nodes, edges, sortedNodes, sortedEdges);
      FiguresAgree(nodes.Keys, edges.Keys, snap);
      BufferShown(snap);
    }

    /**
     `Snapshot`: the buffered nodes by ascending ID, the edges whose two ends are buffered by
     ID, and the counts. The maps are released, so the call is single-shot.
     */
    method Snapshot() returns (snap: SortedGraph)
      requires ValidNodes() && ValidEdges()
      modifies this`nodes, this`edges
      ensures forall n :: n in snap.nodes <==> n in old(nodes.Values)
      ensures forall e :: e in snap.edges <==> e in old(edges.Values) && e.sourceId in old(nodes) && e.targetId in old(nodes)
      ensures SnapshotSorted(snap) && SnapshotFigures(snap) == FiguresOf((nodeState, edgeState))
      ensures SnapshotShows(snap, nodeState, edgeState)
      ensures UniqueIds(NodeViews(snap.nodes)) && Closed(NodeViews(snap.nodes), EdgeViews(snap.edges))
      ensures nodes == map[] && edges == map[]
    {
      hide SnapshotSorted, SnapshotShows, FiguresOf, UniqueIds, Closed, NodeViews, EdgeViews, ValidNodes, ValidEdges;
      snap := Collect();
      Release(snap);
    }
  }
}
