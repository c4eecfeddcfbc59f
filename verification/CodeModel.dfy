/**
 Nodes and edges of the code graph (internal/model) and the in-place merge of two
 emissions for the same node or edge (internal/analyzer/merger.go).
 */
module CodeModel {
  import opened Strings
  import opened ConfidenceMerge

  const LAYER_UNKNOWN := "unknown"

  /** The value of a `CodeNode` at one moment. */
  datatype NodeView = NodeView(
    id: string, kind: string, name: string, confidence: int,
    fqn: string, moduleName: string, filePath: string, lineStart: int, lineEnd: int,
    layer: string, source: string, annotations: seq<string>, properties: map<string, Any>)

  datatype EdgeView = EdgeView(
    id: string, kind: string, sourceId: string, targetId: string, confidence: int,
    source: string, properties: map<string, Any>)

  /** The key edges are deduplicated by. */
  datatype EdgeKey = EdgeKey(source: string, target: string, kind: string)

  function NodeId(n: NodeView): string {
    n.id
  }

  function KeyOf(e: EdgeView): EdgeKey {
    EdgeKey(e.sourceId, e.targetId, e.kind)
  }

  // ---- closedness ----

  ghost predicate HasNode(nodes: seq<NodeView>, id: string) {
    exists n :: n in nodes && n.id == id
  }

  /** No edge dangles. */
  ghost predicate Closed(nodes: seq<NodeView>, edges: seq<EdgeView>) {
    forall e :: e in edges ==> HasNode(nodes, e.sourceId) && HasNode(nodes, e.targetId)
  }

  lemma HasNodeGrows(nodes: seq<NodeView>, more: seq<NodeView>, id: string)
    requires HasNode(nodes, id)
    ensures HasNode(nodes + more, id)
  {
    var n :| n in nodes && n.id == id;
    assert n in nodes + more;
  }

  /** Adding nodes, and edges between nodes that are there, leaves no edge dangling. */
  lemma ClosedGrows(nodes: seq<NodeView>, edges: seq<EdgeView>, moreNodes: seq<NodeView>, moreEdges: seq<EdgeView>)
    requires Closed(nodes, edges) && Closed(nodes + moreNodes, moreEdges)
    ensures Closed(nodes + moreNodes, edges + moreEdges)
  {
    forall e | e in edges + moreEdges
      ensures HasNode(nodes + moreNodes, e.sourceId) && HasNode(nodes + moreNodes, e.targetId)
    {
      if e in edges {
        HasNodeGrows(nodes, moreNodes, e.sourceId);
        HasNodeGrows(nodes, moreNodes, e.targetId);
      } else {
        assert e in moreEdges;
      }
    }
  }

  ghost predicate UniqueIds(nodes: seq<NodeView>) {
    forall i, j :: 0 <= i < j < |nodes| ==> nodes[i].id != nodes[j].id
  }

  // ---- merging ----

  ghost function UnionSorted(a: seq<string>, b: seq<string>): seq<string> {
    SortedListing((set x | x in a) + (set x | x in b))
  }

  ghost function FillNode(survivor: NodeView, donor: NodeView): NodeView {
    survivor.(fqn := if survivor.fqn == "" then donor.fqn else survivor.fqn,
              moduleName := if survivor.moduleName == "" then donor.moduleName else survivor.moduleName,
              filePath := if survivor.filePath == "" then donor.filePath else survivor.filePath,
              lineStart := if survivor.lineStart == 0 then donor.lineStart else survivor.lineStart,
              lineEnd := if survivor.lineEnd == 0 then donor.lineEnd else survivor.lineEnd,
              layer := if survivor.layer == LAYER_UNKNOWN then donor.layer else survivor.layer,
              source := if survivor.source == "" then donor.source else survivor.source,
              annotations := UnionSorted(survivor.annotations, donor.annotations),
              properties := donor.properties + survivor.properties)
  }

  /** `mergeNode` as a function of the two values. */
  ghost function MergeNodes(existing: NodeView, incoming: NodeView): NodeView {
    if incoming.confidence > existing.confidence then FillNode(incoming, existing) else FillNode(existing, incoming)
  }

  ghost function FillEdge(survivor: EdgeView, donor: EdgeView): EdgeView {
    survivor.(source := if survivor.source == "" then donor.source else survivor.source,
              properties := donor.properties + survivor.properties)
  }

  ghost function MergeEdges(existing: EdgeView, incoming: EdgeView): EdgeView {
    if incoming.confidence > existing.confidence then FillEdge(incoming, existing) else FillEdge(existing, incoming)
  }

  // ---- the record a merge works on ----

  ghost function NodeSlot(v: NodeView, s: Slot): (content: (bool, Any)) {
    match s
    case Fqn => (v.fqn != "", Text(v.fqn))
    case Module => (v.moduleName != "", Text(v.moduleName))
    case FilePath => (v.filePath != "", Text(v.filePath))
    case LineStart => (v.lineStart != 0, Number(v.lineStart))
    case LineEnd => (v.lineEnd != 0, Number(v.lineEnd))
    case Layer => (v.layer != LAYER_UNKNOWN, Text(v.layer))
    case Source => (v.source != "", Text(v.source))
    case Property(key) => if key in v.properties then (true, v.properties[key]) else (false, Nil)
  }

  const SCALARS := {Fqn, Module, FilePath, LineStart, LineEnd, Layer, Source}

  /** The confidence of a node with its non-empty scalar fields and its properties. */
  ghost function NodeRecord(v: NodeView): (r: Record)
    ensures r.confidence == v.confidence
    ensures forall s :: s in r.slots <==> NodeSlot(v, s).0
    ensures forall s :: s in r.slots ==> r.slots[s] == NodeSlot(v, s).1
  {
    var slots := SCALARS + set key | key in v.properties :: Property(key);
    assert forall s :: NodeSlot(v, s).0 ==> s in slots by {
      forall s | NodeSlot(v, s).0
        ensures s in slots
      {
        if s.Property? {
          assert s == Property(s.key);
        }
      }
    }
    Record(v.confidence, map s | s in slots && NodeSlot(v, s).0 :: NodeSlot(v, s).1)
  }

  ghost function EdgeSlot(v: EdgeView, s: Slot): (content: (bool, Any)) {
    match s
    case Source => (v.source != "", Text(v.source))
    case Property(key) => if key in v.properties then (true, v.properties[key]) else (false, Nil)
    case _ => (false, Nil)
  }

  ghost function EdgeRecord(v: EdgeView): (r: Record)
    ensures r.confidence == v.confidence
    ensures forall s :: s in r.slots <==> EdgeSlot(v, s).0
    ensures forall s :: s in r.slots ==> r.slots[s] == EdgeSlot(v, s).1
  {
    var slots := {Source} + set key | key in v.properties :: Property(key);
    assert forall s :: EdgeSlot(v, s).0 ==> s in slots by {
      forall s | EdgeSlot(v, s).0
        ensures s in slots
      {
        if s.Property? {
          assert s == Property(s.key);
        }
      }
    }
    Record(v.confidence, map s | s in slots && EdgeSlot(v, s).0 :: EdgeSlot(v, s).1)
  }

  ghost function FillRecord(survivor: Record, donor: Record): Record {
    Record(survivor.confidence, donor.slots + survivor.slots)
  }

  lemma SameRecord(r: Record, t: Record)
    requires r.confidence == t.confidence
    requires forall s :: s in r.slots <==> s in t.slots
    requires forall s :: s in r.slots && s in t.slots ==> r.slots[s] == t.slots[s]
    ensures r == t
  {
    assert r.slots == t.slots;
  }

  lemma FillNodeSlots(survivor: NodeView, donor: NodeView)
    ensures forall s :: NodeSlot(FillNode(survivor, donor), s).0 <==> NodeSlot(survivor, s).0 || NodeSlot(donor, s).0
    ensures forall s :: NodeSlot(FillNode(survivor, donor), s).0 ==>
              NodeSlot(FillNode(survivor, donor), s).1 ==
              if NodeSlot(survivor, s).0 then NodeSlot(survivor, s).1 else NodeSlot(donor, s).1
  {
  }

  /** Merging nodes merges their records: the survivor's slots win, the donor fills the rest. */
  lemma MergeNodesMergesRecords(a: NodeView, b: NodeView)
    ensures NodeRecord(MergeNodes(a, b)) == Merge(NodeRecord(a), NodeRecord(b))
  {
    var survivor, donor := if b.confidence > a.confidence then b else a, if b.confidence > a.confidence then a else b;
    FillNodeSlots(survivor, donor);
    SameRecord(NodeRecord(FillNode(survivor, donor)), FillRecord(NodeRecord(survivor), NodeRecord(donor)));
  }

  lemma FillEdgeSlots(survivor: EdgeView, donor: EdgeView)
    ensures forall s :: EdgeSlot(FillEdge(survivor, donor), s).0 <==> EdgeSlot(survivor, s).0 || EdgeSlot(donor, s).0
    ensures forall s :: EdgeSlot(FillEdge(survivor, donor), s).0 ==>
              EdgeSlot(FillEdge(survivor, donor), s).1 ==
              if EdgeSlot(survivor, s).0 then EdgeSlot(survivor, s).1 else EdgeSlot(donor, s).1
  {
  }

  lemma MergeEdgesMergesRecords(a: EdgeView, b: EdgeView)
    ensures EdgeRecord(MergeEdges(a, b)) == Merge(EdgeRecord(a), EdgeRecord(b))
  {
    var survivor, donor := if b.confidence > a.confidence then b else a, if b.confidence > a.confidence then a else b;
    FillEdgeSlots(survivor, donor);
    SameRecord(EdgeRecord(FillEdge(survivor, donor)), FillRecord(EdgeRecord(survivor), EdgeRecord(donor)));
  }

  /** `w` is `v` with empty slots filled and annotations added: what merging in place does to a node it keeps. */
  ghost predicate KeepsNode(v: NodeView, w: NodeView) {
    && w.id == v.id && w.kind == v.kind && w.name == v.name && w.confidence == v.confidence
    && (forall s :: NodeSlot(v, s).0 ==> NodeSlot(w, s) == NodeSlot(v, s))
    && (forall a :: a in v.annotations ==> a in w.annotations)
  }

  ghost predicate KeepsEdge(v: EdgeView, w: EdgeView) {
    && w.id == v.id && KeyOf(w) == KeyOf(v) && w.confidence == v.confidence
    && (forall s :: EdgeSlot(v, s).0 ==> EdgeSlot(w, s) == EdgeSlot(v, s))
  }

  /** However often a node survives a merge, it keeps what it had. */
  lemma SurvivorKeeps(v: NodeView, survivor: NodeView, donor: NodeView)
    requires KeepsNode(v, survivor)
    ensures KeepsNode(v, FillNode(survivor, donor))
  {
    FillNodeSlots(survivor, donor);
  }

  lemma SurvivingEdgeKeeps(v: EdgeView, survivor: EdgeView, donor: EdgeView)
    requires KeepsEdge(v, survivor)
    ensures KeepsEdge(v, FillEdge(survivor, donor))
  {
    FillEdgeSlots(survivor, donor);
  }

  /** A property the survivor has with a nil value keeps it: only missing keys are filled. */
  lemma NilIsNotReplaced(existing: NodeView, incoming: NodeView, key: string)
    requires incoming.confidence <= existing.confidence
    requires key in existing.properties && existing.properties[key] == Nil
    ensures key in MergeNodes(existing, incoming).properties && MergeNodes(existing, incoming).properties[key] == Nil
  {
  }

  // ---- the objects merged in place ----

  class CodeNode {
    const id: string
    const kind: string
    const name: string
    const confidence: int
    var fqn: string
    var moduleName: string
    var filePath: string
    var lineStart: int
    var lineEnd: int
    var layer: string
    var source: string
    var annotations: seq<string>
    var properties: map<string, Any>

    function View(): NodeView
      reads this
    {
      NodeView(id, kind, name, confidence, fqn, moduleName, filePath, lineStart, lineEnd, layer, source, annotations, properties)
    }

    constructor (v: NodeView)
      ensures View() == v
    {
      id, kind, name, confidence := v.id, v.kind, v.name, v.confidence;
      fqn, moduleName, filePath, lineStart, lineEnd := v.fqn, v.moduleName, v.filePath, v.lineStart, v.lineEnd;
      layer, source, annotations, properties := v.layer, v.source, v.annotations, v.properties;
    }
  }

  class CodeEdge {
    const id: string
    const kind: string
    const sourceId: string
    const targetId: string
    const confidence: int
    var source: string
    var properties: map<string, Any>

    function View(): EdgeView
      reads this
    {
      EdgeView(id, kind, sourceId, targetId, confidence, source, properties)
    }

    constructor (v: EdgeView)
      ensures View() == v
    {
      id, kind, sourceId, targetId, confidence := v.id, v.kind, v.sourceId, v.targetId, v.confidence;
      source, properties := v.source, v.properties;
    }

    function Key(): EdgeKey {
      EdgeKey(sourceId, targetId, kind)
    }
  }

  function NodeViews(ns: seq<CodeNode>): (views: seq<NodeView>)
    reads ns
    ensures |views| == |ns| && forall i :: 0 <= i < |ns| ==> views[i] == ns[i].View()
  {
    if ns == [] then [] else NodeViews(ns[..|ns| - 1]) + [ns[|ns| - 1].View()]
  }

  function EdgeViews(es: seq<CodeEdge>): (views: seq<EdgeView>)
    reads es
    ensures |views| == |es| && forall i :: 0 <= i < |es| ==> views[i] == es[i].View()
  {
    if es == [] then [] else EdgeViews(es[..|es| - 1]) + [es[|es| - 1].View()]
  }

  lemma NodeViewMember(ns: seq<CodeNode>, v: NodeView)
    ensures v in NodeViews(ns) <==> exists n :: n in ns && n.View() == v
  {
    if v in NodeViews(ns) {
      var i :| 0 <= i < |ns| && NodeViews(ns)[i] == v;
      assert ns[i] in ns;
    }
    if n :| n in ns && n.View() == v {
      var i :| 0 <= i < |ns| && ns[i] == n;
      assert NodeViews(ns)[i] == v;
    }
  }

  lemma EdgeViewMember(es: seq<CodeEdge>, v: EdgeView)
    ensures v in EdgeViews(es) <==> exists e :: e in es && e.View() == v
  {
    if v in EdgeViews(es) {
      var i :| 0 <= i < |es| && EdgeViews(es)[i] == v;
      assert es[i] in es;
    }
    if e :| e in es && e.View() == v {
      var i :| 0 <= i < |es| && es[i] == e;
      assert EdgeViews(es)[i] == v;
    }
  }

  method SortedUnion(a: seq<string>, b: seq<string>) returns (out: seq<string>)
    ensures out == UnionSorted(a, b)
    ensures StrictlySorted(out) && forall x :: x in out <==> x in a || x in b
  {
    var seen := {};
    for i := 0 to |a|
      invariant forall x :: x in seen <==> x in a[..i]
    {
      seen := seen + {a[i]};
    }
    assert a[..|a|] == a;
    for i := 0 to |b|
      invariant forall x :: x in seen <==> x in a || x in b[..i]
    {
      seen := seen + {b[i]};
    }
    assert b[..|b|] == b;
    out := SortedKeys(seen);
    assert seen == (set x | x in a) + (set x | x in b);
    SortedListingIsUnique(out, SortedListing(seen));
  }

  method FillNames(survivor: CodeNode, donor: CodeNode)
    modifies survivor`fqn, survivor`moduleName, survivor`filePath, survivor`source
    ensures survivor.fqn == old(if survivor.fqn == "" then donor.fqn else survivor.fqn)
    ensures survivor.moduleName == old(if survivor.moduleName == "" then donor.moduleName else survivor.moduleName)
    ensures survivor.filePath == old(if survivor.filePath == "" then donor.filePath else survivor.filePath)
    ensures survivor.source == old(if survivor.source == "" then donor.source else survivor.source)
  {
    if survivor.fqn == "" && donor.fqn != "" {
      survivor.fqn := donor.fqn;
    }
    if survivor.moduleName == "" && donor.moduleName != "" {
      survivor.moduleName := donor.moduleName;
    }
    if survivor.filePath == "" && donor.filePath != "" {
      survivor.filePath := donor.filePath;
    }
    if survivor.source == "" && donor.source != "" {
      survivor.source := donor.source;
    }
  }

  method FillPlace(survivor: CodeNode, donor: CodeNode)
    modifies survivor`lineStart, survivor`lineEnd, survivor`layer
    ensures survivor.lineStart == old(if survivor.lineStart == 0 then donor.lineStart else survivor.lineStart)
    ensures survivor.lineEnd == old(if survivor.lineEnd == 0 then donor.lineEnd else survivor.lineEnd)
    ensures survivor.layer == old(if survivor.layer == LAYER_UNKNOWN then donor.layer else survivor.layer)
  {
    if survivor.lineStart == 0 && donor.lineStart != 0 {
      survivor.lineStart := donor.lineStart;
    }
    if survivor.lineEnd == 0 && donor.lineEnd != 0 {
      survivor.lineEnd := donor.lineEnd;
    }
    if survivor.layer == LAYER_UNKNOWN && donor.layer != LAYER_UNKNOWN {
      survivor.layer := donor.layer;
    }
  }

  /** The property loop: each donor key is copied unless the survivor has it. */
  method FillMissing(own: map<string, Any>, donor: map<string, Any>) returns (filled: map<string, Any>)
    ensures filled == donor + own
  {
    filled := own;
    var keys := donor.Keys;
    while keys != {}
      invariant keys <= donor.Keys
      invariant filled == (map k | k in donor.Keys - keys :: donor[k]) + own
      decreases keys
    {
      var k :| k in keys;
      if k !in filled {
        filled := filled[k := donor[k]];
      }
      keys := keys - {k};
    }
  }

  method FillGaps(survivor: CodeNode, donor: CodeNode)
    modifies survivor
    ensures survivor.View() == FillNode(old(survivor.View()), old(donor.View()))
  {
    FillNames(survivor, donor);
    FillPlace(survivor, donor);
    var filled := FillMissing(survivor.properties, donor.properties);
    survivor.properties := filled;
    var annotations := SortedUnion(survivor.annotations, donor.annotations);
    survivor.annotations := annotations;
  }

  /** `mergeNode`: the more confident node survives and is filled in place; the donor keeps its value. */
  method MergeNode(existing: CodeNode?, incoming: CodeNode?) returns (survivor: CodeNode?)
    modifies existing, incoming
    ensures existing == null ==> survivor == incoming
    ensures existing != null && incoming == null ==> survivor == existing
    ensures existing == null && incoming != null ==> unchanged(incoming)
    ensures existing != null && incoming == null ==> unchanged(existing)
    ensures existing != null && incoming != null ==>
              && survivor == (if incoming.confidence > existing.confidence then incoming else existing)
              && survivor.View() == MergeNodes(old(existing.View()), old(incoming.View()))
              && (existing != survivor ==> unchanged(existing))
              && (incoming != survivor ==> unchanged(incoming))
  {
    if existing == null {
      return incoming;
    }
    if incoming == null {
      return existing;
    }
    var donor := incoming;
    survivor := existing;
    if incoming.confidence > existing.confidence {
      survivor, donor := incoming, existing;
    }
    FillGaps(survivor, donor);
  }

  /** `mergeEdge`, in the same way. */
  method MergeEdge(existing: CodeEdge?, incoming: CodeEdge?) returns (survivor: CodeEdge?)
    modifies existing, incoming
    ensures existing == null ==> survivor == incoming
    ensures existing != null && incoming == null ==> survivor == existing
    ensures existing == null && incoming != null ==> unchanged(incoming)
    ensures existing != null && incoming == null ==> unchanged(existing)
    ensures existing != null && incoming != null ==>
              && survivor == (if incoming.confidence > existing.confidence then incoming else existing)
              && survivor.View() == MergeEdges(old(existing.View()), old(incoming.View()))
              && (existing != survivor ==> unchanged(existing))
              && (incoming != survivor ==> unchanged(incoming))
  {
    if existing == null {
      return incoming;
    }
    if incoming == null {
      return existing;
    }
    var donor := incoming;
    survivor := existing;
    if incoming.confidence > existing.confidence {
      survivor, donor := incoming, existing;
    }
    if survivor.source == "" && donor.source != "" {
      survivor.source := donor.source;
    }
    var filled := FillMissing(survivor.properties, donor.properties);
    survivor.properties := filled;
  }
}
