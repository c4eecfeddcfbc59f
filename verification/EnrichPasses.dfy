/**
 The passes of `Enrich` one after the other (internal/analyzer/enrich.go): linkers, language
 enricher, service detection. Each hands its nodes and edges to the next.
 */
module EnrichPasses {
  import opened BuildFiles
  import opened CodeModel
  import opened ConfidenceMerge
  import opened GraphBuilder
  import opened Linker
  import opened Sequences
  import opened Strings
  import Containment = ModuleContainmentLinker
  import Entities = EntityLinker
  import Passes = LinkerPasses
  import Schedules = EnricherSchedules
  import Files = LanguageEnricher
  import Services = ServiceDetector
  import Topics = TopicLinker

  /** The values that flow through the passes on a snapshot (`nodes`, `edges`). */
  ghost predicate Flow(nodes: seq<NodeView>, edges: seq<EdgeView>, lower: Entities.Lower, queries: seq<EdgeView>, linked: Result,
                       job: Schedules.Job, hinted: seq<NodeView>, out: seq<seq<EdgeView>>,
                       l: Services.Layout, stamped: seq<NodeView>, services: seq<NodeView>)
  {
    && Passes.IsLinked(lower, nodes, edges, queries, linked)
    && Files.Disjoint(job.tasks, |linked.nodes|) && Schedules.Enriched(job, linked.nodes, hinted, out)
    && Services.AllStamped(l, hinted, stamped)
    && forall d :: d in l.names ==> Services.HasService(services, l, d)
  }

  ghost predicate SameIds(a: seq<NodeView>, b: seq<NodeView>) {
    |a| == |b| && forall k :: 0 <= k < |a| ==> a[k].id == b[k].id
  }

  /** Hints change no node's ID. */
  lemma HintsKeepIds(job: Schedules.Job, init: seq<NodeView>, nodes: seq<NodeView>, out: seq<seq<EdgeView>>)
    requires Files.Disjoint(job.tasks, |init|) && Schedules.Enriched(job, init, nodes, out)
    ensures SameIds(init, nodes)
  {
    forall k | 0 <= k < |init|
      ensures nodes[k].id == init[k].id
    {
      if i :| 0 <= i < |job.tasks| && k in job.tasks[i].members {
        var q :| 0 <= q < |job.tasks[i].members| && job.tasks[i].members[q] == k;
        assert Schedules.MembersAt(job, init, nodes, i, |job.tasks[i].members|);
      } else {
        assert !Schedules.InTask(job, k);
      }
    }
  }

  lemma SameIdsSameNodes(a: seq<NodeView>, b: seq<NodeView>, id: string)
    requires SameIds(a, b) && HasNode(a, id)
    ensures HasNode(b, id)
  {
    var n :| n in a && n.id == id;
    var k :| 0 <= k < |a| && a[k] == n;
    assert b[k] in b;
  }

  lemma SameIdsStayClosed(a: seq<NodeView>, b: seq<NodeView>, edges: seq<EdgeView>)
    requires SameIds(a, b) && Closed(a, edges)
    ensures Closed(b, edges)
  {
    forall e | e in edges
      ensures HasNode(b, e.sourceId) && HasNode(b, e.targetId)
    {
      SameIdsSameNodes(a, b, e.sourceId);
      SameIdsSameNodes(a, b, e.targetId);
    }
  }

  /** What is loaded into the store after all passes. */
  ghost function FinalEdges(linked: Result, out: seq<seq<EdgeView>>, l: Services.Layout, hinted: seq<NodeView>): seq<EdgeView> {
    linked.edges + Schedules.Flatten(out) + Services.EdgesOf(l, hinted)
  }

  /**
   From a closed snapshot, the graph that is loaded has a dangling edge exactly when a language
   extractor emitted one: neither the linkers nor service detection can leave one.
   */
  lemma OnlyExtractorEdgesCanDangle(nodes: seq<NodeView>, edges: seq<EdgeView>, lower: Entities.Lower, queries: seq<EdgeView>, linked: Result,
                                    job: Schedules.Job, hinted: seq<NodeView>, out: seq<seq<EdgeView>>,
                                    l: Services.Layout, stamped: seq<NodeView>, services: seq<NodeView>)
    requires Closed(nodes, edges) && Flow(nodes, edges, lower, queries, linked, job, hinted, out, l, stamped, services)
    ensures Closed(stamped + services, FinalEdges(linked, out, l, hinted)) <==> Closed(stamped + services, Schedules.Flatten(out))
  {
    Passes.LinkingStaysClosed(lower, nodes, edges, queries, linked);
    HintsKeepIds(job, linked.nodes, hinted, out);
    SameIdsStayClosed(linked.nodes, hinted, linked.edges);
    Services.DetectStaysClosed(l, hinted, stamped, services, linked.edges);
    hide Passes.IsLinked, Schedules.Enriched, Services.AllStamped, Services.EdgesOf, HasNode;
    assert forall e :: e in FinalEdges(linked, out, l, hinted) <==>
        e in linked.edges + Services.EdgesOf(l, hinted) || e in Schedules.Flatten(out);
  }

  // ---- the passes run one after the other ----

  /** What `Detect` returns is what the flow needs of it. */
  lemma DetectedFlows(l: Services.Layout, nodes: seq<CodeNode>, views: seq<NodeView>, services: seq<CodeNode>, edges: seq<CodeEdge>)
    requires |nodes| == |views| && Services.Detected(l, nodes, views, services, edges)
    ensures Services.AllStamped(l, views, NodeViews(nodes))
    ensures forall d :: d in l.names ==> Services.HasService(NodeViews(services), l, d)
    ensures EdgeViews(edges) == Services.EdgesOf(l, views)
  {
    hide Services.Stamped, Services.EdgesOf, Services.HasService;
    var dirs :| Services.Lists(dirs, l) && Services.Shows(services, Services.Services(l, dirs, views));
    Services.ServicesCoverModules(l, dirs, views);
    assert NodeViews(services) == Services.Services(l, dirs, views);
  }

  // ---- what each pass contributes, field by field ----

  ghost predicate BufferedNodes(nodeState: NodeBuffer, ns: seq<NodeView>) {
    forall n :: n in ns <==> exists id :: id in nodeState.entries && nodeState.entries[id] == n
  }

  /** The buffered edges both ends of which are buffered. */
  ghost predicate BufferedEdges(ids: set<string>, edgeState: EdgeBuffer, es: seq<EdgeView>) {
    forall e :: e in es <==> e.sourceId in ids && e.targetId in ids && exists k :: k in edgeState.entries && edgeState.entries[k] == e
  }

  ghost predicate IdsAscend(ns: seq<NodeView>) {
    forall i, j :: 0 <= i < j < |ns| ==> Less(ns[i].id, ns[j].id)
  }

  ghost predicate KeysDiffer(es: seq<EdgeView>) {
    forall i, j :: 0 <= i < j < |es| ==> KeyOf(es[i]) != KeyOf(es[j])
  }

  /** Every buffered node and every buffered edge that does not dangle, each once, nodes by ID. */
  ghost predicate FromBuffer(nodeState: NodeBuffer, edgeState: EdgeBuffer, ns: seq<NodeView>, es: seq<EdgeView>) {
    BufferedNodes(nodeState, ns) && IdsAscend(ns) && BufferedEdges(nodeState.entries.Keys, edgeState, es) && KeysDiffer(es)
  }

  /** The edge of a linked triple. */
  ghost predicate TopicEdge(ns: seq<NodeView>, es: seq<EdgeView>, e: EdgeView) {
    exists l :: Topics.Linked(ns, es, l) && e == EdgeView("topic-link:" + l.producer + "->" + l.consumer, "calls", l.producer, l.consumer, 0,
                                                          "linker:topic", map["inferred" := Flag(true), "topic" := Text(l.topic)])
  }

  ghost predicate QueriesEdge(lower: Entities.Lower, ns: seq<NodeView>, es: seq<EdgeView>, e: EdgeView) {
    exists r, x :: Entities.QueriesFor(lower, ns, JoinedKeys(es, "queries"), r, x, e)
  }

  ghost predicate ContainsEdge(ns: seq<NodeView>, es: seq<EdgeView>, e: EdgeView) {
    exists p :: Containment.Contains(ns, JoinedKeys(es, "contains"), p, e)
  }

  ghost predicate CreatedNode(ns: seq<NodeView>, n: NodeView) {
    exists m :: Containment.Creates(ns, m, n)
  }

  /** Each linker's part: every node or edge it stands for, once. */
  ghost predicate FromLinkers(lower: Entities.Lower, ns: seq<NodeView>, es: seq<EdgeView>, p: Passes.Parts) {
    && (forall n :: n in p.modules <==> CreatedNode(ns, n)) && NoDuplicates(p.modules)
    && (forall e :: e in p.topics <==> TopicEdge(ns, es, e)) && NoDuplicates(p.topics)
    && (forall e :: e in p.sortedQueries <==> QueriesEdge(lower, ns, es, e)) && NoDuplicates(p.sortedQueries)
    && (forall e :: e in p.contains <==> ContainsEdge(ns, es, e)) && NoDuplicates(p.contains)
  }

  /** Each task's hints and edges; nodes of no task are as they were. */
  ghost predicate FromExtractors(supported: string -> bool, extract: Schedules.Extractor, tasks: seq<Files.Task>, init: seq<NodeView>,
                                 hinted: seq<NodeView>, slots: seq<seq<EdgeView>>, extracted: seq<EdgeView>)
  {
    && |hinted| == |init| && |slots| == |tasks| && Files.TaskList(init, supported, tasks) && Files.Disjoint(tasks, |init|)
    && (forall i :: 0 <= i < |tasks| ==> Schedules.TaskDone(extract, tasks[i], init, hinted, slots[i]))
    && (forall k: nat :: k < |init| && (forall t :: t in tasks ==> k !in t.members) ==> hinted[k] == init[k])
    && Concatenates(extracted, slots)
  }

  /** The modules found, or the root alone, with their names. */
  ghost predicate LayoutOf(found: map<string, ModuleInfo>, read: ModuleInfo -> string, projectDir: string, l: Services.Layout) {
    && l.modules == (if found == map[] then map["" := ModuleInfo("", "unknown", "")] else found)
    && l.names.Keys == l.modules.Keys
    && forall d :: d in l.names ==> l.names[d] == Services.ServiceName(read, projectDir, d, l.modules[d])
  }

  ghost predicate FromServices(l: Services.Layout, hinted: seq<NodeView>, stamped: seq<NodeView>, services: seq<NodeView>, edges: seq<EdgeView>) {
    && |stamped| == |hinted| && (forall i :: 0 <= i < |hinted| ==> Services.StampedWith(l, hinted[i], stamped[i]))
    && Services.ServicesGiven(l, hinted, services) && Services.EdgesGiven(l, hinted, edges)
  }

  lemma SameOnes<T>(s: seq<T>, t: seq<T>)
    requires multiset(s) == multiset(t) && NoDuplicates(s)
    ensures NoDuplicates(t) && forall x :: x in s <==> x in t
  {
    PermutationKeepsDistinct(s, t);
    SameMembers(s, t);
  }

  lemma QueriesDiffer(lower: Entities.Lower, ns: seq<NodeView>, es: seq<EdgeView>, queries: seq<EdgeView>)
    requires UniqueIds(ns) && Entities.IsResult(lower, ns, es, queries)
    ensures NoDuplicates(queries)
  {
    Entities.OneEdgePerRepository(lower, ns, es, queries);
    hide Entities.IsResult;
    forall i, j | 0 <= i < j < |queries|
      ensures queries[i] != queries[j]
    {
      LessIrreflexive(queries[i].sourceId);
    }
  }

  lemma ModulesAreExact(ns: seq<NodeView>, modules: seq<NodeView>)
    requires multiset(modules) == multiset(Containment.NewNodes(ns))
    ensures (forall n :: n in modules <==> CreatedNode(ns, n)) && NoDuplicates(modules)
  {
    Containment.NewNodesAreExact(ns);
    hide Containment.NewNodes, Containment.Creates;
    SameOnes(Containment.NewNodes(ns), modules);
  }

  lemma TopicsAreExact(ns: seq<NodeView>, es: seq<EdgeView>, topics: seq<EdgeView>)
    requires multiset(topics) == multiset(Topics.TopicEdges(ns, es))
    ensures (forall e :: e in topics <==> TopicEdge(ns, es, e)) && NoDuplicates(topics)
  {
    hide Topics.TopicEdges, Topics.Linked;
    Topics.TopicEdgesDiffer(ns, es);
    SameOnes(Topics.TopicEdges(ns, es), topics);
    forall e
      ensures e in topics <==> TopicEdge(ns, es, e)
    {
      Topics.TopicEdgesAreExact(ns, es, e);
    }
  }

  lemma QueriesAreExact(lower: Entities.Lower, ns: seq<NodeView>, es: seq<EdgeView>, queries: seq<EdgeView>, sorted: seq<EdgeView>)
    requires UniqueIds(ns) && Entities.IsResult(lower, ns, es, queries) && multiset(sorted) == multiset(queries)
    ensures (forall e :: e in sorted <==> QueriesEdge(lower, ns, es, e)) && NoDuplicates(sorted)
  {
    hide UniqueIds, Entities.IsResult, Entities.QueriesFor;
    QueriesDiffer(lower, ns, es, queries);
    SameOnes(queries, sorted);
    forall e
      ensures e in sorted <==> QueriesEdge(lower, ns, es, e)
    {
      Entities.QueriesAreExact(lower, ns, es, queries, e);
    }
  }

  lemma ContainmentIsExact(ns: seq<NodeView>, es: seq<EdgeView>, contains: seq<EdgeView>)
    requires multiset(contains) == multiset(Containment.NewEdges(ns, es))
    ensures (forall e :: e in contains <==> ContainsEdge(ns, es, e)) && NoDuplicates(contains)
  {
    Containment.NewEdgesAreExact(ns, es);
    hide Containment.NewEdges, Containment.Contains;
    SameOnes(Containment.NewEdges(ns, es), contains);
  }

  /** What the linkers append, part by part. */
  lemma PartsAreExact(lower: Entities.Lower, ns: seq<NodeView>, es: seq<EdgeView>, p: Passes.Parts, r: Result)
    requires UniqueIds(ns) && Passes.AppendedInOrder(lower, ns, es, p, r)
    ensures FromLinkers(lower, ns, es, p)
  {
    hide UniqueIds, Entities.IsResult, Topics.TopicEdges, Containment.NewNodes, Containment.NewEdges, TopicEdge, QueriesEdge, ContainsEdge,
      CreatedNode, NoDuplicates;
    ModulesAreExact(ns, p.modules);
    TopicsAreExact(ns, es, p.topics);
    QueriesAreExact(lower, ns, es, p.queries, p.sortedQueries);
    ContainmentIsExact(ns, es, p.contains);
  }

  lemma OrderGivesLinked(lower: Entities.Lower, ns: seq<NodeView>, es: seq<EdgeView>, p: Passes.Parts, r: Result)
    requires Passes.AppendedInOrder(lower, ns, es, p, r)
    ensures Passes.IsLinked(lower, ns, es, p.queries, r)
  {
    hide Entities.IsResult, Topics.TopicEdges, Containment.NewNodes, Containment.NewEdges;
    Passes.Assembled(lower, ns, es, p.queries, p.topics, p.sortedQueries, Result(p.modules, p.contains));
  }

  /** Objects with the given values, for the pass that stamps nodes in place. */
  method NodesOf(views: seq<NodeView>) returns (nodes: seq<CodeNode>)
    ensures fresh(nodes) && Services.Shows(nodes, views)
  {
    nodes := [];
    for i := 0 to |views|
      invariant fresh(nodes) && Services.Shows(nodes, views[..i])
    {
      var n := new CodeNode(views[i]);
      nodes := nodes + [n];
    }
    assert views[..|views|] == views;
  }

  lemma EnrichedIsExtracted(job: Schedules.Job, supported: string -> bool, init: seq<NodeView>, hinted: seq<NodeView>, slots: seq<seq<EdgeView>>,
                            extracted: seq<EdgeView>)
    requires Files.Disjoint(job.tasks, |init|) && Schedules.Enriched(job, init, hinted, slots)
    requires job.tasks == Files.Tasks(init, supported) && Concatenates(extracted, slots)
    ensures FromExtractors(supported, job.extract, job.tasks, init, hinted, slots, extracted)
  {
    hide Concatenates, Files.Tasks, Files.TaskList, Schedules.TaskDone;
    Files.TasksAreExact(init, supported);
    forall i | 0 <= i < |job.tasks|
      ensures Schedules.TaskDone(job.extract, job.tasks[i], init, hinted, slots[i])
    {
      Schedules.EnrichedMeans(job, init, hinted, slots, i);
    }
    forall k: nat | k < |init| && forall t :: t in job.tasks ==> k !in t.members
      ensures hinted[k] == init[k]
    {
      assert !Schedules.InTask(job, k);
    }
  }

  /** The passes on values: what the linkers and the enricher leave, and which edges the extractors gave. */
  method LinkAndHint(ns: seq<NodeView>, es: seq<EdgeView>, lower: Entities.Lower, supported: string -> bool,
                     extract: Schedules.Extractor, capacity: nat)
    returns (hinted: seq<NodeView>, edges: seq<EdgeView>, extracted: seq<EdgeView>,
             ghost p: Passes.Parts, ghost linked: Result, ghost job: Schedules.Job)
    requires capacity > 0 && UniqueIds(ns)
    ensures Passes.IsLinked(lower, ns, es, p.queries, linked) && FromLinkers(lower, ns, es, p)
    ensures linked == Result(ns + p.modules, es + p.topics + p.sortedQueries + p.contains)
    ensures Files.Disjoint(job.tasks, |linked.nodes|)
    ensures Schedules.Enriched(job, linked.nodes, hinted, Schedules.Slots(job, linked.nodes))
    ensures extracted == Schedules.Flatten(Schedules.Slots(job, linked.nodes)) && edges == linked.edges + extracted
    ensures FromExtractors(supported, extract, job.tasks, linked.nodes, hinted, Schedules.Slots(job, linked.nodes), extracted)
  {
    hide Schedules.Enriched, Schedules.Slots, Files.Disjoint, Passes.IsLinked, FromLinkers, FromExtractors, UniqueIds, Entities.IsResult;
    var r := Passes.RunLinkers(lower, ns, es);
    linked := r;
    p :| Passes.AppendedInOrder(lower, ns, es, p, r);
    OrderGivesLinked(lower, ns, es, p, r);
    PartsAreExact(lower, ns, es, p, r);
    hinted, edges := Schedules.Enrich(r.nodes, r.edges, supported, extract, capacity);
    job := Schedules.Job(Files.Tasks(r.nodes, supported), extract, capacity);
    extracted := edges[|r.edges|..];
    EnrichedIsExtracted(job, supported, r.nodes, hinted, Schedules.Slots(job, r.nodes), extracted);
  }

  lemma ViewsConcat(a: seq<CodeNode>, b: seq<CodeNode>)
    ensures NodeViews(a + b) == NodeViews(a) + NodeViews(b)
  {
  }

  /** Service detection on nodes with the given values. */
  method DetectServices(hinted: seq<NodeView>, found: map<string, ModuleInfo>, read: ModuleInfo -> string, projectDir: string)
    returns (stamped: seq<CodeNode>, services: seq<CodeNode>, edges: seq<EdgeView>)
    ensures var l := Services.LayoutFor(read, projectDir, Services.WithDefault(found));
            && Services.AllStamped(l, hinted, NodeViews(stamped))
            && (forall d :: d in l.names ==> Services.HasService(NodeViews(services), l, d))
            && edges == Services.EdgesOf(l, hinted)
            && LayoutOf(found, read, projectDir, l) && FromServices(l, hinted, NodeViews(stamped), NodeViews(services), edges)
  {
    hide Services.StampedWith, Services.ServicesGiven, Services.EdgesGiven, Services.Detected, Services.ServiceName;
    stamped := NodesOf(hinted);
    var created;
    services, created := Services.Detect(found, read, projectDir, stamped, hinted);
    DetectedFlows(Services.LayoutFor(read, projectDir, Services.WithDefault(found)), stamped, hinted, services, created);
    edges := EdgeViews(created);
  }

  lemma SnapshotNodes(nodes: map<string, CodeNode>, ns: NodeBuffer, ss: seq<CodeNode>)
    requires ns.entries.Keys == nodes.Keys && forall id :: id in nodes ==> nodes[id].id == id
    requires forall n :: n in ss <==> n in nodes.Values
    requires forall n :: n in ss ==> n.id in ns.entries && n.View() == ns.entries[n.id]
    ensures BufferedNodes(ns, NodeViews(ss))
  {
    forall v
      ensures v in NodeViews(ss) <==> exists id :: id in ns.entries && ns.entries[id] == v
    {
      NodeViewMember(ss, v);
      hide NodeViews;
      if id :| id in ns.entries && ns.entries[id] == v {
        assert nodes[id] in nodes.Values && nodes[id] in ss;
      }
    }
  }

  lemma SnapshotEdges(ids: set<string>, edges: map<EdgeKey, CodeEdge>, es: EdgeBuffer, ss: seq<CodeEdge>)
    requires es.entries.Keys == edges.Keys && forall k :: k in edges ==> edges[k].Key() == k && KeyOf(es.entries[k]) == k
    requires forall e :: e in ss <==> e in edges.Values && e.sourceId in ids && e.targetId in ids
    requires forall e :: e in ss ==> e.Key() in es.entries && e.View() == es.entries[e.Key()]
    ensures BufferedEdges(ids, es, EdgeViews(ss))
  {
    forall v
      ensures v in EdgeViews(ss) <==> v.sourceId in ids && v.targetId in ids && exists k :: k in es.entries && es.entries[k] == v
    {
      EdgeViewMember(ss, v);
      hide EdgeViews;
      if k :| k in es.entries && es.entries[k] == v && v.sourceId in ids && v.targetId in ids {
        var e := edges[k];
        assert e in edges.Values && e.Key() == k && e.sourceId == v.sourceId && e.targetId == v.targetId;
        assert e in ss;
      }
    }
  }

  lemma SnapshotOrder(snap: SortedGraph)
    requires SnapshotSorted(snap)
    ensures IdsAscend(NodeViews(snap.nodes)) && KeysDiffer(EdgeViews(snap.edges))
  {
    hide Less;
    assert forall i :: 0 <= i < |snap.nodes| ==> NodeViews(snap.nodes)[i].id == snap.nodes[i].id;
    assert forall i :: 0 <= i < |snap.edges| ==> KeyOf(EdgeViews(snap.edges)[i]) == snap.edges[i].Key();
  }

  /** The snapshot holds what was buffered, without the edges that dangle. */
  lemma SnapshotIsBuffer(nodes: map<string, CodeNode>, edges: map<EdgeKey, CodeEdge>, ns: NodeBuffer, es: EdgeBuffer, snap: SortedGraph)
    requires ns.entries.Keys == nodes.Keys && es.entries.Keys == edges.Keys
    requires (forall id :: id in nodes ==> nodes[id].id == id) && forall k :: k in edges ==> edges[k].Key() == k && KeyOf(es.entries[k]) == k
    requires forall n :: n in snap.nodes <==> n in nodes.Values
    requires forall e :: e in snap.edges <==> e in edges.Values && e.sourceId in nodes && e.targetId in nodes
    requires SnapshotSorted(snap) && SnapshotShows(snap, ns, es)
    ensures FromBuffer(ns, es, NodeViews(snap.nodes), EdgeViews(snap.edges))
  {
    hide NodeViews, EdgeViews, Less, BufferedNodes, BufferedEdges, IdsAscend, KeysDiffer;
    SnapshotOrder(snap);
    SnapshotNodes(nodes, ns, snap.nodes);
    SnapshotEdges(nodes.Keys, edges, es, snap.edges);
  }

  lemma StampsKeepIds(l: Services.Layout, init: seq<NodeView>, hinted: seq<NodeView>, stamped: seq<NodeView>)
    requires SameIds(init, hinted) && Services.AllStamped(l, hinted, stamped)
    ensures SameIds(init, stamped)
  {
  }

  /** What was joined into the graph, part by part. */
  datatype Origins = Origins(ns: seq<NodeView>, es: seq<EdgeView>, parts: Passes.Parts, tasks: seq<Files.Task>, hinted: seq<NodeView>,
                             slots: seq<seq<EdgeView>>, layout: Services.Layout, stamped: seq<NodeView>, services: seq<NodeView>,
                             contained: seq<EdgeView>)

  /** The loaded graph is exactly these parts, each described on its own. */
  ghost predicate Loaded(nodeState: NodeBuffer, edgeState: EdgeBuffer, lower: Entities.Lower, supported: string -> bool, extract: Schedules.Extractor,
                         found: map<string, ModuleInfo>, read: ModuleInfo -> string, projectDir: string,
                         nodes: seq<NodeView>, edges: seq<EdgeView>, extracted: seq<EdgeView>, o: Origins)
  {
    && edges == o.es + o.parts.topics + o.parts.sortedQueries + o.parts.contains + extracted + o.contained
    && nodes == o.stamped + o.services && SameIds(o.ns + o.parts.modules, o.stamped)
    && FromBuffer(nodeState, edgeState, o.ns, o.es)
    && FromLinkers(lower, o.ns, o.es, o.parts)
    && FromExtractors(supported, extract, o.tasks, o.ns + o.parts.modules, o.hinted, o.slots, extracted)
    && LayoutOf(found, read, projectDir, o.layout) && FromServices(o.layout, o.hinted, o.stamped, o.services, o.contained)
  }

  /** The edge goes from some node's home to that node. */
  ghost predicate HomeEdge(l: Services.Layout, hinted: seq<NodeView>, e: EdgeView) {
    exists i :: 0 <= i < |hinted| && Services.ContainedBy(l, hinted[i], e)
  }

  lemma OneHomeEdge(l: Services.Layout, v: NodeView, e: EdgeView, d: EdgeView)
    requires Services.ContainedBy(l, v, e) && Services.ContainedBy(l, v, d)
    ensures e == d
  {
    forall a, b | Services.IsHome(l.names.Keys, v.filePath, a) && Services.IsHome(l.names.Keys, v.filePath, b)
      ensures a == b
    {
      Services.HomeIsUnique(l.names.Keys, v.filePath, a, b);
    }
  }

  lemma HomeEdges(l: Services.Layout, hinted: seq<NodeView>, edges: seq<EdgeView>, e: EdgeView)
    requires Services.EdgesGiven(l, hinted, edges)
    ensures e in edges <==> HomeEdge(l, hinted, e)
  {
    var at :| Services.EdgesAt(l, hinted, edges, at);
    if e in edges {
      var k :| 0 <= k < |edges| && edges[k] == e;
      assert Services.ContainedBy(l, hinted[at[k]], e);
    }
    if i: nat :| i < |hinted| && Services.ContainedBy(l, hinted[i], e) {
      assert Services.Homed(l, hinted[i]);
      var k :| 0 <= k < |at| && at[k] == i;
      OneHomeEdge(l, hinted[i], e, edges[k]);
    }
  }

  /** Which edges are loaded: those buffered without dangling, those of each linker, those of the extractors, those from homes. */
  lemma LoadedEdgesAre(nodeState: NodeBuffer, edgeState: EdgeBuffer, lower: Entities.Lower, supported: string -> bool,
                       extract: Schedules.Extractor, found: map<string, ModuleInfo>, read: ModuleInfo -> string, projectDir: string,
                       nodes: seq<NodeView>, edges: seq<EdgeView>, extracted: seq<EdgeView>, o: Origins, e: EdgeView)
    requires Loaded(nodeState, edgeState, lower, supported, extract, found, read, projectDir, nodes, edges, extracted, o)
    ensures e in edges <==>
            || (e.sourceId in nodeState.entries && e.targetId in nodeState.entries && exists k :: k in edgeState.entries && edgeState.entries[k] == e)
            || TopicEdge(o.ns, o.es, e) || QueriesEdge(lower, o.ns, o.es, e) || ContainsEdge(o.ns, o.es, e)
            || (exists i :: 0 <= i < |o.slots| && e in o.slots[i])
            || HomeEdge(o.layout, o.hinted, e)
  {
    hide TopicEdge, QueriesEdge, ContainsEdge, CreatedNode, HomeEdge, LayoutOf, SameIds, Services.EdgesGiven, Services.ServicesGiven,
      Services.StampedWith, Files.TaskList, Schedules.TaskDone, NoDuplicates, Concatenates, IdsAscend, KeysDiffer;
    HomeEdges(o.layout, o.hinted, o.contained, e);
    ConcatenatedMembers(extracted, o.slots, e);
  }

  lemma HintsKeepPlace(supported: string -> bool, extract: Schedules.Extractor, tasks: seq<Files.Task>, init: seq<NodeView>,
                       hinted: seq<NodeView>, slots: seq<seq<EdgeView>>, extracted: seq<EdgeView>, k: nat)
    requires FromExtractors(supported, extract, tasks, init, hinted, slots, extracted) && k < |init|
    ensures hinted[k].(properties := init[k].properties) == init[k]
  {
    hide Concatenates, Files.TaskList, Schedules.Emits;
    if i, q :| 0 <= i < |tasks| && 0 <= q < |tasks[i].members| && tasks[i].members[q] == k {
      assert Schedules.TaskDone(extract, tasks[i], init, hinted, slots[i]);
    } else {
      forall t | t in tasks
        ensures k !in t.members
      {
        var i :| 0 <= i < |tasks| && tasks[i] == t;
      }
    }
  }

  lemma HomeIsNamed(l: Services.Layout, v: NodeView, d: string)
    requires Services.IsHome(l.names.Keys, v.filePath, d)
    ensures d in l.names && Services.HasLabel(l, v, l.names[d])
  {
  }

  /** Every snapshot or module node is loaded with its own fields and the label of its home. */
  lemma LoadedNodesCarryHomes(nodeState: NodeBuffer, edgeState: EdgeBuffer, lower: Entities.Lower, supported: string -> bool,
                              extract: Schedules.Extractor, found: map<string, ModuleInfo>, read: ModuleInfo -> string, projectDir: string,
                              nodes: seq<NodeView>, edges: seq<EdgeView>, extracted: seq<EdgeView>, o: Origins, k: nat, d: string)
    requires Loaded(nodeState, edgeState, lower, supported, extract, found, read, projectDir, nodes, edges, extracted, o)
    requires k < |o.ns + o.parts.modules|
    ensures k < |nodes| && nodes[k].(properties := (o.ns + o.parts.modules)[k].properties) == (o.ns + o.parts.modules)[k]
    ensures Services.IsHome(o.layout.modules.Keys, (o.ns + o.parts.modules)[k].filePath, d) ==>
              d in o.layout.names && "service" in nodes[k].properties && nodes[k].properties["service"] == Text(o.layout.names[d])
  {
    hide FromLinkers, FromBuffer, Services.EdgesGiven, Services.ServicesGiven, Services.IsHome, Services.ServiceName;
    var init := o.ns + o.parts.modules;
    HintsKeepPlace(supported, extract, o.tasks, init, o.hinted, o.slots, extracted, k);
    hide FromExtractors;
    assert Services.StampedWith(o.layout, o.hinted[k], o.stamped[k]) && nodes[k] == o.stamped[k];
    if Services.IsHome(o.layout.modules.Keys, init[k].filePath, d) {
      HomeIsNamed(o.layout, o.hinted[k], d);
      assert Services.HasLabel(o.layout, o.hinted[k], o.layout.names[d]);
    }
  }

  /**
   `Enrich` from the filled builder to what it loads: snapshot, linkers, language enricher,
   service detection. `extracted` are the edges the extractors gave; only they can dangle. The
   graph is exactly the parts of `o`, each described on its own.
   */
  method Build(builder: Builder, lower: Entities.Lower, supported: string -> bool, extract: Schedules.Extractor, capacity: nat,
               found: map<string, ModuleInfo>, read: ModuleInfo -> string, projectDir: string)
    returns (nodes: seq<CodeNode>, edges: seq<EdgeView>, extracted: seq<EdgeView>, ghost o: Origins)
    requires builder.ValidNodes() && builder.ValidEdges() && capacity > 0
    modifies builder`nodes, builder`edges
    ensures Loaded(builder.nodeState, builder.edgeState, lower, supported, extract, found, read, projectDir, NodeViews(nodes), edges, extracted, o)
    ensures Closed(NodeViews(nodes), edges) <==> Closed(NodeViews(nodes), extracted)
  {
    hide Schedules.Enriched, Schedules.Slots, Files.Disjoint, Passes.IsLinked, Services.Detected, Services.AllStamped,
      Services.HasService, Services.EdgesOf, Closed, UniqueIds, FiguresOf, SnapshotSorted, SnapshotShows, FromBuffer, FromLinkers,
      FromExtractors, FromServices, LayoutOf, SameIds;
    ghost var oldNodes, oldEdges := builder.nodes, builder.edges;
    assert forall k :: k in oldEdges ==> KeyOf(builder.edgeState.entries[k]) == k;
    var snap := builder.Snapshot();
    var ns, es := NodeViews(snap.nodes), EdgeViews(snap.edges);
    SnapshotIsBuffer(oldNodes, oldEdges, builder.nodeState, builder.edgeState, snap);
    ghost var parts, linked, job;
    var hinted, withExtracted;
    hinted, withExtracted, extracted, parts, linked, job := LinkAndHint(ns, es, lower, supported, extract, capacity);
    var stamped, services, serviceEdges := DetectServices(hinted, found, read, projectDir);
    nodes := stamped + services;
    edges := withExtracted + serviceEdges;
    ghost var l, out := Services.LayoutFor(read, projectDir, Services.WithDefault(found)), Schedules.Slots(job, linked.nodes);
    OnlyExtractorEdgesCanDangle(ns, es, lower, parts.queries, linked, job, hinted, out, l, NodeViews(stamped), NodeViews(services));
    ViewsConcat(stamped, services);
    HintsKeepIds(job, linked.nodes, hinted, out);
    StampsKeepIds(l, linked.nodes, hinted, NodeViews(stamped));
    o := Origins(ns, es, parts, job.tasks, hinted, out, l, NodeViews(stamped), NodeViews(services), serviceEdges);
  }
}
