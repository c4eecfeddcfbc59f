/**
 The three linkers as `Enrich` runs them on a snapshot (internal/analyzer/enrich.go): each sees
 what the earlier ones appended, yet its result is the one it would give on the snapshot itself.
 */
module LinkerPasses {
  import opened CodeModel
  import opened Linker
  import opened Sequences
  import opened Strings
  import Entities = EntityLinker
  import Containment = ModuleContainmentLinker
  import Topics = TopicLinker

  /** The snapshot followed by what each linker gives on the snapshot alone, up to order. */
  ghost predicate IsLinked(lower: Entities.Lower, nodes: seq<NodeView>, edges: seq<EdgeView>, queries: seq<EdgeView>, r: Result) {
    && nodes <= r.nodes && edges <= r.edges
    && Entities.IsResult(lower, nodes, edges, queries)
    && multiset(r.nodes) == multiset(nodes + Containment.NewNodes(nodes))
    && multiset(r.edges) == multiset(edges + Topics.TopicEdges(nodes, edges) + queries + Containment.NewEdges(nodes, edges))
  }

  /** What each linker appended: the new nodes, then topic, QUERIES (as emitted and as sorted) and CONTAINS edges. */
  datatype Parts = Parts(modules: seq<NodeView>, topics: seq<EdgeView>, queries: seq<EdgeView>, sortedQueries: seq<EdgeView>,
                         contains: seq<EdgeView>)

  /** Linker after linker, each part in ID order. */
  ghost predicate AppendedInOrder(lower: Entities.Lower, nodes: seq<NodeView>, edges: seq<EdgeView>, p: Parts, r: Result) {
    && r == Result(nodes + p.modules, edges + p.topics + p.sortedQueries + p.contains)
    && SortedBy(NodeId, p.modules) && SortedBy(EdgeId, p.topics) && SortedBy(EdgeId, p.sortedQueries) && SortedBy(EdgeId, p.contains)
    && multiset(p.modules) == multiset(Containment.NewNodes(nodes))
    && multiset(p.topics) == multiset(Topics.TopicEdges(nodes, edges))
    && Entities.IsResult(lower, nodes, edges, p.queries) && multiset(p.sortedQueries) == multiset(p.queries)
    && multiset(p.contains) == multiset(Containment.NewEdges(nodes, edges))
  }

  lemma Assembled(lower: Entities.Lower, nodes: seq<NodeView>, edges: seq<EdgeView>, queries: seq<EdgeView>,
                  topicPart: seq<EdgeView>, queryPart: seq<EdgeView>, containment: Result)
    requires Entities.IsResult(lower, nodes, edges, queries)
    requires multiset(topicPart) == multiset(Topics.TopicEdges(nodes, edges)) && multiset(queryPart) == multiset(queries)
    requires multiset(containment.nodes) == multiset(Containment.NewNodes(nodes))
    requires multiset(containment.edges) == multiset(Containment.NewEdges(nodes, edges))
    ensures IsLinked(lower, nodes, edges, queries, Result(nodes + containment.nodes, edges + topicPart + queryPart + containment.edges))
  {
    hide Entities.IsResult, Topics.TopicEdges, Containment.NewNodes, Containment.NewEdges;
    var es := edges + topicPart + queryPart + containment.edges;
    assert edges <= edges + topicPart <= edges + topicPart + queryPart <= es;
  }

  lemma TopicKinds(nodes: seq<NodeView>, edges: seq<EdgeView>, sorted: seq<EdgeView>)
    requires multiset(sorted) == multiset(Topics.TopicEdges(nodes, edges))
    ensures forall e :: e in sorted ==> e.kind == "calls"
  {
    forall e | e in sorted
      ensures e.kind == "calls"
    {
      assert e in multiset(Topics.TopicEdges(nodes, edges));
    }
  }

  lemma QueryKinds(lower: Entities.Lower, nodes: seq<NodeView>, edges: seq<EdgeView>, out: seq<EdgeView>, sorted: seq<EdgeView>)
    requires Entities.IsResult(lower, nodes, edges, out) && multiset(sorted) == multiset(out)
    ensures forall e :: e in sorted ==> e.kind == "queries"
  {
    forall e | e in sorted
      ensures e.kind == "queries"
    {
      assert e in multiset(out);
      Entities.AddedEdgesAreExact(lower, nodes, edges, out, e);
    }
  }

  method RunLinkers(lower: Entities.Lower, nodes: seq<NodeView>, edges: seq<EdgeView>) returns (r: Result)
    ensures exists queries :: IsLinked(lower, nodes, edges, queries, r)
    ensures exists parts :: AppendedInOrder(lower, nodes, edges, parts, r)
  {
    var r1 := Topics.Link(nodes, edges);
    var s1 := Sorted(r1);
    assert s1.nodes == [] by {
      assert multiset(s1.nodes) == multiset(r1.nodes);
    }
    var nodes1, edges1 := nodes + s1.nodes, edges + s1.edges;
    var r2 := Entities.Link(lower, nodes1, edges1);
    var s2 := Sorted(r2);
    assert s2.nodes == [] by {
      assert multiset(s2.nodes) == multiset(r2.nodes);
    }
    var nodes2, edges2 := nodes1 + s2.nodes, edges1 + s2.edges;
    var r3 := Containment.Link(nodes2, edges2);
    var s3 := Sorted(r3);
    r := Result(nodes2 + s3.nodes, edges2 + s3.edges);
    assert nodes1 == nodes && nodes2 == nodes;
    TopicKinds(nodes, edges, s1.edges);
    Entities.OnlyEntitiesAndQueriesMatter(lower, nodes, edges, [], s1.edges, r2.edges);
    assert nodes + [] == nodes;
    QueryKinds(lower, nodes, edges, r2.edges, s2.edges);
    Containment.OnlyContainmentMatters(nodes, edges, s1.edges + s2.edges);
    assert edges2 == edges + (s1.edges + s2.edges);
    Assembled(lower, nodes, edges, r2.edges, s1.edges, s2.edges, s3);
    assert AppendedInOrder(lower, nodes, edges, Parts(s3.nodes, s1.edges, r2.edges, s2.edges, s3.edges), r);
  }

  // ---- what the passes keep ----

  /** A closed snapshot stays closed. */
  lemma LinkingStaysClosed(lower: Entities.Lower, nodes: seq<NodeView>, edges: seq<EdgeView>, queries: seq<EdgeView>, r: Result)
    requires Closed(nodes, edges) && IsLinked(lower, nodes, edges, queries, r)
    ensures Closed(r.nodes, r.edges)
  {
    Topics.TopicEdgesAreClosed(nodes, edges);
    Entities.AddedEdgesAreClosed(lower, nodes, edges, queries);
    Containment.StaysClosed(nodes, edges);
    var all := nodes + Containment.NewNodes(nodes);
    SameMembers(r.nodes, all);
    SameMembers(r.edges, edges + Topics.TopicEdges(nodes, edges) + queries + Containment.NewEdges(nodes, edges));
    forall e | e in r.edges
      ensures HasNode(r.nodes, e.sourceId) && HasNode(r.nodes, e.targetId)
    {
      assert HasNode(all, e.sourceId) && HasNode(all, e.targetId) by {
        if e in Topics.TopicEdges(nodes, edges) || e in queries {
          HasNodeGrows(nodes, Containment.NewNodes(nodes), e.sourceId);
          HasNodeGrows(nodes, Containment.NewNodes(nodes), e.targetId);
        } else {
          assert e in edges + Containment.NewEdges(nodes, edges);
        }
      }
    }
  }

  lemma PermutedIdsStayUnique(s: seq<NodeView>, t: seq<NodeView>)
    requires multiset(s) == multiset(t) && UniqueIds(s)
    ensures UniqueIds(t)
  {
    MapPermutation(NodeId, s, t);
    PermutationKeepsDistinct(Map(NodeId, s), Map(NodeId, t));
    forall i, j | 0 <= i < j < |t|
      ensures t[i].id != t[j].id
    {
      assert Map(NodeId, t)[i] != Map(NodeId, t)[j];
    }
  }

  /** Node IDs stay unique exactly when no other node has the ID of a module that gets a node. */
  lemma LinkedIdsUniqueIff(lower: Entities.Lower, nodes: seq<NodeView>, edges: seq<EdgeView>, queries: seq<EdgeView>, r: Result)
    requires UniqueIds(nodes) && IsLinked(lower, nodes, edges, queries, r)
    ensures UniqueIds(r.nodes) <==> forall m :: !Containment.IdIsTaken(nodes, m)
  {
    Containment.IdsStayUniqueIff(nodes);
    var all := nodes + Containment.NewNodes(nodes);
    if UniqueIds(all) {
      PermutedIdsStayUnique(all, r.nodes);
    }
    if UniqueIds(r.nodes) {
      PermutedIdsStayUnique(r.nodes, all);
    }
  }

  // ---- a second pass ----

  /** The edges of one kind after linking are those of the snapshot and of the linker that adds that kind. */
  lemma LinkedEdgeKinds(lower: Entities.Lower, nodes: seq<NodeView>, edges: seq<EdgeView>, queries: seq<EdgeView>, r: Result, e: EdgeView)
    requires IsLinked(lower, nodes, edges, queries, r)
    ensures e.kind == "contains" ==> (e in r.edges <==> e in edges + Containment.NewEdges(nodes, edges))
    ensures e.kind == "queries" ==> (e in r.edges <==> e in edges + queries)
    ensures e.kind != "calls" && e.kind != "queries" && e.kind != "contains" ==> (e in r.edges <==> e in edges)
  {
    SameMembers(r.edges, edges + Topics.TopicEdges(nodes, edges) + queries + Containment.NewEdges(nodes, edges));
    TopicKinds(nodes, edges, Topics.TopicEdges(nodes, edges));
    QueryKinds(lower, nodes, edges, queries, queries);
  }

  lemma AppendedPart<T>(s: seq<T>, t: seq<T>, u: seq<T>) returns (extra: seq<T>)
    requires s <= t && multiset(t) == multiset(s + u)
    ensures t == s + extra && multiset(extra) == multiset(u)
  {
    extra := t[|s|..];
    assert t == s + extra;
    assert multiset(extra) == multiset(t) - multiset(s) == multiset(u);
  }

  /** The appended nodes are the new MODULE nodes. */
  lemma LinkedNodes(lower: Entities.Lower, nodes: seq<NodeView>, edges: seq<EdgeView>, queries: seq<EdgeView>, r: Result)
    returns (extra: seq<NodeView>)
    requires IsLinked(lower, nodes, edges, queries, r)
    ensures r.nodes == nodes + extra
    ensures forall n :: n in extra <==> n in Containment.NewNodes(nodes)
    ensures forall n :: n in extra ==> n.kind == "module"
  {
    hide Entities.IsResult, Topics.TopicEdges, Containment.NewEdges;
    extra := AppendedPart(nodes, r.nodes, Containment.NewNodes(nodes));
    SameMembers(extra, Containment.NewNodes(nodes));
  }

  lemma MessagingKinds(kind: string)
    requires kind in Topics.PRODUCER_KINDS + Topics.CONSUMER_KINDS
    ensures kind != "calls" && kind != "queries" && kind != "contains"
  {
  }

  lemma TopicIsNoModule(kind: string)
    requires kind in Topics.TOPIC_KINDS
    ensures kind != "module"
  {
  }

  lemma SecondTopics(lower: Entities.Lower, nodes: seq<NodeView>, edges: seq<EdgeView>, queries: seq<EdgeView>, r: Result)
    requires IsLinked(lower, nodes, edges, queries, r)
    ensures Topics.TopicEdges(r.nodes, r.edges) == Topics.TopicEdges(nodes, edges)
  {
    var extra := LinkedNodes(lower, nodes, edges, queries, r);
    forall e: EdgeView | e.kind in Topics.PRODUCER_KINDS + Topics.CONSUMER_KINDS
      ensures e in r.edges <==> e in edges
    {
      MessagingKinds(e.kind);
      LinkedEdgeKinds(lower, nodes, edges, queries, r, e);
    }
    hide IsLinked, Topics.TopicEdges;
    forall n: NodeView | n.kind in Topics.TOPIC_KINDS
      ensures n in r.nodes <==> n in nodes
    {
      TopicIsNoModule(n.kind);
    }
    Topics.OnlyMessagingMatters(r.nodes, r.edges, nodes, edges);
  }

  lemma SecondContainment(lower: Entities.Lower, nodes: seq<NodeView>, edges: seq<EdgeView>, queries: seq<EdgeView>, r: Result)
    requires IsLinked(lower, nodes, edges, queries, r)
    ensures Containment.NewNodes(r.nodes) == [] && Containment.NewEdges(r.nodes, r.edges) == []
  {
    var extra := LinkedNodes(lower, nodes, edges, queries, r);
    forall e: EdgeView | e.kind == "contains"
      ensures e in r.edges <==> e in edges + Containment.NewEdges(nodes, edges)
    {
      LinkedEdgeKinds(lower, nodes, edges, queries, r, e);
    }
    hide IsLinked, Containment.NewNodes, Containment.NewEdges;
    Containment.SecondRunAddsNothing(nodes, edges);
    Containment.OnlySetsMatter(r.nodes, r.edges, nodes + Containment.NewNodes(nodes), edges + Containment.NewEdges(nodes, edges));
  }

  lemma SecondQueries(lower: Entities.Lower, nodes: seq<NodeView>, edges: seq<EdgeView>, queries: seq<EdgeView>, r: Result,
                      queries': seq<EdgeView>)
    requires IsLinked(lower, nodes, edges, queries, r) && Entities.IsResult(lower, r.nodes, r.edges, queries')
    ensures queries' == []
  {
    var extra := LinkedNodes(lower, nodes, edges, queries, r);
    assert r.edges + [] == r.edges;
    Entities.OnlyEntitiesAndQueriesMatter(lower, nodes, r.edges, extra, [], queries');
    assert JoinedKeys(r.edges, "queries") == JoinedKeys(edges + queries, "queries") by {
      forall e: EdgeView | e.kind == "queries"
        ensures e in r.edges <==> e in edges + queries
      {
        LinkedEdgeKinds(lower, nodes, edges, queries, r, e);
      }
    }
    assert Entities.IsResult(lower, nodes, edges + queries, queries');
    assert Entities.IsResult(lower, nodes, edges, queries);
    Entities.SecondRunAddsNothing(lower, nodes, edges, queries, queries');
  }

  /** Linking the linked graph again only repeats the topic edges. */
  lemma SecondPassRepeatsTopicsOnly(lower: Entities.Lower, nodes: seq<NodeView>, edges: seq<EdgeView>, queries: seq<EdgeView>, r: Result,
                                    queries': seq<EdgeView>, r': Result)
    requires IsLinked(lower, nodes, edges, queries, r) && IsLinked(lower, r.nodes, r.edges, queries', r')
    ensures r'.nodes == r.nodes
    ensures multiset(r'.edges) == multiset(r.edges + Topics.TopicEdges(nodes, edges))
  {
    SecondTopics(lower, nodes, edges, queries, r);
    SecondContainment(lower, nodes, edges, queries, r);
    SecondQueries(lower, nodes, edges, queries, r, queries');
    hide Entities.IsResult, Topics.TopicEdges, Containment.NewNodes, Containment.NewEdges;
    var extra := LinkedNodes(lower, r.nodes, r.edges, queries', r');
    assert r.nodes + [] == r.nodes;
    if extra != [] {
      var n := SomeMember(extra);
      assert false;
    }
    var topics := Topics.TopicEdges(nodes, edges);
    assert r.edges + topics + [] + [] == r.edges + topics;
  }
}
