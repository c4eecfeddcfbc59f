/**
 Producers and consumers that share a topic label (internal/analyzer/linker/topic_linker.go):
 the nested loops over sorted labels, producers and consumers emit one CALLS edge per triple.
 */
module TopicLinker {
  import opened CodeModel
  import opened ConfidenceMerge
  import opened Linker
  import opened Options
  import opened Sequences
  import opened Strings

  const TOPIC_KINDS := {"topic", "queue", "event", "message_queue"}
  const PRODUCER_KINDS := {"produces", "sends_to", "publishes"}
  const CONSUMER_KINDS := {"consumes", "receives_from", "listens"}

  datatype TopicLink = TopicLink(topic: string, producer: string, consumer: string)

  function EdgeFor(l: TopicLink): EdgeView {
    EdgeView("topic-link:" + l.producer + ARROW + l.consumer, "calls", l.producer, l.consumer, 0, "linker:topic",
             map["inferred" := Flag(true), "topic" := Text(l.topic)])
  }

  // ---- which links there are ----

  ghost predicate IsTopic(nodes: seq<NodeView>, name: string, id: string) {
    exists n :: n in nodes && n.kind in TOPIC_KINDS && n.name == name && n.id == id
  }

  ghost predicate Touches(nodes: seq<NodeView>, edges: seq<EdgeView>, kinds: set<string>, name: string, x: string) {
    exists e :: e in edges && e.kind in kinds && e.sourceId == x && IsTopic(nodes, name, e.targetId)
  }

  /** A producer and another consumer that each touch some topic with this label. */
  ghost predicate Linked(nodes: seq<NodeView>, edges: seq<EdgeView>, l: TopicLink) {
    && l.producer != l.consumer
    && Touches(nodes, edges, PRODUCER_KINDS, l.topic, l.producer)
    && Touches(nodes, edges, CONSUMER_KINDS, l.topic, l.consumer)
  }

  // ---- what the loops compute ----

  ghost function Labels(nodes: seq<NodeView>): set<string> {
    set n | n in nodes && n.kind in TOPIC_KINDS :: n.name
  }

  ghost function Touching(nodes: seq<NodeView>, edges: seq<EdgeView>, kinds: set<string>, name: string): set<string> {
    set e | e in edges && e.kind in kinds && IsTopic(nodes, name, e.targetId) :: e.sourceId
  }

  ghost function Row(topic: string, p: string, cons: seq<string>): seq<TopicLink> {
    if cons == [] then []
    else Row(topic, p, cons[..|cons| - 1]) +
         if p == cons[|cons| - 1] then [] else [TopicLink(topic, p, cons[|cons| - 1])]
  }

  ghost function Rows(topic: string, prods: seq<string>, cons: seq<string>): seq<TopicLink> {
    if prods == [] then [] else Rows(topic, prods[..|prods| - 1], cons) + Row(topic, prods[|prods| - 1], cons)
  }

  ghost function LabelLinks(nodes: seq<NodeView>, edges: seq<EdgeView>, name: string): seq<TopicLink> {
    Rows(name, SortedListing(Touching(nodes, edges, PRODUCER_KINDS, name)), SortedListing(Touching(nodes, edges, CONSUMER_KINDS, name)))
  }

  ghost function LinksUnder(nodes: seq<NodeView>, edges: seq<EdgeView>, labels: seq<string>): seq<TopicLink> {
    if labels == [] then []
    else LinksUnder(nodes, edges, labels[..|labels| - 1]) + LabelLinks(nodes, edges, labels[|labels| - 1])
  }

  ghost function LinkList(nodes: seq<NodeView>, edges: seq<EdgeView>): seq<TopicLink> {
    LinksUnder(nodes, edges, SortedListing(Labels(nodes)))
  }

  ghost function TopicEdges(nodes: seq<NodeView>, edges: seq<EdgeView>): seq<EdgeView> {
    Map(EdgeFor, LinkList(nodes, edges))
  }

  // ---- the linker ----

  function TopicLabel(n: NodeView): Option<string> {
    if n.kind in TOPIC_KINDS then Some(n.name) else None
  }

  function TargetIf(kinds: set<string>): EdgeView -> Option<string> {
    (e: EdgeView) => if e.kind in kinds then Some(e.targetId) else None
  }

  lemma NoLabelsNoLinks(nodes: seq<NodeView>, edges: seq<EdgeView>)
    requires Labels(nodes) == {}
    ensures TopicEdges(nodes, edges) == []
  {
    if SortedListing(Labels(nodes)) != [] {
      var name := SomeMember(SortedListing(Labels(nodes)));
    }
  }

  /** The sources of the edges of these kinds, by their target. */
  ghost predicate IsGrouping(edges: seq<EdgeView>, kinds: set<string>, byTopic: map<string, seq<string>>) {
    && (forall k :: k in byTopic <==> GroupOf(TargetIf(kinds), SourceId, edges, k) != [])
    && (forall k :: k in byTopic ==> byTopic[k] == GroupOf(TargetIf(kinds), SourceId, edges, k))
  }

  lemma LabelLinksAre(nodes: seq<NodeView>, edges: seq<EdgeView>, name: string, prods: seq<string>, cons: seq<string>)
    requires prods == SortedListing(Touching(nodes, edges, PRODUCER_KINDS, name))
    requires cons == SortedListing(Touching(nodes, edges, CONSUMER_KINDS, name))
    ensures Rows(name, prods, cons) == LabelLinks(nodes, edges, name)
  {
  }

  lemma LinksUnderStep(nodes: seq<NodeView>, edges: seq<EdgeView>, labels: seq<string>, i: nat)
    requires i < |labels|
    ensures LinksUnder(nodes, edges, labels[..i + 1]) == LinksUnder(nodes, edges, labels[..i]) + LabelLinks(nodes, edges, labels[i])
  {
    assert labels[..i + 1][..i] == labels[..i];
  }

  lemma TouchingByTopic(nodes: seq<NodeView>, edges: seq<EdgeView>, kinds: set<string>, name: string, topicIds: seq<string>, x: string)
    requires topicIds == GroupOf(TopicLabel, NodeId, nodes, name)
    ensures x in Touching(nodes, edges, kinds, name) <==>
            exists j :: 0 <= j < |topicIds| && x in GroupOf(TargetIf(kinds), SourceId, edges, topicIds[j])
  {
    hide GroupOf;
    if x in Touching(nodes, edges, kinds, name) {
      var e :| e in edges && e.kind in kinds && IsTopic(nodes, name, e.targetId) && e.sourceId == x;
      GroupMember(TopicLabel, NodeId, nodes, name, e.targetId);
      var j :| 0 <= j < |topicIds| && topicIds[j] == e.targetId;
      GroupMember(TargetIf(kinds), SourceId, edges, topicIds[j], x);
    }
    if j :| 0 <= j < |topicIds| && x in GroupOf(TargetIf(kinds), SourceId, edges, topicIds[j]) {
      GroupMember(TargetIf(kinds), SourceId, edges, topicIds[j], x);
      GroupMember(TopicLabel, NodeId, nodes, name, topicIds[j]);
      var e :| e in edges && TargetIf(kinds)(e) == Some(topicIds[j]) && SourceId(e) == x;
    }
  }

  /** The sources of the edges into the topics of one label. */
  method CollectEnds(nodes: seq<NodeView>, edges: seq<EdgeView>, kinds: set<string>, name: string,
                     topicIds: seq<string>, byTopic: map<string, seq<string>>) returns (ends: set<string>)
    requires topicIds == GroupOf(TopicLabel, NodeId, nodes, name)
    requires IsGrouping(edges, kinds, byTopic)
    ensures ends == Touching(nodes, edges, kinds, name)
  {
    ends := {};
    for i := 0 to |topicIds|
      invariant forall x :: x in ends <==> exists j :: 0 <= j < i && x in GroupOf(TargetIf(kinds), SourceId, edges, topicIds[j])
    {
      var touching := if topicIds[i] in byTopic then byTopic[topicIds[i]] else [];
      assert touching == GroupOf(TargetIf(kinds), SourceId, edges, topicIds[i]);
      ends := ends + set x | x in touching;
    }
    forall x
      ensures x in ends <==> x in Touching(nodes, edges, kinds, name)
    {
      TouchingByTopic(nodes, edges, kinds, name, topicIds, x);
    }
  }

  method PairUp(name: string, prods: seq<string>, cons: seq<string>) returns (links: seq<EdgeView>)
    ensures links == Map(EdgeFor, Rows(name, prods, cons))
  {
    links := [];
    for i := 0 to |prods|
      invariant links == Map(EdgeFor, Rows(name, prods[..i], cons))
    {
      assert prods[..i + 1][..i] == prods[..i];
      var start := links;
      for j := 0 to |cons|
        invariant links == start + Map(EdgeFor, Row(name, prods[i], cons[..j]))
      {
        assert cons[..j + 1][..j] == cons[..j];
        if prods[i] != cons[j] {
          links := links + [EdgeFor(TopicLink(name, prods[i], cons[j]))];
        }
      }
      assert cons[..|cons|] == cons;
      MapConcat(EdgeFor, Rows(name, prods[..i], cons), Row(name, prods[i], cons));
    }
    assert prods[..|prods|] == prods;
  }

  method LinkLabels(nodes: seq<NodeView>, edges: seq<EdgeView>, labels: seq<string>, topicIdsByLabel: map<string, seq<string>>,
                    producersByTopic: map<string, seq<string>>, consumersByTopic: map<string, seq<string>>) returns (links: seq<EdgeView>)
    requires forall k :: k in labels ==> k in topicIdsByLabel && topicIdsByLabel[k] == GroupOf(TopicLabel, NodeId, nodes, k)
    requires IsGrouping(edges, PRODUCER_KINDS, producersByTopic) && IsGrouping(edges, CONSUMER_KINDS, consumersByTopic)
    ensures links == Map(EdgeFor, LinksUnder(nodes, edges, labels))
  {
    links := [];
    for i := 0 to |labels|
      invariant links == Map(EdgeFor, LinksUnder(nodes, edges, labels[..i]))
    {
      hide LinksUnder, IsTopic, Touching, GroupOf, LabelLinks, Map, IsGrouping, EdgeFor;
      var topicIds := topicIdsByLabel[labels[i]];
      var prodSet := CollectEnds(nodes, edges, PRODUCER_KINDS, labels[i], topicIds, producersByTopic);
      var consSet := CollectEnds(nodes, edges, CONSUMER_KINDS, labels[i], topicIds, consumersByTopic);
      var prods := SortedKeys(prodSet);
      var cons := SortedKeys(consSet);
      SortedListingIsUnique(prods, SortedListing(prodSet));
      SortedListingIsUnique(cons, SortedListing(consSet));
      var more := PairUp(labels[i], prods, cons);
      LabelLinksAre(nodes, edges, labels[i], prods, cons);
      LinksUnderStep(nodes, edges, labels, i);
      MapConcat(EdgeFor, LinksUnder(nodes, edges, labels[..i]), LabelLinks(nodes, edges, labels[i]));
      links := links + more;
    }
    assert labels[..|labels|] == labels;
  }

  lemma LabelsAreGroups(nodes: seq<NodeView>, groups: map<string, seq<string>>)
    requires forall k :: k in groups <==> GroupOf(TopicLabel, NodeId, nodes, k) != []
    ensures groups.Keys == Labels(nodes)
  {
    forall k
      ensures k in groups <==> k in Labels(nodes)
    {
      if k in groups {
        var id := SomeMember(GroupOf(TopicLabel, NodeId, nodes, k));
        GroupMember(TopicLabel, NodeId, nodes, k, id);
      }
      if k in Labels(nodes) {
        var n :| n in nodes && n.kind in TOPIC_KINDS && n.name == k;
        GroupMember(TopicLabel, NodeId, nodes, k, n.id);
      }
    }
  }

  method Link(nodes: seq<NodeView>, edges: seq<EdgeView>) returns (r: Result)
    ensures r == Result([], TopicEdges(nodes, edges))
  {
    hide GroupOf, Labels, LinksUnder, EdgeFor;
    var topicIdsByLabel := Group(TopicLabel, NodeId, nodes);
    LabelsAreGroups(nodes, topicIdsByLabel);
    if topicIdsByLabel == map[] {
      NoLabelsNoLinks(nodes, edges);
      return Result([], []);
    }
    var producersByTopic := Group(TargetIf(PRODUCER_KINDS), SourceId, edges);
    var consumersByTopic := Group(TargetIf(CONSUMER_KINDS), SourceId, edges);
    var labels := SortedKeys(topicIdsByLabel.Keys);
    SortedListingIsUnique(labels, SortedListing(Labels(nodes)));
    var links := LinkLabels(nodes, edges, labels, topicIdsByLabel, producersByTopic, consumersByTopic);
    r := Result([], links);
  }

  // ---- exactly one edge per link ----

  lemma {:induction false} RowMembers(topic: string, p: string, cons: seq<string>, l: TopicLink)
    ensures l in Row(topic, p, cons) <==> l.topic == topic && l.producer == p && l.consumer in cons && l.consumer != p
  {
    if cons == [] {
    } else {
      RowMembers(topic, p, cons[..|cons| - 1], l);
      assert cons == cons[..|cons| - 1] + [cons[|cons| - 1]];
    }
  }

  lemma {:induction false} RowsMembers(topic: string, prods: seq<string>, cons: seq<string>, l: TopicLink)
    ensures l in Rows(topic, prods, cons) <==>
            l.topic == topic && l.producer in prods && l.consumer in cons && l.producer != l.consumer
  {
    if prods == [] {
    } else {
      RowsMembers(topic, prods[..|prods| - 1], cons, l);
      RowMembers(topic, prods[|prods| - 1], cons, l);
      assert prods == prods[..|prods| - 1] + [prods[|prods| - 1]];
    }
  }

  lemma LabelLinksMembers(nodes: seq<NodeView>, edges: seq<EdgeView>, name: string, l: TopicLink)
    ensures l in LabelLinks(nodes, edges, name) <==> l.topic == name && Linked(nodes, edges, l)
  {
    hide IsTopic;
    RowsMembers(name, SortedListing(Touching(nodes, edges, PRODUCER_KINDS, name)),
                SortedListing(Touching(nodes, edges, CONSUMER_KINDS, name)), l);
  }

  lemma InEither<T>(a: seq<T>, b: seq<T>, x: T)
    ensures x in a + b <==> x in a || x in b
  {
  }

  lemma {:induction false} LinksUnderMembers(nodes: seq<NodeView>, edges: seq<EdgeView>, labels: seq<string>, l: TopicLink)
    ensures l in LinksUnder(nodes, edges, labels) <==> l.topic in labels && Linked(nodes, edges, l)
  {
    hide Linked, LabelLinks;
    if labels == [] {
    } else {
      var front, last := labels[..|labels| - 1], labels[|labels| - 1];
      LinksUnderMembers(nodes, edges, front, l);
      var earlier, more := LinksUnder(nodes, edges, front), LabelLinks(nodes, edges, last);
      assert LinksUnder(nodes, edges, labels) == earlier + more;
      hide LinksUnder;
      LabelLinksMembers(nodes, edges, last, l);
      InEither(earlier, more, l);
      InEither(front, [last], l.topic);
      assert labels == front + [last];
    }
  }

  /** The list holds exactly the linked triples. */
  lemma LinksAreExact(nodes: seq<NodeView>, edges: seq<EdgeView>, l: TopicLink)
    ensures l in LinkList(nodes, edges) <==> Linked(nodes, edges, l)
  {
    LinksUnderMembers(nodes, edges, SortedListing(Labels(nodes)), l);
    if Linked(nodes, edges, l) {
      var e :| e in edges && e.kind in PRODUCER_KINDS && e.sourceId == l.producer && IsTopic(nodes, l.topic, e.targetId);
      var n :| n in nodes && n.kind in TOPIC_KINDS && n.name == l.topic && n.id == e.targetId;
    }
  }

  predicate LinkLess(a: TopicLink, b: TopicLink) {
    || Less(a.topic, b.topic)
    || (a.topic == b.topic && Less(a.producer, b.producer))
    || (a.topic == b.topic && a.producer == b.producer && Less(a.consumer, b.consumer))
  }

  ghost predicate Ordered(ls: seq<TopicLink>) {
    forall i, j :: 0 <= i < j < |ls| ==> LinkLess(ls[i], ls[j])
  }

  lemma OrderedConcat(a: seq<TopicLink>, b: seq<TopicLink>)
    requires Ordered(a) && Ordered(b) && forall x, y :: x in a && y in b ==> LinkLess(x, y)
    ensures Ordered(a + b)
  {
    var ls := a + b;
    forall i, j | 0 <= i < j < |ls|
      ensures LinkLess(ls[i], ls[j])
    {
      if i < |a| <= j {
        assert ls[i] in a && ls[j] in b;
      }
    }
  }

  /** The last element of a sorted listing follows every earlier one. */
  lemma LastFollows(s: seq<string>, x: string)
    requires StrictlySorted(s) && s != [] && x in s[..|s| - 1]
    ensures Less(x, s[|s| - 1])
  {
    var i :| 0 <= i < |s| - 1 && s[i] == x;
  }

  lemma {:induction false} RowOrdered(topic: string, p: string, cons: seq<string>)
    requires StrictlySorted(cons)
    ensures Ordered(Row(topic, p, cons))
  {
    if cons == [] {
    } else {
      var front, last := cons[..|cons| - 1], cons[|cons| - 1];
      RowOrdered(topic, p, front);
      forall x | x in Row(topic, p, front)
        ensures Less(x.consumer, last) && x.topic == topic && x.producer == p
      {
        RowMembers(topic, p, front, x);
        LastFollows(cons, x.consumer);
      }
      OrderedConcat(Row(topic, p, front), if p == last then [] else [TopicLink(topic, p, last)]);
    }
  }

  lemma {:induction false} RowsOrdered(topic: string, prods: seq<string>, cons: seq<string>)
    requires StrictlySorted(prods) && StrictlySorted(cons)
    ensures Ordered(Rows(topic, prods, cons))
  {
    if prods == [] {
    } else {
      var front, last := prods[..|prods| - 1], prods[|prods| - 1];
      RowsOrdered(topic, front, cons);
      RowOrdered(topic, last, cons);
      forall x, y | x in Rows(topic, front, cons) && y in Row(topic, last, cons)
        ensures LinkLess(x, y)
      {
        RowsMembers(topic, front, cons, x);
        RowMembers(topic, last, cons, y);
        LastFollows(prods, x.producer);
      }
      OrderedConcat(Rows(topic, front, cons), Row(topic, last, cons));
    }
  }

  lemma {:induction false} LinksUnderOrdered(nodes: seq<NodeView>, edges: seq<EdgeView>, labels: seq<string>)
    requires StrictlySorted(labels)
    ensures Ordered(LinksUnder(nodes, edges, labels))
  {
    if labels == [] {
    } else {
      var front, last := labels[..|labels| - 1], labels[|labels| - 1];
      LinksUnderOrdered(nodes, edges, front);
      var prods := SortedListing(Touching(nodes, edges, PRODUCER_KINDS, last));
      var cons := SortedListing(Touching(nodes, edges, CONSUMER_KINDS, last));
      RowsOrdered(last, prods, cons);
      forall x, y | x in LinksUnder(nodes, edges, front) && y in Rows(last, prods, cons)
        ensures LinkLess(x, y)
      {
        LinksUnderMembers(nodes, edges, front, x);
        RowsMembers(last, prods, cons, y);
        LastFollows(labels, x.topic);
      }
      OrderedConcat(LinksUnder(nodes, edges, front), Rows(last, prods, cons));
    }
  }

  /** An emitted edge tells which link it is for. */
  lemma LinkOfEdge(l: TopicLink)
    ensures EdgeFor(l).sourceId == l.producer && EdgeFor(l).targetId == l.consumer
    ensures "topic" in EdgeFor(l).properties && EdgeFor(l).properties["topic"] == Text(l.topic)
  {
  }

  /** No two emitted edges are equal. */
  lemma TopicEdgesDiffer(nodes: seq<NodeView>, edges: seq<EdgeView>)
    ensures NoDuplicates(TopicEdges(nodes, edges))
  {
    var ls, out := LinkList(nodes, edges), TopicEdges(nodes, edges);
    LinksUnderOrdered(nodes, edges, SortedListing(Labels(nodes)));
    forall i, j | 0 <= i < j < |out|
      ensures out[i] != out[j]
    {
      assert LinkLess(ls[i], ls[j]);
      LinkOfEdge(ls[i]);
      LinkOfEdge(ls[j]);
      LessIrreflexive(ls[i].topic);
      LessIrreflexive(ls[i].producer);
      LessIrreflexive(ls[i].consumer);
    }
  }

  /** Exactly one CALLS edge per linked triple, none for any other, in label, producer, consumer order. */
  lemma OneEdgePerLink(nodes: seq<NodeView>, edges: seq<EdgeView>, l: TopicLink)
    ensures multiset(TopicEdges(nodes, edges))[EdgeFor(l)] == if Linked(nodes, edges, l) then 1 else 0
    ensures Ordered(LinkList(nodes, edges))
  {
    var ls := LinkList(nodes, edges);
    LinksAreExact(nodes, edges, l);
    LinksUnderOrdered(nodes, edges, SortedListing(Labels(nodes)));
    var out := TopicEdges(nodes, edges);
    TopicEdgesDiffer(nodes, edges);
    CountsAtMostOne(out);
    if Linked(nodes, edges, l) {
      var i :| 0 <= i < |ls| && ls[i] == l;
      assert out[i] == EdgeFor(l);
    } else {
      forall i | 0 <= i < |ls|
        ensures out[i] != EdgeFor(l)
      {
        assert ls[i] in ls && ls[i] != l;
        LinkOfEdge(ls[i]);
        LinkOfEdge(l);
      }
    }
  }

  /** The emitted edges, field by field: one for every linked triple. */
  lemma TopicEdgesAreExact(nodes: seq<NodeView>, edges: seq<EdgeView>, e: EdgeView)
    ensures e in TopicEdges(nodes, edges) <==>
            exists l :: Linked(nodes, edges, l) && e == EdgeView("topic-link:" + l.producer + "->" + l.consumer, "calls", l.producer, l.consumer, 0, "linker:topic",
                                                         map["inferred" := Flag(true), "topic" := Text(l.topic)])
  {
    hide Linked;
    var ls, out := LinkList(nodes, edges), TopicEdges(nodes, edges);
    if e in out {
      var i :| 0 <= i < |ls| && EdgeFor(ls[i]) == e;
      assert ls[i] in ls;
      LinksAreExact(nodes, edges, ls[i]);
    }
    if l :| Linked(nodes, edges, l) && e == EdgeFor(l) {
      LinksAreExact(nodes, edges, l);
      var i :| 0 <= i < |ls| && ls[i] == l;
      assert out[i] == e;
    }
  }

  // ---- closedness and independence ----

  lemma TopicEdgesAreClosed(nodes: seq<NodeView>, edges: seq<EdgeView>)
    requires Closed(nodes, edges)
    ensures Closed(nodes, TopicEdges(nodes, edges))
  {
    var ls := LinkList(nodes, edges);
    forall e | e in TopicEdges(nodes, edges)
      ensures HasNode(nodes, e.sourceId) && HasNode(nodes, e.targetId)
    {
      var i :| 0 <= i < |ls| && EdgeFor(ls[i]) == e;
      assert ls[i] in ls;
      LinksAreExact(nodes, edges, ls[i]);
    }
  }

  lemma {:induction false} SameLinksUnder(nodes: seq<NodeView>, edges: seq<EdgeView>, nodes': seq<NodeView>, edges': seq<EdgeView>,
                                          labels: seq<string>)
    requires forall name :: LabelLinks(nodes, edges, name) == LabelLinks(nodes', edges', name)
    ensures LinksUnder(nodes, edges, labels) == LinksUnder(nodes', edges', labels)
  {
    if labels == [] {
    } else {
      SameLinksUnder(nodes, edges, nodes', edges', labels[..|labels| - 1]);
    }
  }

  /** Only topic nodes and messaging edges matter, as sets: neither order nor anything else does. */
  lemma OnlyMessagingMatters(nodes: seq<NodeView>, edges: seq<EdgeView>, nodes': seq<NodeView>, edges': seq<EdgeView>)
    requires forall n: NodeView :: n.kind in TOPIC_KINDS ==> (n in nodes <==> n in nodes')
    requires forall e: EdgeView :: e.kind in PRODUCER_KINDS + CONSUMER_KINDS ==> (e in edges <==> e in edges')
    ensures TopicEdges(nodes, edges) == TopicEdges(nodes', edges')
  {
    assert Labels(nodes) == Labels(nodes');
    forall name
      ensures LabelLinks(nodes, edges, name) == LabelLinks(nodes', edges', name)
    {
      assert forall id :: IsTopic(nodes, name, id) <==> IsTopic(nodes', name, id);
      assert Touching(nodes, edges, PRODUCER_KINDS, name) == Touching(nodes', edges', PRODUCER_KINDS, name);
      assert Touching(nodes, edges, CONSUMER_KINDS, name) == Touching(nodes', edges', CONSUMER_KINDS, name);
    }
    SameLinksUnder(nodes, edges, nodes', edges', SortedListing(Labels(nodes)));
  }
}
