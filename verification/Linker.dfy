/**
 What the linkers share (internal/analyzer/linker/linker.go): the result they return, grouping
 a list under keys and the joined keys they deduplicate by.
 */
module Linker {
  import opened CodeModel
  import opened Options
  import opened Sequences
  import opened Strings

  datatype Result = Result(nodes: seq<NodeView>, edges: seq<EdgeView>)

  function EdgeId(e: EdgeView): string {
    e.id
  }

  function SourceId(e: EdgeView): string {
    e.sourceId
  }

  /** `Result.Sorted`. */
  method Sorted(r: Result) returns (sorted: Result)
    ensures multiset(sorted.nodes) == multiset(r.nodes) && multiset(sorted.edges) == multiset(r.edges)
    ensures SortedBy(NodeId, sorted.nodes) && SortedBy(EdgeId, sorted.edges)
  {
    var nodes := SortById(NodeId, r.nodes);
    var edges := SortById(EdgeId, r.edges);
    sorted := Result(nodes, edges);
  }

  // ---- grouping under keys ----

  function KeyIs<T>(keyOf: T -> Option<string>, k: string): T -> bool {
    x => keyOf(x) == Some(k)
  }

  /** What the items under one key carry, in order. */
  ghost function GroupOf<T, V>(keyOf: T -> Option<string>, valueOf: T -> V, items: seq<T>, k: string): seq<V> {
    Map(valueOf, Filter(KeyIs(keyOf, k), items))
  }

  lemma GroupStep<T, V>(keyOf: T -> Option<string>, valueOf: T -> V, items: seq<T>, x: T, k: string)
    ensures GroupOf(keyOf, valueOf, items + [x], k) ==
            GroupOf(keyOf, valueOf, items, k) + if keyOf(x) == Some(k) then [valueOf(x)] else []
  {
    FilterConcat(KeyIs(keyOf, k), items, [x]);
    FilterOne(KeyIs(keyOf, k), x);
    MapConcat(valueOf, Filter(KeyIs(keyOf, k), items), Filter(KeyIs(keyOf, k), [x]));
  }

  /** A map from key to list, filled by one loop over the items; items without a key are left out. */
  method Group<T, V>(keyOf: T -> Option<string>, valueOf: T -> V, items: seq<T>) returns (groups: map<string, seq<V>>)
    ensures forall k :: k in groups <==> GroupOf(keyOf, valueOf, items, k) != []
    ensures forall k :: k in groups ==> groups[k] == GroupOf(keyOf, valueOf, items, k)
  {
    groups := map[];
    for i := 0 to |items|
      invariant forall k :: k in groups <==> GroupOf(keyOf, valueOf, items[..i], k) != []
      invariant forall k :: k in groups ==> groups[k] == GroupOf(keyOf, valueOf, items[..i], k)
    {
      var x := items[i];
      assert items[..i + 1] == items[..i] + [x];
      forall k
        ensures GroupOf(keyOf, valueOf, items[..i + 1], k) ==
                GroupOf(keyOf, valueOf, items[..i], k) + if keyOf(x) == Some(k) then [valueOf(x)] else []
      {
        GroupStep(keyOf, valueOf, items[..i], x, k);
      }
      hide GroupOf;
      if keyOf(x).Some? {
        var k := keyOf(x).value;
        groups := groups[k := (if k in groups then groups[k] else []) + [valueOf(x)]];
      }
    }
    assert items[..|items|] == items;
  }

  /** A value is in a group exactly when an item with that key carries it. */
  lemma GroupMember<T, V>(keyOf: T -> Option<string>, valueOf: T -> V, items: seq<T>, k: string, v: V)
    ensures v in GroupOf(keyOf, valueOf, items, k) <==> exists x :: x in items && keyOf(x) == Some(k) && valueOf(x) == v
  {
    var kept := Filter(KeyIs(keyOf, k), items);
    FilterMembers(KeyIs(keyOf, k), items);
    if v in Map(valueOf, kept) {
      var i :| 0 <= i < |kept| && Map(valueOf, kept)[i] == v;
      assert kept[i] in kept;
    }
    if x :| x in items && keyOf(x) == Some(k) && valueOf(x) == v {
      assert x in kept;
      var i :| 0 <= i < |kept| && kept[i] == x;
      assert Map(valueOf, kept)[i] == v;
    }
  }

  // ---- joined keys ----

  /** The two ends of an edge. */
  datatype Pair = Pair(source: string, target: string)

  /** The string the linkers look pairs up by. */
  function PairKey(p: Pair): string {
    p.source + ARROW + p.target
  }

  function Ends(e: EdgeView): Pair {
    Pair(e.sourceId, e.targetId)
  }

  ghost predicate Joined(edges: seq<EdgeView>, kind: string, p: Pair) {
    exists e :: e in edges && e.kind == kind && Ends(e) == p
  }

  /** The keys of the edges of one kind. */
  function JoinedKeys(edges: seq<EdgeView>, kind: string): (keys: set<string>) {
    set e | e in edges && e.kind == kind :: PairKey(Ends(e))
  }

  method CollectKeys(edges: seq<EdgeView>, kind: string) returns (keys: set<string>)
    ensures keys == JoinedKeys(edges, kind)
  {
    keys := {};
    for i := 0 to |edges|
      invariant keys == JoinedKeys(edges[..i], kind)
    {
      assert edges[..i + 1] == edges[..i] + [edges[i]];
      if edges[i].kind == kind {
        keys := keys + {PairKey(Ends(edges[i]))};
      }
    }
    assert edges[..|edges|] == edges;
  }

  lemma JoinedKeysConcat(a: seq<EdgeView>, b: seq<EdgeView>, kind: string)
    ensures JoinedKeys(a + b, kind) == JoinedKeys(a, kind) + JoinedKeys(b, kind)
  {
  }

  /** With sources free of the separator, a key is there only if the edge is. */
  lemma KeyMeansEdge(edges: seq<EdgeView>, kind: string, p: Pair)
    requires ArrowFree(p.source) && forall e :: e in edges && e.kind == kind ==> ArrowFree(e.sourceId)
    ensures PairKey(p) in JoinedKeys(edges, kind) <==> Joined(edges, kind, p)
  {
    if PairKey(p) in JoinedKeys(edges, kind) {
      var e :| e in edges && e.kind == kind && PairKey(Ends(e)) == PairKey(p);
      ArrowKeyIsInjective(e.sourceId, e.targetId, p.source, p.target);
    }
  }
}
