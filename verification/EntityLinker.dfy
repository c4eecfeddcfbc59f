/**
 QUERIES edges from repositories to the entities their names point at
 (internal/analyzer/linker/entity_linker.go).
 */
module EntityLinker {
  import opened CodeModel
  import opened ConfidenceMerge
  import opened Linker
  import opened Options
  import opened Sequences
  import opened Strings

  /** `strings.ToLower`. */
  type Lower = string -> string

  const REPO_SUFFIXES := ["Repository", "Repo", "Dao", "DAO"]

  function BaseFrom(name: string, i: nat): Option<string>
    requires i <= |REPO_SUFFIXES|
    decreases |REPO_SUFFIXES| - i
  {
    if i == |REPO_SUFFIXES| then None
    else if HasSuffix(name, REPO_SUFFIXES[i]) then Some(name[..|name| - |REPO_SUFFIXES[i]|])
    else BaseFrom(name, i + 1)
  }

  /** A repository's label without its first listed suffix, if it has one. */
  function BaseName(name: string): Option<string> {
    BaseFrom(name, 0)
  }

  /** The names an entity is found under. */
  function NamesOf(lower: Lower, e: NodeView): set<string> {
    {lower(e.name)} + if e.fqn != "" then {lower(AfterLast('.', e.fqn))} else {}
  }

  predicate IsEntity(n: NodeView) {
    n.kind == "entity"
  }

  predicate IsRepository(n: NodeView) {
    n.kind == "repository"
  }

  /** The last entity found under a name. */
  function Lookup(lower: Lower, nodes: seq<NodeView>, name: string): Option<NodeView> {
    if nodes == [] then None
    else
      var last := nodes[|nodes| - 1];
      if IsEntity(last) && name in NamesOf(lower, last) then Some(last) else Lookup(lower, nodes[..|nodes| - 1], name)
  }

  /** The entity a repository's label points at. */
  function EntityFor(lower: Lower, nodes: seq<NodeView>, repo: NodeView): Option<NodeView> {
    if BaseName(repo.name).None? then None else Lookup(lower, nodes, lower(BaseName(repo.name).value))
  }

  /** The pair a repository wants linked. */
  function WantedPair(lower: Lower, nodes: seq<NodeView>, repo: NodeView): Option<Pair> {
    if EntityFor(lower, nodes, repo).None? then None else Some(Pair(repo.id, EntityFor(lower, nodes, repo).value.id))
  }

  function QueriesEdge(p: Pair): EdgeView {
    EdgeView("entity-link:" + p.source + ARROW + p.target, "queries", p.source, p.target, 0, "linker:entity", map["inferred" := Flag(true)])
  }

  /** The edge one repository adds. */
  function EdgesOf(lower: Lower, nodes: seq<NodeView>, known: set<string>, repo: NodeView): seq<EdgeView> {
    var wanted := WantedPair(lower, nodes, repo);
    if wanted.None? || PairKey(wanted.value) in known then [] else [QueriesEdge(wanted.value)]
  }

  function EdgesFrom(lower: Lower, nodes: seq<NodeView>, known: set<string>, repos: seq<NodeView>): seq<EdgeView> {
    if repos == [] then []
    else EdgesFrom(lower, nodes, known, repos[..|repos| - 1]) + EdgesOf(lower, nodes, known, repos[|repos| - 1])
  }

  /** The repositories in the order they are visited: some listing in ID order. */
  ghost predicate RepositoryOrder(nodes: seq<NodeView>, repos: seq<NodeView>) {
    multiset(repos) == multiset(Filter(IsRepository, nodes)) && SortedBy(NodeId, repos)
  }

  ghost predicate IsResult(lower: Lower, nodes: seq<NodeView>, edges: seq<EdgeView>, out: seq<EdgeView>) {
    exists repos :: RepositoryOrder(nodes, repos) && out == EdgesFrom(lower, nodes, JoinedKeys(edges, "queries"), repos)
  }

  // ---- the linker ----

  /** The loop over the suffixes: the first one that matches decides, whether or not an entity is found. */
  method LinkOne(lower: Lower, nodes: seq<NodeView>, repo: NodeView, entityByName: map<string, NodeView>, existing: set<string>)
    returns (more: seq<EdgeView>)
    requires forall name :: Lookup(lower, nodes, name) == if name in entityByName then Some(entityByName[name]) else None
    ensures more == EdgesOf(lower, nodes, existing, repo)
  {
    more := [];
    for i := 0 to |REPO_SUFFIXES|
      invariant BaseName(repo.name) == BaseFrom(repo.name, i)
      invariant more == []
    {
      if HasSuffix(repo.name, REPO_SUFFIXES[i]) {
        var base := lower(repo.name[..|repo.name| - |REPO_SUFFIXES[i]|]);
        if base !in entityByName {
          return;
        }
        var p := Pair(repo.id, entityByName[base].id);
        if PairKey(p) !in existing {
          more := [QueriesEdge(p)];
        }
        return;
      }
    }
  }

  lemma {:induction false} LookupAmongEntities(lower: Lower, nodes: seq<NodeView>, name: string)
    ensures Lookup(lower, Filter(IsEntity, nodes), name) == Lookup(lower, nodes, name)
  {
    if nodes == [] {
    } else {
      var front, last := nodes[..|nodes| - 1], nodes[|nodes| - 1];
      LookupAmongEntities(lower, front, name);
      if IsEntity(last) {
        var entities := Filter(IsEntity, front) + [last];
        assert entities[..|entities| - 1] == Filter(IsEntity, front);
      } else {
        assert Filter(IsEntity, front) + [] == Filter(IsEntity, front);
      }
    }
  }

  /** Later entities overwrite earlier ones under the same name. */
  method CollectNames(lower: Lower, nodes: seq<NodeView>, entities: seq<NodeView>) returns (byName: map<string, NodeView>)
    requires entities == Filter(IsEntity, nodes)
    ensures forall name :: Lookup(lower, nodes, name) == if name in byName then Some(byName[name]) else None
  {
    byName := map[];
    for i := 0 to |entities|
      invariant forall name :: Lookup(lower, entities[..i], name) == if name in byName then Some(byName[name]) else None
    {
      assert entities[..i + 1][..i] == entities[..i];
      var e := entities[i];
      FilterMembers(IsEntity, nodes);
      assert e in entities;
      byName := byName[lower(e.name) := e];
      if e.fqn != "" {
        byName := byName[lower(AfterLast('.', e.fqn)) := e];
      }
    }
    assert entities[..|entities|] == entities;
    forall name
      ensures Lookup(lower, nodes, name) == Lookup(lower, entities, name)
    {
      LookupAmongEntities(lower, nodes, name);
    }
  }

  lemma {:induction false} NothingToLink(lower: Lower, nodes: seq<NodeView>, known: set<string>, repos: seq<NodeView>)
    requires Filter(IsEntity, nodes) == [] || repos == []
    ensures EdgesFrom(lower, nodes, known, repos) == []
  {
    if repos == [] {
    } else {
      NothingToLink(lower, nodes, known, repos[..|repos| - 1]);
      var repo := repos[|repos| - 1];
      if BaseName(repo.name).Some? {
        LookupAmongEntities(lower, nodes, lower(BaseName(repo.name).value));
      }
    }
  }

  method Link(lower: Lower, nodes: seq<NodeView>, edges: seq<EdgeView>) returns (r: Result)
    ensures r.nodes == [] && IsResult(lower, nodes, edges, r.edges)
  {
    var entities, repositories: seq<NodeView> := [], [];
    for i := 0 to |nodes|
      invariant entities == Filter(IsEntity, nodes[..i]) && repositories == Filter(IsRepository, nodes[..i])
    {
      assert nodes[..i + 1][..i] == nodes[..i];
      if nodes[i].kind == "entity" {
        entities := entities + [nodes[i]];
      } else if nodes[i].kind == "repository" {
        repositories := repositories + [nodes[i]];
      }
    }
    assert nodes[..|nodes|] == nodes;
    ghost var known := JoinedKeys(edges, "queries");
    var sorted := SortById(NodeId, repositories);
    if |entities| == 0 || |repositories| == 0 {
      assert entities == [] || sorted == [];
      NothingToLink(lower, nodes, known, sorted);
      return Result([], []);
    }
    var entityByName := CollectNames(lower, nodes, entities);
    var existing := CollectKeys(edges, "queries");
    var newEdges: seq<EdgeView> := [];
    for i := 0 to |sorted|
      invariant newEdges == EdgesFrom(lower, nodes, known, sorted[..i])
    {
      hide Lookup, BaseName, EntityFor;
      assert sorted[..i + 1][..i] == sorted[..i];
      var more := LinkOne(lower, nodes, sorted[i], entityByName, existing);
      newEdges := newEdges + more;
    }
    assert sorted[..|sorted|] == sorted;
    r := Result([], newEdges);
  }

  // ---- what a lookup finds ----

  /** A name is found exactly when some entity goes by it, and what is found goes by it. */
  lemma {:induction false} LookupIsExact(lower: Lower, nodes: seq<NodeView>, name: string)
    ensures Lookup(lower, nodes, name).Some? <==> exists e :: e in nodes && IsEntity(e) && name in NamesOf(lower, e)
    ensures Lookup(lower, nodes, name).Some? ==>
              var e := Lookup(lower, nodes, name).value;
              e in nodes && IsEntity(e) && name in NamesOf(lower, e)
  {
    if nodes == [] {
    } else {
      var front, last := nodes[..|nodes| - 1], nodes[|nodes| - 1];
      LookupIsExact(lower, front, name);
      assert nodes == front + [last];
    }
  }

  /** Nodes that are no entities do not change a lookup. */
  lemma {:induction false} LookupIgnores(lower: Lower, nodes: seq<NodeView>, more: seq<NodeView>, name: string)
    requires forall n :: n in more ==> !IsEntity(n)
    ensures Lookup(lower, nodes + more, name) == Lookup(lower, nodes, name)
    decreases |more|
  {
    if more == [] {
      assert nodes + more == nodes;
    } else {
      var all := nodes + more;
      assert all[..|all| - 1] == nodes + more[..|more| - 1];
      assert more[|more| - 1] in more;
      LookupIgnores(lower, nodes, more[..|more| - 1], name);
    }
  }

  /** When no two entities share a name, a shuffle of the nodes changes no lookup. */
  lemma LookupIgnoresOrder(lower: Lower, nodes: seq<NodeView>, nodes': seq<NodeView>, name: string)
    requires forall n :: n in nodes <==> n in nodes'
    requires forall d, e :: d in nodes && e in nodes && IsEntity(d) && IsEntity(e) && name in NamesOf(lower, d) && name in NamesOf(lower, e) ==> d == e
    ensures Lookup(lower, nodes, name) == Lookup(lower, nodes', name)
  {
    LookupIsExact(lower, nodes, name);
    LookupIsExact(lower, nodes', name);
  }

  /** `base` is the label without the first of the four suffixes it ends in. */
  ghost predicate StripsTo(name: string, base: string) {
    if HasSuffix(name, "Repository") then name == base + "Repository"
    else if HasSuffix(name, "Repo") then name == base + "Repo"
    else if HasSuffix(name, "Dao") then name == base + "Dao"
    else HasSuffix(name, "DAO") && name == base + "DAO"
  }

  lemma BaseIsStripped(name: string, base: string)
    ensures BaseName(name) == Some(base) <==> StripsTo(name, base)
  {
    assert REPO_SUFFIXES == ["Repository", "Repo", "Dao", "DAO"];
    SuffixStripped(name, "Repository", base);
    SuffixStripped(name, "Repo", base);
    SuffixStripped(name, "Dao", base);
    SuffixStripped(name, "DAO", base);
    assert BaseFrom(name, 4) == None;
    assert BaseFrom(name, 3) == if HasSuffix(name, "DAO") then Some(name[..|name| - 3]) else None;
    assert BaseFrom(name, 2) == if HasSuffix(name, "Dao") then Some(name[..|name| - 3]) else BaseFrom(name, 3);
    assert BaseFrom(name, 1) == if HasSuffix(name, "Repo") then Some(name[..|name| - 4]) else BaseFrom(name, 2);
  }

  /** The lower-cased label of an entity, or what follows the last dot of its qualified name, lower-cased. */
  ghost predicate GoesBy(lower: Lower, e: NodeView, name: string) {
    || name == lower(e.name)
    || (e.fqn != "" && exists simple :: name == lower(simple) && '.' !in simple && (simple == e.fqn || exists pre :: e.fqn == pre + "." + simple))
  }

  lemma NoLaterDot(s: string, a: string, x: string)
    requires s == a + "." + x && '.' !in x
    ensures s[|a|] == '.' && s[|a| + 1..] == x && forall i :: |a| < i < |s| ==> s[i] != '.'
  {
    assert forall i :: |a| < i < |s| ==> s[i] == x[i - |a| - 1];
  }

  /** A string splits at its last dot in one way only. */
  lemma TwoLastDots(s: string, a: string, x: string, b: string, y: string)
    requires s == a + "." + x == b + "." + y && '.' !in x && '.' !in y
    ensures x == y
  {
    NoLaterDot(s, a, x);
    NoLaterDot(s, b, y);
  }

  lemma SimpleNameIs(fqn: string, simple: string)
    ensures simple == AfterLast('.', fqn) <==> '.' !in simple && (simple == fqn || exists pre :: fqn == pre + "." + simple)
  {
    AfterLastIs('.', fqn);
    if '.' in fqn {
      var before :| fqn == before + ['.'] + AfterLast('.', fqn);
      assert fqn == before + "." + AfterLast('.', fqn);
    }
    if pre :| '.' !in simple && fqn == pre + "." + simple {
      var before :| fqn == before + ['.'] + AfterLast('.', fqn);
      assert fqn == before + "." + AfterLast('.', fqn);
      TwoLastDots(fqn, before, AfterLast('.', fqn), pre, simple);
    }
  }

  lemma NamesAreGoneBy(lower: Lower, e: NodeView, name: string)
    ensures name in NamesOf(lower, e) <==> GoesBy(lower, e, name)
  {
    SimpleNameIs(e.fqn, AfterLast('.', e.fqn));
    forall simple | '.' !in simple && (simple == e.fqn || exists pre :: e.fqn == pre + "." + simple)
      ensures simple == AfterLast('.', e.fqn)
    {
      SimpleNameIs(e.fqn, simple);
    }
  }

  /** The `k`-th node is the last entity that goes by the name. */
  ghost predicate LastNamed(lower: Lower, nodes: seq<NodeView>, name: string, k: int) {
    && 0 <= k < |nodes| && nodes[k].kind == "entity" && GoesBy(lower, nodes[k], name)
    && forall j :: k < j < |nodes| && nodes[j].kind == "entity" ==> !GoesBy(lower, nodes[j], name)
  }

  ghost predicate NodeAt(nodes: seq<NodeView>, k: int, e: NodeView) {
    0 <= k < |nodes| && nodes[k] == e
  }

  ghost predicate EntityNamed(lower: Lower, nodes: seq<NodeView>, name: string, e: NodeView) {
    exists k :: LastNamed(lower, nodes, name, k) && NodeAt(nodes, k, e)
  }

  /** The last entity that goes by what is left of the repository's label. */
  ghost predicate PointsAt(lower: Lower, nodes: seq<NodeView>, repo: NodeView, e: NodeView) {
    exists base :: StripsTo(repo.name, base) && EntityNamed(lower, nodes, lower(base), e)
  }

  lemma {:induction false} LookupIsLast(lower: Lower, nodes: seq<NodeView>, name: string, k: int)
    requires LastNamed(lower, nodes, name, k)
    ensures Lookup(lower, nodes, name) == Some(nodes[k])
  {
    hide GoesBy, NamesOf;
    var n := |nodes| - 1;
    NamesAreGoneBy(lower, nodes[n], name);
    if k == n {
    } else {
      LookupIsLast(lower, nodes[..n], name, k);
    }
  }

  lemma {:induction false} LookupFindsLast(lower: Lower, nodes: seq<NodeView>, name: string) returns (k: int)
    requires Lookup(lower, nodes, name).Some?
    ensures LastNamed(lower, nodes, name, k) && Lookup(lower, nodes, name) == Some(nodes[k])
  {
    hide GoesBy, NamesOf;
    var n := |nodes| - 1;
    NamesAreGoneBy(lower, nodes[n], name);
    if IsEntity(nodes[n]) && name in NamesOf(lower, nodes[n]) {
      k := n;
    } else {
      k := LookupFindsLast(lower, nodes[..n], name);
    }
  }

  lemma LookupIsNamed(lower: Lower, nodes: seq<NodeView>, name: string, e: NodeView)
    ensures Lookup(lower, nodes, name) == Some(e) <==> EntityNamed(lower, nodes, name, e)
  {
    hide GoesBy;
    if Lookup(lower, nodes, name) == Some(e) {
      var k := LookupFindsLast(lower, nodes, name);
      assert NodeAt(nodes, k, e);
    }
    if k :| LastNamed(lower, nodes, name, k) && NodeAt(nodes, k, e) {
      LookupIsLast(lower, nodes, name, k);
    }
  }

  /** A repository wants to be linked to the entity its label points at. */
  lemma WantedIsPointedAt(lower: Lower, nodes: seq<NodeView>, repo: NodeView, p: Pair)
    ensures WantedPair(lower, nodes, repo) == Some(p) <==> exists e :: PointsAt(lower, nodes, repo, e) && p == Pair(repo.id, e.id)
  {
    hide EntityNamed, StripsTo, BaseName, Lookup;
    if WantedPair(lower, nodes, repo) == Some(p) {
      var base := BaseName(repo.name).value;
      BaseIsStripped(repo.name, base);
      var e := Lookup(lower, nodes, lower(base)).value;
      LookupIsNamed(lower, nodes, lower(base), e);
      assert PointsAt(lower, nodes, repo, e);
    }
    if e :| PointsAt(lower, nodes, repo, e) && p == Pair(repo.id, e.id) {
      var base :| StripsTo(repo.name, base) && EntityNamed(lower, nodes, lower(base), e);
      BaseIsStripped(repo.name, base);
      LookupIsNamed(lower, nodes, lower(base), e);
    }
  }

  // ---- exactly which edges are added ----

  lemma {:induction false} EdgesFromMembers(lower: Lower, nodes: seq<NodeView>, known: set<string>, repos: seq<NodeView>, e: EdgeView)
    ensures e in EdgesFrom(lower, nodes, known, repos) <==> exists r :: r in repos && e in EdgesOf(lower, nodes, known, r)
  {
    if repos == [] {
    } else {
      var front, last := repos[..|repos| - 1], repos[|repos| - 1];
      EdgesFromMembers(lower, nodes, known, front, e);
      assert repos == front + [last];
    }
  }

  lemma OrderMembers(nodes: seq<NodeView>, repos: seq<NodeView>, r: NodeView)
    requires RepositoryOrder(nodes, repos)
    ensures r in repos <==> r in nodes && IsRepository(r)
  {
    FilterMembers(IsRepository, nodes);
    assert r in repos <==> r in multiset(repos);
    assert r in Filter(IsRepository, nodes) <==> r in multiset(Filter(IsRepository, nodes));
  }

  /** Some repository points at the pair's entity. */
  ghost predicate Wants(lower: Lower, nodes: seq<NodeView>, p: Pair) {
    exists r :: r in nodes && IsRepository(r) && WantedPair(lower, nodes, r) == Some(p)
  }

  /** The added edges are exactly those for wanted pairs whose key is not there yet. */
  lemma AddedEdgesAreExact(lower: Lower, nodes: seq<NodeView>, edges: seq<EdgeView>, out: seq<EdgeView>, e: EdgeView)
    requires IsResult(lower, nodes, edges, out)
    ensures e in out <==> e == QueriesEdge(Ends(e)) && Wants(lower, nodes, Ends(e)) && PairKey(Ends(e)) !in JoinedKeys(edges, "queries")
  {
    hide WantedPair, PairKey;
    var known := JoinedKeys(edges, "queries");
    var repos :| RepositoryOrder(nodes, repos) && out == EdgesFrom(lower, nodes, known, repos);
    EdgesFromMembers(lower, nodes, known, repos, e);
    if e in out {
      var r :| r in repos && e in EdgesOf(lower, nodes, known, r);
      OrderMembers(nodes, repos, r);
    }
    if e == QueriesEdge(Ends(e)) && Wants(lower, nodes, Ends(e)) && PairKey(Ends(e)) !in known {
      var r :| r in nodes && IsRepository(r) && WantedPair(lower, nodes, r) == Some(Ends(e));
      OrderMembers(nodes, repos, r);
      assert e in EdgesOf(lower, nodes, known, r);
    }
  }

  /** The edge from a repository to the entity its label points at, when its key is new. */
  ghost predicate QueriesFor(lower: Lower, nodes: seq<NodeView>, known: set<string>, r: NodeView, x: NodeView, e: EdgeView) {
    && r in nodes && r.kind == "repository" && PointsAt(lower, nodes, r, x) && PairKey(Pair(r.id, x.id)) !in known
    && e == EdgeView("entity-link:" + r.id + "->" + x.id, "queries", r.id, x.id, 0, "linker:entity", map["inferred" := Flag(true)])
  }

  /** The added edges, field by field. */
  lemma QueriesAreExact(lower: Lower, nodes: seq<NodeView>, edges: seq<EdgeView>, out: seq<EdgeView>, e: EdgeView)
    requires IsResult(lower, nodes, edges, out)
    ensures e in out <==> exists r, x :: QueriesFor(lower, nodes, JoinedKeys(edges, "queries"), r, x, e)
  {
    hide PointsAt, WantedPair, PairKey, JoinedKeys;
    var known := JoinedKeys(edges, "queries");
    AddedEdgesAreExact(lower, nodes, edges, out, e);
    if e in out {
      var r :| r in nodes && IsRepository(r) && WantedPair(lower, nodes, r) == Some(Ends(e));
      WantedIsPointedAt(lower, nodes, r, Ends(e));
      var x :| PointsAt(lower, nodes, r, x) && Ends(e) == Pair(r.id, x.id);
      assert QueriesFor(lower, nodes, known, r, x, e);
    }
    if r, x :| QueriesFor(lower, nodes, known, r, x, e) {
      WantedIsPointedAt(lower, nodes, r, Pair(r.id, x.id));
      assert Ends(e) == Pair(r.id, x.id) && e == QueriesEdge(Ends(e));
      assert Wants(lower, nodes, Ends(e));
    }
  }

  ghost predicate AscendingSources(es: seq<EdgeView>) {
    forall i, j :: 0 <= i < j < |es| ==> Less(es[i].sourceId, es[j].sourceId)
  }

  lemma {:induction false} FilterKeepsUnique(nodes: seq<NodeView>)
    requires UniqueIds(nodes)
    ensures NoDuplicates(Filter(IsRepository, nodes))
  {
    if nodes == [] {
    } else {
      var front, last := nodes[..|nodes| - 1], nodes[|nodes| - 1];
      FilterKeepsUnique(front);
      var kept := Filter(IsRepository, front);
      forall i | 0 <= i < |kept|
        ensures kept[i] != last
      {
        assert kept[i] in kept;
        FilterMember(IsRepository, front, kept[i]);
      }
    }
  }

  lemma RepositoriesDiffer(nodes: seq<NodeView>, repos: seq<NodeView>)
    requires UniqueIds(nodes) && RepositoryOrder(nodes, repos)
    ensures forall i, j :: 0 <= i < j < |repos| ==> Less(repos[i].id, repos[j].id)
  {
    FilterKeepsUnique(nodes);
    PermutationKeepsDistinct(Filter(IsRepository, nodes), repos);
    forall i, j | 0 <= i < j < |repos|
      ensures Less(repos[i].id, repos[j].id)
    {
      assert AtMost(NodeId(repos[i]), NodeId(repos[j]));
      assert repos[i] != repos[j] && repos[i] in repos && repos[j] in repos;
      OrderMembers(nodes, repos, repos[i]);
      OrderMembers(nodes, repos, repos[j]);
      var k :| 0 <= k < |nodes| && nodes[k] == repos[i];
      var l :| 0 <= l < |nodes| && nodes[l] == repos[j];
      assert nodes[k].id != nodes[l].id;
    }
  }

  lemma {:induction false} EdgesAscend(lower: Lower, nodes: seq<NodeView>, known: set<string>, repos: seq<NodeView>)
    requires forall i, j :: 0 <= i < j < |repos| ==> Less(repos[i].id, repos[j].id)
    ensures AscendingSources(EdgesFrom(lower, nodes, known, repos))
  {
    if repos == [] {
    } else {
      var front, last := repos[..|repos| - 1], repos[|repos| - 1];
      EdgesAscend(lower, nodes, known, front);
      var before := EdgesFrom(lower, nodes, known, front);
      forall i | 0 <= i < |before|
        ensures Less(before[i].sourceId, last.id)
      {
        assert before[i] in before;
        EdgesFromMembers(lower, nodes, known, front, before[i]);
        var r :| r in front && before[i] in EdgesOf(lower, nodes, known, r);
        var k :| 0 <= k < |front| && repos[k] == r;
      }
    }
  }

  /** With unique node IDs every repository adds at most one edge, and they come in ID order. */
  lemma OneEdgePerRepository(lower: Lower, nodes: seq<NodeView>, edges: seq<EdgeView>, out: seq<EdgeView>)
    requires UniqueIds(nodes) && IsResult(lower, nodes, edges, out)
    ensures AscendingSources(out)
  {
    var known := JoinedKeys(edges, "queries");
    var repos :| RepositoryOrder(nodes, repos) && out == EdgesFrom(lower, nodes, known, repos);
    RepositoriesDiffer(nodes, repos);
    EdgesAscend(lower, nodes, known, repos);
  }

  // ---- running twice, and who ends up linked ----

  ghost predicate Queried(edges: seq<EdgeView>, p: Pair) {
    Joined(edges, "queries", p)
  }

  lemma QueriedHasKey(edges: seq<EdgeView>, p: Pair)
    requires Queried(edges, p)
    ensures PairKey(p) in JoinedKeys(edges, "queries")
  {
    var e :| e in edges && e.kind == "queries" && Ends(e) == p;
  }

  lemma QueriedAfter(lower: Lower, nodes: seq<NodeView>, edges: seq<EdgeView>, out: seq<EdgeView>, p: Pair)
    requires IsResult(lower, nodes, edges, out)
    ensures Queried(edges + out, p) <==> Queried(edges, p) || (Wants(lower, nodes, p) && PairKey(p) !in JoinedKeys(edges, "queries"))
  {
    var e := QueriesEdge(p);
    assert Ends(e) == p;
    AddedEdgesAreExact(lower, nodes, edges, out, e);
    if Queried(edges, p) {
      var d :| d in edges && d.kind == "queries" && Ends(d) == p;
      assert d in edges + out;
    }
    if e in out {
      assert e in edges + out;
    }
    if Queried(edges + out, p) && !Queried(edges, p) {
      var d :| d in edges + out && d.kind == "queries" && Ends(d) == p;
      assert d in out;
      AddedEdgesAreExact(lower, nodes, edges, out, d);
    }
  }

  /** Run again on its own output, the linker adds nothing. */
  lemma SecondRunAddsNothing(lower: Lower, nodes: seq<NodeView>, edges: seq<EdgeView>, out: seq<EdgeView>, again: seq<EdgeView>)
    requires IsResult(lower, nodes, edges, out) && IsResult(lower, nodes, edges + out, again)
    ensures again == []
  {
    if again != [] {
      var e := SomeMember(again);
      AddedEdgesAreExact(lower, nodes, edges + out, again, e);
      JoinedKeysConcat(edges, out, "queries");
      QueriedAfter(lower, nodes, edges, out, Ends(e));
      QueriedHasKey(edges + out, Ends(e));
    }
  }

  /** Every repository ends up linked to its entity exactly when each wanted pair is linked already or has a new key. */
  lemma EveryRepositoryLinkedIff(lower: Lower, nodes: seq<NodeView>, edges: seq<EdgeView>, out: seq<EdgeView>)
    requires IsResult(lower, nodes, edges, out)
    ensures (forall p :: Wants(lower, nodes, p) ==> Queried(edges + out, p)) <==>
            (forall p :: Wants(lower, nodes, p) ==> Queried(edges, p) || PairKey(p) !in JoinedKeys(edges, "queries"))
  {
    forall p
      ensures Queried(edges + out, p) <==> Queried(edges, p) || (Wants(lower, nodes, p) && PairKey(p) !in JoinedKeys(edges, "queries"))
    {
      QueriedAfter(lower, nodes, edges, out, p);
    }
  }

  /** Separator-free repository IDs and QUERIES sources suffice. */
  lemma SeparatorFreeIdsSuffice(lower: Lower, nodes: seq<NodeView>, edges: seq<EdgeView>, out: seq<EdgeView>)
    requires IsResult(lower, nodes, edges, out)
    requires forall r :: r in nodes && IsRepository(r) ==> ArrowFree(r.id)
    requires forall e :: e in edges && e.kind == "queries" ==> ArrowFree(e.sourceId)
    ensures forall p :: Wants(lower, nodes, p) ==> Queried(edges + out, p)
  {
    EveryRepositoryLinkedIff(lower, nodes, edges, out);
    forall p | Wants(lower, nodes, p)
      ensures Queried(edges, p) || PairKey(p) !in JoinedKeys(edges, "queries")
    {
      var r :| r in nodes && IsRepository(r) && WantedPair(lower, nodes, r) == Some(p);
      KeyMeansEdge(edges, "queries", p);
    }
  }

  // ---- closedness and independence ----

  lemma AddedEdgesAreClosed(lower: Lower, nodes: seq<NodeView>, edges: seq<EdgeView>, out: seq<EdgeView>)
    requires IsResult(lower, nodes, edges, out)
    ensures Closed(nodes, out)
  {
    forall e | e in out
      ensures HasNode(nodes, e.sourceId) && HasNode(nodes, e.targetId)
    {
      AddedEdgesAreExact(lower, nodes, edges, out, e);
      var r :| r in nodes && IsRepository(r) && WantedPair(lower, nodes, r) == Some(Ends(e));
      LookupIsExact(lower, nodes, lower(BaseName(r.name).value));
    }
  }

  lemma {:induction false} SameEdgesFrom(lower: Lower, nodes: seq<NodeView>, more: seq<NodeView>, known: set<string>, repos: seq<NodeView>)
    requires forall n :: n in more ==> !IsEntity(n)
    ensures EdgesFrom(lower, nodes + more, known, repos) == EdgesFrom(lower, nodes, known, repos)
  {
    if repos == [] {
    } else {
      SameEdgesFrom(lower, nodes, more, known, repos[..|repos| - 1]);
      var repo := repos[|repos| - 1];
      if BaseName(repo.name).Some? {
        LookupIgnores(lower, nodes, more, lower(BaseName(repo.name).value));
      }
    }
  }

  /** Nodes of other kinds and edges of other kinds do not matter. */
  lemma OnlyEntitiesAndQueriesMatter(lower: Lower, nodes: seq<NodeView>, edges: seq<EdgeView>, moreNodes: seq<NodeView>,
                                     moreEdges: seq<EdgeView>, out: seq<EdgeView>)
    requires forall n :: n in moreNodes ==> !IsEntity(n) && !IsRepository(n)
    requires forall e :: e in moreEdges ==> e.kind != "queries"
    ensures IsResult(lower, nodes + moreNodes, edges + moreEdges, out) <==> IsResult(lower, nodes, edges, out)
  {
    assert JoinedKeys(edges + moreEdges, "queries") == JoinedKeys(edges, "queries");
    FilterConcat(IsRepository, nodes, moreNodes);
    FilterNone(IsRepository, moreNodes);
    assert Filter(IsRepository, nodes + moreNodes) == Filter(IsRepository, nodes);
    forall repos
      ensures EdgesFrom(lower, nodes + moreNodes, JoinedKeys(edges, "queries"), repos) == EdgesFrom(lower, nodes, JoinedKeys(edges, "queries"), repos)
    {
      SameEdgesFrom(lower, nodes, moreNodes, JoinedKeys(edges, "queries"), repos);
    }
  }
}
