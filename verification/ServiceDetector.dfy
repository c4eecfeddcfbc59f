/**
 Services and the nodes they contain (internal/analyzer/service_detector.go): every node belongs
 to the deepest module directory that holds its file.
 */
module ServiceDetector {
  import opened BuildFiles
  import opened CodeModel
  import opened ConfidenceMerge
  import opened Options
  import opened Sequences
  import opened Strings

  // ---- which directory a file belongs to ----

  predicate Contains(dir: string, p: string) {
    dir == "" || dir + "/" <= p || p == dir
  }

  /** The parts of a path between its slashes. */
  function Segments(p: string): (parts: seq<string>)
    ensures parts != []
  {
    if p == "" then [""]
    else
      var rest := Segments(p[1..]);
      if p[0] == '/' then [""] + rest else [[p[0]] + rest[0]] + rest[1..]
  }

  lemma SamePrefix(a: string, b: string)
    requires a != "" && b != ""
    ensures a <= b <==> a[0] == b[0] && a[1..] <= b[1..]
  {
    assert a == [a[0]] + a[1..] && b == [b[0]] + b[1..];
  }

  lemma SamePrefixLists(a: seq<string>, b: seq<string>)
    requires a != [] && b != []
    ensures a <= b <==> a[0] == b[0] && a[1..] <= b[1..]
  {
    assert a == [a[0]] + a[1..] && b == [b[0]] + b[1..];
  }

  lemma FirstSegment(p: string)
    requires p != ""
    ensures p[0] == '/' ==> Segments(p)[0] == "" && Segments(p)[1..] == Segments(p[1..])
    ensures p[0] != '/' ==>
              && Segments(p)[0] == [p[0]] + Segments(p[1..])[0]
              && Segments(p)[0][0] == p[0] && Segments(p)[0][1..] == Segments(p[1..])[0]
              && Segments(p)[1..] == Segments(p[1..])[1..]
  {
  }

  lemma {:induction false} SegmentPrefix(dir: string, p: string)
    ensures Segments(dir) <= Segments(p) <==> dir + "/" <= p || p == dir
  {
    SamePrefixLists(Segments(dir), Segments(p));
    if dir == "" || p == "" {
      if p != "" {
        FirstSegment(p);
        SamePrefix("/", p);
      } else if dir != "" {
        FirstSegment(dir);
      }
      assert dir == "" ==> Segments(dir) == [""] && Segments(dir)[1..] == [];
    } else {
      FirstSegment(dir);
      FirstSegment(p);
      SegmentPrefix(dir[1..], p[1..]);
      SamePrefixLists(Segments(dir[1..]), Segments(p[1..]));
      SamePrefix(dir + "/", p);
      assert (dir + "/")[1..] == dir[1..] + "/";
      assert dir == [dir[0]] + dir[1..] && p == [p[0]] + p[1..];
      hide Segments;
      if dir[0] == p[0] && dir[0] == '/' {
        assert Segments(dir) <= Segments(p) <==> Segments(dir[1..]) <= Segments(p[1..]);
      } else if dir[0] == p[0] {
        assert Segments(dir)[0] == Segments(p)[0] <==> Segments(dir[1..])[0] == Segments(p[1..])[0];
      }
    }
  }

  /** A directory contains a path exactly when it is the root or its segments begin the path's. */
  lemma ContainsBySegments(dir: string, p: string)
    ensures Contains(dir, p) <==> dir == "" || Segments(dir) <= Segments(p)
  {
    SegmentPrefix(dir, p);
  }

  /** The longest module directory that contains the path. */
  ghost predicate IsHome(dirs: set<string>, p: string, dir: string) {
    && dir in dirs && Contains(dir, p)
    && forall d :: d in dirs && Contains(d, p) ==> |d| <= |dir|
  }

  lemma HomeIsUnique(dirs: set<string>, p: string, a: string, b: string)
    requires IsHome(dirs, p, a) && IsHome(dirs, p, b)
    ensures a == b
  {
    assert a == p[..|a|] && b == p[..|b|];
  }

  /** A path has a home exactly when some module directory contains it. */
  lemma {:induction false} SomeHome(dirs: set<string>, p: string, dir: string)
    requires dir in dirs && Contains(dir, p)
    ensures exists d :: IsHome(dirs, p, d)
    decreases |p| - |dir|
  {
    if d :| d in dirs && Contains(d, p) && |d| > |dir| {
      SomeHome(dirs, p, d);
    } else {
      assert IsHome(dirs, p, dir);
    }
  }

  ghost function HomeOf(dirs: set<string>, p: string): (home: Option<string>)
    ensures home.Some? ==> IsHome(dirs, p, home.value)
    ensures home.None? ==> forall d :: d in dirs ==> !Contains(d, p)
  {
    if exists d :: d in dirs && Contains(d, p) then
      var d :| d in dirs && Contains(d, p);
      SomeHome(dirs, p, d);
      var home :| IsHome(dirs, p, home);
      Some(home)
    else None
  }

  /** Longer directories first, ties by name. */
  predicate Before(a: string, b: string) {
    |a| > |b| || (|a| == |b| && Less(a, b))
  }

  ghost predicate DeepestFirst(dirs: seq<string>) {
    forall i, j :: 0 <= i < j < |dirs| ==> Before(dirs[i], dirs[j])
  }

  lemma BeforeTransitive(a: string, b: string, c: string)
    requires Before(a, b) && Before(b, c)
    ensures Before(a, c)
  {
    if |a| == |b| == |c| {
      LessTransitive(a, b, c);
    }
  }

  lemma InsertKeepsOrder(dirs: seq<string>, x: string, at: nat)
    requires DeepestFirst(dirs) && x !in dirs && at <= |dirs|
    requires forall i :: 0 <= i < at ==> Before(dirs[i], x)
    requires at < |dirs| ==> !Before(dirs[at], x)
    ensures DeepestFirst(InsertAt(dirs, x, at))
  {
    var t := InsertAt(dirs, x, at);
    forall i, j | 0 <= i < j < |t|
      ensures Before(t[i], t[j])
    {
      if i == at {
        LessTotal(dirs[at], x);
        assert Before(x, dirs[at]);
        if j > at + 1 {
          BeforeTransitive(x, dirs[at], dirs[j - 1]);
        }
      } else if i < at < j {
        assert Before(dirs[i], dirs[j - 1]);
      }
    }
  }

  method SortDirs(keys: set<string>) returns (dirs: seq<string>)
    ensures DeepestFirst(dirs) && forall d :: d in dirs <==> d in keys
  {
    dirs := [];
    var rest := keys;
    while rest != {}
      invariant rest <= keys && DeepestFirst(dirs)
      invariant forall d :: d in dirs <==> d in keys && d !in rest
      decreases rest
    {
      var x :| x in rest;
      var at: nat := 0;
      while at < |dirs| && Before(dirs[at], x)
        invariant at <= |dirs|
        invariant forall i :: 0 <= i < at ==> Before(dirs[i], x)
      {
        at := at + 1;
      }
      InsertKeepsOrder(dirs, x, at);
      InsertedElements(dirs, x, at);
      dirs := InsertAt(dirs, x, at);
      rest := rest - {x};
    }
  }

  /** The first match in deepest-first order. */
  method MatchDir(dirs: seq<string>, p: string, ghost keys: set<string>) returns (home: Option<string>)
    requires DeepestFirst(dirs) && forall d :: d in dirs <==> d in keys
    ensures home == HomeOf(keys, p)
  {
    home := None;
    for i := 0 to |dirs|
      invariant forall j :: 0 <= j < i ==> !Contains(dirs[j], p)
    {
      if Contains(dirs[i], p) {
        assert dirs[i] in dirs;
        assert IsHome(keys, p, dirs[i]);
        HomeIsUnique(keys, p, dirs[i], HomeOf(keys, p).value);
        return Some(dirs[i]);
      }
    }
  }

  // ---- services ----

  function IfBlank(v: string, fallback: string): string {
    if v == "" then fallback else v
  }

  function ServiceId(dir: string, name: string): string {
    "service:" + IfBlank(dir, ".") + ":" + name
  }

  /** `extractServiceName`; `read` gives the name found in a build file, empty when there is none. */
  function ServiceName(read: ModuleInfo -> string, projectDir: string, dir: string, info: ModuleInfo): string {
    if info.file != "" && read(info) != "" then read(info)
    else if dir == "" then IfBlank(projectDir, "root")
    else AfterLast('/', dir)
  }

  /** The name read from the build file; without one the project's name for the root, the last segment elsewhere. */
  lemma ServiceNameIs(read: ModuleInfo -> string, projectDir: string, dir: string, info: ModuleInfo)
    ensures var name := ServiceName(read, projectDir, dir, info);
            if info.file != "" && read(info) != "" then name == read(info)
            else if dir == "" then name == if projectDir == "" then "root" else projectDir
            else '/' !in name && (name == dir || exists parent :: dir == parent + "/" + name)
  {
    AfterLastIs('/', dir);
    if '/' in dir {
      var parent :| dir == parent + ['/'] + AfterLast('/', dir);
      assert dir == parent + "/" + AfterLast('/', dir);
    }
  }

  /** The modules with their names. */
  datatype Layout = Layout(modules: map<string, ModuleInfo>, names: map<string, string>)

  ghost predicate Named(l: Layout) {
    l.names.Keys == l.modules.Keys
  }

  function ServiceNode(dir: string, info: ModuleInfo, name: string, endpoints: nat, entities: nat): NodeView {
    NodeView(ServiceId(dir, name), "service", name, 0, "", "", IfBlank(dir, "."), 0, 0, "backend", "", [],
             map["build_tool" := Text(info.tool), "detected_from" := Text(info.file),
                 "endpoint_count" := Number(endpoints), "entity_count" := Number(entities)])
  }

  function ContainsEdge(service: string, id: string): EdgeView {
    EdgeView("edge:" + service + ":contains:" + id, "contains", service, id, 0, "", map[])
  }

  // ---- what Detect does to nodes, edges and counts ----

  ghost function Home(l: Layout, v: NodeView): Option<string> {
    HomeOf(l.names.Keys, v.filePath)
  }

  ghost function Stamped(l: Layout, v: NodeView): NodeView {
    if Home(l, v).None? then v else v.(properties := v.properties["service" := Text(l.names[Home(l, v).value])])
  }

  ghost function EdgeOf(l: Layout, v: NodeView): seq<EdgeView> {
    if Home(l, v).None? then [] else [ContainsEdge(ServiceId(Home(l, v).value, l.names[Home(l, v).value]), v.id)]
  }

  ghost function EdgesOf(l: Layout, views: seq<NodeView>): seq<EdgeView> {
    if views == [] then [] else EdgesOf(l, views[..|views| - 1]) + EdgeOf(l, views[|views| - 1])
  }

  /** A node of this kind whose home bears this name. */
  ghost predicate CountsFor(l: Layout, kind: string, name: string, v: NodeView) {
    v.kind == kind && Home(l, v).Some? && l.names[Home(l, v).value] == name
  }

  ghost function Tally(l: Layout, kind: string, name: string, views: seq<NodeView>): nat {
    if views == [] then 0
    else Tally(l, kind, name, views[..|views| - 1]) + if CountsFor(l, kind, name, views[|views| - 1]) then 1 else 0
  }

  // ---- exactly one edge per contained node ----

  function Into(id: string): EdgeView -> bool {
    (e: EdgeView) => e.targetId == id
  }

  lemma {:induction false} NoEdgeInto(l: Layout, views: seq<NodeView>, id: string)
    requires forall v :: v in views ==> v.id != id
    ensures Filter(Into(id), EdgesOf(l, views)) == []
  {
    if views == [] {
    } else {
      var front, last := views[..|views| - 1], views[|views| - 1];
      assert views == front + [last] && last in views;
      NoEdgeInto(l, front, id);
      FilterConcat(Into(id), EdgesOf(l, front), EdgeOf(l, last));
      FilterNone(Into(id), EdgeOf(l, last));
    }
  }

  lemma EdgeGoesToItsNode(l: Layout, v: NodeView)
    ensures forall e :: e in EdgeOf(l, v) ==> e.targetId == v.id
  {
  }

  /** With unique node IDs, the edges into a node are the one from its home, or none when it has no home. */
  lemma {:induction false} OneEdgePerContainedNode(l: Layout, views: seq<NodeView>, i: nat)
    requires UniqueIds(views) && i < |views|
    ensures Filter(Into(views[i].id), EdgesOf(l, views)) == EdgeOf(l, views[i])
  {
    hide Home, ContainsEdge, ServiceId;
    var front, last := views[..|views| - 1], views[|views| - 1];
    var id := views[i].id;
    EdgeGoesToItsNode(l, last);
    FilterConcat(Into(id), EdgesOf(l, front), EdgeOf(l, last));
    if i == |views| - 1 {
      forall v | v in front
        ensures v.id != id
      {
        var j :| 0 <= j < |front| && front[j] == v;
        assert views[j].id != views[i].id;
      }
      NoEdgeInto(l, front, id);
      FilterAll(Into(id), EdgeOf(l, last));
    } else {
      OneEdgePerContainedNode(l, front, i);
      FilterNone(Into(id), EdgeOf(l, last));
    }
  }

  lemma {:induction false} EdgesComeFromNodes(l: Layout, views: seq<NodeView>, e: EdgeView)
    ensures e in EdgesOf(l, views) <==> exists v :: v in views && e in EdgeOf(l, v)
  {
    if views == [] {
    } else {
      var front, last := views[..|views| - 1], views[|views| - 1];
      EdgesComeFromNodes(l, front, e);
      assert views == front + [last];
    }
  }

  /** Some service node has this ID. */
  ghost predicate HasService(services: seq<NodeView>, l: Layout, dir: string)
    requires dir in l.names
  {
    exists s :: s in services && s.id == ServiceId(dir, l.names[dir])
  }

  ghost predicate AllStamped(l: Layout, views: seq<NodeView>, stamped: seq<NodeView>) {
    |stamped| == |views| && forall i :: 0 <= i < |views| ==> stamped[i] == Stamped(l, views[i])
  }

  lemma StampKeepsIds(l: Layout, views: seq<NodeView>, stamped: seq<NodeView>, id: string)
    requires AllStamped(l, views, stamped) && HasNode(views, id)
    ensures HasNode(stamped, id)
  {
    var v :| v in views && v.id == id;
    var i :| 0 <= i < |views| && views[i] == v;
    assert stamped[i].id == id;
  }

  lemma EdgeEnds(l: Layout, views: seq<NodeView>, stamped: seq<NodeView>, services: seq<NodeView>, v: NodeView, e: EdgeView)
    requires AllStamped(l, views, stamped) && v in views && e in EdgeOf(l, v)
    requires forall d :: d in l.names ==> HasService(services, l, d)
    ensures HasNode(stamped + services, e.sourceId) && HasNode(stamped + services, e.targetId)
  {
    assert HasNode(views, v.id);
    StampKeepsIds(l, views, stamped, v.id);
    HasNodeGrows(stamped, services, v.id);
    var dir := Home(l, v).value;
    assert HasService(services, l, dir);
    var s :| s in services && s.id == ServiceId(dir, l.names[dir]);
    assert s in stamped + services;
  }

  /** The graph stays closed: services are there for every module, and stamping changes no ID. */
  lemma DetectStaysClosed(l: Layout, views: seq<NodeView>, stamped: seq<NodeView>, services: seq<NodeView>, edges: seq<EdgeView>)
    requires Closed(views, edges) && AllStamped(l, views, stamped)
    requires forall d :: d in l.names ==> HasService(services, l, d)
    ensures Closed(stamped + services, edges + EdgesOf(l, views))
  {
    hide AllStamped;
    forall id | HasNode(views, id)
      ensures HasNode(stamped, id)
    {
      StampKeepsIds(l, views, stamped, id);
    }
    assert Closed(stamped, edges);
    forall e | e in EdgesOf(l, views)
      ensures HasNode(stamped + services, e.sourceId) && HasNode(stamped + services, e.targetId)
    {
      EdgesComeFromNodes(l, views, e);
      var v :| v in views && e in EdgeOf(l, v);
      EdgeEnds(l, views, stamped, services, v, e);
    }
    hide HasNode;
    ClosedGrows(stamped, edges, services, EdgesOf(l, views));
  }

  // ---- counts ----

  /** A node of this kind assigned to this very directory. */
  ghost predicate LivesIn(l: Layout, kind: string, dir: string, v: NodeView) {
    v.kind == kind && Home(l, v) == Some(dir)
  }

  ghost function OwnTally(l: Layout, kind: string, dir: string, views: seq<NodeView>): nat {
    if views == [] then 0
    else OwnTally(l, kind, dir, views[..|views| - 1]) + if LivesIn(l, kind, dir, views[|views| - 1]) then 1 else 0
  }

  /** A service's count is that of its own directory exactly when no namesake directory holds a node of the kind. */
  lemma {:induction false} CountIsOwnIff(l: Layout, kind: string, dir: string, views: seq<NodeView>)
    requires dir in l.names
    ensures OwnTally(l, kind, dir, views) <= Tally(l, kind, l.names[dir], views)
    ensures Tally(l, kind, l.names[dir], views) == OwnTally(l, kind, dir, views) <==>
            forall v :: v in views && CountsFor(l, kind, l.names[dir], v) ==> Home(l, v) == Some(dir)
  {
    if views == [] {
    } else {
      var front, last := views[..|views| - 1], views[|views| - 1];
      CountIsOwnIff(l, kind, dir, front);
      assert views == front + [last];
      assert forall v :: v in views <==> v in front || v == last;
    }
  }

  // ---- service IDs ----

  /** Two services get the same ID exactly when one's directory and name split the other's at a colon. */
  lemma ServiceIdsCollideIff(a: string, m: string, b: string, n: string)
    requires |IfBlank(a, ".")| <= |IfBlank(b, ".")|
    ensures ServiceId(a, m) == ServiceId(b, n) <==>
            (IfBlank(a, ".") == IfBlank(b, ".") && m == n) ||
            (exists x :: IfBlank(b, ".") == IfBlank(a, ".") + ":" + x && m == x + ":" + n)
  {
    var c, d := IfBlank(a, "."), IfBlank(b, ".");
    var s, t := c + ":" + m, d + ":" + n;
    assert ServiceId(a, m) == "service:" + s && ServiceId(b, n) == "service:" + t;
    assert ServiceId(a, m)[8..] == s && ServiceId(b, n)[8..] == t;
    if s == t {
      assert s[..|c|] == c && t[..|c|] == d[..|c|];
      if |c| == |d| {
        assert c == d && s[|c| + 1..] == m && t[|c| + 1..] == n;
      } else {
        assert d[|c|] == t[|c|] == s[|c|] == ':';
        var x := d[|c| + 1..];
        assert d == c + ":" + x;
        assert m == s[|c| + 1..] && t[|c| + 1..] == x + ":" + n;
      }
    }
    if x :| d == c + ":" + x && m == x + ":" + n {
      assert s == c + ":" + (x + ":" + n);
      assert t == (c + ":" + x) + ":" + n;
      assert s == t;
    }
  }

  /** Service `b:c` of directory `a` and service `c` of directory `a:b` share an ID. */
  lemma ColonInDirectoryCollides()
    ensures ServiceId("a", "b:c") == ServiceId("a:b", "c")
  {
    assert "a:b" == "a" + ":" + "b" && "b:c" == "b" + ":" + "c";
    ServiceIdsCollideIff("a", "b:c", "a:b", "c");
  }

  /** Modules in colon-free directories never share a service ID. */
  lemma ColonFreeDirsKeepIdsApart(a: string, m: string, b: string, n: string)
    requires a != b && a != "." && b != "." && ':' !in a && ':' !in b
    ensures ServiceId(a, m) != ServiceId(b, n)
  {
    var c, d := IfBlank(a, "."), IfBlank(b, ".");
    if |c| <= |d| {
      ServiceIdsCollideIff(a, m, b, n);
      forall x
        ensures d != c + ":" + x
      {
        assert (c + ":" + x)[|c|] == ':';
      }
    } else {
      ServiceIdsCollideIff(b, n, a, m);
      forall x
        ensures c != d + ":" + x
      {
        assert (d + ":" + x)[|d|] == ':';
      }
    }
  }

  // ---- Detect ----

  /** Without any build file the root is one module. */
  function WithDefault(modules: map<string, ModuleInfo>): map<string, ModuleInfo> {
    if modules == map[] then map["" := ModuleInfo("", "unknown", "")] else modules
  }

  function LayoutFor(read: ModuleInfo -> string, projectDir: string, modules: map<string, ModuleInfo>): (l: Layout)
    ensures Named(l)
  {
    Layout(modules, map d | d in modules :: ServiceName(read, projectDir, d, modules[d]))
  }

  ghost predicate Shows(nodes: seq<CodeNode>, views: seq<NodeView>)
    reads nodes
  {
    |nodes| == |views| && forall i :: 0 <= i < |nodes| ==> nodes[i].View() == views[i]
  }

  ghost predicate ShowsEdges(edges: seq<CodeEdge>, views: seq<EdgeView>)
    reads edges
  {
    |edges| == |views| && forall i :: 0 <= i < |edges| ==> edges[i].View() == views[i]
  }

  ghost predicate Lists(dirs: seq<string>, l: Layout) {
    Named(l) && DeepestFirst(dirs) && forall d :: d in dirs <==> d in l.modules
  }

  /** A service before anything is counted. */
  function NewService(l: Layout, dir: string): NodeView
    requires Named(l) && dir in l.modules
  {
    ServiceNode(dir, l.modules[dir], l.names[dir], 0, 0)
  }

  /** A service with the counts of its name. */
  ghost function CountedService(l: Layout, views: seq<NodeView>, dir: string): NodeView
    requires Named(l) && dir in l.modules
  {
    ServiceNode(dir, l.modules[dir], l.names[dir], Tally(l, "endpoint", l.names[dir], views), Tally(l, "entity", l.names[dir], views))
  }

  ghost function Services(l: Layout, dirs: seq<string>, views: seq<NodeView>): seq<NodeView>
    requires Lists(dirs, l)
  {
    seq(|dirs|, i requires 0 <= i < |dirs| => CountedService(l, views, dirs[i]))
  }

  /** Every module has its service node. */
  lemma ServicesCoverModules(l: Layout, dirs: seq<string>, views: seq<NodeView>)
    requires Lists(dirs, l)
    ensures forall d :: d in l.names ==> HasService(Services(l, dirs, views), l, d)
  {
    hide ServiceId, Tally;
    forall d | d in l.names
      ensures HasService(Services(l, dirs, views), l, d)
    {
      var i :| 0 <= i < |dirs| && dirs[i] == d;
      assert Services(l, dirs, views)[i].id == ServiceId(d, l.names[d]);
    }
  }

  ghost predicate Detected(l: Layout, nodes: seq<CodeNode>, views: seq<NodeView>, services: seq<CodeNode>, edges: seq<CodeEdge>)
    requires |nodes| == |views|
    reads nodes, services, edges
  {
    && (forall i :: 0 <= i < |nodes| ==> nodes[i].View() == Stamped(l, views[i]))
    && ShowsEdges(edges, EdgesOf(l, views))
    && exists dirs :: Lists(dirs, l) && Shows(services, Services(l, dirs, views))
  }

  lemma IsDetected(l: Layout, dirs: seq<string>, nodes: seq<CodeNode>, views: seq<NodeView>, services: seq<CodeNode>, edges: seq<CodeEdge>)
    requires |nodes| == |views| && forall i :: 0 <= i < |nodes| ==> nodes[i].View() == Stamped(l, views[i])
    requires ShowsEdges(edges, EdgesOf(l, views))
    requires Lists(dirs, l) && Shows(services, Services(l, dirs, views))
    ensures Detected(l, nodes, views, services, edges)
  {
  }

  // ---- what Detect gives, field by field ----

  /** The node's file lies in a module directory whose deepest one bears this name. */
  ghost predicate HasLabel(l: Layout, v: NodeView, name: string) {
    exists d :: IsHome(l.names.Keys, v.filePath, d) && l.names[d] == name
  }

  ghost predicate Homed(l: Layout, v: NodeView) {
    exists d :: IsHome(l.names.Keys, v.filePath, d)
  }

  /** A node keeps everything but its service, which becomes the name of its home. */
  ghost predicate StampedWith(l: Layout, v: NodeView, n: NodeView) {
    && n.(properties := v.properties) == v
    && (forall k :: k != "service" ==> (k in n.properties <==> k in v.properties))
    && (forall k :: k != "service" && k in n.properties && k in v.properties ==> n.properties[k] == v.properties[k])
    && (forall name :: HasLabel(l, v, name) ==> "service" in n.properties && n.properties["service"] == Text(name))
    && (!Homed(l, v) ==> n == v)
  }

  /** How many nodes of a kind carry a name. */
  ghost function CountWith(l: Layout, kind: string, name: string, views: seq<NodeView>): nat {
    |set i: nat | i < |views| && views[i].kind == kind && HasLabel(l, views[i], name)|
  }

  ghost function ServiceKey(l: Layout, dir: string): string
    requires dir in l.names
  {
    "service:" + (if dir == "" then "." else dir) + ":" + l.names[dir]
  }

  ghost predicate ServiceOf(l: Layout, dir: string, views: seq<NodeView>, s: NodeView)
    requires Named(l) && dir in l.modules
  {
    && s.id == ServiceKey(l, dir) && s.kind == "service" && s.name == l.names[dir]
    && s.filePath == (if dir == "" then "." else dir) && s.layer == "backend" && s.confidence == 0
    && s.fqn == "" && s.moduleName == "" && s.source == "" && s.lineStart == 0 && s.lineEnd == 0 && s.annotations == []
    && s.properties == map["build_tool" := Text(l.modules[dir].tool), "detected_from" := Text(l.modules[dir].file),
                           "endpoint_count" := Number(CountWith(l, "endpoint", l.names[dir], views)),
                           "entity_count" := Number(CountWith(l, "entity", l.names[dir], views))]
  }

  /** The CONTAINS edge from a node's home. */
  ghost predicate ContainedBy(l: Layout, v: NodeView, e: EdgeView) {
    exists d :: IsHome(l.names.Keys, v.filePath, d) &&
      e == EdgeView("edge:" + ServiceKey(l, d) + ":contains:" + v.id, "contains", ServiceKey(l, d), v.id, 0, "", map[])
  }

  ghost predicate Ascends(at: seq<nat>) {
    forall i, j :: 0 <= i < j < |at| ==> at[i] < at[j]
  }

  /** One edge per node with a home, in node order; `at` are the positions of these nodes. */
  ghost predicate EdgesAt(l: Layout, views: seq<NodeView>, edges: seq<EdgeView>, at: seq<nat>) {
    && |at| == |edges| && Ascends(at)
    && (forall i: nat :: i in at <==> i < |views| && Homed(l, views[i]))
    && (forall k :: 0 <= k < |at| ==> at[k] < |views| && ContainedBy(l, views[at[k]], edges[k]))
  }

  ghost predicate EdgesGiven(l: Layout, views: seq<NodeView>, edges: seq<EdgeView>) {
    exists at :: EdgesAt(l, views, edges, at)
  }

  /** One service per module directory, deepest first. */
  ghost predicate ServicesGiven(l: Layout, views: seq<NodeView>, services: seq<NodeView>) {
    exists dirs :: Lists(dirs, l) && |services| == |dirs| && forall k :: 0 <= k < |dirs| ==> ServiceOf(l, dirs[k], views, services[k])
  }

  lemma HomeIs(l: Layout, v: NodeView)
    ensures forall d :: Home(l, v) == Some(d) <==> IsHome(l.names.Keys, v.filePath, d)
    ensures Homed(l, v) <==> Home(l, v).Some?
  {
    forall d | IsHome(l.names.Keys, v.filePath, d)
      ensures Home(l, v) == Some(d)
    {
      HomeIsUnique(l.names.Keys, v.filePath, d, Home(l, v).value);
    }
  }

  lemma LabelIs(l: Layout, v: NodeView, name: string)
    ensures HasLabel(l, v, name) <==> Home(l, v).Some? && l.names[Home(l, v).value] == name
  {
    hide IsHome;
    HomeIs(l, v);
  }

  lemma StampMeans(l: Layout, v: NodeView)
    ensures StampedWith(l, v, Stamped(l, v))
  {
    HomeIs(l, v);
    forall name
      ensures HasLabel(l, v, name) <==> Home(l, v).Some? && l.names[Home(l, v).value] == name
    {
      LabelIs(l, v, name);
    }
    hide HasLabel, Homed, Home;
  }

  lemma {:induction false} TallyCounts(l: Layout, kind: string, name: string, views: seq<NodeView>)
    ensures Tally(l, kind, name, views) == CountWith(l, kind, name, views)
  {
    if views == [] {
    } else {
      var n := |views| - 1;
      TallyCounts(l, kind, name, views[..n]);
      LabelIs(l, views[n], name);
      hide HasLabel;
      var keep := (i: nat) => i < |views| && views[i].kind == kind && HasLabel(l, views[i], name);
      OneMorePosition(keep, n);
      assert (set i: nat | i < |views| && views[i].kind == kind && HasLabel(l, views[i], name)) == set i: nat | i < n + 1 && keep(i);
      assert (set i: nat | i < n && views[..n][i].kind == kind && HasLabel(l, views[..n][i], name)) == set i: nat | i < n && keep(i);
    }
  }

  lemma CountedMeans(l: Layout, views: seq<NodeView>, dir: string)
    requires Named(l) && dir in l.modules
    ensures ServiceOf(l, dir, views, CountedService(l, views, dir))
  {
    TallyCounts(l, "endpoint", l.names[dir], views);
    TallyCounts(l, "entity", l.names[dir], views);
    hide Tally, CountWith;
  }

  lemma ServicesMean(l: Layout, dirs: seq<string>, views: seq<NodeView>)
    requires Lists(dirs, l)
    ensures ServicesGiven(l, views, Services(l, dirs, views))
  {
    hide CountedService, ServiceOf;
    forall k | 0 <= k < |dirs|
      ensures dirs[k] in l.modules && ServiceOf(l, dirs[k], views, Services(l, dirs, views)[k])
    {
      CountedMeans(l, views, dirs[k]);
    }
  }

  lemma EdgeOfMeans(l: Layout, v: NodeView)
    ensures if Homed(l, v) then |EdgeOf(l, v)| == 1 && ContainedBy(l, v, EdgeOf(l, v)[0]) else EdgeOf(l, v) == []
  {
    HomeIs(l, v);
    hide IsHome;
  }

  lemma OneMoreEdge(l: Layout, views: seq<NodeView>, edges: seq<EdgeView>, at: seq<nat>, e: EdgeView)
    requires views != [] && EdgesAt(l, views[..|views| - 1], edges, at)
    requires Homed(l, views[|views| - 1]) && ContainedBy(l, views[|views| - 1], e)
    ensures EdgesAt(l, views, edges + [e], at + [|views| - 1])
  {
    hide Homed, ContainedBy;
    var n := |views| - 1;
    assert forall k :: 0 <= k < |at| ==> at[k] in at && at[k] < n;
    forall i: nat
      ensures i in at + [n] <==> i < |views| && Homed(l, views[i])
    {
      assert i in at + [n] <==> i in at || i == n;
    }
  }

  lemma NoMoreEdge(l: Layout, views: seq<NodeView>, edges: seq<EdgeView>, at: seq<nat>)
    requires views != [] && EdgesAt(l, views[..|views| - 1], edges, at) && !Homed(l, views[|views| - 1])
    ensures EdgesAt(l, views, edges, at)
  {
    hide Homed, ContainedBy;
  }

  lemma {:induction false} EdgesMean(l: Layout, views: seq<NodeView>) returns (at: seq<nat>)
    ensures EdgesAt(l, views, EdgesOf(l, views), at)
  {
    if views == [] {
      at := [];
    } else {
      var n := |views| - 1;
      at := EdgesMean(l, views[..n]);
      EdgeOfMeans(l, views[n]);
      hide Homed, ContainedBy, EdgeOf, EdgesAt;
      if Homed(l, views[n]) {
        OneMoreEdge(l, views, EdgesOf(l, views[..n]), at, EdgeOf(l, views[n])[0]);
        at := at + [n];
      } else {
        NoMoreEdge(l, views, EdgesOf(l, views[..n]), at);
        assert EdgesOf(l, views[..n]) + [] == EdgesOf(l, views[..n]);
      }
    }
  }

  /**
   What `Detect` gives: each node stamped with the name of its home, one service node per module
   directory with the counts of its name, one CONTAINS edge per node with a home.
   */
  lemma DetectedMeans(l: Layout, nodes: seq<CodeNode>, views: seq<NodeView>, services: seq<CodeNode>, edges: seq<CodeEdge>)
    requires |nodes| == |views| && Detected(l, nodes, views, services, edges)
    ensures forall i :: 0 <= i < |views| ==> StampedWith(l, views[i], nodes[i].View())
    ensures ServicesGiven(l, views, NodeViews(services))
    ensures EdgesGiven(l, views, EdgeViews(edges))
  {
    hide Stamped, StampedWith, EdgesOf, EdgesAt, ServicesGiven, CountedService;
    forall i | 0 <= i < |views|
      ensures StampedWith(l, views[i], nodes[i].View())
    {
      StampMeans(l, views[i]);
    }
    var dirs :| Lists(dirs, l) && Shows(services, Services(l, dirs, views));
    assert NodeViews(services) == Services(l, dirs, views);
    ServicesMean(l, dirs, views);
    assert EdgeViews(edges) == EdgesOf(l, views);
    var at := EdgesMean(l, views);
  }

  lemma DeepestFirstDiffer(dirs: seq<string>)
    requires DeepestFirst(dirs)
    ensures NoDuplicates(dirs)
  {
    forall i, j | 0 <= i < j < |dirs|
      ensures dirs[i] != dirs[j]
    {
      LessIrreflexive(dirs[i]);
      assert Before(dirs[i], dirs[j]);
    }
  }

  ghost predicate AllNew(l: Layout, dirs: seq<string>, services: seq<CodeNode>)
    requires Lists(dirs, l)
    reads services
  {
    |services| == |dirs| && forall i :: 0 <= i < |services| ==> services[i].View() == NewService(l, dirs[i])
  }

  ghost predicate ByDir(l: Layout, byDir: map<string, CodeNode>) {
    forall d :: d in byDir ==> d in l.names && byDir[d].id == ServiceId(d, l.names[d]) && byDir[d].name == l.names[d]
  }

  method CreateService(l: Layout, dir: string) returns (service: CodeNode)
    requires Named(l) && dir in l.modules
    ensures fresh(service) && service.View() == NewService(l, dir)
    ensures service.id == ServiceId(dir, l.names[dir]) && service.name == l.names[dir]
  {
    service := new CodeNode(ServiceNode(dir, l.modules[dir], l.names[dir], 0, 0));
    assert service.View().id == ServiceId(dir, l.names[dir]) && service.View().name == l.names[dir];
  }

  lemma EmptyByDir(l: Layout)
    ensures ByDir(l, map[])
  {
  }

  lemma ByDirStep(l: Layout, byDir: map<string, CodeNode>, dir: string, service: CodeNode)
    requires ByDir(l, byDir) && dir in l.names && service.id == ServiceId(dir, l.names[dir]) && service.name == l.names[dir]
    ensures ByDir(l, byDir[dir := service])
  {
    hide ServiceId;
  }

  ghost predicate KeysListed<V>(byDir: map<string, V>, dirs: seq<string>) {
    forall d :: d in byDir <==> d in dirs
  }

  lemma KeysListedStep<V>(byDir: map<string, V>, dirs: seq<string>, i: nat, service: V)
    requires i < |dirs| && KeysListed(byDir, dirs[..i])
    ensures KeysListed(byDir[dirs[i] := service], dirs[..i + 1])
  {
    assert dirs[..i + 1] == dirs[..i] + [dirs[i]];
  }

  method CreateServices(l: Layout, dirs: seq<string>) returns (services: seq<CodeNode>, byDir: map<string, CodeNode>)
    requires Lists(dirs, l) && NoDuplicates(dirs)
    ensures NoDuplicates(services) && fresh(services) && AllNew(l, dirs, services)
    ensures byDir.Keys == l.modules.Keys && ByDir(l, byDir)
  {
    hide NewService, ServiceId, DeepestFirst, ByDir;
    services, byDir := [], map[];
    assert KeysListed(byDir, dirs[..0]);
    assert ByDir(l, byDir) by {
      EmptyByDir(l);
    }
    for i := 0 to |dirs|
      invariant |services| == i && NoDuplicates(services) && fresh(services)
      invariant forall j :: 0 <= j < i ==> services[j].View() == NewService(l, dirs[j])
      invariant KeysListed(byDir, dirs[..i]) && ByDir(l, byDir)
    {
      hide KeysListed;
      var dir := dirs[i];
      assert dir in dirs;
      var service := CreateService(l, dir);
      KeysListedStep(byDir, dirs, i, service);
      services := services + [service];
      ByDirStep(l, byDir, dir, service);
      byDir := byDir[dir := service];
    }
    assert dirs[..|dirs|] == dirs;
  }

  function CountOf(counts: map<string, nat>, name: string): nat {
    if name in counts then counts[name] else 0
  }

  ghost predicate Counts(l: Layout, kind: string, counts: map<string, nat>, views: seq<NodeView>) {
    forall name :: CountOf(counts, name) == Tally(l, kind, name, views)
  }

  /** A counter raised for a node that has a home and is of the counted kind. */
  function Bumped(counts: map<string, nat>, name: Option<string>, counted: bool): map<string, nat> {
    if name.Some? && counted then counts[name.value := CountOf(counts, name.value) + 1] else counts
  }

  /** The name of a node's home. */
  ghost function HomeName(l: Layout, v: NodeView): Option<string> {
    if Home(l, v).None? then None else Some(l.names[Home(l, v).value])
  }

  /** One object shows one value. */
  ghost predicate SameViews(nodes: seq<CodeNode>, views: seq<NodeView>) {
    |nodes| == |views| && forall i, j :: 0 <= i < |nodes| && 0 <= j < |nodes| && nodes[i] == nodes[j] ==> views[i] == views[j]
  }

  /** The first `i` nodes are stamped, the others as they were; one object shows one value. */
  ghost predicate Stamping(l: Layout, nodes: seq<CodeNode>, views: seq<NodeView>, i: nat)
    reads nodes
  {
    && SameViews(nodes, views) && i <= |nodes|
    && forall k :: 0 <= k < |nodes| ==> nodes[k].View() == if nodes[k] in nodes[..i] then Stamped(l, views[k]) else views[k]
  }

  lemma NothingStamped(l: Layout, nodes: seq<CodeNode>, views: seq<NodeView>)
    requires Shows(nodes, views)
    ensures Stamping(l, nodes, views, 0)
  {
  }

  lemma AllAreStamped(l: Layout, nodes: seq<CodeNode>, views: seq<NodeView>)
    requires Stamping(l, nodes, views, |nodes|)
    ensures forall i :: 0 <= i < |nodes| ==> nodes[i].View() == Stamped(l, views[i])
  {
    assert nodes[..|nodes|] == nodes;
  }

  /** A stamp changes neither the home nor what a second stamp writes. */
  lemma HomeOfNode(l: Layout, v: NodeView, now: NodeView)
    requires now == v || now == Stamped(l, v)
    ensures Home(l, now) == Home(l, v) && Stamped(l, now) == Stamped(l, v)
  {
    if Home(l, v).Some? {
      var stamp := Stamped(l, v).properties;
      assert stamp["service" := Text(l.names[Home(l, v).value])] == stamp;
    }
  }

  method WriteProperty(n: CodeNode, key: string, value: Any)
    modifies n
    ensures n.View() == old(n.View()).(properties := old(n.properties)[key := value])
  {
    n.properties := n.properties[key := value];
  }

  method StampNode(l: Layout, n: CodeNode, ghost v: NodeView, dirs: seq<string>, byDir: map<string, CodeNode>)
    returns (name: Option<string>, more: seq<CodeEdge>)
    requires Lists(dirs, l) && byDir.Keys == l.names.Keys && ByDir(l, byDir)
    requires n.View() == v || n.View() == Stamped(l, v)
    modifies n
    ensures n.View() == Stamped(l, v) && n.kind == v.kind
    ensures ShowsEdges(more, EdgeOf(l, v)) && name == HomeName(l, v)
  {
    HomeOfNode(l, v, n.View());
    assert Home(l, n.View()) == HomeOf(l.names.Keys, n.filePath);
    var home := MatchDir(dirs, n.filePath, l.names.Keys);
    if home.None? {
      return None, [];
    }
    var service := byDir[home.value];
    WriteProperty(n, "service", Text(service.name));
    var edge := new CodeEdge(ContainsEdge(service.id, n.id));
    name, more := Some(service.name), [edge];
  }

  method StampNext(l: Layout, nodes: seq<CodeNode>, ghost views: seq<NodeView>, i: nat, dirs: seq<string>, byDir: map<string, CodeNode>)
    returns (name: Option<string>, more: seq<CodeEdge>)
    requires i < |nodes| && Stamping(l, nodes, views, i)
    requires Lists(dirs, l) && byDir.Keys == l.names.Keys && ByDir(l, byDir)
    modifies nodes[i]
    ensures Stamping(l, nodes, views, i + 1) && nodes[i].kind == views[i].kind
    ensures ShowsEdges(more, EdgeOf(l, views[i])) && name == HomeName(l, views[i])
  {
    hide Stamped, Lists, ByDir, EdgeOf, HomeName;
    assert nodes[..i + 1] == nodes[..i] + [nodes[i]];
    name, more := StampNode(l, nodes[i], views[i], dirs, byDir);
  }

  lemma NothingCounted(l: Layout)
    ensures Counts(l, "endpoint", map[], []) && Counts(l, "entity", map[], []) && EdgesOf(l, []) == []
  {
  }

  lemma EdgesStep(l: Layout, views: seq<NodeView>, i: nat)
    requires i < |views|
    ensures EdgesOf(l, views[..i + 1]) == EdgesOf(l, views[..i]) + EdgeOf(l, views[i])
  {
    assert views[..i + 1][..i] == views[..i];
  }

  lemma CountsStep(l: Layout, kind: string, counts: map<string, nat>, views: seq<NodeView>, i: nat)
    requires i < |views| && Counts(l, kind, counts, views[..i])
    ensures Counts(l, kind, Bumped(counts, HomeName(l, views[i]), views[i].kind == kind), views[..i + 1])
  {
    hide Home;
    assert views[..i + 1][..i] == views[..i];
    var bumped := Bumped(counts, HomeName(l, views[i]), views[i].kind == kind);
    forall name
      ensures CountOf(bumped, name) == Tally(l, kind, name, views[..i + 1])
    {
      assert CountOf(bumped, name) == CountOf(counts, name) + if CountsFor(l, kind, name, views[i]) then 1 else 0;
    }
  }

  method StampNodes(l: Layout, nodes: seq<CodeNode>, ghost views: seq<NodeView>, dirs: seq<string>, byDir: map<string, CodeNode>)
    returns (edges: seq<CodeEdge>, endpointCounts: map<string, nat>, entityCounts: map<string, nat>)
    requires Shows(nodes, views) && Lists(dirs, l) && byDir.Keys == l.names.Keys && ByDir(l, byDir)
    modifies nodes
    ensures forall i :: 0 <= i < |nodes| ==> nodes[i].View() == Stamped(l, views[i])
    ensures ShowsEdges(edges, EdgesOf(l, views))
    ensures Counts(l, "endpoint", endpointCounts, views) && Counts(l, "entity", entityCounts, views)
  {
    hide Lists, Counts, ByDir, EdgesOf, EdgeOf, HomeName, Bumped, Stamping;
    edges, endpointCounts, entityCounts := [], map[], map[];
    NothingCounted(l);
    NothingStamped(l, nodes, views);
    for i := 0 to |nodes|
      invariant Stamping(l, nodes, views, i)
      invariant ShowsEdges(edges, EdgesOf(l, views[..i]))
      invariant Counts(l, "endpoint", endpointCounts, views[..i]) && Counts(l, "entity", entityCounts, views[..i])
    {
      var name, more := StampNext(l, nodes, views, i, dirs, byDir);
      EdgesStep(l, views, i);
      CountsStep(l, "endpoint", endpointCounts, views, i);
      CountsStep(l, "entity", entityCounts, views, i);
      edges := edges + more;
      endpointCounts := Bumped(endpointCounts, name, nodes[i].kind == "endpoint");
      entityCounts := Bumped(entityCounts, name, nodes[i].kind == "entity");
    }
    AllAreStamped(l, nodes, views);
    assert views[..|views|] == views;
  }

  method WriteCount(l: Layout, service: CodeNode, ghost dir: string, endpointCounts: map<string, nat>, entityCounts: map<string, nat>,
                    ghost views: seq<NodeView>)
    requires Named(l) && dir in l.modules && service.View() == NewService(l, dir)
    requires Counts(l, "endpoint", endpointCounts, views) && Counts(l, "entity", entityCounts, views)
    modifies service
    ensures service.View() == CountedService(l, views, dir)
  {
    hide ServiceId, Tally;
    assert service.View().name == l.names[dir];
    WriteProperty(service, "endpoint_count", Number(CountOf(endpointCounts, service.name)));
    WriteProperty(service, "entity_count", Number(CountOf(entityCounts, service.name)));
    assert service.properties == CountedService(l, views, dir).properties;
  }

  method WriteCounts(l: Layout, services: seq<CodeNode>, dirs: seq<string>, endpointCounts: map<string, nat>, entityCounts: map<string, nat>,
                     ghost views: seq<NodeView>)
    requires Lists(dirs, l) && NoDuplicates(services) && AllNew(l, dirs, services)
    requires Counts(l, "endpoint", endpointCounts, views) && Counts(l, "entity", entityCounts, views)
    modifies services
    ensures Shows(services, Services(l, dirs, views))
  {
    hide NewService, CountedService, DeepestFirst, Counts;
    assert forall i :: 0 <= i < |dirs| ==> dirs[i] in l.modules;
    for i := 0 to |services|
      invariant forall j :: 0 <= j < i ==> services[j].View() == CountedService(l, views, dirs[j])
      invariant forall j :: i <= j < |services| ==> services[j].View() == NewService(l, dirs[j])
    {
      hide Lists;
      assert forall j :: 0 <= j < |services| && j != i ==> services[j] != services[i];
      WriteCount(l, services[i], dirs[i], endpointCounts, entityCounts, views);
    }
  }

  /** `Detect` after the walk, which found `found`. */
  method Detect(found: map<string, ModuleInfo>, read: ModuleInfo -> string, projectDir: string, nodes: seq<CodeNode>, ghost views: seq<NodeView>)
    returns (services: seq<CodeNode>, edges: seq<CodeEdge>)
    requires Shows(nodes, views)
    modifies nodes
    ensures Detected(LayoutFor(read, projectDir, WithDefault(found)), nodes, views, services, edges)
    ensures var l := LayoutFor(read, projectDir, WithDefault(found));
            && (forall i :: 0 <= i < |views| ==> StampedWith(l, views[i], nodes[i].View()))
            && ServicesGiven(l, views, NodeViews(services)) && EdgesGiven(l, views, EdgeViews(edges))
  {
    hide StampedWith, ServicesGiven, EdgesGiven, DeepestFirst, Stamped, EdgesOf, AllNew, Counts, ByDir, Services, Detected, ServiceName;
    var modules := WithDefault(found);
    var l := LayoutFor(read, projectDir, modules);
    var dirs := SortDirs(modules.Keys);
    DeepestFirstDiffer(dirs);
    var byDir;
    services, byDir := CreateServices(l, dirs);
    var endpointCounts, entityCounts;
    edges, endpointCounts, entityCounts := StampNodes(l, nodes, views, dirs, byDir);
    WriteCounts(l, services, dirs, endpointCounts, entityCounts, views);
    IsDetected(l, dirs, nodes, views, services, edges);
    DetectedMeans(l, nodes, views, services, edges);
  }
}
