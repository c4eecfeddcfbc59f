/**
 The language enricher (internal/intelligence/extractor/enricher.go): nodes are grouped by file,
 one goroutine per file runs under a semaphore, results go to indexed slots.
 A state machine over all schedules of the goroutines.
 */
module LanguageEnricher {
  import opened CodeModel
  import opened ConfidenceMerge
  import opened Linker
  import opened Options
  import opened Sequences
  import opened Strings

  // ---- grouping by file ----

  const SKIPPED_FILE_TYPES := {"test", "generated", "minified", "binary", "text", "filtered"}

  predicate IsSkipped(v: NodeView) {
    "file_type" in v.properties && v.properties["file_type"].Text? && v.properties["file_type"].text in SKIPPED_FILE_TYPES
  }

  /** The file a node is enriched with. */
  function FileOf(nodes: seq<NodeView>): nat -> Option<string> {
    (k: nat) => if k < |nodes| && nodes[k].filePath != "" && !IsSkipped(nodes[k]) then Some(nodes[k].filePath) else None
  }

  ghost predicate LiesIn(nodes: seq<NodeView>, k: nat, path: string) {
    k < |nodes| && FileOf(nodes)(k) == Some(path)
  }

  function Same(k: nat): nat {
    k
  }

  function Indices(n: nat): (indices: seq<nat>)
    ensures |indices| == n && forall k :: 0 <= k < n ==> indices[k] == k
  {
    seq(n, k requires 0 <= k < n => k)
  }

  /** A file with an extractor and the positions of its nodes. */
  datatype Task = Task(path: string, members: seq<nat>)

  ghost function MembersOf(nodes: seq<NodeView>, path: string): seq<nat> {
    GroupOf(FileOf(nodes), Same, Indices(|nodes|), path)
  }

  ghost function Paths(nodes: seq<NodeView>): set<string> {
    set k | k in Indices(|nodes|) && FileOf(nodes)(k).Some? :: FileOf(nodes)(k).value
  }

  ghost function TasksFor(nodes: seq<NodeView>, supported: string -> bool, paths: seq<string>): seq<Task> {
    if paths == [] then []
    else
      var p := paths[|paths| - 1];
      TasksFor(nodes, supported, paths[..|paths| - 1]) + if supported(p) then [Task(p, MembersOf(nodes, p))] else []
  }

  /** One task per supported file, in path order. */
  ghost function Tasks(nodes: seq<NodeView>, supported: string -> bool): seq<Task> {
    TasksFor(nodes, supported, SortedListing(Paths(nodes)))
  }

  method SelectTasks(nodes: seq<NodeView>, supported: string -> bool, paths: seq<string>, byFile: map<string, seq<nat>>) returns (tasks: seq<Task>)
    requires forall p :: p in paths ==> p in byFile && byFile[p] == MembersOf(nodes, p)
    ensures tasks == TasksFor(nodes, supported, paths)
  {
    hide MembersOf;
    tasks := [];
    for i := 0 to |paths|
      invariant tasks == TasksFor(nodes, supported, paths[..i])
    {
      assert paths[..i + 1][..i] == paths[..i];
      assert paths[i] in paths && byFile[paths[i]] == MembersOf(nodes, paths[i]);
      if supported(paths[i]) {
        tasks := tasks + [Task(paths[i], byFile[paths[i]])];
      }
    }
    assert paths[..|paths|] == paths;
  }

  lemma PathsAreGroups(nodes: seq<NodeView>, groups: map<string, seq<nat>>)
    requires forall k :: k in groups <==> GroupOf(FileOf(nodes), Same, Indices(|nodes|), k) != []
    ensures groups.Keys == Paths(nodes)
  {
    var all := Indices(|nodes|);
    forall p
      ensures p in groups <==> p in Paths(nodes)
    {
      if p in groups {
        var k := SomeMember(GroupOf(FileOf(nodes), Same, all, p));
        GroupMember(FileOf(nodes), Same, all, p, k);
      }
      if p in Paths(nodes) {
        var k :| k in all && FileOf(nodes)(k) == Some(p);
        GroupMember(FileOf(nodes), Same, all, p, k);
      }
    }
  }

  method BuildTasks(nodes: seq<NodeView>, supported: string -> bool) returns (tasks: seq<Task>)
    ensures tasks == Tasks(nodes, supported)
  {
    var byFile := Group(FileOf(nodes), Same, Indices(|nodes|));
    PathsAreGroups(nodes, byFile);
    var paths := SortedKeys(byFile.Keys);
    SortedListingIsUnique(paths, SortedListing(Paths(nodes)));
    tasks := SelectTasks(nodes, supported, paths, byFile);
  }

  // ---- files partition the nodes ----

  ghost predicate Disjoint(tasks: seq<Task>, n: nat) {
    && (forall i, q :: 0 <= i < |tasks| && 0 <= q < |tasks[i].members| ==> tasks[i].members[q] < n)
    && (forall i :: 0 <= i < |tasks| ==> NoDuplicates(tasks[i].members))
    && (forall i, j, k: nat :: 0 <= i < j < |tasks| && k in tasks[i].members ==> k !in tasks[j].members)
  }

  lemma {:induction false} TasksForMembers(nodes: seq<NodeView>, supported: string -> bool, paths: seq<string>, t: Task)
    ensures t in TasksFor(nodes, supported, paths) <==> t.path in paths && supported(t.path) && t.members == MembersOf(nodes, t.path)
  {
    hide MembersOf;
    if paths == [] {
    } else {
      TasksForMembers(nodes, supported, paths[..|paths| - 1], t);
      assert paths == paths[..|paths| - 1] + [paths[|paths| - 1]];
    }
  }

  ghost predicate InPathOrder(tasks: seq<Task>) {
    forall i, j :: 0 <= i < j < |tasks| ==> Less(tasks[i].path, tasks[j].path)
  }

  lemma {:induction false} TasksForSorted(nodes: seq<NodeView>, supported: string -> bool, paths: seq<string>)
    requires StrictlySorted(paths)
    ensures InPathOrder(TasksFor(nodes, supported, paths))
  {
    hide MembersOf;
    if paths == [] {
    } else {
      var front, last := paths[..|paths| - 1], paths[|paths| - 1];
      TasksForSorted(nodes, supported, front);
      var tasks := TasksFor(nodes, supported, front);
      forall i | 0 <= i < |tasks|
        ensures Less(tasks[i].path, last)
      {
        assert tasks[i] in tasks;
        TasksForMembers(nodes, supported, front, tasks[i]);
        var k :| 0 <= k < |front| && front[k] == tasks[i].path;
        assert paths[k] == front[k];
      }
    }
  }

  ghost predicate Increasing(s: seq<nat>) {
    forall i, j :: 0 <= i < j < |s| ==> s[i] < s[j]
  }

  lemma {:induction false} FilterIncreasing(keep: nat -> bool, s: seq<nat>)
    requires Increasing(s)
    ensures Increasing(Filter(keep, s))
  {
    if s == [] {
    } else {
      var front := s[..|s| - 1];
      FilterIncreasing(keep, front);
      var r := Filter(keep, front);
      forall i | 0 <= i < |r|
        ensures r[i] < s[|s| - 1]
      {
        assert r[i] in r;
        FilterMember(keep, front, r[i]);
      }
    }
  }

  lemma MembersAscend(nodes: seq<NodeView>, path: string)
    ensures Increasing(MembersOf(nodes, path))
  {
    var all := Indices(|nodes|);
    FilterIncreasing(KeyIs<nat>(FileOf(nodes), path), all);
    assert MembersOf(nodes, path) == Filter(KeyIs<nat>(FileOf(nodes), path), all);
  }

  /** A file's members are the positions of its nodes, in increasing order. */
  lemma MembersAreExact(nodes: seq<NodeView>, path: string)
    ensures forall k: nat :: k in MembersOf(nodes, path) <==> LiesIn(nodes, k, path)
    ensures NoDuplicates(MembersOf(nodes, path))
  {
    var all := Indices(|nodes|);
    forall k: nat
      ensures k in MembersOf(nodes, path) <==> LiesIn(nodes, k, path)
    {
      GroupMember(FileOf(nodes), Same, all, path, k);
      assert k < |nodes| ==> all[k] == k;
    }
    FilterIncreasing(KeyIs<nat>(FileOf(nodes), path), all);
  }

  lemma PartedByPath(nodes: seq<NodeView>, tasks: seq<Task>)
    requires InPathOrder(tasks)
    requires forall i :: 0 <= i < |tasks| ==> NoDuplicates(tasks[i].members)
    requires forall i, k: nat :: 0 <= i < |tasks| ==> (k in tasks[i].members <==> LiesIn(nodes, k, tasks[i].path))
    ensures Disjoint(tasks, |nodes|)
  {
    forall i, q | 0 <= i < |tasks| && 0 <= q < |tasks[i].members|
      ensures tasks[i].members[q] < |nodes|
    {
      var k: nat := tasks[i].members[q];
      assert k in tasks[i].members && LiesIn(nodes, k, tasks[i].path);
    }
    forall i, j, k: nat | 0 <= i < j < |tasks| && k in tasks[i].members
      ensures k !in tasks[j].members
    {
      LessIrreflexive(tasks[i].path);
      assert Less(tasks[i].path, tasks[j].path);
      assert LiesIn(nodes, k, tasks[i].path);
    }
  }

  /** No node belongs to two tasks, and every node of a supported file belongs to one. */
  lemma FilesPartitionNodes(nodes: seq<NodeView>, supported: string -> bool)
    ensures Disjoint(Tasks(nodes, supported), |nodes|)
    ensures forall k: nat :: k < |nodes| && FileOf(nodes)(k).Some? && supported(FileOf(nodes)(k).value) ==>
              exists t :: t in Tasks(nodes, supported) && k in t.members
  {
    var paths := SortedListing(Paths(nodes));
    var tasks := Tasks(nodes, supported);
    TasksForSorted(nodes, supported, paths);
    forall i | 0 <= i < |tasks|
      ensures tasks[i].members == MembersOf(nodes, tasks[i].path) && NoDuplicates(tasks[i].members)
      ensures forall k: nat :: k in tasks[i].members <==> LiesIn(nodes, k, tasks[i].path)
    {
      assert tasks[i] in tasks;
      TasksForMembers(nodes, supported, paths, tasks[i]);
      MembersAreExact(nodes, tasks[i].path);
    }
    PartedByPath(nodes, tasks);
    forall k: nat | k < |nodes| && FileOf(nodes)(k).Some? && supported(FileOf(nodes)(k).value)
      ensures exists t :: t in tasks && k in t.members
    {
      var p := FileOf(nodes)(k).value;
      assert Indices(|nodes|)[k] == k;
      var t := Task(p, MembersOf(nodes, p));
      TasksForMembers(nodes, supported, paths, t);
      MembersAreExact(nodes, p);
    }
  }

  /** A node of this file that is no test, generated, minified, binary, text or filtered one. */
  ghost predicate Eligible(v: NodeView, path: string) {
    && v.filePath == path != ""
    && !("file_type" in v.properties &&
         v.properties["file_type"] in {Text("test"), Text("generated"), Text("minified"), Text("binary"), Text("text"), Text("filtered")})
  }

  lemma EligibleIsInFile(nodes: seq<NodeView>, k: nat, path: string)
    ensures LiesIn(nodes, k, path) <==> k < |nodes| && Eligible(nodes[k], path)
  {
  }

  /** One task per supported file that holds an eligible node, in path order, each with all its eligible nodes in order. */
  ghost predicate TaskList(nodes: seq<NodeView>, supported: string -> bool, tasks: seq<Task>) {
    && InPathOrder(tasks)
    && (forall t :: t in tasks ==>
          && supported(t.path) && t.members != [] && Increasing(t.members)
          && forall k: nat :: k in t.members <==> k < |nodes| && Eligible(nodes[k], t.path))
    && (forall k: nat :: k < |nodes| && Eligible(nodes[k], nodes[k].filePath) && supported(nodes[k].filePath) ==>
          exists t :: t in tasks && t.path == nodes[k].filePath)
  }

  lemma TasksAreExact(nodes: seq<NodeView>, supported: string -> bool)
    ensures TaskList(nodes, supported, Tasks(nodes, supported))
  {
    var paths, tasks := SortedListing(Paths(nodes)), Tasks(nodes, supported);
    TasksForSorted(nodes, supported, paths);
    hide Tasks, MembersOf, Eligible;
    forall t | t in tasks
      ensures supported(t.path) && t.members != [] && Increasing(t.members)
      ensures forall k: nat :: k in t.members <==> k < |nodes| && Eligible(nodes[k], t.path)
    {
      TasksForMembers(nodes, supported, paths, t);
      MembersAreExact(nodes, t.path);
      MembersAscend(nodes, t.path);
      forall k: nat
        ensures k in t.members <==> k < |nodes| && Eligible(nodes[k], t.path)
      {
        EligibleIsInFile(nodes, k, t.path);
      }
      var k: nat :| k in Indices(|nodes|) && FileOf(nodes)(k) == Some(t.path);
      assert LiesIn(nodes, k, t.path);
    }
    forall k: nat | k < |nodes| && Eligible(nodes[k], nodes[k].filePath) && supported(nodes[k].filePath)
      ensures exists t :: t in tasks && t.path == nodes[k].filePath
    {
      var p := nodes[k].filePath;
      EligibleIsInFile(nodes, k, p);
      assert Indices(|nodes|)[k] == k;
      TasksForMembers(nodes, supported, paths, Task(p, MembersOf(nodes, p)));
    }
  }
}
