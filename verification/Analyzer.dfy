/**
 The index pipeline on the real cache tables (internal/analyzer/analyzer.go, diff.go): `Diff`,
 `processFile` and the single-worker form of `Run`, tied to the state machine of IndexRuns.
 */
module Analyzer {
  import opened CodeModel
  import opened IndexRuns
  import opened Options
  import opened Sequences
  import opened Strings
  import C = CacheStore
  import E = IndexEquivalence

  // ---- from tables to identities ----

  ghost function RowOf(e: C.Entry): Row {
    Row(e.path, Ids(Map(NodeId, e.nodes), Map(KeyOf, e.edges)))
  }

  ghost function RowsOf(entries: map<string, C.Entry>): Rows {
    map h | h in entries :: RowOf(entries[h])
  }

  ghost function CachedRows(c: C.Cache): Rows
    reads c
  {
    RowsOf(C.Entries(c.Contents()))
  }

  /** Tables without a second row per path give a cache of the same kind. */
  lemma RowsOfTables(t: C.Tables)
    ensures C.OneRowPerPath(t.files) <==> OneRowPerPath(RowsOf(C.Entries(t)))
    ensures forall p :: C.HasPath(t.files, p) <==> !NoRowFor(RowsOf(C.Entries(t)), p)
  {
    var rows := RowsOf(C.Entries(t));
    assert forall h :: h in rows <==> h in t.files;
    assert forall h :: h in rows ==> rows[h].path == t.files[h].path;
    if C.OneRowPerPath(t.files) {
      assert OneRowPerPath(rows);
    }
    if OneRowPerPath(rows) {
      forall h, k | h in t.files && k in t.files && t.files[h].path == t.files[k].path
        ensures h == k
      {
        assert rows[h].path == rows[k].path;
      }
    }
  }

  // ---- detection ----

  /** What one detector returns for a file. */
  datatype Result = Result(nodes: seq<NodeView>, edges: seq<EdgeView>)

  /** All results of the registered detectors, in registry order. */
  type Detectors = (string, string) -> seq<Result>

  function AllNodes(rs: seq<Result>): seq<NodeView> {
    if rs == [] then [] else AllNodes(rs[..|rs| - 1]) + rs[|rs| - 1].nodes
  }

  function AllEdges(rs: seq<Result>): seq<EdgeView> {
    if rs == [] then [] else AllEdges(rs[..|rs| - 1]) + rs[|rs| - 1].edges
  }

  lemma {:induction false} AllNodesConcatenate(rs: seq<Result>)
    ensures Concatenates(AllNodes(rs), seq(|rs|, i requires 0 <= i < |rs| => rs[i].nodes))
  {
    hide Concatenates;
    if rs == [] {
      ConcatenatesNothing<NodeView>();
      assert seq(|rs|, i requires 0 <= i < |rs| => rs[i].nodes) == [];
    } else {
      var front := rs[..|rs| - 1];
      AllNodesConcatenate(front);
      var parts := seq(|front|, i requires 0 <= i < |front| => front[i].nodes);
      ConcatenatesMore(AllNodes(front), parts, rs[|rs| - 1].nodes);
      assert seq(|rs|, i requires 0 <= i < |rs| => rs[i].nodes) == parts + [rs[|rs| - 1].nodes];
    }
  }

  lemma {:induction false} AllEdgesConcatenate(rs: seq<Result>)
    ensures Concatenates(AllEdges(rs), seq(|rs|, i requires 0 <= i < |rs| => rs[i].edges))
  {
    hide Concatenates;
    if rs == [] {
      ConcatenatesNothing<EdgeView>();
      assert seq(|rs|, i requires 0 <= i < |rs| => rs[i].edges) == [];
    } else {
      var front := rs[..|rs| - 1];
      AllEdgesConcatenate(front);
      var parts := seq(|front|, i requires 0 <= i < |front| => front[i].edges);
      ConcatenatesMore(AllEdges(front), parts, rs[|rs| - 1].edges);
      assert seq(|rs|, i requires 0 <= i < |rs| => rs[i].edges) == parts + [rs[|rs| - 1].edges];
    }
  }

  /** The entry of a file as it was detected. */
  ghost function DetectedEntry(sha: string -> string, detectors: Detectors, path: string, content: string): C.Entry {
    C.Entry(sha(content), path, AllNodes(detectors(path, content)), AllEdges(detectors(path, content)))
  }

  /** Every entry holds, value by value, what detection gave for its path and some content with its hash. */
  ghost predicate TrueEntries(sha: string -> string, detectors: Detectors, entries: map<string, C.Entry>) {
    forall h :: h in entries ==> exists content :: sha(content) == h && entries[h] == DetectedEntry(sha, detectors, entries[h].path, content)
  }

  ghost predicate ContentsDiffer(files: seq<(string, string)>) {
    forall i, j :: 0 <= i < j < |files| ==> files[i].0 != files[j].0 && files[i].1 != files[j].1
  }

  /** No file's content is cached under the path of another file. */
  ghost predicate NoForeignEntry(sha: string -> string, files: seq<(string, string)>, entries: map<string, C.Entry>) {
    forall i, j :: 0 <= i < |files| && 0 <= j < |files| && sha(files[i].1) in entries && entries[sha(files[i].1)].path == files[j].0
              ==> files[i].0 == files[j].0
  }

  /** The entries of these files' contents, where there are any, are their own. */
  ghost predicate OwnPaths(sha: string -> string, files: seq<(string, string)>, n: nat, entries: map<string, C.Entry>)
    requires n <= |files|
  {
    forall k :: 0 <= k < n && sha(files[k].1) in entries ==> entries[sha(files[k].1)].path == files[k].0
  }

  ghost predicate AllStored(sha: string -> string, files: seq<(string, string)>, n: nat, entries: map<string, C.Entry>)
    requires n <= |files|
  {
    forall k :: 0 <= k < n ==> sha(files[k].1) in entries
  }

  /** What a file's turn handed over are the values its detection gives. */
  ghost predicate HandsOver(detectors: Detectors, file: (string, string), added: seq<Result>) {
    AllNodes(added) == AllNodes(detectors(file.0, file.1)) && AllEdges(added) == AllEdges(detectors(file.0, file.1))
  }

  /** Each of the first `n` files has its own entry, as detected, and handed over what was detected. */
  ghost predicate OwnEntries(sha: string -> string, detectors: Detectors, files: seq<(string, string)>, entries: map<string, C.Entry>,
                             added: seq<seq<Result>>)
  {
    |added| == |files| && forall k :: 0 <= k < |files| ==>
      && sha(files[k].1) in entries
      && entries[sha(files[k].1)] ==
         C.Entry(sha(files[k].1), files[k].0, AllNodes(detectors(files[k].0, files[k].1)), AllEdges(detectors(files[k].0, files[k].1)))
      && HandsOver(detectors, files[k], added[k])
  }

  lemma OwnIsDetected(sha: string -> string, detectors: Detectors, entries: map<string, C.Entry>, path: string, content: string)
    requires Injective(sha) && TrueEntries(sha, detectors, entries)
    requires sha(content) in entries && entries[sha(content)].path == path
    ensures entries[sha(content)] == DetectedEntry(sha, detectors, path, content)
  {
    var c :| sha(c) == sha(content) && entries[sha(content)] == DetectedEntry(sha, detectors, path, c);
  }

  lemma AllOwn(sha: string -> string, detectors: Detectors, files: seq<(string, string)>, entries: map<string, C.Entry>,
               added: seq<seq<Result>>)
    requires Injective(sha) && TrueEntries(sha, detectors, entries) && |added| == |files|
    requires OwnPaths(sha, files, |files|, entries) && AllStored(sha, files, |files|, entries)
    requires forall k :: 0 <= k < |files| ==> HandsOver(detectors, files[k], added[k])
    ensures OwnEntries(sha, detectors, files, entries, added)
  {
    hide HandsOver, AllNodes, AllEdges;
    forall k | 0 <= k < |files|
      ensures entries[sha(files[k].1)] == DetectedEntry(sha, detectors, files[k].0, files[k].1)
    {
      OwnIsDetected(sha, detectors, entries, files[k].0, files[k].1);
    }
  }

  /** The entries of these paths are gone, the others as they were. */
  ghost predicate Dropped(before: map<string, C.Entry>, after: map<string, C.Entry>, paths: seq<string>) {
    && (forall h :: h in after <==> h in before && before[h].path !in paths)
    && (forall h :: h in after && h in before ==> after[h] == before[h])
  }

  lemma DroppedMore(start: map<string, C.Entry>, before: map<string, C.Entry>, after: map<string, C.Entry>, paths: seq<string>, i: nat)
    requires i < |paths| && Dropped(start, before, paths[..i]) && after == C.WithoutPath(before, paths[i])
    ensures Dropped(start, after, paths[..i + 1])
  {
    assert paths[..i + 1] == paths[..i] + [paths[i]];
  }

  /** Once the entries of vanished paths are gone, no file's content is cached under another path. */
  lemma DroppedAreOwn(sha: string -> string, files: seq<(string, string)>, before: map<string, C.Entry>, after: map<string, C.Entry>,
                      paths: seq<string>)
    requires Dropped(before, after, paths) && NoForeignEntry(sha, files, before)
    requires forall h :: h in before && before[h].path !in paths ==> exists j :: 0 <= j < |files| && files[j].0 == before[h].path
    ensures OwnPaths(sha, files, |files|, after) && AllStored(sha, files, 0, after)
  {
    forall k | 0 <= k < |files| && sha(files[k].1) in after
      ensures after[sha(files[k].1)].path == files[k].0
    {
      var h := sha(files[k].1);
      var j :| 0 <= j < |files| && files[j].0 == before[h].path;
    }
  }

  function ConfigOf(sha: string -> string, detectors: Detectors): Config {
    Config(sha, (path, content) =>
      Ids(Map(NodeId, AllNodes(detectors(path, content))), Map(KeyOf, AllEdges(detectors(path, content)))))
  }

  // ---- Diff ----

  datatype DiscoveredFile = DiscoveredFile(path: string, content: Option<string>)

  datatype Delta = Delta(added: seq<string>, modified: seq<string>, deleted: seq<string>, same: seq<string>)

  datatype Bucket = Added | Modified | Deleted | Unchanged

  ghost predicate Seen(files: seq<DiscoveredFile>, p: string) {
    exists k :: 0 <= k < |files| && files[k].path == p
  }

  ghost predicate Readable(files: seq<DiscoveredFile>, p: string, content: string) {
    exists k :: 0 <= k < |files| && files[k] == DiscoveredFile(p, Some(content))
  }

  ghost predicate CachedUnder(cached: map<string, C.FileRow>, p: string, hash: string) {
    hash in cached && cached[hash].path == p
  }

  /** Which bucket a path belongs in. */
  ghost predicate Belongs(sha: string -> string, files: seq<DiscoveredFile>, cached: map<string, C.FileRow>, p: string, b: Bucket) {
    match b
    case Added => (exists content :: Readable(files, p, content)) && !C.HasPath(cached, p)
    case Unchanged => exists content :: Readable(files, p, content) && CachedUnder(cached, p, sha(content))
    case Modified => C.HasPath(cached, p) && exists content :: Readable(files, p, content) && !CachedUnder(cached, p, sha(content))
    case Deleted => C.HasPath(cached, p) && !Seen(files, p)
  }

  function InBucket(d: Delta, b: Bucket): seq<string> {
    match b
    case Added => d.added
    case Modified => d.modified
    case Deleted => d.deleted
    case Unchanged => d.same
  }

  ghost predicate DistinctPaths(files: seq<DiscoveredFile>) {
    forall i, j :: 0 <= i < j < |files| ==> files[i].path != files[j].path
  }

  /** The buckets are disjoint, and together they are the readable files and the vanished cached paths. */
  lemma BucketsPartition(sha: string -> string, files: seq<DiscoveredFile>, cached: map<string, C.FileRow>, p: string)
    requires DistinctPaths(files)
    ensures forall b, b' :: Belongs(sha, files, cached, p, b) && Belongs(sha, files, cached, p, b') ==> b == b'
    ensures (exists b :: Belongs(sha, files, cached, p, b)) <==>
            (exists content :: Readable(files, p, content)) || (C.HasPath(cached, p) && !Seen(files, p))
  {
    forall content, content' | Readable(files, p, content) && Readable(files, p, content')
      ensures content == content'
    {
    }
    assert forall content :: Readable(files, p, content) ==> Seen(files, p);
    assert forall hash :: CachedUnder(cached, p, hash) ==> C.HasPath(cached, p);
    if content :| Readable(files, p, content) {
      if !C.HasPath(cached, p) {
        assert Belongs(sha, files, cached, p, Added);
      } else if CachedUnder(cached, p, sha(content)) {
        assert Belongs(sha, files, cached, p, Unchanged);
      } else {
        assert Belongs(sha, files, cached, p, Modified);
      }
    } else if C.HasPath(cached, p) && !Seen(files, p) {
      assert Belongs(sha, files, cached, p, Deleted);
    }
  }

  /** How one pass classifies a discovered file; an unreadable one is skipped. */
  ghost function Kind(sha: string -> string, cached: map<string, C.FileRow>, f: DiscoveredFile): Option<Bucket> {
    if f.content.None? then None
    else if !C.HasPath(cached, f.path) then Some(Added)
    else if CachedUnder(cached, f.path, sha(f.content.value)) then Some(Unchanged)
    else Some(Modified)
  }

  /** The paths of one kind, in discovery order. */
  ghost function Listed(sha: string -> string, cached: map<string, C.FileRow>, files: seq<DiscoveredFile>, b: Bucket): seq<string> {
    if files == [] then []
    else
      var last := files[|files| - 1];
      Listed(sha, cached, files[..|files| - 1], b) + if Kind(sha, cached, last) == Some(b) then [last.path] else []
  }

  ghost function VanishedPaths(files: seq<DiscoveredFile>, cached: map<string, C.FileRow>): set<string> {
    set h | h in cached && !Seen(files, cached[h].path) :: cached[h].path
  }

  /** The four buckets: three in discovery order, the vanished paths in path order. */
  ghost function DeltaOf(sha: string -> string, files: seq<DiscoveredFile>, cached: map<string, C.FileRow>): Delta {
    Delta(Listed(sha, cached, files, Added), Listed(sha, cached, files, Modified),
          SortedListing(VanishedPaths(files, cached)), Listed(sha, cached, files, Unchanged))
  }

  lemma {:induction false} ListedIsExact(sha: string -> string, cached: map<string, C.FileRow>, files: seq<DiscoveredFile>, b: Bucket, p: string)
    ensures p in Listed(sha, cached, files, b) <==> exists k :: 0 <= k < |files| && files[k].path == p && Kind(sha, cached, files[k]) == Some(b)
  {
    hide Kind;
    if files == [] {
    } else {
      var front := files[..|files| - 1];
      ListedIsExact(sha, cached, front, b, p);
      assert forall k :: 0 <= k < |front| ==> front[k] == files[k];
    }
  }

  ghost function OfKind(sha: string -> string, cached: map<string, C.FileRow>, b: Bucket): DiscoveredFile -> bool {
    f => Kind(sha, cached, f) == Some(b)
  }

  /** A bucket's paths are those of its files, in discovery order. */
  lemma {:induction false} ListedInOrder(sha: string -> string, cached: map<string, C.FileRow>, files: seq<DiscoveredFile>, b: Bucket)
    ensures Listed(sha, cached, files, b) == Map((f: DiscoveredFile) => f.path, Filter(OfKind(sha, cached, b), files))
  {
    hide Kind;
    var path := (f: DiscoveredFile) => f.path;
    if files == [] {
    } else {
      var front, last := files[..|files| - 1], files[|files| - 1];
      ListedInOrder(sha, cached, front, b);
      assert files == front + [last];
      FilterConcat(OfKind(sha, cached, b), front, [last]);
      FilterOne(OfKind(sha, cached, b), last);
      MapConcat(path, Filter(OfKind(sha, cached, b), front), Filter(OfKind(sha, cached, b), [last]));
    }
  }

  /** Added, modified and unchanged files are listed as they were discovered, vanished ones by path. */
  lemma {:induction false} BucketsKeepOrder(sha: string -> string, files: seq<DiscoveredFile>, cached: map<string, C.FileRow>)
    ensures var d, path := DeltaOf(sha, files, cached), (f: DiscoveredFile) => f.path;
            && d.added == Map(path, Filter(OfKind(sha, cached, Added), files))
            && d.modified == Map(path, Filter(OfKind(sha, cached, Modified), files))
            && d.same == Map(path, Filter(OfKind(sha, cached, Unchanged), files))
            && StrictlySorted(d.deleted)
  {
    ListedInOrder(sha, cached, files, Added);
    ListedInOrder(sha, cached, files, Modified);
    ListedInOrder(sha, cached, files, Unchanged);
  }

  lemma KindIsBelonging(sha: string -> string, files: seq<DiscoveredFile>, cached: map<string, C.FileRow>, b: Bucket, p: string)
    requires !b.Deleted?
    ensures (exists k :: 0 <= k < |files| && files[k].path == p && Kind(sha, cached, files[k]) == Some(b)) <==> Belongs(sha, files, cached, p, b)
  {
    assert forall hash :: CachedUnder(cached, p, hash) ==> C.HasPath(cached, p);
    if k :| 0 <= k < |files| && files[k].path == p && Kind(sha, cached, files[k]) == Some(b) {
      assert files[k] == DiscoveredFile(p, Some(files[k].content.value));
      assert Readable(files, p, files[k].content.value);
    }
    if Belongs(sha, files, cached, p, b) {
      var content :| Readable(files, p, content) && (b.Unchanged? ==> CachedUnder(cached, p, sha(content))) &&
                     (b.Modified? ==> !CachedUnder(cached, p, sha(content)));
      var k :| 0 <= k < |files| && files[k] == DiscoveredFile(p, Some(content));
      assert Kind(sha, cached, files[k]) == Some(b);
    }
  }

  /** Each bucket holds exactly the paths that belong in it. */
  lemma BucketsAreExact(sha: string -> string, files: seq<DiscoveredFile>, cached: map<string, C.FileRow>, b: Bucket, p: string)
    ensures p in InBucket(DeltaOf(sha, files, cached), b) <==> Belongs(sha, files, cached, p, b)
  {
    if b.Deleted? {
      assert p in VanishedPaths(files, cached) <==> Belongs(sha, files, cached, p, b);
    } else {
      ListedIsExact(sha, cached, files, b, p);
      KindIsBelonging(sha, files, cached, b, p);
    }
  }

  lemma CachedKind(sha: string -> string, cached: map<string, C.FileRow>, f: DiscoveredFile, hash: Option<string>)
    requires C.OneRowPerPath(cached) && f.content.Some?
    requires hash.Some? ==> hash.value in cached && cached[hash.value].path == f.path
    requires hash.None? <==> !C.HasPath(cached, f.path)
    ensures Kind(sha, cached, f) == Some(if hash.None? then Added else if hash.value == sha(f.content.value) then Unchanged else Modified)
  {
  }

  lemma DeletedPath(cached: map<string, C.FileRow>, files: seq<DiscoveredFile>, seen: set<string>, rows: seq<(string, string)>, p: string)
    requires seen == set k | 0 <= k < |files| :: files[k].path
    requires forall p, h :: (p, h) in rows <==> h in cached && cached[h].path == p
    ensures p in VanishedPaths(files, cached) <==> p !in seen && exists k :: 0 <= k < |rows| && rows[k].0 == p
  {
    assert p in seen <==> Seen(files, p);
    if h :| h in cached && cached[h].path == p {
      assert (p, h) in rows;
    }
    if k :| 0 <= k < |rows| && rows[k].0 == p {
      assert (rows[k].0, rows[k].1) in rows;
    }
  }

  /** The cached paths nobody discovered, in path order. */
  method CollectDeleted(cache: C.Cache, files: seq<DiscoveredFile>, seen: set<string>) returns (deleted: seq<string>)
    requires C.OneRowPerPath(cache.files) && seen == set k | 0 <= k < |files| :: files[k].path
    ensures deleted == SortedListing(VanishedPaths(files, cache.files))
  {
    var rows := cache.AllFiles();
    deleted := [];
    for i := 0 to |rows|
      invariant StrictlySorted(deleted)
      invariant forall p :: p in deleted <==> p !in seen && exists k :: 0 <= k < i && rows[k].0 == p
    {
      if rows[i].0 !in seen {
        assert forall k :: 0 <= k < i ==> Less(rows[k].0, rows[i].0);
        forall j | 0 <= j < |deleted|
          ensures Less(deleted[j], rows[i].0)
        {
          assert deleted[j] in deleted;
        }
        deleted := deleted + [rows[i].0];
      }
    }
    forall p
      ensures p in deleted <==> p in VanishedPaths(files, cache.files)
    {
      DeletedPath(cache.files, files, seen, rows, p);
    }
    SortedListingIsUnique(deleted, SortedListing(VanishedPaths(files, cache.files)));
  }

  /** `Diff`: one pass over the discovered files, one over the cache rows. */
  method Diff(sha: string -> string, cache: C.Cache, files: seq<DiscoveredFile>) returns (d: Delta)
    requires C.OneRowPerPath(cache.files) && DistinctPaths(files)
    ensures d == DeltaOf(sha, files, cache.files)
    ensures forall b, p :: p in InBucket(d, b) <==> Belongs(sha, files, cache.files, p, b)
  {
    var added, modified, deleted, same := [], [], [], [];
    var seen := {};
    for i := 0 to |files|
      invariant seen == set k | 0 <= k < i :: files[k].path
      invariant added == Listed(sha, cache.files, files[..i], Added)
      invariant modified == Listed(sha, cache.files, files[..i], Modified)
      invariant same == Listed(sha, cache.files, files[..i], Unchanged)
    {
      var f := files[i];
      assert files[..i + 1][..i] == files[..i];
      seen := seen + {f.path};
      if f.content.Some? {
        var cachedHash := cache.GetFileByPath(f.path);
        CachedKind(sha, cache.files, f, cachedHash);
        hide Kind;
        if cachedHash.None? {
          added := added + [f.path];
        } else if cachedHash.value == sha(f.content.value) {
          same := same + [f.path];
        } else {
          modified := modified + [f.path];
        }
      }
    }
    assert files[..|files|] == files;
    deleted := CollectDeleted(cache, files, seen);
    d := Delta(added, modified, deleted, same);
    forall b, p
      ensures p in InBucket(d, b) <==> Belongs(sha, files, cache.files, p, b)
    {
      BucketsAreExact(sha, files, cache.files, b, p);
    }
  }

  // ---- one worker ----

  lemma RowsAfterPut(entries: map<string, C.Entry>, e: C.Entry)
    ensures RowsOf(entries[e.hash := e]) == RowsOf(entries)[e.hash := RowOf(e)]
  {
  }

  lemma RowsAfterPurge(entries: map<string, C.Entry>, p: string)
    ensures RowsOf(C.WithoutPath(entries, p)) == WithoutPath(RowsOf(entries), p)
  {
  }

  /** The cache after one worker has handled a file alone. */
  ghost function AfterFile(cfg: Config, force: bool, rows: Rows, path: string, content: string): Rows {
    var h := cfg.sha(content);
    if !force && h in rows then rows else WithoutPath(rows, path)[h := Row(path, cfg.detect(path, content))]
  }

  /** What a file's turn hands to the builder: the row cached for its content, or what detection gives. */
  ghost function Emitted(cfg: Config, force: bool, rows: Rows, path: string, content: string): Ids {
    var h := cfg.sha(content);
    if !force && h in rows then rows[h].ids else cfg.detect(path, content)
  }

  /** The identities in a list of results. */
  ghost function IdsOf(rs: seq<Result>): Ids {
    Ids(Map(NodeId, AllNodes(rs)), Map(KeyOf, AllEdges(rs)))
  }

  /** The discovered files as a disk. */
  ghost function DiskOf(files: seq<(string, string)>): Disk {
    if files == [] then map[] else DiskOf(files[..|files| - 1])[files[|files| - 1].0 := files[|files| - 1].1]
  }

  ghost predicate Distinct(files: seq<(string, string)>) {
    forall i, j :: 0 <= i < j < |files| ==> files[i].0 != files[j].0
  }

  lemma {:induction false} DiskHoldsFiles(files: seq<(string, string)>)
    requires Distinct(files)
    ensures forall k :: 0 <= k < |files| ==> files[k].0 in DiskOf(files) && DiskOf(files)[files[k].0] == files[k].1
    ensures forall p :: p in DiskOf(files) ==> exists k :: 0 <= k < |files| && files[k].0 == p
  {
    if files == [] {
    } else {
      var front := files[..|files| - 1];
      DiskHoldsFiles(front);
      forall p | p in DiskOf(files)
        ensures exists k :: 0 <= k < |files| && files[k].0 == p
      {
        if p in DiskOf(front) {
          var k :| 0 <= k < |front| && front[k].0 == p;
          assert files[k].0 == p;
        } else {
          assert files[|files| - 1].0 == p;
        }
      }
    }
  }

  /** The schedule of a single worker: each file from start to end, in list order. */
  ghost function OneByOne(files: seq<(string, string)>): (steps: seq<string>)
    ensures forall x :: x in steps ==> exists k :: 0 <= k < |files| && files[k].0 == x
  {
    if files == [] then []
    else
      var last := files[|files| - 1].0;
      var front := OneByOne(files[..|files| - 1]);
      assert forall x :: x in front ==> exists k :: 0 <= k < |files| && files[k].0 == x by {
        forall x | x in front
          ensures exists k :: 0 <= k < |files| && files[k].0 == x
        {
          var k :| 0 <= k < |files| - 1 && files[..|files| - 1][k].0 == x;
          assert files[k].0 == x;
        }
      }
      front + [last, last, last, last]
  }

  lemma OneResult(r: Result)
    ensures AllNodes([r]) == r.nodes && AllEdges([r]) == r.edges
  {
    assert [r][..0] == [];
    assert AllNodes([]) == [] && AllEdges([]) == [];
  }

  /** The readable files as `Diff` meets them. */
  function Discovered(files: seq<(string, string)>): (d: seq<DiscoveredFile>)
    ensures |d| == |files| && forall i :: 0 <= i < |files| ==> d[i] == DiscoveredFile(files[i].0, Some(files[i].1))
  {
    seq(|files|, i requires 0 <= i < |files| => DiscoveredFile(files[i].0, Some(files[i].1)))
  }

  lemma RowsFollowFiles(t: C.Tables)
    ensures RowsOf(C.Entries(t)).Keys == t.files.Keys
    ensures forall h :: h in t.files ==> RowsOf(C.Entries(t))[h].path == t.files[h].path
  {
  }

  /** The state after the first `i` files, each run from start to end. */
  ghost predicate Progress(cfg: Config, disk: Disk, force: bool, rows: Rows, files: seq<(string, string)>, i: nat, s: State)
    requires i <= |files|
  {
    && Distinct(files)
    && (forall k :: 0 <= k < |files| ==> files[k].0 in disk && disk[files[k].0] == files[k].1)
    && (forall p :: p in disk ==> exists k :: 0 <= k < |files| && files[k].0 == p)
    && s.tasks.Keys == disk.Keys
    && Schedule(disk, OneByOne(files[..i]))
    && s == RunTo(cfg, disk, force, rows, OneByOne(files[..i]))
    && (forall k :: 0 <= k < i ==> s.tasks[files[k].0].phase.Done?)
    && (forall k :: i <= k < |files| ==> s.tasks[files[k].0] == Task(Waiting, []))
  }

  /** Each file handed over what its task emitted, in one go. */
  ghost predicate EmittedBy(files: seq<(string, string)>, added: seq<seq<Result>>, s: State) {
    |added| == |files| && forall k :: 0 <= k < |files| ==> files[k].0 in s.tasks && s.tasks[files[k].0].emitted == [IdsOf(added[k])]
  }

  /** From one state to the next only the `i`-th file's task changed, and it emitted the results. */
  ghost predicate OnlyMoved(files: seq<(string, string)>, i: nat, results: seq<Result>, s: State, r: State)
    requires i < |files|
  {
    && files[i].0 in r.tasks && r.tasks[files[i].0].emitted == [IdsOf(results)]
    && forall q :: q in s.tasks && q != files[i].0 ==> q in r.tasks && r.tasks[q] == s.tasks[q]
  }

  lemma NothingEmitted(s: State)
    ensures EmittedBy([], [], s)
  {
  }

  lemma OneMoreEmitted(files: seq<(string, string)>, i: nat, added: seq<seq<Result>>, results: seq<Result>, s: State, r: State)
    requires i < |files| && Distinct(files) && EmittedBy(files[..i], added, s) && OnlyMoved(files, i, results, s, r)
    ensures EmittedBy(files[..i + 1], added + [results], r)
  {
    hide IdsOf;
    forall k | 0 <= k < i
      ensures r.tasks[files[k].0] == s.tasks[files[k].0]
    {
      assert files[..i][k] == files[k];
    }
  }

  /** Files whose worker ended in a cache hit. */
  ghost function Hits(s: State): nat {
    |set p | p in s.tasks && s.tasks[p].phase == Done(true)|
  }

  lemma NoHitsYet(disk: Disk, force: bool, rows: Rows)
    ensures Hits(Start(disk, force, rows)) == 0
  {
    var s := Start(disk, force, rows);
    assert (set p | p in s.tasks && s.tasks[p].phase == Done(true)) == {};
  }

  lemma StartProgress(cfg: Config, disk: Disk, force: bool, rows: Rows, files: seq<(string, string)>)
    requires Distinct(files) && disk == DiskOf(files)
    ensures Progress(cfg, disk, force, rows, files, 0, Start(disk, force, rows))
    ensures Hits(Start(disk, force, rows)) == 0
  {
    DiskHoldsFiles(files);
    NoHitsYet(disk, force, rows);
  }

  lemma FourMoves(cfg: Config, disk: Disk, force: bool, s: State, p: string)
    requires p in disk && s.tasks.Keys == disk.Keys && s.tasks[p].phase.Waiting?
    ensures var r, hit := Step(cfg, disk, force, Step(cfg, disk, force, Step(cfg, disk, force, Step(cfg, disk, force, s, p), p), p), p),
                          !force && cfg.sha(disk[p]) in s.cache;
            && r.cache == AfterFile(cfg, force, s.cache, p, disk[p])
            && r.tasks[p].phase == Done(hit)
            && r.tasks[p].emitted == s.tasks[p].emitted + [Emitted(cfg, force, s.cache, p, disk[p])]
            && (forall q :: q in disk && q != p ==> r.tasks[q] == s.tasks[q])
  {
    var s1 := Step(cfg, disk, force, s, p);
    var s2 := Step(cfg, disk, force, s1, p);
    var s3 := Step(cfg, disk, force, s2, p);
    if s1.tasks[p].phase.Found? {
      assert s3.tasks[p].phase.NodesRead? && s3.cache == s.cache;
    } else {
      assert s3.tasks[p].phase.Purged? && s3.cache == WithoutPath(s.cache, p);
    }
  }

  lemma HitsAfter(s: State, r: State, p: string)
    requires p in s.tasks && r.tasks.Keys == s.tasks.Keys && s.tasks[p].phase.Waiting?
    requires forall q :: q in s.tasks && q != p ==> r.tasks[q] == s.tasks[q]
    ensures Hits(r) == Hits(s) + if r.tasks[p].phase == Done(true) then 1 else 0
  {
    var before := set q | q in s.tasks && s.tasks[q].phase == Done(true);
    var after := set q | q in r.tasks && r.tasks[q].phase == Done(true);
    assert after == if r.tasks[p].phase == Done(true) then before + {p} else before;
  }

  lemma FourTimes(cfg: Config, disk: Disk, force: bool, s: State, p: string)
    requires p in disk && s.tasks.Keys == disk.Keys
    ensures Exec(cfg, disk, force, s, [p, p, p, p]) ==
            Step(cfg, disk, force, Step(cfg, disk, force, Step(cfg, disk, force, Step(cfg, disk, force, s, p), p), p), p)
  {
    hide Step;
    var s1 := Step(cfg, disk, force, s, p);
    var s2 := Step(cfg, disk, force, s1, p);
    var s3 := Step(cfg, disk, force, s2, p);
    var s4 := Step(cfg, disk, force, s3, p);
    assert [p, p, p, p][1..] == [p, p, p] && [p, p, p][1..] == [p, p] && [p, p][1..] == [p] && [p][1..] == [];
    assert Exec(cfg, disk, force, s3, [p]) == s4;
    assert Exec(cfg, disk, force, s2, [p, p]) == s4;
    assert Exec(cfg, disk, force, s1, [p, p, p]) == s4;
  }

  /** Alone, a file takes four steps, with the effect of `AfterFile`. */
  lemma FourSteps(cfg: Config, disk: Disk, force: bool, s: State, p: string)
    requires p in disk && s.tasks.Keys == disk.Keys && s.tasks[p].phase.Waiting?
    ensures var r, hit := Exec(cfg, disk, force, s, [p, p, p, p]), !force && cfg.sha(disk[p]) in s.cache;
            && r.cache == AfterFile(cfg, force, s.cache, p, disk[p])
            && r.tasks[p].phase == Done(hit)
            && r.tasks[p].emitted == s.tasks[p].emitted + [Emitted(cfg, force, s.cache, p, disk[p])]
            && (forall q :: q in disk && q != p ==> r.tasks[q] == s.tasks[q])
            && Hits(r) == Hits(s) + if hit then 1 else 0
  {
    FourTimes(cfg, disk, force, s, p);
    FourMoves(cfg, disk, force, s, p);
    HitsAfter(s, Exec(cfg, disk, force, s, [p, p, p, p]), p);
  }

  lemma StartHasTasks(disk: Disk, force: bool, rows: Rows)
    ensures Start(disk, force, rows).tasks.Keys == disk.Keys
  {
  }

  lemma ProgressMoves(cfg: Config, disk: Disk, force: bool, rows: Rows, files: seq<(string, string)>, i: nat, s: State, r: State)
    requires i < |files| && Progress(cfg, disk, force, rows, files, i, s) && r.tasks.Keys == disk.Keys
    requires Schedule(disk, OneByOne(files[..i + 1])) && r == RunTo(cfg, disk, force, rows, OneByOne(files[..i + 1]))
    requires r.tasks[files[i].0].phase.Done? && forall q :: q in disk && q != files[i].0 ==> r.tasks[q] == s.tasks[q]
    ensures Progress(cfg, disk, force, rows, files, i + 1, r)
  {
    hide RunTo, Schedule, OneByOne;
    forall k | 0 <= k < |files| && k != i
      ensures r.tasks[files[k].0] == s.tasks[files[k].0]
    {
      assert files[k].0 != files[i].0;
    }
  }

  lemma NextFile(cfg: Config, disk: Disk, force: bool, rows: Rows, files: seq<(string, string)>, i: nat, s: State)
    returns (r: State)
    requires i < |files| && Progress(cfg, disk, force, rows, files, i, s)
    ensures Progress(cfg, disk, force, rows, files, i + 1, r)
    ensures r.cache == AfterFile(cfg, force, s.cache, files[i].0, files[i].1)
    ensures Hits(r) == Hits(s) + if !force && cfg.sha(files[i].1) in s.cache then 1 else 0
    ensures r.tasks.Keys == s.tasks.Keys == disk.Keys && files[i].0 in disk
    ensures r.tasks[files[i].0].emitted == [Emitted(cfg, force, s.cache, files[i].0, files[i].1)]
    ensures forall q :: q in disk && q != files[i].0 ==> r.tasks[q] == s.tasks[q]
  {
    hide Step, Exec, Start, AfterFile, Hits, Emitted;
    var p, done := files[i].0, files[..i];
    var start, steps := Start(disk, force, rows), OneByOne(done);
    r := Exec(cfg, disk, force, s, [p, p, p, p]);
    FourSteps(cfg, disk, force, s, p);
    StartHasTasks(disk, force, rows);
    E.ExecConcat(cfg, disk, force, start, steps, [p, p, p, p]);
    assert files[..i + 1][..i] == done;
    assert OneByOne(files[..i + 1]) == steps + [p, p, p, p];
    ProgressMoves(cfg, disk, force, rows, files, i, s, r);
  }

  ghost predicate Steps(files: seq<(string, string)>, steps: seq<string>) {
    forall k :: 0 <= k < |steps| ==> steps[k] in DiskOf(files)
  }

  lemma WithoutOneMore(rows: Rows, ps: seq<string>, i: nat)
    requires i < |ps|
    ensures WithoutPath(WithoutPaths(rows, ps[..i]), ps[i]) == WithoutPaths(rows, ps[..i + 1])
  {
    assert ps[..i + 1] == ps[..i] + [ps[i]];
  }

  lemma DeletedAreVanished(files: seq<(string, string)>, discovered: seq<DiscoveredFile>, cached: map<string, C.FileRow>,
                           rows: Rows, deleted: seq<string>)
    requires Distinct(files) && |discovered| == |files|
    requires forall i :: 0 <= i < |files| ==> discovered[i] == DiscoveredFile(files[i].0, Some(files[i].1))
    requires rows.Keys == cached.Keys && forall h :: h in rows ==> rows[h].path == cached[h].path
    requires forall p :: p in deleted <==> C.HasPath(cached, p) && !Seen(discovered, p)
    ensures WithoutPaths(rows, deleted) == Start(DiskOf(files), false, rows).cache
  {
    DiskHoldsFiles(files);
    assert forall k :: 0 <= k < |files| ==> discovered[k].path == files[k].0;
    assert forall p :: Seen(discovered, p) <==> p in DiskOf(files);
    forall h | h in rows
      ensures rows[h].path in deleted <==> rows[h].path !in DiskOf(files)
    {
      assert C.HasPath(cached, rows[h].path);
    }
  }

  lemma ProgressEnds(cfg: Config, disk: Disk, force: bool, rows: Rows, files: seq<(string, string)>, s: State)
    requires disk == DiskOf(files) && Progress(cfg, disk, force, rows, files, |files|, s)
    ensures Steps(files, OneByOne(files)) && s == RunTo(cfg, disk, force, rows, OneByOne(files)) && AllDone(s)
  {
    hide Exec, Start, OneByOne;
    assert files[..|files|] == files;
  }

  lemma EntriesFollowFiles(t: C.Tables)
    ensures forall h :: h in C.Entries(t) ==> C.HasPath(t.files, C.Entries(t)[h].path)
  {
  }

  lemma SeenAreFiles(files: seq<(string, string)>)
    ensures forall p :: Seen(Discovered(files), p) ==> exists j :: 0 <= j < |files| && files[j].0 == p
  {
  }

  class Worker {
    const cache: C.Cache
    const sha: string -> string
    const detectors: Detectors
    const force: bool
    var cacheHits: nat

    constructor (cache: C.Cache, sha: string -> string, detectors: Detectors, force: bool)
      ensures this.cache == cache && this.sha == sha && this.detectors == detectors && this.force == force
    {
      this.cache, this.sha, this.detectors, this.force := cache, sha, detectors, force;
      cacheHits := 0;
    }

    ghost function Cfg(): Config {
      ConfigOf(sha, detectors)
    }

    /** Every cached entry holds what detection gave. */
    ghost predicate HoldsDetections()
      reads cache
    {
      TrueEntries(sha, detectors, C.Entries(cache.Contents()))
    }

    /** The files before the `n`-th have their own entries; without force no later one has a foreign one. */
    ghost predicate Owning(files: seq<(string, string)>, n: nat)
      requires n <= |files|
      reads cache
    {
      var entries := C.Entries(cache.Contents());
      && Injective(sha) && ContentsDiffer(files) && HoldsDetections()
      && OwnPaths(sha, files, if force then n else |files|, entries) && AllStored(sha, files, n, entries)
    }

    lemma RowOfDetected(e: C.Entry, cfg: Config, content: string)
      requires cfg == Cfg() && e.nodes == AllNodes(detectors(e.path, content)) && e.edges == AllEdges(detectors(e.path, content))
      ensures RowOf(e) == Row(e.path, cfg.detect(e.path, content))
    {
    }

    /** The file's entry is what was just detected, the path's other entries are gone, all else is as it was. */
    ghost predicate Replaced(before: map<string, C.Entry>, after: map<string, C.Entry>, path: string, content: string) {
      && sha(content) in after
      && after[sha(content)] == C.Entry(sha(content), path, AllNodes(detectors(path, content)), AllEdges(detectors(path, content)))
      && (forall h :: h != sha(content) ==> (h in after <==> h in before && before[h].path != path))
      && (forall h :: h != sha(content) && h in after && h in before ==> after[h] == before[h])
    }

    lemma EntryReplaced(before: map<string, C.Entry>, entry: C.Entry, path: string, content: string)
      requires entry == C.Entry(sha(content), path, AllNodes(detectors(path, content)), AllEdges(detectors(path, content)))
      ensures Replaced(before, C.WithoutPath(before, path)[entry.hash := entry], path, content)
    {
    }

    lemma ReplacedStayTrue(before: map<string, C.Entry>, after: map<string, C.Entry>, path: string, content: string)
      requires TrueEntries(sha, detectors, before) && Replaced(before, after, path, content)
      ensures TrueEntries(sha, detectors, after)
    {
      assert after[sha(content)] == DetectedEntry(sha, detectors, path, content);
      forall h | h in after && h != sha(content)
        ensures exists c :: sha(c) == h && after[h] == DetectedEntry(sha, detectors, after[h].path, c)
      {
        var c :| sha(c) == h && before[h] == DetectedEntry(sha, detectors, before[h].path, c);
      }
    }

    /** A file's turn makes its entry its own and leaves those of the files before it. */
    lemma OneMoreOwn(files: seq<(string, string)>, i: nat, before: map<string, C.Entry>, after: map<string, C.Entry>)
      requires i < |files| && Injective(sha) && ContentsDiffer(files)
      requires OwnPaths(sha, files, if force then i else |files|, before) && AllStored(sha, files, i, before)
      requires Replaced(before, after, files[i].0, files[i].1) || (after == before && !force && sha(files[i].1) in before)
      ensures OwnPaths(sha, files, if force then i + 1 else |files|, after) && AllStored(sha, files, i + 1, after)
    {
      hide AllNodes, AllEdges;
      forall k | 0 <= k < |files| && k != i
        ensures files[k].0 != files[i].0 && sha(files[k].1) != sha(files[i].1)
      {
      }
    }

    lemma HitHandsOver(entries: map<string, C.Entry>, path: string, content: string)
      requires Injective(sha) && TrueEntries(sha, detectors, entries)
      requires sha(content) in entries && entries[sha(content)].path == path
      ensures HandsOver(detectors, (path, content), [Result(entries[sha(content)].nodes, entries[sha(content)].edges)])
    {
      OwnIsDetected(sha, detectors, entries, path, content);
      var r := Result(entries[sha(content)].nodes, entries[sha(content)].edges);
      assert [r][..0] == [];
    }

    method DetectAndStore(path: string, content: string, hash: string) returns (added: seq<Result>)
      requires C.WellFormed(cache.Contents()) && hash == sha(content)
      modifies cache
      ensures C.WellFormed(cache.Contents()) && added == detectors(path, content)
      ensures Replaced(old(C.Entries(cache.Contents())), C.Entries(cache.Contents()), path, content)
      ensures CachedRows(cache) == WithoutPath(old(CachedRows(cache)), path)[hash := Row(path, Cfg().detect(path, content))]
    {
      hide C.Entries, C.PutEntry, RowsOf, RowOf, WithoutPath, C.WithoutPath, C.WellFormed;
      var results := detectors(path, content);
      var nodes: seq<NodeView>, edges: seq<EdgeView> := [], [];
      for i := 0 to |results|
        invariant nodes == AllNodes(results[..i]) && edges == AllEdges(results[..i])
      {
        assert results[..i + 1][..i] == results[..i];
        nodes := nodes + results[i].nodes;
        edges := edges + results[i].edges;
      }
      assert results[..|results|] == results;
      added := results;
      var entry := C.Entry(hash, path, nodes, edges);
      RowsAfterPurge(C.Entries(cache.Contents()), path);
      var _ := cache.PurgeByPath(path);
      C.PurgeThenPutIsWellFormed(cache.Contents(), entry);
      RowsAfterPut(C.Entries(cache.Contents()), entry);
      cache.Put(entry);
      RowOfDetected(entry, Cfg(), content);
      EntryReplaced(old(C.Entries(cache.Contents())), entry, path, content);
    }

    /**
     `processFile`: reuse the entry cached for the content, or detect, purge the path's old
     row and store a new one. `added` lists what went to the builder, call by call.
     */
    method ProcessFile(path: string, content: string) returns (added: seq<Result>)
      requires C.WellFormed(cache.Contents())
      modifies cache, this`cacheHits
      ensures C.WellFormed(cache.Contents())
      ensures CachedRows(cache) == AfterFile(Cfg(), force, old(CachedRows(cache)), path, content)
      ensures !force && sha(content) in old(C.Entries(cache.Contents())) ==>
                var e := old(C.Entries(cache.Contents()))[sha(content)];
                added == [Result(e.nodes, e.edges)] && cacheHits == old(cacheHits) + 1 && cache.Contents() == old(cache.Contents())
      ensures force || sha(content) !in old(C.Entries(cache.Contents())) ==>
                && added == detectors(path, content) && cacheHits == old(cacheHits)
                && Replaced(old(C.Entries(cache.Contents())), C.Entries(cache.Contents()), path, content)
      ensures cacheHits == old(cacheHits) + if !force && sha(content) in old(CachedRows(cache)) then 1 else 0
      ensures IdsOf(added) == Emitted(Cfg(), force, old(CachedRows(cache)), path, content)
      ensures old(HoldsDetections()) ==> HoldsDetections()
    {
      var hash := sha(content);
      if !force {
        var found := cache.Has(hash);
        if found {
          var entry := cache.Get(hash);
          cacheHits := cacheHits + 1;
          added := [Result(entry.value.nodes, entry.value.edges)];
          OneResult(added[0]);
          return;
        }
      }
      ghost var before := C.Entries(cache.Contents());
      added := DetectAndStore(path, content, hash);
      if TrueEntries(sha, detectors, before) {
        ReplacedStayTrue(before, C.Entries(cache.Contents()), path, content);
      }
    }

    method PurgeOne(path: string)
      requires C.WellFormed(cache.Contents())
      modifies cache
      ensures C.WellFormed(cache.Contents())
      ensures CachedRows(cache) == WithoutPath(old(CachedRows(cache)), path)
      ensures C.Entries(cache.Contents()) == C.WithoutPath(old(C.Entries(cache.Contents())), path)
      ensures old(HoldsDetections()) ==> HoldsDetections()
    {
      RowsAfterPurge(C.Entries(cache.Contents()), path);
      var _ := cache.PurgeByPath(path);
    }

    method PurgePaths(paths: seq<string>)
      requires C.WellFormed(cache.Contents())
      modifies cache
      ensures C.WellFormed(cache.Contents())
      ensures CachedRows(cache) == WithoutPaths(old(CachedRows(cache)), paths)
      ensures Dropped(old(C.Entries(cache.Contents())), C.Entries(cache.Contents()), paths)
      ensures old(HoldsDetections()) ==> HoldsDetections()
    {
      for i := 0 to |paths|
        invariant C.WellFormed(cache.Contents())
        invariant CachedRows(cache) == WithoutPaths(old(CachedRows(cache)), paths[..i])
        invariant Dropped(old(C.Entries(cache.Contents())), C.Entries(cache.Contents()), paths[..i])
        invariant old(HoldsDetections()) ==> HoldsDetections()
      {
        hide C.WellFormed, CachedRows, WithoutPath, WithoutPaths, HoldsDetections, Dropped, C.Entries, C.WithoutPath;
        ghost var before := C.Entries(cache.Contents());
        PurgeOne(paths[i]);
        DroppedMore(old(C.Entries(cache.Contents())), before, C.Entries(cache.Contents()), paths, i);
        WithoutOneMore(old(CachedRows(cache)), paths, i);
      }
      assert paths[..|paths|] == paths;
    }

    method PurgeVanished(files: seq<(string, string)>) returns (delta: Delta)
      requires C.WellFormed(cache.Contents()) && Distinct(files)
      modifies cache
      ensures C.WellFormed(cache.Contents())
      ensures delta == DeltaOf(sha, Discovered(files), old(cache.files))
      ensures CachedRows(cache) == Start(DiskOf(files), false, old(CachedRows(cache))).cache
      ensures old(HoldsDetections()) ==> HoldsDetections()
      ensures NoForeignEntry(sha, files, old(C.Entries(cache.Contents()))) ==>
                OwnPaths(sha, files, |files|, C.Entries(cache.Contents())) && AllStored(sha, files, 0, C.Entries(cache.Contents()))
    {
      ghost var entries := C.Entries(cache.Contents());
      EntriesFollowFiles(cache.Contents());
      ghost var rows, cached := CachedRows(cache), cache.files;
      RowsFollowFiles(cache.Contents());
      var discovered := Discovered(files);
      delta := Diff(sha, cache, discovered);
      ghost var deleted := delta.deleted;
      assert forall p :: p in InBucket(delta, Deleted) <==> Belongs(sha, discovered, cached, p, Deleted);
      assert InBucket(delta, Deleted) == deleted;
      assert forall p :: p in deleted <==> C.HasPath(cached, p) && !Seen(discovered, p);
      DeletedAreVanished(files, discovered, cached, rows, deleted);
      SeenAreFiles(files);
      PurgePaths(delta.deleted);
      if NoForeignEntry(sha, files, entries) {
        DroppedAreOwn(sha, files, entries, C.Entries(cache.Contents()), deleted);
      }
    }

    method ProcessNext(files: seq<(string, string)>, i: nat, ghost rows: Rows, ghost state: State)
      returns (results: seq<Result>, ghost next: State)
      requires C.WellFormed(cache.Contents()) && i < |files|
      requires Progress(Cfg(), DiskOf(files), force, rows, files, i, state)
      requires CachedRows(cache) == state.cache && cacheHits == Hits(state)
      modifies cache, this`cacheHits
      ensures C.WellFormed(cache.Contents())
      ensures Progress(Cfg(), DiskOf(files), force, rows, files, i + 1, next)
      ensures CachedRows(cache) == next.cache && cacheHits == Hits(next)
      ensures OnlyMoved(files, i, results, state, next)
      ensures old(HoldsDetections()) ==> HoldsDetections()
      ensures old(Owning(files, i)) ==> Owning(files, i + 1) && HandsOver(detectors, files[i], results)
    {
      hide C.WellFormed, CachedRows, Progress, Hits, AfterFile, HoldsDetections, Replaced;
      ghost var before := C.Entries(cache.Contents());
      results := ProcessFile(files[i].0, files[i].1);
      if old(Owning(files, i)) {
        OneMoreOwn(files, i, before, C.Entries(cache.Contents()));
        if !force && sha(files[i].1) in before {
          HitHandsOver(before, files[i].0, files[i].1);
        }
      }
      next := NextFile(Cfg(), DiskOf(files), force, rows, files, i, state);
    }

    lemma OwnedAtEnd(files: seq<(string, string)>, added: seq<seq<Result>>)
      requires Owning(files, |files|) && |added| == |files|
      requires forall k :: 0 <= k < |files| ==> HandsOver(detectors, files[k], added[k])
      ensures OwnEntries(sha, detectors, files, C.Entries(cache.Contents()), added)
    {
      AllOwn(sha, detectors, files, C.Entries(cache.Contents()), added);
    }

    method ProcessAll(files: seq<(string, string)>, ghost rows: Rows) returns (added: seq<seq<Result>>)
      requires C.WellFormed(cache.Contents()) && Distinct(files) && cacheHits == 0
      requires CachedRows(cache) == Start(DiskOf(files), force, rows).cache
      modifies cache, this`cacheHits
      ensures C.WellFormed(cache.Contents()) && |added| == |files|
      ensures Steps(files, OneByOne(files))
      ensures var r := RunTo(Cfg(), DiskOf(files), force, rows, OneByOne(files));
              && AllDone(r) && CachedRows(cache) == r.cache && cacheHits == Hits(r)
              && EmittedBy(files, added, r)
      ensures old(HoldsDetections()) ==> HoldsDetections()
      ensures old(Owning(files, 0)) ==> OwnEntries(sha, detectors, files, C.Entries(cache.Contents()), added)
    {
      ghost var disk := DiskOf(files);
      ghost var state := Start(disk, force, rows);
      hide C.WellFormed, CachedRows, Progress, Hits, EmittedBy, Start, RunTo, Steps, AllDone, HoldsDetections, Owning, HandsOver, OwnEntries;
      StartProgress(Cfg(), disk, force, rows, files);
      NothingEmitted(state);
      added := [];
      assert files[..0] == [];
      for i := 0 to |files|
        invariant C.WellFormed(cache.Contents()) && |added| == i
        invariant Progress(Cfg(), disk, force, rows, files, i, state)
        invariant CachedRows(cache) == state.cache && cacheHits == Hits(state)
        invariant EmittedBy(files[..i], added, state)
        invariant old(HoldsDetections()) ==> HoldsDetections()
        invariant old(Owning(files, 0)) ==> Owning(files, i)
        invariant old(Owning(files, 0)) ==> forall k :: 0 <= k < i ==> HandsOver(detectors, files[k], added[k])
      {
        var results, next := ProcessNext(files, i, rows, state);
        OneMoreEmitted(files, i, added, results, state, next);
        added := added + [results];
        state := next;
      }
      assert files[..|files|] == files;
      ProgressEnds(Cfg(), disk, force, rows, files, state);
      if old(Owning(files, 0)) {
        OwnedAtEnd(files, added);
      }
    }

    /**
     `Run` with one worker: classify and purge unless forced, then process every file. The cache
     ends as the state machine ends under the one-by-one schedule, with as many hits.
     */
    method Run(files: seq<(string, string)>) returns (delta: Delta, added: seq<seq<Result>>)
      requires C.WellFormed(cache.Contents()) && Distinct(files)
      modifies cache, this`cacheHits
      ensures C.WellFormed(cache.Contents()) && |added| == |files|
      ensures delta == if force then Delta([], [], [], []) else DeltaOf(sha, Discovered(files), old(cache.files))
      ensures Steps(files, OneByOne(files))
      ensures var r := RunTo(Cfg(), DiskOf(files), force, old(CachedRows(cache)), OneByOne(files));
              && AllDone(r) && CachedRows(cache) == r.cache && cacheHits == Hits(r)
              && EmittedBy(files, added, r)
      ensures old(HoldsDetections()) ==> HoldsDetections()
      ensures Injective(sha) && ContentsDiffer(files) && old(HoldsDetections()) &&
              (force || NoForeignEntry(sha, files, old(C.Entries(cache.Contents())))) ==>
                OwnEntries(sha, detectors, files, C.Entries(cache.Contents()), added)
    {
      cacheHits := 0;
      delta := Delta([], [], [], []);
      ghost var rows := CachedRows(cache);
      if !force {
        delta := PurgeVanished(files);
      }
      added := ProcessAll(files, rows);
    }
  }

  // ---- what Diff says of a run ----

  lemma DiscoveredAsDisk(files: seq<(string, string)>, p: string)
    requires Distinct(files)
    ensures Seen(Discovered(files), p) <==> p in DiskOf(files)
    ensures forall content :: Readable(Discovered(files), p, content) <==> p in DiskOf(files) && DiskOf(files)[p] == content
  {
    DiskHoldsFiles(files);
    if p in DiskOf(files) {
      var k :| 0 <= k < |files| && files[k].0 == p;
      assert Discovered(files)[k] == DiscoveredFile(p, Some(DiskOf(files)[p]));
    }
  }

  lemma LiveBelongs(sha: string -> string, files: seq<(string, string)>, cached: map<string, C.FileRow>, p: string)
    requires Distinct(files) && p in DiskOf(files)
    ensures Belongs(sha, Discovered(files), cached, p, Added) <==> !C.HasPath(cached, p)
    ensures Belongs(sha, Discovered(files), cached, p, Unchanged) <==> CachedUnder(cached, p, sha(DiskOf(files)[p]))
    ensures Belongs(sha, Discovered(files), cached, p, Modified) <==>
            C.HasPath(cached, p) && !CachedUnder(cached, p, sha(DiskOf(files)[p]))
  {
    DiscoveredAsDisk(files, p);
    assert Readable(Discovered(files), p, DiskOf(files)[p]);
  }

  lemma ClassifyByTable(cfg: Config, disk: Disk, t: C.Tables, p: string)
    requires p in disk
    ensures E.Classify(cfg, disk, RowsOf(C.Entries(t)), p) ==
            if !C.HasPath(t.files, p) then E.Added
            else if CachedUnder(t.files, p, HashOf(cfg, disk, p)) then E.Unchanged
            else E.Modified
  {
    RowsFollowFiles(t);
    RowsOfTables(t);
  }

  lemma CachedHasPath(cached: map<string, C.FileRow>, p: string, hash: string)
    ensures CachedUnder(cached, p, hash) ==> C.HasPath(cached, p)
  {
  }

  /** The machine's classification of a live file is the bucket `Diff` puts it in. */
  lemma ClassificationsAgree(cfg: Config, files: seq<(string, string)>, t: C.Tables, p: string)
    requires Distinct(files) && p in DiskOf(files)
    ensures var d, c := DeltaOf(cfg.sha, Discovered(files), t.files), E.Classify(cfg, DiskOf(files), RowsOf(C.Entries(t)), p);
            (p in d.added <==> c == E.Added) && (p in d.modified <==> c == E.Modified) && (p in d.same <==> c == E.Unchanged)
  {
    hide RowsOf, C.Entries, E.Classify, Belongs, Listed, VanishedPaths, CachedUnder;
    var d := DeltaOf(cfg.sha, Discovered(files), t.files);
    LiveBelongs(cfg.sha, files, t.files, p);
    ClassifyByTable(cfg, DiskOf(files), t, p);
    CachedHasPath(t.files, p, HashOf(cfg, DiskOf(files), p));
    BucketsAreExact(cfg.sha, Discovered(files), t.files, Added, p);
    BucketsAreExact(cfg.sha, Discovered(files), t.files, Modified, p);
    BucketsAreExact(cfg.sha, Discovered(files), t.files, Unchanged, p);
    assert InBucket(d, Added) == d.added && InBucket(d, Modified) == d.modified && InBucket(d, Unchanged) == d.same;
  }

  lemma {:induction false} ListedAll(sha: string -> string, cached: map<string, C.FileRow>, files: seq<DiscoveredFile>, b: Bucket)
    requires forall i :: 0 <= i < |files| ==> Kind(sha, cached, files[i]) == Some(b)
    ensures var listed := Listed(sha, cached, files, b);
            |listed| == |files| && forall i :: 0 <= i < |files| ==> listed[i] == files[i].path
  {
    hide Kind;
    if files == [] {
    } else {
      ListedAll(sha, cached, files[..|files| - 1], b);
    }
  }

  lemma {:induction false} ListedNone(sha: string -> string, cached: map<string, C.FileRow>, files: seq<DiscoveredFile>, b: Bucket)
    requires forall i :: 0 <= i < |files| ==> Kind(sha, cached, files[i]) != Some(b)
    ensures Listed(sha, cached, files, b) == []
  {
    hide Kind;
    if files == [] {
    } else {
      ListedNone(sha, cached, files[..|files| - 1], b);
    }
  }

  /** On an unchanged disk `Diff` lists every file as unchanged and nothing else. */
  lemma RepeatDiffIsIdle(cfg: Config, files: seq<(string, string)>, t: C.Tables)
    requires Distinct(files) && E.HoldsExactly(cfg, DiskOf(files), RowsOf(C.Entries(t)))
    ensures var d := DeltaOf(cfg.sha, Discovered(files), t.files);
            && d.added == [] && d.modified == [] && d.deleted == []
            && |d.same| == |files| && forall i :: 0 <= i < |files| ==> d.same[i] == files[i].0
  {
    var discovered := Discovered(files);
    RowsFollowFiles(t);
    DiskHoldsFiles(files);
    forall i | 0 <= i < |files|
      ensures Kind(cfg.sha, t.files, discovered[i]) == Some(Unchanged)
    {
      var h := HashOf(cfg, DiskOf(files), files[i].0);
      assert h in t.files && t.files[h].path == files[i].0;
      assert CachedUnder(t.files, files[i].0, h);
    }
    ListedAll(cfg.sha, t.files, discovered, Unchanged);
    ListedNone(cfg.sha, t.files, discovered, Added);
    ListedNone(cfg.sha, t.files, discovered, Modified);
    forall h | h in t.files
      ensures Seen(discovered, t.files[h].path)
    {
      DiscoveredAsDisk(files, t.files[h].path);
    }
    assert VanishedPaths(discovered, t.files) == {};
    if SortedListing(VanishedPaths(discovered, t.files)) != [] {
      var p := SomeMember(SortedListing(VanishedPaths(discovered, t.files)));
    }
  }

  // ---- any number of workers, on the tables ----

  /** Well-formed tables that show the rows of a machine state. */
  ghost predicate Shows(t: C.Tables, s: State) {
    C.WellFormed(t) && RowsOf(C.Entries(t)) == s.cache
  }

  ghost function PurgedTables(t: C.Tables, p: string): C.Tables {
    if h :| h in t.files && t.files[h].path == p then C.DeleteHash(t, h) else t
  }

  /**
   The table operation behind a step: the purge deletes the path's row with all rows of its
   hash, the put replaces all rows of its hash, every other step only reads. `stored` gives
   the entry a worker puts, whose property values earlier merges may have filled.
   */
  ghost function TableStep(disk: Disk, s: State, t: C.Tables, p: string, stored: string -> C.Entry): C.Tables
    requires p in disk && s.tasks.Keys == disk.Keys
  {
    match s.tasks[p].phase
    case Detected => PurgedTables(t, p)
    case Purged => C.PutEntry(t, stored(p))
    case _ => t
  }

  ghost function TableExec(cfg: Config, disk: Disk, force: bool, s: State, t: C.Tables, steps: seq<string>, stored: string -> C.Entry): C.Tables
    requires s.tasks.Keys == disk.Keys && Schedule(disk, steps)
    decreases |steps|
  {
    if steps == [] then t
    else TableExec(cfg, disk, force, Step(cfg, disk, force, s, steps[0]), TableStep(disk, s, t, steps[0], stored), steps[1..], stored)
  }

  /** The entries put for the files hold their hash, path and identities. */
  ghost predicate StoresDetected(cfg: Config, disk: Disk, stored: string -> C.Entry) {
    forall p :: p in disk ==> stored(p).hash == HashOf(cfg, disk, p) && RowOf(stored(p)) == RowFor(cfg, disk, p)
  }

  lemma PurgeShows(t: C.Tables, p: string)
    requires C.WellFormed(t)
    ensures C.WellFormed(PurgedTables(t, p))
    ensures RowsOf(C.Entries(PurgedTables(t, p))) == WithoutPath(RowsOf(C.Entries(t)), p)
  {
    hide C.WellFormed, RowsOf, C.Entries;
    if C.HasPath(t.files, p) {
      var h :| h in t.files && t.files[h].path == p && PurgedTables(t, p) == C.DeleteHash(t, h);
      C.PurgedRow(t, p, h);
    } else {
      C.NothingToPurge(t, p);
    }
    RowsAfterPurge(C.Entries(t), p);
  }

  lemma PutShows(t: C.Tables, e: C.Entry)
    requires C.WellFormed(t) && !C.HasPath(t.files, e.path)
    ensures C.WellFormed(C.PutEntry(t, e))
    ensures RowsOf(C.Entries(C.PutEntry(t, e))) == RowsOf(C.Entries(t))[e.hash := RowOf(e)]
  {
    C.PurgeThenPutIsWellFormed(t, e);
    C.EntriesAfterPut(t, e);
    RowsAfterPut(C.Entries(t), e);
  }

  lemma TableStepShowsStep(cfg: Config, disk: Disk, force: bool, s: State, t: C.Tables, p: string, stored: string -> C.Entry)
    requires p in disk && s.tasks.Keys == disk.Keys && RowsInvariant(s)
    requires StoresDetected(cfg, disk, stored) && Shows(t, s)
    ensures Shows(TableStep(disk, s, t, p, stored), Step(cfg, disk, force, s, p))
  {
    hide Step, PurgedTables, C.PutEntry, C.WellFormed, RowsOf, C.Entries;
    StepEffect(cfg, disk, force, s, p);
    match s.tasks[p].phase
    case Detected => PurgeShows(t, p);
    case Purged =>
      RowsOfTables(t);
      PutShows(t, stored(p));
    case _ =>
  }

  /**
   For every interleaving, complete or broken off, the tables keep one row per path, one per
   hash and no node or edge row without its file row, and they show what the machine says.
   */
  lemma {:induction false} TablesFollowEveryRun(cfg: Config, disk: Disk, force: bool, s: State, t: C.Tables,
                                                steps: seq<string>, stored: string -> C.Entry)
    requires s.tasks.Keys == disk.Keys && Schedule(disk, steps) && RowsInvariant(s)
    requires StoresDetected(cfg, disk, stored) && Shows(t, s)
    ensures Shows(TableExec(cfg, disk, force, s, t, steps, stored), Exec(cfg, disk, force, s, steps))
    decreases |steps|
  {
    hide Step, TableStep, Shows, RowsInvariant, StoresDetected;
    if steps == [] {
    } else {
      TableStepShowsStep(cfg, disk, force, s, t, steps[0], stored);
      StepKeepsRows(cfg, disk, force, s, steps[0]);
      TablesFollowEveryRun(cfg, disk, force, Step(cfg, disk, force, s, steps[0]),
                           TableStep(disk, s, t, steps[0], stored), steps[1..], stored);
    }
  }

  // ---- every sequence of runs, on the tables ----

  /** The paths a run that is not forced purges first: those with a row but no file. */
  ghost function Vanished(disk: Disk, t: C.Tables): seq<string> {
    SortedListing(set h | h in t.files && t.files[h].path !in disk :: t.files[h].path)
  }

  ghost function PurgedAll(t: C.Tables, ps: seq<string>): C.Tables {
    if ps == [] then t else PurgedTables(PurgedAll(t, ps[..|ps| - 1]), ps[|ps| - 1])
  }

  /** One run on the tables: the opening purge, then the steps of its workers in the given order. */
  ghost function TablesAfterRun(cfg: Config, t: C.Tables, r: Run, stored: string -> C.Entry): C.Tables
    requires Runnable(r)
  {
    if r.BrokenOff? then PurgedAll(t, r.purged)
    else
      var begun := if r.force then t else PurgedAll(t, Vanished(r.disk, t));
      TableExec(cfg, r.disk, r.force, Start(r.disk, r.force, RowsOf(C.Entries(t))), begun, r.steps, stored)
  }

  /** The tables after a sequence of runs on a new cache; `stored[k]` gives the entries the k-th run puts. */
  ghost function TablesAfterRuns(cfg: Config, runs: seq<Run>, stored: seq<string -> C.Entry>): C.Tables
    requires |stored| == |runs| && forall k :: 0 <= k < |runs| ==> Runnable(runs[k])
  {
    if runs == [] then C.Tables(map[], [], [])
    else
      var n := |runs| - 1;
      TablesAfterRun(cfg, TablesAfterRuns(cfg, runs[..n], stored[..n]), runs[n], stored[n])
  }

  lemma WithoutNone(rows: Rows)
    ensures WithoutPaths(rows, []) == rows
  {
  }

  lemma {:induction false} PurgedAllShows(t: C.Tables, ps: seq<string>)
    requires C.WellFormed(t)
    ensures C.WellFormed(PurgedAll(t, ps))
    ensures RowsOf(C.Entries(PurgedAll(t, ps))) == WithoutPaths(RowsOf(C.Entries(t)), ps)
  {
    hide C.WellFormed, RowsOf, C.Entries, PurgedTables, WithoutPath;
    var n := |ps| - 1;
    if ps == [] {
      WithoutNone(RowsOf(C.Entries(t)));
    } else {
      hide WithoutPaths;
      PurgedAllShows(t, ps[..n]);
      PurgeShows(PurgedAll(t, ps[..n]), ps[n]);
      assert ps[..n + 1] == ps;
      WithoutOneMore(RowsOf(C.Entries(t)), ps, n);
    }
  }

  lemma OpeningPurge(disk: Disk, t: C.Tables)
    ensures WithoutPaths(RowsOf(C.Entries(t)), Vanished(disk, t)) == Start(disk, false, RowsOf(C.Entries(t))).cache
  {
    RowsFollowFiles(t);
    var rows := RowsOf(C.Entries(t));
    forall h | h in rows
      ensures rows[h].path in Vanished(disk, t) <==> rows[h].path !in disk
    {
    }
  }

  lemma StartKeepsRows(disk: Disk, force: bool, t: C.Tables)
    requires C.WellFormed(t)
    ensures RowsInvariant(Start(disk, force, RowsOf(C.Entries(t))))
  {
    RowsOfTables(t);
  }

  lemma RunKeepsTablesSound(cfg: Config, t: C.Tables, r: Run, stored: string -> C.Entry)
    requires C.WellFormed(t) && Runnable(r) && StoresDetected(cfg, r.disk, stored)
    ensures C.WellFormed(TablesAfterRun(cfg, t, r, stored))
    ensures RowsOf(C.Entries(TablesAfterRun(cfg, t, r, stored))) == AfterRun(cfg, RowsOf(C.Entries(t)), r)
  {
    hide C.WellFormed, RowsOf, C.Entries, PurgedAll, Vanished, StoresDetected, TableExec, Exec, WithoutPaths;
    if r.BrokenOff? {
      PurgedAllShows(t, r.purged);
    } else {
      var rows := RowsOf(C.Entries(t));
      var start := Start(r.disk, r.force, rows);
      var begun := if r.force then t else PurgedAll(t, Vanished(r.disk, t));
      if !r.force {
        PurgedAllShows(t, Vanished(r.disk, t));
        OpeningPurge(r.disk, t);
      }
      assert Shows(begun, start);
      StartKeepsRows(r.disk, r.force, t);
      TablesFollowEveryRun(cfg, r.disk, r.force, start, begun, r.steps, stored);
    }
  }

  /**
   Over every sequence of runs, forced or not, each in any interleaving, complete or broken off
   anywhere:
   the tables have one row per path, one per hash and no node or edge row without its file row,
   and they show the rows of the machine.
   */
  lemma {:induction false} EveryHistoryOfTablesIsSound(cfg: Config, runs: seq<Run>, stored: seq<string -> C.Entry>)
    requires |stored| == |runs| && forall k :: 0 <= k < |runs| ==> Runnable(runs[k]) && StoresDetected(cfg, runs[k].disk, stored[k])
    ensures C.WellFormed(TablesAfterRuns(cfg, runs, stored))
    ensures RowsOf(C.Entries(TablesAfterRuns(cfg, runs, stored))) == AfterRuns(cfg, runs)
  {
    hide StoresDetected, TablesAfterRun;
    if runs == [] {
      assert RowsOf(C.Entries(C.Tables(map[], [], []))) == map[];
    } else {
      hide C.WellFormed, RowsOf, C.Entries;
      var n := |runs| - 1;
      EveryHistoryOfTablesIsSound(cfg, runs[..n], stored[..n]);
      RunKeepsTablesSound(cfg, TablesAfterRuns(cfg, runs[..n], stored[..n]), runs[n], stored[n]);
    }
  }

  // ---- what the stored values keep ----

  ghost predicate AllKept(t: C.Tables, keep: C.Entry -> bool) {
    forall h :: h in C.Entries(t) ==> keep(C.Entries(t)[h])
  }

  lemma DeleteKeeps(t: C.Tables, h: string, keep: C.Entry -> bool)
    requires AllKept(t, keep)
    ensures AllKept(C.DeleteHash(t, h), keep)
  {
    C.EntriesAfterDelete(t, h);
  }

  lemma PurgeKeeps(t: C.Tables, p: string, keep: C.Entry -> bool)
    requires AllKept(t, keep)
    ensures AllKept(PurgedTables(t, p), keep)
  {
    hide AllKept;
    if h :| h in t.files && t.files[h].path == p && PurgedTables(t, p) == C.DeleteHash(t, h) {
      DeleteKeeps(t, h, keep);
    }
  }

  lemma PutKeeps(t: C.Tables, e: C.Entry, keep: C.Entry -> bool)
    requires AllKept(t, keep) && keep(e)
    ensures AllKept(C.PutEntry(t, e), keep)
  {
    C.EntriesAfterPut(t, e);
  }

  lemma {:induction false} PurgedAllKeeps(t: C.Tables, ps: seq<string>, keep: C.Entry -> bool)
    requires AllKept(t, keep)
    ensures AllKept(PurgedAll(t, ps), keep)
  {
    hide AllKept, PurgedTables;
    if ps == [] {
    } else {
      PurgedAllKeeps(t, ps[..|ps| - 1], keep);
      PurgeKeeps(PurgedAll(t, ps[..|ps| - 1]), ps[|ps| - 1], keep);
    }
  }

  lemma {:induction false} ExecKeeps(cfg: Config, disk: Disk, force: bool, s: State, t: C.Tables, steps: seq<string>,
                                     stored: string -> C.Entry, keep: C.Entry -> bool)
    requires s.tasks.Keys == disk.Keys && Schedule(disk, steps)
    requires AllKept(t, keep) && forall p :: p in disk ==> keep(stored(p))
    ensures AllKept(TableExec(cfg, disk, force, s, t, steps, stored), keep)
    decreases |steps|
  {
    hide AllKept, Step, PurgedTables, C.PutEntry;
    if steps == [] {
    } else {
      var p := steps[0];
      match s.tasks[p].phase {
        case Detected => PurgeKeeps(t, p, keep);
        case Purged => PutKeeps(t, stored(p), keep);
        case _ =>
      }
      ExecKeeps(cfg, disk, force, Step(cfg, disk, force, s, p), TableStep(disk, s, t, p, stored), steps[1..], stored, keep);
    }
  }

  /** Over every history, what holds of all stored entries holds of all cached ones. */
  lemma {:induction false} EveryEntryWasStored(cfg: Config, runs: seq<Run>, stored: seq<string -> C.Entry>, keep: C.Entry -> bool)
    requires |stored| == |runs| && forall k :: 0 <= k < |runs| ==> Runnable(runs[k])
    requires forall k, p :: 0 <= k < |runs| && p in runs[k].disk ==> keep(stored[k](p))
    ensures AllKept(TablesAfterRuns(cfg, runs, stored), keep)
  {
    hide TableExec, PurgedAll;
    if runs == [] {
      assert C.Entries(C.Tables(map[], [], [])) == map[];
    } else {
      hide AllKept;
      var n := |runs| - 1;
      EveryEntryWasStored(cfg, runs[..n], stored[..n], keep);
      var t, r := TablesAfterRuns(cfg, runs[..n], stored[..n]), runs[n];
      if r.BrokenOff? {
        PurgedAllKeeps(t, r.purged, keep);
      } else {
        var begun := if r.force then t else PurgedAll(t, Vanished(r.disk, t));
        PurgedAllKeeps(t, Vanished(r.disk, t), keep);
        ExecKeeps(cfg, r.disk, r.force, Start(r.disk, r.force, RowsOf(C.Entries(t))), begun, r.steps, stored[n], keep);
      }
    }
  }

  /** An entry with the detected nodes and edges, in order, each with its filled slots kept. */
  ghost predicate Filled(sha: string -> string, detectors: Detectors, content: string, e: C.Entry) {
    var nodes, edges := AllNodes(detectors(e.path, content)), AllEdges(detectors(e.path, content));
    && e.hash == sha(content) && |e.nodes| == |nodes| && |e.edges| == |edges|
    && (forall i :: 0 <= i < |nodes| ==> KeepsNode(nodes[i], e.nodes[i]))
    && (forall i :: 0 <= i < |edges| ==> KeepsEdge(edges[i], e.edges[i]))
  }

  /**
   Merging in place may fill the empty slots of a node between its detection and its storing. If
   each stored entry kept what its file's detection filled, so does each cached entry of every history.
   */
  lemma CachedEntriesKeepDetections(cfg: Config, sha: string -> string, detectors: Detectors, runs: seq<Run>, stored: seq<string -> C.Entry>)
    requires |stored| == |runs| && forall k :: 0 <= k < |runs| ==> Runnable(runs[k])
    requires forall k, p :: 0 <= k < |runs| && p in runs[k].disk ==>
               stored[k](p).path == p && Filled(sha, detectors, runs[k].disk[p], stored[k](p))
    ensures var entries := C.Entries(TablesAfterRuns(cfg, runs, stored));
            forall h :: h in entries ==> exists content :: Filled(sha, detectors, content, entries[h])
  {
    hide Filled;
    EveryEntryWasStored(cfg, runs, stored, (e: C.Entry) => exists content :: Filled(sha, detectors, content, e));
  }
}
