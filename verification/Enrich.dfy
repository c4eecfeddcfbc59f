/**
 The enrich short-circuit (internal/analyzer/enrich.go, internal/graph/manifest.go, refresh.go):
 a graph store that remembers the manifest of the cache it was built from, and when that
 memory can be trusted.
 */
module Enrich {
  import opened Strings
  import opened CodeModel
  import C = CacheStore
  import M = Manifest
  import R = IndexRuns
  import A = Analyzer

  type Rows = R.Rows

  /** What the graph database holds; `Full(rows)` is the complete build of these cache rows over the source tree. */
  datatype Graph = Nothing | Torn | NodesOnly(rows: Rows) | Full(rows: Rows)

  // ---- manifests ----

  ghost function FilesOf(rows: Rows): map<string, C.FileRow> {
    map h | h in rows :: C.FileRow(rows[h].path)
  }

  /** A hex digest: never empty and free of NUL. */
  ghost predicate HexDigest(sha: string -> string) {
    forall x :: sha(x) != "" && M.NUL !in sha(x)
  }

  /** A cache as runs leave it, with paths a file system can have. */
  ghost predicate SoundCache(cfg: R.Config, rows: Rows) {
    && R.OneRowPerPath(rows) && R.Faithful(cfg, rows)
    && forall h :: h in rows ==> M.NUL !in rows[h].path
  }

  ghost predicate GoodDigest(cfg: R.Config) {
    R.Injective(cfg.sha) && HexDigest(cfg.sha)
  }

  lemma FilesKeepPaths(rows: Rows)
    requires R.OneRowPerPath(rows)
    ensures C.OneRowPerPath(FilesOf(rows))
  {
  }

  /** `ManifestHash`: the digest over the cache's rows in path order. */
  ghost function ManifestHash(cfg: R.Config, rows: Rows): string
    requires R.OneRowPerPath(rows)
  {
    FilesKeepPaths(rows);
    cfg.sha(M.Encode(M.Listing(FilesOf(rows))))
  }

  lemma SoundCacheIsNulFree(cfg: R.Config, rows: Rows)
    requires HexDigest(cfg.sha) && SoundCache(cfg, rows)
    ensures M.NulFreeFiles(FilesOf(rows))
  {
    forall h | h in rows
      ensures M.NUL !in h
    {
      assert R.FaithfulRow(cfg, h, rows[h]);
      var content :| cfg.sha(content) == h && rows[h].ids == cfg.detect(rows[h].path, content);
    }
  }

  lemma SameBindingsSameRows(cfg: R.Config, c: Rows, d: Rows)
    requires R.Injective(cfg.sha) && R.Faithful(cfg, c) && R.Faithful(cfg, d)
    requires M.SameBindings(FilesOf(c), FilesOf(d))
    ensures c == d
  {
    assert c.Keys == FilesOf(c).Keys && d.Keys == FilesOf(d).Keys;
    forall h | h in c
      ensures h in d && c[h] == d[h]
    {
      assert h in FilesOf(c).Keys;
      assert FilesOf(c)[h].path == FilesOf(d)[h].path;
      assert R.FaithfulRow(cfg, h, c[h]) && R.FaithfulRow(cfg, h, d[h]);
      var x :| cfg.sha(x) == h && c[h].ids == cfg.detect(c[h].path, x);
      var y :| cfg.sha(y) == h && d[h].ids == cfg.detect(d[h].path, y);
      assert x == y;
    }
  }

  /** Equal manifests mean the same rows, identities included. */
  lemma ManifestDeterminesCache(cfg: R.Config, c: Rows, d: Rows)
    requires GoodDigest(cfg) && SoundCache(cfg, c) && SoundCache(cfg, d)
    ensures ManifestHash(cfg, c) == ManifestHash(cfg, d) <==> c == d
    ensures ManifestHash(cfg, c) != ""
  {
    if ManifestHash(cfg, c) == ManifestHash(cfg, d) {
      FilesKeepPaths(c);
      FilesKeepPaths(d);
      SoundCacheIsNulFree(cfg, c);
      SoundCacheIsNulFree(cfg, d);
      M.SameInputIffSameBindings(FilesOf(c), FilesOf(d), M.Listing(FilesOf(c)), M.Listing(FilesOf(d)));
      SameBindingsSameRows(cfg, c, d);
    }
  }

  // ---- the store ----

  /** A stored manifest names exactly the rows the graph was built from. */
  ghost predicate Trustworthy(cfg: R.Config, graph: Graph, manifest: string) {
    manifest != "" ==> graph.Full? && SoundCache(cfg, graph.rows) && manifest == ManifestHash(cfg, graph.rows)
  }

  datatype Summary = ShortCircuited | Rebuilt | Failed

  class Store {
    ghost var graph: Graph
    var meta: seq<string>  // the GraphMeta rows under the manifest key

    constructor ()
      ensures graph == Nothing && meta == []
    {
      graph, meta := Nothing, [];
    }

    function Manifest(): string
      reads this
    {
      if meta == [] then "" else meta[0]
    }

    method ReadManifest() returns (hash: string)
      ensures hash == Manifest()
    {
      if |meta| == 0 {
        return "";
      }
      hash := meta[0];
    }

    method WriteManifest(hash: string)
      modifies this`meta
      ensures meta == [hash]
    {
      meta := [];
      meta := meta + [hash];
    }

    /** `Reset`: one statement deletes the nodes, a second one the manifest; `fails` says that the second one fails. */
    method Reset(fails: bool) returns (ok: bool)
      modifies this
      ensures ok <==> !fails
      ensures graph == Nothing && meta == if fails then old(meta) else []
    {
      graph := Nothing;
      if fails {
        return false;
      }
      meta := [];
      ok := true;
    }

    method CacheManifest(cache: C.Cache, sha: string -> string, ghost cfg: R.Config) returns (hash: string)
      requires sha == cfg.sha && C.WellFormed(cache.Contents()) && R.OneRowPerPath(A.CachedRows(cache))
      ensures hash == ManifestHash(cfg, A.CachedRows(cache))
    {
      var input := M.ManifestInput(cache);
      hash := sha(input);
      assert FilesOf(A.CachedRows(cache)) == cache.files;
    }

    /** The bulk loads and the index statement; a failing load can leave part of its rows behind. */
    method LoadGraph(ghost rows: Rows, failAt: nat) returns (ok: bool)
      requires failAt !in {1, 2, 7}
      modifies this`graph
      ensures ok <==> failAt !in {3, 4, 5}
      ensures graph == if failAt == 3 || failAt == 4 then Torn else Full(rows)
    {
      if failAt == 3 {
        graph := Torn;
        return false;
      }
      graph := NodesOnly(rows);
      if failAt == 4 {
        graph := Torn;
        return false;
      }
      graph := Full(rows);
      ok := failAt != 5;
    }

    /**
     `Enrich` against a cache nobody else writes. `failAt` is the statement that fails, if any:
     1 deleting the nodes, 2 reading the cache, 3 and 4 the bulk loads, 5 the indexes, 6 the final
     manifest, 7 deleting the manifest. A short-circuit happens only on a graph that is the build
     of the current cache, and the stored manifest stays trustworthy unless the reset fails midway.
     */
    method Enrich(cache: C.Cache, force: bool, sha: string -> string, ghost cfg: R.Config, failAt: nat) returns (s: Summary)
      requires sha == cfg.sha && GoodDigest(cfg)
      requires C.WellFormed(cache.Contents()) && SoundCache(cfg, A.CachedRows(cache))
      requires Trustworthy(cfg, graph, Manifest())
      modifies this
      ensures Trustworthy(cfg, graph, Manifest()) <==> !(s == Failed && failAt == 7 && old(Manifest()) != "")
      ensures s == ShortCircuited <==>
                !force && old(Manifest()) != "" && old(Manifest()) == ManifestHash(cfg, A.CachedRows(cache))
      ensures s == Failed <==> s != ShortCircuited && failAt in {1, 2, 3, 4, 5, 7}
      ensures s != Failed ==> graph == Full(A.CachedRows(cache))
      ensures s == ShortCircuited ==> graph == old(graph) && meta == old(meta)
      ensures s == Rebuilt ==> meta == if failAt == 6 then [] else [ManifestHash(cfg, A.CachedRows(cache))]
      ensures s == Failed && failAt == 1 ==> graph == old(graph) && meta == old(meta)
      ensures s == Failed && failAt == 7 ==> graph == Nothing && meta == old(meta)
      ensures s == Failed && failAt in {2, 3, 4, 5} ==>
                meta == [] && graph == if failAt == 2 then Nothing else if failAt == 5 then Full(A.CachedRows(cache)) else Torn
    {
      ghost var rows := A.CachedRows(cache);
      A.RowsOfTables(cache.Contents());
      if !force {
        var cacheManifest := CacheManifest(cache, sha, cfg);
        var graphManifest := ReadManifest();
        if graphManifest != "" && cacheManifest == graphManifest {
          ManifestDeterminesCache(cfg, rows, graph.rows);
          return ShortCircuited;
        }
      }
      if failAt == 1 {
        return Failed;
      }
      var cleared := Reset(failAt == 7);
      if !cleared {
        return Failed;
      }
      if failAt == 2 {
        return Failed;
      }
      var loaded := LoadGraph(rows, failAt);
      if !loaded {
        return Failed;
      }
      if failAt != 6 {
        var mh := CacheManifest(cache, sha, cfg);
        WriteManifest(mh);
      }
      return Rebuilt;
    }
  }

  // ---- index runs beside a running enrich ----

  /** Where an enrich stands; `mem` are the rows it read, `hash` the manifest it is about to store. */
  datatype Phase =
    | Idle
    | Clearing  // the nodes are gone, the manifest is not
    | Cleared
    | Collected(mem: Rows)
    | NodesLoaded(mem: Rows)
    | EdgesLoaded(mem: Rows)
    | Hashed(mem: Rows, hash: string)

  datatype State = State(cache: Rows, graph: Graph, manifest: string, phase: Phase)

  /** One thing that can happen: an index run commits a new cache, an enrich starts, moves on or dies. */
  datatype Action =
    | Index(cache: Rows)
    | Begin(force: bool)
    | Advance
    | Crash(torn: bool)

  ghost predicate ShortCircuits(cfg: R.Config, s: State, a: Action)
    requires R.OneRowPerPath(s.cache)
  {
    a == Begin(false) && s.phase.Idle? && s.manifest != "" && ManifestHash(cfg, s.cache) == s.manifest
  }

  ghost function Act(cfg: R.Config, s: State, a: Action): State
    requires R.OneRowPerPath(s.cache)
  {
    match a
    case Index(c) => s.(cache := c)
    case Begin(force) =>
      if !s.phase.Idle? || ShortCircuits(cfg, s, a) then s else s.(graph := Nothing, phase := Clearing)
    case Advance =>
      (match s.phase
       case Idle => s
       case Clearing => s.(manifest := "", phase := Cleared)
       case Cleared => s.(phase := Collected(s.cache))
       case Collected(m) => s.(graph := NodesOnly(m), phase := NodesLoaded(m))
       case NodesLoaded(m) => s.(graph := Full(m), phase := EdgesLoaded(m))
       case EdgesLoaded(m) => s.(phase := Hashed(m, ManifestHash(cfg, s.cache)))
       case Hashed(m, h) => s.(manifest := h, phase := Idle))
    case Crash(torn) =>
      s.(phase := Idle, graph := if torn && (s.phase.Collected? || s.phase.NodesLoaded?) then Torn else s.graph)
  }

  /** The enrich has read its rows and not yet hashed the cache. */
  ghost predicate Reading(ph: Phase) {
    ph.Collected? || ph.NodesLoaded? || ph.EdgesLoaded?
  }

  /** Every committed cache is sound; `alone` also keeps index runs out of a loading enrich and failures out of a reset. */
  ghost predicate Allowed(cfg: R.Config, s: State, a: Action, alone: bool) {
    && (a.Index? ==> SoundCache(cfg, a.cache) && (alone ==> !Reading(s.phase)))
    && (a.Crash? && alone ==> !s.phase.Clearing?)
  }

  ghost predicate Trace(cfg: R.Config, s: State, actions: seq<Action>, alone: bool)
    requires SoundCache(cfg, s.cache)
    decreases |actions|
  {
    actions == [] || (Allowed(cfg, s, actions[0], alone) && Trace(cfg, Act(cfg, s, actions[0]), actions[1..], alone))
  }

  ghost function Play(cfg: R.Config, s: State, actions: seq<Action>, alone: bool): (r: State)
    requires SoundCache(cfg, s.cache) && Trace(cfg, s, actions, alone)
    ensures SoundCache(cfg, r.cache)
    decreases |actions|
  {
    if actions == [] then s else Play(cfg, Act(cfg, s, actions[0]), actions[1..], alone)
  }

  /**
   Between enriches the manifest is trustworthy; a running enrich has erased it once its reset is
   over, has read the current cache, and stores a hash that belongs to the graph it loaded.
   */
  ghost predicate InSync(cfg: R.Config, s: State) {
    && SoundCache(cfg, s.cache)
    && (s.phase.Idle? ==> Trustworthy(cfg, s.graph, s.manifest))
    && (!s.phase.Idle? && !s.phase.Clearing? ==> s.manifest == "")
    && (Reading(s.phase) ==> s.phase.mem == s.cache)
    && (s.phase.EdgesLoaded? || s.phase.Hashed? ==> s.graph == Full(s.phase.mem))
    && (s.phase.Hashed? ==> SoundCache(cfg, s.phase.mem) && s.phase.hash == ManifestHash(cfg, s.phase.mem))
  }

  lemma {:induction false} AloneStaysInSync(cfg: R.Config, s: State, actions: seq<Action>)
    requires InSync(cfg, s) && Trace(cfg, s, actions, true)
    ensures InSync(cfg, Play(cfg, s, actions, true))
    decreases |actions|
  {
    if actions == [] {
    } else {
      AloneStaysInSync(cfg, Act(cfg, s, actions[0]), actions[1..]);
    }
  }

  /**
   As long as no index run commits while an enrich is loading what it read, and no reset fails
   midway, an enrich short-circuits in any reachable state only on a graph that is the complete
   build of the current cache.
   */
  lemma ShortCircuitIsFresh(cfg: R.Config, s: State, actions: seq<Action>)
    requires GoodDigest(cfg) && InSync(cfg, s) && Trace(cfg, s, actions, true)
    requires ShortCircuits(cfg, Play(cfg, s, actions, true), Begin(false))
    ensures Play(cfg, s, actions, true).graph == Full(Play(cfg, s, actions, true).cache)
  {
    AloneStaysInSync(cfg, s, actions);
    var r := Play(cfg, s, actions, true);
    ManifestDeterminesCache(cfg, r.graph.rows, r.cache);
  }

  ghost function StepsToEnd(ph: Phase): nat {
    match ph
    case Idle => 0
    case Hashed(_, _) => 1
    case EdgesLoaded(_) => 2
    case NodesLoaded(_) => 3
    case Collected(_) => 4
    case Cleared => 5
    case Clearing => 6
  }

  /** A reading enrich whose loads have gone as they should. */
  ghost predicate Loading(s: State) {
    Reading(s.phase) && (s.phase.EdgesLoaded? ==> s.graph == Full(s.phase.mem))
  }

  /** Left alone, a loading enrich ends with the graph of the rows it read and the manifest of the cache as it is now. */
  lemma {:induction false} FinishLoading(cfg: R.Config, s: State) returns (actions: seq<Action>)
    requires SoundCache(cfg, s.cache) && Loading(s)
    ensures Trace(cfg, s, actions, false)
    ensures Play(cfg, s, actions, false) == State(s.cache, Full(s.phase.mem), ManifestHash(cfg, s.cache), Idle)
    decreases StepsToEnd(s.phase)
  {
    var next := Act(cfg, s, Advance);
    if s.phase.EdgesLoaded? {
      actions := [Advance, Advance];
      var last := Act(cfg, next, Advance);
      assert actions[1..] == [Advance] && [Advance][1..] == [];
      assert Trace(cfg, next, [Advance], false) && Play(cfg, next, [Advance], false) == last;
    } else {
      var rest := FinishLoading(cfg, next);
      actions := [Advance] + rest;
      assert actions[1..] == rest;
    }
  }

  /**
   When an index run commits the cache `d` while an enrich is loading the rows it read, the
   next enrich short-circuits, and the graph it keeps is the build of the current cache
   exactly when `d` is what the running enrich had read.
   */
  lemma CommitDuringEnrichIsKept(cfg: R.Config, s: State, d: Rows) returns (actions: seq<Action>)
    requires GoodDigest(cfg) && SoundCache(cfg, s.cache) && SoundCache(cfg, d) && Loading(s)
    ensures Trace(cfg, s, actions, false) && actions != [] && actions[0] == Index(d)
    ensures var r := Play(cfg, s, actions, false);
            && r.cache == d && ShortCircuits(cfg, r, Begin(false))
            && (r.graph == Full(r.cache) <==> d == s.phase.mem)
  {
    var committed := Act(cfg, s, Index(d));
    var rest := FinishLoading(cfg, committed);
    actions := [Index(d)] + rest;
    assert actions[1..] == rest;
    ManifestDeterminesCache(cfg, d, d);
  }

  /** A reset that fails between its two statements leaves a manifest that makes the next enrich keep an empty graph. */
  lemma BrokenResetIsKept(cfg: R.Config, s: State) returns (actions: seq<Action>)
    requires GoodDigest(cfg) && InSync(cfg, s) && s.phase.Idle? && s.manifest == ManifestHash(cfg, s.cache)
    ensures Trace(cfg, s, actions, false) && actions == [Begin(true), Crash(false)]
    ensures var r := Play(cfg, s, actions, false);
            r.cache == s.cache && ShortCircuits(cfg, r, Begin(false)) && r.graph == Nothing
  {
    actions := [Begin(true), Crash(false)];
    var begun := Act(cfg, s, Begin(true));
    var broken := Act(cfg, begun, Crash(false));
    assert actions[1..] == [Crash(false)] && [Crash(false)][1..] == [];
    assert Play(cfg, begun, [Crash(false)], false) == broken;
    ManifestDeterminesCache(cfg, s.cache, s.cache);
  }
}
