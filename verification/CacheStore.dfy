/**
 The analysis cache (internal/cache/cache.go, lookup.go): three tables keyed by content hash.
 A file row names the path a content was last analysed under; node and edge rows hold what
 the detectors emitted for it.
 */
module CacheStore {
  import opened Options
  import opened Strings
  import opened Sequences
  import opened CodeModel

  datatype FileRow = FileRow(path: string)
  datatype NodeRow = NodeRow(id: string, hash: string, data: NodeView)
  datatype EdgeRow = EdgeRow(source: string, target: string, hash: string, kind: string, data: EdgeView)

  /** One file's detector results, as `Put` takes and `Get` returns them. */
  datatype Entry = Entry(hash: string, path: string, nodes: seq<NodeView>, edges: seq<EdgeView>)

  datatype Tables = Tables(files: map<string, FileRow>, nodes: seq<NodeRow>, edges: seq<EdgeRow>)

  // ---- what the tables mean ----

  function NodesOf(rows: seq<NodeRow>, hash: string): seq<NodeView> {
    if rows == [] then []
    else
      var last := rows[|rows| - 1];
      NodesOf(rows[..|rows| - 1], hash) + (if last.hash == hash then [last.data] else [])
  }

  function EdgesOf(rows: seq<EdgeRow>, hash: string): seq<EdgeView> {
    if rows == [] then []
    else
      var last := rows[|rows| - 1];
      EdgesOf(rows[..|rows| - 1], hash) + (if last.hash == hash then [last.data] else [])
  }

  function EntryAt(t: Tables, hash: string): Entry
    requires hash in t.files
  {
    Entry(hash, t.files[hash].path, NodesOf(t.nodes, hash), EdgesOf(t.edges, hash))
  }

  /** Hash -> entry: all a reader of the cache can see. */
  ghost function Entries(t: Tables): map<string, Entry> {
    map h | h in t.files :: EntryAt(t, h)
  }

  ghost predicate OneRowPerPath(files: map<string, FileRow>) {
    forall h, k :: h in files && k in files && files[h].path == files[k].path ==> h == k
  }

  ghost predicate NoOrphans(t: Tables) {
    && (forall r :: r in t.nodes ==> r.hash in t.files)
    && (forall r :: r in t.edges ==> r.hash in t.files)
  }

  /** One row per hash holds by the primary key; these are the parts the code itself must keep. */
  ghost predicate WellFormed(t: Tables) {
    OneRowPerPath(t.files) && NoOrphans(t)
  }

  // ---- the statements ----

  function DeleteHash(t: Tables, hash: string): Tables {
    Tables(t.files - {hash},
           Filter((r: NodeRow) => r.hash != hash, t.nodes),
           Filter((r: EdgeRow) => r.hash != hash, t.edges))
  }

  function NodeRowsOf(e: Entry): seq<NodeRow> {
    Map((n: NodeView) => NodeRow(n.id, e.hash, n), e.nodes)
  }

  function EdgeRowsOf(e: Entry): seq<EdgeRow> {
    Map((d: EdgeView) => EdgeRow(d.sourceId, d.targetId, e.hash, d.kind, d), e.edges)
  }

  function PutEntry(t: Tables, e: Entry): Tables {
    var cleared := DeleteHash(t, e.hash);
    Tables(cleared.files[e.hash := FileRow(e.path)], cleared.nodes + NodeRowsOf(e), cleared.edges + EdgeRowsOf(e))
  }

  // ---- reading back ----

  lemma {:induction false} NodesOfConcat(r: seq<NodeRow>, s: seq<NodeRow>, hash: string)
    ensures NodesOf(r + s, hash) == NodesOf(r, hash) + NodesOf(s, hash)
  {
    if s == [] {
      assert r + s == r;
    } else {
      var u := r + s;
      assert u[..|u| - 1] == r + s[..|s| - 1];
      NodesOfConcat(r, s[..|s| - 1], hash);
    }
  }

  lemma {:induction false} EdgesOfConcat(r: seq<EdgeRow>, s: seq<EdgeRow>, hash: string)
    ensures EdgesOf(r + s, hash) == EdgesOf(r, hash) + EdgesOf(s, hash)
  {
    if s == [] {
      assert r + s == r;
    } else {
      var u := r + s;
      assert u[..|u| - 1] == r + s[..|s| - 1];
      EdgesOfConcat(r, s[..|s| - 1], hash);
    }
  }

  lemma {:induction false} DeletedNodes(rows: seq<NodeRow>, gone: string, hash: string)
    ensures NodesOf(Filter((r: NodeRow) => r.hash != gone, rows), hash) == if hash == gone then [] else NodesOf(rows, hash)
  {
    if rows == [] {
    } else {
      var front, last := rows[..|rows| - 1], rows[|rows| - 1];
      DeletedNodes(front, gone, hash);
      var kept := Filter((r: NodeRow) => r.hash != gone, front);
      if last.hash != gone {
        assert (kept + [last])[..|kept|] == kept;
      } else {
        assert kept + [] == kept;
      }
    }
  }

  lemma {:induction false} DeletedEdges(rows: seq<EdgeRow>, gone: string, hash: string)
    ensures EdgesOf(Filter((r: EdgeRow) => r.hash != gone, rows), hash) == if hash == gone then [] else EdgesOf(rows, hash)
  {
    if rows == [] {
    } else {
      var front, last := rows[..|rows| - 1], rows[|rows| - 1];
      DeletedEdges(front, gone, hash);
      var kept := Filter((r: EdgeRow) => r.hash != gone, front);
      if last.hash != gone {
        assert (kept + [last])[..|kept|] == kept;
      } else {
        assert kept + [] == kept;
      }
    }
  }

  lemma {:induction false} RowsOfNodes(nodes: seq<NodeView>, e: Entry, hash: string)
    requires e.nodes == nodes
    ensures NodesOf(NodeRowsOf(e), hash) == if hash == e.hash then nodes else []
  {
    if nodes == [] {
    } else {
      var front := e.(nodes := nodes[..|nodes| - 1]);
      RowsOfNodes(front.nodes, front, hash);
      assert NodeRowsOf(e)[..|nodes| - 1] == NodeRowsOf(front);
    }
  }

  lemma {:induction false} RowsOfEdges(edges: seq<EdgeView>, e: Entry, hash: string)
    requires e.edges == edges
    ensures EdgesOf(EdgeRowsOf(e), hash) == if hash == e.hash then edges else []
  {
    if edges == [] {
    } else {
      var front := e.(edges := edges[..|edges| - 1]);
      RowsOfEdges(front.edges, front, hash);
      assert EdgeRowsOf(e)[..|edges| - 1] == EdgeRowsOf(front);
    }
  }

  lemma EntriesAfterDelete(t: Tables, hash: string)
    ensures Entries(DeleteHash(t, hash)) == Entries(t) - {hash}
  {
    forall h | h in t.files && h != hash
      ensures EntryAt(DeleteHash(t, hash), h) == EntryAt(t, h)
    {
      DeletedNodes(t.nodes, hash, h);
      DeletedEdges(t.edges, hash, h);
    }
  }

  lemma DeleteLeavesNoOrphan(t: Tables, hash: string)
    requires NoOrphans(t)
    ensures NoOrphans(DeleteHash(t, hash))
  {
    FilterMembers((r: NodeRow) => r.hash != hash, t.nodes);
    FilterMembers((r: EdgeRow) => r.hash != hash, t.edges);
  }

  lemma EntryAfterPut(t: Tables, e: Entry, h: string)
    requires h in PutEntry(t, e).files
    ensures EntryAt(PutEntry(t, e), h) == if h == e.hash then e else EntryAt(t, h)
  {
    var cleared := DeleteHash(t, e.hash);
    NodesOfConcat(cleared.nodes, NodeRowsOf(e), h);
    EdgesOfConcat(cleared.edges, EdgeRowsOf(e), h);
    DeletedNodes(t.nodes, e.hash, h);
    DeletedEdges(t.edges, e.hash, h);
    RowsOfNodes(e.nodes, e, h);
    RowsOfEdges(e.edges, e, h);
  }

  lemma NewRowsHaveFile(e: Entry)
    ensures forall r :: r in NodeRowsOf(e) ==> r.hash == e.hash
    ensures forall r :: r in EdgeRowsOf(e) ==> r.hash == e.hash
  {
  }

  /** After a put the entry reads back as it was stored and every other entry is untouched. */
  lemma EntriesAfterPut(t: Tables, e: Entry)
    ensures Entries(PutEntry(t, e)) == Entries(t)[e.hash := e]
  {
    hide EntryAt;
    var stored := PutEntry(t, e);
    assert stored.files.Keys == t.files.Keys + {e.hash};
    forall h | h in stored.files
      ensures EntryAt(stored, h) == if h == e.hash then e else EntryAt(t, h)
    {
      EntryAfterPut(t, e, h);
    }
  }

  lemma PutLeavesNoOrphan(t: Tables, e: Entry)
    requires NoOrphans(t)
    ensures NoOrphans(PutEntry(t, e))
  {
    var cleared, stored := DeleteHash(t, e.hash), PutEntry(t, e);
    DeleteLeavesNoOrphan(t, e.hash);
    NewRowsHaveFile(e);
    assert forall r :: r in stored.nodes ==> r in cleared.nodes || r in NodeRowsOf(e);
    assert forall r :: r in stored.edges ==> r in cleared.edges || r in EdgeRowsOf(e);
  }

  // ---- purging a path ----

  ghost function WithoutPath(entries: map<string, Entry>, path: string): map<string, Entry> {
    map h | h in entries && entries[h].path != path :: entries[h]
  }

  ghost predicate HasPath(files: map<string, FileRow>, path: string) {
    exists h :: h in files && files[h].path == path
  }

  lemma EntriesAfterPurge(t: Tables, path: string, h: string)
    requires OneRowPerPath(t.files) && h in t.files && t.files[h].path == path
    ensures Entries(DeleteHash(t, h)) == WithoutPath(Entries(t), path)
  {
    EntriesAfterDelete(t, h);
  }

  lemma NothingToPurge(t: Tables, path: string)
    requires !HasPath(t.files, path)
    ensures Entries(t) == WithoutPath(Entries(t), path)
  {
  }

  lemma PurgedRow(t: Tables, path: string, h: string)
    requires WellFormed(t) && h in t.files && t.files[h].path == path
    ensures WellFormed(DeleteHash(t, h)) && !HasPath(DeleteHash(t, h).files, path)
    ensures DeleteHash(t, h).files == map k | k in t.files && t.files[k].path != path :: t.files[k]
    ensures Entries(DeleteHash(t, h)) == WithoutPath(Entries(t), path)
  {
    EntriesAfterPurge(t, path, h);
    DeleteLeavesNoOrphan(t, h);
  }

  ghost predicate IsRowOf(files: map<string, FileRow>, path: string, h: string) {
    h in files && files[h].path == path
  }

  /** Another file row of the path than `h` has node rows, which the foreign key protects. */
  ghost predicate StillReferenced(t: Tables, path: string, h: string) {
    exists r :: r in t.nodes && r.hash != h && IsRowOf(t.files, path, r.hash)
  }

  /** The purge of a path by way of its row `h`. */
  ghost function Purged(t: Tables, path: string, h: string): Tables {
    if StillReferenced(t, path, h) then t
    else DeleteHash(t, h).(files := map k | k in t.files && t.files[k].path != path :: t.files[k])
  }

  /** A purge goes through and leaves no orphan exactly when all node and edge rows of the path are those of `h`. */
  lemma PurgeIsCleanIff(t: Tables, path: string, h: string)
    requires NoOrphans(t) && IsRowOf(t.files, path, h)
    ensures !StillReferenced(t, path, h) && NoOrphans(Purged(t, path, h)) <==>
            (forall r :: r in t.nodes && IsRowOf(t.files, path, r.hash) ==> r.hash == h) &&
            (forall r :: r in t.edges && IsRowOf(t.files, path, r.hash) ==> r.hash == h)
  {
    var keepNode, keepEdge := (r: NodeRow) => r.hash != h, (r: EdgeRow) => r.hash != h;
    FilterMembers(keepNode, t.nodes);
    FilterMembers(keepEdge, t.edges);
    if !StillReferenced(t, path, h) {
      var purged := Purged(t, path, h);
      assert purged.nodes == Filter(keepNode, t.nodes) && purged.edges == Filter(keepEdge, t.edges);
      if NoOrphans(purged) {
        forall r | r in t.edges && IsRowOf(t.files, path, r.hash)
          ensures r.hash == h
        {
          assert r.hash != h ==> r in purged.edges;
        }
      }
    }
  }

  lemma WellFormedPurge(t: Tables, path: string, h: string)
    requires IsRowOf(t.files, path, h)
    ensures (exists i :: 0 <= i < |DeleteHash(t, h).nodes| && IsRowOf(t.files, path, DeleteHash(t, h).nodes[i].hash)) <==> StillReferenced(t, path, h)
    ensures WellFormed(t) ==>
              var r := Purged(t, path, h);
              !StillReferenced(t, path, h) && WellFormed(r) && !HasPath(r.files, path) && Entries(r) == WithoutPath(Entries(t), path)
  {
    var left := DeleteHash(t, h).nodes;
    FilterMembers((r: NodeRow) => r.hash != h, t.nodes);
    if r :| r in t.nodes && r.hash != h && IsRowOf(t.files, path, r.hash) {
      assert r in left;
      var i :| 0 <= i < |left| && left[i] == r;
    }
    if i :| 0 <= i < |left| && IsRowOf(t.files, path, left[i].hash) {
      assert left[i] in left;
    }
    if WellFormed(t) {
      PurgedRow(t, path, h);
      assert Purged(t, path, h) == DeleteHash(t, h);
    }
  }

  /** Purging then putting a path keeps one row per path and leaves no orphan, whatever the cache held. */
  lemma PurgeThenPutIsWellFormed(t: Tables, e: Entry)
    requires WellFormed(t) && !HasPath(t.files, e.path)
    ensures WellFormed(PutEntry(t, e))
  {
    PutLeavesNoOrphan(t, e);
  }

  // ---- orders on rows ----

  predicate RowLess(a: (string, string), b: (string, string)) {
    Less(a.0, b.0) || (a.0 == b.0 && Less(a.1, b.1))
  }

  ghost predicate SortedByPathAndHash(rows: seq<(string, string)>) {
    forall i, j :: 0 <= i < j < |rows| ==> RowLess(rows[i], rows[j])
  }

  lemma RowLessTransitive(a: (string, string), b: (string, string), c: (string, string))
    requires RowLess(a, b) && RowLess(b, c)
    ensures RowLess(a, c)
  {
    if Less(a.0, b.0) && Less(b.0, c.0) {
      LessTransitive(a.0, b.0, c.0);
    } else if a.0 == b.0 == c.0 {
      LessTransitive(a.1, b.1, c.1);
    }
  }

  lemma InsertKeepsRowOrder(rows: seq<(string, string)>, x: (string, string), at: nat)
    requires SortedByPathAndHash(rows) && x !in rows && at <= |rows|
    requires forall i :: 0 <= i < at ==> RowLess(rows[i], x)
    requires at < |rows| ==> !RowLess(rows[at], x)
    ensures SortedByPathAndHash(InsertAt(rows, x, at))
  {
    var t := InsertAt(rows, x, at);
    forall i, j | 0 <= i < j < |t|
      ensures RowLess(t[i], t[j])
    {
      if i == at {
        LessTotal(rows[at].0, x.0);
        LessTotal(rows[at].1, x.1);
        assert rows[at] in rows && rows[at] == (rows[at].0, rows[at].1);
        assert RowLess(x, rows[at]);
        if j > at + 1 {
          RowLessTransitive(x, rows[at], rows[j - 1]);
        }
      } else if i < at < j {
        assert RowLess(rows[i], rows[j - 1]);
      }
    }
  }

  /** All file rows, each once, by ascending path; rows of one path in no particular order. */
  ghost predicate InPathOrder(rows: seq<(string, string)>, files: map<string, FileRow>) {
    && NoDuplicates(rows) && SortedBy((r: (string, string)) => r.0, rows)
    && forall p, h :: (p, h) in rows <==> h in files && files[h].path == p
  }

  ghost predicate SortedByPath(rows: seq<(string, string)>) {
    forall i, j :: 0 <= i < j < |rows| ==> Less(rows[i].0, rows[j].0)
  }

  lemma SortedRowsAreDistinct(files: map<string, FileRow>, all: seq<(string, string)>, rows: seq<(string, string)>)
    requires multiset(rows) == multiset(all) && NoDuplicates(all)
    requires forall p, h :: (p, h) in all <==> h in files && files[h].path == p
    requires SortedBy((r: (string, string)) => r.0, rows)
    ensures InPathOrder(rows, files)
    ensures OneRowPerPath(files) ==> SortedByPath(rows)
  {
    PermutationKeepsDistinct(all, rows);
    assert forall r :: r in rows <==> r in multiset(rows);
    assert forall r :: r in all <==> r in multiset(all);
    if OneRowPerPath(files) {
      forall i, j | 0 <= i < j < |rows|
        ensures Less(rows[i].0, rows[j].0)
      {
        assert AtMost(rows[i].0, rows[j].0);
        assert rows[i] != rows[j];
        assert rows[i] in rows && rows[j] in rows;
        assert rows[i] == (rows[i].0, rows[i].1) && rows[j] == (rows[j].0, rows[j].1);
      }
    }
  }

  // ---- the cache ----

  class Cache {
    var files: map<string, FileRow>
    var nodeRows: seq<NodeRow>
    var edgeRows: seq<EdgeRow>

    function Contents(): Tables
      reads this
    {
      Tables(files, nodeRows, edgeRows)
    }

    constructor ()
      ensures Contents() == Tables(map[], [], [])
    {
      files, nodeRows, edgeRows := map[], [], [];
    }

    method Has(hash: string) returns (found: bool)
      ensures found <==> hash in Entries(Contents())
    {
      found := hash in files;
    }

    method InsertNodes(e: Entry)
      modifies this`nodeRows
      ensures nodeRows == old(nodeRows) + NodeRowsOf(e)
    {
      for i := 0 to |e.nodes|
        invariant nodeRows == old(nodeRows) + NodeRowsOf(e)[..i]
      {
        nodeRows := nodeRows + [NodeRow(e.nodes[i].id, e.hash, e.nodes[i])];
      }
    }

    method InsertEdges(e: Entry)
      modifies this`edgeRows
      ensures edgeRows == old(edgeRows) + EdgeRowsOf(e)
    {
      for i := 0 to |e.edges|
        invariant edgeRows == old(edgeRows) + EdgeRowsOf(e)[..i]
      {
        var d := e.edges[i];
        edgeRows := edgeRows + [EdgeRow(d.sourceId, d.targetId, e.hash, d.kind, d)];
      }
    }

    /** `Put`: wipe all rows of the hash, then insert the entry's rows, in one transaction. */
    method Put(e: Entry)
      modifies this
      ensures Contents() == PutEntry(old(Contents()), e)
      ensures Entries(Contents()) == old(Entries(Contents()))[e.hash := e]
    {
      hide Entries, NodeRowsOf, EdgeRowsOf;
      EntriesAfterPut(Contents(), e);
      nodeRows := Filter((r: NodeRow) => r.hash != e.hash, nodeRows);
      edgeRows := Filter((r: EdgeRow) => r.hash != e.hash, edgeRows);
      files := files - {e.hash};
      files := files[e.hash := FileRow(e.path)];
      InsertNodes(e);
      InsertEdges(e);
    }

    /** `Get`: the file row, then its node rows in row order, then its edge rows. */
    method Get(hash: string) returns (e: Option<Entry>)
      ensures e == if hash in Entries(Contents()) then Some(Entries(Contents())[hash]) else None
    {
      if hash !in files {
        return None;
      }
      var nodes: seq<NodeView>, edges: seq<EdgeView> := [], [];
      for i := 0 to |nodeRows|
        invariant nodes == NodesOf(nodeRows[..i], hash)
      {
        assert nodeRows[..i + 1][..i] == nodeRows[..i];
        if nodeRows[i].hash == hash {
          nodes := nodes + [nodeRows[i].data];
        }
      }
      for i := 0 to |edgeRows|
        invariant edges == EdgesOf(edgeRows[..i], hash)
      {
        assert edgeRows[..i + 1][..i] == edgeRows[..i];
        if edgeRows[i].hash == hash {
          edges := edges + [edgeRows[i].data];
        }
      }
      assert nodeRows[..|nodeRows|] == nodeRows && edgeRows[..|edgeRows|] == edgeRows;
      e := Some(Entry(hash, files[hash].path, nodes, edges));
    }

    /** `GetFileByPath`: the hash cached for a path, if any. */
    method GetFileByPath(path: string) returns (hash: Option<string>)
      ensures hash.Some? ==> hash.value in files && files[hash.value].path == path
      ensures hash.None? <==> !HasPath(files, path)
    {
      var keys := files.Keys;
      while keys != {}
        invariant keys <= files.Keys
        invariant forall h :: h in files && h !in keys ==> files[h].path != path
        decreases keys
      {
        var h :| h in keys;
        if files[h].path == path {
          return Some(h);
        }
        keys := keys - {h};
      }
      hash := None;
    }

    /**
     `PurgeByPath`: drop the path's file rows with the node and edge rows of one of them, in one
     transaction; a missing path changes nothing. It fails, and changes nothing, when a dropped
     file row still has node rows. In well-formed tables it never fails and drops the path's entry.
     */
    method PurgeByPath(path: string) returns (ok: bool)
      modifies this
      ensures !old(HasPath(files, path)) ==> ok && Contents() == old(Contents())
      ensures old(HasPath(files, path)) ==>
                exists h :: IsRowOf(old(files), path, h) && Contents() == Purged(old(Contents()), path, h) &&
                  (ok <==> !StillReferenced(old(Contents()), path, h))
      ensures old(WellFormed(Contents())) ==>
                && ok && WellFormed(Contents()) && !HasPath(files, path)
                && Entries(Contents()) == WithoutPath(old(Entries(Contents())), path)
    {
      hide Entries, WithoutPath, Filter, WellFormed;
      var hash := GetFileByPath(path);
      if hash.None? {
        NothingToPurge(Contents(), path);
        return true;
      }
      ghost var start := Contents();
      WellFormedPurge(start, path, hash.value);
      var nodes := Filter((r: NodeRow) => r.hash != hash.value, nodeRows);
      var edges := Filter((r: EdgeRow) => r.hash != hash.value, edgeRows);
      if exists i :: 0 <= i < |nodes| && nodes[i].hash in files && files[nodes[i].hash].path == path {
        return false;
      }
      nodeRows, edgeRows := nodes, edges;
      files := map h | h in files && files[h].path != path :: files[h];
      return true;
    }

    /** The file rows in no particular order. */
    method CollectRows() returns (all: seq<(string, string)>)
      ensures NoDuplicates(all) && forall p, h :: (p, h) in all <==> h in files && files[h].path == p
    {
      all := [];
      var keys := files.Keys;
      while keys != {}
        invariant keys <= files.Keys
        invariant forall p, h :: (p, h) in all <==> h in files && h !in keys && files[h].path == p
        invariant forall i, j :: 0 <= i < j < |all| ==> all[i].1 != all[j].1
        decreases keys
      {
        var h :| h in keys;
        all := all + [(files[h].path, h)];
        keys := keys - {h};
      }
    }

    /** `AllFiles`: the (path, hash) rows, each once, in path order. */
    method AllFiles() returns (rows: seq<(string, string)>)
      ensures InPathOrder(rows, files)
      ensures OneRowPerPath(files) ==> SortedByPath(rows)
    {
      var all := CollectRows();
      rows := SortById((r: (string, string)) => r.0, all);
      SortedRowsAreDistinct(files, all, rows);
    }

    /** The rows ordered by path and, within a path, by hash. */
    method RowsByPathAndHash() returns (rows: seq<(string, string)>)
      ensures SortedByPathAndHash(rows) && forall p, h :: (p, h) in rows <==> h in files && files[h].path == p
    {
      var all := CollectRows();
      rows := [];
      for i := 0 to |all|
        invariant SortedByPathAndHash(rows) && forall r :: r in rows <==> r in all[..i]
      {
        var x := all[i];
        assert all[..i + 1] == all[..i] + [x];
        assert x !in all[..i];
        var at: nat := 0;
        while at < |rows| && RowLess(rows[at], x)
          invariant at <= |rows|
          invariant forall j :: 0 <= j < at ==> RowLess(rows[j], x)
        {
          at := at + 1;
        }
        InsertKeepsRowOrder(rows, x, at);
        InsertedElements(rows, x, at);
        rows := InsertAt(rows, x, at);
      }
      assert all[..|all|] == all;
    }

    /** `IterateAll`: every entry, ordered by path and then by hash. */
    method IterateAll() returns (entries: seq<Entry>)
      ensures forall e :: e in entries <==> e.hash in files && e == EntryAt(Contents(), e.hash)
      ensures forall i, j :: 0 <= i < j < |entries| ==>
                RowLess((entries[i].path, entries[i].hash), (entries[j].path, entries[j].hash))
    {
      var rows := RowsByPathAndHash();
      entries := [];
      for i := 0 to |rows|
        invariant |entries| == i
        invariant forall j :: 0 <= j < i ==> rows[j].1 in files && entries[j] == EntryAt(Contents(), rows[j].1)
      {
        assert (rows[i].0, rows[i].1) in rows;
        var e := Get(rows[i].1);
        entries := entries + [e.value];
      }
      forall e
        ensures e in entries <==> e.hash in files && e == EntryAt(Contents(), e.hash)
      {
        if e.hash in files && e == EntryAt(Contents(), e.hash) {
          assert (files[e.hash].path, e.hash) in rows;
          var j :| 0 <= j < |rows| && rows[j] == (files[e.hash].path, e.hash);
          assert entries[j] == e;
        }
      }
      forall i, j | 0 <= i < j < |entries|
        ensures RowLess((entries[i].path, entries[i].hash), (entries[j].path, entries[j].hash))
      {
        assert (rows[i].0, rows[i].1) in rows && (rows[j].0, rows[j].1) in rows;
        assert rows[i] == (entries[i].path, entries[i].hash) && rows[j] == (entries[j].path, entries[j].hash);
      }
    }
  }
}
