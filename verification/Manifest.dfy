/**
 The manifest digest of a cache (internal/cache/manifest.go): what is hashed, and why equal
 digests mean equal (path, hash) bindings.
 */
module Manifest {
  import opened Options
  import opened Sequences
  import opened Strings
  import opened CacheStore

  const NUL := '\0'

  /** "<path>\0<hash>\0" per row, in the given order. */
  function Encode(rows: seq<(string, string)>): string {
    if rows == [] then "" else rows[0].0 + [NUL] + rows[0].1 + [NUL] + Encode(rows[1..])
  }

  /** Position of the first NUL. */
  function FirstNul(s: string): (i: nat)
    ensures i <= |s| && NUL !in s[..i] && (i < |s| ==> s[i] == NUL)
  {
    if s == "" || s[0] == NUL then 0
    else
      var i := 1 + FirstNul(s[1..]);
      assert s[..i] == [s[0]] + s[1..][..i - 1];
      i
  }

  /** Reads rows back, two NUL-terminated fields at a time. */
  function Decode(s: string): Option<seq<(string, string)>>
    decreases |s|
  {
    if s == "" then Some([])
    else
      var i := FirstNul(s);
      if i == |s| then None
      else
        var rest := s[i + 1..];
        var j := FirstNul(rest);
        if j == |rest| then None
        else
          var tail := Decode(rest[j + 1..]);
          if tail.None? then None else Some([(s[..i], rest[..j])] + tail.value)
  }

  ghost predicate NulFree(rows: seq<(string, string)>) {
    forall k :: 0 <= k < |rows| ==> NUL !in rows[k].0 && NUL !in rows[k].1
  }

  lemma {:induction false} FirstNulIs(s: string, i: nat)
    requires i < |s| && s[i] == NUL && NUL !in s[..i]
    ensures FirstNul(s) == i
  {
    if i == 0 {
    } else {
      assert s[..i] == [s[0]] + s[1..][..i - 1];
      FirstNulIs(s[1..], i - 1);
    }
  }

  lemma FirstNulEnds(field: string, rest: string)
    requires NUL !in field
    ensures FirstNul(field + [NUL] + rest) == |field|
    ensures (field + [NUL] + rest)[..|field|] == field
    ensures (field + [NUL] + rest)[|field| + 1..] == rest
  {
    var s := field + [NUL] + rest;
    assert s[..|field|] == field;
    FirstNulIs(s, |field|);
  }

  /** The hashed bytes determine the rows. */
  lemma {:induction false} DecodeEncode(rows: seq<(string, string)>)
    requires NulFree(rows)
    ensures Decode(Encode(rows)) == Some(rows)
  {
    if rows == [] {
    } else {
      var s, path, hash, tail := Encode(rows), rows[0].0, rows[0].1, Encode(rows[1..]);
      var rest := hash + [NUL] + tail;
      assert s == path + [NUL] + rest;
      FirstNulEnds(path, rest);
      FirstNulEnds(hash, tail);
      DecodeEncode(rows[1..]);
      assert rows == [(path, hash)] + rows[1..];
    }
  }

  lemma {:induction false} EncodeAppend(rows: seq<(string, string)>, row: (string, string))
    ensures Encode(rows + [row]) == Encode(rows) + row.0 + [NUL] + row.1 + [NUL]
  {
    if rows == [] {
      assert [row][1..] == [];
    } else {
      assert (rows + [row])[1..] == rows[1..] + [row];
      EncodeAppend(rows[1..], row);
    }
  }

  /** The path, a NUL, the hash, a NUL. */
  function RowText(row: (string, string)): string {
    row.0 + [NUL] + row.1 + [NUL]
  }

  /** The digest is over the rows' texts one after the other. */
  lemma {:induction false} EncodeConcatenates(rows: seq<(string, string)>)
    ensures Concatenates(Encode(rows), Map(RowText, rows))
  {
    hide Concatenates;
    if rows == [] {
      ConcatenatesNothing<char>();
    } else {
      var front, row := rows[..|rows| - 1], rows[|rows| - 1];
      EncodeConcatenates(front);
      EncodeAppend(front, row);
      ConcatenatesMore(Encode(front), Map(RowText, front), RowText(row));
      assert rows == front + [row];
      assert Map(RowText, rows) == Map(RowText, front) + [RowText(row)];
      assert Encode(rows) == Encode(front) + RowText(row);
    }
  }

  // ---- caches ----

  /** `rows` lists the cache's bindings in path order. */
  ghost predicate Lists(rows: seq<(string, string)>, files: map<string, FileRow>) {
    SortedByPath(rows) && forall p, h :: (p, h) in rows <==> h in files && files[h].path == p
  }

  ghost function Paths(files: map<string, FileRow>): set<string> {
    set h | h in files :: files[h].path
  }

  ghost function HashFor(files: map<string, FileRow>, path: string): (h: string)
    requires path in Paths(files)
    ensures h in files && files[h].path == path
  {
    var h :| h in files && files[h].path == path;
    h
  }

  lemma ListingHoldsRows(files: map<string, FileRow>, paths: seq<string>, rows: seq<(string, string)>)
    requires OneRowPerPath(files) && StrictlySorted(paths) && |rows| == |paths|
    requires forall p :: p in paths <==> p in Paths(files)
    requires forall i :: 0 <= i < |paths| ==> rows[i].0 == paths[i] && rows[i].1 in files && files[rows[i].1].path == paths[i]
    ensures Lists(rows, files)
  {
    forall p, h
      ensures (p, h) in rows <==> h in files && files[h].path == p
    {
      if h in files && files[h].path == p {
        assert p in Paths(files) && p in paths;
        var i :| 0 <= i < |paths| && paths[i] == p;
        assert rows[i] == (p, h);
      }
    }
  }

  /** The one listing of a cache in path order. */
  ghost function Listing(files: map<string, FileRow>): (rows: seq<(string, string)>)
    requires OneRowPerPath(files)
    ensures Lists(rows, files)
  {
    var paths := SortedListing(Paths(files));
    var rows := seq(|paths|, i requires 0 <= i < |paths| && paths[i] in Paths(files) => (paths[i], HashFor(files, paths[i])));
    assert forall i :: 0 <= i < |paths| ==> paths[i] in paths;
    ListingHoldsRows(files, paths, rows);
    rows
  }

  ghost predicate SameBindings(files: map<string, FileRow>, files': map<string, FileRow>) {
    files.Keys == files'.Keys && forall h :: h in files ==> files[h].path == files'[h].path
  }

  ghost predicate NulFreeFiles(files: map<string, FileRow>) {
    forall h :: h in files ==> NUL !in h && NUL !in files[h].path
  }

  method WriteRows(rows: seq<(string, string)>) returns (input: string)
    ensures input == Encode(rows)
  {
    input := "";
    for i := 0 to |rows|
      invariant input == Encode(rows[..i])
    {
      hide Encode;
      assert rows[..i + 1] == rows[..i] + [rows[i]];
      EncodeAppend(rows[..i], rows[i]);
      input := input + rows[i].0;
      input := input + [NUL];
      input := input + rows[i].1;
      input := input + [NUL];
    }
    assert rows[..|rows|] == rows;
  }

  lemma LeastRowFirst(r: seq<(string, string)>, s: seq<(string, string)>)
    requires SortedByPath(r) && SortedByPath(s) && r != [] && s != []
    requires forall x :: x in r <==> x in s
    ensures r[0] == s[0]
  {
    assert r[0] in s && s[0] in r;
    var j :| 0 <= j < |s| && s[j] == r[0];
    var k :| 0 <= k < |r| && r[k] == s[0];
    if j > 0 && k > 0 {
      LessTransitive(r[0].0, s[0].0, r[0].0);
      LessIrreflexive(r[0].0);
    }
  }

  lemma HeadNotInTail(r: seq<(string, string)>)
    requires SortedByPath(r) && r != []
    ensures r[0] !in r[1..]
  {
    LessIrreflexive(r[0].0);
  }

  lemma TailRows(r: seq<(string, string)>, s: seq<(string, string)>)
    requires SortedByPath(r) && SortedByPath(s) && r != [] && s != [] && r[0] == s[0]
    requires forall x :: x in r <==> x in s
    ensures forall x :: x in r[1..] <==> x in s[1..]
  {
    HeadNotInTail(r);
    HeadNotInTail(s);
    assert r == [r[0]] + r[1..] && s == [s[0]] + s[1..];
    forall x
      ensures x in r[1..] <==> x in s[1..]
    {
      assert x in r[1..] <==> x in r && x != r[0];
      assert x in s[1..] <==> x in s && x != s[0];
    }
  }

  lemma {:induction false} ListingIsUnique(r: seq<(string, string)>, s: seq<(string, string)>)
    requires SortedByPath(r) && SortedByPath(s)
    requires forall x :: x in r <==> x in s
    ensures r == s
    decreases |r|
  {
    if r == [] || s == [] {
      if r != [] {
        var x := SomeMember(r);
      }
      if s != [] {
        var x := SomeMember(s);
      }
    } else {
      LeastRowFirst(r, s);
      TailRows(r, s);
      ListingIsUnique(r[1..], s[1..]);
      assert r == [r[0]] + r[1..] && s == [s[0]] + s[1..];
    }
  }

  /** `ManifestHash` up to the digest: the bytes of the rows in path order, which one row per path determines. */
  method ManifestInput(c: Cache) returns (input: string)
    ensures exists rows :: InPathOrder(rows, c.files) && input == Encode(rows)
    ensures OneRowPerPath(c.files) ==> input == Encode(Listing(c.files))
  {
    var rows := c.AllFiles();
    if OneRowPerPath(c.files) {
      assert forall r :: r in rows ==> r == (r.0, r.1);
      assert forall r :: r in Listing(c.files) ==> r == (r.0, r.1);
      ListingIsUnique(rows, Listing(c.files));
    }
    input := WriteRows(rows);
  }

  lemma ListedRowsAreNulFree(files: map<string, FileRow>, rows: seq<(string, string)>)
    requires Lists(rows, files) && NulFreeFiles(files)
    ensures NulFree(rows)
  {
    forall k | 0 <= k < |rows|
      ensures NUL !in rows[k].0 && NUL !in rows[k].1
    {
      assert (rows[k].0, rows[k].1) in rows;
    }
  }

  lemma EqualListings(files: map<string, FileRow>, files': map<string, FileRow>, rows: seq<(string, string)>)
    requires Lists(rows, files) && Lists(rows, files')
    ensures SameBindings(files, files')
  {
    forall h
      ensures h in files <==> h in files'
      ensures h in files && h in files' ==> files[h].path == files'[h].path
    {
      if h in files {
        assert (files[h].path, h) in rows;
      }
      if h in files' {
        assert (files'[h].path, h) in rows;
      }
    }
  }

  /** Equal hashed bytes mean equal bindings, and conversely, as long as no path or hash contains NUL. */
  lemma SameInputIffSameBindings(files: map<string, FileRow>, files': map<string, FileRow>,
                                 rows: seq<(string, string)>, rows': seq<(string, string)>)
    requires Lists(rows, files) && Lists(rows', files')
    requires NulFreeFiles(files) && NulFreeFiles(files')
    ensures Encode(rows) == Encode(rows') <==> SameBindings(files, files')
  {
    ListedRowsAreNulFree(files, rows);
    ListedRowsAreNulFree(files', rows');
    DecodeEncode(rows);
    DecodeEncode(rows');
    if Encode(rows) == Encode(rows') {
      EqualListings(files, files', rows);
    }
    if SameBindings(files, files') {
      assert forall x :: x in rows ==> x == (x.0, x.1);
      assert forall x :: x in rows' ==> x == (x.0, x.1);
      ListingIsUnique(rows, rows');
    }
  }

  /** The separator alone does not rule out collisions: a path holding NUL can absorb another row. */
  lemma NulInPathCollides()
    ensures var joined := "a" + [NUL] + "h" + [NUL] + "b";
            var one, two := map["k" := FileRow(joined)], map["h" := FileRow("a"), "k" := FileRow("b")];
            && Lists([(joined, "k")], one) && Lists([("a", "h"), ("b", "k")], two)
            && Encode([(joined, "k")]) == Encode([("a", "h"), ("b", "k")])
            && !SameBindings(one, two)
  {
    var joined := "a" + [NUL] + "h" + [NUL] + "b";
    var one, two := map["k" := FileRow(joined)], map["h" := FileRow("a"), "k" := FileRow("b")];
    assert [("a", "h"), ("b", "k")][1..] == [("b", "k")];
    assert [(joined, "k")][1..] == [] && [("b", "k")][1..] == [];
    assert "h" in two && "h" !in one;
    assert Less("a", "b");
  }
}
