/**
 What parsing keeps of any text, well-formed patch or not (internal/review/diff.go): every line
 of a hunk, in order, and every counted line after the first file header.
 */
module DiffTexts {
  import opened DiffParser
  import opened DiffRoundTrip
  import opened Options
  import opened Sequences

  // ---- lines ----

  predicate IsHeader(line: string) {
    FILE_HEADER <= line
  }

  predicate IsNewName(line: string) {
    NEW_NAME <= line
  }

  predicate IsAdded(line: string) {
    "+" <= line && !("+++" <= line)
  }

  predicate IsRemoved(line: string) {
    "-" <= line && !("---" <= line)
  }

  /** A line that is written to the hunk buffer whatever came before. */
  predicate Opens(line: string) {
    "@@" <= line || IsAdded(line) || IsRemoved(line)
  }

  lemma KindsDiffer(line: string)
    ensures IsHeader(line) ==> !IsNewName(line) && !Opens(line)
    ensures IsNewName(line) ==> !Opens(line)
    ensures IsAdded(line) ==> !IsRemoved(line) && !("@@" <= line)
    ensures IsRemoved(line) ==> !("@@" <= line)
  {
    assert IsHeader(line) ==> line[0] == 'd';
    assert IsNewName(line) ==> line[..3] == NEW_NAME[..3] == "+++";
    assert "@@" <= line ==> line[0] == '@';
    assert "+" <= line ==> line[0] == '+';
    assert "-" <= line ==> line[0] == '-';
  }

  ghost predicate HasHeader(lines: seq<string>) {
    exists i :: 0 <= i < |lines| && IsHeader(lines[i])
  }

  /** A second or later header closes the hunk that is open; the first one has no file to close. */
  ghost predicate ClosesAt(lines: seq<string>, j: int) {
    0 <= j < |lines| && IsHeader(lines[j]) && HasHeader(lines[..j])
  }

  ghost predicate OpenSince(lines: seq<string>, i: int) {
    0 <= i < |lines| && Opens(lines[i]) && forall j :: i < j ==> !ClosesAt(lines, j)
  }

  /** Some line opened a hunk and no header has closed it. */
  ghost predicate IsOpen(lines: seq<string>) {
    exists i :: OpenSince(lines, i)
  }

  /** The lines that belong to hunks, each with its newline. */
  ghost function KeptText(lines: seq<string>): string {
    if lines == [] then ""
    else
      var before, line := lines[..|lines| - 1], lines[|lines| - 1];
      KeptText(before) + if !IsHeader(line) && !IsNewName(line) && (Opens(line) || IsOpen(before)) then line + "\n" else ""
  }

  lemma HeaderStep(lines: seq<string>, line: string)
    ensures HasHeader(lines + [line]) <==> HasHeader(lines) || IsHeader(line)
  {
    var more := lines + [line];
    assert more[|lines|] == line;
    if i :| 0 <= i < |lines| && IsHeader(lines[i]) {
      assert more[i] == lines[i];
    }
  }

  lemma ClosesStep(lines: seq<string>, line: string)
    ensures forall j :: j < |lines| ==> (ClosesAt(lines + [line], j) <==> ClosesAt(lines, j))
    ensures ClosesAt(lines + [line], |lines|) <==> IsHeader(line) && HasHeader(lines)
  {
    var more := lines + [line];
    assert forall j :: 0 <= j <= |lines| ==> more[..j] == lines[..j];
    assert lines[..|lines|] == lines;
  }

  lemma OpenStep(lines: seq<string>, line: string)
    ensures IsOpen(lines + [line]) <==> Opens(line) || (IsOpen(lines) && !(IsHeader(line) && HasHeader(lines)))
  {
    var more, n := lines + [line], |lines|;
    ClosesStep(lines, line);
    assert forall j :: n < j ==> !ClosesAt(more, j) && !ClosesAt(lines, j);
    if Opens(line) {
      assert OpenSince(more, n);
    }
    if i :| OpenSince(lines, i) && !(IsHeader(line) && HasHeader(lines)) {
      assert !ClosesAt(more, n);
      assert OpenSince(more, i);
    }
    if i :| OpenSince(more, i) {
      assert i < n ==> OpenSince(lines, i) && !ClosesAt(more, n);
    }
  }

  // ---- files ----

  function Opened(s: State): seq<ChangedFile> {
    s.files + if s.cur.Some? then [s.cur.value] else []
  }

  /** The hunks of the files, one after the other. */
  function TextOf(files: seq<ChangedFile>): string {
    FlatMap((f: ChangedFile) => FlatMap((h: string) => h, f.hunks), files)
  }

  lemma OneMoreFile(files: seq<ChangedFile>, f: ChangedFile)
    ensures TextOf(files + [f]) == TextOf(files) + FlatMap((h: string) => h, f.hunks)
  {
    assert (files + [f])[..|files|] == files;
  }

  lemma OneMoreHunk(hunks: seq<string>, hunk: string)
    ensures FlatMap((h: string) => h, hunks + [hunk]) == FlatMap((h: string) => h, hunks) + hunk
  {
    assert (hunks + [hunk])[..|hunks|] == hunks;
  }

  // ---- sections ----

  /** One section per file: its header and the lines up to the next header. */
  ghost predicate IsSection(sec: seq<string>) {
    sec != [] && IsHeader(sec[0]) && forall i :: 0 < i < |sec| ==> !IsHeader(sec[i])
  }

  ghost predicate Sectioned(lines: seq<string>, pre: seq<string>, secs: seq<seq<string>>) {
    && !HasHeader(pre) && (forall k :: 0 <= k < |secs| ==> IsSection(secs[k]))
    && Concatenates(lines, [pre] + secs)
  }

  ghost predicate NamedAt(sec: seq<string>, path: string, i: int) {
    0 <= i < |sec| && IsNewName(sec[i]) && path == sec[i][|NEW_NAME|..] && forall j :: i < j < |sec| ==> !IsNewName(sec[j])
  }

  /** The name on the section's last name line; without one, the name on its header. */
  ghost predicate NamedBy(sec: seq<string>, path: string)
    requires sec != []
  {
    if exists i :: 0 <= i < |sec| && IsNewName(sec[i]) then exists i :: NamedAt(sec, path, i) else path == HeaderPath(sec[0])
  }

  /** The file a section leaves: its name and the numbers of its added and removed lines. */
  ghost predicate FileOf(sec: seq<string>, f: ChangedFile)
    requires sec != []
  {
    NamedBy(sec, f.path) && f.added == |Filter(IsAdded, sec)| && f.removed == |Filter(IsRemoved, sec)|
  }

  ghost predicate FilesOf(secs: seq<seq<string>>, files: seq<ChangedFile>) {
    |files| == |secs| && forall k :: 0 <= k < |secs| ==> secs[k] != [] && FileOf(secs[k], files[k])
  }

  /** What reading one more line of its section does to a file. */
  ghost predicate ReadLine(f: ChangedFile, line: string, g: ChangedFile) {
    && g.path == (if IsNewName(line) then line[|NEW_NAME|..] else f.path)
    && g.added == f.added + (if IsAdded(line) then 1 else 0)
    && g.removed == f.removed + (if IsRemoved(line) then 1 else 0)
  }

  lemma SectionGrows(sec: seq<string>, f: ChangedFile, line: string, g: ChangedFile)
    requires IsSection(sec) && FileOf(sec, f) && !IsHeader(line) && ReadLine(f, line, g)
    ensures IsSection(sec + [line]) && FileOf(sec + [line], g)
  {
    var more := sec + [line];
    assert more[..|sec|] == sec && more[|sec|] == line;
    assert forall i :: 0 <= i < |sec| ==> more[i] == sec[i];
    if IsNewName(line) {
      assert NamedAt(more, g.path, |sec|);
    } else if i :| 0 <= i < |sec| && IsNewName(sec[i]) {
      var k :| NamedAt(sec, f.path, k);
      assert NamedAt(more, g.path, k);
      assert IsNewName(more[i]);
    }
  }

  lemma SectionStarts(line: string)
    requires IsHeader(line)
    ensures IsSection([line]) && FileOf([line], ChangedFile(HeaderPath(line), [], 0, 0))
  {
    KindsDiffer(line);
    FilterOne(IsAdded, line);
    FilterOne(IsRemoved, line);
  }

  // ---- the line loop on any text ----

  /** What the loop has kept of the lines read so far. */
  ghost predicate TextKept(lines: seq<string>, s: State) {
    && (s.cur.Some? <==> HasHeader(lines)) && (s.cur.None? ==> s.files == [])
    && (s.hunkBuf != "" <==> IsOpen(lines))
    && TextOf(Opened(s)) + s.hunkBuf == KeptText(lines)
  }

  lemma FlushKeepsText(s: State)
    ensures TextOf(Opened(Flush(s))) + Flush(s).hunkBuf == TextOf(Opened(s)) + s.hunkBuf
    ensures Flush(s).hunkBuf == if s.cur.Some? then "" else s.hunkBuf
  {
    if s.cur.Some? && s.hunkBuf != "" {
      var f := s.cur.value;
      OneMoreFile(s.files, f);
      OneMoreFile(s.files, f.(hunks := f.hunks + [s.hunkBuf]));
      OneMoreHunk(f.hunks, s.hunkBuf);
    }
  }

  /** The text of a file is in its hunks. */
  lemma SameHunksSameText(files: seq<ChangedFile>, f: ChangedFile, g: ChangedFile)
    requires f.hunks == g.hunks
    ensures TextOf(files + [f]) == TextOf(files + [g])
  {
    OneMoreFile(files, f);
    OneMoreFile(files, g);
  }

  lemma OpensNewFile(s: State, line: string)
    requires IsHeader(line) && (s.cur.None? ==> s.files == [])
    ensures var t := Feed(s, line);
            && t.cur.Some? && Opened(t) == Opened(Flush(s)) + [ChangedFile(HeaderPath(line), [], 0, 0)]
            && t.hunkBuf == Flush(s).hunkBuf
            && TextOf(Opened(t)) == TextOf(Opened(Flush(s)))
  {
    OneMoreFile(Opened(Flush(s)), ChangedFile(HeaderPath(line), [], 0, 0));
  }

  lemma BufferGrows(text: string, buffer: string, line: string)
    ensures text + (buffer + line + "\n") == text + buffer + (line + "\n")
  {
  }

  /** What a line that is no header adds to the text. */
  ghost predicate FeedsText(s: State, line: string, t: State) {
    && TextOf(Opened(t)) + t.hunkBuf ==
       TextOf(Opened(s)) + s.hunkBuf + (if !IsNewName(line) && (Opens(line) || s.hunkBuf != "") then line + "\n" else "")
    && (t.hunkBuf != "" <==> Opens(line) || s.hunkBuf != "")
  }

  lemma FedHunkHeader(s: State, line: string)
    requires "@@" <= line
    ensures FeedsText(s, line, Feed(s, line))
  {
    KindsDiffer(line);
    FlushKeepsText(s);
    hide TextOf;
    var f := Flush(s);
    assert Feed(s, line) == f.(hunkBuf := f.hunkBuf + line + "\n");
    assert Opened(Feed(s, line)) == Opened(f);
    hide Opened, Flush, Feed;
    BufferGrows(TextOf(Opened(f)), f.hunkBuf, line);
  }

  lemma FedOther(s: State, line: string)
    requires !IsHeader(line) && !("@@" <= line)
    ensures FeedsText(s, line, Feed(s, line))
  {
    KindsDiffer(line);
    var t := Feed(s, line);
    if s.cur.Some? {
      SameHunksSameText(s.files, s.cur.value, t.cur.value);
    }
    hide TextOf;
    assert TextOf(Opened(t)) == TextOf(Opened(s));
    hide Opened;
    BufferGrows(TextOf(Opened(s)), s.hunkBuf, line);
  }

  /** A line that is no header leaves the files and their text, and may reach the buffer. */
  lemma FedLine(s: State, line: string)
    requires !IsHeader(line)
    ensures var t := Feed(s, line);
            && t.files == s.files && (t.cur.Some? <==> s.cur.Some?)
            && (s.cur.Some? ==> ReadLine(s.cur.value, line, t.cur.value))
            && FeedsText(s, line, t)
  {
    KindsDiffer(line);
    hide FeedsText;
    if "@@" <= line {
      FedHunkHeader(s, line);
    } else {
      FedOther(s, line);
    }
  }

  lemma TextStaysKept(lines: seq<string>, s: State, line: string)
    requires TextKept(lines, s)
    ensures TextKept(lines + [line], Feed(s, line))
  {
    HeaderStep(lines, line);
    OpenStep(lines, line);
    KindsDiffer(line);
    assert (lines + [line])[..|lines|] == lines;
    hide Feed, Flush, TextOf, Opened;
    if IsHeader(line) {
      OpensNewFile(s, line);
      FlushKeepsText(s);
    } else {
      FedLine(s, line);
    }
  }

  /** The files read so far are those of the sections. */
  ghost predicate FilesKept(lines: seq<string>, s: State) {
    exists pre, secs :: Sectioned(lines, pre, secs) && FilesOf(secs, Opened(s))
  }

  lemma NewSection(lines: seq<string>, pre: seq<string>, secs: seq<seq<string>>, line: string)
    requires Sectioned(lines, pre, secs) && IsHeader(line)
    ensures Sectioned(lines + [line], pre, secs + [[line]])
  {
    hide Concatenates;
    ConcatenatesMore(lines, [pre] + secs, [line]);
    SectionStarts(line);
    assert [pre] + secs + [[line]] == [pre] + (secs + [[line]]);
  }

  lemma LongerPre(lines: seq<string>, pre: seq<string>, line: string)
    requires Sectioned(lines, pre, []) && !IsHeader(line)
    ensures Sectioned(lines + [line], pre + [line], [])
  {
    hide Concatenates;
    assert [] + [pre] == [pre] + [] && [] + [pre + [line]] == [pre + [line]] + [];
    ConcatenatesLonger(lines, [], pre, line);
    HeaderStep(pre, line);
  }

  lemma LongerSection(lines: seq<string>, pre: seq<string>, secs: seq<seq<string>>, sec: seq<string>, line: string)
    requires Sectioned(lines, pre, secs + [sec]) && IsSection(sec + [line])
    ensures Sectioned(lines + [line], pre, secs + [sec + [line]])
  {
    hide Concatenates, IsSection;
    assert [pre] + (secs + [sec]) == [pre] + secs + [sec];
    ConcatenatesLonger(lines, [pre] + secs, sec, line);
    assert [pre] + secs + [sec + [line]] == [pre] + (secs + [sec + [line]]);
    assert forall k :: 0 <= k < |secs| ==> (secs + [sec])[k] == secs[k];
  }

  /** Closing the open hunk changes no name and no number. */
  lemma FlushKeepsFiles(secs: seq<seq<string>>, s: State)
    requires FilesOf(secs, Opened(s))
    ensures FilesOf(secs, Opened(Flush(s)))
  {
  }

  lemma OneMoreFileOf(secs: seq<seq<string>>, files: seq<ChangedFile>, sec: seq<string>, f: ChangedFile)
    requires FilesOf(secs, files) && sec != [] && FileOf(sec, f)
    ensures FilesOf(secs + [sec], files + [f])
  {
    hide FileOf;
  }

  lemma SectionsAreSections(lines: seq<string>, pre: seq<string>, secs: seq<seq<string>>)
    requires Sectioned(lines, pre, secs)
    ensures forall k :: 0 <= k < |secs| ==> IsSection(secs[k])
  {
  }

  lemma FilesKeptAtHeader(lines: seq<string>, s: State, line: string)
    requires FilesKept(lines, s) && (s.cur.None? ==> s.files == []) && IsHeader(line)
    ensures FilesKept(lines + [line], Feed(s, line))
  {
    var pre, secs :| Sectioned(lines, pre, secs) && FilesOf(secs, Opened(s));
    FlushKeepsFiles(secs, s);
    SectionStarts(line);
    OpensNewFile(s, line);
    hide Feed, Flush, Sectioned, FileOf, IsSection, Opened, FilesOf, TextOf;
    OneMoreFileOf(secs, Opened(Flush(s)), [line], ChangedFile(HeaderPath(line), [], 0, 0));
    NewSection(lines, pre, secs, line);
  }

  lemma AsManyFiles(secs: seq<seq<string>>, files: seq<ChangedFile>)
    requires FilesOf(secs, files)
    ensures |secs| == |files|
  {
  }

  lemma FilesOfFront(front: seq<seq<string>>, sec: seq<string>, files: seq<ChangedFile>, f: ChangedFile)
    requires FilesOf(front + [sec], files + [f])
    ensures FilesOf(front, files) && sec != [] && FileOf(sec, f)
  {
    hide FileOf;
    var secs, all := front + [sec], files + [f];
    assert secs[|front|] == sec && all[|front|] == f;
    assert forall k :: 0 <= k < |front| ==> secs[k] == front[k] && all[k] == files[k];
  }

  lemma FilesKeptInSection(lines: seq<string>, s: State, t: State, line: string)
    requires FilesKept(lines, s) && s.cur.Some? && !IsHeader(line)
    requires t.files == s.files && t.cur.Some? && ReadLine(s.cur.value, line, t.cur.value)
    ensures FilesKept(lines + [line], t)
  {
    hide Sectioned, FileOf, IsSection, ReadLine, FilesOf;
    var pre, secs :| Sectioned(lines, pre, secs) && FilesOf(secs, Opened(s));
    AsManyFiles(secs, Opened(s));
    var n := |secs| - 1;
    var front, sec := secs[..n], secs[n];
    assert secs == front + [sec];
    SectionsAreSections(lines, pre, secs);
    FilesOfFront(front, sec, s.files, s.cur.value);
    SectionGrows(sec, s.cur.value, line, t.cur.value);
    LongerSection(lines, pre, front, sec, line);
    OneMoreFileOf(front, s.files, sec + [line], t.cur.value);
  }

  lemma FilesKeptBeforeHeader(lines: seq<string>, s: State, t: State, line: string)
    requires FilesKept(lines, s) && Opened(s) == [] && Opened(t) == [] && !IsHeader(line)
    ensures FilesKept(lines + [line], t)
  {
    var pre, secs :| Sectioned(lines, pre, secs) && FilesOf(secs, Opened(s));
    hide Sectioned;
    assert secs == [];
    LongerPre(lines, pre, line);
  }

  lemma FilesStayKept(lines: seq<string>, s: State, line: string)
    requires FilesKept(lines, s) && (s.cur.None? ==> s.files == [])
    ensures FilesKept(lines + [line], Feed(s, line))
  {
    hide FilesKept, Feed, FeedsText, ReadLine;
    if IsHeader(line) {
      FilesKeptAtHeader(lines, s, line);
    } else {
      FedLine(s, line);
      if s.cur.None? {
        FilesKeptBeforeHeader(lines, s, Feed(s, line), line);
      } else {
        FilesKeptInSection(lines, s, Feed(s, line), line);
      }
    }
  }

  lemma NothingRead()
    ensures TextKept([], INITIAL) && FilesKept([], INITIAL)
  {
    var nothing: seq<string>, none: seq<seq<string>> := [], [];
    ConcatenatesNothing<string>();
    ConcatenatesMore(nothing, none, nothing);
    assert nothing + nothing == nothing && none + [nothing] == [nothing] + none;
    assert Opened(INITIAL) == [];
    assert Sectioned(nothing, nothing, none) && FilesOf(none, Opened(INITIAL));
  }

  lemma {:induction false} AllKept(lines: seq<string>)
    ensures TextKept(Map(Chomp, lines), FeedAll(INITIAL, lines)) && FilesKept(Map(Chomp, lines), FeedAll(INITIAL, lines))
  {
    if lines == [] {
      assert Map(Chomp, lines) == [] && FeedAll(INITIAL, lines) == INITIAL;
      hide TextKept, FilesKept;
      NothingRead();
    } else {
      hide FeedAll, FilesKept, Chomp;
      var front, line := lines[..|lines| - 1], lines[|lines| - 1];
      AllKept(front);
      assert lines == front + [line];
      MapConcat(Chomp, front, [line]);
      assert Map(Chomp, [line]) == [Chomp(line)];
      FeedConcat(INITIAL, front, [line]);
      FeedOne(FeedAll(INITIAL, front), line);
      TextStaysKept(Map(Chomp, front), FeedAll(INITIAL, front), Chomp(line));
      FilesStayKept(Map(Chomp, front), FeedAll(INITIAL, front), Chomp(line));
    }
  }

  /** At the end the open file is closed with its last hunk. */
  lemma LastFileCloses(s: State)
    requires s.cur.None? ==> s.files == []
    ensures Close(Flush(s)).files == Opened(Flush(s)) && (s.cur.None? ==> Opened(Flush(s)) == [])
  {
  }

  lemma ParsedFiles(raw: string)
    requires Parse(raw).Parsed?
    ensures Parse(raw).files == Close(Flush(FeedAll(INITIAL, SplitLines(raw)))).files
  {
  }

  lemma NoHeaderNoFile(lines: seq<string>, s: State)
    requires TextKept(lines, s)
    ensures s.cur.None? ==> s.files == []
  {
  }

  lemma FilesClosed(lines: seq<string>, s: State)
    requires FilesKept(lines, s) && (s.cur.None? ==> s.files == [])
    ensures exists pre, secs :: Sectioned(lines, pre, secs) && FilesOf(secs, Close(Flush(s)).files)
  {
    LastFileCloses(s);
    var pre, secs :| Sectioned(lines, pre, secs) && FilesOf(secs, Opened(s));
    FlushKeepsFiles(secs, s);
  }

  lemma TextClosed(lines: seq<string>, s: State)
    requires TextKept(lines, s)
    ensures TextOf(Close(Flush(s)).files) == if HasHeader(lines) then KeptText(lines) else ""
  {
    hide HasHeader, KeptText, IsOpen;
    LastFileCloses(s);
    FlushKeepsText(s);
    assert TextOf([]) == "";
  }

  /**
   Any text that is parsed at all leaves one file per header, named and counted by its own section,
   and, once there is a header, hunks that are exactly the hunk lines in order: lines before the
   first header are not lost but stand in the first file's hunks.
   */
  lemma ParsedTextIsKept(raw: string)
    requires Parse(raw).Parsed?
    ensures var lines, files := Map(Chomp, SplitLines(raw)), Parse(raw).files;
            && (exists pre, secs :: Sectioned(lines, pre, secs) && FilesOf(secs, files))
            && TextOf(files) == if HasHeader(lines) then KeptText(lines) else ""
  {
    hide *;
    var lines := SplitLines(raw);
    var s := FeedAll(INITIAL, lines);
    ParsedFiles(raw);
    AllKept(lines);
    NoHeaderNoFile(Map(Chomp, lines), s);
    FilesClosed(Map(Chomp, lines), s);
    TextClosed(Map(Chomp, lines), s);
  }
}
