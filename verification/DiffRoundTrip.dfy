/**
 Printing changed files in git's patch format and parsing them back (internal/review/diff.go):
 exactly which patches survive the round trip.
 */
module DiffRoundTrip {
  import opened DiffParser
  import opened Options
  import opened Sequences

  // ---- the printer ----

  datatype BodyLine = Context(text: string) | Added(text: string) | Removed(text: string) | NoNewlineAtEnd

  datatype Hunk = Hunk(header: string, body: seq<BodyLine>)

  /**
   The two name lines of a textual change: a missing side is printed as `/dev/null`, and git ends
   the new name with a tab when it holds a space. Binary changes, pure renames and mode changes have none.
   */
  datatype Names = NoNames | Names(oldSide: bool, newSide: bool, tab: bool)

  datatype Patch = Patch(oldPath: string, newPath: string, extended: seq<string>, names: Names, hunks: seq<Hunk>)

  const NO_NEWLINE := "\\ No newline at end of file"

  function PrintBodyLine(b: BodyLine): string {
    match b
    case Context(text) => " " + text
    case Added(text) => "+" + text
    case Removed(text) => "-" + text
    case NoNewlineAtEnd => NO_NEWLINE
  }

  function PrintBody(body: seq<BodyLine>): seq<string> {
    if body == [] then [] else [PrintBodyLine(body[0])] + PrintBody(body[1..])
  }

  function PrintHunks(hunks: seq<Hunk>): seq<string> {
    if hunks == [] then [] else [hunks[0].header] + PrintBody(hunks[0].body) + PrintHunks(hunks[1..])
  }

  function PrintNames(p: Patch): seq<string> {
    if p.names.NoNames? then []
    else [if p.names.oldSide then "--- a/" + p.oldPath else "--- /dev/null",
          if p.names.newSide then NEW_NAME + p.newPath + (if p.names.tab then "\t" else "") else "+++ /dev/null"]
  }

  function FirstLineOf(p: Patch): string {
    FILE_HEADER + "a/" + p.oldPath + " b/" + p.newPath
  }

  function PrintPatch(p: Patch): seq<string> {
    [FirstLineOf(p)] + p.extended + PrintNames(p) + PrintHunks(p.hunks)
  }

  function PrintAll(patches: seq<Patch>): seq<string> {
    if patches == [] then [] else PrintPatch(patches[0]) + PrintAll(patches[1..])
  }

  /** A line that is no header the parser knows and no body line. */
  predicate Inert(line: string) {
    !(FILE_HEADER <= line) && !(NEW_NAME <= line) && !("@@" <= line) && ("+" <= line ==> "+++" <= line) && ("-" <= line ==> "---" <= line)
  }

  /** What git prints: hunks begin with `@@`, extended headers are words. */
  ghost predicate WellFormed(p: Patch) {
    && (forall line :: line in p.extended ==> Inert(line) && Inert(Chomp(line)))
    && (forall h :: h in p.hunks ==> "@@" <= h.header)
  }

  /** What the patch says: its new path, its hunks' text and its counts. */
  function HunkText(h: Hunk): string {
    h.header + "\n" + Unlines(PrintBody(h.body))
  }

  function CountAdded(body: seq<BodyLine>): nat {
    if body == [] then 0 else (if body[0].Added? then 1 else 0) + CountAdded(body[1..])
  }

  function CountRemoved(body: seq<BodyLine>): nat {
    if body == [] then 0 else (if body[0].Removed? then 1 else 0) + CountRemoved(body[1..])
  }

  function AddedIn(hunks: seq<Hunk>): nat {
    if hunks == [] then 0 else CountAdded(hunks[0].body) + AddedIn(hunks[1..])
  }

  function RemovedIn(hunks: seq<Hunk>): nat {
    if hunks == [] then 0 else CountRemoved(hunks[0].body) + RemovedIn(hunks[1..])
  }

  function Meaning(p: Patch): ChangedFile {
    ChangedFile(p.newPath, Map(HunkText, p.hunks), AddedIn(p.hunks), RemovedIn(p.hunks))
  }

  // ---- which patches survive ----

  predicate LineSurvives(b: BodyLine) {
    && !EndsInReturn(PrintBodyLine(b))
    && (b.Added? ==> !("++" <= b.text))
    && (b.Removed? ==> !("--" <= b.text))
  }

  predicate HunkSurvives(h: Hunk) {
    !EndsInReturn(h.header) && forall b :: b in h.body ==> LineSurvives(b)
  }

  /** The new name line carries the path exactly; without one, the first line does when the old path has no space. */
  predicate PathSurvives(p: Patch) {
    && !EndsInReturn(p.newPath)
    && if p.names.Names? && p.names.newSide then !p.names.tab else ' ' !in p.oldPath
  }

  predicate Survives(p: Patch) {
    PathSurvives(p) && forall h :: h in p.hunks ==> HunkSurvives(h)
  }

  // ---- what the parser makes of a patch ----

  function ParsedBodyLine(b: BodyLine): string {
    var line := Chomp(PrintBodyLine(b));
    if NEW_NAME <= line then "" else line + "\n"
  }

  function ParsedBody(body: seq<BodyLine>): string {
    if body == [] then "" else ParsedBodyLine(body[0]) + ParsedBody(body[1..])
  }

  function BodyPath(path: string, body: seq<BodyLine>): string
    decreases |body|
  {
    if body == [] then path
    else
      var line := Chomp(PrintBodyLine(body[0]));
      BodyPath(if NEW_NAME <= line then TrimPrefix(line, NEW_NAME) else path, body[1..])
  }

  function SeenAdded(body: seq<BodyLine>): nat {
    if body == [] then 0 else (if body[0].Added? && !("++" <= body[0].text) then 1 else 0) + SeenAdded(body[1..])
  }

  function SeenRemoved(body: seq<BodyLine>): nat {
    if body == [] then 0 else (if body[0].Removed? && !("--" <= body[0].text) then 1 else 0) + SeenRemoved(body[1..])
  }

  function AfterBody(f: ChangedFile, body: seq<BodyLine>): ChangedFile {
    f.(path := BodyPath(f.path, body), added := f.added + SeenAdded(body), removed := f.removed + SeenRemoved(body))
  }

  function ParsedHunkText(h: Hunk): string {
    Chomp(h.header) + "\n" + ParsedBody(h.body)
  }

  function AfterHunk(f: ChangedFile, h: Hunk): ChangedFile {
    AfterBody(f, h.body).(hunks := f.hunks + [ParsedHunkText(h)])
  }

  function AfterHunks(f: ChangedFile, hunks: seq<Hunk>): ChangedFile
    decreases |hunks|
  {
    if hunks == [] then f else AfterHunks(AfterHunk(f, hunks[0]), hunks[1..])
  }

  function PathBeforeHunks(p: Patch): string {
    if p.names.Names? && p.names.newSide then TrimPrefix(Chomp(PrintNames(p)[1]), NEW_NAME)
    else HeaderPath(Chomp(FirstLineOf(p)))
  }

  function ParsedPatch(p: Patch): ChangedFile {
    AfterHunks(ChangedFile(PathBeforeHunks(p), [], 0, 0), p.hunks)
  }

  // ---- the parser on one patch ----

  lemma {:induction false} FeedConcat(s: State, a: seq<string>, b: seq<string>)
    ensures FeedAll(s, a + b) == FeedAll(FeedAll(s, a), b)
    decreases |a|
  {
    if a == [] {
      assert a + b == b;
    } else {
      assert (a + b)[1..] == a[1..] + b;
      FeedConcat(Feed(s, Chomp(a[0])), a[1..], b);
    }
  }

  lemma FeedOne(s: State, line: string)
    ensures FeedAll(s, [line]) == Feed(s, Chomp(line))
  {
    assert [line][1..] == [];
    assert FeedAll(Feed(s, Chomp(line)), []) == Feed(s, Chomp(line));
  }

  /** Dropping a carriage return changes no prefix that does not end in one. */
  lemma ChompKeepsPrefix(prefix: string, line: string)
    requires !EndsInReturn(prefix)
    ensures prefix <= line <==> prefix <= Chomp(line)
  {
    if prefix <= line && EndsInReturn(line) {
      assert |prefix| == |line| ==> prefix == line;
    }
  }

  lemma {:induction false} InertLinesAreIgnored(s: State, lines: seq<string>)
    requires s.hunkBuf == "" && forall line :: line in lines ==> Inert(Chomp(line))
    ensures FeedAll(s, lines) == s
    decreases |lines|
  {
    if lines == [] {
    } else {
      assert lines[0] in lines;
      InertLinesAreIgnored(s, lines[1..]);
    }
  }

  lemma BodyPrefixes(b: BodyLine)
    ensures "+" <= PrintBodyLine(b) <==> b.Added?
    ensures "-" <= PrintBodyLine(b) <==> b.Removed?
    ensures b.Added? ==> ("+++" <= PrintBodyLine(b) <==> "++" <= b.text)
    ensures b.Removed? ==> ("---" <= PrintBodyLine(b) <==> "--" <= b.text)
    ensures NEW_NAME <= PrintBodyLine(b) ==> b.Added? && "++" <= b.text
  {
    var line := PrintBodyLine(b);
    assert line[0] == (match b case Context(_) => ' ' case Added(_) => '+' case Removed(_) => '-' case NoNewlineAtEnd => '\\');
    assert "+" <= line <==> line[0] == '+';
    assert "-" <= line <==> line[0] == '-';
    if b.Added? || b.Removed? {
      assert line[1..] == b.text;
      assert "+++"[1..] == "++" && "---"[1..] == "--";
    }
    if NEW_NAME <= line {
      assert line[0] == '+' && line[1] == '+' && line[2] == '+';
    }
  }

  /** Which cases of the parser a body line can take. */
  lemma BodyLineCases(b: BodyLine)
    ensures var line := Chomp(PrintBodyLine(b));
            && !(FILE_HEADER <= line) && !("@@" <= line)
            && ("+" <= line <==> b.Added?) && ("-" <= line <==> b.Removed?)
            && (b.Added? ==> ("+++" <= line <==> "++" <= b.text))
            && (b.Removed? ==> ("---" <= line <==> "--" <= b.text))
            && (NEW_NAME <= line ==> b.Added? && "++" <= b.text)
  {
    var line := PrintBodyLine(b);
    ChompKeepsPrefix(FILE_HEADER, line);
    ChompKeepsPrefix(NEW_NAME, line);
    ChompKeepsPrefix("@@", line);
    ChompKeepsPrefix("+", line);
    ChompKeepsPrefix("+++", line);
    ChompKeepsPrefix("-", line);
    ChompKeepsPrefix("---", line);
    assert line[0] == (match b case Context(_) => ' ' case Added(_) => '+' case Removed(_) => '-' case NoNewlineAtEnd => '\\');
    assert !(FILE_HEADER <= line) && !("@@" <= line);
    BodyPrefixes(b);
  }

  lemma OneLineBody(f: ChangedFile, b: BodyLine)
    ensures var line := Chomp(PrintBodyLine(b));
            AfterBody(f, [b]) ==
            f.(path := if NEW_NAME <= line then TrimPrefix(line, NEW_NAME) else f.path,
               added := f.added + if b.Added? && !("++" <= b.text) then 1 else 0,
               removed := f.removed + if b.Removed? && !("--" <= b.text) then 1 else 0)
  {
    hide PrintBodyLine, Chomp, TrimPrefix;
    var line := Chomp(PrintBodyLine(b));
    var path := if NEW_NAME <= line then TrimPrefix(line, NEW_NAME) else f.path;
    assert [b][1..] == [];
    assert BodyPath(f.path, [b]) == BodyPath(path, []) == path;
    assert SeenAdded([b]) == (if b.Added? && !("++" <= b.text) then 1 else 0) + SeenAdded([]);
    assert SeenRemoved([b]) == (if b.Removed? && !("--" <= b.text) then 1 else 0) + SeenRemoved([]);
  }

  /** One body line: appended to the open hunk and counted, unless it looks like a name line. */
  lemma BodyLineFed(s: State, b: BodyLine)
    requires s.cur.Some? && s.hunkBuf != ""
    ensures Feed(s, Chomp(PrintBodyLine(b))) ==
            s.(cur := Some(AfterBody(s.cur.value, [b])), hunkBuf := s.hunkBuf + ParsedBodyLine(b))
  {
    BodyLineCases(b);
    OneLineBody(s.cur.value, b);
    hide Chomp, PrintBodyLine, AfterBody, TrimPrefix;
    assert s.hunkBuf + Chomp(PrintBodyLine(b)) + "\n" == s.hunkBuf + (Chomp(PrintBodyLine(b)) + "\n");
  }

  lemma AfterBodySplits(f: ChangedFile, b: BodyLine, rest: seq<BodyLine>)
    ensures AfterBody(f, [b] + rest) == AfterBody(AfterBody(f, [b]), rest)
  {
    hide PrintBodyLine, Chomp, TrimPrefix;
    var body := [b] + rest;
    assert body[0] == b && body[1..] == rest;
    OneLineBody(f, b);
  }

  lemma {:induction false} BodyFed(s: State, body: seq<BodyLine>)
    requires s.cur.Some? && s.hunkBuf != ""
    ensures FeedAll(s, PrintBody(body)) == s.(cur := Some(AfterBody(s.cur.value, body)), hunkBuf := s.hunkBuf + ParsedBody(body))
    decreases |body|
  {
    hide Feed, PrintBodyLine, ParsedBodyLine, Chomp;
    if body == [] {
      assert s.hunkBuf + "" == s.hunkBuf;
    } else {
      var b, rest := body[0], body[1..];
      assert body == [b] + rest;
      var lines := PrintBody(body);
      assert lines[0] == PrintBodyLine(b) && lines[1..] == PrintBody(rest);
      BodyLineFed(s, b);
      BodyFed(Feed(s, Chomp(lines[0])), rest);
      AfterBodySplits(s.cur.value, b, rest);
      assert s.hunkBuf + ParsedBodyLine(b) + ParsedBody(rest) == s.hunkBuf + (ParsedBodyLine(b) + ParsedBody(rest));
    }
  }

  lemma HeaderFed(s: State, header: string)
    requires "@@" <= header
    ensures Feed(s, Chomp(header)) == Flush(s).(hunkBuf := Flush(s).hunkBuf + Chomp(header) + "\n")
  {
    ChompKeepsPrefix("@@", header);
    var line := Chomp(header);
    assert line[0] == '@';
    assert FILE_HEADER[0] == 'd' && NEW_NAME[0] == '+';
  }

  /** A hunk closes the one before it and stays open itself. */
  lemma HunkFed(s: State, h: Hunk)
    requires s.cur.Some? && "@@" <= h.header
    ensures var t := FeedAll(s, [h.header] + PrintBody(h.body));
            t.cur.Some? && Flush(t) == State(s.files, Some(AfterHunk(Flush(s).cur.value, h)), "")
  {
    hide Feed, Chomp, PrintBody;
    var lines := [h.header] + PrintBody(h.body);
    assert lines[0] == h.header && lines[1..] == PrintBody(h.body);
    HeaderFed(s, h.header);
    var begun := Feed(s, Chomp(h.header));
    assert Flush(s).hunkBuf == "" && "" + Chomp(h.header) + "\n" == Chomp(h.header) + "\n";
    BodyFed(begun, h.body);
    assert begun.cur == Flush(s).cur;
  }

  lemma {:induction false} HunksFed(s: State, hunks: seq<Hunk>)
    requires s.cur.Some? && forall h :: h in hunks ==> "@@" <= h.header
    ensures var t := FeedAll(s, PrintHunks(hunks));
            t.cur.Some? && Flush(t) == State(s.files, Some(AfterHunks(Flush(s).cur.value, hunks)), "")
    decreases |hunks|
  {
    if hunks == [] {
    } else {
      hide AfterHunk, Feed, PrintBody;
      var h, rest := hunks[0], hunks[1..];
      var first := [h.header] + PrintBody(h.body);
      assert h in hunks;
      HunkFed(s, h);
      FeedConcat(s, first, PrintHunks(rest));
      HunksFed(FeedAll(s, first), rest);
    }
  }

  /** Between patches nothing is pending unless a file is open. */
  ghost predicate Tidy(s: State) {
    s.cur.None? ==> s.hunkBuf == ""
  }

  lemma FirstLineFed(s: State, p: Patch)
    requires Tidy(s)
    ensures Feed(s, Chomp(FirstLineOf(p))) ==
            State(Close(Flush(s)).files, Some(ChangedFile(HeaderPath(Chomp(FirstLineOf(p))), [], 0, 0)), "")
  {
    hide HeaderPath;
    var line := FirstLineOf(p);
    assert line == FILE_HEADER + ("a/" + p.oldPath + " b/" + p.newPath);
    ChompKeepsPrefix(FILE_HEADER, line);
  }

  lemma OldNameIsInert(s: State, line: string, p: Patch)
    requires s.hunkBuf == "" && line in {"--- a/" + p.oldPath, "--- /dev/null"}
    ensures Feed(s, Chomp(line)) == s
  {
    ChompKeepsPrefix("---", line);
    assert line[0] == '-' && line[1] == '-' && line[2] == '-';
    assert "---" <= line;
    assert Chomp(line)[0] == '-';
  }

  lemma NewNameFed(s: State, line: string)
    requires s.cur.Some? && NEW_NAME <= line
    ensures Feed(s, Chomp(line)) == s.(cur := Some(s.cur.value.(path := TrimPrefix(Chomp(line), NEW_NAME))))
  {
    ChompKeepsPrefix(NEW_NAME, line);
    assert Chomp(line)[0] == '+' && FILE_HEADER[0] == 'd';
  }

  lemma NoNewNameFed(s: State, line: string)
    requires s.hunkBuf == "" && line == "+++ /dev/null"
    ensures Feed(s, Chomp(line)) == s
  {
    assert line[|line| - 1] == 'l' && line[4] == '/' && NEW_NAME[4] == 'b' && line[0] == '+';
    assert "+++" <= line;
  }

  /** The name lines set the path when there is a new side, and are ignored otherwise. */
  lemma NamesFed(s: State, p: Patch)
    requires s.hunkBuf == "" && s.cur.Some?
    ensures FeedAll(s, PrintNames(p)) ==
            if p.names.Names? && p.names.newSide
            then s.(cur := Some(s.cur.value.(path := TrimPrefix(Chomp(PrintNames(p)[1]), NEW_NAME))))
            else s
  {
    if p.names.Names? {
      var oldName, newName := PrintNames(p)[0], PrintNames(p)[1];
      OldNameIsInert(s, oldName, p);
      assert PrintNames(p) == [oldName] + [newName];
      FeedConcat(s, [oldName], [newName]);
      FeedOne(s, oldName);
      FeedOne(s, newName);
      hide Feed, Chomp;
      if p.names.newSide {
        NewNameFed(s, newName);
      } else {
        NoNewNameFed(s, newName);
      }
    }
  }

  /** A patch closes the file before it and leaves its own open. */
  lemma PatchFed(s: State, p: Patch)
    requires Tidy(s) && WellFormed(p)
    ensures var t := FeedAll(s, PrintPatch(p));
            t.cur.Some? && Flush(t) == State(Close(Flush(s)).files, Some(ParsedPatch(p)), "")
  {
    var first, names, hunks := FirstLineOf(p), PrintNames(p), PrintHunks(p.hunks);
    var s0 := FeedAll(s, [first]);
    FeedOne(s, first);
    FirstLineFed(s, p);
    InertLinesAreIgnored(s0, p.extended);
    NamesFed(s0, p);
    var s1 := FeedAll(s0, names);
    hide Feed, FirstLineOf, PrintNames, PrintHunks, HeaderPath, AfterHunks, Chomp;
    FeedConcat(s, [first], p.extended);
    FeedConcat(s, [first] + p.extended, names);
    FeedConcat(s, [first] + p.extended + names, hunks);
    HunksFed(s1, p.hunks);
    assert s1.cur == Some(ChangedFile(PathBeforeHunks(p), [], 0, 0));
  }

  ghost function FilesAfter(s: State, lines: seq<string>): seq<ChangedFile> {
    Close(Flush(FeedAll(s, lines))).files
  }

  lemma PatchStep(s: State, p: Patch, rest: seq<string>) returns (t: State)
    requires Tidy(s) && WellFormed(p)
    ensures Tidy(t) && FilesAfter(s, PrintPatch(p) + rest) == FilesAfter(t, rest)
    ensures FilesAfter(t, []) == FilesAfter(s, []) + [ParsedPatch(p)]
  {
    hide Feed, PrintPatch, WellFormed, ParsedPatch;
    t := FeedAll(s, PrintPatch(p));
    PatchFed(s, p);
    FeedConcat(s, PrintPatch(p), rest);
  }

  lemma MapFirst<T, U>(f: T -> U, s: seq<T>)
    requires s != []
    ensures Map(f, s) == [f(s[0])] + Map(f, s[1..])
  {
  }

  lemma Regroup<T>(a: seq<T>, x: T, b: seq<T>)
    ensures a + [x] + b == a + ([x] + b)
  {
  }

  /** Every patch becomes one file, in order. */
  lemma {:induction false} PatchesFed(s: State, patches: seq<Patch>)
    requires Tidy(s) && forall p :: p in patches ==> WellFormed(p)
    ensures FilesAfter(s, PrintAll(patches)) == FilesAfter(s, []) + Map(ParsedPatch, patches)
    decreases |patches|
  {
    hide WellFormed, ParsedPatch, PrintPatch, FilesAfter, Tidy;
    if patches == [] {
      assert Map(ParsedPatch, patches) == [];
    } else {
      hide Map;
      var p, rest := patches[0], patches[1..];
      assert p in patches;
      var t := PatchStep(s, p, PrintAll(rest));
      PatchesFed(t, rest);
      MapFirst(ParsedPatch, patches);
      Regroup(FilesAfter(s, []), ParsedPatch(p), Map(ParsedPatch, rest));
    }
  }

  // ---- counts ----

  /** Every added and removed line of the body is counted as one. */
  predicate Counted(body: seq<BodyLine>) {
    forall b :: b in body ==> (b.Added? ==> !("++" <= b.text)) && (b.Removed? ==> !("--" <= b.text))
  }

  lemma {:induction false} BodyCountsIff(body: seq<BodyLine>)
    ensures SeenAdded(body) <= CountAdded(body) && SeenRemoved(body) <= CountRemoved(body)
    ensures SeenAdded(body) == CountAdded(body) && SeenRemoved(body) == CountRemoved(body) <==> Counted(body)
  {
    if body == [] {
    } else {
      BodyCountsIff(body[1..]);
      assert body == [body[0]] + body[1..];
    }
  }

  function SeenAddedIn(hunks: seq<Hunk>): nat {
    if hunks == [] then 0 else SeenAdded(hunks[0].body) + SeenAddedIn(hunks[1..])
  }

  function SeenRemovedIn(hunks: seq<Hunk>): nat {
    if hunks == [] then 0 else SeenRemoved(hunks[0].body) + SeenRemovedIn(hunks[1..])
  }

  predicate AllCounted(hunks: seq<Hunk>) {
    forall h :: h in hunks ==> Counted(h.body)
  }

  lemma {:induction false} CountsIff(hunks: seq<Hunk>)
    ensures SeenAddedIn(hunks) <= AddedIn(hunks) && SeenRemovedIn(hunks) <= RemovedIn(hunks)
    ensures SeenAddedIn(hunks) == AddedIn(hunks) && SeenRemovedIn(hunks) == RemovedIn(hunks) <==>
            AllCounted(hunks)
  {
    hide Counted;
    if hunks == [] {
    } else {
      CountsIff(hunks[1..]);
      BodyCountsIff(hunks[0].body);
      assert hunks == [hunks[0]] + hunks[1..];
    }
  }

  // ---- texts ----

  lemma {:induction false} BodyTextIff(body: seq<BodyLine>)
    requires Counted(body)
    ensures |ParsedBody(body)| <= |Unlines(PrintBody(body))|
    ensures |ParsedBody(body)| == |Unlines(PrintBody(body))| <==> forall b :: b in body ==> !EndsInReturn(PrintBodyLine(b))
    ensures |ParsedBody(body)| == |Unlines(PrintBody(body))| ==> ParsedBody(body) == Unlines(PrintBody(body))
  {
    if body == [] {
    } else {
      var b, rest := body[0], body[1..];
      assert body == [b] + rest && b in body;
      BodyTextIff(rest);
      BodyPrefixes(b);
      ChompKeepsPrefix(NEW_NAME, PrintBodyLine(b));
      var lines := PrintBody(body);
      assert lines[0] == PrintBodyLine(b) && lines[1..] == PrintBody(rest);
      hide PrintBodyLine;
      assert ParsedBodyLine(b) == Chomp(PrintBodyLine(b)) + "\n";
    }
  }

  lemma HunkTextIff(h: Hunk)
    requires Counted(h.body)
    ensures ParsedHunkText(h) == HunkText(h) <==> HunkSurvives(h)
  {
    BodyTextIff(h.body);
    hide PrintBodyLine, PrintBody, Unlines, ParsedBody;
    assert |ParsedHunkText(h)| == |Chomp(h.header)| + 1 + |ParsedBody(h.body)|;
    assert |HunkText(h)| == |h.header| + 1 + |Unlines(PrintBody(h.body))|;
  }

  lemma {:induction false} HunkTextsIff(hunks: seq<Hunk>)
    requires AllCounted(hunks)
    ensures Map(ParsedHunkText, hunks) == Map(HunkText, hunks) <==> forall h :: h in hunks ==> HunkSurvives(h)
  {
    hide Counted, HunkSurvives, ParsedHunkText, HunkText;
    forall i | 0 <= i < |hunks|
      ensures ParsedHunkText(hunks[i]) == HunkText(hunks[i]) <==> HunkSurvives(hunks[i])
    {
      assert hunks[i] in hunks;
      HunkTextIff(hunks[i]);
    }
    if Map(ParsedHunkText, hunks) == Map(HunkText, hunks) {
      forall h | h in hunks
        ensures HunkSurvives(h)
      {
        var i :| 0 <= i < |hunks| && hunks[i] == h;
        assert Map(ParsedHunkText, hunks)[i] == Map(HunkText, hunks)[i];
      }
    }
  }

  // ---- what the hunks add ----

  lemma {:induction false} CountedBodyKeepsPath(path: string, body: seq<BodyLine>)
    requires Counted(body)
    ensures BodyPath(path, body) == path
    decreases |body|
  {
    if body == [] {
    } else {
      assert body[0] in body;
      BodyPrefixes(body[0]);
      ChompKeepsPrefix(NEW_NAME, PrintBodyLine(body[0]));
      CountedBodyKeepsPath(path, body[1..]);
    }
  }

  lemma AfterHunkIs(f: ChangedFile, h: Hunk)
    ensures AfterHunk(f, h).hunks == f.hunks + [ParsedHunkText(h)]
    ensures AfterHunk(f, h).added == f.added + SeenAdded(h.body) && AfterHunk(f, h).removed == f.removed + SeenRemoved(h.body)
    ensures Counted(h.body) ==> AfterHunk(f, h).path == f.path
  {
    if Counted(h.body) {
      CountedBodyKeepsPath(f.path, h.body);
    }
  }

  lemma {:induction false} AfterHunksAre(f: ChangedFile, hunks: seq<Hunk>)
    ensures AfterHunks(f, hunks).hunks == f.hunks + Map(ParsedHunkText, hunks)
    ensures AfterHunks(f, hunks).added == f.added + SeenAddedIn(hunks)
    ensures AfterHunks(f, hunks).removed == f.removed + SeenRemovedIn(hunks)
    decreases |hunks|
  {
    hide ParsedHunkText, AfterHunk;
    if hunks == [] {
      assert Map(ParsedHunkText, hunks) == [];
    } else {
      hide Map;
      AfterHunkIs(f, hunks[0]);
      AfterHunksAre(AfterHunk(f, hunks[0]), hunks[1..]);
      MapFirst(ParsedHunkText, hunks);
      Regroup(f.hunks, ParsedHunkText(hunks[0]), Map(ParsedHunkText, hunks[1..]));
    }
  }

  lemma {:induction false} CountedHunksKeepPath(f: ChangedFile, hunks: seq<Hunk>)
    requires AllCounted(hunks)
    ensures AfterHunks(f, hunks).path == f.path
    decreases |hunks|
  {
    hide Counted, AfterHunk;
    if hunks == [] {
    } else {
      assert hunks[0] in hunks;
      AfterHunkIs(f, hunks[0]);
      CountedHunksKeepPath(AfterHunk(f, hunks[0]), hunks[1..]);
    }
  }

  // ---- paths ----

  lemma {:induction false} SkipWord(word: string, s: string, n: nat)
    requires ' ' !in word
    ensures AfterSpaces(word + " " + s, n + 1) == AfterSpaces(s, n)
  {
    var line := word + " " + s;
    if word == "" {
      assert line[1..] == s;
    } else {
      assert line[1..] == word[1..] + " " + s;
      SkipWord(word[1..], s, n);
    }
  }

  lemma {:induction false} FirstSpace(s: string) returns (n: nat)
    requires ' ' in s
    ensures n < |s| && s[n] == ' ' && ' ' !in s[..n]
  {
    if s[0] == ' ' {
      n := 0;
    } else {
      assert s == [s[0]] + s[1..];
      var m := FirstSpace(s[1..]);
      n := m + 1;
      assert s[..n] == [s[0]] + s[1..][..m];
    }
  }

  lemma ChompOfTail(a: string, b: string)
    requires !EndsInReturn(a)
    ensures Chomp(a + b) == a + Chomp(b)
  {
    if b == "" {
      assert a + b == a;
    }
  }

  /** The names in the first line, a carriage return at its end dropped. */
  function NamesInFirstLine(p: Patch): string {
    "a/" + p.oldPath + " " + ("b/" + Chomp(p.newPath))
  }

  lemma FirstLineWords(p: Patch)
    ensures Chomp(FirstLineOf(p)) == "diff" + " " + ("--git" + " " + NamesInFirstLine(p))
  {
    var front := FILE_HEADER + "a/" + p.oldPath + " b/";
    assert FirstLineOf(p) == front + p.newPath;
    assert front[|front| - 1] == '/';
    ChompOfTail(front, p.newPath);
    hide Chomp;
    assert FILE_HEADER == "diff" + " " + "--git" + " ";
  }

  lemma AfterGitWords(names: string)
    ensures AfterSpaces("diff" + " " + ("--git" + " " + names), 3) == AfterSpaces(names, 1)
  {
    SkipWord("diff", "--git" + " " + names, 2);
    SkipWord("--git", names, 1);
  }

  lemma LongTail(rest: string, tail: string)
    ensures |TrimPrefix(rest + " " + tail, "b/")| > |tail|
  {
    var s := rest + " " + tail;
    if |rest| == 0 {
      assert s[0] == ' ';
    }
    if |rest| == 1 {
      assert s[1] == ' ';
    }
  }

  lemma SecondName(before: string, tail: string)
    ensures ' ' !in before ==> AfterSpaces("a/" + before + " " + tail, 1) == Some(tail)
    ensures ' ' in before ==>
              AfterSpaces("a/" + before + " " + tail, 1).Some? &&
              |TrimPrefix(AfterSpaces("a/" + before + " " + tail, 1).value, "b/")| > |tail|
  {
    if ' ' in before {
      var n := FirstSpace(before);
      var rest := before[n + 1..];
      assert "a/" + before + " " + tail == ("a/" + before[..n]) + " " + (rest + " " + tail);
      SkipWord("a/" + before[..n], rest + " " + tail, 0);
      LongTail(rest, tail);
    } else {
      SkipWord("a/" + before, tail, 0);
    }
  }

  /** The path read from the first line, for any old and new name. */
  lemma HeaderPathIs(p: Patch)
    ensures ' ' !in p.oldPath ==> HeaderPath(Chomp(FirstLineOf(p))) == Chomp(p.newPath)
    ensures ' ' in p.oldPath ==> |HeaderPath(Chomp(FirstLineOf(p)))| > |p.newPath|
  {
    var tail := "b/" + Chomp(p.newPath);
    FirstLineWords(p);
    AfterGitWords(NamesInFirstLine(p));
    SecondName(p.oldPath, tail);
    hide FirstLineOf, AfterSpaces;
    assert TrimPrefix(tail, "b/") == Chomp(p.newPath);
  }

  lemma PathIff(p: Patch)
    ensures PathBeforeHunks(p) == p.newPath <==> PathSurvives(p)
  {
    if p.names.Names? && p.names.newSide {
      var name := p.newPath + (if p.names.tab then "\t" else "");
      assert PrintNames(p)[1] == NEW_NAME + name;
      assert NEW_NAME[|NEW_NAME| - 1] == '/';
      ChompOfTail(NEW_NAME, name);
      assert TrimPrefix(NEW_NAME + Chomp(name), NEW_NAME) == Chomp(name);
      if p.names.tab {
        assert name[|name| - 1] == '\t';
      } else {
        assert name == p.newPath;
      }
    } else {
      HeaderPathIs(p);
    }
  }

  lemma SurvivorsAreCounted(hunks: seq<Hunk>)
    requires forall h :: h in hunks ==> HunkSurvives(h)
    ensures AllCounted(hunks)
  {
  }

  /** A patch is read back as it was meant exactly when it survives. */
  lemma PatchSurvivesIff(p: Patch)
    ensures ParsedPatch(p) == Meaning(p) <==> Survives(p)
  {
    var start := ChangedFile(PathBeforeHunks(p), [], 0, 0);
    AfterHunksAre(start, p.hunks);
    assert [] + Map(ParsedHunkText, p.hunks) == Map(ParsedHunkText, p.hunks);
    CountsIff(p.hunks);
    hide PathBeforeHunks, PathSurvives, HunkSurvives, AfterHunks, ParsedHunkText, HunkText, AddedIn, RemovedIn, SeenAddedIn, SeenRemovedIn, Map;
    if AllCounted(p.hunks) {
      PathIff(p);
      HunkTextsIff(p.hunks);
      CountedHunksKeepPath(start, p.hunks);
    } else if Survives(p) {
      SurvivorsAreCounted(p.hunks);
    }
  }

  // ---- the round trip ----

  lemma {:induction false} LineEndIs(line: string, rest: string)
    requires '\n' !in line
    ensures LineEnd(line + "\n" + rest) == |line|
  {
    var raw := line + "\n" + rest;
    if line != "" {
      assert raw[1..] == line[1..] + "\n" + rest;
      LineEndIs(line[1..], rest);
    }
  }

  /** Splitting gives back the lines that were printed. */
  lemma {:induction false} SplitUnlines(lines: seq<string>)
    requires forall line :: line in lines ==> '\n' !in line
    ensures SplitLines(Unlines(lines)) == lines
    decreases |lines|
  {
    if lines == [] {
    } else {
      var line, rest := lines[0], lines[1..];
      assert line in lines;
      var raw := Unlines(lines);
      LineEndIs(line, Unlines(rest));
      FirstLine(raw);
      assert raw[..|line|] == line && raw[|line| + 1..] == Unlines(rest);
      SplitUnlines(rest);
    }
  }

  lemma SamePatches(patches: seq<Patch>)
    ensures Map(ParsedPatch, patches) == Map(Meaning, patches) <==> forall p :: p in patches ==> Survives(p)
  {
    hide ParsedPatch, Meaning, Survives;
    forall i | 0 <= i < |patches|
      ensures ParsedPatch(patches[i]) == Meaning(patches[i]) <==> Survives(patches[i])
    {
      PatchSurvivesIff(patches[i]);
    }
    if Map(ParsedPatch, patches) == Map(Meaning, patches) {
      forall p | p in patches
        ensures Survives(p)
      {
        var i :| 0 <= i < |patches| && patches[i] == p;
        assert Map(ParsedPatch, patches)[i] == Map(Meaning, patches)[i];
      }
    }
  }

  /**
   Printing any list of patches and parsing the text gives back their paths, hunk texts and counts
   exactly when every line fits the scanner and every patch survives.
   */
  lemma RoundTripIff(patches: seq<Patch>)
    requires forall p :: p in patches ==> WellFormed(p)
    requires forall line :: line in PrintAll(patches) ==> '\n' !in line
    ensures Parse(Unlines(PrintAll(patches))) == Parsed(Map(Meaning, patches)) <==>
            !AnyTooLong(PrintAll(patches)) && forall p :: p in patches ==> Survives(p)
  {
    hide WellFormed, Survives, ParsedPatch, Meaning, AnyTooLong, Feed, PrintPatch, PrintAll, Unlines;
    SplitUnlines(PrintAll(patches));
    PatchesFed(INITIAL, patches);
    assert FilesAfter(INITIAL, []) == [];
    SamePatches(patches);
  }

  // ---- what git prints ----

  /** Git ends the new name with a tab exactly when the name holds a space. */
  predicate GitNames(p: Patch) {
    p.names.Names? && p.names.newSide ==> (p.names.tab <==> ' ' in p.newPath)
  }

  /** A path git prints survives exactly when it ends in no carriage return and the name it is read from holds no space. */
  lemma GitPathSurvivesIff(p: Patch)
    requires GitNames(p)
    ensures PathSurvives(p) <==>
            !EndsInReturn(p.newPath) && ' ' !in if p.names.Names? && p.names.newSide then p.newPath else p.oldPath
  {
  }

  /** The round trip of what git prints. */
  lemma GitRoundTripIff(patches: seq<Patch>)
    requires forall p :: p in patches ==> WellFormed(p) && GitNames(p)
    requires forall line :: line in PrintAll(patches) ==> '\n' !in line
    ensures Parse(Unlines(PrintAll(patches))) == Parsed(Map(Meaning, patches)) <==>
            && !AnyTooLong(PrintAll(patches))
            && forall p :: p in patches ==>
                 && !EndsInReturn(p.newPath) && ' ' !in (if p.names.Names? && p.names.newSide then p.newPath else p.oldPath)
                 && forall h :: h in p.hunks ==> HunkSurvives(h)
  {
    hide Parse, PrintAll, Unlines, Meaning, AnyTooLong, WellFormed, HunkSurvives;
    RoundTripIff(patches);
    forall p | p in patches
      ensures PathSurvives(p) <==>
              !EndsInReturn(p.newPath) && ' ' !in (if p.names.Names? && p.names.newSide then p.newPath else p.oldPath)
    {
      GitPathSurvivesIff(p);
    }
  }

  /** One file with one hunk that adds the line `++i;`. */
  const INCREMENT := Patch("a.c", "a.c", [], Names(true, true, false), [Hunk("@@ -0,0 +1 @@", [Added("++i;")])])

  lemma IncrementLines()
    ensures PrintAll([INCREMENT]) == ["diff --git a/a.c b/a.c", "--- a/a.c", "+++ b/a.c", "@@ -0,0 +1 @@", "+++i;"]
  {
    var h := Hunk("@@ -0,0 +1 @@", [Added("++i;")]);
    assert [INCREMENT][1..] == [] && [h][1..] == [] && h.body[1..] == [];
    assert "+" + "++i;" == "+++i;";
    assert PrintBody(h.body) == [PrintBodyLine(Added("++i;"))] + PrintBody([]) == ["+++i;"];
    assert PrintHunks([h]) == [h.header, "+++i;"];
    assert "--- a/" + "a.c" == "--- a/a.c" && NEW_NAME + "a.c" + "" == "+++ b/a.c";
    assert PrintNames(INCREMENT) == ["--- a/a.c", "+++ b/a.c"];
    assert FirstLineOf(INCREMENT) == "diff --git a/a.c b/a.c";
    assert PrintPatch(INCREMENT) == ["diff --git a/a.c b/a.c", "--- a/a.c", "+++ b/a.c", "@@ -0,0 +1 @@", "+++i;"];
    assert PrintAll([INCREMENT]) == PrintPatch(INCREMENT);
  }

  lemma NoNewlineInFive(a: string, b: string, c: string, d: string, e: string)
    requires '\n' !in a && '\n' !in b && '\n' !in c && '\n' !in d && '\n' !in e
    ensures forall line :: line in [a, b, c, d, e] ==> '\n' !in line
  {
  }

  lemma NoNewlineInIncrement()
    ensures forall line :: line in PrintAll([INCREMENT]) ==> '\n' !in line
  {
    hide PrintAll;
    IncrementLines();
    NoNewlineInFive("diff --git a/a.c b/a.c", "--- a/a.c", "+++ b/a.c", "@@ -0,0 +1 @@", "+++i;");
  }

  lemma DoublePlusIsLost(p: Patch, h: Hunk, text: string)
    requires h in p.hunks && Added(text) in h.body && "++" <= text
    ensures !Survives(p)
  {
    assert !LineSurvives(Added(text)) && !HunkSurvives(h);
  }

  lemma IncrementIsWellFormed()
    ensures WellFormed(INCREMENT)
  {
    assert forall h :: h in INCREMENT.hunks ==> h.header == "@@ -0,0 +1 @@";
    assert "@@" <= "@@ -0,0 +1 @@";
  }

  /** The added line is printed as `+++i;` and not counted. */
  lemma AddedIncrementIsLost()
    ensures WellFormed(INCREMENT) && ParsedPatch(INCREMENT) != Meaning(INCREMENT)
    ensures Parse(Unlines(PrintAll([INCREMENT]))) != Parsed([Meaning(INCREMENT)])
  {
    hide Parse, PrintAll, Unlines, Meaning, ParsedPatch, AnyTooLong, WellFormed, Survives;
    IncrementIsWellFormed();
    NoNewlineInIncrement();
    DoublePlusIsLost(INCREMENT, INCREMENT.hunks[0], "++i;");
    PatchSurvivesIff(INCREMENT);
    RoundTripIff([INCREMENT]);
    assert INCREMENT in [INCREMENT];
    assert Map(Meaning, [INCREMENT]) == [Meaning(INCREMENT)];
  }
}
