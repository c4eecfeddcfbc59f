/**
 The parser of unified diffs (internal/review/diff.go) and the printer it should invert: git's
 patch format, whose hunks follow POSIX.1-2017, diff utility, section "Diff -u or -U Output Format".
 */
module DiffParser {
  import opened Options
  import opened Sequences

  datatype ChangedFile = ChangedFile(path: string, hunks: seq<string>, added: nat, removed: nat)

  datatype ParseResult = Parsed(files: seq<ChangedFile>) | LineTooLong

  /** A scanned line must be shorter than the scanner's buffer, 16 MiB. */
  const MAX_LINE := 16777216

  // ---- lines ----

  predicate EndsInReturn(line: string) {
    line != "" && line[|line| - 1] == '\r'
  }

  /** `bufio.ScanLines` drops one carriage return at the end of a line. */
  function Chomp(line: string): string {
    if EndsInReturn(line) then line[..|line| - 1] else line
  }

  /** Where the first newline stands; the length of the text when there is none. */
  function LineEnd(raw: string): (n: nat)
    ensures n <= |raw| && '\n' !in raw[..n] && (n < |raw| ==> raw[n] == '\n')
  {
    if raw == "" || raw[0] == '\n' then 0
    else
      var n := LineEnd(raw[1..]);
      assert raw[..n + 1] == [raw[0]] + raw[1..][..n];
      n + 1
  }

  function SplitLines(raw: string): seq<string>
    decreases |raw|
  {
    if raw == "" then []
    else
      var n := LineEnd(raw);
      [raw[..n]] + if n < |raw| then SplitLines(raw[n + 1..]) else []
  }

  function Unlines(lines: seq<string>): string {
    if lines == [] then "" else lines[0] + "\n" + Unlines(lines[1..])
  }

  function TrimPrefix(s: string, prefix: string): string {
    if prefix <= s then s[|prefix|..] else s
  }

  /** What follows the `n`-th space. */
  function AfterSpaces(s: string, n: nat): Option<string> {
    if n == 0 then Some(s)
    else if s == "" then None
    else AfterSpaces(s[1..], if s[0] == ' ' then n - 1 else n)
  }

  // ---- the line loop ----

  datatype State = State(files: seq<ChangedFile>, cur: Option<ChangedFile>, hunkBuf: string)

  const FILE_HEADER := "diff --git "
  const NEW_NAME := "+++ b/"

  function HeaderPath(line: string): string {
    var rest := AfterSpaces(line, 3);
    if rest.Some? then TrimPrefix(rest.value, "b/") else ""
  }

  function Flush(s: State): State {
    if s.cur.Some? && s.hunkBuf != ""
    then s.(cur := Some(s.cur.value.(hunks := s.cur.value.hunks + [s.hunkBuf])), hunkBuf := "")
    else s
  }

  function Close(s: State): State {
    if s.cur.Some? then s.(files := s.files + [s.cur.value], cur := None) else s
  }

  /** One turn of the loop. */
  function Feed(s: State, line: string): State {
    if FILE_HEADER <= line then
      Close(Flush(s)).(cur := Some(ChangedFile(HeaderPath(line), [], 0, 0)))
    else if NEW_NAME <= line then
      if s.cur.Some? then s.(cur := Some(s.cur.value.(path := TrimPrefix(line, NEW_NAME)))) else s
    else if "@@" <= line then
      var f := Flush(s);
      f.(hunkBuf := f.hunkBuf + line + "\n")
    else if "+" <= line && !("+++" <= line) then
      s.(cur := if s.cur.Some? then Some(s.cur.value.(added := s.cur.value.added + 1)) else None, hunkBuf := s.hunkBuf + line + "\n")
    else if "-" <= line && !("---" <= line) then
      s.(cur := if s.cur.Some? then Some(s.cur.value.(removed := s.cur.value.removed + 1)) else None, hunkBuf := s.hunkBuf + line + "\n")
    else if s.hunkBuf != "" then
      s.(hunkBuf := s.hunkBuf + line + "\n")
    else s
  }

  function FeedAll(s: State, lines: seq<string>): State
    decreases |lines|
  {
    if lines == [] then s else FeedAll(Feed(s, Chomp(lines[0])), lines[1..])
  }

  const INITIAL := State([], None, "")

  predicate AnyTooLong(lines: seq<string>) {
    exists line :: line in lines && |line| >= MAX_LINE
  }

  function Parse(raw: string): ParseResult {
    if AnyTooLong(SplitLines(raw)) then LineTooLong
    else Parsed(Close(Flush(FeedAll(INITIAL, SplitLines(raw)))).files)
  }

  class Parser {
    var files: seq<ChangedFile>
    var cur: Option<ChangedFile>
    var hunkBuf: string

    ghost function Now(): State
      reads this
    {
      State(files, cur, hunkBuf)
    }

    constructor ()
      ensures Now() == INITIAL
    {
      files, cur, hunkBuf := [], None, "";
    }

    method FlushHunk()
      modifies this
      ensures Now() == Flush(old(Now()))
    {
      if cur.Some? && |hunkBuf| > 0 {
        cur := Some(cur.value.(hunks := cur.value.hunks + [hunkBuf]));
        hunkBuf := "";
      }
    }

    method Line(line: string)
      modifies this
      ensures Now() == Feed(old(Now()), line)
    {
      if FILE_HEADER <= line {
        FlushHunk();
        if cur.Some? {
          files := files + [cur.value];
        }
        cur := Some(ChangedFile(HeaderPath(line), [], 0, 0));
      } else if NEW_NAME <= line {
        if cur.Some? {
          cur := Some(cur.value.(path := TrimPrefix(line, NEW_NAME)));
        }
      } else if "@@" <= line {
        FlushHunk();
        hunkBuf := hunkBuf + line + "\n";
      } else if "+" <= line && !("+++" <= line) {
        if cur.Some? {
          cur := Some(cur.value.(added := cur.value.added + 1));
        }
        hunkBuf := hunkBuf + line + "\n";
      } else if "-" <= line && !("---" <= line) {
        if cur.Some? {
          cur := Some(cur.value.(removed := cur.value.removed + 1));
        }
        hunkBuf := hunkBuf + line + "\n";
      } else if |hunkBuf| > 0 {
        hunkBuf := hunkBuf + line + "\n";
      }
    }
  }

  lemma FirstLine(raw: string)
    requires raw != ""
    ensures var n := LineEnd(raw);
            SplitLines(raw) == [raw[..n]] + SplitLines(if n < |raw| then raw[n + 1..] else "")
  {
  }

  lemma FirstTooLong(line: string, lines: seq<string>)
    ensures AnyTooLong([line] + lines) <==> |line| >= MAX_LINE || AnyTooLong(lines)
  {
    assert line in [line] + lines;
    assert forall x :: x in lines ==> x in [line] + lines;
  }

  lemma NoLines()
    ensures SplitLines("") == [] && !AnyTooLong([])
  {
  }

  /** `ParseDiff`: scan line by line; a line that does not fit the buffer fails the whole parse. */
  method ParseDiff(raw: string) returns (r: ParseResult)
    ensures r == Parse(raw)
  {
    hide Feed, SplitLines, AnyTooLong, Chomp;
    NoLines();
    if raw == "" {
      return Parsed([]);
    }
    var p := new Parser();
    var rest := raw;
    while rest != ""
      invariant FeedAll(INITIAL, SplitLines(raw)) == FeedAll(p.Now(), SplitLines(rest))
      invariant AnyTooLong(SplitLines(raw)) == AnyTooLong(SplitLines(rest))
      decreases |rest|
    {
      var n := LineEnd(rest);
      var after := if n < |rest| then rest[n + 1..] else "";
      FirstLine(rest);
      FirstTooLong(rest[..n], SplitLines(after));
      if n >= MAX_LINE {
        return LineTooLong;
      }
      p.Line(Chomp(rest[..n]));
      rest := after;
    }
    p.FlushHunk();
    if p.cur.Some? {
      p.files := p.files + [p.cur.value];
    }
    r := Parsed(p.files);
  }
}
