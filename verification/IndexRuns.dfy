/**
 One index run as a state machine over its worker steps (internal/analyzer/analyzer.go):
 every discovered file moves through `processFile` in single cache operations, and a schedule
 says which file moves next, so that all interleavings of the worker pool are covered.
 */
module IndexRuns {
  import opened CodeModel

  /** The identities a file's detectors emit. */
  datatype Ids = Ids(nodes: seq<string>, edges: seq<EdgeKey>)

  /** What the cache holds for a content hash: the path it was analysed under and the identities. */
  datatype Row = Row(path: string, ids: Ids)

  /** Content hash -> row; the primary key makes it a map. */
  type Rows = map<string, Row>

  /** The digest and the detectors, which are deterministic. */
  datatype Config = Config(sha: string -> string, detect: (string, string) -> Ids)

  /** path -> content of the discovered files. */
  type Disk = map<string, string>

  ghost predicate Injective(sha: string -> string) {
    forall a, b :: sha(a) == sha(b) ==> a == b
  }

  function HashOf(cfg: Config, disk: Disk, p: string): string
    requires p in disk
  {
    cfg.sha(disk[p])
  }

  function RowFor(cfg: Config, disk: Disk, p: string): Row
    requires p in disk
  {
    Row(p, cfg.detect(p, disk[p]))
  }

  // ---- the machine ----

  /** How far a worker has come with a file. */
  datatype Phase =
    | Waiting               // not read yet
    | Found                 // Has said yes
    | RowRead               // Get has read the file row
    | NodesRead(nodes: seq<string>)  // Get has read the node rows
    | Missed                // no usable row: parse and detect
    | Detected              // emissions handed to the builder
    | Purged                // the path's old row is gone
    | Done(hit: bool)

  datatype Task = Task(phase: Phase, emitted: seq<Ids>)

  datatype State = State(cache: Rows, tasks: map<string, Task>)

  function WithoutPath(cache: Rows, p: string): Rows {
    map h | h in cache && cache[h].path != p :: cache[h]
  }

  function Move(s: State, p: string, phase: Phase): State
    requires p in s.tasks
  {
    s.(tasks := s.tasks[p := s.tasks[p].(phase := phase)])
  }

  function Emit(s: State, p: string, ids: Ids, phase: Phase): State
    requires p in s.tasks
  {
    s.(tasks := s.tasks[p := Task(phase, s.tasks[p].emitted + [ids])])
  }

  /** One cache operation or emission of the worker that has file `p`. */
  function Step(cfg: Config, disk: Disk, force: bool, s: State, p: string): (r: State)
    requires p in disk && s.tasks.Keys == disk.Keys
    ensures r.tasks.Keys == disk.Keys
  {
    var h := HashOf(cfg, disk, p);
    match s.tasks[p].phase
    case Waiting => Move(s, p, if !force && h in s.cache then Found else Missed)
    case Found => Move(s, p, if h in s.cache then RowRead else Missed)
    case RowRead => Move(s, p, NodesRead(if h in s.cache then s.cache[h].ids.nodes else []))
    case NodesRead(nodes) => Emit(s, p, Ids(nodes, if h in s.cache then s.cache[h].ids.edges else []), Done(true))
    case Missed => Emit(s, p, cfg.detect(p, disk[p]), Detected)
    case Detected => Move(s.(cache := WithoutPath(s.cache, p)), p, Purged)
    case Purged => Move(s.(cache := s.cache[h := RowFor(cfg, disk, p)]), p, Done(false))
    case Done(_) => s
  }

  ghost predicate Schedule(disk: Disk, steps: seq<string>) {
    forall k :: 0 <= k < |steps| ==> steps[k] in disk
  }

  function Exec(cfg: Config, disk: Disk, force: bool, s: State, steps: seq<string>): (r: State)
    requires s.tasks.Keys == disk.Keys && forall k :: 0 <= k < |steps| ==> steps[k] in disk
    ensures r.tasks.Keys == disk.Keys
    decreases |steps|
  {
    if steps == [] then s else Exec(cfg, disk, force, Step(cfg, disk, force, s, steps[0]), steps[1..])
  }

  /** A run starts by dropping, unless forced, the rows of vanished paths. */
  function Start(disk: Disk, force: bool, cache: Rows): State {
    State(if force then cache else map h | h in cache && cache[h].path in disk :: cache[h],
          map p | p in disk :: Task(Waiting, []))
  }

  function RunTo(cfg: Config, disk: Disk, force: bool, cache: Rows, steps: seq<string>): State
    requires forall k :: 0 <= k < |steps| ==> steps[k] in disk
  {
    Exec(cfg, disk, force, Start(disk, force, cache), steps)
  }

  ghost predicate AllDone(s: State) {
    forall p :: p in s.tasks ==> s.tasks[p].phase.Done?
  }

  // ---- invariants without any hypothesis ----

  ghost predicate OneRowPerPath(cache: Rows) {
    forall h, k :: h in cache && k in cache && cache[h].path == cache[k].path ==> h == k
  }

  ghost predicate NoRowFor(cache: Rows, p: string) {
    forall h :: h in cache ==> cache[h].path != p
  }

  /** One row per path, and none for a path between its purge and its put. */
  ghost predicate RowsInvariant(s: State) {
    && OneRowPerPath(s.cache)
    && forall p :: p in s.tasks && s.tasks[p].phase.Purged? ==> NoRowFor(s.cache, p)
  }

  /** The file is, or is bound to be, analysed afresh. */
  ghost predicate WillWrite(force: bool, ph: Phase) {
    (ph.Waiting? && force) || ph.Missed? || ph.Detected? || ph.Purged?
  }

  /** A step moves one file only, and touches the cache only to purge its path or to put its row. */
  lemma StepEffect(cfg: Config, disk: Disk, force: bool, s: State, p: string)
    requires p in disk && s.tasks.Keys == disk.Keys
    ensures var s', ph := Step(cfg, disk, force, s, p), s.tasks[p].phase;
            && (forall q :: q in disk && q != p ==> s'.tasks[q] == s.tasks[q])
            && s'.cache == (if ph.Detected? then WithoutPath(s.cache, p)
                            else if ph.Purged? then s.cache[HashOf(cfg, disk, p) := RowFor(cfg, disk, p)]
                            else s.cache)
            && (s'.tasks[p].phase.Purged? <==> ph.Detected?)
            && (WillWrite(force, ph) && !ph.Purged? ==> WillWrite(force, s'.tasks[p].phase))
            && (ph.Purged? ==> s'.tasks[p].phase.Done?)
            && (ph.Done? ==> s' == s)
  {
  }

  lemma StepKeepsRows(cfg: Config, disk: Disk, force: bool, s: State, p: string)
    requires p in disk && s.tasks.Keys == disk.Keys && RowsInvariant(s)
    ensures RowsInvariant(Step(cfg, disk, force, s, p))
  {
    hide Step;
    StepEffect(cfg, disk, force, s, p);
  }

  /** Over any interleaving, complete or broken off, forced or not, the cache keeps one row per path. */
  lemma {:induction false} RunKeepsOneRowPerPath(cfg: Config, disk: Disk, force: bool, s: State, steps: seq<string>)
    requires s.tasks.Keys == disk.Keys && Schedule(disk, steps) && RowsInvariant(s)
    ensures RowsInvariant(Exec(cfg, disk, force, s, steps))
    decreases |steps|
  {
    hide Step, RowsInvariant;
    if steps == [] {
    } else {
      StepKeepsRows(cfg, disk, force, s, steps[0]);
      RunKeepsOneRowPerPath(cfg, disk, force, Step(cfg, disk, force, s, steps[0]), steps[1..]);
    }
  }

  /** One run: the steps its workers took, all of them or not, or the paths it purged before it broke off. */
  datatype Run =
    | Run(disk: Disk, force: bool, steps: seq<string>)
    | BrokenOff(disk: Disk, purged: seq<string>)

  ghost predicate Runnable(r: Run) {
    match r
    case Run(disk, _, steps) => Schedule(disk, steps)
    case BrokenOff(disk, purged) => forall p :: p in purged ==> p !in disk
  }

  ghost function WithoutPaths(rows: Rows, ps: seq<string>): Rows {
    map h | h in rows && rows[h].path !in ps :: rows[h]
  }

  ghost function AfterRun(cfg: Config, cache: Rows, r: Run): Rows
    requires Runnable(r)
  {
    match r
    case Run(disk, force, steps) => RunTo(cfg, disk, force, cache, steps).cache
    case BrokenOff(_, purged) => WithoutPaths(cache, purged)
  }

  ghost function AfterRuns(cfg: Config, runs: seq<Run>): Rows
    requires forall k :: 0 <= k < |runs| ==> Runnable(runs[k])
  {
    if runs == [] then map[]
    else
      AfterRun(cfg, AfterRuns(cfg, runs[..|runs| - 1]), runs[|runs| - 1])
  }

  ghost predicate FaithfulRow(cfg: Config, h: string, row: Row) {
    exists content :: cfg.sha(content) == h && row.ids == cfg.detect(row.path, content)
  }

  /** Every row holds what detection emits for its path and some content with its hash. */
  ghost predicate Faithful(cfg: Config, cache: Rows) {
    forall h :: h in cache ==> FaithfulRow(cfg, h, cache[h])
  }

  lemma {:induction false} RunKeepsFaithful(cfg: Config, disk: Disk, force: bool, s: State, steps: seq<string>)
    requires s.tasks.Keys == disk.Keys && Schedule(disk, steps) && Faithful(cfg, s.cache)
    ensures Faithful(cfg, Exec(cfg, disk, force, s, steps).cache)
    decreases |steps|
  {
    if steps == [] {
    } else {
      var p := steps[0];
      assert FaithfulRow(cfg, HashOf(cfg, disk, p), RowFor(cfg, disk, p));
      RunKeepsFaithful(cfg, disk, force, Step(cfg, disk, force, s, p), steps[1..]);
    }
  }

  /** Over every sequence of runs the cache has one row per path, and every row is what detection emits. */
  lemma {:induction false} EveryHistoryIsSound(cfg: Config, runs: seq<Run>)
    requires forall k :: 0 <= k < |runs| ==> Runnable(runs[k])
    ensures OneRowPerPath(AfterRuns(cfg, runs)) && Faithful(cfg, AfterRuns(cfg, runs))
  {
    if runs == [] {
    } else {
      var front, last := runs[..|runs| - 1], runs[|runs| - 1];
      EveryHistoryIsSound(cfg, front);
      if last.Run? {
        var start := Start(last.disk, last.force, AfterRuns(cfg, front));
        RunKeepsOneRowPerPath(cfg, last.disk, last.force, start, last.steps);
        RunKeepsFaithful(cfg, last.disk, last.force, start, last.steps);
      }
    }
  }
}
