/**
 When an incremental index run leaves what a full re-analysis leaves
 (internal/analyzer/analyzer.go, diff.go): for every interleaving, exactly if contents are
 distinct and none is cached under another live path.
 */
module IndexEquivalence {
  import opened CodeModel
  import opened IndexRuns

  ghost predicate DistinctContents(disk: Disk) {
    forall p, q :: p in disk && q in disk && disk[p] == disk[q] ==> p == q
  }

  /** No live file's content is cached under another live path. */
  ghost predicate NoForeignRow(cfg: Config, disk: Disk, cache: Rows) {
    forall p :: p in disk && HashOf(cfg, disk, p) in cache && cache[HashOf(cfg, disk, p)].path in disk
                ==> cache[HashOf(cfg, disk, p)].path == p
  }

  /** The cache holds one row per live file, with its hash and what detection emits, and nothing else. */
  ghost predicate HoldsExactly(cfg: Config, disk: Disk, cache: Rows) {
    && (forall p :: p in disk ==> HashOf(cfg, disk, p) in cache && cache[HashOf(cfg, disk, p)] == RowFor(cfg, disk, p))
    && (forall h :: h in cache ==> cache[h].path in disk && h == HashOf(cfg, disk, cache[h].path))
  }

  lemma HoldsExactlyIsUnique(cfg: Config, disk: Disk, c: Rows, d: Rows)
    requires HoldsExactly(cfg, disk, c) && HoldsExactly(cfg, disk, d)
    ensures c == d
  {
    forall h
      ensures h in c <==> h in d
      ensures h in c && h in d ==> c[h] == d[h]
    {
      if h in c {
        assert c[h] == RowFor(cfg, disk, c[h].path);
      }
      if h in d {
        assert d[h] == RowFor(cfg, disk, d[h].path);
      }
    }
  }

  // ---- the invariant of a run ----

  /** What is known of one file at any point of a run. */
  ghost predicate TaskSound(cfg: Config, disk: Disk, s: State, p: string)
    requires p in disk && s.tasks.Keys == disk.Keys
  {
    var h, own, t := HashOf(cfg, disk, p), cfg.detect(p, disk[p]), s.tasks[p];
    && (h in s.cache ==> s.cache[h] == RowFor(cfg, disk, p))
    && (t.phase.Waiting? || t.phase.Missed? ==> t.emitted == [])
    && (t.phase.Found? || t.phase.RowRead? ==> h in s.cache && t.emitted == [])
    && (t.phase.NodesRead? ==> h in s.cache && t.phase.nodes == own.nodes && t.emitted == [])
    && (t.phase.Detected? || t.phase.Purged? ==> t.emitted == [own])
    && (t.phase.Done? ==> h in s.cache && t.emitted == [own])
  }

  ghost predicate Sound(cfg: Config, disk: Disk, s: State)
    requires s.tasks.Keys == disk.Keys
  {
    && RowsInvariant(s)
    && (forall h :: h in s.cache ==> s.cache[h].path in disk)
    && (forall p :: p in disk ==> TaskSound(cfg, disk, s, p))
  }

  lemma StepKeepsOwnTask(cfg: Config, disk: Disk, force: bool, s: State, p: string)
    requires p in disk && s.tasks.Keys == disk.Keys && TaskSound(cfg, disk, s, p)
    ensures TaskSound(cfg, disk, Step(cfg, disk, force, s, p), p)
  {
  }

  lemma StepKeepsOtherTask(cfg: Config, disk: Disk, force: bool, s: State, p: string, q: string)
    requires p in disk && q in disk && q != p && s.tasks.Keys == disk.Keys && TaskSound(cfg, disk, s, q)
    requires HashOf(cfg, disk, p) != HashOf(cfg, disk, q)
    ensures TaskSound(cfg, disk, Step(cfg, disk, force, s, p), q)
  {
    hide Step;
    StepEffect(cfg, disk, force, s, p);
  }

  lemma StepIsSound(cfg: Config, disk: Disk, force: bool, s: State, p: string)
    requires p in disk && s.tasks.Keys == disk.Keys
    requires Injective(cfg.sha) && DistinctContents(disk) && Sound(cfg, disk, s)
    ensures Sound(cfg, disk, Step(cfg, disk, force, s, p))
  {
    hide TaskSound;
    var s' := Step(cfg, disk, force, s, p);
    StepKeepsRows(cfg, disk, force, s, p);
    StepKeepsOwnTask(cfg, disk, force, s, p);
    forall q | q in disk && q != p
      ensures TaskSound(cfg, disk, s', q)
    {
      assert disk[p] != disk[q];
      StepKeepsOtherTask(cfg, disk, force, s, p, q);
    }
  }

  lemma {:induction false} RunIsSound(cfg: Config, disk: Disk, force: bool, s: State, steps: seq<string>)
    requires s.tasks.Keys == disk.Keys && Schedule(disk, steps)
    requires Injective(cfg.sha) && DistinctContents(disk) && Sound(cfg, disk, s)
    ensures Sound(cfg, disk, Exec(cfg, disk, force, s, steps))
    decreases |steps|
  {
    hide Step, Sound;
    if steps == [] {
    } else {
      StepIsSound(cfg, disk, force, s, steps[0]);
      RunIsSound(cfg, disk, force, Step(cfg, disk, force, s, steps[0]), steps[1..]);
    }
  }

  lemma StartIsSound(cfg: Config, disk: Disk, cache: Rows)
    requires Injective(cfg.sha) && NoForeignRow(cfg, disk, cache)
    requires OneRowPerPath(cache) && Faithful(cfg, cache)
    ensures Sound(cfg, disk, Start(disk, false, cache))
  {
    var s := Start(disk, false, cache);
    forall p | p in disk
      ensures TaskSound(cfg, disk, s, p)
    {
      var h := HashOf(cfg, disk, p);
      if h in s.cache {
        assert FaithfulRow(cfg, h, cache[h]);
        var content :| cfg.sha(content) == h && cache[h].ids == cfg.detect(cache[h].path, content);
        assert content == disk[p];
      }
    }
  }

  lemma SoundEndHoldsExactly(cfg: Config, disk: Disk, s: State)
    requires s.tasks.Keys == disk.Keys && Sound(cfg, disk, s) && AllDone(s)
    ensures HoldsExactly(cfg, disk, s.cache)
    ensures forall p :: p in disk ==> s.tasks[p].emitted == [cfg.detect(p, disk[p])]
  {
    forall p | p in disk
      ensures HashOf(cfg, disk, p) in s.cache && s.cache[HashOf(cfg, disk, p)] == RowFor(cfg, disk, p)
      ensures s.tasks[p].emitted == [cfg.detect(p, disk[p])]
    {
      assert TaskSound(cfg, disk, s, p);
    }
  }

  /**
   Under the hypothesis, every interleaving of an incremental run ends with exactly the live
   files' rows, and each file's emissions reach the builder once.
   */
  lemma IncrementalRunIsComplete(cfg: Config, disk: Disk, cache: Rows, steps: seq<string>)
    requires Injective(cfg.sha) && OneRowPerPath(cache) && Faithful(cfg, cache)
    requires DistinctContents(disk) && NoForeignRow(cfg, disk, cache)
    requires Schedule(disk, steps) && AllDone(RunTo(cfg, disk, false, cache, steps))
    ensures HoldsExactly(cfg, disk, RunTo(cfg, disk, false, cache, steps).cache)
    ensures forall p :: p in disk ==> RunTo(cfg, disk, false, cache, steps).tasks[p].emitted == [cfg.detect(p, disk[p])]
  {
    StartIsSound(cfg, disk, cache);
    RunIsSound(cfg, disk, false, Start(disk, false, cache), steps);
    SoundEndHoldsExactly(cfg, disk, RunTo(cfg, disk, false, cache, steps));
  }

  lemma ForcedRunIsComplete(cfg: Config, disk: Disk, steps: seq<string>)
    requires Injective(cfg.sha) && DistinctContents(disk)
    requires Schedule(disk, steps) && AllDone(RunTo(cfg, disk, true, map[], steps))
    ensures HoldsExactly(cfg, disk, RunTo(cfg, disk, true, map[], steps).cache)
    ensures forall p :: p in disk ==> RunTo(cfg, disk, true, map[], steps).tasks[p].emitted == [cfg.detect(p, disk[p])]
  {
    RunIsSound(cfg, disk, true, Start(disk, true, map[]), steps);
    SoundEndHoldsExactly(cfg, disk, RunTo(cfg, disk, true, map[], steps));
  }

  // ---- an unchanged disk ----

  ghost predicate OnlyHits(s: State) {
    forall p :: p in s.tasks ==>
      var ph := s.tasks[p].phase;
      ph.Waiting? || ph.Found? || ph.RowRead? || ph.NodesRead? || ph == Done(true)
  }

  /** Run again on the same disk: every file is a hit, and no step writes to the cache. */
  lemma {:induction false} RepeatRunWritesNothing(cfg: Config, disk: Disk, s: State, steps: seq<string>)
    requires s.tasks.Keys == disk.Keys && Schedule(disk, steps)
    requires HoldsExactly(cfg, disk, s.cache) && OnlyHits(s)
    ensures Exec(cfg, disk, false, s, steps).cache == s.cache && OnlyHits(Exec(cfg, disk, false, s, steps))
    decreases |steps|
  {
    if steps == [] {
    } else {
      assert steps[0] in disk && steps[0] in s.tasks;
      RepeatRunWritesNothing(cfg, disk, Step(cfg, disk, false, s, steps[0]), steps[1..]);
    }
  }

  /** How `Diff` classifies a readable file. */
  datatype Change = Added | Modified | Unchanged

  ghost function Classify(cfg: Config, disk: Disk, cache: Rows, p: string): Change
    requires p in disk
  {
    if NoRowFor(cache, p) then Added
    else if HashOf(cfg, disk, p) in cache && cache[HashOf(cfg, disk, p)].path == p then Unchanged
    else Modified
  }

  /**
   A run on an unchanged disk, wherever its schedule stands: `Diff` finds every file
   unchanged, the finished files are all cache hits, and nothing was written.
   */
  lemma RepeatRunIsIdle(cfg: Config, disk: Disk, cache: Rows, steps: seq<string>)
    requires HoldsExactly(cfg, disk, cache) && Schedule(disk, steps)
    ensures forall p :: p in disk ==> Classify(cfg, disk, cache, p) == Unchanged
    ensures RunTo(cfg, disk, false, cache, steps).cache == cache
    ensures forall p :: p in disk && RunTo(cfg, disk, false, cache, steps).tasks[p].phase.Done?
              ==> RunTo(cfg, disk, false, cache, steps).tasks[p].phase.hit
  {
    var start := Start(disk, false, cache);
    assert start.cache == cache && OnlyHits(start);
    RepeatRunWritesNothing(cfg, disk, start, steps);
  }

  // ---- forced runs on a used cache ----

  /** During a forced run no file hits, and finished files have their rows. */
  ghost predicate LiveRepaired(cfg: Config, disk: Disk, s: State)
    requires s.tasks.Keys == disk.Keys
  {
    && (forall p :: p in disk ==> WillWrite(true, s.tasks[p].phase) || s.tasks[p].phase.Done?)
    && (forall p :: p in disk && s.tasks[p].phase.Done? ==>
          HashOf(cfg, disk, p) in s.cache && s.cache[HashOf(cfg, disk, p)] == RowFor(cfg, disk, p))
  }

  /** The content of the row is no live content. */
  ghost predicate NotLive(cfg: Config, disk: Disk, h: string) {
    forall p :: p in disk ==> HashOf(cfg, disk, p) != h
  }

  /** Rows of vanished paths are only ever lost to a live file with their content. */
  ghost predicate VanishedKept(cfg: Config, disk: Disk, cache: Rows, s: State) {
    && (forall h :: h in s.cache && s.cache[h].path !in disk ==> h in cache && cache[h] == s.cache[h])
    && (forall h :: h in cache && cache[h].path !in disk && NotLive(cfg, disk, h) ==> h in s.cache && s.cache[h] == cache[h])
  }

  lemma StepKeepsLive(cfg: Config, disk: Disk, s: State, p: string)
    requires p in disk && s.tasks.Keys == disk.Keys
    requires Injective(cfg.sha) && DistinctContents(disk) && LiveRepaired(cfg, disk, s)
    ensures LiveRepaired(cfg, disk, Step(cfg, disk, true, s, p))
  {
    hide Step;
    StepEffect(cfg, disk, true, s, p);
    var s' := Step(cfg, disk, true, s, p);
    forall q | q in disk && s'.tasks[q].phase.Done?
      ensures HashOf(cfg, disk, q) in s'.cache && s'.cache[HashOf(cfg, disk, q)] == RowFor(cfg, disk, q)
    {
      if q != p {
        assert disk[p] != disk[q];
        assert HashOf(cfg, disk, p) != HashOf(cfg, disk, q);
      }
    }
  }

  lemma StepKeepsVanished(cfg: Config, disk: Disk, cache: Rows, s: State, p: string)
    requires p in disk && s.tasks.Keys == disk.Keys && VanishedKept(cfg, disk, cache, s)
    ensures VanishedKept(cfg, disk, cache, Step(cfg, disk, true, s, p))
  {
    hide Step;
    StepEffect(cfg, disk, true, s, p);
    assert forall h :: NotLive(cfg, disk, h) ==> h != HashOf(cfg, disk, p);
  }

  lemma {:induction false} RunRepairs(cfg: Config, disk: Disk, cache: Rows, s: State, steps: seq<string>)
    requires s.tasks.Keys == disk.Keys && Schedule(disk, steps)
    requires Injective(cfg.sha) && DistinctContents(disk) && LiveRepaired(cfg, disk, s) && VanishedKept(cfg, disk, cache, s)
    ensures LiveRepaired(cfg, disk, Exec(cfg, disk, true, s, steps))
    ensures VanishedKept(cfg, disk, cache, Exec(cfg, disk, true, s, steps))
    decreases |steps|
  {
    hide Step, LiveRepaired, VanishedKept;
    if steps == [] {
    } else {
      StepKeepsLive(cfg, disk, s, steps[0]);
      StepKeepsVanished(cfg, disk, cache, s, steps[0]);
      RunRepairs(cfg, disk, cache, Step(cfg, disk, true, s, steps[0]), steps[1..]);
    }
  }

  /**
   A forced run repairs the rows of all live files whatever the cache held, but it does not
   purge: the rows of vanished paths stay, except those whose content lives on elsewhere.
   */
  lemma ForcedRunRepairsButKeepsVanished(cfg: Config, disk: Disk, cache: Rows, steps: seq<string>)
    requires Injective(cfg.sha) && DistinctContents(disk) && OneRowPerPath(cache)
    requires Schedule(disk, steps) && AllDone(RunTo(cfg, disk, true, cache, steps))
    ensures var r := RunTo(cfg, disk, true, cache, steps).cache;
            && (forall p :: p in disk ==> HashOf(cfg, disk, p) in r && r[HashOf(cfg, disk, p)] == RowFor(cfg, disk, p))
            && (forall h :: h in r && r[h].path in disk ==> h == HashOf(cfg, disk, r[h].path))
            && (forall h :: h in r && r[h].path !in disk <==> h in cache && cache[h].path !in disk && NotLive(cfg, disk, h))
            && (forall h :: h in r && r[h].path !in disk ==> h in cache && r[h] == cache[h])
  {
    hide Exec, Step;
    var start := Start(disk, true, cache);
    RunRepairs(cfg, disk, cache, start, steps);
    RunKeepsOneRowPerPath(cfg, disk, true, start, steps);
    var r := RunTo(cfg, disk, true, cache, steps).cache;
    forall h | h in r && r[h].path !in disk
      ensures NotLive(cfg, disk, h)
    {
      forall p | p in disk
        ensures HashOf(cfg, disk, p) != h
      {
        assert r[HashOf(cfg, disk, p)].path == p;
      }
    }
  }

  // ---- schedules ----

  lemma {:induction false} ExecConcat(cfg: Config, disk: Disk, force: bool, s: State, a: seq<string>, b: seq<string>)
    requires s.tasks.Keys == disk.Keys && Schedule(disk, a) && Schedule(disk, b)
    ensures Schedule(disk, a + b)
    ensures Exec(cfg, disk, force, s, a + b) == Exec(cfg, disk, force, Exec(cfg, disk, force, s, a), b)
    decreases |a|
  {
    if a == [] {
      assert a + b == b;
    } else {
      assert (a + b)[1..] == a[1..] + b;
      ExecConcat(cfg, disk, force, Step(cfg, disk, force, s, a[0]), a[1..], b);
    }
  }

  function StepsLeft(ph: Phase): nat {
    match ph
    case Waiting => 6
    case Found => 5
    case RowRead => 2
    case NodesRead(_) => 1
    case Missed => 4
    case Detected => 3
    case Purged => 1
    case Done(_) => 0
  }

  /** Running one worker to its end. */
  lemma {:induction false} FinishFile(cfg: Config, disk: Disk, force: bool, s: State, p: string) returns (steps: seq<string>)
    requires p in disk && s.tasks.Keys == disk.Keys
    ensures Schedule(disk, steps) && (forall x :: x in steps ==> x == p)
    ensures s.tasks[p].phase.Done? ==> steps == []
    ensures var r := Exec(cfg, disk, force, s, steps);
            && r.tasks[p].phase.Done?
            && (forall q :: q in disk && q != p ==> r.tasks[q] == s.tasks[q])
            && (WillWrite(force, s.tasks[p].phase) ==>
                  HashOf(cfg, disk, p) in r.cache && r.cache[HashOf(cfg, disk, p)] == RowFor(cfg, disk, p))
    decreases StepsLeft(s.tasks[p].phase)
  {
    if s.tasks[p].phase.Done? {
      steps := [];
    } else {
      var s' := Step(cfg, disk, force, s, p);
      var rest := FinishFile(cfg, disk, force, s', p);
      steps := [p] + rest;
      assert steps[1..] == rest;
    }
  }

  /** Running the workers of several files to their ends, one after the other. */
  lemma {:induction false} FinishFiles(cfg: Config, disk: Disk, force: bool, s: State, ps: seq<string>) returns (steps: seq<string>)
    requires (forall k :: 0 <= k < |ps| ==> ps[k] in disk) && s.tasks.Keys == disk.Keys
    ensures Schedule(disk, steps) && (forall x :: x in steps ==> x in ps)
    ensures forall x :: x in ps ==> Exec(cfg, disk, force, s, steps).tasks[x].phase.Done?
    ensures forall q :: q in disk && q !in ps ==> Exec(cfg, disk, force, s, steps).tasks[q] == s.tasks[q]
    decreases |ps|
  {
    if ps == [] {
      steps := [];
    } else {
      var front, last := ps[..|ps| - 1], ps[|ps| - 1];
      var first := FinishFiles(cfg, disk, force, s, front);
      var mid := Exec(cfg, disk, force, s, first);
      var rest := FinishFile(cfg, disk, force, mid, last);
      steps := first + rest;
      ExecConcat(cfg, disk, force, s, first, rest);
      assert ps == front + [last];
    }
  }

  lemma {:induction false} ListingOf(keys: set<string>) returns (ps: seq<string>)
    ensures forall p :: p in ps <==> p in keys
    ensures forall k :: 0 <= k < |ps| ==> ps[k] in keys
  {
    if keys == {} {
      ps := [];
    } else {
      var k :| k in keys;
      var rest := ListingOf(keys - {k});
      ps := [k] + rest;
    }
  }

  // ---- the hypothesis is exact ----

  /** Every complete incremental run ends with the rows of every complete forced run on an empty cache. */
  ghost predicate AgreesWithForced(cfg: Config, disk: Disk, cache: Rows) {
    forall steps, forced ::
      && Schedule(disk, steps) && AllDone(RunTo(cfg, disk, false, cache, steps))
      && Schedule(disk, forced) && AllDone(RunTo(cfg, disk, true, map[], forced))
      ==> RunTo(cfg, disk, false, cache, steps).cache == RunTo(cfg, disk, true, map[], forced).cache
  }

  /** A complete forced run in which `p` comes last, so that its row stands. */
  lemma ForcedWithLast(cfg: Config, disk: Disk, p: string) returns (steps: seq<string>)
    requires p in disk
    ensures Schedule(disk, steps)
    ensures var r := RunTo(cfg, disk, true, map[], steps);
            AllDone(r) && HashOf(cfg, disk, p) in r.cache && r.cache[HashOf(cfg, disk, p)].path == p
  {
    var others := ListingOf(disk.Keys - {p});
    var start := Start(disk, true, map[]);
    var first := FinishFiles(cfg, disk, true, start, others);
    var mid := Exec(cfg, disk, true, start, first);
    var rest := FinishFile(cfg, disk, true, mid, p);
    steps := first + rest;
    ExecConcat(cfg, disk, true, start, first, rest);
  }

  lemma CompleteRun(cfg: Config, disk: Disk, force: bool, cache: Rows) returns (steps: seq<string>)
    ensures Schedule(disk, steps) && AllDone(RunTo(cfg, disk, force, cache, steps))
  {
    var all := ListingOf(disk.Keys);
    steps := FinishFiles(cfg, disk, force, Start(disk, force, cache), all);
  }

  /** Two live files with one content: which of them owns the row is left to the schedule. */
  lemma SharedContentDisagrees(cfg: Config, disk: Disk, cache: Rows, p: string, q: string)
    requires p in disk && q in disk && p != q && disk[p] == disk[q]
    ensures !AgreesWithForced(cfg, disk, cache)
  {
    var a := ForcedWithLast(cfg, disk, p);
    var b := ForcedWithLast(cfg, disk, q);
    var c := CompleteRun(cfg, disk, false, cache);
    assert RunTo(cfg, disk, true, map[], a).cache != RunTo(cfg, disk, true, map[], b).cache;
  }

  /** The file is done, and the row of its content is not its own. */
  ghost predicate Missing(cfg: Config, disk: Disk, s: State, p: string)
    requires p in disk && s.tasks.Keys == disk.Keys
  {
    && s.tasks[p].phase.Done?
    && (HashOf(cfg, disk, p) in s.cache ==> s.cache[HashOf(cfg, disk, p)].path != p)
  }

  lemma {:induction false} StaysMissing(cfg: Config, disk: Disk, s: State, p: string, steps: seq<string>)
    requires p in disk && s.tasks.Keys == disk.Keys && Schedule(disk, steps)
    requires Missing(cfg, disk, s, p)
    ensures Missing(cfg, disk, Exec(cfg, disk, false, s, steps), p)
    decreases |steps|
  {
    hide Step;
    if steps == [] {
    } else {
      StepEffect(cfg, disk, false, s, steps[0]);
      StaysMissing(cfg, disk, Step(cfg, disk, false, s, steps[0]), p, steps[1..]);
    }
  }

  lemma FourHits(cfg: Config, disk: Disk, s: State, p: string)
    requires p in disk && s.tasks.Keys == disk.Keys
    requires s.tasks[p].phase.Waiting? && HashOf(cfg, disk, p) in s.cache
    ensures Exec(cfg, disk, false, s, [p, p, p, p]).cache == s.cache
    ensures Exec(cfg, disk, false, s, [p, p, p, p]).tasks[p].phase.Done?
  {
    var s1 := Step(cfg, disk, false, s, p);
    var s2 := Step(cfg, disk, false, s1, p);
    var s3 := Step(cfg, disk, false, s2, p);
    var s4 := Step(cfg, disk, false, s3, p);
    assert [p, p, p, p][1..] == [p, p, p] && [p, p, p][1..] == [p, p] && [p, p][1..] == [p] && [p][1..] == [];
    assert Exec(cfg, disk, false, s3, [p]) == s4;
    assert Exec(cfg, disk, false, s2, [p, p]) == s4;
    assert Exec(cfg, disk, false, s1, [p, p, p]) == s4;
  }

  /** A live file whose content is cached under another live path: processed first, it hits and never gets its row. */
  lemma ForeignRowDisagrees(cfg: Config, disk: Disk, cache: Rows, p: string)
    requires Injective(cfg.sha) && DistinctContents(disk)
    requires p in disk && HashOf(cfg, disk, p) in cache
    requires cache[HashOf(cfg, disk, p)].path in disk && cache[HashOf(cfg, disk, p)].path != p
    ensures !AgreesWithForced(cfg, disk, cache)
  {
    hide Exec, Step;
    var start := Start(disk, false, cache);
    var hit := [p, p, p, p];
    FourHits(cfg, disk, start, p);
    var mid := Exec(cfg, disk, false, start, hit);
    var all := ListingOf(disk.Keys);
    var rest := FinishFiles(cfg, disk, false, mid, all);
    StaysMissing(cfg, disk, mid, p, rest);
    ExecConcat(cfg, disk, false, start, hit, rest);
    var steps := hit + rest;
    assert AllDone(RunTo(cfg, disk, false, cache, steps));
    var forced := CompleteRun(cfg, disk, true, map[]);
    ForcedRunIsComplete(cfg, disk, forced);
  }

  /**
   For a cache that a history of runs can leave, every interleaving of the incremental run
   agrees with the forced run exactly when live contents are distinct and none of them is
   cached under another live path.
   */
  lemma AgreementIsExact(cfg: Config, disk: Disk, cache: Rows)
    requires Injective(cfg.sha) && OneRowPerPath(cache) && Faithful(cfg, cache)
    ensures AgreesWithForced(cfg, disk, cache) <==> DistinctContents(disk) && NoForeignRow(cfg, disk, cache)
  {
    if !DistinctContents(disk) {
      var p, q :| p in disk && q in disk && disk[p] == disk[q] && p != q;
      SharedContentDisagrees(cfg, disk, cache, p, q);
    } else if !NoForeignRow(cfg, disk, cache) {
      var p :| p in disk && HashOf(cfg, disk, p) in cache && cache[HashOf(cfg, disk, p)].path in disk
               && cache[HashOf(cfg, disk, p)].path != p;
      ForeignRowDisagrees(cfg, disk, cache, p);
    } else {
      forall steps, forced |
        && Schedule(disk, steps) && AllDone(RunTo(cfg, disk, false, cache, steps))
        && Schedule(disk, forced) && AllDone(RunTo(cfg, disk, true, map[], forced))
        ensures RunTo(cfg, disk, false, cache, steps).cache == RunTo(cfg, disk, true, map[], forced).cache
      {
        IncrementalRunIsComplete(cfg, disk, cache, steps);
        ForcedRunIsComplete(cfg, disk, forced);
        HoldsExactlyIsUnique(cfg, disk, RunTo(cfg, disk, false, cache, steps).cache, RunTo(cfg, disk, true, map[], forced).cache);
      }
    }
  }
}
