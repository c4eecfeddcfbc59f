/**
 Every schedule of the enricher's goroutines (internal/intelligence/extractor/enricher.go): a task
 takes a semaphore slot, reads and parses its file, writes hints onto its nodes one by one, stores
 its edges, closes its tree, signals the wait group and frees its slot.
 */
module EnricherSchedules {
  import opened CodeModel
  import opened ConfidenceMerge
  import opened LanguageEnricher
  import opened Sequences
  import opened Strings

  /** What an extractor gives for one node. */
  datatype NodeResult = NodeResult(calls: seq<EdgeView>, references: seq<EdgeView>, hints: map<string, Any>)

  /** An unreadable or minified file is skipped; a file may be extracted without a tree. */
  datatype Outcome = Skipped | Extracted(tree: bool, results: seq<NodeResult>)

  /** An extraction depends on the file, which is fixed, and on the file's own nodes. */
  type Extractor = (string, seq<NodeView>) -> Outcome

  datatype Job = Job(tasks: seq<Task>, extract: Extractor, capacity: nat)

  datatype Phase =
    | Waiting
    | Holding
    | Writing(results: seq<NodeResult>, next: nat, edges: seq<EdgeView>, tree: bool)
    | Stored(tree: bool)
    | Ended
    | Signalled
    | Freed

  /** `slots` counts what the semaphore has given out, `open` names the tasks whose tree is open. */
  datatype State = State(nodes: seq<NodeView>, out: seq<seq<EdgeView>>, phases: seq<Phase>, slots: int, open: set<nat>)

  function Start(job: Job, nodes: seq<NodeView>): State {
    State(nodes, seq(|job.tasks|, i => []), seq(|job.tasks|, i => Waiting), 0, {})
  }

  predicate HoldsSlot(p: Phase) {
    !p.Waiting? && !p.Freed?
  }

  predicate TreeOpen(p: Phase) {
    (p.Writing? && p.tree) || (p.Stored? && p.tree)
  }

  function Sum(xs: seq<nat>): nat {
    if xs == [] then 0 else xs[0] + Sum(xs[1..])
  }

  function Marks(phases: seq<Phase>): (marks: seq<nat>)
    ensures |marks| == |phases| && forall i :: 0 <= i < |phases| ==> marks[i] == if HoldsSlot(phases[i]) then 1 else 0
  {
    seq(|phases|, i requires 0 <= i < |phases| => if HoldsSlot(phases[i]) then 1 else 0)
  }

  /** How many tasks hold a slot. */
  function Running(phases: seq<Phase>): nat {
    Sum(Marks(phases))
  }

  function Views(nodes: seq<NodeView>, members: seq<nat>): seq<NodeView>
    requires forall q :: 0 <= q < |members| ==> members[q] < |nodes|
  {
    seq(|members|, q requires 0 <= q < |members| => nodes[members[q]])
  }

  /** How many of the results have a node. */
  function Matched(results: seq<NodeResult>, members: seq<nat>): nat {
    if |results| < |members| then |results| else |members|
  }

  function Hinted(v: NodeView, r: NodeResult): NodeView {
    v.(properties := v.properties + r.hints)
  }

  // ---- the steps ----

  ghost predicate Shaped(job: Job, s: State) {
    && |s.out| == |job.tasks| && |s.phases| == |job.tasks|
    && Disjoint(job.tasks, |s.nodes|)
  }

  /** A task can take its next step; only waiting ones may have to wait, for their turn and for a slot. */
  predicate CanStep(job: Job, s: State, i: nat)
    requires Shaped(job, s)
  {
    && i < |job.tasks|
    && !s.phases[i].Freed?
    && (s.phases[i].Waiting? ==>
          s.slots < job.capacity && forall j :: 0 <= j < i ==> !s.phases[j].Waiting?)
  }

  /** Reading, parsing and extracting. */
  function Read(job: Job, s: State, i: nat): Phase
    requires Shaped(job, s) && i < |job.tasks|
  {
    match job.extract(job.tasks[i].path, Views(s.nodes, job.tasks[i].members))
    case Skipped => Ended
    case Extracted(tree, results) => Writing(results, 0, [], tree)
  }

  function Step(job: Job, s: State, i: nat): (s': State)
    requires Shaped(job, s) && CanStep(job, s, i)
    ensures Shaped(job, s') && |s'.nodes| == |s.nodes|
  {
    match s.phases[i]
    case Waiting => s.(phases := s.phases[i := Holding], slots := s.slots + 1)
    case Holding =>
      var read := Read(job, s, i);
      s.(phases := s.phases[i := read], open := if TreeOpen(read) then s.open + {i} else s.open)
    case Writing(results, next, edges, tree) =>
      var members := job.tasks[i].members;
      if next < Matched(results, members) then
        s.(nodes := s.nodes[members[next] := Hinted(s.nodes[members[next]], results[next])],
           phases := s.phases[i := Writing(results, next + 1, edges + results[next].calls + results[next].references, tree)])
      else
        s.(out := s.out[i := edges], phases := s.phases[i := Stored(tree)])
    case Stored(_) => s.(phases := s.phases[i := Ended], open := s.open - {i})
    case Ended => s.(phases := s.phases[i := Signalled])
    case Signalled => s.(phases := s.phases[i := Freed], slots := s.slots - 1)
    case Freed => s
  }

  /** The wait group has reached zero. */
  predicate AllSignalled(s: State) {
    forall i :: 0 <= i < |s.phases| ==> s.phases[i].Signalled? || s.phases[i].Freed?
  }

  // ---- what each task contributes ----

  function EdgesUpTo(results: seq<NodeResult>, n: nat): seq<EdgeView>
    requires n <= |results|
  {
    if n == 0 then [] else EdgesUpTo(results, n - 1) + results[n - 1].calls + results[n - 1].references
  }

  /** What a task's extractor gives on the nodes as they were. */
  ghost function OutcomeOf(job: Job, nodes: seq<NodeView>, i: nat): Outcome
    requires Disjoint(job.tasks, |nodes|) && i < |job.tasks|
  {
    job.extract(job.tasks[i].path, Views(nodes, job.tasks[i].members))
  }

  ghost function SlotOf(job: Job, nodes: seq<NodeView>, i: nat): seq<EdgeView>
    requires Disjoint(job.tasks, |nodes|) && i < |job.tasks|
  {
    match OutcomeOf(job, nodes, i)
    case Skipped => []
    case Extracted(_, results) => EdgesUpTo(results, Matched(results, job.tasks[i].members))
  }

  /** The value of a task's `q`-th node once the hints of the first `n` results are written. */
  ghost function MemberAfter(job: Job, nodes: seq<NodeView>, i: nat, q: nat, n: nat): NodeView
    requires Disjoint(job.tasks, |nodes|) && i < |job.tasks| && q < |job.tasks[i].members|
  {
    var v := nodes[job.tasks[i].members[q]];
    match OutcomeOf(job, nodes, i)
    case Skipped => v
    case Extracted(_, results) => if q < n && q < |results| then Hinted(v, results[q]) else v
  }

  // ---- the invariant ----

  ghost predicate MembersAt(job: Job, init: seq<NodeView>, nodes: seq<NodeView>, i: nat, n: nat)
    requires Disjoint(job.tasks, |init|) && |nodes| == |init| && i < |job.tasks|
  {
    forall q :: 0 <= q < |job.tasks[i].members| ==> nodes[job.tasks[i].members[q]] == MemberAfter(job, init, i, q, n)
  }

  /** How far a task has come, told by its phase. */
  ghost predicate TaskAt(job: Job, init: seq<NodeView>, s: State, i: nat)
    requires Shaped(job, s) && Disjoint(job.tasks, |init|) && |s.nodes| == |init| && i < |job.tasks|
  {
    match s.phases[i]
    case Waiting => s.out[i] == [] && MembersAt(job, init, s.nodes, i, 0)
    case Holding => s.out[i] == [] && MembersAt(job, init, s.nodes, i, 0)
    case Writing(results, next, edges, tree) =>
      && OutcomeOf(job, init, i) == Extracted(tree, results)
      && next <= Matched(results, job.tasks[i].members)
      && edges == EdgesUpTo(results, next)
      && s.out[i] == [] && MembersAt(job, init, s.nodes, i, next)
    case _ => s.out[i] == SlotOf(job, init, i) && MembersAt(job, init, s.nodes, i, |job.tasks[i].members|)
  }

  ghost predicate InTask(job: Job, k: nat) {
    exists i :: 0 <= i < |job.tasks| && k in job.tasks[i].members
  }

  /** The open trees are those of the phases between parsing and closing. */
  ghost predicate OpenMatches(s: State) {
    forall i: nat :: i in s.open <==> i < |s.phases| && TreeOpen(s.phases[i])
  }

  ghost predicate Good(job: Job, init: seq<NodeView>, s: State) {
    && Shaped(job, s) && |s.nodes| == |init|
    && (forall i :: 0 <= i < |job.tasks| ==> TaskAt(job, init, s, i))
    && (forall k: nat :: k < |init| && !InTask(job, k) ==> s.nodes[k] == init[k])
    && (forall i, j :: 0 <= i < j < |job.tasks| && !s.phases[j].Waiting? ==> !s.phases[i].Waiting?)
    && s.slots == Running(s.phases) <= job.capacity
    && OpenMatches(s)
  }

  // ---- counting slots ----

  lemma {:induction false} SumUpdate(xs: seq<nat>, i: nat, x: nat)
    requires i < |xs|
    ensures Sum(xs[i := x]) == Sum(xs) - xs[i] + x
  {
    var ys := xs[i := x];
    if i == 0 {
      assert ys[1..] == xs[1..];
    } else {
      assert ys[1..] == xs[1..][i - 1 := x];
      SumUpdate(xs[1..], i - 1, x);
    }
  }

  lemma {:induction false} SumOfZeros(xs: seq<nat>)
    requires forall i :: 0 <= i < |xs| ==> xs[i] == 0
    ensures Sum(xs) == 0
  {
    if xs == [] {
    } else {
      SumOfZeros(xs[1..]);
    }
  }

  lemma RunningUpdate(phases: seq<Phase>, i: nat, p: Phase)
    requires i < |phases|
    ensures Running(phases[i := p]) == Running(phases) - (if HoldsSlot(phases[i]) then 1 else 0) + (if HoldsSlot(p) then 1 else 0)
  {
    SumUpdate(Marks(phases), i, if HoldsSlot(p) then 1 else 0);
    assert Marks(phases[i := p]) == Marks(phases)[i := if HoldsSlot(p) then 1 else 0];
  }

  // ---- every step keeps the invariant ----

  lemma StartIsGood(job: Job, init: seq<NodeView>)
    requires Disjoint(job.tasks, |init|)
    ensures Good(job, init, Start(job, init))
  {
    SumOfZeros(Marks(Start(job, init).phases));
  }

  /** Writing one member changes no other task's members. */
  lemma OtherMembersKept(job: Job, init: seq<NodeView>, nodes: seq<NodeView>, i: nat, q: nat, v: NodeView, j: nat, n: nat)
    requires Disjoint(job.tasks, |init|) && |nodes| == |init| && i < |job.tasks| && q < |job.tasks[i].members|
    requires j < |job.tasks| && j != i && MembersAt(job, init, nodes, j, n)
    ensures MembersAt(job, init, nodes[job.tasks[i].members[q] := v], j, n)
  {
    hide MemberAfter;
    var k := job.tasks[i].members[q];
    assert k in job.tasks[i].members;
    assert k !in job.tasks[j].members;
    forall r | 0 <= r < |job.tasks[j].members|
      ensures job.tasks[j].members[r] != k
    {
      assert job.tasks[j].members[r] in job.tasks[j].members;
    }
  }

  /** A step of one task leaves the others where they are. */
  lemma OtherTasksKept(job: Job, init: seq<NodeView>, s: State, i: nat, j: nat)
    requires Good(job, init, s) && CanStep(job, s, i) && j < |job.tasks| && j != i
    ensures TaskAt(job, init, Step(job, s, i), j)
  {
    assert TaskAt(job, init, s, i) && TaskAt(job, init, s, j);
    var s' := Step(job, s, i);
    if s.phases[i].Writing? && s.phases[i].next < Matched(s.phases[i].results, job.tasks[i].members) {
      var next := s.phases[i].next;
      var n := if s.phases[j].Waiting? || s.phases[j].Holding? then 0
               else if s.phases[j].Writing? then s.phases[j].next else |job.tasks[j].members|;
      OtherMembersKept(job, init, s.nodes, i, next, Hinted(s.nodes[job.tasks[i].members[next]], s.phases[i].results[next]), j, n);
    }
  }

  lemma OwnMemberWritten(job: Job, init: seq<NodeView>, s: State, i: nat)
    requires Good(job, init, s) && CanStep(job, s, i) && TaskAt(job, init, s, i)
    requires s.phases[i].Writing? && s.phases[i].next < Matched(s.phases[i].results, job.tasks[i].members)
    ensures MembersAt(job, init, Step(job, s, i).nodes, i, s.phases[i].next + 1)
  {
    var members, next := job.tasks[i].members, s.phases[i].next;
    assert NoDuplicates(members);
    forall q | 0 <= q < |members|
      ensures Step(job, s, i).nodes[members[q]] == MemberAfter(job, init, i, q, next + 1)
    {
      assert s.nodes[members[q]] == MemberAfter(job, init, i, q, next);
    }
  }

  /** A task's own step brings it to its next phase. */
  lemma OwnTaskAdvances(job: Job, init: seq<NodeView>, s: State, i: nat)
    requires Good(job, init, s) && CanStep(job, s, i)
    ensures TaskAt(job, init, Step(job, s, i), i)
  {
    assert TaskAt(job, init, s, i);
    var members := job.tasks[i].members;
    if s.phases[i].Holding? {
      assert Views(s.nodes, members) == Views(init, members);
    } else if s.phases[i].Writing? && s.phases[i].next < Matched(s.phases[i].results, members) {
      OwnMemberWritten(job, init, s, i);
    } else if s.phases[i].Writing? {
      assert MembersAt(job, init, s.nodes, i, |members|);
    }
  }

  lemma OutsideKept(job: Job, init: seq<NodeView>, s: State, i: nat, k: nat)
    requires Good(job, init, s) && CanStep(job, s, i) && k < |init| && !InTask(job, k)
    ensures Step(job, s, i).nodes[k] == init[k]
  {
    if s.phases[i].Writing? && s.phases[i].next < Matched(s.phases[i].results, job.tasks[i].members) {
      assert job.tasks[i].members[s.phases[i].next] in job.tasks[i].members;
    }
  }

  lemma StepPhase(job: Job, s: State, i: nat)
    requires Shaped(job, s) && CanStep(job, s, i)
    ensures var s' := Step(job, s, i);
            && Shaped(job, s') && |s'.nodes| == |s.nodes|
            && s'.phases == s.phases[i := s'.phases[i]] && !s'.phases[i].Waiting?
            && (HoldsSlot(s'.phases[i]) && !HoldsSlot(s.phases[i]) ==> s.phases[i].Waiting?)
            && s'.slots == s.slots - (if HoldsSlot(s.phases[i]) then 1 else 0) + (if HoldsSlot(s'.phases[i]) then 1 else 0)
            && (OpenMatches(s) ==> OpenMatches(s'))
  {
  }

  /** Every step keeps the invariant. */
  lemma StepStaysGood(job: Job, init: seq<NodeView>, s: State, i: nat)
    requires Good(job, init, s) && CanStep(job, s, i)
    ensures Good(job, init, Step(job, s, i))
  {
    var s' := Step(job, s, i);
    StepPhase(job, s, i);
    RunningUpdate(s.phases, i, s'.phases[i]);
    forall j | 0 <= j < |job.tasks|
      ensures TaskAt(job, init, s', j)
    {
      if j == i {
        OwnTaskAdvances(job, init, s, i);
      } else {
        OtherTasksKept(job, init, s, i, j);
      }
    }
    forall k: nat | k < |init| && !InTask(job, k)
      ensures s'.nodes[k] == init[k]
    {
      OutsideKept(job, init, s, i, k);
    }
    hide Step, TaskAt;
    assert Running(s'.phases) <= job.capacity;
    assert forall a, b :: 0 <= a < b < |job.tasks| && !s'.phases[b].Waiting? ==> !s'.phases[a].Waiting?;
  }

  // ---- whole schedules ----

  /** Letting tasks step in the order of the schedule leads from one state to the other. */
  ghost predicate Leads(job: Job, s: State, schedule: seq<nat>, t: State)
    requires Shaped(job, s)
    decreases |schedule|
  {
    if schedule == [] then s == t
    else CanStep(job, s, schedule[0]) && Leads(job, Step(job, s, schedule[0]), schedule[1..], t)
  }

  lemma GoodIsShaped(job: Job, init: seq<NodeView>, s: State)
    requires Good(job, init, s)
    ensures Shaped(job, s) && Disjoint(job.tasks, |init|) && |s.nodes| == |init|
  {
  }

  lemma {:induction false} ScheduleStaysGood(job: Job, init: seq<NodeView>, s: State, schedule: seq<nat>, t: State)
    requires Good(job, init, s) && Leads(job, s, schedule, t)
    ensures Good(job, init, t)
    decreases |schedule|
  {
    hide Good, Step;
    if schedule == [] {
    } else {
      GoodIsShaped(job, init, s);
      StepStaysGood(job, init, s, schedule[0]);
      ScheduleStaysGood(job, init, Step(job, s, schedule[0]), schedule[1..], t);
    }
  }

  ghost function Slots(job: Job, nodes: seq<NodeView>): seq<seq<EdgeView>>
    requires Disjoint(job.tasks, |nodes|)
  {
    seq(|job.tasks|, i requires 0 <= i < |job.tasks| => SlotOf(job, nodes, i))
  }

  /** What the enricher leaves when the wait group is at zero: all slots filled, all hints written, nothing else touched. */
  ghost predicate Enriched(job: Job, init: seq<NodeView>, nodes: seq<NodeView>, out: seq<seq<EdgeView>>)
    requires Disjoint(job.tasks, |init|)
  {
    && |nodes| == |init| && out == Slots(job, init)
    && (forall i :: 0 <= i < |job.tasks| ==> MembersAt(job, init, nodes, i, |job.tasks[i].members|))
    && (forall k: nat :: k < |init| && !InTask(job, k) ==> nodes[k] == init[k])
  }

  /** Hints overwrite properties of their keys and change nothing else. */
  ghost predicate Written(v: NodeView, n: NodeView, hints: map<string, Any>) {
    && n.(properties := v.properties) == v
    && (forall k :: k in hints ==> k in n.properties && n.properties[k] == hints[k])
    && (forall k :: k !in hints ==> (k in n.properties <==> k in v.properties))
    && (forall k :: k !in hints && k in v.properties && k in n.properties ==> n.properties[k] == v.properties[k])
  }

  /** The calls and the references of the first `n` results, one result after the other. */
  ghost predicate Alternate(parts: seq<seq<EdgeView>>, results: seq<NodeResult>, n: nat) {
    && n <= |results| && |parts| == 2 * n
    && forall q :: 0 <= q < n ==> parts[2 * q] == results[q].calls && parts[2 * q + 1] == results[q].references
  }

  ghost predicate Emits(slot: seq<EdgeView>, results: seq<NodeResult>, n: nat) {
    exists parts :: Alternate(parts, results, n) && Concatenates(slot, parts)
  }

  lemma AlternateMore(parts: seq<seq<EdgeView>>, results: seq<NodeResult>, n: nat)
    requires n < |results| && Alternate(parts, results, n)
    ensures Alternate(parts + [results[n].calls] + [results[n].references], results, n + 1)
  {
  }

  lemma {:induction false} EdgesUpToEmits(results: seq<NodeResult>, n: nat)
    requires n <= |results|
    ensures Emits(EdgesUpTo(results, n), results, n)
  {
    hide Concatenates;
    if n == 0 {
      ConcatenatesNothing<EdgeView>();
      assert Alternate([], results, 0);
    } else {
      EdgesUpToEmits(results, n - 1);
      hide Alternate;
      var front, r := EdgesUpTo(results, n - 1), results[n - 1];
      var parts :| Alternate(parts, results, n - 1) && Concatenates(front, parts);
      ConcatenatesMore(front, parts, r.calls);
      ConcatenatesMore(front + r.calls, parts + [r.calls], r.references);
      AlternateMore(parts, results, n - 1);
    }
  }

  /**
   What the enricher leaves of one task: each node with a result carries that result's hints, the
   others are as they were, and the slot holds the results' edges in node order, calls first.
   */
  ghost predicate TaskDone(extract: Extractor, task: Task, init: seq<NodeView>, nodes: seq<NodeView>, slot: seq<EdgeView>)
    requires |nodes| == |init| && forall q :: 0 <= q < |task.members| ==> task.members[q] < |init|
  {
    var members := task.members;
    match extract(task.path, seq(|members|, q requires 0 <= q < |members| => init[members[q]]))
    case Skipped => slot == [] && forall q :: 0 <= q < |members| ==> nodes[members[q]] == init[members[q]]
    case Extracted(_, results) =>
      && Emits(slot, results, if |results| < |members| then |results| else |members|)
      && (forall q :: 0 <= q < |members| && q < |results| ==> Written(init[members[q]], nodes[members[q]], results[q].hints))
      && (forall q :: |results| <= q < |members| ==> nodes[members[q]] == init[members[q]])
  }

  lemma EnrichedMeans(job: Job, init: seq<NodeView>, nodes: seq<NodeView>, out: seq<seq<EdgeView>>, i: nat)
    requires Disjoint(job.tasks, |init|) && Enriched(job, init, nodes, out) && i < |job.tasks|
    ensures TaskDone(job.extract, job.tasks[i], init, nodes, out[i])
  {
    hide Emits, EdgesUpTo;
    var members := job.tasks[i].members;
    assert Views(init, members) == seq(|members|, q requires 0 <= q < |members| => init[members[q]]);
    assert MembersAt(job, init, nodes, i, |members|);
    if OutcomeOf(job, init, i).Extracted? {
      EdgesUpToEmits(OutcomeOf(job, init, i).results, Matched(OutcomeOf(job, init, i).results, members));
    }
  }

  lemma SignalledIsEnriched(job: Job, init: seq<NodeView>, s: State)
    requires Good(job, init, s) && AllSignalled(s)
    ensures Disjoint(job.tasks, |init|) && Enriched(job, init, s.nodes, s.out)
  {
    forall i | 0 <= i < |job.tasks|
      ensures s.out[i] == SlotOf(job, init, i) && MembersAt(job, init, s.nodes, i, |job.tasks[i].members|)
    {
      assert TaskAt(job, init, s, i);
    }
  }

  lemma EnrichedIsUnique(job: Job, init: seq<NodeView>, a: seq<NodeView>, out: seq<seq<EdgeView>>, b: seq<NodeView>, out': seq<seq<EdgeView>>)
    requires Disjoint(job.tasks, |init|) && Enriched(job, init, a, out) && Enriched(job, init, b, out')
    ensures a == b && out == out'
  {
    hide MemberAfter;
    forall k: nat | k < |init|
      ensures a[k] == b[k]
    {
      if i :| 0 <= i < |job.tasks| && k in job.tasks[i].members {
        assert MembersAt(job, init, a, i, |job.tasks[i].members|) && MembersAt(job, init, b, i, |job.tasks[i].members|);
        var q :| 0 <= q < |job.tasks[i].members| && job.tasks[i].members[q] == k;
      } else {
        assert !InTask(job, k);
      }
    }
  }

  /** Any two schedules that bring the wait group to zero leave the same nodes and the same slots. */
  lemma SchedulesAgree(job: Job, init: seq<NodeView>, schedule: seq<nat>, s: State, schedule': seq<nat>, s': State)
    requires Disjoint(job.tasks, |init|)
    requires Leads(job, Start(job, init), schedule, s) && AllSignalled(s)
    requires Leads(job, Start(job, init), schedule', s') && AllSignalled(s')
    ensures s.nodes == s'.nodes && s.out == s'.out
  {
    StartIsGood(job, init);
    ScheduleStaysGood(job, init, Start(job, init), schedule, s);
    ScheduleStaysGood(job, init, Start(job, init), schedule', s');
    SignalledIsEnriched(job, init, s);
    SignalledIsEnriched(job, init, s');
    EnrichedIsUnique(job, init, s.nodes, s.out, s'.nodes, s'.out);
  }

  // ---- the semaphore ----

  lemma {:induction false} SumOfFront(xs: seq<nat>)
    requires xs != []
    ensures Sum(xs) == Sum(xs[..|xs| - 1]) + xs[|xs| - 1]
  {
    if |xs| == 1 {
      assert xs[1..] == [] && xs[..0] == [];
    } else {
      SumOfFront(xs[1..]);
      assert xs[..|xs| - 1][1..] == xs[1..][..|xs| - 2];
    }
  }

  /** The sum of the marks is the number of tasks that hold a slot. */
  lemma {:induction false} RunningCounts(phases: seq<Phase>)
    ensures Running(phases) == |set i: nat | i < |phases| && HoldsSlot(phases[i])|
  {
    var holders := set i: nat | i < |phases| && HoldsSlot(phases[i]);
    if phases == [] {
      assert holders == {} && Marks(phases) == [];
    } else {
      var n := |phases| - 1;
      var front := phases[..n];
      RunningCounts(front);
      SumOfFront(Marks(phases));
      assert Marks(phases)[..n] == Marks(front);
      var before := set i: nat | i < |front| && HoldsSlot(front[i]);
      assert holders == if HoldsSlot(phases[n]) then before + {n} else before;
    }
  }

  lemma SubsetIsSmaller<T>(a: set<T>, b: set<T>)
    requires a <= b
    ensures |a| <= |b|
  {
    assert b == a + (b - a);
  }

  lemma OpenTreesHoldSlots(s: State)
    requires OpenMatches(s)
    ensures |s.open| <= |set i: nat | i < |s.phases| && HoldsSlot(s.phases[i])|
  {
    SubsetIsSmaller(s.open, set i: nat | i < |s.phases| && HoldsSlot(s.phases[i]));
  }

  /** In every reachable state no more trees are open than slots are out, and no more slots are out than the semaphore has. */
  lemma SlotsBoundTrees(job: Job, init: seq<NodeView>, schedule: seq<nat>, s: State)
    requires Disjoint(job.tasks, |init|) && Leads(job, Start(job, init), schedule, s)
    ensures |s.open| <= s.slots <= job.capacity
  {
    StartIsGood(job, init);
    ScheduleStaysGood(job, init, Start(job, init), schedule, s);
    RunningCounts(s.phases);
    OpenTreesHoldSlots(s);
  }

  /** Once a task's slot is freed, its tree is no longer open and its output is final. */
  lemma FreedMeansFinished(job: Job, init: seq<NodeView>, schedule: seq<nat>, s: State, i: nat)
    requires Disjoint(job.tasks, |init|) && Leads(job, Start(job, init), schedule, s)
    requires i < |s.phases| && i < |job.tasks| && s.phases[i].Freed?
    ensures i !in s.open && !TreeOpen(s.phases[i])
    ensures i < |s.out| && s.out[i] == SlotOf(job, init, i)
  {
    StartIsGood(job, init);
    ScheduleStaysGood(job, init, Start(job, init), schedule, s);
    assert TaskAt(job, init, s, i);
  }

  // ---- progress ----

  /** Steps a task may still take. */
  function Left(p: Phase, members: nat): nat {
    match p
    case Waiting => members + 6
    case Holding => members + 5
    case Writing(_, next, _, _) => 4 + if next <= members then members - next else 0
    case Stored(_) => 3
    case Ended => 2
    case Signalled => 1
    case Freed => 0
  }

  ghost function Lefts(job: Job, s: State): seq<nat>
    requires Shaped(job, s)
  {
    seq(|s.phases|, i requires 0 <= i < |s.phases| => Left(s.phases[i], |job.tasks[i].members|))
  }

  ghost function Measure(job: Job, s: State): nat
    requires Shaped(job, s)
  {
    Sum(Lefts(job, s))
  }

  lemma StepsRunOut(job: Job, s: State, i: nat)
    requires Shaped(job, s) && CanStep(job, s, i)
    ensures Measure(job, Step(job, s, i)) < Measure(job, s)
  {
    var s' := Step(job, s, i);
    StepPhase(job, s, i);
    var left := Left(s'.phases[i], |job.tasks[i].members|);
    assert left < Left(s.phases[i], |job.tasks[i].members|);
    assert Lefts(job, s') == Lefts(job, s)[i := left];
    SumUpdate(Lefts(job, s), i, left);
  }

  /** No schedule goes on for ever. */
  lemma {:induction false} SchedulesAreBounded(job: Job, s: State, schedule: seq<nat>, t: State)
    requires Shaped(job, s) && Leads(job, s, schedule, t)
    ensures |schedule| <= Measure(job, s)
    decreases |schedule|
  {
    hide Measure, Step;
    if schedule == [] {
    } else {
      StepsRunOut(job, s, schedule[0]);
      SchedulesAreBounded(job, Step(job, s, schedule[0]), schedule[1..], t);
    }
  }

  lemma FirstWaiting(phases: seq<Phase>, i: nat) returns (first: nat)
    requires i < |phases| && phases[i].Waiting?
    ensures first <= i && phases[first].Waiting? && forall j :: 0 <= j < first ==> !phases[j].Waiting?
  {
    first := 0;
    while !phases[first].Waiting?
      invariant first <= i && forall j :: 0 <= j < first ==> !phases[j].Waiting?
      decreases i - first
    {
      first := first + 1;
    }
  }

  /** Until the wait group is at zero some task can step, as long as the semaphore has a slot at all. */
  lemma NoDeadlock(job: Job, init: seq<NodeView>, s: State)
    requires Good(job, init, s) && job.capacity > 0 && !AllSignalled(s)
    ensures exists i :: 0 <= i < |job.tasks| && CanStep(job, s, i)
  {
    if i :| 0 <= i < |s.phases| && HoldsSlot(s.phases[i]) {
      assert CanStep(job, s, i);
    } else {
      SumOfZeros(Marks(s.phases));
      var i :| 0 <= i < |s.phases| && s.phases[i].Waiting?;
      var first := FirstWaiting(s.phases, i);
      assert CanStep(job, s, first);
    }
  }

  // ---- Enrich ----

  function Flatten(out: seq<seq<EdgeView>>): seq<EdgeView> {
    if out == [] then [] else Flatten(out[..|out| - 1]) + out[|out| - 1]
  }

  /** The slots one after the other. */
  lemma {:induction false} FlattenConcatenates(out: seq<seq<EdgeView>>)
    ensures Concatenates(Flatten(out), out)
  {
    hide Concatenates;
    if out == [] {
      ConcatenatesNothing<EdgeView>();
    } else {
      var front := out[..|out| - 1];
      FlattenConcatenates(front);
      ConcatenatesMore(Flatten(front), front, out[|out| - 1]);
      assert out == front + [out[|out| - 1]];
    }
  }

  /** The goroutines: the scheduler picks any task that can step until all have signalled. */
  method RunTasks(job: Job, nodes: seq<NodeView>) returns (s: State)
    requires Disjoint(job.tasks, |nodes|) && job.capacity > 0
    ensures Enriched(job, nodes, s.nodes, s.out)
  {
    s := Start(job, nodes);
    StartIsGood(job, nodes);
    while !AllSignalled(s)
      invariant Good(job, nodes, s)
      decreases Measure(job, s)
    {
      hide Good, Measure, Step, AllSignalled, CanStep;
      GoodIsShaped(job, nodes, s);
      NoDeadlock(job, nodes, s);
      var i :| 0 <= i < |job.tasks| && CanStep(job, s, i);
      StepStaysGood(job, nodes, s, i);
      StepsRunOut(job, s, i);
      s := Step(job, s, i);
    }
    SignalledIsEnriched(job, nodes, s);
  }

  method AppendSlots(edges: seq<EdgeView>, out: seq<seq<EdgeView>>) returns (all: seq<EdgeView>)
    ensures all == edges + Flatten(out)
  {
    all := edges;
    for i := 0 to |out|
      invariant all == edges + Flatten(out[..i])
    {
      assert out[..i + 1][..i] == out[..i];
      all := all + out[i];
    }
    assert out[..|out|] == out;
  }

  /** `Enrich`: the files' edges are appended in path order whatever the schedule was. */
  method Enrich(nodes: seq<NodeView>, edges: seq<EdgeView>, supported: string -> bool, extract: Extractor, capacity: nat)
    returns (nodes': seq<NodeView>, edges': seq<EdgeView>)
    requires capacity > 0
    ensures var job := Job(Tasks(nodes, supported), extract, capacity);
            && Disjoint(job.tasks, |nodes|)
            && Enriched(job, nodes, nodes', Slots(job, nodes))
            && edges' == edges + Flatten(Slots(job, nodes))
            && edges <= edges' && Concatenates(edges'[|edges|..], Slots(job, nodes))
  {
    FilesPartitionNodes(nodes, supported);
    var tasks := BuildTasks(nodes, supported);
    var s := RunTasks(Job(tasks, extract, capacity), nodes);
    nodes' := s.nodes;
    edges' := AppendSlots(edges, s.out);
    FlattenConcatenates(s.out);
  }
}
