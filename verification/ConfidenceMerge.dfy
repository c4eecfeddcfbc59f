/**
 The merge rule of `mergeNode` and `mergeEdge` (internal/analyzer/merger.go) on the part of
 a record it works on: a confidence and the slots that are filled. The more confident record
 survives, ties keep the one already there, and the donor only fills the survivor's gaps.
 */
module ConfidenceMerge {
  import opened Sequences

  /** A property value or the content of a non-empty scalar field. */
  datatype Any = Nil | Text(text: string) | Number(number: int) | Flag(flag: bool)

  /** A place a merge can fill: a scalar field of the record or one property key. */
  datatype Slot = Fqn | Module | FilePath | LineStart | LineEnd | Layer | Source | Property(key: string)

  datatype Record = Record(confidence: int, slots: map<Slot, Any>)

  function Merge(existing: Record, incoming: Record): Record {
    if incoming.confidence > existing.confidence
    then Record(incoming.confidence, existing.slots + incoming.slots)
    else Record(existing.confidence, incoming.slots + existing.slots)
  }

  /** The record left after the emissions arrived in the given order. */
  function Fold(rs: seq<Record>): Record
    requires rs != []
  {
    if |rs| == 1 then rs[0] else Merge(Fold(rs[..|rs| - 1]), rs[|rs| - 1])
  }

  // ---- what every order agrees on ----

  ghost predicate HasMaxConfidence(rs: seq<Record>, c: int) {
    && (forall r :: r in rs ==> r.confidence <= c)
    && exists r :: r in rs && r.confidence == c
  }

  /** The merged record has the greatest emitted confidence and exactly the slots some emission fills. */
  lemma {:induction false} FoldSummary(rs: seq<Record>)
    requires rs != []
    ensures HasMaxConfidence(rs, Fold(rs).confidence)
    ensures forall s :: s in Fold(rs).slots <==> exists r :: r in rs && s in r.slots
  {
    if |rs| == 1 {
      assert rs[0] in rs;
    } else {
      var front, last := rs[..|rs| - 1], rs[|rs| - 1];
      FoldSummary(front);
      assert rs == front + [last];
      assert forall r :: r in rs <==> r in front || r == last;
      var r :| r in front && r.confidence == Fold(front).confidence;
      assert r in rs && last in rs;
    }
  }

  /** Confidence never drops while emissions arrive. */
  lemma {:induction false} ConfidenceNeverDrops(rs: seq<Record>, n: nat)
    requires 0 < n <= |rs|
    ensures Fold(rs[..n]).confidence <= Fold(rs).confidence
    decreases |rs|
  {
    if n < |rs| {
      assert rs[..|rs| - 1][..n] == rs[..n];
      ConfidenceNeverDrops(rs[..|rs| - 1], n);
    } else {
      assert rs[..n] == rs;
    }
  }

  lemma SummaryIsOrderIndependent(rs: seq<Record>, ts: seq<Record>)
    requires rs != [] && multiset(rs) == multiset(ts)
    ensures ts != []
    ensures Fold(rs).confidence == Fold(ts).confidence
    ensures Fold(rs).slots.Keys == Fold(ts).slots.Keys
  {
    assert |multiset(rs)| == |multiset(ts)|;
    assert forall r :: r in rs <==> r in multiset(rs);
    assert forall r :: r in ts <==> r in multiset(ts);
    FoldSummary(rs);
    FoldSummary(ts);
  }

  // ---- whose value survives ----

  /** Once a record of maximal confidence holds a slot, later arrivals never change it. */
  lemma {:induction false} SlotStays(rs: seq<Record>, more: seq<Record>, s: Slot)
    requires rs != [] && s in Fold(rs).slots
    requires forall r :: r in more ==> r.confidence <= Fold(rs).confidence
    ensures Fold(rs + more).confidence == Fold(rs).confidence
    ensures s in Fold(rs + more).slots && Fold(rs + more).slots[s] == Fold(rs).slots[s]
    decreases |more|
  {
    if more == [] {
      assert rs + more == rs;
    } else {
      var all, front := rs + more, more[..|more| - 1];
      assert all[..|all| - 1] == rs + front;
      assert more[|more| - 1] in more;
      SlotStays(rs, front, s);
    }
  }

  /** A top record that arrives over weaker ones takes the slot over. */
  lemma {:induction false} StrictTopWins(rs: seq<Record>, top: Record, s: Slot)
    requires top in rs && s in top.slots
    requires forall r :: r in rs && r != top ==> r.confidence < top.confidence
    ensures s in Fold(rs).slots && Fold(rs).slots[s] == top.slots[s]
    ensures Fold(rs).confidence == top.confidence
  {
    var last, front := rs[|rs| - 1], rs[..|rs| - 1];
    assert rs == front + [last];
    assert last in rs;
    if |rs| > 1 {
      if top in front {
        StrictTopWins(front, top, s);
      } else {
        FoldSummary(front);
        var r :| r in front && r.confidence == Fold(front).confidence;
        assert r in rs && r != top;
      }
    }
  }

  /** The first of the most confident records stands at `p`. */
  ghost predicate FirstTop(rs: seq<Record>, p: int) {
    && 0 <= p < |rs|
    && (forall i :: 0 <= i < p ==> rs[i].confidence < rs[p].confidence)
    && (forall i :: p < i < |rs| ==> rs[i].confidence <= rs[p].confidence)
  }

  /** A gap is filled by the first later record that has the slot; a filled slot stays. */
  lemma {:induction false} GapIsFilledOnce(rs: seq<Record>, more: seq<Record>, s: Slot, q: nat)
    requires rs != [] && s !in Fold(rs).slots && q < |more|
    requires forall r :: r in more ==> r.confidence <= Fold(rs).confidence
    requires s in more[q].slots && forall i :: 0 <= i < q ==> s !in more[i].slots
    ensures s in Fold(rs + more).slots && Fold(rs + more).slots[s] == more[q].slots[s]
    decreases q
  {
    var next := rs + [more[0]];
    assert next[..|rs|] == rs && more[0] in more;
    assert rs + more == next + more[1..];
    assert Fold(next) == Merge(Fold(rs), more[0]);
    if q == 0 {
      SlotStays(next, more[1..], s);
    } else {
      GapIsFilledOnce(next, more[1..], s, q - 1);
    }
  }

  lemma BeforeFirstTop(rs: seq<Record>, p: nat)
    requires FirstTop(rs, p)
    ensures rs == rs[..p + 1] + rs[p + 1..] && Fold(rs[..p + 1]).confidence == rs[p].confidence
    ensures forall s :: s in Fold(rs[..p + 1]).slots <==> s in rs[p].slots || (p > 0 && s in Fold(rs[..p]).slots)
    ensures forall s :: s in Fold(rs[..p + 1]).slots ==>
              Fold(rs[..p + 1]).slots[s] == if s in rs[p].slots then rs[p].slots[s] else Fold(rs[..p]).slots[s]
  {
    if p > 0 {
      var front := rs[..p];
      FoldSummary(front);
      assert rs[..p + 1][..p] == front && rs[..p + 1][p] == rs[p];
      var r :| r in front && r.confidence == Fold(front).confidence;
      assert Fold(rs[..p + 1]) == Merge(Fold(front), rs[p]);
    }
  }

  lemma LaterFill(rs: seq<Record>, p: nat, s: Slot, q: nat)
    requires FirstTop(rs, p) && p < q < |rs|
    requires (forall i :: 0 <= i < q ==> s !in rs[i].slots) && s in rs[q].slots
    ensures s in Fold(rs).slots && Fold(rs).slots[s] == rs[q].slots[s]
  {
    var head, more := rs[..p + 1], rs[p + 1..];
    hide Fold;
    BeforeFirstTop(rs, p);
    if p > 0 {
      FoldSummary(rs[..p]);
    }
    GapIsFilledOnce(head, more, s, q - p - 1);
  }

  lemma EarlyFill(rs: seq<Record>, p: nat, s: Slot)
    requires FirstTop(rs, p) && s in Fold(rs[..p + 1]).slots
    ensures s in Fold(rs).slots && Fold(rs).slots[s] == Fold(rs[..p + 1]).slots[s]
  {
    hide Fold;
    BeforeFirstTop(rs, p);
    SlotStays(rs[..p + 1], rs[p + 1..], s);
  }

  lemma TopConfidence(rs: seq<Record>, p: nat)
    requires FirstTop(rs, p)
    ensures Fold(rs).confidence == rs[p].confidence
  {
    hide Fold;
    FoldSummary(rs);
    assert rs[p] in rs;
  }

  /**
   Where a merged slot comes from: the first most confident record; if that one has a gap, what
   was merged before it arrived; if that has the gap too, the first later record that fills it.
   */
  lemma SlotOrigin(rs: seq<Record>, p: nat, s: Slot)
    requires FirstTop(rs, p)
    ensures Fold(rs).confidence == rs[p].confidence
    ensures s in rs[p].slots ==> s in Fold(rs).slots && Fold(rs).slots[s] == rs[p].slots[s]
    ensures s !in rs[p].slots && p > 0 && s in Fold(rs[..p]).slots ==>
              s in Fold(rs).slots && Fold(rs).slots[s] == Fold(rs[..p]).slots[s]
    ensures forall q :: p < q < |rs| && (forall i :: 0 <= i < q ==> s !in rs[i].slots) && s in rs[q].slots ==>
              s in Fold(rs).slots && Fold(rs).slots[s] == rs[q].slots[s]
  {
    hide Fold;
    TopConfidence(rs, p);
    BeforeFirstTop(rs, p);
    if s in Fold(rs[..p + 1]).slots {
      EarlyFill(rs, p, s);
    }
    forall q | p < q < |rs| && (forall i :: 0 <= i < q ==> s !in rs[i].slots) && s in rs[q].slots
      ensures s in Fold(rs).slots && Fold(rs).slots[s] == rs[q].slots[s]
    {
      LaterFill(rs, p, s, q);
    }
  }

  /** All emissions that fill the slot fill it with one value. */
  ghost predicate CarriersAgree(rs: seq<Record>, s: Slot) {
    forall p, q :: p in rs && q in rs && s in p.slots && s in q.slots ==> p.slots[s] == q.slots[s]
  }

  ghost predicate IsTop(rs: seq<Record>, p: Record) {
    p in rs && forall q :: q in rs ==> q.confidence <= p.confidence
  }

  /** All most confident emissions fill the slot, with one value. */
  ghost predicate TopsAgree(rs: seq<Record>, s: Slot) {
    forall p, q :: IsTop(rs, p) && IsTop(rs, q) ==> s in p.slots && s in q.slots && p.slots[s] == q.slots[s]
  }

  ghost function SlotValue(r: Record, s: Slot): Any {
    if s in r.slots then r.slots[s] else Nil
  }

  ghost predicate ValueIsOrderIndependent(rs: seq<Record>, s: Slot)
    requires rs != []
  {
    forall ts :: ts != [] && multiset(ts) == multiset(rs) ==> SlotValue(Fold(ts), s) == SlotValue(Fold(rs), s)
  }

  lemma {:induction false} FoldTakesSomeValue(rs: seq<Record>, s: Slot)
    requires rs != [] && s in Fold(rs).slots
    ensures exists r :: r in rs && s in r.slots && r.slots[s] == Fold(rs).slots[s]
  {
    var last, front := rs[|rs| - 1], rs[..|rs| - 1];
    assert rs == front + [last] && last in rs;
    if |rs| > 1 && s in Fold(front).slots {
      FoldTakesSomeValue(front, s);
      var r :| r in front && s in r.slots && r.slots[s] == Fold(front).slots[s];
      assert r in rs;
    }
  }

  /** If every most confident emission fills the slot, the merged value comes from one of them. */
  lemma {:induction false} TopProvidesValue(rs: seq<Record>, s: Slot)
    requires rs != [] && forall p :: IsTop(rs, p) ==> s in p.slots
    ensures exists p :: IsTop(rs, p) && s in p.slots && s in Fold(rs).slots && Fold(rs).slots[s] == p.slots[s]
  {
    var last, front := rs[|rs| - 1], rs[..|rs| - 1];
    assert rs == front + [last] && last in rs;
    if |rs| == 1 {
      assert IsTop(rs, last);
    } else {
      FoldSummary(front);
      assert forall q :: q in rs <==> q in front || q == last;
      if last.confidence > Fold(front).confidence {
        assert IsTop(rs, last);
      } else {
        assert forall p :: IsTop(front, p) ==> IsTop(rs, p);
        TopProvidesValue(front, s);
      }
    }
  }

  lemma AgreementGivesIndependence(rs: seq<Record>, ts: seq<Record>, s: Slot)
    requires rs != [] && ts != [] && multiset(ts) == multiset(rs)
    requires CarriersAgree(rs, s) || TopsAgree(rs, s)
    ensures SlotValue(Fold(ts), s) == SlotValue(Fold(rs), s)
  {
    assert forall r :: r in rs <==> r in multiset(rs);
    assert forall r :: r in ts <==> r in multiset(ts);
    SummaryIsOrderIndependent(rs, ts);
    if TopsAgree(rs, s) {
      assert forall p :: IsTop(rs, p) <==> IsTop(ts, p);
      assert forall p :: IsTop(rs, p) && IsTop(rs, p) ==> s in p.slots;
      TopProvidesValue(rs, s);
      TopProvidesValue(ts, s);
    } else if s in Fold(rs).slots {
      FoldTakesSomeValue(rs, s);
      FoldTakesSomeValue(ts, s);
    }
  }

  /** Arriving first, a top record keeps its slot. */
  lemma TopFirst(p: Record, rest: seq<Record>, s: Slot)
    requires s in p.slots && forall r :: r in rest ==> r.confidence <= p.confidence
    ensures SlotValue(Fold([p] + rest), s) == p.slots[s]
  {
    assert Fold([p]) == p;
    SlotStays([p], rest, s);
  }

  /** Arriving first, a top record with a gap takes the value of the next emission. */
  lemma TopThenCarrier(p: Record, q: Record, rest: seq<Record>, s: Slot)
    requires s !in p.slots && s in q.slots && q.confidence <= p.confidence
    requires forall r :: r in rest ==> r.confidence <= p.confidence
    ensures SlotValue(Fold([p, q] + rest), s) == q.slots[s]
  {
    assert [p, q][..1] == [p];
    SlotStays([p, q], rest, s);
  }

  ghost function IndexOf(rs: seq<Record>, p: Record): (i: nat)
    requires p in rs
    ensures i < |rs| && rs[i] == p
  {
    var i: nat :| i < |rs| && rs[i] == p;
    i
  }

  /** Orders that start with a chosen record, or with two chosen distinct ones. */
  lemma StartingWith(rs: seq<Record>, p: Record) returns (rest: seq<Record>)
    requires p in rs
    ensures multiset([p] + rest) == multiset(rs)
    ensures forall r :: r in rest ==> r in rs
  {
    RemoveAtMultiset(rs, IndexOf(rs, p));
    rest := RemoveAt(rs, IndexOf(rs, p));
  }

  lemma StartingWithTwo(rs: seq<Record>, p: Record, q: Record) returns (rest: seq<Record>)
    requires p in rs && q in rs && p != q
    ensures multiset([p, q] + rest) == multiset(rs)
    ensures forall r :: r in rest ==> r in rs
  {
    rest := BringToFront(rs, IndexOf(rs, p), IndexOf(rs, q));
    forall r | r in rest
      ensures r in rs
    {
      assert r in multiset(rest) && r in multiset(rs);
    }
  }

  lemma GapGivesDependence(rs: seq<Record>, m: Record, p: Record, q: Record, s: Slot)
    returns (xs: seq<Record>, ys: seq<Record>)
    requires IsTop(rs, m) && s !in m.slots
    requires p in rs && q in rs && s in p.slots && s in q.slots && p.slots[s] != q.slots[s]
    ensures xs != [] && ys != [] && multiset(xs) == multiset(rs) && multiset(ys) == multiset(rs)
    ensures SlotValue(Fold(xs), s) != SlotValue(Fold(ys), s)
  {
    var xrest := StartingWithTwo(rs, m, p);
    var yrest := StartingWithTwo(rs, m, q);
    xs, ys := [m, p] + xrest, [m, q] + yrest;
    TopThenCarrier(m, p, xrest, s);
    TopThenCarrier(m, q, yrest, s);
  }

  lemma DisagreementGivesDependence(rs: seq<Record>, s: Slot) returns (xs: seq<Record>, ys: seq<Record>)
    requires rs != [] && !CarriersAgree(rs, s) && !TopsAgree(rs, s)
    ensures xs != [] && ys != [] && multiset(xs) == multiset(rs) && multiset(ys) == multiset(rs)
    ensures SlotValue(Fold(xs), s) != SlotValue(Fold(ys), s)
  {
    if m :| IsTop(rs, m) && s !in m.slots {
      var p, q :| p in rs && q in rs && s in p.slots && s in q.slots && p.slots[s] != q.slots[s];
      xs, ys := GapGivesDependence(rs, m, p, q, s);
    } else {
      var p, q :| IsTop(rs, p) && IsTop(rs, q) && p.slots[s] != q.slots[s];
      var xrest := StartingWith(rs, p);
      var yrest := StartingWith(rs, q);
      xs, ys := [p] + xrest, [q] + yrest;
      TopFirst(p, xrest, s);
      TopFirst(q, yrest, s);
    }
  }

  /**
   The merged value of a slot is the same for every arrival order exactly when all emissions
   filling it agree, or all most confident emissions fill it and agree.
   */
  lemma ValueIndependenceIsExact(rs: seq<Record>, s: Slot)
    requires rs != []
    ensures ValueIsOrderIndependent(rs, s) <==> CarriersAgree(rs, s) || TopsAgree(rs, s)
  {
    if CarriersAgree(rs, s) || TopsAgree(rs, s) {
      forall ts | ts != [] && multiset(ts) == multiset(rs)
        ensures SlotValue(Fold(ts), s) == SlotValue(Fold(rs), s)
      {
        AgreementGivesIndependence(rs, ts, s);
      }
    } else {
      var xs, ys := DisagreementGivesDependence(rs, s);
    }
  }
}
