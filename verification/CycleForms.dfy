/**
 Cycles of the service graph as closed name lists, and the normal form in which
 `FindCircular` reports them (internal/query/topology.go).
 */
module CycleForms {
  import opened Strings

  /** Service name -> names it calls (the `adj` map). */
  type Adjacency = map<string, set<string>>

  function Targets(adj: Adjacency, u: string): set<string> {
    if u in adj then adj[u] else {}
  }

  ghost predicate EdgeAt(adj: Adjacency, w: seq<string>, i: nat) {
    i + 1 < |w| && w[i + 1] in Targets(adj, w[i])
  }

  /** `w` starts and ends at one service and every hop is an edge. */
  ghost predicate ClosedWalk(adj: Adjacency, w: seq<string>) {
    && |w| >= 2
    && w[0] == w[|w| - 1]
    && forall i: nat :: i + 1 < |w| ==> EdgeAt(adj, w, i)
  }

  ghost predicate Acyclic(adj: Adjacency) {
    forall w :: !ClosedWalk(adj, w)
  }

  function Body(cycle: seq<string>): seq<string>
    requires cycle != []
  {
    cycle[..|cycle| - 1]
  }

  function Close(body: seq<string>): seq<string>
    requires body != []
  {
    body + [body[0]]
  }

  /** A closed walk that repeats no service except its end. */
  ghost predicate SimpleCycle(adj: Adjacency, c: seq<string>) {
    ClosedWalk(adj, c) && NoDuplicates(Body(c))
  }

  ghost predicate StartsAtLeast(c: seq<string>) {
    forall i :: 0 <= i < |c| ==> AtMost(c[0], c[i])
  }

  ghost predicate HopAt(c: seq<string>, i: nat, u: string, v: string) {
    i + 1 < |c| && c[i] == u && c[i + 1] == v
  }

  ghost predicate HasEdge(c: seq<string>, u: string, v: string) {
    exists i: nat :: HopAt(c, i, u, v)
  }

  function MinIndexUpTo(body: seq<string>, n: nat): (k: nat)
    requires 1 <= n <= |body|
    ensures k < n
    ensures forall i :: 0 <= i < n ==> AtMost(body[k], body[i])
  {
    if n == 1 then 0
    else
      var m := MinIndexUpTo(body, n - 1);
      if Less(body[n - 1], body[m]) then
        (assert forall i :: 0 <= i < n - 1 ==> AtMost(body[n - 1], body[i]) by {
          forall i | 0 <= i < n - 1
            ensures AtMost(body[n - 1], body[i])
          {
            AtMostTransitive(body[n - 1], body[m], body[i]);
          }
        }
        n - 1)
      else
        (LessTotal(body[n - 1], body[m]);
        m)
  }

  /** First index of the smallest name. */
  function MinIndex(body: seq<string>): (k: nat)
    requires body != []
    ensures k < |body|
    ensures forall i :: 0 <= i < |body| ==> AtMost(body[k], body[i])
  {
    MinIndexUpTo(body, |body|)
  }

  function Rotate(body: seq<string>, k: nat): seq<string>
    requires k <= |body|
  {
    body[k..] + body[..k]
  }

  /** The cycle rotated to its smallest name; lists too short to be cycles are kept. */
  function NormalForm(cycle: seq<string>): seq<string> {
    if |cycle| < 2 then cycle
    else Close(Rotate(Body(cycle), MinIndex(Body(cycle))))
  }

  lemma Wrap(x: nat, n: nat)
    requires x < 2 * n
    ensures x % n == if x < n then x else x - n
  {
    if x >= n {
      assert x == n * 1 + (x - n);
    }
  }

  lemma RotateAt(body: seq<string>, k: nat, i: nat)
    requires k < |body| && i < |body|
    ensures Rotate(body, k)[i] == body[(k + i) % |body|]
  {
    Wrap(k + i, |body|);
  }

  method NormalizeCycle(cycle: seq<string>) returns (rot: seq<string>)
    ensures rot == NormalForm(cycle)
  {
    if |cycle| < 2 {
      return cycle;
    }
    var body := cycle[..|cycle| - 1];
    var minIdx := 0;
    for i := 1 to |body|
      invariant minIdx == MinIndexUpTo(body, i)
    {
      if Less(body[i], body[minIdx]) {
        minIdx := i;
      }
    }
    ghost var target := Rotate(body, minIdx);
    rot := [];
    for i := 0 to |body|
      invariant rot == target[..i]
    {
      RotateAt(body, minIdx, i);
      rot := rot + [body[(minIdx + i) % |body|]];
    }
    rot := rot + [rot[0]];
  }

  lemma RotateKeepsElements(body: seq<string>, k: nat)
    requires k <= |body|
    ensures multiset(Rotate(body, k)) == multiset(body)
    ensures NoDuplicates(body) ==> NoDuplicates(Rotate(body, k))
  {
    assert body == body[..k] + body[k..];
  }

  /** Rotating a closed list keeps its edges. */
  lemma RotateKeepsEdge(body: seq<string>, k: nat, u: string, v: string)
    requires body != [] && k < |body|
    requires HasEdge(Close(body), u, v)
    ensures HasEdge(Close(Rotate(body, k)), u, v)
  {
    var n := |body|;
    var c := Close(body);
    var r := Close(Rotate(body, k));
    var i: nat :| HopAt(c, i, u, v);
    var j := if i >= k then i - k else i + n - k;
    assert HopAt(r, j, u, v);
  }

  lemma RotateIsUndone(body: seq<string>, k: nat)
    requires body != [] && k < |body|
    ensures k == 0 ==> Rotate(body, k) == body
    ensures k > 0 ==> Rotate(Rotate(body, k), |body| - k) == body
  {
  }

  lemma CloseOfBody(c: seq<string>)
    requires |c| >= 2 && c[0] == c[|c| - 1]
    ensures Close(Body(c)) == c
  {
  }

  lemma RotateKeepsEdges(body: seq<string>, k: nat, u: string, v: string)
    requires body != [] && k < |body|
    ensures HasEdge(Close(body), u, v) <==> HasEdge(Close(Rotate(body, k)), u, v)
  {
    if HasEdge(Close(body), u, v) {
      RotateKeepsEdge(body, k, u, v);
    }
    if HasEdge(Close(Rotate(body, k)), u, v) {
      RotateIsUndone(body, k);
      if k > 0 {
        RotateKeepsEdge(Rotate(body, k), |body| - k, u, v);
      }
    }
  }

  lemma RotateKeepsClosedWalk(adj: Adjacency, body: seq<string>, k: nat)
    requires body != [] && k < |body| && ClosedWalk(adj, Close(body))
    ensures ClosedWalk(adj, Close(Rotate(body, k)))
  {
    var r := Close(Rotate(body, k));
    forall i: nat | i + 1 < |r|
      ensures EdgeAt(adj, r, i)
    {
      assert HopAt(r, i, r[i], r[i + 1]);
      RotateKeepsEdges(body, k, r[i], r[i + 1]);
      var c := Close(body);
      var j: nat :| HopAt(c, j, r[i], r[i + 1]);
      assert EdgeAt(adj, c, j);
    }
  }

  lemma RotateToLeast(body: seq<string>)
    requires body != []
    ensures StartsAtLeast(Close(Rotate(body, MinIndex(body))))
  {
    var r := Close(Rotate(body, MinIndex(body)));
    forall i | 0 <= i < |r|
      ensures AtMost(r[0], r[i])
    {
      if i < |body| {
        RotateAt(body, MinIndex(body), i);
      }
    }
  }

  /** Normalising a cycle keeps its edges, its services and their number; only the starting point moves. */
  lemma NormalFormIsSameCycle(adj: Adjacency, c: seq<string>)
    requires SimpleCycle(adj, c)
    ensures SimpleCycle(adj, NormalForm(c)) && StartsAtLeast(NormalForm(c))
    ensures |NormalForm(c)| == |c|
    ensures forall u, v :: HasEdge(c, u, v) <==> HasEdge(NormalForm(c), u, v)
  {
    var body := Body(c);
    var k := MinIndex(body);
    CloseOfBody(c);
    RotateKeepsElements(body, k);
    RotateKeepsClosedWalk(adj, body, k);
    RotateToLeast(body);
    assert Body(Close(Rotate(body, k))) == Rotate(body, k);
    forall u, v
      ensures HasEdge(c, u, v) <==> HasEdge(NormalForm(c), u, v)
    {
      RotateKeepsEdges(body, k, u, v);
    }
  }

  ghost predicate IsRotation(a: seq<string>, b: seq<string>) {
    exists k: nat :: k < |a| && b == Rotate(a, k)
  }

  lemma MinIndexIsUnique(body: seq<string>, k: nat)
    requires NoDuplicates(body) && k < |body|
    requires forall i :: 0 <= i < |body| ==> AtMost(body[k], body[i])
    ensures MinIndex(body) == k
  {
    var m := MinIndex(body);
    if m != k {
      assert Less(body[m], body[k]) && Less(body[k], body[m]);
      LessTransitive(body[m], body[k], body[m]);
      LessIrreflexive(body[m]);
    }
  }

  lemma RotateTwice(a: seq<string>, k: nat, j: nat)
    requires a != [] && k < |a| && j < |a|
    ensures Rotate(Rotate(a, k), j) == Rotate(a, if k + j < |a| then k + j else k + j - |a|)
  {
  }

  lemma EqualNormalFormsRotate(a: seq<string>, b: seq<string>)
    requires a != [] && b != []
    requires Rotate(a, MinIndex(a)) == Rotate(b, MinIndex(b))
    ensures IsRotation(a, b)
  {
    var ka, kb := MinIndex(a), MinIndex(b);
    assert |Rotate(a, ka)| == |a| && |Rotate(b, kb)| == |b|;
    RotateIsUndone(b, kb);
    if kb == 0 {
      assert b == Rotate(a, ka);
    } else {
      RotateTwice(a, ka, |b| - kb);
    }
  }

  lemma RotationsShareNormalForm(a: seq<string>, k: nat)
    requires k < |a| && NoDuplicates(a)
    ensures Rotate(Rotate(a, k), MinIndex(Rotate(a, k))) == Rotate(a, MinIndex(a))
  {
    var b, ka := Rotate(a, k), MinIndex(a);
    var j := if ka >= k then ka - k else ka + |a| - k;
    RotateKeepsElements(a, k);
    assert b[j] == a[ka];
    forall i | 0 <= i < |b|
      ensures AtMost(b[j], b[i])
    {
      RotateAt(a, k, i);
    }
    MinIndexIsUnique(b, j);
    RotateTwice(a, k, j);
  }

  /** Two duplicate-free cycles are reported under one normal form exactly when one is a rotation of the other. */
  lemma SameNormalFormIffRotation(a: seq<string>, b: seq<string>)
    requires a != [] && b != [] && NoDuplicates(a) && NoDuplicates(b)
    ensures NormalForm(Close(a)) == NormalForm(Close(b)) <==> IsRotation(a, b)
  {
    assert Body(Close(a)) == a && Body(Close(b)) == b;
    assert Body(NormalForm(Close(a))) == Rotate(a, MinIndex(a));
    assert Body(NormalForm(Close(b))) == Rotate(b, MinIndex(b));
    if NormalForm(Close(a)) == NormalForm(Close(b)) {
      EqualNormalFormsRotate(a, b);
    }
    if IsRotation(a, b) {
      var k: nat :| k < |a| && b == Rotate(a, k);
      RotationsShareNormalForm(a, k);
    }
  }
}
