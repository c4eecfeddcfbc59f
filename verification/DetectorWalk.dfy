/**
 The recursive walk of the AST detectors (internal/detector/base/treesitter.go): every level
 wraps the visitor in a closure with its own abort flag, so a rejection below the root ends
 the walk of one root child only.
 */
module DetectorWalk {
  import opened Options
  import opened Sequences
  import opened SyntaxTree

  /** A named node: the named-child indices leading to it, and its type. */
  datatype Node = Node(path: Path, kind: string)

  /** A visitor's answer may depend on what it was shown before. */
  type Visitor = (seq<Node>, Node) -> bool

  function NamedFrom(children: seq<Tree>): (named: seq<Tree>)
    ensures forall k :: 0 <= k < |named| ==> named[k] in children
  {
    if children == [] then []
    else if children[0].named then [children[0]] + NamedFrom(children[1..])
    else NamedFrom(children[1..])
  }

  function NamedChildren(t: Tree): (named: seq<Tree>)
    ensures forall k :: 0 <= k < |named| ==> named[k] in t.children
  {
    NamedFrom(t.children)
  }

  lemma {:induction false} NamedFromIsFilter(children: seq<Tree>)
    ensures NamedFrom(children) == Filter((c: Tree) => c.named, children)
  {
    var named := (c: Tree) => c.named;
    if children == [] {
    } else {
      NamedFromIsFilter(children[1..]);
      assert children == [children[0]] + children[1..];
      FilterConcat(named, [children[0]], children[1..]);
      FilterOne(named, children[0]);
    }
  }

  // ---- what the walk shows its visitor ----

  function CutFrom(t: Tree, p: Path, i: nat, visit: Visitor, seen: seq<Node>): (seq<Node>, bool)
    requires i <= |NamedChildren(t)|
    decreases t, |NamedChildren(t)| - i
  {
    if i == |NamedChildren(t)| then (seen, true)
    else
      var r := Cut(NamedChildren(t)[i], p + [i], visit, seen);
      if r.1 then CutFrom(t, p, i + 1, visit, r.0) else r
  }

  /** Below a root child: pre-order until the first rejection. The flag says whether all were accepted. */
  function Cut(t: Tree, p: Path, visit: Visitor, seen: seq<Node>): (seq<Node>, bool)
    decreases t, |NamedChildren(t)| + 1
  {
    var n := Node(p, t.kind);
    if visit(seen, n) then CutFrom(t, p, 0, visit, seen + [n]) else (seen + [n], false)
  }

  function RootChildren(t: Tree, i: nat, visit: Visitor, seen: seq<Node>): seq<Node>
    requires i <= |NamedChildren(t)|
    decreases |NamedChildren(t)| - i
  {
    if i == |NamedChildren(t)| then seen
    else RootChildren(t, i + 1, visit, Cut(NamedChildren(t)[i], [i], visit, seen).0)
  }

  /** From the root: each root child is cut on its own. */
  function RootWalk(t: Tree, visit: Visitor): seq<Node> {
    var n := Node([], t.kind);
    if visit([], n) then RootChildren(t, 0, visit, [n]) else [n]
  }

  // ---- the closures ----

  /** The captured variables: the caller's record of visits, and one abort flag per nesting level. */
  class Walker {
    const visit: Visitor
    var seen: seq<Node>
    var aborted: seq<bool>

    constructor (visit: Visitor)
      ensures this.visit == visit && seen == [] && aborted == []
    {
      this.visit := visit;
      seen, aborted := [], [];
    }

    /** No level is aborted unless the outermost one is. */
    ghost predicate OuterFirst()
      reads this
    {
      forall j :: 0 <= j < |aborted| && aborted[j] ==> aborted[0]
    }

    /** The visitor wrapped `depth` times. */
    method Call(depth: nat, n: Node) returns (ok: bool)
      requires depth <= |aborted| && OuterFirst()
      modifies this
      decreases depth
      ensures |aborted| == |old(aborted)| && OuterFirst()
      ensures depth > 0 && old(aborted)[0] ==> !ok && seen == old(seen)
      ensures !(depth > 0 && old(aborted)[0]) ==> ok == visit(old(seen), n) && seen == old(seen) + [n]
      ensures ok ==> aborted == old(aborted)
      ensures depth > 0 && !ok ==> aborted[0]
    {
      if depth == 0 {
        ok := visit(seen, n);
        seen := seen + [n];
      } else {
        if aborted[depth - 1] {
          return false;
        }
        ok := Call(depth - 1, n);
        if !ok {
          aborted := aborted[depth - 1 := true];
        }
      }
    }

    /** `Walk` below a root child, with the visitor wrapped `depth` times. */
    method WalkBelow(t: Tree, p: Path, depth: nat)
      requires 1 <= depth == |aborted| && OuterFirst()
      modifies this
      decreases t
      ensures |aborted| == depth && OuterFirst()
      ensures old(aborted)[0] ==> seen == old(seen) && aborted[0]
      ensures !old(aborted)[0] ==>
                var r := Cut(t, p, visit, old(seen));
                seen == r.0 && aborted[0] == !r.1
    {
      var ok := Call(depth, Node(p, t.kind));
      if !ok {
        return;
      }
      var named := NamedChildren(t);
      for i := 0 to |named|
        invariant |aborted| == depth && OuterFirst() && !old(aborted)[0]
        invariant aborted[0] ==> (seen, false) == Cut(t, p, visit, old(seen))
        invariant !aborted[0] ==> Cut(t, p, visit, old(seen)) == CutFrom(t, p, i, visit, seen)
      {
        aborted := aborted + [false];
        WalkBelow(named[i], p + [i], depth + 1);
        aborted := aborted[..depth];
      }
    }

    /** `Walk` from the root, with the caller's own visitor. */
    method WalkRoot(t: Tree)
      requires seen == [] && aborted == []
      modifies this
      ensures seen == RootWalk(t, visit)
    {
      var ok := Call(0, Node([], t.kind));
      assert seen == [Node([], t.kind)];
      if !ok {
        return;
      }
      var named := NamedChildren(t);
      for i := 0 to |named|
        invariant aborted == []
        invariant RootWalk(t, visit) == RootChildren(t, i, visit, seen)
      {
        aborted := [false];
        assert [] + [i] == [i];
        WalkBelow(named[i], [i], 1);
        aborted := [];
      }
    }
  }

  // ---- stateless visitors ----

  function FlatFrom(t: Tree, p: Path, i: nat): (nodes: seq<Node>)
    requires i <= |NamedChildren(t)|
    decreases t, |NamedChildren(t)| - i
  {
    if i == |NamedChildren(t)| then []
    else Flat(NamedChildren(t)[i], p + [i]) + FlatFrom(t, p, i + 1)
  }

  /** Pre-order over the named nodes. */
  function Flat(t: Tree, p: Path): (nodes: seq<Node>)
    ensures nodes != [] && nodes[0] == Node(p, t.kind)
    decreases t, |NamedChildren(t)| + 1
  {
    [Node(p, t.kind)] + FlatFrom(t, p, 0)
  }

  lemma {:induction false} FlatFromStaysBelow(t: Tree, p: Path, i: nat, n: Node)
    requires i <= |NamedChildren(t)| && n in FlatFrom(t, p, i)
    ensures p <= n.path
    decreases t, |NamedChildren(t)| - i
  {
    if i < |NamedChildren(t)| {
      if n in Flat(NamedChildren(t)[i], p + [i]) {
        FlatStaysBelow(NamedChildren(t)[i], p + [i], n);
        assert p <= p + [i];
      } else {
        FlatFromStaysBelow(t, p, i + 1, n);
      }
    }
  }

  lemma {:induction false} FlatStaysBelow(t: Tree, p: Path, n: Node)
    requires n in Flat(t, p)
    ensures p <= n.path
    decreases t, |NamedChildren(t)| + 1
  {
    if n != Node(p, t.kind) {
      FlatFromStaysBelow(t, p, 0, n);
    }
  }

  /** Following named-child indices, `p` leads to a node of this type. */
  ghost predicate NamedAt(t: Tree, p: Path, kind: string)
    decreases |p|
  {
    if p == [] then t.kind == kind else p[0] < |NamedChildren(t)| && NamedAt(NamedChildren(t)[p[0]], p[1..], kind)
  }

  /** Ancestors first, then by the first index that differs. */
  ghost predicate PathLess(p: Path, q: Path) {
    p < q || exists i :: 0 <= i < |p| && i < |q| && p[..i] == q[..i] && p[i] < q[i]
  }

  lemma PathsPart(base: Path, i: nat, p: Path, q: Path)
    requires base + [i] <= p && base < q && q[|base|] > i
    ensures PathLess(p, q)
  {
    assert p[..|base|] == (base + [i])[..|base|] == base == q[..|base|];
    assert p[|base|] == (base + [i])[|base|] == i;
  }

  lemma {:induction false} FlatFromIsExact(t: Tree, base: Path, i: nat, n: Node)
    requires i <= |NamedChildren(t)|
    ensures n in FlatFrom(t, base, i) <==>
            base < n.path && i <= n.path[|base|] < |NamedChildren(t)| &&
            NamedAt(NamedChildren(t)[n.path[|base|]], n.path[|base| + 1..], n.kind)
    decreases t, |NamedChildren(t)| - i
  {
    if i < |NamedChildren(t)| {
      FlatIsExact(NamedChildren(t)[i], base + [i], n);
      FlatFromIsExact(t, base, i + 1, n);
      if base < n.path && n.path[|base|] == i {
        assert n.path[..|base| + 1] == base + [i];
      }
      if base + [i] <= n.path {
        assert n.path[..|base|] == (base + [i])[..|base|] == base;
        assert n.path[|base|] == (base + [i])[|base|];
      }
    }
  }

  /** The pre-order holds exactly the nodes that named-child indices lead to. */
  lemma {:induction false} FlatIsExact(t: Tree, base: Path, n: Node)
    ensures n in Flat(t, base) <==> base <= n.path && NamedAt(t, n.path[|base|..], n.kind)
    decreases t, |NamedChildren(t)| + 1
  {
    FlatFromIsExact(t, base, 0, n);
    if base < n.path {
      assert n.path[|base|..][0] == n.path[|base|] && n.path[|base|..][1..] == n.path[|base| + 1..];
      assert n.path != base;
    } else if base == n.path {
      assert n.path[|base|..] == [];
    }
  }

  ghost predicate PathsAscend(nodes: seq<Node>) {
    forall i, j :: 0 <= i < j < |nodes| ==> PathLess(nodes[i].path, nodes[j].path)
  }

  lemma PathsAscendConcat(a: seq<Node>, b: seq<Node>)
    requires PathsAscend(a) && PathsAscend(b) && forall x, y :: x in a && y in b ==> PathLess(x.path, y.path)
    ensures PathsAscend(a + b)
  {
    hide PathLess;
    forall i, j | 0 <= i < j < |a + b|
      ensures PathLess((a + b)[i].path, (a + b)[j].path)
    {
      if i < |a| <= j {
        assert a[i] in a && b[j - |a|] in b;
      }
    }
  }

  lemma {:induction false} FlatFromAscends(t: Tree, base: Path, i: nat)
    requires i <= |NamedChildren(t)|
    ensures PathsAscend(FlatFrom(t, base, i))
    decreases t, |NamedChildren(t)| - i
  {
    if i < |NamedChildren(t)| {
      var first, later := Flat(NamedChildren(t)[i], base + [i]), FlatFrom(t, base, i + 1);
      FlatAscends(NamedChildren(t)[i], base + [i]);
      FlatFromAscends(t, base, i + 1);
      forall x, y | x in first && y in later
        ensures PathLess(x.path, y.path)
      {
        FlatStaysBelow(NamedChildren(t)[i], base + [i], x);
        FlatFromIsExact(t, base, i + 1, y);
        PathsPart(base, i, x.path, y.path);
      }
      PathsAscendConcat(first, later);
    }
  }

  /** The pre-order visits ancestors first and siblings in order. */
  lemma {:induction false} FlatAscends(t: Tree, base: Path)
    ensures PathsAscend(Flat(t, base))
    decreases t, |NamedChildren(t)| + 1
  {
    FlatFromAscends(t, base, 0);
    forall y | y in FlatFrom(t, base, 0)
      ensures PathLess(base, y.path)
    {
      FlatFromIsExact(t, base, 0, y);
    }
    PathsAscendConcat([Node(base, t.kind)], FlatFrom(t, base, 0));
  }

  predicate AllAccepted(accept: Node -> bool, nodes: seq<Node>) {
    forall k :: 0 <= k < |nodes| ==> accept(nodes[k])
  }

  /** The part of a list up to and including its first rejected element. */
  function UpToReject(accept: Node -> bool, nodes: seq<Node>): seq<Node> {
    if nodes == [] || !accept(nodes[0]) then nodes[..if nodes == [] then 0 else 1]
    else [nodes[0]] + UpToReject(accept, nodes[1..])
  }

  lemma {:induction false} UpToRejectConcat(accept: Node -> bool, a: seq<Node>, b: seq<Node>)
    ensures UpToReject(accept, a + b) == if AllAccepted(accept, a) then a + UpToReject(accept, b) else UpToReject(accept, a)
    ensures AllAccepted(accept, a) ==> UpToReject(accept, a) == a
    decreases |a|
  {
    if a == [] {
      assert a + b == b;
    } else {
      assert (a + b)[1..] == a[1..] + b && a == [a[0]] + a[1..];
      UpToRejectConcat(accept, a[1..], b);
      assert AllAccepted(accept, a) <==> accept(a[0]) && AllAccepted(accept, a[1..]);
    }
  }

  /** A prefix that ends with the first rejected element, or everything when there is none. */
  lemma {:induction false} UpToRejectIs(accept: Node -> bool, nodes: seq<Node>)
    ensures var r := UpToReject(accept, nodes);
            && r <= nodes && (forall k :: 0 <= k < |r| - 1 ==> accept(r[k]))
            && (r == nodes || (r != [] && !accept(r[|r| - 1])))
  {
    if nodes == [] || !accept(nodes[0]) {
    } else {
      UpToRejectIs(accept, nodes[1..]);
      var r, rest := UpToReject(accept, nodes), UpToReject(accept, nodes[1..]);
      assert nodes == [nodes[0]] + nodes[1..];
      assert forall k :: 1 <= k < |r| ==> r[k] == rest[k - 1];
    }
  }

  function Stateless(accept: Node -> bool): Visitor {
    (seen, n) => accept(n)
  }

  lemma AcceptedConcat(accept: Node -> bool, a: seq<Node>, b: seq<Node>)
    ensures AllAccepted(accept, a + b) <==> AllAccepted(accept, a) && AllAccepted(accept, b)
  {
    assert forall k :: 0 <= k < |b| ==> (a + b)[|a| + k] == b[k];
    assert forall k :: 0 <= k < |a| ==> (a + b)[k] == a[k];
  }

  /** One child of the cut walk, given what the child's own cut is. */
  lemma CutFromStep(t: Tree, p: Path, i: nat, accept: Node -> bool, seen: seq<Node>, first: seq<Node>)
    requires i < |NamedChildren(t)|
    requires Cut(NamedChildren(t)[i], p + [i], Stateless(accept), seen) == (seen + UpToReject(accept, first), AllAccepted(accept, first))
    ensures CutFrom(t, p, i, Stateless(accept), seen) ==
            if AllAccepted(accept, first) then CutFrom(t, p, i + 1, Stateless(accept), seen + first)
            else (seen + UpToReject(accept, first), false)
  {
    hide Cut, NamedChildren;
    UpToRejectConcat(accept, first, []);
  }

  /** The child's cut followed by the cut of the later children. */
  lemma CutFromJoins(t: Tree, p: Path, i: nat, accept: Node -> bool, seen: seq<Node>, first: seq<Node>, later: seq<Node>)
    requires i < |NamedChildren(t)|
    requires Cut(NamedChildren(t)[i], p + [i], Stateless(accept), seen) == (seen + UpToReject(accept, first), AllAccepted(accept, first))
    requires AllAccepted(accept, first) ==>
               CutFrom(t, p, i + 1, Stateless(accept), seen + first) == (seen + first + UpToReject(accept, later), AllAccepted(accept, later))
    ensures CutFrom(t, p, i, Stateless(accept), seen) == (seen + UpToReject(accept, first + later), AllAccepted(accept, first + later))
  {
    CutFromStep(t, p, i, accept, seen, first);
    UpToRejectConcat(accept, first, later);
    AcceptedConcat(accept, first, later);
    hide Cut, CutFrom, UpToReject, AllAccepted, NamedChildren, Stateless;
    assert seen + first + UpToReject(accept, later) == seen + (first + UpToReject(accept, later));
  }

  lemma CutFromEnds(t: Tree, p: Path, accept: Node -> bool, seen: seq<Node>)
    ensures var n := |NamedChildren(t)|;
            CutFrom(t, p, n, Stateless(accept), seen) ==
            (seen + UpToReject(accept, FlatFrom(t, p, n)), AllAccepted(accept, FlatFrom(t, p, n)))
  {
    assert FlatFrom(t, p, |NamedChildren(t)|) == [] && UpToReject(accept, []) == [];
    assert seen + [] == seen;
  }

  lemma {:induction false} CutFromIsPrefix(t: Tree, p: Path, i: nat, accept: Node -> bool, seen: seq<Node>)
    requires i <= |NamedChildren(t)|
    ensures CutFrom(t, p, i, Stateless(accept), seen) ==
            (seen + UpToReject(accept, FlatFrom(t, p, i)), AllAccepted(accept, FlatFrom(t, p, i)))
    decreases t, |NamedChildren(t)| - i
  {
    hide NamedChildren, Stateless, Cut, CutFrom, UpToReject, AllAccepted;
    if i < |NamedChildren(t)| {
      var first, later := Flat(NamedChildren(t)[i], p + [i]), FlatFrom(t, p, i + 1);
      assert FlatFrom(t, p, i) == first + later;
      hide Flat, FlatFrom;
      CutIsPrefix(NamedChildren(t)[i], p + [i], accept, seen);
      if AllAccepted(accept, first) {
        CutFromIsPrefix(t, p, i + 1, accept, seen + first);
      }
      CutFromJoins(t, p, i, accept, seen, first, later);
    } else {
      CutFromEnds(t, p, accept, seen);
    }
  }

  lemma {:induction false} CutIsPrefix(t: Tree, p: Path, accept: Node -> bool, seen: seq<Node>)
    ensures Cut(t, p, Stateless(accept), seen) == (seen + UpToReject(accept, Flat(t, p)), AllAccepted(accept, Flat(t, p)))
    decreases t, |NamedChildren(t)| + 1
  {
    var n, below := Node(p, t.kind), FlatFrom(t, p, 0);
    CutFromIsPrefix(t, p, 0, accept, seen + [n]);
    assert ([n] + below)[1..] == below;
    AcceptedConcat(accept, [n], below);
    assert seen + [n] + UpToReject(accept, below) == seen + ([n] + UpToReject(accept, below));
  }

  /** The children's pre-orders, each cut after its first rejection. */
  function CutChildren(t: Tree, accept: Node -> bool, i: nat): seq<Node>
    requires i <= |NamedChildren(t)|
    decreases |NamedChildren(t)| - i
  {
    if i == |NamedChildren(t)| then []
    else UpToReject(accept, Flat(NamedChildren(t)[i], [i])) + CutChildren(t, accept, i + 1)
  }

  lemma {:induction false} RootChildrenAreCut(t: Tree, i: nat, accept: Node -> bool, seen: seq<Node>)
    requires i <= |NamedChildren(t)|
    ensures RootChildren(t, i, Stateless(accept), seen) == seen + CutChildren(t, accept, i)
    decreases |NamedChildren(t)| - i
  {
    if i < |NamedChildren(t)| {
      CutIsPrefix(NamedChildren(t)[i], [i], accept, seen);
      RootChildrenAreCut(t, i + 1, accept, seen + UpToReject(accept, Flat(NamedChildren(t)[i], [i])));
    }
  }

  /** The walk visits the root and then, if it is accepted, each root child's pre-order up to its first rejection. */
  lemma RootWalkIsCutPerChild(t: Tree, accept: Node -> bool)
    ensures RootWalk(t, Stateless(accept)) ==
            [Node([], t.kind)] + if accept(Node([], t.kind)) then CutChildren(t, accept, 0) else []
  {
    RootChildrenAreCut(t, 0, accept, [Node([], t.kind)]);
  }

  lemma {:induction false} CutChildrenAccepted(t: Tree, accept: Node -> bool, i: nat)
    requires i <= |NamedChildren(t)| && AllAccepted(accept, FlatFrom(t, [], i))
    ensures CutChildren(t, accept, i) == FlatFrom(t, [], i)
    decreases |NamedChildren(t)| - i
  {
    if i == |NamedChildren(t)| {
    } else {
      assert [] + [i] == [i];
      var first, later := Flat(NamedChildren(t)[i], [i]), FlatFrom(t, [], i + 1);
      assert FlatFrom(t, [], i) == first + later;
      assert CutChildren(t, accept, i) == UpToReject(accept, first) + CutChildren(t, accept, i + 1);
      hide Flat, FlatFrom, CutChildren, UpToReject, NamedChildren;
      AcceptedConcat(accept, first, later);
      UpToRejectConcat(accept, first, []);
      CutChildrenAccepted(t, accept, i + 1);
    }
  }

  // ---- searching by type ----

  function Matches(nodes: seq<Node>, kind: string): seq<Node> {
    if nodes == [] then []
    else Matches(nodes[..|nodes| - 1], kind) + (if nodes[|nodes| - 1].kind == kind then [nodes[|nodes| - 1]] else [])
  }

  /** The matches are the nodes of the type, in order; `at` are their positions. */
  lemma {:induction false} MatchesAreExact(nodes: seq<Node>, kind: string) returns (at: seq<nat>)
    ensures |at| == |Matches(nodes, kind)| && forall i, j :: 0 <= i < j < |at| ==> at[i] < at[j]
    ensures forall k :: 0 <= k < |at| ==> at[k] < |nodes| && Matches(nodes, kind)[k] == nodes[at[k]]
    ensures forall i: nat :: i in at <==> i < |nodes| && nodes[i].kind == kind
  {
    if nodes == [] {
      at := [];
    } else {
      var n := |nodes| - 1;
      var front := MatchesAreExact(nodes[..n], kind);
      at := front + if nodes[n].kind == kind then [n] else [];
      forall i: nat
        ensures i in at <==> i < |nodes| && nodes[i].kind == kind
      {
        assert i in at <==> i in front || (i == n && nodes[n].kind == kind);
        assert i in front <==> i < n && nodes[..n][i].kind == kind;
      }
    }
  }

  /** `FindAllByType`: the appending closure accepts every node. */
  method FindAllByType(t: Tree, kind: string) returns (out: seq<Node>)
    ensures out == Matches(Flat(t, []), kind)
  {
    var accept := (n: Node) => true;
    var walker := new Walker(Stateless(accept));
    walker.WalkRoot(t);
    RootWalkIsCutPerChild(t, accept);
    CutChildrenAccepted(t, accept, 0);
    out := [];
    for i := 0 to |walker.seen|
      invariant out == Matches(walker.seen[..i], kind)
    {
      assert walker.seen[..i + 1][..i] == walker.seen[..i];
      if walker.seen[i].kind == kind {
        out := out + [walker.seen[i]];
      }
    }
    assert walker.seen[..|walker.seen|] == walker.seen;
  }

  /** The first match of a list. */
  function FirstMatch(nodes: seq<Node>, kind: string): Option<Node> {
    if nodes == [] then None
    else if nodes[0].kind == kind then Some(nodes[0])
    else FirstMatch(nodes[1..], kind)
  }

  function LastMatch(nodes: seq<Node>, kind: string): Option<Node> {
    if nodes == [] then None
    else if nodes[|nodes| - 1].kind == kind then Some(nodes[|nodes| - 1])
    else LastMatch(nodes[..|nodes| - 1], kind)
  }

  lemma {:induction false} FirstMatchIs(nodes: seq<Node>, kind: string)
    ensures match FirstMatch(nodes, kind)
            case None => forall i :: 0 <= i < |nodes| ==> nodes[i].kind != kind
            case Some(n) => n.kind == kind && exists i :: 0 <= i < |nodes| && nodes[i] == n && forall j :: 0 <= j < i ==> nodes[j].kind != kind
  {
    if nodes == [] || nodes[0].kind == kind {
    } else {
      FirstMatchIs(nodes[1..], kind);
      if FirstMatch(nodes[1..], kind).Some? {
        var n := FirstMatch(nodes[1..], kind).value;
        var i :| 0 <= i < |nodes[1..]| && nodes[1..][i] == n && forall j :: 0 <= j < i ==> nodes[1..][j].kind != kind;
        assert nodes[i + 1] == n;
        assert forall j :: 1 <= j < i + 1 ==> nodes[j] == nodes[1..][j - 1];
      } else {
        assert forall j :: 1 <= j < |nodes| ==> nodes[j] == nodes[1..][j - 1];
      }
    }
  }

  lemma {:induction false} LastMatchIs(nodes: seq<Node>, kind: string)
    ensures match LastMatch(nodes, kind)
            case None => forall i :: 0 <= i < |nodes| ==> nodes[i].kind != kind
            case Some(n) => n.kind == kind && exists i :: 0 <= i < |nodes| && nodes[i] == n && forall j :: i < j < |nodes| ==> nodes[j].kind != kind
  {
    if nodes == [] || nodes[|nodes| - 1].kind == kind {
    } else {
      var front := nodes[..|nodes| - 1];
      LastMatchIs(front, kind);
      if LastMatch(front, kind).Some? {
        var n := LastMatch(front, kind).value;
        var i :| 0 <= i < |front| && front[i] == n && forall j :: i < j < |front| ==> front[j].kind != kind;
        assert nodes[i] == n;
      }
    }
  }

  function Other(kind: string): Node -> bool {
    (n: Node) => n.kind != kind
  }

  function Found(t: Tree, kind: string): Option<Node> {
    LastMatch(RootWalk(t, Stateless(Other(kind))), kind)
  }

  /** `FindFirstByType`: the closure overwrites its result at each match and rejects it. */
  method FindFirstByType(t: Tree, kind: string) returns (result: Option<Node>)
    ensures result == Found(t, kind)
  {
    var accept := Other(kind);
    var walker := new Walker(Stateless(accept));
    walker.WalkRoot(t);
    result := None;
    for i := 0 to |walker.seen|
      invariant result == LastMatch(walker.seen[..i], kind)
    {
      assert walker.seen[..i + 1][..i] == walker.seen[..i];
      if walker.seen[i].kind == kind {
        result := Some(walker.seen[i]);
      }
    }
    assert walker.seen[..|walker.seen|] == walker.seen;
  }

  // ---- when the first match is found ----

  lemma {:induction false} LastMatchConcat(a: seq<Node>, b: seq<Node>, kind: string)
    ensures LastMatch(a + b, kind) == if LastMatch(b, kind).Some? then LastMatch(b, kind) else LastMatch(a, kind)
    decreases |b|
  {
    if b == [] {
      assert a + b == a;
    } else {
      assert (a + b)[..|a + b| - 1] == a + b[..|b| - 1];
      LastMatchConcat(a, b[..|b| - 1], kind);
    }
  }

  lemma {:induction false} FirstMatchConcat(a: seq<Node>, b: seq<Node>, kind: string)
    ensures FirstMatch(a + b, kind) == if FirstMatch(a, kind).Some? then FirstMatch(a, kind) else FirstMatch(b, kind)
    decreases |a|
  {
    if a == [] {
      assert a + b == b;
    } else {
      assert (a + b)[1..] == a[1..] + b;
      FirstMatchConcat(a[1..], b, kind);
    }
  }

  lemma {:induction false} FirstMatchIsMember(nodes: seq<Node>, kind: string)
    ensures FirstMatch(nodes, kind).Some? ==> FirstMatch(nodes, kind).value in nodes
  {
    if nodes == [] {
    } else {
      FirstMatchIsMember(nodes[1..], kind);
    }
  }

  /** Cutting after the first match leaves that match as the only one. */
  lemma {:induction false} CutKeepsFirstMatch(nodes: seq<Node>, kind: string)
    ensures LastMatch(UpToReject(Other(kind), nodes), kind) == FirstMatch(nodes, kind)
  {
    if nodes == [] {
    } else {
      var head, rest := [nodes[0]], nodes[1..];
      assert head[..0] == [] && nodes[..1] == head;
      if nodes[0].kind != kind {
        CutKeepsFirstMatch(rest, kind);
        LastMatchConcat(head, UpToReject(Other(kind), rest), kind);
      }
    }
  }

  /** The first match below the root's `i`-th named child. */
  function FirstBelow(t: Tree, i: nat, kind: string): (first: Option<Node>)
    requires i < |NamedChildren(t)|
  {
    FirstMatch(Flat(NamedChildren(t)[i], [i]), kind)
  }

  lemma FirstBelowNamesItsChild(t: Tree, i: nat, kind: string)
    requires i < |NamedChildren(t)| && FirstBelow(t, i, kind).Some?
    ensures FirstBelow(t, i, kind).value.path != [] && FirstBelow(t, i, kind).value.path[0] == i
  {
    FirstMatchIsMember(Flat(NamedChildren(t)[i], [i]), kind);
    var found := FirstBelow(t, i, kind).value;
    FlatStaysBelow(NamedChildren(t)[i], [i], found);
    assert [i] <= found.path && [i][0] == i;
  }

  /** What remains of the walk from child `i` on ends with the first match of the last child that has one. */
  lemma {:induction false} LastChildWins(t: Tree, i: nat, kind: string)
    requires i <= |NamedChildren(t)|
    ensures var last := LastMatch(CutChildren(t, Other(kind), i), kind);
            if last.None? then forall j :: i <= j < |NamedChildren(t)| ==> FirstBelow(t, j, kind).None?
            else exists j :: i <= j < |NamedChildren(t)| && last == FirstBelow(t, j, kind) &&
                   forall k :: j < k < |NamedChildren(t)| ==> FirstBelow(t, k, kind).None?
    decreases |NamedChildren(t)| - i
  {
    if i < |NamedChildren(t)| {
      CutKeepsFirstMatch(Flat(NamedChildren(t)[i], [i]), kind);
      LastMatchConcat(UpToReject(Other(kind), Flat(NamedChildren(t)[i], [i])), CutChildren(t, Other(kind), i + 1), kind);
      LastChildWins(t, i + 1, kind);
      assert LastMatch(CutChildren(t, Other(kind), i + 1), kind).None? ==>
          LastMatch(CutChildren(t, Other(kind), i), kind) == FirstBelow(t, i, kind);
    }
  }

  /** In true pre-order the first child that has a match wins. */
  lemma {:induction false} FirstChildWins(t: Tree, i: nat, kind: string)
    requires i <= |NamedChildren(t)|
    ensures var first := FirstMatch(FlatFrom(t, [], i), kind);
            if first.None? then forall j :: i <= j < |NamedChildren(t)| ==> FirstBelow(t, j, kind).None?
            else exists j :: i <= j < |NamedChildren(t)| && first == FirstBelow(t, j, kind) &&
                   forall k :: i <= k < j ==> FirstBelow(t, k, kind).None?
    decreases |NamedChildren(t)| - i
  {
    if i < |NamedChildren(t)| {
      assert [] + [i] == [i];
      FirstMatchConcat(Flat(NamedChildren(t)[i], [i]), FlatFrom(t, [], i + 1), kind);
      FirstChildWins(t, i + 1, kind);
      assert FirstBelow(t, i, kind).Some? ==> FirstMatch(FlatFrom(t, [], i), kind) == FirstBelow(t, i, kind);
    }
  }

  /** No two root children hold a match. */
  ghost predicate OneChildMatches(t: Tree, kind: string) {
    forall i, j :: 0 <= i < j < |NamedChildren(t)| ==> FirstBelow(t, i, kind).None? || FirstBelow(t, j, kind).None?
  }

  lemma TwoChildrenTell(t: Tree, kind: string)
    ensures forall i, j :: 0 <= i < j < |NamedChildren(t)| && FirstBelow(t, i, kind).Some? && FirstBelow(t, j, kind).Some? ==>
              FirstBelow(t, i, kind) != FirstBelow(t, j, kind)
  {
    forall i, j | 0 <= i < j < |NamedChildren(t)| && FirstBelow(t, i, kind).Some? && FirstBelow(t, j, kind).Some?
      ensures FirstBelow(t, i, kind) != FirstBelow(t, j, kind)
    {
      FirstBelowNamesItsChild(t, i, kind);
      FirstBelowNamesItsChild(t, j, kind);
    }
  }

  /** `FindFirstByType` finds the first match exactly when the root matches or no two root children hold a match. */
  lemma FirstByTypeIsExact(t: Tree, kind: string)
    ensures Found(t, kind) == FirstMatch(Flat(t, []), kind) <==> t.kind == kind || OneChildMatches(t, kind)
  {
    var root := Node([], t.kind);
    RootWalkIsCutPerChild(t, Other(kind));
    assert Flat(t, [])[1..] == FlatFrom(t, [], 0);
    if t.kind != kind {
      LastMatchConcat([root], CutChildren(t, Other(kind), 0), kind);
      assert [root][..0] == [] && LastMatch([root], kind) == None;
      LastChildWins(t, 0, kind);
      FirstChildWins(t, 0, kind);
      TwoChildrenTell(t, kind);
    } else {
      assert [root] + [] == [root] && LastMatch([root], kind) == Some(root);
    }
  }

  /** Two matching children: the second one is returned. */
  lemma SecondChildIsReturned()
    ensures var leaf := Tree("call", true, []);
            var t := Tree("block", true, [leaf, leaf]);
            Found(t, "call") == Some(Node([1], "call")) && FirstMatch(Flat(t, []), "call") == Some(Node([0], "call"))
  {
    var leaf := Tree("call", true, []);
    var t := Tree("block", true, [leaf, leaf]);
    assert t.children[1..] == [leaf] && [leaf][1..] == [];
    assert NamedFrom([leaf]) == [leaf] + NamedFrom([]) == [leaf];
    assert NamedChildren(t) == NamedFrom(t.children) == [leaf] + NamedFrom(t.children[1..]) == [leaf, leaf];
    assert FlatFrom(leaf, [0], 0) == [] && FlatFrom(leaf, [1], 0) == [];
    assert [] + [0] == [0] && [] + [1] == [1];
    assert Flat(leaf, [0]) == [Node([0], "call")] && Flat(leaf, [1]) == [Node([1], "call")];
    assert FirstBelow(t, 0, "call") == Some(Node([0], "call"));
    assert FirstBelow(t, 1, "call") == Some(Node([1], "call"));
    FirstChildWins(t, 0, "call");
    LastChildWins(t, 0, "call");
    RootWalkIsCutPerChild(t, Other("call"));
    LastMatchConcat([Node([], "block")], CutChildren(t, Other("call"), 0), "call");
    assert Flat(t, [])[1..] == FlatFrom(t, [], 0);
  }
}
