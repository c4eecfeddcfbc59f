/**
 The iterative cursor walk `parser.Walk` (internal/parser/walk.go) and the recursive
 pre-order walk it replaces.
 */
module ParserWalk {
  import opened SyntaxTree

  /** A visitor's answer may depend on what it has seen; it says whether to enter the node's children. */
  type Visitor = (seq<Path>, Path) -> bool

  // ---- the recursive walk ----

  function ChildrenFrom(t: Tree, p: Path, i: nat, visit: Visitor, seen: seq<Path>): seq<Path>
    requires i <= |t.children|
    decreases t, |t.children| - i
  {
    if i == |t.children| then seen
    else ChildrenFrom(t, p, i + 1, visit, PreOrder(t.children[i], p + [i], visit, seen))
  }

  /** Visit `t` at `p`, then, if accepted, its children in order; `seen` grows by the visited nodes. */
  function PreOrder(t: Tree, p: Path, visit: Visitor, seen: seq<Path>): seq<Path>
    decreases t, |t.children| + 1
  {
    if visit(seen, p) then ChildrenFrom(t, p, 0, visit, seen + [p]) else seen + [p]
  }

  // ---- the cursor ----

  class Cursor {
    const root: Tree
    var path: Path

    constructor (root: Tree)
      ensures this.root == root && path == []
    {
      this.root, path := root, [];
    }

    method GoToFirstChild() returns (moved: bool)
      requires Valid(root, path)
      modifies this
      ensures moved <==> |At(root, old(path)).children| > 0
      ensures path == if moved then old(path) + [0] else old(path)
    {
      moved := |At(root, path).children| > 0;
      if moved {
        path := path + [0];
      }
    }

    method GoToNextSibling() returns (moved: bool)
      requires Valid(root, path)
      modifies this
      ensures moved <==> old(path) != [] && Valid(root, Parent(old(path))) &&
                         Index(old(path)) + 1 < |At(root, Parent(old(path))).children|
      ensures path == if moved then Parent(old(path)) + [Index(old(path)) + 1] else old(path)
    {
      moved := false;
      if path != [] {
        ParentPath(root, path);
        if Index(path) + 1 < |At(root, Parent(path)).children| {
          path := Parent(path) + [Index(path) + 1];
          moved := true;
        }
      }
    }

    method GoToParent() returns (moved: bool)
      modifies this
      ensures moved <==> old(path) != []
      ensures path == if moved then Parent(old(path)) else old(path)
    {
      moved := path != [];
      if moved {
        path := Parent(path);
      }
    }
  }

  // ---- what is left to visit ----

  /** The whole walk, given that the subtree at `p` is finished: its later siblings, then those of its ancestors. */
  ghost function After(root: Tree, p: Path, visit: Visitor, seen: seq<Path>): seq<Path>
    requires Valid(root, p)
    decreases |p|
  {
    if p == [] then seen
    else
      ParentPath(root, p);
      After(root, Parent(p), visit, ChildrenFrom(At(root, Parent(p)), Parent(p), Index(p) + 1, visit, seen))
  }

  ghost function Pending(root: Tree, p: Path, descend: bool, visit: Visitor, seen: seq<Path>): seq<Path>
    requires Valid(root, p)
  {
    After(root, p, visit, if descend then ChildrenFrom(At(root, p), p, 0, visit, seen) else seen)
  }

  ghost function SizeFrom(t: Tree, i: nat): nat
    requires i <= |t.children|
    decreases t, |t.children| - i
  {
    if i == |t.children| then 0 else Size(t.children[i]) + SizeFrom(t, i + 1)
  }

  ghost function Size(t: Tree): nat
    decreases t, |t.children| + 1
  {
    1 + SizeFrom(t, 0)
  }

  /** Nodes after the subtree at `p` in document order. */
  ghost function SizeAfter(root: Tree, p: Path): nat
    requires Valid(root, p)
    decreases |p|
  {
    if p == [] then 0
    else
      ParentPath(root, p);
      SizeAfter(root, Parent(p)) + SizeFrom(At(root, Parent(p)), Index(p) + 1)
  }

  ghost function Unvisited(root: Tree, p: Path, descend: bool): nat
    requires Valid(root, p)
  {
    SizeAfter(root, p) + if descend then SizeFrom(At(root, p), 0) else 0
  }

  lemma PendingAtChild(root: Tree, p: Path, i: nat, visit: Visitor, seen: seq<Path>)
    requires Valid(root, p) && i < |At(root, p).children| && Valid(root, p + [i])
    requires Parent(p + [i]) == p && Index(p + [i]) == i && At(root, p + [i]) == At(root, p).children[i]
    ensures var c := p + [i];
            After(root, p, visit, ChildrenFrom(At(root, p), p, i, visit, seen)) == Pending(root, c, visit(seen, c), visit, seen + [c])
  {
  }

  lemma SizeAtChild(root: Tree, p: Path, i: nat)
    requires Valid(root, p) && i < |At(root, p).children| && Valid(root, p + [i])
    requires Parent(p + [i]) == p && Index(p + [i]) == i && At(root, p + [i]) == At(root, p).children[i]
    ensures forall descend :: SizeAfter(root, p) + SizeFrom(At(root, p), i) > Unvisited(root, p + [i], descend)
  {
  }

  lemma EnterChild(root: Tree, p: Path, i: nat, visit: Visitor, seen: seq<Path>)
    requires Valid(root, p) && i < |At(root, p).children|
    ensures Valid(root, p + [i])
    ensures var c := p + [i];
            After(root, p, visit, ChildrenFrom(At(root, p), p, i, visit, seen)) == Pending(root, c, visit(seen, c), visit, seen + [c])
    ensures SizeAfter(root, p) + SizeFrom(At(root, p), i) > Unvisited(root, p + [i], visit(seen, p + [i]))
  {
    ChildPath(root, p, i);
    assert Parent(p + [i]) == p && Index(p + [i]) == i;
    PendingAtChild(root, p, i, visit, seen);
    SizeAtChild(root, p, i);
  }

  // ---- one move of the cursor ----

  lemma FirstChildIsNext(root: Tree, p: Path, visit: Visitor, seen: seq<Path>)
    requires Valid(root, p) && At(root, p).children != []
    ensures var c := p + [0];
            && Valid(root, c)
            && Pending(root, p, true, visit, seen) == Pending(root, c, visit(seen, c), visit, seen + [c])
            && Unvisited(root, c, visit(seen, c)) < Unvisited(root, p, true)
  {
    EnterChild(root, p, 0, visit, seen);
  }

  lemma SubtreeIsDone(root: Tree, p: Path, descend: bool, visit: Visitor, seen: seq<Path>)
    requires Valid(root, p) && (descend ==> At(root, p).children == [])
    ensures Pending(root, p, descend, visit, seen) == After(root, p, visit, seen)
    ensures SizeAfter(root, p) <= Unvisited(root, p, descend)
  {
  }

  lemma SiblingIsNext(root: Tree, p: Path, visit: Visitor, seen: seq<Path>)
    requires Valid(root, p) && p != [] && Valid(root, Parent(p)) && Index(p) + 1 < |At(root, Parent(p)).children|
    ensures var c := Parent(p) + [Index(p) + 1];
            && Valid(root, c)
            && After(root, p, visit, seen) == Pending(root, c, visit(seen, c), visit, seen + [c])
            && Unvisited(root, c, visit(seen, c)) < SizeAfter(root, p)
  {
    ParentPath(root, p);
    EnterChild(root, Parent(p), Index(p) + 1, visit, seen);
  }

  lemma ParentIsNext(root: Tree, p: Path, visit: Visitor, seen: seq<Path>)
    requires Valid(root, p) && p != [] && Valid(root, Parent(p)) && Index(p) + 1 >= |At(root, Parent(p)).children|
    ensures After(root, p, visit, seen) == After(root, Parent(p), visit, seen)
    ensures SizeAfter(root, Parent(p)) <= SizeAfter(root, p)
  {
    ParentPath(root, p);
  }

  lemma RootIsDone(root: Tree, visit: Visitor, seen: seq<Path>)
    ensures Valid(root, []) && After(root, [], visit, seen) == seen
    ensures PreOrder(root, [], visit, []) == Pending(root, [], visit([], []), visit, [[]])
  {
    var none: seq<Path> := [];
    assert none + [[]] == [[]];
  }

  /** The inner loop of `Walk`: climb to the nearest later sibling; at the root the walk is over. */
  method Climb(cur: Cursor, ghost visit: Visitor, ghost seen: seq<Path>) returns (more: bool)
    requires Valid(cur.root, cur.path)
    modifies cur
    ensures more ==> Valid(cur.root, cur.path)
    ensures more ==> After(cur.root, old(cur.path), visit, seen) == Pending(cur.root, cur.path, visit(seen, cur.path), visit, seen + [cur.path])
    ensures more ==> Unvisited(cur.root, cur.path, visit(seen, cur.path)) < SizeAfter(cur.root, old(cur.path))
    ensures !more ==> After(cur.root, old(cur.path), visit, seen) == seen
  {
    ghost var root := cur.root;
    RootIsDone(root, visit, seen);
    hide Pending, After, PreOrder, ChildrenFrom, Unvisited, SizeAfter;
    while true
      invariant Valid(root, cur.path)
      invariant After(root, cur.path, visit, seen) == After(root, old(cur.path), visit, seen)
      invariant SizeAfter(root, cur.path) <= SizeAfter(root, old(cur.path))
      decreases |cur.path|
    {
      ghost var p := cur.path;
      if p != [] {
        ParentPath(root, p);
      }
      var sibling := cur.GoToNextSibling();
      if sibling {
        SiblingIsNext(root, p, visit, seen);
        return true;
      }
      var climbed := cur.GoToParent();
      if !climbed {
        return false;
      }
      ParentIsNext(root, p, visit, seen);
    }
  }

  /** `Walk`: pre-order over the tree with one cursor; each visit is recorded. */
  method Walk(root: Tree, visit: Visitor) returns (seen: seq<Path>)
    ensures seen == PreOrder(root, [], visit, [])
  {
    var cur := new Cursor(root);
    var descend := visit([], cur.path);
    seen := [];
    seen := seen + [cur.path];
    RootIsDone(root, visit, seen);
    assert seen == [[]];
    hide Pending, After, PreOrder, ChildrenFrom, Unvisited, SizeAfter;
    while true
      invariant cur.root == root && Valid(root, cur.path)
      invariant Pending(root, cur.path, descend, visit, seen) == PreOrder(root, [], visit, [])
      decreases Unvisited(root, cur.path, descend)
    {
      var entered := false;
      ghost var p := cur.path;
      if descend {
        entered := cur.GoToFirstChild();
      }
      if entered {
        FirstChildIsNext(root, p, visit, seen);
      } else {
        SubtreeIsDone(root, p, descend, visit, seen);
        var more := Climb(cur, visit, seen);
        if !more {
          return;
        }
      }
      descend := visit(seen, cur.path);
      seen := seen + [cur.path];
    }
  }

  // ---- which nodes a stateless visitor sees ----

  /** `p` lies in the subtree at `base` and every node from `base` down to above `p` was accepted. */
  ghost predicate Reached(t: Tree, base: Path, p: Path, accept: Path -> bool) {
    && base <= p && Valid(t, p[|base|..])
    && forall k :: |base| <= k < |p| ==> accept(p[..k])
  }

  /** Below `base`, in a child with index `i` or later. */
  ghost predicate ReachedFrom(t: Tree, base: Path, p: Path, accept: Path -> bool, i: nat) {
    && base < p && Valid(t, p[|base|..]) && p[|base|] >= i
    && forall k :: |base| < k < |p| ==> accept(p[..k])
  }

  lemma ReachedInChild(t: Tree, base: Path, p: Path, accept: Path -> bool, i: nat)
    requires i < |t.children|
    ensures ReachedFrom(t, base, p, accept, i) <==>
            Reached(t.children[i], base + [i], p, accept) || ReachedFrom(t, base, p, accept, i + 1)
  {
    if base < p {
      assert p[|base|..][0] == p[|base|] && p[|base|..][1..] == p[|base| + 1..];
      assert p[|base|] == i ==> base + [i] <= p;
    }
    if base + [i] <= p {
      assert base <= p;
      assert p[|base|] == (base + [i])[|base|];
      assert p[|base|..][0] == p[|base|] && p[|base|..][1..] == p[|base| + 1..];
    }
  }

  lemma {:induction false} ChildrenVisits(t: Tree, base: Path, accept: Path -> bool, seen: seq<Path>, p: Path, i: nat)
    requires i <= |t.children|
    ensures p in ChildrenFrom(t, base, i, (s: seq<Path>, q: Path) => accept(q), seen) <==>
            p in seen || ReachedFrom(t, base, p, accept, i)
    decreases t, |t.children| - i
  {
    if i < |t.children| {
      var visit := (s: seq<Path>, q: Path) => accept(q);
      ReachedInChild(t, base, p, accept, i);
      PreOrderVisits(t.children[i], base + [i], accept, seen, p);
      ChildrenVisits(t, base, accept, PreOrder(t.children[i], base + [i], visit, seen), p, i + 1);
    }
  }

  lemma {:induction false} PreOrderVisits(t: Tree, base: Path, accept: Path -> bool, seen: seq<Path>, p: Path)
    ensures p in PreOrder(t, base, (s: seq<Path>, q: Path) => accept(q), seen) <==> p in seen || Reached(t, base, p, accept)
    decreases t, |t.children| + 1
  {
    if accept(base) {
      ChildrenVisits(t, base, accept, seen + [base], p, 0);
      assert base < p ==> p[..|base|] == base;
    }
    assert base <= p && |p| == |base| ==> p == base;
    assert p == base ==> p[|base|..] == [];
    assert base < p ==> p[..|base|] == base;
  }
}
