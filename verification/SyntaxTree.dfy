/** Parse trees, with nodes named by the path of child indices that leads to them. */
module SyntaxTree {
  datatype Tree = Tree(kind: string, named: bool, children: seq<Tree>)

  type Path = seq<nat>

  predicate Valid(t: Tree, p: Path)
    decreases |p|
  {
    p == [] || (p[0] < |t.children| && Valid(t.children[p[0]], p[1..]))
  }

  function At(t: Tree, p: Path): Tree
    requires Valid(t, p)
    decreases |p|
  {
    if p == [] then t else At(t.children[p[0]], p[1..])
  }

  function Parent(p: Path): Path
    requires p != []
  {
    p[..|p| - 1]
  }

  function Index(p: Path): nat
    requires p != []
  {
    p[|p| - 1]
  }

  lemma {:induction false} ChildPath(t: Tree, p: Path, i: nat)
    requires Valid(t, p)
    ensures Valid(t, p + [i]) <==> i < |At(t, p).children|
    ensures Valid(t, p + [i]) ==> At(t, p + [i]) == At(t, p).children[i]
    decreases |p|
  {
    var c := p + [i];
    if p == [] {
      assert c == [i];
      assert c[1..] == [];
    } else {
      assert c[0] == p[0] && c[1..] == p[1..] + [i];
      ChildPath(t.children[p[0]], p[1..], i);
    }
  }

  lemma {:induction false} ParentPath(t: Tree, p: Path)
    requires Valid(t, p) && p != []
    ensures Valid(t, Parent(p)) && Index(p) < |At(t, Parent(p)).children|
    ensures At(t, p) == At(t, Parent(p)).children[Index(p)]
    decreases |p|
  {
    if |p| == 1 {
      assert p[1..] == [];
    } else {
      ParentPath(t.children[p[0]], p[1..]);
      assert Parent(p)[1..] == Parent(p[1..]);
    }
  }
}
