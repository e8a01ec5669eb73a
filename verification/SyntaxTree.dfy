/** Syntax trees, and positions in them as the child indices that lead there from the root. */
module SyntaxTree {

  datatype Tree<K> = Node(kind: K, children: seq<Tree<K>>)

  type Path = seq<nat>

  predicate ValidPath<K>(n: Tree<K>, p: Path) {
    p == [] || (p[0] < |n.children| && ValidPath(n.children[p[0]], p[1..]))
  }

  function At<K>(n: Tree<K>, p: Path): Tree<K>
    requires ValidPath(n, p)
  {
    if p == [] then n else At(n.children[p[0]], p[1..])
  }

  lemma ValidPrefix<K>(n: Tree<K>, p: Path, k: nat)
    requires ValidPath(n, p) && k <= |p|
    ensures ValidPath(n, p[..k])
  {
    if k > 0 {
      ValidPrefix(n.children[p[0]], p[1..], k - 1);
      assert p[..k][1..] == p[1..][..k - 1];
    }
  }

  lemma ValidChild<K>(n: Tree<K>, p: Path, i: nat)
    requires ValidPath(n, p) && i < |At(n, p).children|
    ensures ValidPath(n, p + [i]) && At(n, p + [i]) == At(n, p).children[i]
  {
    if p != [] {
      ValidChild(n.children[p[0]], p[1..], i);
      assert (p + [i])[1..] == p[1..] + [i];
    }
  }
}
