/**
 * The rooted tree that the clade tester walks over. The source works on ete3
 * tree nodes; here a tree is a value and a node is named by its path: the
 * sequence of child indices that leads to it from the root. Two ete3 nodes are
 * the same object exactly when their paths are equal.
 */
module Trees {
  /** A population identifier: a leaf name, or the outgroup. */
  type Name = string

  /** The child indices from the root down to a node; `[]` is the root. */
  type Path = seq<nat>

  datatype Tree = Leaf(name: Name) | Node(children: seq<Tree>)

  /** The set of leaf names below `t` (ete3's `get_leaf_names`, as a set). */
  function LeafNames(t: Tree): set<Name>
    decreases t
  {
    match t
    case Leaf(n) => {n}
    case Node(cs) => ForestLeafNames(cs, |cs|)
  }

  /** The leaf names below the first `n` trees of `cs`. */
  function ForestLeafNames(cs: seq<Tree>, n: nat): set<Name>
    requires n <= |cs|
    decreases cs, n
  {
    if n == 0 then {} else ForestLeafNames(cs, n - 1) + LeafNames(cs[n - 1])
  }

  /** `p` leads from the root of `t` to one of its nodes. */
  predicate ValidPath(t: Tree, p: Path)
    decreases p
  {
    p == [] || (t.Node? && p[0] < |t.children| && ValidPath(t.children[p[0]], p[1..]))
  }

  /** The subtree rooted at the node that `p` names. */
  function At(t: Tree, p: Path): Tree
    requires ValidPath(t, p)
    decreases p
  {
    if p == [] then t else At(t.children[p[0]], p[1..])
  }

  /** The path of a node's parent (ete3's `up`). */
  function Parent(p: Path): Path
    requires p != []
  {
    p[..|p| - 1]
  }

  /** The node's index among its parent's children. */
  function LastIndex(p: Path): nat
    requires p != []
  {
    p[|p| - 1]
  }

  /** The children of a node's parent, the node among them (ete3's `node.up.get_children()`). */
  function ParentChildren(t: Tree, p: Path): (cs: seq<Tree>)
    requires p != [] && ValidPath(t, p)
    ensures ValidPath(t, Parent(p)) && At(t, Parent(p)).Node? && cs == At(t, Parent(p)).children
    ensures LastIndex(p) < |cs| && cs[LastIndex(p)] == At(t, p)
  {
    ChildOnPath(t, p, |p| - 1);
    assert p[..|p|] == p;
    At(t, Parent(p)).children
  }

  /** Every tree in `cs` is a leaf. */
  predicate AllLeaves(cs: seq<Tree>)
  {
    forall i :: 0 <= i < |cs| ==> cs[i].Leaf?
  }

  /** Every node of `t`, listed in pre-order; its contents are the nodes `traverse` visits. */
  function NodePaths(t: Tree): seq<Path>
    decreases t
  {
    match t
    case Leaf(_) => [[]]
    case Node(cs) => [[]] + ForestPaths(cs, |cs|)
  }

  /** The paths of every node below the first `n` trees of `cs`, each prefixed by its tree's index. */
  function ForestPaths(cs: seq<Tree>, n: nat): seq<Path>
    requires n <= |cs|
    decreases cs, n
  {
    if n == 0 then [] else ForestPaths(cs, n - 1) + Prefixed(n - 1, NodePaths(cs[n - 1]))
  }

  function Prefixed(i: nat, ps: seq<Path>): seq<Path>
  {
    seq(|ps|, k requires 0 <= k < |ps| => [i] + ps[k])
  }

  /** Extending a path by one child index: the extension is valid iff that child exists. */
  lemma {:induction false} ExtendPath(t: Tree, p: Path, i: nat)
    requires ValidPath(t, p)
    ensures ValidPath(t, p + [i]) <==> At(t, p).Node? && i < |At(t, p).children|
    ensures ValidPath(t, p + [i]) ==> At(t, p + [i]) == At(t, p).children[i]
    decreases p
  {
    if p == [] {
      assert p + [i] == [i];
      assert [i][1..] == [];
    } else {
      assert (p + [i])[0] == p[0];
      assert (p + [i])[1..] == p[1..] + [i];
      ExtendPath(t.children[p[0]], p[1..], i);
    }
  }

  /** Every prefix of a valid path is valid: an ancestor of a node is a node. */
  lemma {:induction false} PrefixValid(t: Tree, p: Path, k: nat)
    requires ValidPath(t, p) && k <= |p|
    ensures ValidPath(t, p[..k])
    decreases p
  {
    if k > 0 {
      assert p[..k][0] == p[0];
      assert p[..k][1..] == p[1..][..k - 1];
      PrefixValid(t.children[p[0]], p[1..], k - 1);
    }
  }

  /** The node one step below `p[..k]` on the way to `p` is a child of it. */
  lemma ChildOnPath(t: Tree, p: Path, k: nat)
    requires ValidPath(t, p) && k < |p|
    ensures ValidPath(t, p[..k]) && ValidPath(t, p[..k + 1])
    ensures At(t, p[..k]).Node? && p[k] < |At(t, p[..k]).children|
    ensures At(t, p[..k + 1]) == At(t, p[..k]).children[p[k]]
  {
    PrefixValid(t, p, k);
    PrefixValid(t, p, k + 1);
    assert p[..k + 1] == p[..k] + [p[k]];
    ExtendPath(t, p[..k], p[k]);
  }

  /** A child's leaves are among its parent's leaves. */
  lemma {:induction false} ChildLeafNames(cs: seq<Tree>, n: nat, i: nat)
    requires i < n <= |cs|
    ensures LeafNames(cs[i]) <= ForestLeafNames(cs, n)
    decreases n
  {
    if i < n - 1 {
      ChildLeafNames(cs, n - 1, i);
    }
  }

  /** The leaves of a node include the leaves of each of its descendants on `p`. */
  lemma {:induction false} LeafNamesShrinkDownPath(t: Tree, p: Path, j: nat, k: nat)
    requires ValidPath(t, p) && j <= k <= |p|
    ensures ValidPath(t, p[..j]) && ValidPath(t, p[..k])
    ensures LeafNames(At(t, p[..k])) <= LeafNames(At(t, p[..j]))
    decreases k - j
  {
    PrefixValid(t, p, j);
    PrefixValid(t, p, k);
    if j < k {
      ChildOnPath(t, p, j);
      var parent := At(t, p[..j]);
      ChildLeafNames(parent.children, |parent.children|, p[j]);
      LeafNamesShrinkDownPath(t, p, j + 1, k);
    }
  }

  /** `NodePaths` lists exactly the valid paths of the tree. */
  lemma {:induction false} NodePathsExact(t: Tree)
    ensures forall p :: p in NodePaths(t) <==> ValidPath(t, p)
    decreases t
  {
    match t
    case Leaf(_) =>
      forall p | ValidPath(t, p) ensures p in NodePaths(t) {
        assert p == [];
      }
    case Node(cs) =>
      ForestPathsExact(cs, |cs|);
      forall p ensures p in NodePaths(t) <==> ValidPath(t, p) {
        if p != [] {
          assert p in NodePaths(t) <==> p in ForestPaths(cs, |cs|);
        }
      }
  }

  lemma {:induction false} ForestPathsExact(cs: seq<Tree>, n: nat)
    requires n <= |cs|
    ensures forall p :: p in ForestPaths(cs, n) <==> p != [] && p[0] < n && ValidPath(cs[p[0]], p[1..])
    decreases cs, n
  {
    if n > 0 {
      ForestPathsExact(cs, n - 1);
      NodePathsExact(cs[n - 1]);
      var inner := NodePaths(cs[n - 1]);
      var added := Prefixed(n - 1, inner);
      forall p ensures p in ForestPaths(cs, n) <==> p != [] && p[0] < n && ValidPath(cs[p[0]], p[1..]) {
        if p in added {
          var k :| 0 <= k < |added| && added[k] == p;
          assert p[1..] == inner[k];
        }
        if p != [] && p[0] == n - 1 && ValidPath(cs[p[0]], p[1..]) {
          var k :| 0 <= k < |inner| && inner[k] == p[1..];
          assert added[k] == p;
        }
      }
    }
  }
}
