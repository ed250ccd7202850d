/**
 * Choosing the leaves the walks start from: the "outer" leaves (leaves whose
 * parent has only leaves as children), then one leaf out of each pair of outer
 * sisters.
 */
module LeafSelection {
  import opened Trees

  /**
   * Where the source raises an exception. The first three happen while the
   * targets are chosen. `ParentIsRoot` happens later, in the walk. It is
   * declared here as well, so that one type covers every way a run ends early.
   */
  datatype Failure =
    | RootIsLeaf                 // the single-leaf tree: `node.up` is None
    | NoSister(leaf: Path)       // an outer leaf with no sister: `get_sisters()[0]` raises IndexError
    | SisterGone(sister: Path)   // a sister already removed from the targets: `remove` raises KeyError
    | ParentIsRoot(leaf: Path)   // a target leaf hanging from the root: `p_1.up` is None

  datatype Outcome<T> = Success(value: T) | Fail(failure: Failure)

  /** A leaf, other than the root, all of whose parent's children are leaves. */
  predicate IsOuter(t: Tree, p: Path)
  {
    && p != []
    && ValidPath(t, p)
    && At(t, p).Leaf?
    && AllLeaves(ParentChildren(t, p))
  }

  /** Every outer leaf has exactly one sister: each terminal sibling group is a pair. */
  ghost predicate TerminalPairs(t: Tree)
  {
    forall p :: IsOuter(t, p) ==> |ParentChildren(t, p)| == 2
  }

  /** `get_sisters()[0]`: the first child of the parent other than the node itself. */
  function FirstSister(t: Tree, p: Path): (s: Path)
    requires IsOuter(t, p) && |ParentChildren(t, p)| >= 2
    ensures s != p && s != [] && Parent(s) == Parent(p)
  {
    var q := Parent(p);
    var j := if LastIndex(p) == 0 then 1 else 0;
    assert (q + [j])[..|q|] == q;
    q + [j]
  }

  /** The first sister of an outer leaf is an outer leaf, and in a pair its own first sister is the leaf. */
  lemma SisterOfSister(t: Tree, p: Path)
    requires IsOuter(t, p) && |ParentChildren(t, p)| >= 2
    ensures IsOuter(t, FirstSister(t, p))
    ensures |ParentChildren(t, p)| == 2 ==> FirstSister(t, FirstSister(t, p)) == p
  {
    var q := Parent(p);
    var s := FirstSister(t, p);
    var j := LastIndex(s);
    assert s == q + [j];
    ExtendPath(t, q, j);
    assert ValidPath(t, s) && At(t, s) == At(t, q).children[j];
    assert ParentChildren(t, s) == ParentChildren(t, p);
    assert p == q + [LastIndex(p)];
  }

  /**
   * Collects the outer leaves by visiting every node (the source's
   * `t.traverse()`), failing on the single-leaf tree whose leaf has no parent.
   */
  method CollectOuterLeaves(t: Tree) returns (r: Outcome<set<Path>>)
    ensures r.Fail? <==> t.Leaf?
    ensures r.Fail? ==> r.failure == RootIsLeaf
    ensures r.Success? ==> forall p :: p in r.value <==> IsOuter(t, p)
  {
    var nodes := NodePaths(t);
    NodePathsExact(t);
    var outer := {};
    assert |nodes| > 0;
    for i := 0 to |nodes|
      invariant forall p :: p in outer <==> p in nodes[..i] && IsOuter(t, p)
      invariant t.Leaf? ==> i == 0
    {
      var node := nodes[i];
      assert node in nodes;
      if At(t, node).Leaf? {
        if node == [] {
          return Fail(RootIsLeaf);
        }
        if AllLeaves(ParentChildren(t, node)) {
          outer := outer + {node};
        }
      }
      assert nodes[..i + 1] == nodes[..i] + [node];
    }
    assert nodes[..|nodes|] == nodes;
    r := Success(outer);
  }

  /**
   * The state of the selection loop on a tree of terminal pairs: a leaf is
   * processed together with its sister, an unprocessed leaf is still a target,
   * and of a processed pair exactly one leaf is still a target.
   */
  ghost predicate PairsBalanced(t: Tree, outer: set<Path>, processed: set<Path>, target: set<Path>)
    requires TerminalPairs(t) && forall p :: p in outer ==> IsOuter(t, p)
  {
    forall p {:trigger FirstSister(t, p)} :: p in outer ==>
      && (p in processed <==> FirstSister(t, p) in processed)
      && (p !in processed ==> p in target)
      && (p in processed ==> (p in target <==> FirstSister(t, p) !in target))
  }

  /** Processing an unprocessed leaf of a balanced state removes a sister still in place, and keeps the balance. */
  lemma ProcessPair(t: Tree, outer: set<Path>, processed: set<Path>, target: set<Path>, node: Path)
    requires TerminalPairs(t) && forall p :: p in outer <==> IsOuter(t, p)
    requires PairsBalanced(t, outer, processed, target)
    requires node in outer && node !in processed
    ensures FirstSister(t, node) in outer && FirstSister(t, node) in target
    ensures PairsBalanced(t, outer, processed + {node, FirstSister(t, node)}, target - {FirstSister(t, node)})
  {
    var sister := FirstSister(t, node);
    SisterOfSister(t, node);
    var processed', target' := processed + {node, sister}, target - {sister};
    forall p | p in outer
      ensures p in processed' <==> FirstSister(t, p) in processed'
      ensures p !in processed' ==> p in target'
      ensures p in processed' ==> (p in target' <==> FirstSister(t, p) !in target')
    {
      SisterOfSister(t, p);
      var q := FirstSister(t, p);
      assert p in processed <==> q in processed;
      assert p !in processed ==> p in target;
      assert p in processed ==> (p in target <==> q !in target);
      if p == node {
        assert q == sister;
      } else if p == sister {
        assert q == node;
      } else {
        assert q != sister && q != node;
      }
    }
  }

  /**
   * The selection loop's invariant: the leaves already visited are processed,
   * the targets are outer leaves, and on a tree of terminal pairs the state
   * is balanced.
   */
  ghost predicate SelectionInvariant(t: Tree, outer: set<Path>, rest: set<Path>, processed: set<Path>, target: set<Path>)
    requires forall p :: p in outer ==> IsOuter(t, p)
  {
    && rest <= outer && target <= outer
    && (forall p :: p in outer - rest ==> p in processed)
    && (TerminalPairs(t) ==> processed <= outer && PairsBalanced(t, outer, processed, target))
  }

  /** Visiting a leaf already processed as a sister keeps the invariant. */
  lemma SkipProcessed(t: Tree, outer: set<Path>, rest: set<Path>, processed: set<Path>, target: set<Path>, node: Path)
    requires forall p :: p in outer ==> IsOuter(t, p)
    requires SelectionInvariant(t, outer, rest, processed, target) && node in processed
    ensures SelectionInvariant(t, outer, rest - {node}, processed, target)
  {
  }

  /** Processing a leaf whose first sister is still a target keeps the invariant. */
  lemma RemoveSister(t: Tree, outer: set<Path>, rest: set<Path>, processed: set<Path>, target: set<Path>, node: Path)
    requires forall p :: p in outer <==> IsOuter(t, p)
    requires SelectionInvariant(t, outer, rest, processed, target) && node in rest && node !in processed
    requires |ParentChildren(t, node)| >= 2 && FirstSister(t, node) in target
    ensures SelectionInvariant(t, outer, rest - {node}, processed + {node, FirstSister(t, node)}, target - {FirstSister(t, node)})
  {
    var sister := FirstSister(t, node);
    var processed', target' := processed + {node, sister}, target - {sister};
    assert forall p :: p in outer - (rest - {node}) ==> p in processed';
    if TerminalPairs(t) {
      ProcessPair(t, outer, processed, target, node);
    }
  }

  /**
   * Keeps one leaf per pair of outer sisters: visits the outer leaves in
   * whatever order the set yields them and, for each leaf not yet processed,
   * removes its first sister from the targets and marks both as processed.
   */
  method SelectTargets(t: Tree, outer: set<Path>) returns (r: Outcome<set<Path>>)
    requires forall p :: p in outer <==> IsOuter(t, p)
    ensures r.Success? ==> r.value <= outer
    ensures r.Fail? ==> r.failure.NoSister? || r.failure.SisterGone?
    ensures TerminalPairs(t) ==> r.Success?
    ensures TerminalPairs(t) && r.Success? ==>
      forall p :: p in outer ==> (p in r.value <==> FirstSister(t, p) !in r.value)
  {
    var processed: set<Path> := {};
    var target := outer;
    var rest := outer;
    while rest != {}
      invariant SelectionInvariant(t, outer, rest, processed, target)
      decreases rest
    {
      var node :| node in rest;
      if node in processed {
        SkipProcessed(t, outer, rest, processed, target, node);
      } else if TerminalPairs(t) {
        ProcessPair(t, outer, processed, target, node);
      }
      rest := rest - {node};
      if node !in processed {
        if |ParentChildren(t, node)| < 2 {
          return Fail(NoSister(node));
        }
        var sister := FirstSister(t, node);
        if sister !in target {
          return Fail(SisterGone(sister));
        }
        RemoveSister(t, outer, rest + {node}, processed, target, node);
        target := target - {sister};
        processed := processed + {node, sister};
      }
    }
    r := Success(target);
  }
}
