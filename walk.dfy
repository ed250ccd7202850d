/**
 * The walk from a target leaf towards the root. Each step names a clade
 * hypothesis (t, u, v) and checks it against the table; the walk stops below
 * the root, whose own split is never tested.
 */
module CladeWalk {
  import opened Trees
  import opened F4Table
  import opened Evidence

  /** t, u and v are pairwise disjoint and together make up `universe`. */
  predicate IsPartition(h: Hypothesis, universe: set<Name>)
  {
    && h.t !! h.u && h.t !! h.v && h.u !! h.v
    && h.t + h.u + h.v == universe
  }

  /**
   * The hypothesis whose clade-defining node is `l[..k]`, an ancestor of the
   * leaf `l`: v holds the leaves of its child towards `l`, u its other leaves,
   * t every other leaf of the tree.
   */
  function CladeAt(tree: Tree, l: Path, k: nat): Hypothesis
    requires ValidPath(tree, l) && k < |l|
  {
    PrefixValid(tree, l, k);
    PrefixValid(tree, l, k + 1);
    var clade := LeafNames(At(tree, l[..k]));
    var v := LeafNames(At(tree, l[..k + 1]));
    Hypothesis(LeafNames(tree) - clade, clade - v, v)
  }

  /** Every hypothesis partitions the tree's leaves, and none holds an outgroup from outside the tree. */
  lemma CladePartition(tree: Tree, l: Path, k: nat, outgroup: Name)
    requires ValidPath(tree, l) && k < |l|
    ensures IsPartition(CladeAt(tree, l, k), LeafNames(tree))
    ensures outgroup !in LeafNames(tree) ==>
      var h := CladeAt(tree, l, k); outgroup !in h.t && outgroup !in h.u && outgroup !in h.v
  {
    LeafNamesShrinkDownPath(tree, l, 0, k);
    LeafNamesShrinkDownPath(tree, l, k, k + 1);
    assert l[..0] == [];
  }

  /**
   * Successive clades are nested: one level up, the new clade v is the old
   * u + v, and the new rest t is inside the old one.
   */
  lemma CladeNesting(tree: Tree, l: Path, k: nat)
    requires ValidPath(tree, l) && 1 <= k < |l|
    ensures CladeAt(tree, l, k - 1).v == CladeAt(tree, l, k).u + CladeAt(tree, l, k).v
    ensures CladeAt(tree, l, k - 1).t <= CladeAt(tree, l, k).t
  {
    LeafNamesShrinkDownPath(tree, l, k - 1, k);
    LeafNamesShrinkDownPath(tree, l, k, k + 1);
  }

  /** The first step's sets, as the source computes them, form the hypothesis at the leaf's parent. */
  lemma FirstStepIsClade(tree: Tree, l: Path)
    requires ValidPath(tree, l) && l != []
    ensures ValidPath(tree, Parent(l))
    ensures var v := LeafNames(At(tree, l));
      var u := LeafNames(At(tree, Parent(l))) - v;
      Hypothesis(LeafNames(tree) - u - v, u, v) == CladeAt(tree, l, |l| - 1)
  {
    var last := |l| - 1;
    LeafNamesShrinkDownPath(tree, l, last, last + 1);
    assert l[..last + 1] == l && l[..last] == Parent(l);
  }

  /** A later step's sets, for the clade-defining node `p1` on the path to `l`, form the hypothesis at `p1`'s parent. */
  lemma LaterStepIsClade(tree: Tree, l: Path, p1: Path)
    requires ValidPath(tree, l) && 1 <= |p1| < |l| && p1 == l[..|p1|]
    ensures ValidPath(tree, p1) && ValidPath(tree, Parent(p1))
    ensures var v := LeafNames(At(tree, p1));
      var aux := LeafNames(At(tree, Parent(p1)));
      Hypothesis(LeafNames(tree) - aux, aux - v, v) == CladeAt(tree, l, |p1| - 1)
  {
    assert Parent(p1) == l[..|p1| - 1];
    PrefixValid(tree, l, |p1|);
    PrefixValid(tree, l, |p1| - 1);
  }

  /**
   * Tests the clades above the leaf `l`. The first step takes v = {l}, the
   * parent's other leaves as u and the rest as t; each further step moves the
   * clade-defining node one level up while its parent is not the root. For a
   * leaf at depth d >= 2 that is d - 1 steps, the last one at a child of the
   * root. For a leaf hanging from the root the source tests the first step
   * and then fails on `p_1.up`, which is None: `reachedTop` is false.
   */
  method Walk(tree: Tree, l: Path, table: seq<Row>, outgroup: Name, threshold: real)
    returns (steps: seq<Assessment>, reachedTop: bool)
    requires ValidPath(tree, l) && l != [] && At(tree, l).Leaf?
    ensures reachedTop <==> |l| >= 2
    ensures |steps| == if |l| >= 2 then |l| - 1 else 1
    ensures forall j :: 0 <= j < |steps| ==> steps[j] == Assess(table, outgroup, CladeAt(tree, l, |l| - 1 - j), threshold)
    ensures forall j :: 0 <= j < |steps| ==> IsPartition(steps[j].hypothesis, LeafNames(tree))
    ensures forall j :: 0 < j < |steps| ==>
      && steps[j].hypothesis.v == steps[j - 1].hypothesis.u + steps[j - 1].hypothesis.v
      && steps[j].hypothesis.t <= steps[j - 1].hypothesis.t
  {
    var total := LeafNames(tree);
    var p1 := Parent(l);
    FirstStepIsClade(tree, l);
    var v := LeafNames(At(tree, l));
    var u := LeafNames(At(tree, p1)) - v;
    var rest := total - u - v;
    var first := Evaluate(table, outgroup, Hypothesis(rest, u, v), threshold);
    steps := [first];
    if p1 == [] {
      reachedTop := false;
    } else {
      while |p1| > 1
        invariant 1 <= |p1| < |l| && p1 == l[..|p1|]
        invariant |steps| == |l| - |p1|
        invariant forall j :: 0 <= j < |steps| ==> steps[j] == Assess(table, outgroup, CladeAt(tree, l, |l| - 1 - j), threshold)
        decreases |p1|
      {
        var p2 := Parent(p1);
        LaterStepIsClade(tree, l, p1);
        v := LeafNames(At(tree, p1));
        var aux := LeafNames(At(tree, p2));
        u := aux - v;
        rest := total - aux;
        var result := Evaluate(table, outgroup, Hypothesis(rest, u, v), threshold);
        steps := steps + [result];
        p1 := p2;
      }
      reachedTop := true;
    }
    WalkStepsShape(tree, l, table, outgroup, threshold, steps);
  }

  /** What every sequence of checks made along the path to `l`, lowest clade first, satisfies. */
  lemma WalkStepsShape(tree: Tree, l: Path, table: seq<Row>, outgroup: Name, threshold: real, steps: seq<Assessment>)
    requires ValidPath(tree, l) && |steps| <= |l|
    requires forall j :: 0 <= j < |steps| ==> steps[j] == Assess(table, outgroup, CladeAt(tree, l, |l| - 1 - j), threshold)
    ensures forall j :: 0 <= j < |steps| ==> IsPartition(steps[j].hypothesis, LeafNames(tree))
    ensures forall j :: 0 < j < |steps| ==>
      && steps[j].hypothesis.v == steps[j - 1].hypothesis.u + steps[j - 1].hypothesis.v
      && steps[j].hypothesis.t <= steps[j - 1].hypothesis.t
    ensures forall j, r :: 0 <= j < |steps| ==>
      (r in steps[j].violations <==> r in table && Violates(r, outgroup, steps[j].hypothesis, threshold))
    ensures forall j :: 0 <= j < |steps| ==> (steps[j].rejected <==> steps[j].violations != [])
  {
    forall j | 0 <= j < |steps|
      ensures IsPartition(steps[j].hypothesis, LeafNames(tree))
      ensures forall r :: r in steps[j].violations <==> r in table && Violates(r, outgroup, steps[j].hypothesis, threshold)
    {
      CladePartition(tree, l, |l| - 1 - j, outgroup);
      ViolationsExact(table, outgroup, steps[j].hypothesis, threshold);
    }
    forall j | 0 < j < |steps|
      ensures steps[j].hypothesis.v == steps[j - 1].hypothesis.u + steps[j - 1].hypothesis.v
      ensures steps[j].hypothesis.t <= steps[j - 1].hypothesis.t
    {
      CladeNesting(tree, l, |l| - j);
    }
  }
}
