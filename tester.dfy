/**
 * The whole clade test (`test_tree`): complete the table, choose the target
 * leaves, then walk up from each target and check every clade on the way.
 * What the source prints is returned here as one report per target leaf.
 */
module TreeTest {
  import opened Trees
  import opened F4Table
  import opened Evidence
  import opened LeafSelection
  import opened CladeWalk

  datatype Option<T> = None | Some(value: T)

  /** The checks made on the walk from one target leaf, lowest clade first. */
  datatype LeafReport = LeafReport(leaf: Path, steps: seq<Assessment>)

  /** The target leaves that have a report. */
  function ReportedLeaves(reports: seq<LeafReport>): set<Path>
  {
    set i | 0 <= i < |reports| :: reports[i].leaf
  }

  lemma ReportedLeavesAppend(reports: seq<LeafReport>, report: LeafReport)
    ensures ReportedLeaves(reports + [report]) == ReportedLeaves(reports) + {report.leaf}
  {
    var all := reports + [report];
    assert all[|reports|] == report;
    forall p | p in ReportedLeaves(reports) ensures p in ReportedLeaves(all) {
      var i :| 0 <= i < |reports| && reports[i].leaf == p;
      assert all[i] == reports[i];
    }
  }

  /**
   * A report is what the walk from an outer leaf must produce: one check per
   * level (the hypothesis at ancestor `|leaf| - 1 - j` at step j), each
   * reporting exactly the rows of the completed table that violate it, and
   * rejecting the clade iff there is one.
   */
  ghost predicate SoundReport(tree: Tree, f4: set<Row>, outgroup: Name, threshold: real, report: LeafReport)
  {
    var l := report.leaf;
    && IsOuter(tree, l)
    && |report.steps| == (if |l| >= 2 then |l| - 1 else 1)
    && forall j :: 0 <= j < |report.steps| ==> SoundStep(tree, f4, outgroup, threshold, l, j, report.steps[j])
  }

  /** Step j from leaf `l` checked the hypothesis at ancestor `|l| - 1 - j` and reported exactly its violations. */
  ghost predicate SoundStep(tree: Tree, f4: set<Row>, outgroup: Name, threshold: real, l: Path, j: nat, step: Assessment)
    requires ValidPath(tree, l) && j < |l|
  {
    && step.hypothesis == CladeAt(tree, l, |l| - 1 - j)
    && (step.rejected <==> step.violations != [])
    && forall r :: r in step.violations <==> r in f4 && Violates(r, outgroup, step.hypothesis, threshold)
  }

  /** Walks up from one target leaf over the listed rows `rows` of the completed table `f4`. */
  method ReportLeaf(tree: Tree, l: Path, rows: seq<Row>, ghost f4: set<Row>, outgroup: Name, threshold: real)
    returns (report: LeafReport, reachedTop: bool)
    requires IsOuter(tree, l)
    requires forall r :: r in rows <==> r in f4
    ensures report.leaf == l && SoundReport(tree, f4, outgroup, threshold, report)
    ensures reachedTop <==> |l| >= 2
  {
    var steps;
    steps, reachedTop := Walk(tree, l, rows, outgroup, threshold);
    WalkStepsShape(tree, l, rows, outgroup, threshold, steps);
    report := LeafReport(l, steps);
  }

  /** Every report is sound. */
  ghost predicate AllSound(tree: Tree, f4: set<Row>, outgroup: Name, threshold: real, reports: seq<LeafReport>)
  {
    forall i :: 0 <= i < |reports| ==> SoundReport(tree, f4, outgroup, threshold, reports[i])
  }

  /** No leaf is reported twice. */
  predicate DistinctLeaves(reports: seq<LeafReport>)
  {
    forall i, j :: 0 <= i < j < |reports| ==> reports[i].leaf != reports[j].leaf
  }

  /** Every reported leaf lies at depth 2 or more, so its walk ended below the root. */
  predicate AllDeep(reports: seq<LeafReport>)
  {
    forall i :: 0 <= i < |reports| ==> |reports[i].leaf| >= 2
  }

  /** Appending the report of a leaf not yet reported keeps the reports sound and distinct. */
  lemma RecordReport(tree: Tree, f4: set<Row>, outgroup: Name, threshold: real,
                     targets: set<Path>, pending: set<Path>, reports: seq<LeafReport>, report: LeafReport)
    requires pending <= targets && ReportedLeaves(reports) == targets - pending && report.leaf in pending
    requires DistinctLeaves(reports) && AllSound(tree, f4, outgroup, threshold, reports)
    requires SoundReport(tree, f4, outgroup, threshold, report)
    ensures ReportedLeaves(reports + [report]) == targets - (pending - {report.leaf})
    ensures DistinctLeaves(reports + [report]) && AllSound(tree, f4, outgroup, threshold, reports + [report])
    ensures AllDeep(reports) && |report.leaf| >= 2 ==> AllDeep(reports + [report])
  {
    ReportedLeavesAppend(reports, report);
    var all := reports + [report];
    forall i | 0 <= i < |reports| ensures all[i] == reports[i] && reports[i].leaf != report.leaf {
      assert reports[i].leaf in ReportedLeaves(reports);
    }
  }

  /**
   * Walks up from every target leaf, in whatever order the set yields them,
   * and stops at the first leaf that hangs from the root (`stuck`), after
   * that leaf's first check.
   */
  method WalkTargets(tree: Tree, targets: set<Path>, rows: seq<Row>, ghost f4: set<Row>, outgroup: Name, threshold: real)
    returns (reports: seq<LeafReport>, stuck: Option<Path>)
    requires forall p :: p in targets ==> IsOuter(tree, p)
    requires forall r :: r in rows <==> r in f4
    ensures AllSound(tree, f4, outgroup, threshold, reports) && DistinctLeaves(reports)
    ensures ReportedLeaves(reports) <= targets
    ensures stuck.None? ==> ReportedLeaves(reports) == targets && AllDeep(reports)
    ensures stuck.Some? ==> stuck.value in targets && reports != [] && reports[|reports| - 1].leaf == stuck.value && |stuck.value| == 1
    ensures stuck.Some? ==> forall i :: 0 <= i < |reports| - 1 ==> |reports[i].leaf| >= 2
  {
    reports := [];
    var pending := targets;
    while pending != {}
      invariant pending <= targets
      invariant ReportedLeaves(reports) == targets - pending
      invariant AllSound(tree, f4, outgroup, threshold, reports) && DistinctLeaves(reports) && AllDeep(reports)
      decreases pending
    {
      var l :| l in pending;
      var report, reachedTop := ReportLeaf(tree, l, rows, f4, outgroup, threshold);
      RecordReport(tree, f4, outgroup, threshold, targets, pending, reports, report);
      ghost var earlier := reports;
      reports := reports + [report];
      pending := pending - {l};
      if !reachedTop {
        assert forall i :: 0 <= i < |reports| - 1 ==> reports[i] == earlier[i];
        return reports, Some(l);
      }
    }
    stuck := None;
  }

  /** A leaf hanging from the root is outer only when every child of the root is a leaf, so then every outer leaf hangs from the root. */
  lemma FlatWhenOuterAtTop(tree: Tree, p: Path, q: Path)
    requires IsOuter(tree, p) && |p| == 1 && IsOuter(tree, q)
    ensures |q| == 1
  {
    assert Parent(p) == [] && ParentChildren(tree, p) == tree.children;
    assert tree.children[q[0]].Leaf? && ValidPath(tree.children[q[0]], q[1..]);
  }

  /**
   * When the walk stops at a leaf hanging from the root, that leaf was the
   * first one walked: the targets are then all at depth 1, and every report
   * before the stuck one is deeper.
   */
  lemma StuckAtFirst(tree: Tree, targets: set<Path>, reports: seq<LeafReport>)
    requires forall p :: p in targets ==> IsOuter(tree, p)
    requires ReportedLeaves(reports) <= targets
    requires reports != [] && |reports[|reports| - 1].leaf| == 1
    requires forall i :: 0 <= i < |reports| - 1 ==> |reports[i].leaf| >= 2
    ensures |reports| == 1
  {
    if |reports| > 1 {
      assert reports[0].leaf in ReportedLeaves(reports);
      assert reports[|reports| - 1].leaf in ReportedLeaves(reports);
      FlatWhenOuterAtTop(tree, reports[|reports| - 1].leaf, reports[0].leaf);
    }
  }

  /**
   * Runs the test. `outgroup` is the population every statistic is taken
   * against. On a failure, `reports` holds what was done before it: nothing
   * when the target leaves could not be chosen, and when a target leaf hangs
   * from the root, the reports up to and including that leaf's first check.
   */
  method TestTree(tree: Tree, table: seq<Row>, outgroup: Name, threshold: real)
    returns (reports: seq<LeafReport>, failure: Option<Failure>)
    ensures failure == Some(RootIsLeaf) <==> tree.Leaf?
    ensures failure.Some? && !failure.value.ParentIsRoot? ==> reports == []
    ensures failure.Some? && failure.value.ParentIsRoot? ==>
      |reports| == 1 && reports[0].leaf == failure.value.leaf && |failure.value.leaf| == 1 && IsOuter(tree, failure.value.leaf)
    ensures failure.None? ==> AllDeep(reports)
    ensures AllSound(tree, Expanded(set r | r in table), outgroup, threshold, reports) && DistinctLeaves(reports)
    ensures TerminalPairs(tree) ==> failure.None? || failure == Some(RootIsLeaf) || failure.value.ParentIsRoot?
    ensures TerminalPairs(tree) ==>
      forall p :: IsOuter(tree, p) && p in ReportedLeaves(reports) ==> FirstSister(tree, p) !in ReportedLeaves(reports)
    ensures TerminalPairs(tree) && failure.None? ==>
      forall p :: IsOuter(tree, p) ==> (p in ReportedLeaves(reports) <==> FirstSister(tree, p) !in ReportedLeaves(reports))
  {
    var f4 := Expand(table);
    var rows := ListRows(f4);
    var outer := CollectOuterLeaves(tree);
    if outer.Fail? {
      return [], Some(outer.failure);
    }
    var targets := SelectTargets(tree, outer.value);
    if targets.Fail? {
      return [], Some(targets.failure);
    }
    var stuck;
    reports, stuck := WalkTargets(tree, targets.value, rows, f4, outgroup, threshold);
    if stuck.Some? {
      StuckAtFirst(tree, targets.value, reports);
    }
    failure := if stuck.Some? then Some(ParentIsRoot(stuck.value)) else None;
  }
}
