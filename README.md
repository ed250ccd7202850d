# Clade testing of a population tree against f4-statistics

This project models `test_tree`, the engine of `test_Newick_from_f4s.py`. The
engine takes three inputs:

- a rooted tree of populations;
- a table of f4-statistics, one row `(O, A, B, C, z)` per statistic
  f4(O; A, B, C) with its Z-score;
- a threshold.

It looks for evidence against each clade of the tree in four stages, run one
after the other:

1. **Table completion** (`f4table.dfy`, module `F4Table`). The rows become a
   set. Each row's antisymmetric counterpart `(O, A, C, B, -z)` is added
   unless that exact row is already present. The set is then listed.
2. **Target-leaf selection** (`selection.dfy`, module `LeafSelection`).
   - The "outer" leaves are the leaves whose parent has only leaves as
     children.
   - For each outer leaf not yet processed, its first sister
     (`get_sisters()[0]`) is removed from the targets, and both leaves are
     marked processed.
3. **Clade walk** (`walk.dfy`, module `CladeWalk`). From a target leaf `l`:
   - the first hypothesis takes `v = {l}`, `u` = the parent's other leaves,
     and `t` = the rest of the tree;
   - each further step moves the clade-defining node `p_1` one level up, with
     `v = leaves(p_1)`, `u = leaves(p_1.up) - v` and `t = total - leaves(p_1.up)`;
   - the walk stops when `p_1.up` is the root.
4. **Evidence check** (`evidence.dfy`, module `Evidence`). This is one method
   shared by both identical copies in the source.
   - The check keeps the table rows whose populations are
     `(Outgroup, a, b, c)` with `(a, b, c)` in `t × u × v`.
   - Every kept row with `|z| > threshold` is a violation.
   - The clade is rejected iff there is a violation.

`tester.dfy` (module `TreeTest`) puts the four stages together.

`trees.dfy` (module `Trees`) supplies the tree:
`Tree = Leaf(name) | Node(children)`. An ete3 node is named by its path, the
sequence of child indices from the root, so two nodes are the same object
exactly when their paths are equal. ete3's `up` is `Parent`,
`get_leaf_names` is `LeafNames`, and `traverse` is `NodePaths`.

### Sets and exceptions

Python iterates over sets in an order the program does not control. Every loop
over a set (the table copy, the outer leaves, the target leaves, the three
factors of `itertools.product`) picks its next element with `:|`. What is
proved therefore holds for every iteration order.

The places where the source raises an exception are modelled as outcomes, not
as preconditions (`LeafSelection.Failure`):

- `RootIsLeaf`: a single-leaf tree, where `node.up` is None at line 135.
- `NoSister`: an outer leaf without a sister, an `IndexError` at line 147.
- `SisterGone`: a first sister that is no longer a target, a `KeyError` at
  line 149. This happens only in sibling groups of three or more leaves
  (see below).
- `ParentIsRoot`: a target leaf hanging from the root. Its first clade is
  tested, and then `p_1.up.is_root()` fails on None at line 217.

`TreeTest.TestTree` returns the reports made before such a failure, together
with the failure.

### What the code does and does not do

- A counterpart is added when the whole 5-field row is missing, Z-score
  included (line 114), not when the key `(O, p1, p3, p2)` is missing.
- Conflicting Z-scores for one key raise no error. Both rows stay in the
  table, and both take part in the evidence check.
- No error is raised when the outgroup is also a leaf name.
  `CladeWalk.CladePartition` shows that no hypothesis contains an outgroup
  that is not a leaf of the tree.
- Sibling groups of three or more outer leaves get the code's own behaviour.
  In a group `c0, c1, ..., cn-1`, the first sister of `c0` is `c1`, and the
  first sister of every other leaf is `c0`. A leaf `ci` with `i >= 2` is
  nobody's first sister. It is therefore visited unprocessed and tries to
  remove `c0`.
  - With four or more leaves, at least two leaves try this, so the second
    attempt raises `KeyError` (`SisterGone`) whatever the order.
  - With exactly three, the run succeeds only when `c0` is visited first, and
    it then keeps `c2` alone. Any other order raises `KeyError`.

## Model

| member | source | states |
|---|---|---|
| F4Table.Expand | Results1/test_Newick_from_f4s.py:106-118 | the row set built by the loop over the copy is exactly `Expanded` of the given rows: duplicates merged, and each row's counterpart added |
| F4Table.ListRows | Results1/test_Newick_from_f4s.py:118 | `list(f4_set)` holds exactly the rows of the set, each once |
| F4Table.ExpandedMembership | Results1/test_Newick_from_f4s.py:110-115 | a row is in the completed table iff it or its counterpart was in the input |
| F4Table.ExpansionOnlyAdds | Results1/test_Newick_from_f4s.py:107-115 | completion keeps every input row, and every added row is the counterpart `(O, A, C, B, -z)` of an input row |
| F4Table.ExpandedClosed | Results1/test_Newick_from_f4s.py:110-118 | the completed table is closed under the antisymmetry: with `(O, A, B, C, z)` it holds `(O, A, C, B, -z)` |
| F4Table.ExpandedLeast | Results1/test_Newick_from_f4s.py:110-115 | the completed table is contained in every antisymmetry-closed table that holds the input, so it adds nothing unforced |
| F4Table.ExpandedIdempotent | Results1/test_Newick_from_f4s.py:110-115 | completing an already completed table changes nothing |
| LeafSelection.CollectOuterLeaves | Results1/test_Newick_from_f4s.py:126-136 | the traversal fails (`RootIsLeaf`) iff the tree is a single leaf; otherwise a node is collected iff it is a leaf whose parent's children are all leaves |
| LeafSelection.FirstSister | Results1/test_Newick_from_f4s.py:147 | `get_sisters()[0]` is a different node with the same parent |
| LeafSelection.SisterOfSister | Results1/test_Newick_from_f4s.py:147 | the first sister of an outer leaf is itself outer, and within a pair each leaf is the other's first sister |
| LeafSelection.ProcessPair | Results1/test_Newick_from_f4s.py:143-152 | on a tree of terminal pairs, an unprocessed leaf's sister is still a target, and processing the leaf keeps "each processed pair has exactly one target, each unprocessed leaf is a target" |
| LeafSelection.SelectTargets | Results1/test_Newick_from_f4s.py:138-152 | the targets are outer leaves; failure is only the `IndexError`/`KeyError` of lines 147/149; when every terminal sibling group is a pair there is no failure and exactly one leaf of each pair remains a target |
| Evidence.CrossKeys | Results1/test_Newick_from_f4s.py:190-192 | the listed keys are exactly `(Outgroup, a, b, c)` for `(a, b, c)` in `t × u × v` |
| Evidence.Evaluate | Results1/test_Newick_from_f4s.py:188-215 | the check's result equals `Assess`: its violations are exactly the table rows that bear on `(t, u, v)` with `|z| > threshold`, and it rejects iff there is one |
| Evidence.ApplicableMembership | Results1/test_Newick_from_f4s.py:194-197 | `results` holds exactly the table rows whose populations are in `Outgroup × t × u × v` |
| Evidence.SignificantMembership | Results1/test_Newick_from_f4s.py:201-208 | the reported rows are exactly those of `results` with `|z| > threshold` |
| Evidence.ViolationsExact | Results1/test_Newick_from_f4s.py:194-208 | a row is reported iff it is in the table, its outgroup is `Outgroup`, its populations are in `t × u × v` and `|z| > threshold` |
| Evidence.ThresholdBoundary | Results1/test_Newick_from_f4s.py:202 | the threshold is strict: an applicable row with `|z| = threshold` is never a violation, one with `|z| > threshold` always is |
| Evidence.RejectedExact | Results1/test_Newick_from_f4s.py:199-215 | "Clade rejected" iff some row of the table violates the hypothesis |
| Evidence.NoDataNoRejection | Results1/test_Newick_from_f4s.py:194-215 | a hypothesis with no statistic about it is never rejected |
| CladeWalk.FirstStepIsClade | Results1/test_Newick_from_f4s.py:176-180 | the first step's `(total - u - v, u, v)` is the hypothesis defined by the leaf's parent |
| CladeWalk.LaterStepIsClade | Results1/test_Newick_from_f4s.py:229-235 | a later step's `(total - aux, aux - v, v)` is the hypothesis defined by `p_1.up` |
| CladeWalk.CladePartition | Results1/test_Newick_from_f4s.py:176-180 | every hypothesis has pairwise disjoint `t`, `u`, `v` whose union is the tree's leaf names, and none of them contains an outgroup that is not a leaf |
| CladeWalk.CladeNesting | Results1/test_Newick_from_f4s.py:229-235 | one level up, the new `v` is the old `u ∪ v` and the new `t` is inside the old `t` |
| CladeWalk.Walk | Results1/test_Newick_from_f4s.py:164-272 | from a leaf at depth d >= 2, the walk makes exactly d - 1 checks, at the ancestors at depths d - 1 down to 1, never at the root; from a leaf at depth 1 it makes one check and fails; the checks partition the leaves and are nested |
| CladeWalk.WalkStepsShape | Results1/test_Newick_from_f4s.py:217-272 | along the walk every check is a partition, successive checks are nested, each reports exactly its violating rows, and rejects iff it reports one |
| TreeTest.ReportLeaf | Results1/test_Newick_from_f4s.py:160-272 | the report for one target leaf is sound: one check per level, each reporting exactly the completed table's violations of that level's hypothesis |
| TreeTest.WalkTargets | Results1/test_Newick_from_f4s.py:160-274 | every report is sound, names a distinct target, and every target gets one; a leaf hanging from the root instead stops the loop right after its first check, and every report before it is on a deeper leaf |
| TreeTest.FlatWhenOuterAtTop | Results1/test_Newick_from_f4s.py:132-136 | a leaf hanging from the root is outer only when all the root's children are leaves, so then every outer leaf hangs from the root |
| TreeTest.StuckAtFirst | Results1/test_Newick_from_f4s.py:160-217 | if the walk stops at a leaf hanging from the root, that leaf was the first target walked: exactly one report was made |
| TreeTest.TestTree | Results1/test_Newick_from_f4s.py:100-277 | the whole run: fails with `RootIsLeaf` iff the tree is a leaf; a selection failure reports nothing; a `ParentIsRoot` failure comes after exactly one report, on that outer leaf; all reports are sound and name distinct leaves; on a tree of terminal pairs it never fails in selection, never reports both leaves of a pair, and without failure reports exactly one leaf of each pair |
| Trees.ParentChildren | Results1/test_Newick_from_f4s.py:135 | `node.up.get_children()` are the children of the parent, the node among them at its own index |
| Trees.NodePathsExact | Results1/test_Newick_from_f4s.py:130 | the traversal visits exactly the nodes of the tree |
| Trees.LeafNamesShrinkDownPath | Results1/test_Newick_from_f4s.py:229-233 | the leaves of a node on the path to `l` include those of every node below it on that path, so `v` is inside `aux` |

## Left out

- Command-line parsing, Newick parsing, the ete3 tree object, file reading
  and line splitting: the tree and the table are given as values.
- All printing, including the step numbers `i` and `j` and the clade drawings.
  They are replaced by the returned reports.
- Floating point and text Z-scores. A Z-score is a `real` and negation is
  exact. The source writes the negated Z-score back as text
  (`str(-1*float(z))`), so a counterpart spelled differently from a present
  row ("-4.50" against "-4.5") adds a near-duplicate row. The same goes for
  input rows whose Z-scores differ only in spelling, such as
  `(O, A, B, C, "4.5")` and `(O, A, B, C, "4.50")`. The source keeps both at
  line 107 and may report both at lines 201-208, while the model keeps one.
  The model cannot show either.
- The choice of `Outgroup` as `f4_table[0][0]`, and the `IndexError` on an
  empty table at line 120. The first element of a listed set depends on the
  set's iteration order, so the outgroup is a parameter.
- Iteration order of Python sets. Every loop over a set picks an arbitrary
  next element, and nothing proved depends on the order. `Trees.NodePaths`
  is a pre-order listing. Only its contents stand for the nodes visited by
  `t.traverse()`, and the order of that traversal is not modelled.
- ete3 treats any childless node as a leaf. In this model only `Leaf` is a
  leaf, and a `Node` with no children has no name and no leaves.
- Evidence.CrossKeys: states which keys are listed, not their order or
  multiplicity. Only membership is used, by the `in` test at line 196.
- TreeTest.TestTree: does not state when `NoSister` or `SisterGone` occur
  beyond "never when every terminal sibling group is a pair". For groups of
  exactly three leaves the outcome depends on set iteration order, and
  larger groups always fail (see "What the code does and does not do").
- LeafSelection.SelectTargets: the "exactly one leaf of each pair" property
  is proved only for trees whose terminal sibling groups are all pairs. The
  case of a successful run on a group of three, which keeps one leaf of that
  group, is not stated.
