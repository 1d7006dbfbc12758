# Random forest training core, modelled in Dafny

This project models the training core of rhl-/random_forest, a binary-label
random forest written in C++. It has three parts.

- **Split evaluator and tree builder** (`ayasdi/random_forest.hpp`, and the
  out-of-bag draft `include/random_forest/train_rf.hpp`).
  - A range of row indices is sorted in place by one column.
  - Labels are moved one by one from an upper histogram to a lower one.
  - The position with the strictly smallest balanced entropy is kept, and the
    sweep stops at an exact 0.
  - `build_random_tree` makes a node a pure leaf, a majority leaf (at the
    height cap or under the size threshold) or a split. It then recurses one
    level higher on each non-empty side.
  - The draft also partitions the out-of-bag (OOB) rows in place at every
    split. It adds one confusion-matrix count per OOB row at every leaf.
- **Tree store** (`include/random_forest/decision_tree.hpp`, and the older
  `tree.hpp`).
  - Nodes live in an append-only vector, and child links are positions
    (0 means none).
  - Child insertion is idempotent in the newer file and always appends in the
    older one.
  - `vote` walks from the root until it reaches a leaf.
- **Reservoir sampler** (`ayasdi/random_sample.hpp`): Algorithm R, with the
  generator passed in.

Modules and files:

| file | module | models |
|---|---|---|
| tree_store.dfy | TreeStore | `dtree_node` and `decision_tree` of decision_tree.hpp |
| legacy_tree.dfy | LegacyTree | `decision_tree` of tree.hpp |
| sampler.dfy | Sampler | `random_sample` |
| split_search.dfy | SplitSearch | `is_pure_column`, `get_majority_vote` (both overloads), the sort and sweep of `find_best_column_split`, and the column loop of `build_random_tree` |
| forest.dfy | Forest | the `random_forest` class of ayasdi/random_forest.hpp: parameters, column sampling, `build_random_tree`, `classify` |
| oob_training.dfy | OobTraining | train_rf.hpp: `Matrix_view`, the `all_of` purity test, the OOB-tracking `build_random_tree`, `fit` |

Modelling choices:

- **State and form.**
  - Tree stores and forests are classes whose methods update their fields.
  - Row ranges are arrays sorted and partitioned in place.
  - The confusion matrix is a 2 × 2 `array2`.
  - Each method is proved against a ghost specification function, for example:
    - `Sweep` (the value `find_best_column_split` returns);
    - `Majority`;
    - `LeafReached` (the leaf `vote` stops at);
    - `Reservoir`;
    - `Ballots` and `Tallied`.

    Lemmas then prove what the source promises about those functions.
- **Labels.** Labels index a two-slot `std::array`, so every label the
  builder reads is 0 or 1. This is the `Labelled` precondition.
- **Entropy.** The balanced entropy is a parameter (`Score`): an arbitrary
  real-valued function of the two histograms and the three sizes. Every
  property proved holds for any such function.
- **Doubles.** `split_value_` is a real or +infinity (`Double`). +infinity is
  what the column loop leaves when no column was sampled.
- **Randomness.**
  - `random_shuffle` is "some permutation of 0 .. n-1".
  - The generator of `random_sample` is the sequence of values it returns.

Quirks of the code are reproduced as written:

- **Sweep sides.** The sweep of `find_best_column_split`
  (ayasdi/random_forest.hpp:116-125) starts at sorted position 1, so sorted
  row 0 never enters the lower histogram. Yet at position j it passes
  `lower_index = j + 1` to the entropy. `SplitSearch.SweepSideSizes` states
  the resulting mismatch between histograms and sizes.
- **Return value of `set_max_tree_height`.** It stores the clamped height
  and returns `new_height <= MAX_TREE_HEIGHT` (ayasdi/random_forest.hpp:142),
  which is true exactly when no clamping occurred.
- **Parametrised constructor.** It stores the height it is given, without
  the cap of 30 (ayasdi/random_forest.hpp:33-35).
- **Baseline.** The baseline split is position 0, scored while the lower
  histogram is all zero.
- **Repeated-value guard.** The guard compares row indices, not column
  values.
- **Children.** `insert_children` always allocates both children, so a side
  that is never recursed into leaves a fresh node. That node reads as a leaf
  labelled 0.
- **Missing column.** With no sampled column, the column is 0:
  `numeric_limits<size_t>::infinity()` is 0.
- **Copy constructor.** It copies the parameters and no trees.
- **OOB partition.** The out-of-bag partition compares each row's *label*,
  `output[a]`, with the split threshold.
- **Walk of `vote`.** `vote` goes left when `p[split_] < split_value_` and
  right otherwise, whatever positions the node holds. On a node with only one
  child the other position is 0, the root, and the walk can return there
  forever (see Findings).

## Model

| member | source | states |
|---|---|---|
| TreeStore.NodeEquals | include/random_forest/decision_tree.hpp:19-23 | node equality holds iff split value, split column and both child positions agree; the older node of tree.hpp (lines 12-16) compares the same four fields, so both stores share this node type |
| TreeStore.FreshIsLeaf | include/random_forest/decision_tree.hpp:25-40 | a value-initialised node has every field 0 and is a leaf (`is_leaf` iff both child positions are 0) |
| TreeStore.LeafReached | include/random_forest/decision_tree.hpp:114-124 | the walk from any node of a well-formed tree ends at a leaf at or after that node, inside the store |
| TreeStore.LeafReachedAppend | include/random_forest/decision_tree.hpp:159-162 | appending nodes never changes the leaf an existing walk reaches |
| TreeStore.WalkStep | include/random_forest/decision_tree.hpp:117-121 | one step of the walk goes to one of the node's two positions, and to the left one iff both are equal or `p[split] < split_value` |
| TreeStore.WalkAdvances | include/random_forest/decision_tree.hpp:114-124 | in a tree whose child positions follow their parents and whose internal nodes have both children, each step of the walk moves strictly forward inside the store, so the walk ends |
| TreeStore.OneChildWalkReturnsToRoot | include/random_forest/decision_tree.hpp:114-124 | the two-node tree with the root's left child only (split column 0 at 0.0) is ordered but not full, its root is internal, and the walk of the point (0.0) steps from the root back to the root |
| TreeStore.OneChildTree | include/random_forest/decision_tree.hpp:67-73 | `insert_root` and one `insert_left_child` build exactly that tree through the store's own operations, and it stays well-formed |
| TreeStore.DecisionTree.constructor | include/random_forest/decision_tree.hpp:51 | a new tree has no nodes; the capacity hint has no effect |
| TreeStore.DecisionTree.Root | include/random_forest/decision_tree.hpp:137-142 | on a non-empty tree the root is a valid position |
| TreeStore.DecisionTree.Equals | include/random_forest/decision_tree.hpp:60 | trees are equal iff they have the same size and are node-for-node equal |
| TreeStore.DecisionTree.Insert | include/random_forest/decision_tree.hpp:159-162 | the store grows by exactly one fresh node at the old size; nothing else changes |
| TreeStore.DecisionTree.InsertRoot | include/random_forest/decision_tree.hpp:148-151 | an empty tree gets one fresh root; a non-empty tree returns node 0 unchanged |
| TreeStore.DecisionTree.InsertLeftChild | include/random_forest/decision_tree.hpp:67-73 | with no left child, the parent's left becomes the old size and one fresh node is appended; otherwise the existing child is returned and nothing changes; child positions stay after their parents |
| TreeStore.DecisionTree.InsertRightChild | include/random_forest/decision_tree.hpp:78-84 | the same for the right child |
| TreeStore.DecisionTree.InsertChildren | include/random_forest/decision_tree.hpp:89-94 | the returned children are the parent's recorded children; on a leaf parent they are the old size and old size + 1 and the tree grows by 2; with one child held, exactly one node is appended and the missing child sits at the old size; in general the tree grows by one node per missing child; a child position the parent already held is returned unchanged, and when it held both nothing changes (idempotence); the parent's split is kept, other nodes are unchanged and new nodes are fresh |
| TreeStore.DecisionTree.Vote | include/random_forest/decision_tree.hpp:114-124 | on a full, ordered tree whose split columns the point has, the loop ends and the vote is the split value of the leaf `LeafReached` from the root |
| LegacyTree.LegacyDecisionTree.constructor | tree.hpp:34 | a new tree has no nodes |
| LegacyTree.LegacyDecisionTree.Insert | tree.hpp:70-73 | the vector grows by exactly one fresh node and no node is removed |
| LegacyTree.LegacyDecisionTree.InsertRoot | tree.hpp:62-65 | an empty tree gets one fresh root; a non-empty tree returns node 0 unchanged |
| LegacyTree.LegacyDecisionTree.InsertLeftChild | tree.hpp:38-41 | always sets the parent's left to the old size and appends one fresh node, whatever the parent held |
| LegacyTree.LegacyDecisionTree.InsertRightChild | tree.hpp:43-46 | always sets the parent's right to the old size and appends one fresh node |
| LegacyTree.LegacyDecisionTree.InsertChildren | tree.hpp:48-53 | left is the old size, right the old size + 1, the tree grows by 2 and no other node changes |
| LegacyTree.RepeatedLeftInsertion | tree.hpp:38-41 | inserting a left child twice yields two different children and orphans the first one: insertion is not idempotent |
| Sampler.DrawIndex | ayasdi/random_sample.hpp:93 | the drawn slot `rng() % (count + 1)` lies in [0, count] |
| Sampler.Offer | ayasdi/random_sample.hpp:93-96 | an offer never changes the number of slots: a draw outside the reservoir writes nothing |
| Sampler.Reservoir | ayasdi/random_sample.hpp:92-97 | the replacement loop keeps the reservoir at k slots |
| Sampler.Sample | ayasdi/random_sample.hpp:68-102 | short input: copied in order into the first len slots, the rest untouched, result len; otherwise result k (`out_end`); every written slot holds an input element |
| Sampler.ReservoirFromStream | ayasdi/random_sample.hpp:75-97 | every reservoir slot holds an element of the stream |
| Sampler.ReservoirIsSelection | ayasdi/random_sample.hpp:92-97 | the reservoir is the selection of k distinct stream positions already read: sampling without replacement |
| Sampler.SelectionStep | ayasdi/random_sample.hpp:93-96 | one further element keeps the reservoir a selection of distinct positions already read |
| Sampler.RandomSample | ayasdi/random_sample.hpp:68-102 | the output range and the returned offset are those of `Sample`: the first k inputs fill the slots in order, then every later element is offered to slot `rng() % (count + 1)` |
| SplitSearch.IsPureColumn | ayasdi/random_forest.hpp:41-49 | on a non-empty range the result is true iff every row's label equals the first row's label |
| SplitSearch.FirstMax | ayasdi/random_forest.hpp:69-70 | `max_element` gives a largest count, and every earlier count is strictly smaller (first maximum) |
| SplitSearch.Majority | ayasdi/random_forest.hpp:64-71 | the majority label is 0 or 1, its count is at least the other's, and a tie gives 0 |
| SplitSearch.MajorityVote | ayasdi/random_forest.hpp:64-71 | the in-place tally returns the majority label of the range |
| SplitSearch.MajorityVoteWithOob | include/random_forest/train_rf.hpp:48-59 | tallying the in-bag range and then the OOB range returns the majority label of both together |
| SplitSearch.AddVotes | ayasdi/random_forest.hpp:65-66 | the tally loop turns the histogram of a prefix into the histogram of a longer prefix |
| SplitSearch.InsertRow | ayasdi/random_forest.hpp:103-104 | one insertion pass permutes the range and extends its sorted prefix by one |
| SplitSearch.SortByColumn | ayasdi/random_forest.hpp:103-104 | after the sort the rows are a permutation of themselves, in non-decreasing order of the column |
| SplitSearch.Tally | ayasdi/random_forest.hpp:106-109 | `upper_counts` is filled with the label histogram of the whole range |
| SplitSearch.CountsConserved | ayasdi/random_forest.hpp:106-120 | at every sweep position, lower plus upper count of each label equals that label's count in the range |
| SplitSearch.SweepSideSizes | ayasdi/random_forest.hpp:114-124 | at position j the lower histogram holds j labels and the upper n - j, while the sizes passed are j + 1 and n - j - 1 |
| SplitSearch.SweepStep | ayasdi/random_forest.hpp:118-120 | moving row j adds its label to the lower histogram and removes it from the upper one, which held it, so `upper_counts` never underflows |
| SplitSearch.SweepFromBest | ayasdi/random_forest.hpp:116-134 | the rest of the sweep keeps the best-so-far invariant, up to the end unless it stopped at an exact 0 |
| SplitSearch.SweepIsBest | ayasdi/random_forest.hpp:112-135 | the returned position is 0 (baseline) or a candidate strictly below the baseline; entropy never above the baseline; all earlier candidates strictly worse; without an exact-0 exit no later candidate better |
| SplitSearch.SweepSplit | ayasdi/random_forest.hpp:106-135 | the imperative sweep over a sorted range returns exactly `Sweep` |
| SplitSearch.SweepPosition | ayasdi/random_forest.hpp:116-132 | one position leaves the histograms of that position, and either ends the sweep with its result or hands on the same remaining result |
| SplitSearch.FindBestColumnSplit | ayasdi/random_forest.hpp:95-136 | the range ends a sorted permutation of itself and the result is `Sweep` of that order, with position < n |
| SplitSearch.CutSeparates | ayasdi/random_forest.hpp:204-213 | in a sorted range, rows before the cut have column values at most the threshold and rows from the cut at least it |
| SplitSearch.ScannedStep | ayasdi/random_forest.hpp:198-214 | a column becomes the choice exactly when its entropy is strictly below the best so far, so the choice is the first column with the smallest entropy |
| SplitSearch.ScanColumn | ayasdi/random_forest.hpp:193-215 | one column iteration keeps the range a permutation and extends the loop state by that column |
| SplitSearch.ChooseSplit | ayasdi/random_forest.hpp:187-215 | with no column: column 0, threshold +infinity, both sides empty; otherwise the first column with the smallest entropy, its sorted prefix and suffix at the winning position, and the threshold read at the first row of the suffix |
| Forest.ClampHeight | ayasdi/random_forest.hpp:141 | the stored height is at most 30, equals the request iff the request is at most 30, and is 30 otherwise |
| Forest.SubsetSize | ayasdi/random_forest.hpp:185 | the number of sampled columns is the truncation of fraction · n, at most n |
| Forest.LabelIndex | include/random_forest/decision_tree.hpp:31 | the label read from a leaf is 0 or 1 and is the leaf's split value |
| Forest.Ballots | ayasdi/random_forest.hpp:284 | one ballot per tree, in order, each the label that tree votes for |
| Forest.Plurality | ayasdi/random_forest.hpp:283-289 | the label with at least as many votes as the other, 0 on a tie |
| Forest.UninitialisedTallyOverrulesTrees | ayasdi/random_forest.hpp:276-279 | a tally starting at (5, 0) returns 0 when the only tree votes 1, while a zeroed tally returns 1 |
| Forest.RandomForest.constructor | ayasdi/random_forest.hpp:27-28 | 500 trees, column fraction 0.3, height cap 30, no trees |
| Forest.RandomForest.Copy | ayasdi/random_forest.hpp:29-31 | copies the three parameters and none of the trees |
| Forest.RandomForest.WithParameters | ayasdi/random_forest.hpp:33-35 | stores the three parameters as given, the height without the cap |
| Forest.RandomForest.SetMaxTreeHeight | ayasdi/random_forest.hpp:140-143 | stores min(new, 30), returns true iff new ≤ 30, changes nothing else |
| Forest.RandomForest.InsertTree | ayasdi/random_forest.hpp:291-294 | appends one new empty tree |
| Forest.RandomForest.RandomSubsetFromRange | ayasdi/random_forest.hpp:145-157 | the result holds upper - lower distinct positions below upper - lower, in some order |
| Forest.RandomForest.GenerateLeafNode | ayasdi/random_forest.hpp:53-55 | only the node's split value changes, to the label |
| Forest.RandomForest.SetSplit | ayasdi/random_forest.hpp:58-61 | only the node's column and split value change |
| Forest.RandomForest.InstallSplit | ayasdi/random_forest.hpp:217-219 | the node becomes internal with the column, threshold and both children; on a leaf the children are the old size and the old size + 1 and the tree grows by exactly two nodes; the tree stays well-formed |
| Forest.RandomForest.SampleAndChooseSplit | ayasdi/random_forest.hpp:180-215 | with ⌊fraction · n⌋ = 0 sampled columns: column 0 at +infinity and empty sides; otherwise k = ⌊fraction · n⌋ distinct columns of the dataset, each with the range sorted by it and the best cut `Sweep` of that order; the chosen column is the first with the smallest entropy, its sorted range is cut at the sweep's position into the two sides, and the finite threshold is the column's value at the first row of the right side, so it separates the sides |
| Forest.RandomForest.ChooseAndInstall | ayasdi/random_forest.hpp:180-219 | the chosen split is recorded at n with both children allocated: n's outcome is that split, other nodes already in the tree are unchanged, appended children are fresh, and on a leaf they are the old size and old size + 1 and the tree grows by exactly two |
| Forest.RandomForest.BuildRandomTree | ayasdi/random_forest.hpp:159-233 | pure range: leaf with the range's label; height cap or ≤ 5 rows: leaf with the majority label; otherwise n holds the winning split of the sampled columns and, from a leaf, each child is built from its side (pure leaf, majority leaf at the next level's budget, or internal) or stays fresh when its side is empty; the range is permuted in place; the tree only grows and stays well-formed; nodes before n are untouched |
| Forest.RandomForest.SplitNode | ayasdi/random_forest.hpp:180-232 | n holds the winning split over the ⌊fraction · n⌋ sampled columns, which separates the range; from a leaf, each non-empty side is built into its child one level higher and an empty side's child stays fresh |
| Forest.RandomForest.GrowSides | ayasdi/random_forest.hpp:220-232 | the left side is built into the left child, then the right side into the right child after `insert_right_child` returns the existing child; an empty side is skipped and its fresh child stays fresh; nothing before both children changes |
| Forest.RandomForest.GrowChild | ayasdi/random_forest.hpp:224-231 | a recursive call on a copied side one level higher changes nothing before the child; from a leaf it changes no other old node and builds the child from the side (pure leaf, majority leaf when the budget is spent, internal otherwise) |
| Forest.RandomForest.CastVote | ayasdi/random_forest.hpp:284 | one tree adds one to the slot of its vote |
| Forest.RandomForest.ClassifyInto | ayasdi/random_forest.hpp:283-289 | the tally ends as the caller's initial tally plus the ballots of all trees, and the result is its first maximum |
| Forest.RandomForest.ClassifyUninitialised | ayasdi/random_forest.hpp:276-279 | as written, the result is the first maximum of whatever the tally held plus the ballots |
| Forest.RandomForest.Classify | ayasdi/random_forest.hpp:276-279 | with the tally zeroed, the result is the plurality of the trees' votes |
| OobTraining.AsWrittenOffsetsCollide | include/random_forest/train_rf.hpp:207 | the written stride makes two positions of a 3 × 2 view share a slot, and column 1 begin inside column 0 |
| OobTraining.Offset | include/random_forest/train_rf.hpp:207 | the corrected offset lies inside the buffer and divides back into the column (quotient) and row (remainder) |
| OobTraining.OffsetInjective | include/random_forest/train_rf.hpp:207 | distinct positions never share a slot |
| OobTraining.MatrixView.Column | include/random_forest/train_rf.hpp:213-214 | `begin(j) .. end(j)` holds the `height` values (i, j) |
| OobTraining.MatrixView.Columns | include/random_forest/train_rf.hpp:209-214 | the view as `width` columns, each the view's column |
| OobTraining.AllOfLabel | include/random_forest/train_rf.hpp:14 | `all_of` is true iff every row's label equals the given label |
| OobTraining.IsPureColumnAllOf | include/random_forest/train_rf.hpp:11-15 | on a non-empty range: true iff every label equals the first label |
| OobTraining.PartitionOob | include/random_forest/train_rf.hpp:176-177 | the OOB range ends a permutation of itself, nothing outside it changes, and exactly the rows with `output[a] < threshold` lie before the returned middle |
| OobTraining.PartitionStep | include/random_forest/train_rf.hpp:176-177 | one step of the partition keeps the range a permutation and the parts ordered |
| OobTraining.CountOob | include/random_forest/train_rf.hpp:119-121 | each OOB row adds one at (leaf label, true label): the leaf's row of the matrix grows by the OOB label histogram, the other row is unchanged |
| OobTraining.InBagSize | include/random_forest/train_rf.hpp:246 | the bag size is the ceiling of fraction · m, at most m |
| OobTraining.DefaultBagIsEmpty | include/random_forest/random_forest.hpp:32 | the parameter as declared puts no row in the bag |
| OobTraining.DefaultBagIsNonEmpty | include/random_forest/random_forest.hpp:32 | the intended fraction 0.63 puts between 1 and m rows in the bag of a non-empty dataset |
| OobTraining.OobForest.constructor | include/random_forest/train_rf.hpp:236-240 | stores the tree count, column fraction and depth cap that `fit` and the builder read; no trees |
| OobTraining.OobForest.LeafWithOob | include/random_forest/train_rf.hpp:116-135 | a leaf gets the label, and every OOB row in range adds one at (label, its true label) |
| OobTraining.OobForest.BuildRandomTreeOob | include/random_forest/train_rf.hpp:106-199 | pure or budget (depth cap, fewer than log m rows) leaf: every OOB row counted at (leaf label, true label); otherwise n holds the winning split, from a leaf each child is built from its side or stays fresh, and the counted rows split into a left part that goes left (`output[a] < threshold`) and a right part that does not, each empty when its in-bag side is; the OOB range is permuted in place; each matrix column grows by exactly the counted OOB rows of that label, drawn from the range |
| OobTraining.OobForest.SplitNodeOob | include/random_forest/train_rf.hpp:138-198 | n holds the winning split and its sides are built as in the in-bag builder; the counted rows are a left part routed left by n's own threshold plus a right part routed right, each empty when its in-bag side is; with no sampled column nothing is counted |
| OobTraining.OobForest.PartitionAndGrowOob | include/random_forest/train_rf.hpp:176-198 | partitioning the OOB range and recursing on both sides permutes the range, and the rows counted on each side come from the range and are routed that side's way by the threshold |
| OobTraining.OobForest.GrowSidesOob | include/random_forest/train_rf.hpp:179-198 | the left side counts only OOB rows from before the middle and the right side only rows from the middle on; a side with no in-bag rows keeps its fresh child and counts nothing; non-empty sides are built into their children |
| OobTraining.OobForest.GrowChildOob | include/random_forest/train_rf.hpp:184-197 | an empty side changes nothing and counts nothing; otherwise a recursive call on a copied in-bag side keeps the OOB bookkeeping and builds a fresh child from the side |
| OobTraining.OobForest.Fit | include/random_forest/train_rf.hpp:233-257 | one tree per iteration is appended, each well-formed, non-empty and grown; for every tree the counted rows are drawn from the positions of its shuffle after the first ⌈fraction · m⌉; each confusion column ends as the number of counted OOB rows of that label over all trees |
| OobTraining.OobForest.TreeOob | include/random_forest/train_rf.hpp:240-255 | one tree is appended, well-formed, non-empty and grown; the positions are a shuffle of 0 .. m-1, and the counted rows are drawn from the shuffle's positions after the first ⌈fraction · m⌉, so at most m - ⌈fraction · m⌉ of them; each confusion column grows by the counted rows of that label |
| OobTraining.OobForest.GrowFromBag | include/random_forest/train_rf.hpp:250-254 | building from the root counts at most the OOB rows |
| OobTraining.SplitBag | include/random_forest/train_rf.hpp:244-252 | the in-bag range is the first s shuffled positions and the OOB range the rest |
| OobTraining.OobBookkeeping | include/random_forest/train_rf.hpp:184-198 | the two recursions together permute the range, and the rows counted on both sides are drawn from it and add up |
| OobTraining.RoutedByPartition | include/random_forest/train_rf.hpp:176-198 | rows drawn from the part before the middle go left and rows drawn from the rest do not |
| OobTraining.PermutedTwice | include/random_forest/train_rf.hpp:176-198 | a partition followed by the recursions leaves the OOB range a permutation of itself |

## Left out

- Entropy: `entropy` and `balanced_entropy` use floating-point logarithms and divisions. The model keeps them as the `Score` parameter, so nothing is proved about entropy values.
- Doubles are real numbers plus +infinity. NaN, rounding and the exact `== 0.0` of IEEE arithmetic are not modelled.
- The size threshold `log(dataset.m())` of the OOB builder is the parameter `logRows`.
- Randomness is not modelled. `random_device`, `mt19937` and `random_shuffle` become "some permutation", and `random_sample`'s generator is a sequence of draws.
- The `std::rand` overload of `random_sample` is only a wrapper and is not modelled.
- The uniformity of the sample cannot be stated without probabilities. The model proves sampling without replacement instead.
- Timers and console output are not modelled.
- The OOB error ratio is not modelled.
- The `train` method of ayasdi/random_forest.hpp is not modelled. Its OOB loop overwrites one row buffer with the last OOB row and only prints; the OOB training modelled is `fit` of train_rf.hpp.
- include/random_forest/random_forest.hpp is not modelled beyond `row_fraction_size`. It holds a parameter struct with ill-typed defaults and a classifier skeleton that calls `predict` on trees that have none.
- random_forest.hpp is not modelled: its `train` is empty and its `classify` returns nothing.
- rf.cpp and ayasdi/row_view.hpp are not part of this model (a file-reading driver, and a one-line strided accessor).
- `generate_leaf_node` and `set_split` inside decision_tree.hpp do not compile, so they are not modelled. The forest's versions are modelled instead.
- The missing `left_child_index_` declaration of decision_tree.hpp is modelled as present.
- `Matrix`, `Matrix_view::end()`, `data()` and the stray `random` token of `fit` do not compile and are not modelled.
- Trivial accessors (`size`, `operator[]`, `reserve`, `is_not_leaf`, `max_tree_height`, `height`, `width`) are read as fields, not modelled as members.
- `root()` on an empty tree (the tests call it) is undefined behaviour and is excluded by a precondition.
- Node references are positions. The builders keep `node&` references to n and to both children (`kids`) across the left recursion, `insert_right_child(n)` and the right recursion (ayasdi/random_forest.hpp:220-231, include/random_forest/train_rf.hpp:184-197), and `insert_children` returns references into the vector. Any growth past the reserved capacity (the default of 500 nodes in tree.hpp, `dataset.n()` in `train` of ayasdi/random_forest.hpp, `dataset.width()` in `fit`) reallocates the vector and leaves those references dangling. The model does not capture this reallocation.
- Integers are unbounded. The only `size_t` effects that matter are modelled explicitly: the truncation of `column_subset_size_ * n` and of `row_fraction_size`, and `numeric_limits<size_t>::infinity()` being 0.
- The order `std::sort` gives equal keys, and the order `std::partition` gives each part, are unspecified. The model fixes one admissible order and promises only what the standard does.
- In `fit` the in-bag and OOB ranges are two arrays copied from one shuffled vector. When the bag is non-empty, no step of the source reads across the boundary between them. With an empty bag the source's first step reads past the in-bag range; `TreeOob` requires a non-empty bag, and `DefaultBagIsEmpty` shows that the declared default gives an empty one.
- OobTraining.OobForest.Fit: reads the dataset through the corrected `Offset` (stride `n_rows`), not through the stride `n_cols` of train_rf.hpp:207, so the trees it grows are those of a column-major view; with the stride as written columns overlap (`AsWrittenOffsetsCollide`).
- The OOB split branch records the split and allocates both children before partitioning the OOB range, where the source runs `set_split`, `std::partition`, then `insert_children`. The partition touches only the OOB rows and the other two steps only the tree, so the outcome is the same.
- `dtree_node` has no default constructor, so the `emplace_back()` in `insert` (include/random_forest/decision_tree.hpp:160) does not compile. `Fresh` models a value-initialised node, all four fields 0.
- `is_pure_column` of train_rf.hpp names `r` in its lambda, which is not declared. It is read as `first_v`.
- Forest.RandomForest.BuildRandomTree: states the outcome at node n and, from a leaf, at each of n's two children, and that the tree stays well-formed; it does not state the shape of the subtrees below n's children.
- OobTraining.OobForest.BuildRandomTreeOob: on a split, states which counted OOB rows went to each side of n and that they came from the range, not at which leaf below each child they were counted.
- OobTraining.OobForest.Fit: states the confusion-matrix totals, that each tree is grown, and from which positions each tree's counted rows come, not the shape of each grown tree.

## Findings

| source | as written | input that shows it | evidently intended | confidence | as-written member | corrected member |
|---|---|---|---|---|---|---|
| ayasdi/random_forest.hpp:276-279 | `classify(p)` passes a default-initialised `std::array<size_t, 2>`, holding indeterminate values, to the tally | one tree voting 1, with the tally holding (5, 0): the result is 0 | zero the tally, then return the label most trees vote for | not executed | Forest.UninitialisedTallyOverrulesTrees | Forest.RandomForest.Classify |
| include/random_forest/train_rf.hpp:207 | `operator()(i, j)` reads `ptr[j * n_cols + i]` while a column is `n_rows` long | a 3 × 2 view: (2, 0) and (0, 1) both read slot 2, and column 1 begins inside column 0 | column-major stride `j * n_rows + i` | not executed | OobTraining.AsWrittenOffsetsCollide | OobTraining.Offset |
| include/random_forest/decision_tree.hpp:114-124 | `vote` steps right whenever `p[split_] < split_value_` fails, even when the node has no right child, whose position is then 0, the root | the tree that `insert_root` and one `insert_left_child` build (`OneChildTree`), whose root keeps the value-initialised split, column 0 at 0.0, and the point (0.0): the walk goes from the root back to the root, and `vote` never returns | vote only on trees whose internal nodes have both children, as `build_random_tree` makes them; then every step moves forward and the walk ends at a leaf | not executed | TreeStore.OneChildWalkReturnsToRoot | TreeStore.DecisionTree.Vote |
| include/random_forest/random_forest.hpp:32 | `row_fraction_size` is a `std::size_t` initialised with `.63`, so it is 0 | any dataset with the default parameters: `ceil(0 · m)` is 0, so `fit` builds from an empty bag and reads its first row | the fraction 0.63 as a double | not executed | OobTraining.DefaultBagIsEmpty | OobTraining.DefaultBagIsNonEmpty |
