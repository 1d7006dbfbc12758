/**
 * The forest of ayasdi/random_forest.hpp: its parameters, the sampling of
 * columns, the recursive tree builder and classification by a vote over the
 * trees.
 *
 * The dataset is column-major: `data[c]` is column c, and every column has one
 * value per row of `output`. `std::random_shuffle` is modelled as "some
 * permutation"; the balanced entropy is the `score` parameter of SplitSearch.
 */
module Forest {
  import opened TreeStore
  import opened SplitSearch
  import Sampler

  /** `MAX_TREE_HEIGHT`. */
  const MaxTreeHeight: nat := 30

  /** `std::min(new_height_, MAX_TREE_HEIGHT)`: the height kept by `set_max_tree_height`. */
  function ClampHeight(h: nat): (r: nat)
    ensures r <= MaxTreeHeight
    ensures r == h <==> h <= MaxTreeHeight
    ensures h > MaxTreeHeight ==> r == MaxTreeHeight
  {
    if h < MaxTreeHeight then h else MaxTreeHeight
  }

  /** `n` distinct positions below `n`, in some order: what `iota` followed by `random_shuffle` yields. */
  predicate IsShuffle(s: seq<nat>, n: nat)
  {
    && |s| == n
    && (forall i :: 0 <= i < |s| ==> s[i] < n)
    && (forall i, j :: 0 <= i < j < |s| ==> s[i] != s[j])
  }

  /**
   * The number of sampled columns: `columns.begin() + column_subset_size_ * n`
   * converts the product to an iterator offset, truncating it.
   */
  function SubsetSize(fraction: real, n: nat): (k: nat)
    requires 0.0 <= fraction <= 1.0
    ensures k <= n
    ensures k as real <= fraction * n as real < k as real + 1.0
  {
    ScaledWithin(fraction, n);
    (fraction * n as real).Floor
  }

  /** A fraction of `n` lies between zero and `n`. */
  lemma ScaledWithin(fraction: real, n: nat)
    requires 0.0 <= fraction <= 1.0
    ensures 0.0 <= fraction * n as real <= n as real
  {
    assert n as real - fraction * n as real == (1.0 - fraction) * n as real;
  }

  /** Every leaf holds a label, 0 or 1, as its split value. */
  ghost predicate LeavesLabelled(nodes: seq<Node>)
  {
    forall i :: 0 <= i < |nodes| && nodes[i].IsLeaf() ==>
      nodes[i].splitValue == Finite(0.0) || nodes[i].splitValue == Finite(1.0)
  }

  /** Every internal node splits on one of the `width` columns. */
  ghost predicate SplitsWithin(nodes: seq<Node>, width: nat)
  {
    forall i :: 0 <= i < |nodes| && !nodes[i].IsLeaf() ==> nodes[i].split < width
  }

  /**
   * The invariant of a tree under construction: ordered child positions,
   * internal nodes with both children, labelled leaves and, for a dataset with
   * columns, split columns that exist.
   */
  ghost predicate Grown(nodes: seq<Node>, width: nat)
  {
    Ordered(nodes) && Full(nodes) && LeavesLabelled(nodes) && (width > 0 ==> SplitsWithin(nodes, width))
  }

  /** Every column has one value per row. */
  ghost predicate Shaped(data: seq<seq<real>>, output: seq<nat>)
  {
    forall c :: 0 <= c < |data| ==> |data[c]| == |output|
  }

  /**
   * A split of a range: the two sides hold exactly the rows of the range, and
   * the threshold is the column's value at the first row of the right side,
   * so no row on the left has a larger value and no row on the right a smaller
   * one.
   */
  ghost predicate SeparatedBy(data: seq<seq<real>>, rows: seq<nat>, column: nat, threshold: real,
                              left: seq<nat>, right: seq<nat>)
  {
    && multiset(left + right) == multiset(rows)
    && |right| > 0 && column < |data| && right[0] < |data[column]|
    && threshold == data[column][right[0]]
    && (forall r :: r in left ==> r < |data[column]| && data[column][r] <= threshold)
    && (forall r :: r in right ==> r < |data[column]| && threshold <= data[column][r])
  }

  /**
   * What the column loop of one split goes through: the sampled columns, the
   * order in which each column's sort left the range, each column's best cut,
   * the position of the winning column among the sampled ones, and the two
   * sides of the range at the winning cut.
   */
  datatype SplitTrace = SplitTrace(columns: seq<nat>, orders: seq<seq<nat>>, splits: seq<Split>, chosen: nat,
                                   left: seq<nat>, right: seq<nat>)

  /**
   * The split chosen from k > 0 sampled columns: k distinct columns of the
   * dataset; for each, the range sorted by that column and the best cut of the
   * sweep over that order; the winner is the first column with the smallest
   * entropy, its range is cut at the sweep's position, and the threshold is
   * the column's value at the first row of the right side.
   */
  ghost predicate WinningSplit(score: Score, output: seq<nat>, data: seq<seq<real>>, rows: seq<nat>, k: nat,
                               column: nat, threshold: real, trace: SplitTrace)
  {
    && |trace.columns| == k && |trace.orders| == k && |trace.splits| == k
    && (forall i, j :: 0 <= i < j < k ==> trace.columns[i] != trace.columns[j])
    && (forall i :: 0 <= i < k ==>
          && trace.columns[i] < |data| && |trace.orders[i]| > 1
          && SortedCopy(trace.orders[i], rows, data[trace.columns[i]], output))
    && (forall i {:trigger Sweep(score, output, trace.orders[i])} :: 0 <= i < k ==>
          trace.splits[i] == Sweep(score, output, trace.orders[i]))
    && FirstMin(trace.splits, trace.chosen) && column == trace.columns[trace.chosen]
    && trace.left + trace.right == trace.orders[trace.chosen]
    && |trace.left| == trace.splits[trace.chosen].position
    && |trace.right| > 0 && trace.right[0] < |data[column]| && threshold == data[column][trace.right[0]]
  }

  /**
   * The outcome of a split at node n over the range `rows`, with k sampled
   * columns: n is internal with both children; with no sampled column it
   * splits on column 0 at +infinity and both sides are empty; otherwise its
   * column and finite threshold are those of the winning split, which
   * separates the range into the two sides sent to the children.
   */
  ghost predicate SplitAt(nodes: seq<Node>, n: nat, score: Score, output: seq<nat>, data: seq<seq<real>>,
                          rows: seq<nat>, k: nat, trace: SplitTrace)
  {
    && n < |nodes| && !nodes[n].IsLeaf() && nodes[n].left < |nodes| && nodes[n].right < |nodes|
    && (k == 0 ==>
          && nodes[n].split == 0 && nodes[n].splitValue == PositiveInfinity
          && trace.left == [] && trace.right == [])
    && (k > 0 ==>
          && nodes[n].splitValue.Finite?
          && WinningSplit(score, output, data, rows, k, nodes[n].split, nodes[n].splitValue.value, trace)
          && SeparatedBy(data, rows, nodes[n].split, nodes[n].splitValue.value, trace.left, trace.right))
  }

  /** A split recorded at n stays recorded while later steps leave n alone and only grow the tree. */
  lemma SplitAtKept(nodes: seq<Node>, nodes': seq<Node>, n: nat, score: Score, output: seq<nat>,
                    data: seq<seq<real>>, rows: seq<nat>, k: nat, trace: SplitTrace)
    requires SplitAt(nodes, n, score, output, data, rows, k, trace)
    requires |nodes'| >= |nodes| && nodes'[n] == nodes[n]
    ensures SplitAt(nodes', n, score, output, data, rows, k, trace)
  {
  }

  /**
   * Node c after the builder ran on the rows `side` from a leaf: a pure side
   * makes a leaf with the side's label; otherwise, with the depth budget
   * spent, a leaf with the majority label; otherwise an internal node.
   */
  ghost predicate Built(nodes: seq<Node>, c: nat, output: seq<nat>, side: seq<nat>, budgetSpent: bool)
  {
    && c < |nodes| && |side| > 0 && Labelled(output, side)
    && (SameLabel(output, side) ==>
          nodes[c].IsLeaf() && nodes[c].splitValue == Finite(output[side[0]] as real))
    && (!SameLabel(output, side) && budgetSpent ==>
          nodes[c].IsLeaf() && nodes[c].splitValue == Finite(Majority(output, side) as real))
    && (!SameLabel(output, side) && !budgetSpent ==> !nodes[c].IsLeaf())
  }

  /**
   * Child c after the recursion on the rows `side`, starting from a fresh
   * node: built from the side when it has rows, otherwise never built and
   * still fresh, which reads as a leaf labelled 0.
   */
  ghost predicate ChildBuilt(nodes: seq<Node>, c: nat, output: seq<nat>, side: seq<nat>, budgetSpent: bool)
  {
    && c < |nodes|
    && (side == [] ==> nodes[c] == Fresh)
    && (side != [] ==> Built(nodes, c, output, side, budgetSpent))
  }

  /** Both children of n after the recursion of a split. */
  ghost predicate SidesBuilt(nodes: seq<Node>, n: nat, output: seq<nat>, left: seq<nat>, right: seq<nat>,
                             leftSpent: bool, rightSpent: bool)
  {
    && n < |nodes|
    && ChildBuilt(nodes, nodes[n].left, output, left, leftSpent)
    && ChildBuilt(nodes, nodes[n].right, output, right, rightSpent)
  }

  /** A child's outcome stays while later steps leave its node alone. */
  lemma ChildBuiltKept(nodes: seq<Node>, nodes': seq<Node>, c: nat, output: seq<nat>, side: seq<nat>,
                       budgetSpent: bool)
    requires ChildBuilt(nodes, c, output, side, budgetSpent) && c < |nodes'| && nodes'[c] == nodes[c]
    ensures ChildBuilt(nodes', c, output, side, budgetSpent)
  {
  }

  /** Both sides of a labelled range are labelled. */
  lemma LabelledSides(output: seq<nat>, left: seq<nat>, right: seq<nat>)
    requires Labelled(output, left + right)
    ensures Labelled(output, left) && Labelled(output, right)
  {
    assert forall i :: 0 <= i < |left| ==> left[i] == (left + right)[i];
    assert forall i :: 0 <= i < |right| ==> right[i] == (left + right)[|left| + i];
  }

  /** The label index of a tree's vote: `(Label_type)split_value_` on a labelled leaf. */
  function LabelIndex(v: Double): (c: nat)
    requires v == Finite(0.0) || v == Finite(1.0)
    ensures c < 2 && v == Finite(c as real)
  {
    if v == Finite(0.0) then 0 else 1
  }

  /** A point every tree can classify: a non-empty, well-formed tree that reads only its columns. */
  ghost predicate Classifiable(trees: seq<DecisionTree>, p: seq<real>)
    reads trees
  {
    forall i :: 0 <= i < |trees| ==> Votable(trees[i].nodes, p) && LeavesLabelled(trees[i].nodes)
  }

  /** The label one tree votes for. */
  ghost function TreeVote(t: DecisionTree, p: seq<real>): (c: nat)
    reads t
    requires Votable(t.nodes, p) && LeavesLabelled(t.nodes)
    ensures c < 2
  {
    LabelIndex(t.nodes[LeafReached(t.nodes, p, 0)].splitValue)
  }

  /** The labels the trees vote for, in order. */
  ghost function Ballots(trees: seq<DecisionTree>, p: seq<real>): (b: seq<nat>)
    reads trees
    requires Classifiable(trees, p)
    ensures |b| == |trees| && forall i :: 0 <= i < |b| ==> b[i] == TreeVote(trees[i], p)
  {
    if trees == [] then []
    else Ballots(trees[..|trees| - 1], p) + [TreeVote(trees[|trees| - 1], p)]
  }

  /** How many ballots name label c. */
  function Occurrences(ballots: seq<nat>, c: nat): (r: nat)
    ensures r <= |ballots|
  {
    if ballots == [] then 0
    else Occurrences(ballots[..|ballots| - 1], c) + (if ballots[|ballots| - 1] == c then 1 else 0)
  }

  /** With binary ballots the two counts add up to the number of trees. */
  lemma {:induction false} OccurrencesTotal(ballots: seq<nat>)
    requires forall i :: 0 <= i < |ballots| ==> ballots[i] < 2
    ensures Occurrences(ballots, 0) + Occurrences(ballots, 1) == |ballots|
    decreases |ballots|
  {
    if ballots != [] {
      OccurrencesTotal(ballots[..|ballots| - 1]);
    }
  }

  /** The two-slot tally after adding the ballots to `initial`. */
  function Tallied(initial: seq<nat>, ballots: seq<nat>): (votes: seq<nat>)
    requires |initial| == 2
  {
    [initial[0] + Occurrences(ballots, 0), initial[1] + Occurrences(ballots, 1)]
  }

  /** One more ballot for label c adds one to slot c of the tally. */
  lemma TalliedSnoc(initial: seq<nat>, ballots: seq<nat>, c: nat)
    requires |initial| == 2 && c < 2
    ensures Tallied(initial, ballots + [c]) == Tallied(initial, ballots)[c := Tallied(initial, ballots)[c] + 1]
  {
    OccurrencesSnoc(ballots, c, 0);
    OccurrencesSnoc(ballots, c, 1);
  }

  /** Counting ballot i adds one to its label's slot of the tally of the ballots before it. */
  lemma TalliedStep(initial: seq<nat>, ballots: seq<nat>, i: nat)
    requires |initial| == 2 && i < |ballots| && ballots[i] < 2
    ensures Tallied(initial, ballots[..i + 1]) ==
            Tallied(initial, ballots[..i])[ballots[i] := Tallied(initial, ballots[..i])[ballots[i]] + 1]
  {
    assert ballots[..i + 1] == ballots[..i] + [ballots[i]];
    TalliedSnoc(initial, ballots[..i], ballots[i]);
  }

  /**
   * The label most trees vote for, 0 on a tie: the first maximum of a tally
   * that starts from zero.
   */
  function Plurality(ballots: seq<nat>): (c: nat)
    ensures c < 2
    ensures Occurrences(ballots, c) >= Occurrences(ballots, 1 - c)
    ensures Occurrences(ballots, 0) == Occurrences(ballots, 1) ==> c == 0
  {
    FirstMax(Tallied([0, 0], ballots))
  }

  /**
   * The public `classify(p)` hands an uninitialised `Map votes` to the tally,
   * so whatever the two slots held decides against the trees: starting from
   * (5, 0), one tree voting 1 still yields 0, while the zeroed tally yields 1.
   */
  lemma UninitialisedTallyOverrulesTrees()
    ensures FirstMax(Tallied([5, 0], [1])) == 0
    ensures Plurality([1]) == 1
  {
    assert [1][..0] == [];
    assert Occurrences([1], 0) == 0 && Occurrences([1], 1) == 1;
  }

  /** One more ballot adds one to its label's count. */
  lemma OccurrencesSnoc(ballots: seq<nat>, b: nat, c: nat)
    ensures Occurrences(ballots + [b], c) == Occurrences(ballots, c) + (if b == c then 1 else 0)
  {
    assert (ballots + [b])[..|ballots|] == ballots;
  }

  /** The `random_forest` class: its parameters and its trees. */
  class RandomForest {
    var numberOfTrees: nat
    var columnSubsetSize: real
    var maxTreeHeight: nat
    var trees: seq<DecisionTree>

    /** The default constructor: 500 trees, 30% of the columns, height `MAX_TREE_HEIGHT`. */
    constructor ()
      ensures numberOfTrees == 500 && columnSubsetSize == 0.3 && maxTreeHeight == MaxTreeHeight
      ensures trees == []
    {
      numberOfTrees, columnSubsetSize, maxTreeHeight := 500, 0.3, MaxTreeHeight;
      trees := [];
    }

    /** The copy constructor copies the three parameters and none of the trees. */
    constructor Copy(f: RandomForest)
      ensures numberOfTrees == f.numberOfTrees && columnSubsetSize == f.columnSubsetSize
      ensures maxTreeHeight == f.maxTreeHeight && trees == []
    {
      numberOfTrees, columnSubsetSize, maxTreeHeight := f.numberOfTrees, f.columnSubsetSize, f.maxTreeHeight;
      trees := [];
    }

    /** The parametrised constructor stores the height as given, without the cap of `set_max_tree_height`. */
    constructor WithParameters(numberOfTrees: nat, columnSubsetSize: real, maxTreeHeight: nat)
      ensures this.numberOfTrees == numberOfTrees && this.columnSubsetSize == columnSubsetSize
      ensures this.maxTreeHeight == maxTreeHeight && trees == []
    {
      this.numberOfTrees, this.columnSubsetSize, this.maxTreeHeight := numberOfTrees, columnSubsetSize, maxTreeHeight;
      trees := [];
    }

    /**
     * `set_max_tree_height`: store the height capped at `MAX_TREE_HEIGHT` and
     * report whether it was within the cap.
     */
    method SetMaxTreeHeight(newHeight: nat) returns (ok: bool)
      modifies this
      ensures maxTreeHeight == ClampHeight(newHeight) && (ok <==> newHeight <= MaxTreeHeight)
      ensures numberOfTrees == old(numberOfTrees) && columnSubsetSize == old(columnSubsetSize)
      ensures trees == old(trees)
    {
      maxTreeHeight := if newHeight < MaxTreeHeight then newHeight else MaxTreeHeight;
      ok := newHeight <= MaxTreeHeight;
    }

    /** The private `insert`: append an empty tree. */
    method InsertTree() returns (t: DecisionTree)
      modifies this
      ensures fresh(t) && t.Valid() && t.nodes == [] && trees == old(trees) + [t]
      ensures numberOfTrees == old(numberOfTrees) && columnSubsetSize == old(columnSubsetSize)
      ensures maxTreeHeight == old(maxTreeHeight)
    {
      t := new DecisionTree(0);
      trees := trees + [t];
    }

    /**
     * `random_subset_from_range`: the positions 0 .. upper-lower-1 (`iota`
     * starts at 0 whatever `lower` is) in an order chosen by `random_shuffle`.
     */
    static method RandomSubsetFromRange(lower: nat, upper: nat) returns (v: seq<nat>)
      requires lower <= upper
      ensures IsShuffle(v, upper - lower)
    {
      var identity := Sampler.Positions(upper - lower);
      assert IsShuffle(identity, upper - lower);
      v :| IsShuffle(v, upper - lower);
    }

    /** The private `generate_leaf_node`: the label becomes the node's split value. */
    static method GenerateLeafNode(t: DecisionTree, n: nat, classLabel: nat)
      requires t.Valid() && n < |t.nodes|
      modifies t
      ensures t.Valid()
      ensures t.nodes == old(t.nodes)[n := old(t.nodes[n]).(splitValue := Finite(classLabel as real))]
    {
      t.nodes := t.nodes[n := t.nodes[n].(splitValue := Finite(classLabel as real))];
    }

    /** The private `set_split`: record the split column and threshold in the node. */
    static method SetSplit(t: DecisionTree, n: nat, column: nat, threshold: Double)
      requires t.Valid() && n < |t.nodes|
      modifies t
      ensures t.Valid()
      ensures t.nodes == old(t.nodes)[n := old(t.nodes[n]).(split := column, splitValue := threshold)]
    {
      t.nodes := t.nodes[n := t.nodes[n].(split := column, splitValue := threshold)];
    }

    /**
     * `set_split` followed by `insert_children`: node n becomes an internal
     * node on the column with the threshold, and keeps the tree grown.
     */
    static method InstallSplit(t: DecisionTree, n: nat, column: nat, threshold: Double, ghost width: nat)
      returns (left: nat, right: nat)
      requires t.Valid() && n < |t.nodes| && Grown(t.nodes, width) && (width > 0 ==> column < width)
      modifies t
      ensures t.Valid() && Grown(t.nodes, width) && |t.nodes| >= |old(t.nodes)|
      ensures n < left < |t.nodes| && n < right < |t.nodes|
      ensures t.nodes[n] == old(t.nodes[n]).(split := column, splitValue := threshold, left := left, right := right)
      ensures forall i :: 0 <= i < |old(t.nodes)| && i != n ==> t.nodes[i] == old(t.nodes[i])
      ensures forall i :: |old(t.nodes)| <= i < |t.nodes| ==> t.nodes[i] == Fresh
      ensures old(t.nodes[n]).IsLeaf() ==>
                left == |old(t.nodes)| && right == |old(t.nodes)| + 1 && |t.nodes| == |old(t.nodes)| + 2
    {
      SetSplit(t, n, column, threshold);
      left, right := t.InsertChildren(n);
    }

    /**
     * `build_random_tree` for the range `rows` at node n of tree t:
     * - a pure range makes n a leaf labelled with the range's label;
     * - otherwise, at the height cap or with at most 5 rows, n gets the
     *   majority label;
     * - otherwise n becomes a split (see `SplitNode`).
     * The range is sorted in place by each sampled column, so it ends a
     * permutation of itself. The tree only grows, nodes other than n and the
     * appended ones are untouched, and the tree stays grown.
     *
     * Recursion stops because the height grows by one per level up to the cap,
     * not because ranges shrink (a split may send the whole range right).
     */
    method BuildRandomTree(rows: array<nat>, data: seq<seq<real>>, output: seq<nat>,
                           t: DecisionTree, n: nat, height: nat, score: Score)
      returns (ghost trace: SplitTrace)
      requires rows.Length > 0 && Labelled(output, rows[..]) && Shaped(data, output)
      requires 0.0 <= columnSubsetSize <= 1.0
      requires t.Valid() && n < |t.nodes| && Grown(t.nodes, |data|)
      modifies rows, t
      ensures t.Valid() && Grown(t.nodes, |data|) && |t.nodes| >= |old(t.nodes)|
      ensures forall i :: 0 <= i < n ==> t.nodes[i] == old(t.nodes[i])
      ensures old(t.nodes[n]).IsLeaf() ==>
                forall i :: 0 <= i < |old(t.nodes)| && i != n ==> t.nodes[i] == old(t.nodes[i])
      ensures multiset(rows[..]) == multiset(old(rows[..]))
      ensures SameLabel(output, old(rows[..])) ==>
                t.nodes == old(t.nodes)[n := old(t.nodes[n]).(splitValue := Finite(output[old(rows[0])] as real))]
      ensures !SameLabel(output, old(rows[..])) && (height >= maxTreeHeight || rows.Length <= 5) ==>
                t.nodes == old(t.nodes)[n := old(t.nodes[n]).(splitValue := Finite(Majority(output, old(rows[..])) as real))]
      ensures !SameLabel(output, old(rows[..])) && height < maxTreeHeight && rows.Length > 5 ==>
                && SplitAt(t.nodes, n, score, output, data, old(rows[..]), SubsetSize(columnSubsetSize, |data|), trace)
                && (old(t.nodes[n]).IsLeaf() ==>
                      SidesBuilt(t.nodes, n, output, trace.left, trace.right,
                                 height + 1 >= maxTreeHeight || |trace.left| <= 5,
                                 height + 1 >= maxTreeHeight || |trace.right| <= 5))
      decreases maxTreeHeight - height, 3
    {
      trace := SplitTrace([], [], [], 0, [], []);
      var pure := IsPureColumn(rows[..], output);
      if pure {
        GenerateLeafNode(t, n, output[rows[0]]);
        return;
      }
      if height >= maxTreeHeight || rows.Length <= 5 {
        var classLabel := MajorityVote(rows[..], output);
        GenerateLeafNode(t, n, classLabel);
        return;
      }
      trace := SplitNode(rows, data, output, t, n, height, score);
    }

    /**
     * The column sampling and the column loop of `build_random_tree` (and of
     * its out-of-bag variant): shuffle the column positions, keep the first
     * ⌊fraction·n⌋ of them, and choose the best split over those columns. With
     * no sampled column the split is column 0 at +infinity with both sides
     * empty; otherwise the split is the winning one over the sampled columns,
     * and its finite threshold separates the range into its two sides. The
     * ghost result `trace` records the columns, orders and cuts of the loop.
     */
    static method SampleAndChooseSplit(fraction: real, rows: array<nat>, data: seq<seq<real>>, output: seq<nat>,
                                       score: Score)
      returns (column: nat, threshold: Double, left: seq<nat>, right: seq<nat>, ghost trace: SplitTrace)
      requires rows.Length > 1 && Labelled(output, rows[..]) && Shaped(data, output)
      requires 0.0 <= fraction <= 1.0
      modifies rows
      ensures multiset(rows[..]) == multiset(old(rows[..]))
      ensures Labelled(output, left) && Labelled(output, right)
      ensures trace.left == left && trace.right == right
      ensures |data| > 0 ==> column < |data|
      ensures SubsetSize(fraction, |data|) == 0 ==>
                column == 0 && threshold == PositiveInfinity && left == [] && right == []
      ensures SubsetSize(fraction, |data|) > 0 ==>
                && threshold.Finite?
                && WinningSplit(score, output, data, old(rows[..]), SubsetSize(fraction, |data|), column,
                                threshold.value, trace)
                && SeparatedBy(data, old(rows[..]), column, threshold.value, left, right)
    {
      ghost var rows0 := rows[..];
      var k := SubsetSize(fraction, |data|);
      var shuffled := RandomSubsetFromRange(0, |data|);
      var columns := shuffled[..k];
      ghost var orders, splits, chosen;
      column, threshold, left, right, orders, splits, chosen := ChooseSplit(rows, data, columns, output, score);
      trace := SplitTrace(columns, orders, splits, chosen, left, right);
      if k > 0 {
        assert SortedCopy(orders[chosen], rows0, data[column], output);
        CutSeparates(left, right, data[column]);
      }
      LabelledSides(output, left, right);
    }

    /**
     * Choose the split of the range (see `SampleAndChooseSplit`) and record it
     * in node n (`set_split`) with both children allocated (`insert_children`):
     * n's outcome is the chosen split, nothing else already in the tree
     * changes, and the appended children are fresh.
     */
    static method ChooseAndInstall(t: DecisionTree, n: nat, fraction: real, rows: array<nat>,
                                   data: seq<seq<real>>, output: seq<nat>, score: Score)
      returns (threshold: Double, left: seq<nat>, right: seq<nat>, leftChild: nat, rightChild: nat,
               ghost trace: SplitTrace)
      requires rows.Length > 1 && Labelled(output, rows[..]) && Shaped(data, output) && 0.0 <= fraction <= 1.0
      requires t.Valid() && n < |t.nodes| && Grown(t.nodes, |data|)
      modifies rows, t
      ensures multiset(rows[..]) == multiset(old(rows[..]))
      ensures Labelled(output, left) && Labelled(output, right) && trace.left == left && trace.right == right
      ensures t.Valid() && Grown(t.nodes, |data|) && |t.nodes| >= |old(t.nodes)|
      ensures SplitAt(t.nodes, n, score, output, data, old(rows[..]), SubsetSize(fraction, |data|), trace)
      ensures t.nodes[n].splitValue == threshold && t.nodes[n].left == leftChild && t.nodes[n].right == rightChild
      ensures n < leftChild < |t.nodes| && n < rightChild < |t.nodes|
      ensures forall i :: 0 <= i < |old(t.nodes)| && i != n ==> t.nodes[i] == old(t.nodes[i])
      ensures forall i :: |old(t.nodes)| <= i < |t.nodes| ==> t.nodes[i] == Fresh
      ensures old(t.nodes[n]).IsLeaf() ==>
                leftChild == |old(t.nodes)| && rightChild == |old(t.nodes)| + 1 && |t.nodes| == |old(t.nodes)| + 2
    {
      var column;
      column, threshold, left, right, trace := SampleAndChooseSplit(fraction, rows, data, output, score);
      leftChild, rightChild := InstallSplit(t, n, column, threshold, |data|);
    }

    /**
     * The split branch of `build_random_tree`: choose the split, record it in
     * n and allocate both children, then recurse one level higher on each
     * non-empty side (see `GrowSides`).
     */
    method SplitNode(rows: array<nat>, data: seq<seq<real>>, output: seq<nat>,
                     t: DecisionTree, n: nat, height: nat, score: Score)
      returns (ghost trace: SplitTrace)
      requires rows.Length > 5 && Labelled(output, rows[..]) && Shaped(data, output)
      requires 0.0 <= columnSubsetSize <= 1.0 && height < maxTreeHeight
      requires t.Valid() && n < |t.nodes| && Grown(t.nodes, |data|)
      modifies rows, t
      ensures t.Valid() && Grown(t.nodes, |data|) && |t.nodes| >= |old(t.nodes)|
      ensures forall i :: 0 <= i < n ==> t.nodes[i] == old(t.nodes[i])
      ensures old(t.nodes[n]).IsLeaf() ==>
                forall i :: 0 <= i < |old(t.nodes)| && i != n ==> t.nodes[i] == old(t.nodes[i])
      ensures multiset(rows[..]) == multiset(old(rows[..]))
      ensures SplitAt(t.nodes, n, score, output, data, old(rows[..]), SubsetSize(columnSubsetSize, |data|), trace)
      ensures old(t.nodes[n]).IsLeaf() ==>
                SidesBuilt(t.nodes, n, output, trace.left, trace.right,
                           height + 1 >= maxTreeHeight || |trace.left| <= 5,
                           height + 1 >= maxTreeHeight || |trace.right| <= 5)
      decreases maxTreeHeight - height, 2
    {
      var threshold, left, right, leftChild, rightChild;
      threshold, left, right, leftChild, rightChild, trace :=
        ChooseAndInstall(t, n, columnSubsetSize, rows, data, output, score);
      ghost var installed := t.nodes;
      GrowSides(left, right, data, output, t, n, leftChild, rightChild, height, score);
      SplitAtKept(installed, t.nodes, n, score, output, data, old(rows[..]), SubsetSize(columnSubsetSize, |data|),
                  trace);
    }

    /**
     * The recursion of the split branch below the installed node n: the left
     * child grows from the left side, then (`insert_right_child` returning the
     * child already there) the right child from the right side, one level
     * higher each. An empty side is skipped and its child left as it was.
     * Starting from two fresh children, each non-empty side ends built into
     * its child and nothing else below the two children changes.
     */
    method GrowSides(left: seq<nat>, right: seq<nat>, data: seq<seq<real>>, output: seq<nat>, t: DecisionTree,
                     n: nat, leftChild: nat, rightChild: nat, height: nat, score: Score)
      requires Labelled(output, left) && Labelled(output, right) && Shaped(data, output)
      requires 0.0 <= columnSubsetSize <= 1.0 && height < maxTreeHeight
      requires t.Valid() && Grown(t.nodes, |data|) && n < leftChild < |t.nodes| && n < rightChild < |t.nodes|
      requires t.nodes[n].left == leftChild && t.nodes[n].right == rightChild
      modifies t
      ensures t.Valid() && Grown(t.nodes, |data|) && |t.nodes| >= |old(t.nodes)|
      ensures forall i :: 0 <= i < leftChild && i < rightChild ==> t.nodes[i] == old(t.nodes[i])
      ensures leftChild < rightChild && old(t.nodes[leftChild]) == Fresh && old(t.nodes[rightChild]) == Fresh ==>
                && (forall i :: 0 <= i < |old(t.nodes)| && i != leftChild && i != rightChild ==>
                      t.nodes[i] == old(t.nodes[i]))
                && SidesBuilt(t.nodes, n, output, left, right,
                              height + 1 >= maxTreeHeight || |left| <= 5, height + 1 >= maxTreeHeight || |right| <= 5)
      decreases maxTreeHeight - height, 1
    {
      if |left| > 0 {
        GrowChild(left, data, output, t, leftChild, height + 1, score);
      }
      ghost var afterLeft := t.nodes;
      if |right| > 0 {
        var again := t.InsertRightChild(n);
        GrowChild(right, data, output, t, rightChild, height + 1, score);
      }
      if leftChild < rightChild && old(t.nodes[leftChild]) == Fresh && old(t.nodes[rightChild]) == Fresh {
        assert t.nodes[leftChild] == afterLeft[leftChild];
      }
    }

    /** One recursive call of the split branch: build the child's subtree from a copy of its side. */
    method GrowChild(side: seq<nat>, data: seq<seq<real>>, output: seq<nat>,
                     t: DecisionTree, child: nat, height: nat, score: Score)
      requires |side| > 0 && Labelled(output, side) && Shaped(data, output)
      requires 0.0 <= columnSubsetSize <= 1.0 && 0 < height <= maxTreeHeight
      requires t.Valid() && child < |t.nodes| && Grown(t.nodes, |data|)
      modifies t
      ensures t.Valid() && Grown(t.nodes, |data|) && |t.nodes| >= |old(t.nodes)|
      ensures forall i :: 0 <= i < child ==> t.nodes[i] == old(t.nodes[i])
      ensures old(t.nodes[child]).IsLeaf() ==>
                && (forall i :: 0 <= i < |old(t.nodes)| && i != child ==> t.nodes[i] == old(t.nodes[i]))
                && Built(t.nodes, child, output, side, height >= maxTreeHeight || |side| <= 5)
      decreases maxTreeHeight - height + 1, 0
    {
      var rows := new nat[|side|](i requires 0 <= i < |side| => side[i]);
      assert rows[..] == side;
      ghost var trace := BuildRandomTree(rows, data, output, t, child, height, score);
    }

    /**
     * The private `classify(p, votes)`: add each tree's vote to the caller's
     * two-slot tally and return the first label with the most votes.
     */
    method ClassifyInto(p: seq<real>, votes: array<nat>) returns (classLabel: nat)
      requires votes.Length == 2 && Classifiable(trees, p)
      modifies votes
      ensures votes[..] == Tallied(old(votes[..]), Ballots(trees, p))
      ensures classLabel == FirstMax(votes[..])
    {
      ghost var initial := votes[..];
      ghost var ballots := Ballots(trees, p);
      var i := 0;
      while i != |trees|
        invariant i <= |trees|
        invariant votes[..] == Tallied(initial, ballots[..i])
      {
        CastVote(trees[i], p, votes);
        TalliedStep(initial, ballots, i);
        i := i + 1;
      }
      assert ballots[..i] == ballots;
      classLabel := FirstMax(votes[..]);
    }

    /** One iteration of the tally: `votes[tree.classify(p)]++`. */
    static method CastVote(t: DecisionTree, p: seq<real>, votes: array<nat>)
      requires votes.Length == 2 && Votable(t.nodes, p) && LeavesLabelled(t.nodes)
      modifies votes
      ensures votes[..] == old(votes[..])[TreeVote(t, p) := old(votes[TreeVote(t, p)]) + 1]
    {
      var v := t.Vote(p);
      var c := LabelIndex(v);
      votes[c] := votes[c] + 1;
    }

    /**
     * The public `classify(p)` as written: the tally is a fresh `Map` that is
     * never zeroed, so it starts from whatever `initial` it happens to hold.
     */
    method ClassifyUninitialised(p: seq<real>, initial: seq<nat>) returns (classLabel: nat)
      requires |initial| == 2 && Classifiable(trees, p)
      ensures classLabel == FirstMax(Tallied(initial, Ballots(trees, p)))
    {
      var votes := new nat[2];
      votes[0], votes[1] := initial[0], initial[1];
      assert votes[..] == initial;
      classLabel := ClassifyInto(p, votes);
    }

    /**
     * `classify(p)` with the tally zeroed first: the label most trees vote
     * for, 0 on a tie.
     */
    method Classify(p: seq<real>) returns (classLabel: nat)
      requires Classifiable(trees, p)
      ensures classLabel == Plurality(Ballots(trees, p))
    {
      var votes := new nat[2];
      votes[0], votes[1] := 0, 0;
      assert votes[..] == [0, 0];
      classLabel := ClassifyInto(p, votes);
    }
  }
}
