/**
 * The out-of-bag training draft of include/random_forest/train_rf.hpp: the
 * column-major `Matrix_view`, the `all_of` purity test, and the tree builder
 * that routes the out-of-bag (OOB) rows of a tree down its splits with
 * `std::partition` and adds one confusion-matrix count per OOB row at each
 * leaf, driven by `fit`.
 *
 * In-bag and OOB rows are two arrays here; in the source they are the two ends
 * of one shuffled index vector, which no step reads across.
 */
module OobTraining {
  import opened TreeStore
  import opened SplitSearch
  import opened Forest

  /** `Matrix_view(i, j)` as written: `ptr[j * n_cols + i]`. */
  function OffsetAsWritten(height: nat, width: nat, i: nat, j: nat): nat
  {
    j * width + i
  }

  /**
   * The stride of the written view is the number of columns, so two distinct
   * in-range positions of a 3 × 2 view share a slot, and `begin(1)` (slot 2)
   * lies inside column 0, which spans slots 0 .. 2.
   */
  lemma AsWrittenOffsetsCollide()
    ensures OffsetAsWritten(3, 2, 2, 0) == OffsetAsWritten(3, 2, 0, 1) == 2
    ensures OffsetAsWritten(3, 2, 0, 0) + 3 > OffsetAsWritten(3, 2, 0, 1)
  {
  }

  /** The column-major offset the view evidently means: column j starts at j · height. */
  function Offset(height: nat, width: nat, i: nat, j: nat): (k: nat)
    requires i < height && j < width
    ensures k < height * width
    ensures k / height == j && k % height == i
  {
    OffsetBounds(height, width, i, j);
    j * height + i
  }

  lemma OffsetBounds(height: nat, width: nat, i: nat, j: nat)
    requires i < height && j < width
    ensures j * height + i < height * width
    ensures (j * height + i) / height == j && (j * height + i) % height == i
  {
    assert j * height + i < (j + 1) * height;
    assert (j + 1) * height <= width * height by {
      assert j + 1 <= width;
    }
    DivisionOfOffset(height, i, j);
  }

  /** Dividing `j · height + i` by the height recovers j, with remainder i. */
  lemma DivisionOfOffset(height: nat, i: nat, j: nat)
    requires i < height
    ensures (j * height + i) / height == j && (j * height + i) % height == i
  {
    var y := j * height + i;
    var q, r := y / height, y % height;
    assert (j - q) * height == r - i;
    NoSmallMultiple(j - q, height);
  }

  /** The only multiple of a positive h strictly between -h and h is 0. */
  lemma NoSmallMultiple(d: int, h: nat)
    requires h > 0 && -(h as int) < d * h < h
    ensures d == 0
  {
    assert d >= 1 ==> d * h >= h;
    assert d <= -1 ==> d * h <= -(h as int);
  }

  /** Column j of a column-major view ends inside the buffer. */
  lemma ColumnBounds(height: nat, width: nat, j: nat)
    requires j < width
    ensures j * height + height <= height * width
  {
    assert (j + 1) * height <= width * height by {
      assert j + 1 <= width;
    }
  }

  /** Distinct positions of the corrected view never share a slot. */
  lemma OffsetInjective(height: nat, width: nat, i: nat, j: nat, i': nat, j': nat)
    requires i < height && j < width && i' < height && j' < width
    requires Offset(height, width, i, j) == Offset(height, width, i', j')
    ensures i == i' && j == j'
  {
  }

  /** A view of a buffer of height · width values. */
  datatype MatrixView = MatrixView(buffer: seq<real>, height: nat, width: nat)
  {
    ghost predicate Valid()
    {
      |buffer| == height * width
    }

    /** `operator()(i, j)` with the column-major offset. */
    function At(i: nat, j: nat): real
      requires Valid() && i < height && j < width
    {
      buffer[Offset(height, width, i, j)]
    }

    /** `begin(j) .. end(j)`: the `height` values of column j. */
    function Column(j: nat): (col: seq<real>)
      requires Valid() && j < width
      ensures |col| == height
      ensures forall i :: 0 <= i < height ==> col[i] == At(i, j)
    {
      ColumnBounds(height, width, j);
      buffer[j * height .. j * height + height]
    }

    /** The view as the column-major dataset of the tree builder. */
    function Columns(): (data: seq<seq<real>>)
      requires Valid()
      ensures |data| == width && forall j :: 0 <= j < width ==> data[j] == Column(j)
    {
      seq(width, j requires 0 <= j < width => Column(j))
    }
  }

  /**
   * `std::all_of(begin, end, pred)` over row indices, with
   * `pred(i) = (first_v == output[i])`.
   */
  function AllOfLabel(output: seq<nat>, rows: seq<nat>, first: nat): (r: bool)
    requires Within(rows, |output|)
    ensures r <==> forall i :: 0 <= i < |rows| ==> output[rows[i]] == first
  {
    if rows == [] then true
    else output[rows[0]] == first && AllOfLabel(output, rows[1..], first)
  }

  /**
   * `is_pure_column` of the draft: every label equals the first one (the
   * lambda's `r` read as `first_v`, the only label in scope).
   */
  function IsPureColumnAllOf(rows: seq<nat>, output: seq<nat>): (pure: bool)
    requires |rows| > 0 && Within(rows, |output|)
    ensures pure <==> SameLabel(output, rows)
  {
    AllOfLabel(output, rows, output[rows[0]])
  }

  /** The partition predicate: `output[a] < split_threshold_value`, comparing a label with the threshold. */
  predicate GoesLeft(output: seq<nat>, threshold: Double, a: nat)
    requires a < |output|
  {
    Below(output[a] as real, threshold)
  }

  /** The range lo .. hi of `a` holds rows of `output`. */
  ghost predicate RangeWithin(a: seq<nat>, lo: nat, hi: nat, m: nat)
    requires lo <= hi <= |a|
  {
    forall k :: lo <= k < hi ==> a[k] < m
  }

  /** The range lo .. hi of `a` is a permutation of the same range of `b`, and nothing outside it differs. */
  ghost predicate PermutedRange(a: seq<nat>, b: seq<nat>, lo: nat, hi: nat)
    requires lo <= hi <= |a| == |b|
  {
    a[..lo] == b[..lo] && a[hi..] == b[hi..] && multiset(a[lo..hi]) == multiset(b[lo..hi])
  }

  lemma SliceSplit(s: seq<nat>, lo: nat, mid: nat, hi: nat)
    requires lo <= mid <= hi <= |s|
    ensures s[lo..hi] == s[lo..mid] + s[mid..hi]
    ensures multiset(s[lo..hi]) == multiset(s[lo..mid]) + multiset(s[mid..hi])
  {
  }

  lemma LabelledWithin(output: seq<nat>, a: seq<nat>, lo: nat, hi: nat)
    requires lo <= hi <= |a| && Labelled(output, a[lo..hi])
    ensures RangeWithin(a, lo, hi, |output|)
  {
    assert forall k :: lo <= k < hi ==> a[k] == a[lo..hi][k - lo];
  }

  /** What a call on lo .. mid leaves alone includes mid .. hi. */
  lemma UnchangedSuffix(before: seq<nat>, after: seq<nat>, lo: nat, mid: nat, hi: nat)
    requires lo <= mid <= hi <= |before| == |after| && after[mid..] == before[mid..]
    ensures after[mid..hi] == before[mid..hi]
  {
    assert after[mid..hi] == after[mid..][..hi - mid];
    assert before[mid..hi] == before[mid..][..hi - mid];
  }

  /** A range holding labelled rows holds them after any permutation. */
  lemma LabelledRange(output: seq<nat>, a: seq<nat>, b: seq<nat>, lo: nat, hi: nat)
    requires lo <= hi <= |a| == |b| && PermutedRange(a, b, lo, hi) && Labelled(output, b[lo..hi])
    ensures Labelled(output, a[lo..hi])
  {
    LabelledPermutation(output, b[lo..hi], a[lo..hi]);
  }

  /**
   * `std::partition(oob_begin, oob_end, pred)`: the range becomes a
   * permutation of itself with exactly the rows satisfying the predicate
   * before the returned middle. The order within each part is unspecified in
   * the source; this is one admissible outcome.
   */
  method PartitionOob(oob: array<nat>, lo: nat, hi: nat, output: seq<nat>, threshold: Double)
    returns (middle: nat)
    requires lo <= hi <= oob.Length && Labelled(output, oob[lo..hi])
    modifies oob
    ensures lo <= middle <= hi
    ensures PermutedRange(oob[..], old(oob[..]), lo, hi) && Labelled(output, oob[lo..hi])
    ensures PartitionedAround(oob[..], lo, middle, hi, output, threshold)
  {
    LabelledWithin(output, oob[..], lo, hi);
    middle := lo;
    var j := lo;
    while j != hi
      invariant PartitionedUpTo(oob[..], old(oob[..]), lo, hi, output, threshold, middle, j)
    {
      middle := PartitionStep(oob, lo, hi, output, threshold, old(oob[..]), middle, j);
      j := j + 1;
    }
    LabelledRange(output, oob[..], old(oob[..]), lo, hi);
  }

  /** Rows before `middle` in the range go left, rows from `middle` on do not. */
  ghost predicate PartitionedAround(a: seq<nat>, lo: nat, middle: nat, hi: nat, output: seq<nat>, threshold: Double)
  {
    && lo <= middle <= hi <= |a|
    && (forall k :: lo <= k < middle ==> a[k] < |output| && GoesLeft(output, threshold, a[k]))
    && (forall k :: middle <= k < hi ==> a[k] < |output| && !GoesLeft(output, threshold, a[k]))
  }

  /**
   * The state of the partition loop: the range is a permutation of the
   * original, rows before `middle` go left, rows from `middle` to `j` do not,
   * and rows from `j` on are still to be looked at.
   */
  ghost predicate PartitionedUpTo(a: seq<nat>, original: seq<nat>, lo: nat, hi: nat, output: seq<nat>,
                                  threshold: Double, middle: nat, j: nat)
  {
    && lo <= middle <= j <= hi <= |a| == |original|
    && PermutedRange(a, original, lo, hi)
    && (forall k :: lo <= k < hi ==> a[k] < |output|)
    && (forall k :: lo <= k < middle ==> a[k] < |output| && GoesLeft(output, threshold, a[k]))
    && (forall k :: middle <= k < j ==> a[k] < |output| && !GoesLeft(output, threshold, a[k]))
  }

  /** One step of `std::partition`: a row that goes left is swapped to the end of the left part. */
  method PartitionStep(oob: array<nat>, lo: nat, hi: nat, output: seq<nat>, threshold: Double,
                       ghost original: seq<nat>, middle: nat, j: nat)
    returns (middle': nat)
    requires j < hi && PartitionedUpTo(oob[..], original, lo, hi, output, threshold, middle, j)
    modifies oob
    ensures PartitionedUpTo(oob[..], original, lo, hi, output, threshold, middle', j + 1)
  {
    middle' := middle;
    if GoesLeft(output, threshold, oob[j]) {
      ghost var before := oob[..];
      oob[middle], oob[j] := oob[j], oob[middle];
      SwapKeepsPermutation(original, before, oob[..], lo, hi, middle, j);
      middle' := middle + 1;
    }
  }

  /** Exchanging two slots inside a range keeps the range a permutation of the original. */
  lemma SwapKeepsPermutation(original: seq<nat>, before: seq<nat>, after: seq<nat>, lo: nat, hi: nat, x: nat, y: nat)
    requires lo <= x <= y < hi <= |original| == |before|
    requires PermutedRange(before, original, lo, hi)
    requires after == before[x := before[y]][y := before[x]]
    ensures PermutedRange(after, original, lo, hi)
  {
    assert after[lo..hi] == before[lo..hi][x - lo := before[y]][y - lo := before[x]];
    assert after[..lo] == before[..lo];
    assert after[hi..] == before[hi..];
  }

  /**
   * The OOB rows counted below the two children of a split with the given
   * threshold: rows counted on the left go left, rows counted on the right do
   * not, and a side with no in-bag rows counts none.
   */
  ghost predicate Routed(output: seq<nat>, threshold: Double, left: seq<nat>, right: seq<nat>,
                         countedLeft: seq<nat>, countedRight: seq<nat>)
  {
    && (forall r :: r in countedLeft ==> r < |output| && GoesLeft(output, threshold, r))
    && (forall r :: r in countedRight ==> r < |output| && !GoesLeft(output, threshold, r))
    && (left == [] ==> countedLeft == [])
    && (right == [] ==> countedRight == [])
  }

  /**
   * Rows counted below each child, drawn from that child's part of a
   * partitioned range, are routed the child's way.
   */
  lemma RoutedByPartition(output: seq<nat>, threshold: Double, a: seq<nat>, lo: nat, middle: nat, hi: nat,
                          left: seq<nat>, right: seq<nat>, countedLeft: seq<nat>, countedRight: seq<nat>)
    requires PartitionedAround(a, lo, middle, hi, output, threshold)
    requires multiset(countedLeft) <= multiset(a[lo..middle]) && multiset(countedRight) <= multiset(a[middle..hi])
    requires left == [] ==> countedLeft == []
    requires right == [] ==> countedRight == []
    ensures Routed(output, threshold, left, right, countedLeft, countedRight)
  {
    DrawnFromPart(output, threshold, countedLeft, a, lo, middle, true);
    DrawnFromPart(output, threshold, countedRight, a, middle, hi, false);
  }

  /** Rows drawn from a part of the range that all go one way go that way too. */
  lemma DrawnFromPart(output: seq<nat>, threshold: Double, counted: seq<nat>, a: seq<nat>, lo: nat, hi: nat,
                      goesLeft: bool)
    requires lo <= hi <= |a| && multiset(counted) <= multiset(a[lo..hi])
    requires forall k :: lo <= k < hi ==> a[k] < |output| && GoesLeft(output, threshold, a[k]) == goesLeft
    ensures forall r :: r in counted ==> r < |output| && GoesLeft(output, threshold, r) == goesLeft
  {
    forall r | r in counted
      ensures r < |output| && GoesLeft(output, threshold, r) == goesLeft
    {
      assert r in multiset(counted);
      assert r in a[lo..hi];
      var i :| 0 <= i < hi - lo && a[lo..hi][i] == r;
      assert a[lo + i] == r;
    }
  }

  /**
   * The OOB loop of a leaf: `confusion_matrix(predicted, output[*i])++` for
   * every OOB row i, so row `predicted` of the matrix grows by the label
   * histogram of the OOB range and the other row is untouched.
   */
  method CountOob(confusion: array2<nat>, oob: array<nat>, lo: nat, hi: nat, predicted: nat, output: seq<nat>)
    requires confusion.Length0 == 2 && confusion.Length1 == 2 && predicted < 2
    requires lo <= hi <= oob.Length && Labelled(output, oob[lo..hi])
    modifies confusion
    ensures forall a, c :: 0 <= a < 2 && 0 <= c < 2 ==>
              confusion[a, c] == old(confusion[a, c]) + (if a == predicted then Count(output, oob[lo..hi], c) else 0)
  {
    ghost var range := oob[lo..hi];
    var i := lo;
    assert range[..0] == [];
    assert forall c :: Count(output, range[..0], c) == 0;
    while i != hi
      invariant lo <= i <= hi && Labelled(output, range[..i - lo])
      invariant forall a, c :: 0 <= a < 2 && 0 <= c < 2 ==>
                  confusion[a, c] == old(confusion[a, c]) + (if a == predicted then Count(output, range[..i - lo], c) else 0)
    {
      assert range[..i + 1 - lo][..i - lo] == range[..i - lo];
      assert range[i - lo] == oob[i];
      var c := output[oob[i]];
      confusion[predicted, c] := confusion[predicted, c] + 1;
      i := i + 1;
    }
    assert range[..hi - lo] == range;
  }

  /** The confusion matrix is a 2 × 2 matrix indexed by (predicted label, true label). */
  ghost predicate IsConfusion(m: array2<nat>)
  {
    m.Length0 == 2 && m.Length1 == 2
  }

  /** How many OOB rows have been counted for true label c: the sum of column c. */
  ghost function ColumnTotal(m: array2<nat>, c: nat): nat
    reads m
    requires IsConfusion(m) && c < 2
  {
    m[0, c] + m[1, c]
  }

  /** Both column totals. */
  ghost function ColumnTotals(m: array2<nat>): seq<nat>
    reads m
    requires IsConfusion(m)
  {
    [ColumnTotal(m, 0), ColumnTotal(m, 1)]
  }

  /** The multiset of a sequence bounds its length. */
  lemma SubMultisetLength(a: seq<nat>, b: seq<nat>)
    requires multiset(a) <= multiset(b)
    ensures |a| <= |b|
  {
    assert |multiset(a)| <= |multiset(b)| by {
      MultisetCardinality(multiset(a), multiset(b));
    }
  }

  lemma {:induction false} MultisetCardinality(x: multiset<nat>, y: multiset<nat>)
    requires x <= y
    ensures |x| <= |y|
    decreases |x|
  {
    if x != multiset{} {
      var e :| e in x;
      MultisetCardinality(x - multiset{e}, y - multiset{e});
    }
  }

  /** The training parameter `row_fraction_size` as declared: `std::size_t` initialised with `.63`, which truncates to 0. */
  const RowFractionAsWritten: nat := 0

  /** The fraction of rows drawn into the bag the parameter evidently means. */
  const RowFraction: real := 0.63

  /** `std::ceil(row_fraction_size * height)`: the number of in-bag rows. */
  function InBagSize(fraction: real, height: nat): (s: nat)
    requires 0.0 <= fraction <= 1.0
    ensures s <= height
    ensures s as real - 1.0 < fraction * height as real <= s as real
  {
    ScaledWithin(fraction, height);
    var f := SubsetSize(fraction, height);
    if f as real == fraction * height as real then f else f + 1
  }

  /**
   * With the parameter as declared no row is ever in the bag: `fit` would pass
   * an empty range to `build_random_tree`, whose first step reads its first
   * row.
   */
  lemma DefaultBagIsEmpty(height: nat)
    ensures InBagSize(RowFractionAsWritten as real, height) == 0
  {
  }

  /** With the intended fraction every non-empty dataset puts at least one row in the bag and keeps the rest out. */
  lemma DefaultBagIsNonEmpty(height: nat)
    requires height > 0
    ensures 0 < InBagSize(RowFraction, height) <= height
  {
  }

  /** The sum over the trees of the label-c counts of the OOB rows each one counted. */
  ghost function CountedTotal(output: seq<nat>, counted: seq<seq<nat>>, c: nat): nat
    requires forall i :: 0 <= i < |counted| ==> Labelled(output, counted[i])
  {
    if counted == [] then 0
    else
      var last := |counted| - 1;
      assert forall i :: 0 <= i < last ==> counted[..last][i] == counted[i];
      assert Labelled(output, counted[last]);
      CountedTotal(output, counted[..last], c) + Count(output, counted[last], c)
  }

  /** Every label is 0 or 1. */
  ghost predicate Binary(output: seq<nat>)
  {
    forall r :: 0 <= r < |output| ==> output[r] < 2
  }

  /** The training driver of train_rf.hpp: its parameters and the trees it grows. */
  class OobForest {
    var numberOfTrees: nat
    var columnSubsetSize: real
    var maxTreeDepth: nat
    var trees: seq<DecisionTree>

    constructor (numberOfTrees: nat, columnSubsetSize: real, maxTreeDepth: nat)
      ensures this.numberOfTrees == numberOfTrees && this.columnSubsetSize == columnSubsetSize
      ensures this.maxTreeDepth == maxTreeDepth && trees == []
    {
      this.numberOfTrees, this.columnSubsetSize, this.maxTreeDepth := numberOfTrees, columnSubsetSize, maxTreeDepth;
      trees := [];
    }

    /**
     * A leaf of the OOB builder: the label becomes the node's split value and
     * every OOB row in range adds one to (label, its true label).
     */
    static method LeafWithOob(t: DecisionTree, n: nat, predicted: nat, oob: array<nat>, lo: nat, hi: nat,
                              confusion: array2<nat>, output: seq<nat>, ghost width: nat)
      requires t.Valid() && n < |t.nodes| && Grown(t.nodes, width) && predicted < 2 && IsConfusion(confusion)
      requires lo <= hi <= oob.Length && Labelled(output, oob[lo..hi])
      modifies t, confusion
      ensures t.Valid() && Grown(t.nodes, width) && |t.nodes| == |old(t.nodes)|
      ensures t.nodes == old(t.nodes)[n := old(t.nodes[n]).(splitValue := Finite(predicted as real))]
      ensures forall i :: 0 <= i < |old(t.nodes)| && i != n ==> t.nodes[i] == old(t.nodes[i])
      ensures forall a, c :: 0 <= a < 2 && 0 <= c < 2 ==>
                confusion[a, c] == old(confusion[a, c]) + (if a == predicted then Count(output, oob[lo..hi], c) else 0)
      ensures forall c :: 0 <= c < 2 ==>
                ColumnTotal(confusion, c) == old(ColumnTotal(confusion, c)) + Count(output, oob[lo..hi], c)
      ensures forall a, c :: 0 <= a < 2 && 0 <= c < 2 ==> old(confusion[a, c]) <= confusion[a, c]
    {
      RandomForest.GenerateLeafNode(t, n, predicted);
      CountOob(confusion, oob, lo, hi, predicted, output);
    }

    /**
     * The OOB `build_random_tree` for the in-bag range `rows` and the OOB
     * range lo .. hi of `oob` at node n of tree t:
     * - a pure range makes n a leaf with its label and counts every OOB row
     *   against that label;
     * - otherwise, at the depth cap or with fewer than log m rows (`logRows`
     *   is log m), n gets the majority label and every OOB row is counted
     *   against it;
     * - otherwise n becomes a split and the OOB range is partitioned and
     *   passed down (see `SplitNodeOob`).
     * The ghost result `counted` lists the OOB rows that reached a leaf and were
     * counted: part of the range, and each column of the confusion matrix grows
     * by exactly the counted rows of that true label.
     */
    method BuildRandomTreeOob(rows: array<nat>, oob: array<nat>, lo: nat, hi: nat, confusion: array2<nat>,
                              data: seq<seq<real>>, output: seq<nat>, t: DecisionTree, n: nat, height: nat,
                              score: Score, logRows: real)
      returns (ghost counted: seq<nat>, ghost trace: SplitTrace, ghost countedLeft: seq<nat>,
               ghost countedRight: seq<nat>)
      requires rows.Length > 0 && Labelled(output, rows[..]) && Shaped(data, output)
      requires lo <= hi <= oob.Length && Labelled(output, oob[lo..hi]) && IsConfusion(confusion) && rows != oob
      requires 0.0 <= columnSubsetSize <= 1.0
      requires t.Valid() && n < |t.nodes| && Grown(t.nodes, |data|)
      modifies rows, oob, confusion, t
      ensures t.Valid() && Grown(t.nodes, |data|) && |t.nodes| >= |old(t.nodes)|
      ensures forall i :: 0 <= i < n ==> t.nodes[i] == old(t.nodes[i])
      ensures old(t.nodes[n]).IsLeaf() ==>
                forall i :: 0 <= i < |old(t.nodes)| && i != n ==> t.nodes[i] == old(t.nodes[i])
      ensures multiset(rows[..]) == multiset(old(rows[..]))
      ensures PermutedRange(oob[..], old(oob[..]), lo, hi) && Labelled(output, oob[lo..hi])
      ensures Labelled(output, counted) && multiset(counted) <= multiset(old(oob[lo..hi]))
      ensures forall c :: 0 <= c < 2 ==>
                ColumnTotal(confusion, c) == old(ColumnTotal(confusion, c)) + Count(output, counted, c)
      ensures forall a, c :: 0 <= a < 2 && 0 <= c < 2 ==> old(confusion[a, c]) <= confusion[a, c]
      ensures SameLabel(output, old(rows[..])) ==>
                && t.nodes == old(t.nodes)[n := old(t.nodes[n]).(splitValue := Finite(output[old(rows[0])] as real))]
                && counted == old(oob[lo..hi])
                && forall a, c :: 0 <= a < 2 && 0 <= c < 2 ==>
                     confusion[a, c] == old(confusion[a, c]) +
                                        (if a == output[old(rows[0])] then Count(output, counted, c) else 0)
      ensures !SameLabel(output, old(rows[..])) && (height >= maxTreeDepth || (rows.Length as real) < logRows) ==>
                && t.nodes == old(t.nodes)[n := old(t.nodes[n]).(splitValue := Finite(Majority(output, old(rows[..])) as real))]
                && counted == old(oob[lo..hi])
                && forall a, c :: 0 <= a < 2 && 0 <= c < 2 ==>
                     confusion[a, c] == old(confusion[a, c]) +
                                        (if a == Majority(output, old(rows[..])) then Count(output, counted, c) else 0)
      ensures !SameLabel(output, old(rows[..])) && height < maxTreeDepth && !((rows.Length as real) < logRows) ==>
                && SplitAt(t.nodes, n, score, output, data, old(rows[..]), SubsetSize(columnSubsetSize, |data|), trace)
                && (old(t.nodes[n]).IsLeaf() ==>
                      SidesBuilt(t.nodes, n, output, trace.left, trace.right,
                                 height + 1 >= maxTreeDepth || (|trace.left| as real) < logRows,
                                 height + 1 >= maxTreeDepth || (|trace.right| as real) < logRows))
                && counted == countedLeft + countedRight
                && Routed(output, t.nodes[n].splitValue, trace.left, trace.right, countedLeft, countedRight)
      decreases maxTreeDepth - height, 4
    {
      trace, countedLeft, countedRight := SplitTrace([], [], [], 0, [], []), [], [];
      var pure := IsPureColumn(rows[..], output);
      if pure {
        LeafWithOob(t, n, output[rows[0]], oob, lo, hi, confusion, output, |data|);
        counted := oob[lo..hi];
        return;
      }
      if height >= maxTreeDepth || (rows.Length as real) < logRows {
        var classLabel := MajorityVote(rows[..], output);
        LeafWithOob(t, n, classLabel, oob, lo, hi, confusion, output, |data|);
        counted := oob[lo..hi];
        return;
      }
      assert rows.Length > 1 by {
        if rows.Length == 1 {
          assert SameLabel(output, rows[..]);
        }
      }
      counted, trace, countedLeft, countedRight :=
        SplitNodeOob(rows, oob, lo, hi, confusion, data, output, t, n, height, score, logRows);
    }

    /**
     * The split branch of the OOB builder: choose and record the split,
     * partition the OOB range by `output[a] < threshold`, allocate both
     * children, and recurse one level deeper on each non-empty in-bag side
     * with its part of the OOB range (left: before the middle, right: from
     * the middle on). A side with no in-bag rows is skipped together with its
     * OOB rows, which are then never counted; with no sampled column nothing
     * is counted. The ghost results split `counted` into the rows counted
     * below each child.
     */
    method SplitNodeOob(rows: array<nat>, oob: array<nat>, lo: nat, hi: nat, confusion: array2<nat>,
                        data: seq<seq<real>>, output: seq<nat>, t: DecisionTree, n: nat, height: nat,
                        score: Score, logRows: real)
      returns (ghost counted: seq<nat>, ghost trace: SplitTrace, ghost countedLeft: seq<nat>,
               ghost countedRight: seq<nat>)
      requires rows.Length > 1 && Labelled(output, rows[..]) && Shaped(data, output)
      requires lo <= hi <= oob.Length && Labelled(output, oob[lo..hi]) && IsConfusion(confusion) && rows != oob
      requires 0.0 <= columnSubsetSize <= 1.0 && height < maxTreeDepth
      requires t.Valid() && n < |t.nodes| && Grown(t.nodes, |data|)
      modifies rows, oob, confusion, t
      ensures t.Valid() && Grown(t.nodes, |data|) && |t.nodes| >= |old(t.nodes)|
      ensures forall i :: 0 <= i < n ==> t.nodes[i] == old(t.nodes[i])
      ensures old(t.nodes[n]).IsLeaf() ==>
                forall i :: 0 <= i < |old(t.nodes)| && i != n ==> t.nodes[i] == old(t.nodes[i])
      ensures multiset(rows[..]) == multiset(old(rows[..]))
      ensures PermutedRange(oob[..], old(oob[..]), lo, hi) && Labelled(output, oob[lo..hi])
      ensures Labelled(output, counted) && multiset(counted) <= multiset(old(oob[lo..hi]))
      ensures forall c :: 0 <= c < 2 ==>
                ColumnTotal(confusion, c) == old(ColumnTotal(confusion, c)) + Count(output, counted, c)
      ensures forall a, c :: 0 <= a < 2 && 0 <= c < 2 ==> old(confusion[a, c]) <= confusion[a, c]
      ensures SplitAt(t.nodes, n, score, output, data, old(rows[..]), SubsetSize(columnSubsetSize, |data|), trace)
      ensures old(t.nodes[n]).IsLeaf() ==>
                SidesBuilt(t.nodes, n, output, trace.left, trace.right,
                           height + 1 >= maxTreeDepth || (|trace.left| as real) < logRows,
                           height + 1 >= maxTreeDepth || (|trace.right| as real) < logRows)
      ensures counted == countedLeft + countedRight
      ensures Routed(output, t.nodes[n].splitValue, trace.left, trace.right, countedLeft, countedRight)
      ensures SubsetSize(columnSubsetSize, |data|) == 0 ==> counted == []
      decreases maxTreeDepth - height, 3
    {
      var threshold, left, right, leftChild, rightChild;
      threshold, left, right, leftChild, rightChild, trace :=
        RandomForest.ChooseAndInstall(t, n, columnSubsetSize, rows, data, output, score);
      ghost var installed := t.nodes;
      counted, countedLeft, countedRight :=
        PartitionAndGrowOob(left, right, threshold, oob, lo, hi, confusion, data, output, t, n, leftChild,
                            rightChild, height, score, logRows);
      SplitAtKept(installed, t.nodes, n, score, output, data, old(rows[..]), SubsetSize(columnSubsetSize, |data|),
                  trace);
    }

    /**
     * The OOB side of a split below the installed node n: partition the OOB
     * range by `output[a] < threshold` and recurse on both sides (see
     * `GrowSidesOob`). The rows counted on each side come from the original
     * range and go that side's way.
     */
    method PartitionAndGrowOob(left: seq<nat>, right: seq<nat>, threshold: Double, oob: array<nat>, lo: nat,
                               hi: nat, confusion: array2<nat>, data: seq<seq<real>>, output: seq<nat>,
                               t: DecisionTree, n: nat, leftChild: nat, rightChild: nat, height: nat, score: Score,
                               logRows: real)
      returns (ghost counted: seq<nat>, ghost countedLeft: seq<nat>, ghost countedRight: seq<nat>)
      requires Labelled(output, left) && Labelled(output, right) && Shaped(data, output)
      requires lo <= hi <= oob.Length && Labelled(output, oob[lo..hi]) && IsConfusion(confusion)
      requires 0.0 <= columnSubsetSize <= 1.0 && height < maxTreeDepth
      requires t.Valid() && Grown(t.nodes, |data|) && n < leftChild < |t.nodes| && n < rightChild < |t.nodes|
      requires t.nodes[n].left == leftChild && t.nodes[n].right == rightChild
      modifies oob, confusion, t
      ensures t.Valid() && Grown(t.nodes, |data|) && |t.nodes| >= |old(t.nodes)|
      ensures forall i :: 0 <= i < leftChild && i < rightChild ==> t.nodes[i] == old(t.nodes[i])
      ensures leftChild < rightChild && old(t.nodes[leftChild]) == Fresh && old(t.nodes[rightChild]) == Fresh ==>
                SidesBuilt(t.nodes, n, output, left, right,
                           height + 1 >= maxTreeDepth || (|left| as real) < logRows,
                           height + 1 >= maxTreeDepth || (|right| as real) < logRows)
      ensures PermutedRange(oob[..], old(oob[..]), lo, hi) && Labelled(output, oob[lo..hi])
      ensures counted == countedLeft + countedRight
      ensures Labelled(output, counted) && multiset(counted) <= multiset(old(oob[lo..hi]))
      ensures Routed(output, threshold, left, right, countedLeft, countedRight)
      ensures forall c :: 0 <= c < 2 ==>
                ColumnTotal(confusion, c) == old(ColumnTotal(confusion, c)) + Count(output, counted, c)
      ensures forall a, c :: 0 <= a < 2 && 0 <= c < 2 ==> old(confusion[a, c]) <= confusion[a, c]
      decreases maxTreeDepth - height, 2
    {
      var middle := PartitionOob(oob, lo, hi, output, threshold);
      ghost var partitioned := oob[..];
      LabelledRange(output, partitioned, old(oob[..]), lo, hi);
      SliceSplit(partitioned, lo, middle, hi);
      LabelledSides(output, partitioned[lo..middle], partitioned[middle..hi]);
      counted, countedLeft, countedRight :=
        GrowSidesOob(left, right, oob, lo, middle, hi, confusion, data, output, t, n, leftChild, rightChild,
                     height, score, logRows);
      RoutedByPartition(output, threshold, partitioned, lo, middle, hi, left, right, countedLeft, countedRight);
      PermutedTwice(output, old(oob[..]), partitioned, oob[..], lo, hi);
    }

    /**
     * The recursion of the OOB split branch below the installed node n: the
     * left child grows from the left side with the OOB rows before the
     * middle, then (`insert_right_child` returning the child already there)
     * the right child from the right side with the rest. An empty side is
     * skipped, its child left as it was and its OOB rows uncounted. Nothing
     * below both children changes. The rows counted on each side come from
     * that side's part of the OOB range.
     */
    method GrowSidesOob(left: seq<nat>, right: seq<nat>, oob: array<nat>, lo: nat, middle: nat, hi: nat,
                        confusion: array2<nat>, data: seq<seq<real>>, output: seq<nat>, t: DecisionTree,
                        n: nat, leftChild: nat, rightChild: nat, height: nat, score: Score, logRows: real)
      returns (ghost counted: seq<nat>, ghost countedLeft: seq<nat>, ghost countedRight: seq<nat>)
      requires Labelled(output, left) && Labelled(output, right) && Shaped(data, output)
      requires lo <= middle <= hi <= oob.Length && IsConfusion(confusion)
      requires Labelled(output, oob[lo..middle]) && Labelled(output, oob[middle..hi])
      requires 0.0 <= columnSubsetSize <= 1.0 && height < maxTreeDepth
      requires t.Valid() && Grown(t.nodes, |data|) && n < leftChild < |t.nodes| && n < rightChild < |t.nodes|
      requires t.nodes[n].left == leftChild && t.nodes[n].right == rightChild
      modifies oob, confusion, t
      ensures t.Valid() && Grown(t.nodes, |data|) && |t.nodes| >= |old(t.nodes)|
      ensures forall i :: 0 <= i < leftChild && i < rightChild ==> t.nodes[i] == old(t.nodes[i])
      ensures leftChild < rightChild && old(t.nodes[leftChild]) == Fresh && old(t.nodes[rightChild]) == Fresh ==>
                SidesBuilt(t.nodes, n, output, left, right,
                           height + 1 >= maxTreeDepth || (|left| as real) < logRows,
                           height + 1 >= maxTreeDepth || (|right| as real) < logRows)
      ensures PermutedRange(oob[..], old(oob[..]), lo, hi)
      ensures counted == countedLeft + countedRight
      ensures Labelled(output, counted) && multiset(counted) <= multiset(old(oob[lo..hi]))
      ensures multiset(countedLeft) <= multiset(old(oob[lo..middle]))
      ensures multiset(countedRight) <= multiset(old(oob[middle..hi]))
      ensures left == [] ==> countedLeft == []
      ensures right == [] ==> countedRight == []
      ensures forall c :: 0 <= c < 2 ==>
                ColumnTotal(confusion, c) == old(ColumnTotal(confusion, c)) + Count(output, counted, c)
      ensures forall a, c :: 0 <= a < 2 && 0 <= c < 2 ==> old(confusion[a, c]) <= confusion[a, c]
      decreases maxTreeDepth - height, 1
    {
      countedLeft, countedRight := [], [];
      ghost var partitioned := oob[..];
      countedLeft := GrowChildOob(left, oob, lo, middle, confusion, data, output, t, leftChild, height + 1,
                                  score, logRows);
      ghost var afterLeft := oob[..];
      ghost var nodesAfterLeft := t.nodes;
      UnchangedSuffix(partitioned, afterLeft, lo, middle, hi);
      if |right| > 0 {
        var again := t.InsertRightChild(n);
      }
      countedRight := GrowChildOob(right, oob, middle, hi, confusion, data, output, t, rightChild, height + 1,
                                   score, logRows);
      counted := countedLeft + countedRight;
      OobBookkeeping(output, partitioned, afterLeft, oob[..], lo, middle, hi, countedLeft, countedRight);
      if leftChild < rightChild && old(t.nodes[leftChild]) == Fresh && old(t.nodes[rightChild]) == Fresh {
        ChildBuiltKept(nodesAfterLeft, t.nodes, leftChild, output, left,
                       height + 1 >= maxTreeDepth || (|left| as real) < logRows);
      }
    }

    /**
     * One guarded recursive call of the OOB split branch: nothing for an empty
     * in-bag side, otherwise build the child's subtree from a copy of the side.
     */
    method GrowChildOob(side: seq<nat>, oob: array<nat>, lo: nat, hi: nat, confusion: array2<nat>,
                        data: seq<seq<real>>, output: seq<nat>, t: DecisionTree, child: nat, height: nat,
                        score: Score, logRows: real)
      returns (ghost counted: seq<nat>)
      requires Labelled(output, side) && Shaped(data, output)
      requires lo <= hi <= oob.Length && Labelled(output, oob[lo..hi]) && IsConfusion(confusion)
      requires 0.0 <= columnSubsetSize <= 1.0 && 0 < height <= maxTreeDepth
      requires t.Valid() && child < |t.nodes| && Grown(t.nodes, |data|)
      modifies oob, confusion, t
      ensures t.Valid() && Grown(t.nodes, |data|) && |t.nodes| >= |old(t.nodes)|
      ensures forall i :: 0 <= i < child ==> t.nodes[i] == old(t.nodes[i])
      ensures side == [] ==> t.nodes == old(t.nodes) && counted == []
      ensures old(t.nodes[child]).IsLeaf() ==>
                forall i :: 0 <= i < |old(t.nodes)| && i != child ==> t.nodes[i] == old(t.nodes[i])
      ensures old(t.nodes[child]) == Fresh ==>
                ChildBuilt(t.nodes, child, output, side, height >= maxTreeDepth || (|side| as real) < logRows)
      ensures PermutedRange(oob[..], old(oob[..]), lo, hi) && Labelled(output, oob[lo..hi])
      ensures Labelled(output, counted) && multiset(counted) <= multiset(old(oob[lo..hi]))
      ensures forall c :: 0 <= c < 2 ==>
                ColumnTotal(confusion, c) == old(ColumnTotal(confusion, c)) + Count(output, counted, c)
      ensures forall a, c :: 0 <= a < 2 && 0 <= c < 2 ==> old(confusion[a, c]) <= confusion[a, c]
      decreases maxTreeDepth - height + 1, 0
    {
      if |side| == 0 {
        counted := [];
        return;
      }
      var rows := new nat[|side|](i requires 0 <= i < |side| => side[i]);
      assert rows[..] == side;
      ghost var trace, countedLeft, countedRight;
      counted, trace, countedLeft, countedRight :=
        BuildRandomTreeOob(rows, oob, lo, hi, confusion, data, output, t, child, height, score, logRows);
    }

    /**
     * `fit`: for each of `numberOfTrees` trees, append a tree with a root,
     * shuffle the row positions, put the first ⌈fraction · m⌉ in the bag and
     * the rest out of it, and build the tree while counting OOB rows into one
     * confusion matrix shared by all trees. Every new tree is grown from its
     * root; the rows each tree counts are drawn from the positions its
     * shuffle left out of the bag; and each column of the matrix ends as the
     * number of counted OOB rows of that true label, summed over the trees.
     */
    method Fit(dataset: MatrixView, output: seq<nat>, rowFraction: real, score: Score, logRows: real)
      returns (confusion: array2<nat>, ghost counted: seq<seq<nat>>, ghost shuffles: seq<seq<nat>>)
      requires dataset.Valid() && |output| == dataset.height > 0 && Binary(output)
      requires 0.0 < rowFraction <= 1.0 && 0.0 <= columnSubsetSize <= 1.0
      modifies this
      ensures fresh(confusion) && IsConfusion(confusion)
      ensures |trees| == |old(trees)| + old(numberOfTrees) && trees[..|old(trees)|] == old(trees)
      ensures numberOfTrees == old(numberOfTrees) && columnSubsetSize == old(columnSubsetSize)
      ensures maxTreeDepth == old(maxTreeDepth)
      ensures forall i :: |old(trees)| <= i < |trees| ==>
                trees[i].Valid() && |trees[i].nodes| > 0 && Grown(trees[i].nodes, dataset.width)
      ensures |counted| == numberOfTrees == |shuffles|
      ensures DrawnOutOfBag(output, counted, shuffles, InBagSize(rowFraction, |output|))
      ensures forall c :: 0 <= c < 2 ==> ColumnTotal(confusion, c) == CountedTotal(output, counted, c)
    {
      var m := dataset.height;
      var data := dataset.Columns();
      assert Shaped(data, output);
      confusion := new nat[2, 2]((a, c) => 0);
      counted, shuffles := [], [];
      var i := 0;
      while i != numberOfTrees
        invariant i <= numberOfTrees && |counted| == i == |shuffles|
        invariant |trees| == |old(trees)| + i && trees[..|old(trees)|] == old(trees)
        invariant numberOfTrees == old(numberOfTrees) && columnSubsetSize == old(columnSubsetSize)
        invariant maxTreeDepth == old(maxTreeDepth)
        invariant fresh(confusion) && IsConfusion(confusion)
        invariant forall k :: |old(trees)| <= k < |trees| ==>
                    trees[k].Valid() && |trees[k].nodes| > 0 && Grown(trees[k].nodes, |data|)
        invariant DrawnOutOfBag(output, counted, shuffles, InBagSize(rowFraction, m))
        invariant forall c :: 0 <= c < 2 ==> ColumnTotal(confusion, c) == CountedTotal(output, counted, c)
      {
        ghost var treeCount, shuffled := TreeOob(data, output, rowFraction, confusion, score, logRows);
        assert (counted + [treeCount])[..i] == counted;
        DrawnOutOfBagSnoc(output, counted, shuffles, InBagSize(rowFraction, m), treeCount, shuffled);
        counted, shuffles := counted + [treeCount], shuffles + [shuffled];
        i := i + 1;
      }
    }

    /**
     * The body of the tree loop of `fit`: the appended tree is grown from its
     * root, and the rows it counts are drawn from the positions of the shuffle
     * after the first ⌈fraction · m⌉, the ones left out of the bag.
     */
    method TreeOob(data: seq<seq<real>>, output: seq<nat>, rowFraction: real, confusion: array2<nat>,
                   score: Score, logRows: real)
      returns (ghost counted: seq<nat>, ghost shuffled: seq<nat>)
      requires |output| > 0 && Binary(output) && Shaped(data, output) && IsConfusion(confusion)
      requires 0.0 < rowFraction <= 1.0 && 0 < InBagSize(rowFraction, |output|) && 0.0 <= columnSubsetSize <= 1.0
      modifies this, confusion
      ensures |trees| == |old(trees)| + 1 && trees[..|old(trees)|] == old(trees)
      ensures numberOfTrees == old(numberOfTrees) && columnSubsetSize == old(columnSubsetSize)
      ensures maxTreeDepth == old(maxTreeDepth)
      ensures trees[|trees| - 1].Valid() && |trees[|trees| - 1].nodes| > 0 && Grown(trees[|trees| - 1].nodes, |data|)
      ensures IsShuffle(shuffled, |output|)
      ensures Labelled(output, counted) && multiset(counted) <= multiset(shuffled[InBagSize(rowFraction, |output|)..])
      ensures |counted| <= |output| - InBagSize(rowFraction, |output|)
      ensures forall c :: 0 <= c < 2 ==>
                ColumnTotal(confusion, c) == old(ColumnTotal(confusion, c)) + Count(output, counted, c)
    {
      var m := |output|;
      var t := new DecisionTree(|data|);
      trees := trees + [t];
      var root := t.InsertRoot();
      var s := InBagSize(rowFraction, m);
      var order := RandomForest.RandomSubsetFromRange(0, m);
      shuffled := order;
      var inBag, outOfBag := SplitBag(order, s, output);
      counted := GrowFromBag(inBag, outOfBag, confusion, data, output, t, root, score, logRows);
      SubMultisetLength(counted, shuffled[s..]);
    }

    /** Build the tree from its root on the in-bag rows, counting rows drawn from the OOB ones. */
    method GrowFromBag(inBag: array<nat>, outOfBag: array<nat>, confusion: array2<nat>, data: seq<seq<real>>,
                       output: seq<nat>, t: DecisionTree, root: nat, score: Score, logRows: real)
      returns (ghost counted: seq<nat>)
      requires inBag.Length > 0 && inBag != outOfBag && Labelled(output, inBag[..]) && Labelled(output, outOfBag[..])
      requires Shaped(data, output) && IsConfusion(confusion) && 0.0 <= columnSubsetSize <= 1.0
      requires t.Valid() && root < |t.nodes| && Grown(t.nodes, |data|)
      modifies inBag, outOfBag, confusion, t
      ensures t.Valid() && Grown(t.nodes, |data|) && |t.nodes| >= |old(t.nodes)|
      ensures Labelled(output, counted) && multiset(counted) <= multiset(old(outOfBag[..]))
      ensures forall c :: 0 <= c < 2 ==>
                ColumnTotal(confusion, c) == old(ColumnTotal(confusion, c)) + Count(output, counted, c)
    {
      ghost var outside := outOfBag[..];
      assert outOfBag[0..outOfBag.Length] == outside;
      ghost var trace, countedLeft, countedRight;
      counted, trace, countedLeft, countedRight :=
        BuildRandomTreeOob(inBag, outOfBag, 0, outOfBag.Length, confusion, data, output, t, root, 0, score, logRows);
    }
  }

  /**
   * Tree by tree, the OOB rows counted are labelled and drawn from the
   * positions its shuffle of all rows left out of the first s.
   */
  ghost predicate DrawnOutOfBag(output: seq<nat>, counted: seq<seq<nat>>, shuffles: seq<seq<nat>>, s: nat)
  {
    && |counted| == |shuffles|
    && forall k :: 0 <= k < |counted| ==>
         && Labelled(output, counted[k]) && IsShuffle(shuffles[k], |output|) && s <= |shuffles[k]|
         && multiset(counted[k]) <= multiset(shuffles[k][s..])
  }

  /** One more tree keeps the per-tree provenance. */
  lemma DrawnOutOfBagSnoc(output: seq<nat>, counted: seq<seq<nat>>, shuffles: seq<seq<nat>>, s: nat,
                          rows: seq<nat>, shuffled: seq<nat>)
    requires DrawnOutOfBag(output, counted, shuffles, s)
    requires Labelled(output, rows) && IsShuffle(shuffled, |output|) && s <= |shuffled|
    requires multiset(rows) <= multiset(shuffled[s..])
    ensures DrawnOutOfBag(output, counted + [rows], shuffles + [shuffled], s)
  {
    assert (counted + [rows])[|counted|] == rows;
    assert (shuffles + [shuffled])[|shuffles|] == shuffled;
  }

  /**
   * The in-bag and OOB ranges of `fit` as two fresh arrays: the first s
   * shuffled positions and the rest.
   */
  method SplitBag(shuffled: seq<nat>, s: nat, output: seq<nat>) returns (inBag: array<nat>, outOfBag: array<nat>)
    requires IsShuffle(shuffled, |output|) && Binary(output) && 0 < s <= |output|
    ensures fresh(inBag) && fresh(outOfBag) && inBag != outOfBag
    ensures inBag[..] == shuffled[..s] && outOfBag[..] == shuffled[s..]
    ensures inBag.Length > 0 && Labelled(output, inBag[..]) && Labelled(output, outOfBag[..])
  {
    inBag := new nat[s](k requires 0 <= k < s => shuffled[k]);
    outOfBag := new nat[|shuffled| - s](k requires 0 <= k < |shuffled| - s => shuffled[s + k]);
    assert inBag[..] == shuffled[..s];
    assert outOfBag[..] == shuffled[s..];
  }

  /**
   * The OOB bookkeeping of a split: the two recursions permute their parts of
   * the partitioned range, so the whole range is a permutation of the
   * original, and the rows counted on the two sides together are drawn from
   * it.
   */
  lemma OobBookkeeping(output: seq<nat>, partitioned: seq<nat>, afterLeft: seq<nat>,
                       final: seq<nat>, lo: nat, middle: nat, hi: nat,
                       countedLeft: seq<nat>, countedRight: seq<nat>)
    requires lo <= middle <= hi <= |partitioned| == |afterLeft| == |final|
    requires PermutedRange(afterLeft, partitioned, lo, middle) && PermutedRange(final, afterLeft, middle, hi)
    requires Labelled(output, countedLeft) && multiset(countedLeft) <= multiset(partitioned[lo..middle])
    requires Labelled(output, countedRight) && multiset(countedRight) <= multiset(partitioned[middle..hi])
    ensures PermutedRange(final, partitioned, lo, hi)
    ensures Labelled(output, countedLeft + countedRight)
    ensures multiset(countedLeft + countedRight) <= multiset(partitioned[lo..hi])
    ensures forall c :: Count(output, countedLeft + countedRight, c) == Count(output, countedLeft, c) + Count(output, countedRight, c)
  {
    SliceSplit(partitioned, lo, middle, hi);
    SliceSplit(afterLeft, lo, middle, hi);
    SliceSplit(final, lo, middle, hi);
    assert afterLeft[middle..hi] == partitioned[middle..hi] by {
      assert afterLeft[middle..] == partitioned[middle..];
      assert afterLeft[middle..hi] == afterLeft[middle..][..hi - middle];
      assert partitioned[middle..hi] == partitioned[middle..][..hi - middle];
    }
    assert final[lo..middle] == afterLeft[lo..middle] by {
      assert final[..middle] == afterLeft[..middle];
      assert final[lo..middle] == final[..middle][lo..];
      assert afterLeft[lo..middle] == afterLeft[..middle][lo..];
    }
    assert final[..lo] == partitioned[..lo] by {
      assert final[..lo] == final[..middle][..lo];
      assert afterLeft[..lo] == afterLeft[..middle][..lo];
    }
    assert final[hi..] == partitioned[hi..] by {
      assert afterLeft[hi..] == afterLeft[middle..][hi - middle..];
      assert final[hi..] == final[middle..][hi - middle..];
    }
    forall c {
      CountAppend(output, countedLeft, countedRight, c);
    }
  }

  /** Two permutations of a range in a row are one, and keep the range labelled. */
  lemma PermutedTwice(output: seq<nat>, original: seq<nat>, middle: seq<nat>, final: seq<nat>, lo: nat, hi: nat)
    requires lo <= hi <= |original| == |middle| == |final|
    requires PermutedRange(middle, original, lo, hi) && PermutedRange(final, middle, lo, hi)
    requires Labelled(output, original[lo..hi])
    ensures PermutedRange(final, original, lo, hi) && Labelled(output, final[lo..hi])
  {
    LabelledRange(output, final, original, lo, hi);
  }
}
