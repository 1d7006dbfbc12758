/**
 * The split evaluator shared by ayasdi/random_forest.hpp and
 * include/random_forest/train_rf.hpp: purity test, majority vote, the in-place
 * sort of row indices by one column, the sweep that moves labels from the
 * upper histogram to the lower one, and the loop over the sampled columns.
 *
 * Labels index a two-slot histogram (`std::array<std::size_t, 2>`), so every
 * label is 0 or 1. The balanced entropy is a parameter: an arbitrary
 * real-valued function of (lower counts, upper counts, lower size, upper size,
 * number of rows).
 */
module SplitSearch {
  import opened TreeStore

  /** `balanced_entropy(lower_counts, upper_counts, lower_index, upper_index, number_of_rows)`. */
  type Score = (seq<nat>, seq<nat>, nat, nat, nat) -> real

  /** The `std::pair<std::size_t, double>` a sweep returns: the split position and its entropy. */
  datatype Split = Split(position: nat, entropy: real)

  /** Every row index is a position of `m` rows. */
  ghost predicate Within(rows: seq<nat>, m: nat)
  {
    forall i :: 0 <= i < |rows| ==> rows[i] < m
  }

  /** Every row index is a position of `output` and its label is 0 or 1. */
  ghost predicate Labelled(output: seq<nat>, rows: seq<nat>)
  {
    forall i :: 0 <= i < |rows| ==> rows[i] < |output| && output[rows[i]] < 2
  }

  /** The number of rows labelled `c`. */
  ghost function Count(output: seq<nat>, rows: seq<nat>, c: nat): (r: nat)
    requires Within(rows, |output|)
    ensures r <= |rows|
  {
    if rows == [] then 0
    else Count(output, rows[..|rows| - 1], c) + (if output[rows[|rows| - 1]] == c then 1 else 0)
  }

  /** The two-slot label histogram of a row range. */
  ghost function Hist(output: seq<nat>, rows: seq<nat>): (h: seq<nat>)
    requires Within(rows, |output|)
    ensures |h| == 2
  {
    [Count(output, rows, 0), Count(output, rows, 1)]
  }

  lemma {:induction false} CountAppend(output: seq<nat>, a: seq<nat>, b: seq<nat>, c: nat)
    requires Within(a, |output|) && Within(b, |output|)
    ensures Within(a + b, |output|)
    ensures Count(output, a + b, c) == Count(output, a, c) + Count(output, b, c)
    decreases |b|
  {
    if b != [] {
      assert (a + b)[..|a + b| - 1] == a + b[..|b| - 1];
      CountAppend(output, a, b[..|b| - 1], c);
    } else {
      assert a + b == a;
    }
  }

  /** With binary labels the two histogram slots add up to the size of the range. */
  lemma {:induction false} HistTotal(output: seq<nat>, rows: seq<nat>)
    requires Labelled(output, rows)
    ensures Within(rows, |output|)
    ensures Count(output, rows, 0) + Count(output, rows, 1) == |rows|
    decreases |rows|
  {
    if rows != [] {
      HistTotal(output, rows[..|rows| - 1]);
    }
  }

  /** Membership in a multiset-equal sequence keeps rows labelled. */
  lemma LabelledPermutation(output: seq<nat>, a: seq<nat>, b: seq<nat>)
    requires Labelled(output, a) && multiset(a) == multiset(b)
    ensures Labelled(output, b)
  {
    forall i | 0 <= i < |b| ensures b[i] < |output| && output[b[i]] < 2 {
      assert b[i] in multiset(a);
      var k :| 0 <= k < |a| && a[k] == b[i];
    }
  }

  /** All rows of a non-empty range carry the label of the first one. */
  ghost predicate SameLabel(output: seq<nat>, rows: seq<nat>)
    requires |rows| > 0 && Within(rows, |output|)
  {
    forall i :: 0 <= i < |rows| ==> output[rows[i]] == output[rows[0]]
  }

  /**
   * `is_pure_column`: read the first row's label and compare every later row
   * with it, stopping at the first difference. The range must be non-empty
   * (the source dereferences `*begin`).
   */
  method IsPureColumn(rows: seq<nat>, output: seq<nat>) returns (pure: bool)
    requires |rows| > 0 && Within(rows, |output|)
    ensures pure <==> SameLabel(output, rows)
  {
    var r := output[rows[0]];
    var i := 1;
    while i != |rows|
      invariant 1 <= i <= |rows|
      invariant forall j :: 0 <= j < i ==> output[rows[j]] == r
    {
      if r != output[rows[i]] {
        return false;
      }
      i := i + 1;
    }
    return true;
  }

  /**
   * `std::distance(begin, std::max_element(begin, end))`: the position of the
   * first largest count.
   */
  function FirstMax(votes: seq<nat>): (r: nat)
    requires |votes| > 0
    ensures r < |votes|
    ensures forall j :: 0 <= j < |votes| ==> votes[j] <= votes[r]
    ensures forall j :: 0 <= j < r ==> votes[j] < votes[r]
  {
    if |votes| == 1 then 0
    else
      var m := FirstMax(votes[..|votes| - 1]);
      if votes[|votes| - 1] > votes[m] then |votes| - 1 else m
  }

  /** The label `get_majority_vote` returns for a range: the first most frequent label. */
  ghost function Majority(output: seq<nat>, rows: seq<nat>): (majority: nat)
    requires Labelled(output, rows)
    ensures majority < 2
    ensures Count(output, rows, majority) >= Count(output, rows, 1 - majority)
    ensures Count(output, rows, 0) == Count(output, rows, 1) ==> majority == 0
  {
    FirstMax(Hist(output, rows))
  }

  /** One step of a tally: the histogram of a range extended by one row. */
  lemma HistSnoc(output: seq<nat>, rows: seq<nat>, i: nat)
    requires Labelled(output, rows) && i < |rows|
    ensures Within(rows[..i + 1], |output|) && Within(rows[..i], |output|)
    ensures Hist(output, rows[..i + 1]) ==
            Hist(output, rows[..i])[output[rows[i]] := Hist(output, rows[..i])[output[rows[i]]] + 1]
  {
    assert rows[..i + 1][..i] == rows[..i];
  }

  /**
   * `get_majority_vote` (one range): zero the two-slot tally, count every
   * row's majority, return the first maximum.
   */
  method MajorityVote(rows: seq<nat>, output: seq<nat>) returns (majority: nat)
    requires Labelled(output, rows)
    ensures majority == Majority(output, rows)
  {
    var votes := new nat[2];
    votes[0], votes[1] := 0, 0;
    assert rows[..0] == [];
    AddVotes(votes, rows, 0, |rows|, output);
    assert rows[..|rows|] == rows;
    majority := FirstMax(votes[..]);
  }

  /**
   * `get_majority_vote` (two ranges, train_rf.hpp): the tally runs over the
   * in-bag range and then the out-of-bag range, so the majority is the first
   * maximum over both together.
   */
  method MajorityVoteWithOob(rows: seq<nat>, oob: seq<nat>, output: seq<nat>) returns (majority: nat)
    requires Labelled(output, rows) && Labelled(output, oob)
    ensures Labelled(output, rows + oob)
    ensures majority == Majority(output, rows + oob)
  {
    var all := rows + oob;
    assert Labelled(output, all) by {
      forall i | 0 <= i < |all| ensures all[i] < |output| && output[all[i]] < 2 {
        if i >= |rows| {
          assert all[i] == oob[i - |rows|];
        }
      }
    }
    var votes := new nat[2];
    votes[0], votes[1] := 0, 0;
    assert all[..0] == [];
    AddVotes(votes, all, 0, |rows|, output);
    AddVotes(votes, all, |rows|, |all|, output);
    assert all[..|all|] == all;
    majority := FirstMax(votes[..]);
  }

  /** One tally loop: add the labels of `rows[from..to]` to the two-slot tally of `rows[..from]`. */
  method AddVotes(votes: array<nat>, rows: seq<nat>, from: nat, to: nat, output: seq<nat>)
    requires Labelled(output, rows) && from <= to <= |rows|
    requires votes[..] == Hist(output, rows[..from])
    modifies votes
    ensures votes[..] == Hist(output, rows[..to])
  {
    var i := from;
    while i != to
      invariant from <= i <= to
      invariant votes[..] == Hist(output, rows[..i])
    {
      HistSnoc(output, rows, i);
      ghost var before := votes[..];
      var y := output[rows[i]];
      votes[y] := votes[y] + 1;
      assert votes[..] == before[y := before[y] + 1];
      i := i + 1;
    }
  }

  /** Row indices in non-decreasing order of the column's values. */
  ghost predicate SortedBy(rows: seq<nat>, col: seq<real>)
    requires Within(rows, |col|)
  {
    forall i, j {:trigger col[rows[i]], col[rows[j]]} :: 0 <= i < j < |rows| ==> col[rows[i]] <= col[rows[j]]
  }

  /** The first `i` rows are in order. */
  ghost predicate SortedPrefix(rows: seq<nat>, col: seq<real>, i: nat)
    requires Within(rows, |col|) && i <= |rows|
  {
    forall a, b :: 0 <= a < b < i ==> col[rows[a]] <= col[rows[b]]
  }

  /** Rows 0 .. i are in order, except that the row at `j` may be smaller than rows before it. */
  ghost predicate SortedExceptAt(rows: seq<nat>, col: seq<real>, i: nat, j: nat)
    requires Within(rows, |col|) && j <= i < |rows|
  {
    forall a, b :: 0 <= a < b <= i && b != j ==> col[rows[a]] <= col[rows[b]]
  }

  method SwapRows(rows: array<nat>, j: nat)
    requires 0 < j < rows.Length
    modifies rows
    ensures rows[..] == old(rows[..])[j - 1 := old(rows[j])][j := old(rows[j - 1])]
    ensures multiset(rows[..]) == multiset(old(rows[..]))
  {
    rows[j - 1], rows[j] := rows[j], rows[j - 1];
  }

  /** One pass of insertion: move row i down until the row before it is not larger. */
  method InsertRow(rows: array<nat>, col: seq<real>, i: nat)
    requires 0 < i < rows.Length && Within(rows[..], |col|) && SortedPrefix(rows[..], col, i)
    modifies rows
    ensures multiset(rows[..]) == multiset(old(rows[..]))
    ensures Within(rows[..], |col|) && SortedPrefix(rows[..], col, i + 1)
  {
    var j := i;
    while j > 0 && col[rows[j - 1]] > col[rows[j]]
      invariant j <= i
      invariant multiset(rows[..]) == multiset(old(rows[..]))
      invariant Within(rows[..], |col|)
      invariant SortedExceptAt(rows[..], col, i, j)
    {
      SwapRows(rows, j);
      j := j - 1;
    }
  }

  /**
   * `std::sort(row_idx_begin, row_idx_end, cmp)` with `cmp(a, b) = col[a] < col[b]`:
   * the rows end up a permutation of themselves, ordered by column value. The
   * order among equal values is unspecified in the source; this insertion sort
   * is one admissible outcome and only the two properties are promised.
   */
  method SortByColumn(rows: array<nat>, col: seq<real>)
    requires Within(rows[..], |col|)
    modifies rows
    ensures multiset(rows[..]) == multiset(old(rows[..]))
    ensures Within(rows[..], |col|) && SortedBy(rows[..], col)
  {
    if rows.Length == 0 {
      return;
    }
    var i := 1;
    while i < rows.Length
      invariant 1 <= i <= rows.Length
      invariant multiset(rows[..]) == multiset(old(rows[..]))
      invariant Within(rows[..], |col|) && SortedPrefix(rows[..], col, i)
    {
      InsertRow(rows, col, i);
      i := i + 1;
    }
  }

  /** The labels `lower_counts` holds at sweep position j: those of sorted rows 1 .. j. */
  ghost function LowerAt(output: seq<nat>, sorted: seq<nat>, j: nat): (h: seq<nat>)
    requires Labelled(output, sorted) && 1 <= j < |sorted|
    ensures |h| == 2
  {
    Hist(output, sorted[1..j + 1])
  }

  /** The labels `upper_counts` holds at sweep position j: sorted row 0 and rows j+1 .. n-1. */
  ghost function UpperAt(output: seq<nat>, sorted: seq<nat>, j: nat): (h: seq<nat>)
    requires Labelled(output, sorted) && 1 <= j < |sorted|
    ensures |h| == 2
  {
    Hist(output, sorted[..1] + sorted[j + 1..])
  }

  /** The baseline: position 0, scored while `lower_counts` is still all zero. */
  ghost function Baseline(score: Score, output: seq<nat>, sorted: seq<nat>): real
    requires Labelled(output, sorted) && |sorted| > 1
  {
    score([0, 0], Hist(output, sorted), 1, |sorted| - 1, |sorted|)
  }

  /** The entropy computed at position j, with `lower_index = j + 1`. */
  ghost function ScoreAt(score: Score, output: seq<nat>, sorted: seq<nat>, j: nat): real
    requires Labelled(output, sorted) && 1 <= j < |sorted|
  {
    score(LowerAt(output, sorted, j), UpperAt(output, sorted, j), j + 1, |sorted| - (j + 1), |sorted|)
  }

  /**
   * The "repeated values" guard compares iterators built from row indices, so a
   * position is skipped only when it holds the same row index as the one before.
   */
  predicate Candidate(sorted: seq<nat>, j: nat)
    requires 1 <= j < |sorted|
  {
    sorted[j] != sorted[j - 1]
  }

  /** The entropy at every sweep position: the baseline at 0, `ScoreAt` from 1 on. */
  ghost function Entropies(score: Score, output: seq<nat>, sorted: seq<nat>): (es: seq<real>)
    requires Labelled(output, sorted) && |sorted| > 1
    ensures |es| == |sorted| && es[0] == Baseline(score, output, sorted)
    ensures forall j :: 1 <= j < |sorted| ==> es[j] == ScoreAt(score, output, sorted, j)
  {
    seq(|sorted|, j requires 0 <= j < |sorted| =>
      if j == 0 then Baseline(score, output, sorted) else ScoreAt(score, output, sorted, j))
  }

  /**
   * The sweep from position j on over the entropies `es` of the positions,
   * with `best` the split kept so far.
   */
  ghost function SweepFrom(es: seq<real>, sorted: seq<nat>, j: nat, best: Split): Split
    requires |es| == |sorted| && 1 <= j <= |sorted|
    decreases |sorted| - j
  {
    if j == |sorted| then best
    else if !Candidate(sorted, j) then SweepFrom(es, sorted, j + 1, best)
    else if es[j] < best.entropy then
      if es[j] == 0.0 then Split(j, es[j]) else SweepFrom(es, sorted, j + 1, Split(j, es[j]))
    else SweepFrom(es, sorted, j + 1, best)
  }

  /** The (position, entropy) result `find_best_column_split` returns for an already sorted range. */
  ghost function Sweep(score: Score, output: seq<nat>, sorted: seq<nat>): Split
    requires Labelled(output, sorted) && |sorted| > 1
  {
    var es := Entropies(score, output, sorted);
    SweepFrom(es, sorted, 1, Split(0, es[0]))
  }

  /**
   * `best` is the split the sweep keeps after every position below `upTo`: the
   * baseline or a candidate position strictly better than the baseline, strictly
   * better than every earlier candidate and no worse than every later one.
   */
  ghost predicate BestUpTo(es: seq<real>, sorted: seq<nat>, best: Split, upTo: nat)
    requires |es| == |sorted| > 1
  {
    var position := best.position;
    var entropy := best.entropy;
    && position < |sorted|
    && (position == 0 ==> entropy == es[0])
    && (position > 0 ==> Candidate(sorted, position) && entropy == es[position] && entropy < es[0])
    && (forall j :: 1 <= j < position && Candidate(sorted, j) ==> entropy < es[j])
    && (forall j :: position < j < upTo && j < |sorted| && Candidate(sorted, j) ==> entropy <= es[j])
  }

  /** A position that is skipped or does not improve leaves the kept split valid one position further. */
  lemma KeepBest(es: seq<real>, sorted: seq<nat>, j: nat, best: Split)
    requires |es| == |sorted| > 1 && 1 <= j < |sorted| && best.position < j
    requires BestUpTo(es, sorted, best, j)
    requires Candidate(sorted, j) ==> best.entropy <= es[j]
    ensures BestUpTo(es, sorted, best, j + 1)
  {
  }

  /** A strict improvement at position j becomes the kept split. */
  lemma ImproveBest(es: seq<real>, sorted: seq<nat>, j: nat, best: Split)
    requires |es| == |sorted| > 1 && 1 <= j < |sorted| && best.position < j
    requires BestUpTo(es, sorted, best, j)
    requires Candidate(sorted, j) && es[j] < best.entropy
    ensures BestUpTo(es, sorted, Split(j, es[j]), j + 1)
  {
    forall k | 1 <= k < j && Candidate(sorted, k)
      ensures es[j] < es[k]
    {
      if k < best.position {
      } else if k == best.position {
      } else {
        assert best.entropy <= es[k];
      }
    }
  }

  /**
   * The sweep from position j keeps the invariant: what it returns is the best
   * split up to its own position, and up to the end unless it stopped early on
   * an exact 0.
   */
  lemma {:induction false} SweepFromBest(es: seq<real>, sorted: seq<nat>, j: nat, best: Split)
    requires |es| == |sorted| > 1 && 1 <= j <= |sorted| && best.position < j
    requires BestUpTo(es, sorted, best, j)
    requires best.position > 0 ==> best.entropy != 0.0
    ensures var r := SweepFrom(es, sorted, j, best);
            BestUpTo(es, sorted, r, r.position + 1) &&
            (!(r.position > 0 && r.entropy == 0.0) ==> BestUpTo(es, sorted, r, |sorted|))
    decreases |sorted| - j
  {
    if j < |sorted| {
      if !Candidate(sorted, j) {
        KeepBest(es, sorted, j, best);
        SweepFromBest(es, sorted, j + 1, best);
      } else if es[j] < best.entropy {
        ImproveBest(es, sorted, j, best);
        if es[j] != 0.0 {
          SweepFromBest(es, sorted, j + 1, Split(j, es[j]));
        } else {
          assert SweepFrom(es, sorted, j, best) == Split(j, 0.0);
        }
      } else {
        KeepBest(es, sorted, j, best);
        SweepFromBest(es, sorted, j + 1, best);
      }
    }
  }

  /**
   * What the sweep of `find_best_column_split` promises: the position is 0 (the
   * baseline) or a candidate position whose entropy is strictly below the
   * baseline; the entropy is never above the baseline; every earlier candidate
   * scored strictly worse, so the first strict improvement that reaches exactly
   * 0 ends the sweep; without such an exit no later candidate scores better.
   */
  lemma SweepIsBest(score: Score, output: seq<nat>, sorted: seq<nat>)
    requires Labelled(output, sorted) && |sorted| > 1
    ensures var r := Sweep(score, output, sorted);
            var position, entropy := r.position, r.entropy;
            && position < |sorted|
            && entropy <= Baseline(score, output, sorted)
            && (position == 0 ==> entropy == Baseline(score, output, sorted))
            && (position > 0 ==> Candidate(sorted, position) && entropy == ScoreAt(score, output, sorted, position))
            && (forall j :: 1 <= j < position && Candidate(sorted, j) ==> entropy < ScoreAt(score, output, sorted, j))
            && (!(position > 0 && entropy == 0.0) ==>
                  forall j :: position < j < |sorted| && Candidate(sorted, j) ==> entropy <= ScoreAt(score, output, sorted, j))
  {
    var es := Entropies(score, output, sorted);
    SweepFromBest(es, sorted, 1, Split(0, es[0]));
  }

  /**
   * Count conservation: at every sweep position the two histograms together
   * hold exactly the labels of the whole range.
   */
  lemma CountsConserved(output: seq<nat>, sorted: seq<nat>, j: nat, c: nat)
    requires Labelled(output, sorted) && 1 <= j < |sorted| && c < 2
    ensures LowerAt(output, sorted, j)[c] + UpperAt(output, sorted, j)[c] == Hist(output, sorted)[c]
  {
    var a, b, d := sorted[..1], sorted[1..j + 1], sorted[j + 1..];
    assert sorted == a + b + d;
    CountAppend(output, a, b, c);
    CountAppend(output, a + b, d, c);
    CountAppend(output, a, d, c);
  }

  /**
   * The histograms passed at position j do not describe the sides the sizes
   * name: `lower_counts` holds j labels while `lower_index` is j + 1, and
   * `upper_counts` holds n - j labels while `upper_index` is n - j - 1, because
   * the row at sorted position 0 is never moved to the lower side.
   */
  lemma SweepSideSizes(output: seq<nat>, sorted: seq<nat>, j: nat)
    requires Labelled(output, sorted) && 1 <= j < |sorted|
    ensures LowerAt(output, sorted, j)[0] + LowerAt(output, sorted, j)[1] == j
    ensures UpperAt(output, sorted, j)[0] + UpperAt(output, sorted, j)[1] == |sorted| - j
  {
    var upper := sorted[..1] + sorted[j + 1..];
    assert Labelled(output, upper) by {
      forall i | 0 <= i < |upper| ensures upper[i] < |output| && output[upper[i]] < 2 {
        if i > 0 {
          assert upper[i] == sorted[j + i];
        }
      }
    }
    HistTotal(output, sorted[1..j + 1]);
    HistTotal(output, upper);
  }

  /** Moving the row at position j out of the upper side removes exactly its label. */
  lemma UpperShift(output: seq<nat>, sorted: seq<nat>, j: nat, c: nat)
    requires Labelled(output, sorted) && 1 <= j < |sorted|
    ensures Within(sorted[..1] + sorted[j..], |output|) && Within(sorted[..1] + sorted[j + 1..], |output|)
    ensures Count(output, sorted[..1] + sorted[j..], c) ==
            Count(output, sorted[..1] + sorted[j + 1..], c) + (if output[sorted[j]] == c then 1 else 0)
  {
    var a, x, d := sorted[..1], [sorted[j]], sorted[j + 1..];
    assert sorted[..1] + sorted[j..] == a + x + d;
    CountAppend(output, a, x, c);
    CountAppend(output, a + x, d, c);
    CountAppend(output, a, d, c);
    assert x[..0] == [];
  }

  /**
   * One sweep step: moving the row at position j adds its label to the lower
   * histogram and removes it from the upper one, which held it.
   */
  lemma SweepStep(output: seq<nat>, sorted: seq<nat>, j: nat)
    requires Labelled(output, sorted) && 1 <= j < |sorted|
    ensures Within(sorted[1..j], |output|) && Within(sorted[..1] + sorted[j..], |output|)
    ensures var y := output[sorted[j]];
            var lower := Hist(output, sorted[1..j]);
            var upper := Hist(output, sorted[..1] + sorted[j..]);
            && upper[y] > 0
            && LowerAt(output, sorted, j) == lower[y := lower[y] + 1]
            && UpperAt(output, sorted, j) == upper[y := upper[y] - 1]
  {
    UpperShift(output, sorted, j, 0);
    UpperShift(output, sorted, j, 1);
    assert sorted[1..j + 1][..j - 1] == sorted[1..j];
  }

  /** A fresh two-slot tally of the labels of a range. */
  method Tally(rows: seq<nat>, output: seq<nat>) returns (counts: array<nat>)
    requires Labelled(output, rows)
    ensures fresh(counts) && counts[..] == Hist(output, rows)
  {
    counts := new nat[2];
    counts[0], counts[1] := 0, 0;
    var i := 0;
    while i != |rows|
      invariant i <= |rows|
      invariant counts[..] == Hist(output, rows[..i])
    {
      HistSnoc(output, rows, i);
      counts[output[rows[i]]] := counts[output[rows[i]]] + 1;
      i := i + 1;
    }
    assert rows[..i] == rows;
  }

  /**
   * The sweep of `find_best_column_split` over an already sorted range: fill
   * `upper_counts` with every label, score the baseline, then for positions
   * 1 .. n-1 move the row's label from upper to lower and, unless the guard
   * skips it, keep the position when its entropy is strictly smaller, returning
   * at once on an exact 0.
   */
  method SweepSplit(sorted: seq<nat>, output: seq<nat>, score: Score) returns (position: nat, entropy: real)
    requires Labelled(output, sorted) && |sorted| > 1
    ensures Split(position, entropy) == Sweep(score, output, sorted)
  {
    var n := |sorted|;
    var lower := new nat[2];
    lower[0], lower[1] := 0, 0;
    var upper := Tally(sorted, output);
    position, entropy := 0, score(lower[..], upper[..], 1, n - 1, n);
    ghost var es := Entropies(score, output, sorted);
    var j := 1;
    assert sorted[1..j] == [] && sorted[..1] + sorted[j..] == sorted;
    while j != n
      invariant 1 <= j <= n && lower != upper
      invariant lower[..] == Hist(output, sorted[1..j])
      invariant upper[..] == Hist(output, sorted[..1] + sorted[j..])
      invariant SweepFrom(es, sorted, j, Split(position, entropy)) == Sweep(score, output, sorted)
    {
      var done;
      position, entropy, done := SweepPosition(sorted, output, score, es, lower, upper, j, position, entropy);
      if done {
        return;
      }
      j := j + 1;
    }
  }

  /**
   * Position j of the sweep: move row j's label from `upper_counts` to
   * `lower_counts`, and unless the guard skips the position, score it and
   * keep it when strictly better; `done` reports the early exit on an exact 0.
   */
  method SweepPosition(sorted: seq<nat>, output: seq<nat>, score: Score, ghost es: seq<real>,
                       lower: array<nat>, upper: array<nat>, j: nat, position: nat, entropy: real)
    returns (position': nat, entropy': real, done: bool)
    requires Labelled(output, sorted) && 1 <= j < |sorted| && lower != upper
    requires es == Entropies(score, output, sorted)
    requires lower[..] == Hist(output, sorted[1..j]) && upper[..] == Hist(output, sorted[..1] + sorted[j..])
    modifies lower, upper
    ensures lower[..] == LowerAt(output, sorted, j) && upper[..] == UpperAt(output, sorted, j)
    ensures done ==> Split(position', entropy') == SweepFrom(es, sorted, j, Split(position, entropy))
    ensures !done ==> SweepFrom(es, sorted, j + 1, Split(position', entropy')) ==
                      SweepFrom(es, sorted, j, Split(position, entropy))
  {
    var n := |sorted|;
    var y := output[sorted[j]];
    SweepStep(output, sorted, j);
    lower[y] := lower[y] + 1;
    upper[y] := upper[y] - 1;
    assert lower[..] == LowerAt(output, sorted, j) && upper[..] == UpperAt(output, sorted, j);
    position', entropy', done := position, entropy, false;
    if sorted[j] != sorted[j - 1] {
      var lowerIndex := j + 1;
      var upperIndex := n - lowerIndex;
      var current := score(lower[..], upper[..], lowerIndex, upperIndex, n);
      assert current == es[j];
      if current < entropy {
        position', entropy' := j, current;
        done := current == 0.0;
      }
    }
  }

  /** One column's outcome: the rows as that column's sort left them. */
  ghost predicate SortedCopy(order: seq<nat>, rows: seq<nat>, col: seq<real>, output: seq<nat>)
  {
    && multiset(order) == multiset(rows) && |order| == |rows|
    && Labelled(output, order) && Within(order, |col|) && SortedBy(order, col)
  }

  /**
   * `find_best_column_split`: sort the range in place by the column, then sweep.
   * The range must hold at least two rows, as the source assumes.
   */
  method FindBestColumnSplit(col: seq<real>, rows: array<nat>, output: seq<nat>, score: Score)
    returns (position: nat, entropy: real)
    requires rows.Length > 1 && Within(rows[..], |col|) && Labelled(output, rows[..])
    modifies rows
    ensures SortedCopy(rows[..], old(rows[..]), col, output)
    ensures Split(position, entropy) == Sweep(score, output, rows[..]) && position < rows.Length
  {
    SortByColumn(rows, col);
    LabelledPermutation(output, old(rows[..]), rows[..]);
    position, entropy := SweepSplit(rows[..], output, score);
    SweepIsBest(score, output, rows[..]);
  }

  /** Every recorded order can be swept. */
  ghost predicate Sweepable(output: seq<nat>, orders: seq<seq<nat>>)
  {
    forall i :: 0 <= i < |orders| ==> Labelled(output, orders[i]) && |orders[i]| > 1
  }

  /**
   * Column `chosen` holds the first smallest entropy: every earlier column's
   * entropy is strictly larger and no later column's is smaller.
   */
  ghost predicate FirstMin(splits: seq<Split>, chosen: nat)
  {
    && chosen < |splits|
    && (forall i :: 0 <= i < chosen ==> splits[chosen].entropy < splits[i].entropy)
    && (forall i :: chosen < i < |splits| ==> splits[chosen].entropy <= splits[i].entropy)
  }

  /** A column that is not strictly better leaves the first minimum in place. */
  lemma FirstMinKeep(splits: seq<Split>, chosen: nat, next: Split)
    requires FirstMin(splits, chosen) && splits[chosen].entropy <= next.entropy
    ensures FirstMin(splits + [next], chosen)
  {
    assert forall i :: 0 <= i < |splits| ==> (splits + [next])[i] == splits[i];
  }

  /** A column strictly better than the first minimum becomes the new first minimum. */
  lemma FirstMinNew(splits: seq<Split>, chosen: nat, next: Split)
    requires FirstMin(splits, chosen) && next.entropy < splits[chosen].entropy
    ensures FirstMin(splits + [next], |splits|)
  {
    assert forall i :: 0 <= i < |splits| ==> (splits + [next])[i] == splits[i];
  }

  /** Cutting a range at a position inside it gives a prefix and a non-empty suffix starting there. */
  lemma CutAt(s: seq<nat>, position: nat)
    requires position < |s|
    ensures s[..position] + s[position..] == s && |s[position..]| > 0 && s[position..][0] == s[position]
  {
  }

  /**
   * At a cut of a range sorted by a column, every row before the cut has a
   * column value at most the value at the cut, and every row from the cut on
   * at least that value.
   */
  lemma {:induction false} CutSeparates(left: seq<nat>, right: seq<nat>, col: seq<real>)
    requires |right| > 0 && Within(left + right, |col|) && SortedBy(left + right, col)
    ensures right[0] < |col|
    ensures forall r :: r in left ==> r < |col| && col[r] <= col[right[0]]
    ensures forall r :: r in right ==> r < |col| && col[right[0]] <= col[r]
  {
    var all := left + right;
    assert all[|left|] == right[0];
    forall r | r in left ensures r < |col| && col[r] <= col[right[0]] {
      var i :| 0 <= i < |left| && left[i] == r;
      assert all[i] == r;
    }
    forall r | r in right ensures r < |col| && col[right[0]] <= col[r] {
      var i :| 0 <= i < |right| && right[i] == r;
      assert all[|left| + i] == r;
    }
  }

  /**
   * The output variables of the column loop: the best entropy so far, the
   * column and threshold of the split, and the copied prefix and suffix.
   */
  datatype Choice = Choice(bestEntropy: Double, column: nat, threshold: Double, left: seq<nat>, right: seq<nat>)

  /** The choice before any column was tried. */
  const NoChoice: Choice := Choice(PositiveInfinity, 0, PositiveInfinity, [], [])

  /**
   * The state of the column loop after the first k sampled columns of the
   * range `rows0`: `orders[i]` is the order column i's sort left, `splits[i]`
   * its sweep result, and the choice records the first column with the
   * smallest entropy.
   */
  ghost predicate Scanned(score: Score, output: seq<nat>, data: seq<seq<real>>, columns: seq<nat>,
                          rows0: seq<nat>, k: nat,
                          orders: seq<seq<nat>>, splits: seq<Split>, chosen: nat, choice: Choice)
  {
    && k <= |columns| && |orders| == k && |splits| == k && Sweepable(output, orders)
    && (forall i :: 0 <= i < k ==> columns[i] < |data| && SortedCopy(orders[i], rows0, data[columns[i]], output))
    && (forall i {:trigger Sweep(score, output, orders[i])} :: 0 <= i < k ==>
          splits[i] == Sweep(score, output, orders[i]))
    && (k == 0 ==> choice == NoChoice)
    && (k > 0 ==>
          && FirstMin(splits, chosen) && choice.column == columns[chosen]
          && choice.bestEntropy == Finite(splits[chosen].entropy)
          && choice.left + choice.right == orders[chosen] && |choice.left| == splits[chosen].position
          && |choice.right| > 0 && choice.right[0] < |data[choice.column]|
          && choice.threshold == Finite(data[choice.column][choice.right[0]]))
  }

  /**
   * One iteration of the column loop: sort and sweep column `columns[k]`, and
   * take it when its entropy is strictly below the best so far.
   */
  method ScanColumn(rows: array<nat>, data: seq<seq<real>>, columns: seq<nat>, output: seq<nat>, score: Score,
                    ghost rows0: seq<nat>, k: nat, ghost orders: seq<seq<nat>>, ghost splits: seq<Split>,
                    ghost chosen: nat, choice: Choice)
    returns (ghost orders': seq<seq<nat>>, ghost splits': seq<Split>, ghost chosen': nat, choice': Choice)
    requires k < |columns| && rows.Length > 1
    requires multiset(rows[..]) == multiset(rows0) && Labelled(output, rows[..])
    requires forall i :: 0 <= i < |columns| ==> columns[i] < |data| && |data[columns[i]]| == |output|
    requires Scanned(score, output, data, columns, rows0, k, orders, splits, chosen, choice)
    modifies rows
    ensures multiset(rows[..]) == multiset(rows0) && Labelled(output, rows[..])
    ensures Scanned(score, output, data, columns, rows0, k + 1, orders', splits', chosen', choice')
  {
    var c := columns[k];
    assert Within(rows[..], |data[c]|);
    var position, entropy := FindBestColumnSplit(data[c], rows, output, score);
    ghost var next := rows[..];
    var take := Below(entropy, choice.bestEntropy);
    if take {
      choice' := Choice(Finite(entropy), c, Finite(data[c][rows[position]]), rows[..position], rows[position..]);
      chosen' := k;
    } else {
      choice', chosen' := choice, chosen;
    }
    orders', splits' := orders + [next], splits + [Split(position, entropy)];
    ScannedStep(score, output, data, columns, rows0, k, orders, splits, chosen, choice,
                next, Split(position, entropy), take, chosen', choice');
  }

  /**
   * The loop state after one more column: its order and sweep are appended,
   * and the choice moves to it exactly when its entropy is strictly below the
   * best so far.
   */
  lemma ScannedStep(score: Score, output: seq<nat>, data: seq<seq<real>>, columns: seq<nat>,
                    rows0: seq<nat>, k: nat, orders: seq<seq<nat>>, splits: seq<Split>, chosen: nat, choice: Choice,
                    next: seq<nat>, split: Split, take: bool, chosen': nat, choice': Choice)
    requires k < |columns| && Scanned(score, output, data, columns, rows0, k, orders, splits, chosen, choice)
    requires columns[k] < |data| && SortedCopy(next, rows0, data[columns[k]], output) && |next| > 1
    requires split == Sweep(score, output, next) && split.position < |next|
    requires take == Below(split.entropy, choice.bestEntropy)
    requires take ==> chosen' == k && choice' == Choice(Finite(split.entropy), columns[k],
               Finite(data[columns[k]][next[split.position]]), next[..split.position], next[split.position..])
    requires !take ==> chosen' == chosen && choice' == choice
    ensures Scanned(score, output, data, columns, rows0, k + 1, orders + [next], splits + [split], chosen', choice')
  {
    var orders', splits' := orders + [next], splits + [split];
    assert forall i :: 0 <= i < k ==> orders'[i] == orders[i] && splits'[i] == splits[i];
    if k == 0 {
      assert FirstMin(splits', 0);
    } else if take {
      FirstMinNew(splits, chosen, split);
    } else {
      FirstMinKeep(splits, chosen, split);
    }
    if take {
      CutAt(next, split.position);
    }
  }

  /**
   * The column loop of `build_random_tree`: for each sampled column in turn,
   * sort the range by it and sweep; when the column's entropy is strictly below
   * the best so far (initially +infinity), record the column, the value of the
   * column at the winning row as threshold, and copies of the sorted prefix and
   * suffix at the winning position. With no sampled column the column stays 0
   * (`numeric_limits<size_t>::infinity()` is 0), the threshold +infinity and
   * both sides empty.
   *
   * The ghost results name, for each sampled column k, the order its sort
   * produced (`orders[k]`) and its sweep result (`splits[k]`), and the column
   * that won (`chosen`): the first one with the smallest entropy.
   */
  method ChooseSplit(rows: array<nat>, data: seq<seq<real>>, columns: seq<nat>, output: seq<nat>, score: Score)
    returns (column: nat, threshold: Double, left: seq<nat>, right: seq<nat>,
             ghost orders: seq<seq<nat>>, ghost splits: seq<Split>, ghost chosen: nat)
    requires rows.Length > 1 && Labelled(output, rows[..])
    requires forall k :: 0 <= k < |columns| ==> columns[k] < |data| && |data[columns[k]]| == |output|
    modifies rows
    ensures multiset(rows[..]) == multiset(old(rows[..])) && Labelled(output, rows[..])
    ensures |orders| == |columns| == |splits| && Sweepable(output, orders)
    ensures forall k :: 0 <= k < |columns| ==> SortedCopy(orders[k], old(rows[..]), data[columns[k]], output)
    ensures forall k {:trigger Sweep(score, output, orders[k])} :: 0 <= k < |columns| ==>
              splits[k] == Sweep(score, output, orders[k])
    ensures |columns| == 0 ==> column == 0 && threshold == PositiveInfinity && left == [] && right == []
    ensures |columns| > 0 ==>
              && FirstMin(splits, chosen) && column == columns[chosen]
              && left + right == orders[chosen] && |left| == splits[chosen].position
              && |right| > 0 && right[0] < |data[column]| && threshold == Finite(data[column][right[0]])
  {
    ghost var rows0 := rows[..];
    var choice := NoChoice;
    orders, splits, chosen := [], [], 0;
    var k := 0;
    while k != |columns|
      invariant multiset(rows[..]) == multiset(rows0) && Labelled(output, rows[..])
      invariant Scanned(score, output, data, columns, rows0, k, orders, splits, chosen, choice)
    {
      orders, splits, chosen, choice :=
        ScanColumn(rows, data, columns, output, score, rows0, k, orders, splits, chosen, choice);
      k := k + 1;
    }
    column, threshold, left, right := choice.column, choice.threshold, choice.left, choice.right;
  }
}
