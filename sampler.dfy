/**
 * Reservoir sampling (Algorithm R, Knuth TAOCP Vol. 2, section 3.4.2) as in
 * ayasdi/random_sample.hpp. The random generator is replaced by the sequence
 * of values it returns, one per stream element after the first k.
 */
module Sampler {

  /** The slot drawn for the element at zero-based stream position `count`: `rng() % (count + 1)`. */
  function DrawIndex(draw: nat, count: nat): (index: nat)
    ensures index <= count
  {
    draw % (count + 1)
  }

  /** One replacement step: the slot drawn is overwritten when it lies inside the reservoir. */
  function Offer<T>(sample: seq<T>, x: T, draw: nat, count: nat): (r: seq<T>)
    ensures |r| == |sample|
  {
    var index := DrawIndex(draw, count);
    if index < |sample| then sample[index := x] else sample
  }

  /**
   * The reservoir after the stream elements at positions |initial| .. p-1 have
   * been offered, starting from `initial`; the element at position c uses draw
   * number c - |initial|.
   */
  function Reservoir<T>(initial: seq<T>, input: seq<T>, draws: seq<nat>, p: nat): (r: seq<T>)
    requires |initial| <= p <= |input| && p - |initial| <= |draws|
    ensures |r| == |initial|
    decreases p
  {
    if p == |initial| then initial
    else Offer(Reservoir(initial, input, draws, p - 1), input[p - 1], draws[p - 1 - |initial|], p - 1)
  }

  /** The generator is asked for one value per stream element beyond the first k. */
  ghost predicate EnoughDraws(k: nat, n: nat, draws: seq<nat>)
  {
    n < k || n - k <= |draws|
  }

  /**
   * What `random_sample` leaves in an output range `out` of k slots and the
   * offset it returns: a short stream is copied in order and the offset is its
   * length; otherwise the first k elements fill the reservoir, the rest are
   * offered in turn, and the offset is k (`out_end`).
   */
  ghost function Sample<T>(out: seq<T>, input: seq<T>, draws: seq<nat>): (r: (seq<T>, nat))
    requires EnoughDraws(|out|, |input|, draws)
    ensures |r.0| == |out|
    ensures r.1 == if |input| < |out| then |input| else |out|
    ensures |input| < |out| ==> r.0[..|input|] == input && r.0[|input|..] == out[|input|..]
    ensures forall j :: 0 <= j < r.1 ==> r.0[j] in input
  {
    if |input| < |out| then
      (input + out[|input|..], |input|)
    else
      var k := |out|;
      ReservoirFromStream(input[..k], input, draws, |input|);
      (Reservoir(input[..k], input, draws, |input|), k)
  }

  /** Every reservoir slot holds an element of the stream. */
  lemma {:induction false} ReservoirFromStream<T>(initial: seq<T>, input: seq<T>, draws: seq<nat>, p: nat)
    requires |initial| <= p <= |input| && p - |initial| <= |draws|
    requires initial == input[..|initial|]
    ensures forall j :: 0 <= j < |initial| ==> Reservoir(initial, input, draws, p)[j] in input
    decreases p
  {
    if p == |initial| {
      forall j | 0 <= j < |initial| ensures initial[j] in input {
        assert initial[j] == input[j];
      }
    } else {
      ReservoirFromStream(initial, input, draws, p - 1);
    }
  }

  /** The positions 0 .. n-1. */
  function Positions(n: nat): (r: seq<nat>)
    ensures |r| == n && forall i :: 0 <= i < n ==> r[i] == i
  {
    if n == 0 then [] else Positions(n - 1) + [n - 1]
  }

  /** Replace each position by the stream element it names. */
  function Select<T>(input: seq<T>, positions: seq<nat>): (r: seq<T>)
    requires forall j :: 0 <= j < |positions| ==> positions[j] < |input|
    ensures |r| == |positions| && forall j :: 0 <= j < |r| ==> r[j] == input[positions[j]]
  {
    seq(|positions|, j requires 0 <= j < |positions| => input[positions[j]])
  }

  /** No position occurs twice. */
  ghost predicate Distinct(s: seq<nat>)
  {
    forall i, j :: 0 <= i < j < |s| ==> s[i] != s[j]
  }

  /**
   * Sampling without replacement: running the reservoir on the stream
   * positions instead of the elements gives k distinct positions, all
   * already read, and the reservoir of elements is exactly the elements at
   * those positions.
   */
  lemma {:induction false} ReservoirIsSelection<T>(k: nat, input: seq<T>, draws: seq<nat>, p: nat)
    requires k <= p <= |input| && p - k <= |draws|
    ensures var positions := Reservoir<nat>(Positions(k), Positions(|input|), draws, p);
            (forall j :: 0 <= j < k ==> positions[j] < p) &&
            Distinct(positions) &&
            Reservoir(input[..k], input, draws, p) == Select(input, positions)
    decreases p
  {
    if p == k {
      assert input[..k] == Select(input, Positions(k));
    } else {
      ReservoirIsSelection(k, input, draws, p - 1);
      SelectionStep(k, input, draws, p);
    }
  }

  /** One more stream element keeps the reservoir of elements the selection of the reservoir of positions. */
  lemma SelectionStep<T>(k: nat, input: seq<T>, draws: seq<nat>, p: nat)
    requires k < p <= |input| && p - k <= |draws|
    requires var positions := Reservoir<nat>(Positions(k), Positions(|input|), draws, p - 1);
             (forall j :: 0 <= j < k ==> positions[j] < p - 1) &&
             Distinct(positions) &&
             Reservoir(input[..k], input, draws, p - 1) == Select(input, positions)
    ensures var positions := Reservoir<nat>(Positions(k), Positions(|input|), draws, p);
            (forall j :: 0 <= j < k ==> positions[j] < p) &&
            Distinct(positions) &&
            Reservoir(input[..k], input, draws, p) == Select(input, positions)
  {
    var all := Positions(|input|);
    var before := Reservoir<nat>(Positions(k), all, draws, p - 1);
    var elements := Reservoir(input[..k], input, draws, p - 1);
    assert all[p - 1] == p - 1;
    var index := DrawIndex(draws[p - 1 - k], p - 1);
    if index < k {
      assert Select(input, before[index := p - 1]) == elements[index := input[p - 1]];
    }
  }

  /**
   * `random_sample` with an explicit generator: copy until either range ends;
   * if the output range was not filled return the offset reached; otherwise
   * offer every further element to the slot `rng() % (count + 1)`, where
   * `count` starts at k and grows by one per element, and return k.
   */
  method RandomSample<T>(input: seq<T>, out: array<T>, draws: seq<nat>) returns (written: nat)
    requires EnoughDraws(out.Length, |input|, draws)
    modifies out
    ensures (out[..], written) == Sample(old(out[..]), input, draws)
  {
    var k := out.Length;
    var i := 0;
    while i != k && i != |input|
      invariant i <= k && i <= |input|
      invariant forall j :: 0 <= j < i ==> out[j] == input[j]
      invariant forall j :: i <= j < k ==> out[j] == old(out[j])
    {
      out[i] := input[i];
      i := i + 1;
    }
    if i != k {
      assert out[..] == input + old(out[..])[i..];
      return i;
    }
    assert out[..] == input[..k];
    var count := k;
    while count != |input|
      invariant k <= count <= |input|
      invariant out[..] == Reservoir(input[..k], input, draws, count)
    {
      var index := draws[count - k] % (count + 1);
      if index < k {
        out[index] := input[count];
      }
      count := count + 1;
    }
    written := k;
  }
}
