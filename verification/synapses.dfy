/**
 * The synapse store of the hebbian network as values: the counts and times
 * matrices (side N), the weights tensor (FIRE_TIME slices of side N), the
 * reinforcement rule that updates them, and the block embedding used when
 * the network grows.
 */
module Synapses {

  /** Length of the activation history and number of delay slices. */
  const FIRE_TIME: nat := 5
  /** Count a pair must reach before its weights are updated. The source
      declares it as THERSHOLD and reads it as THRESHOLD; one constant here. */
  const THRESHOLD: real := 10.0
  /** Fraction of a row's total removed from each entry of that row. */
  const FORGET_RATE: real := 0.1

  type Matrix = seq<seq<real>>
  type Tensor = seq<Matrix>

  predicate IsSquare(m: Matrix, n: nat)
  {
    |m| == n && forall i | 0 <= i < n :: |m[i]| == n
  }

  predicate IsCube(w: Tensor, f: nat, n: nat)
  {
    |w| == f && forall d | 0 <= d < f :: IsSquare(w[d], n)
  }

  /** Co-activation counts, average delays and per-delay weights. */
  datatype SynapseStore = SynapseStore(counts: Matrix, times: Matrix, weights: Tensor)

  predicate Shaped(s: SynapseStore, n: nat)
  {
    IsSquare(s.counts, n) && IsSquare(s.times, n) && IsCube(s.weights, FIRE_TIME, n)
  }

  function Sum(s: seq<real>): real
  {
    if s == [] then 0.0 else Sum(s[..|s| - 1]) + s[|s| - 1]
  }

  function Abs(x: real): real
  {
    if x < 0.0 then -x else x
  }

  function Sign(x: real): real
  {
    if x > 0.0 then 1.0 else if x < 0.0 then -1.0 else 0.0
  }

  /** The decay removed from every entry of a row. */
  function Decay(row: seq<real>): real
  {
    FORGET_RATE * Sum(row)
  }

  /** Net effect of reinforcement on a pair count `n`: one more observation
      while that keeps it at or below the threshold, none once it would pass it. */
  function SaturatedCount(n: real): (r: real)
    ensures r == n + 1.0 <==> n + 1.0 <= THRESHOLD
    ensures r == n <==> THRESHOLD < n + 1.0
    ensures n <= THRESHOLD ==> r <= THRESHOLD
  {
    if n + 1.0 > THRESHOLD then n else n + 1.0
  }

  /** Incremental mean of the delay: `n` earlier observations averaging `t`,
      plus one observation `delay`. When `n + 1` is zero the source divides
      by zero; the average is then left as it was. */
  function AverageDelay(n: real, t: real, delay: nat): real
  {
    if n + 1.0 == 0.0 then t else (n * t + delay as real) / (n + 1.0)
  }

  /** The plain mean of the delays observed so far. */
  function Mean(observed: seq<real>): real
    requires observed != []
  {
    Sum(observed) / (|observed| as real)
  }

  /** The incremental formula is the plain mean: when `t` is the mean of the
      `n` delays observed so far, the new value is the mean of those and
      the new one. */
  lemma AverageDelayIsMean(observed: seq<real>, t: real, delay: nat)
    requires observed != [] ==> t == Mean(observed)
    ensures AverageDelay(|observed| as real, t, delay) == Mean(observed + [delay as real])
  {
    var n := |observed| as real;
    var all := observed + [delay as real];
    assert all[..|all| - 1] == observed;
    assert Sum(all) == Sum(observed) + delay as real;
    if observed == [] {
      assert Sum(observed) == 0.0;
    } else {
      assert n * t == Sum(observed);
    }
  }

  /** The average delay stays between any bounds that hold of the previous
      average and of the new delay, as long as the count is not negative. */
  lemma AverageDelayWithin(n: real, t: real, delay: nat, lo: real, hi: real)
    requires 0.0 <= n && lo <= t <= hi && lo <= delay as real <= hi
    ensures lo <= AverageDelay(n, t, delay) <= hi
  {
    var d := delay as real;
    assert n * lo <= n * t <= n * hi by {
      assert n * (t - lo) >= 0.0;
      assert n * (hi - t) >= 0.0;
    }
    assert (n + 1.0) * lo <= n * t + d <= (n + 1.0) * hi;
  }

  /** Pull of a weight `w` by a correlation `c`. */
  function Pull(w: real, c: real): real
  {
    w + c - Abs(c) * w
  }

  /**
   * Counts after reinforcing the pair (i, j): the decay z is subtracted from
   * every entry of row i, then z is added back to the pair, plus one when
   * the pair would stay within the threshold.
   */
  function DecayCounts(m: Matrix, n: nat, i: nat, j: nat): (r: Matrix)
    requires IsSquare(m, n) && i < n && j < n
    ensures IsSquare(r, n)
    ensures forall a | 0 <= a < n && a != i :: r[a] == m[a]
    ensures forall b | 0 <= b < n && b != j :: r[i][b] == m[i][b] - Decay(m[i])
    ensures r[i][j] == SaturatedCount(m[i][j])
  {
    var z := Decay(m[i]);
    var decayed := seq(n, b requires 0 <= b < n => m[i][b] - z);
    var pair := if decayed[j] + z + 1.0 > THRESHOLD then decayed[j] + z else decayed[j] + z + 1.0;
    m[i := decayed[j := pair]]
  }

  /** Every entry of slice `delay` pulled by `c`; the other slices as they were. */
  function PullSlice(w: Tensor, n: nat, delay: nat, c: real): (r: Tensor)
    requires IsCube(w, FIRE_TIME, n) && delay < FIRE_TIME
    ensures IsCube(r, FIRE_TIME, n)
  {
    w[delay := seq(n, a requires 0 <= a < n => seq(n, b requires 0 <= b < n => Pull(w[delay][a][b], c)))]
  }

  /**
   * One reinforcement of the pair (i, j) observed `delay` ticks apart with
   * correlation `c`. Only row i of the counts changes; only the pair's
   * average delay changes; the weights change only once the pair's new
   * count has reached the threshold, and then every entry of slice `delay`
   * (the whole slice, not only the pair) is pulled by `c`.
   */
  function ReinforceStep(s: SynapseStore, n: nat, i: nat, j: nat, delay: nat, c: real): (r: SynapseStore)
    requires Shaped(s, n) && i < n && j < n && delay < FIRE_TIME
    ensures Shaped(r, n)
  {
    SynapseStore(
      DecayCounts(s.counts, n, i, j),
      s.times[i := s.times[i][j := AverageDelay(s.counts[i][j], s.times[i][j], delay)]],
      if DecayCounts(s.counts, n, i, j)[i][j] >= THRESHOLD then PullSlice(s.weights, n, delay, c) else s.weights)
  }

  /** What one reinforcement does to the times and the weights. */
  lemma ReinforceStepEffects(s: SynapseStore, n: nat, i: nat, j: nat, delay: nat, c: real)
    requires Shaped(s, n) && i < n && j < n && delay < FIRE_TIME
    ensures var r := ReinforceStep(s, n, i, j, delay, c);
      && r.counts == DecayCounts(s.counts, n, i, j)
      && (forall a, b | 0 <= a < n && 0 <= b < n && (a, b) != (i, j) :: r.times[a][b] == s.times[a][b])
      && r.times[i][j] == AverageDelay(s.counts[i][j], s.times[i][j], delay)
      && (SaturatedCount(s.counts[i][j]) < THRESHOLD ==> r.weights == s.weights)
      && (forall d | 0 <= d < FIRE_TIME && d != delay :: r.weights[d] == s.weights[d])
      && (SaturatedCount(s.counts[i][j]) >= THRESHOLD ==>
            forall a, b | 0 <= a < n && 0 <= b < n :: r.weights[delay][a][b] == Pull(s.weights[delay][a][b], c))
  {
  }

  ghost predicate InUnitRange(w: Tensor)
  {
    forall d, a, b | 0 <= d < |w| && 0 <= a < |w[d]| && 0 <= b < |w[d][a]| :: -1.0 <= w[d][a][b] <= 1.0
  }

  /** A pull by a correlation in [-1, 1] keeps a weight in [-1, 1]. */
  lemma PullBounded(w: real, c: real)
    requires -1.0 <= w <= 1.0 && -1.0 <= c <= 1.0
    ensures -1.0 <= Pull(w, c) <= 1.0
  {
    var k := 1.0 - Abs(c);
    assert Pull(w, c) == w * k + c;
    ScaledStaysWithin(w, k);
    assert -Abs(c) <= c <= Abs(c);
  }

  lemma ScaledStaysWithin(w: real, k: real)
    requires -1.0 <= w <= 1.0 && 0.0 <= k
    ensures -k <= w * k <= k
  {
    assert (1.0 - w) * k >= 0.0;
    assert (1.0 + w) * k >= 0.0;
  }

  /** The product of two values in [-1, 1] is in [-1, 1]. */
  lemma ProductInUnitRange(x: real, y: real)
    requires -1.0 <= x <= 1.0 && -1.0 <= y <= 1.0
    ensures -1.0 <= x * y <= 1.0
  {
    if y >= 0.0 {
      ScaledStaysWithin(x, y);
    } else {
      ScaledStaysWithin(x, -y);
      assert x * y == -(x * -y);
    }
  }

  /** A pull moves a weight towards the sign of the correlation, shrinking
      its distance from it by the factor 1 - |c|. */
  lemma PullContracts(w: real, c: real)
    ensures Pull(w, c) - Sign(c) == (1.0 - Abs(c)) * (w - Sign(c))
  {
    if c > 0.0 {
      calc {
        (1.0 - c) * (w - 1.0);
        w - 1.0 - c * w + c;
      }
    } else if c < 0.0 {
      calc {
        (1.0 + c) * (w + 1.0);
        w + 1.0 + c * w + c;
      }
    }
  }

  /** Reinforcement by a correlation in [-1, 1] keeps every weight in [-1, 1]. */
  lemma ReinforceKeepsWeightsInUnitRange(s: SynapseStore, n: nat, i: nat, j: nat, delay: nat, c: real)
    requires Shaped(s, n) && i < n && j < n && delay < FIRE_TIME
    requires InUnitRange(s.weights) && -1.0 <= c <= 1.0
    ensures InUnitRange(ReinforceStep(s, n, i, j, delay, c).weights)
  {
    var r := ReinforceStep(s, n, i, j, delay, c);
    forall d, a, b | 0 <= d < |r.weights| && 0 <= a < |r.weights[d]| && 0 <= b < |r.weights[d][a]|
      ensures -1.0 <= r.weights[d][a][b] <= 1.0
    {
      if d == delay && SaturatedCount(s.counts[i][j]) >= THRESHOLD {
        PullBounded(s.weights[d][a][b], c);
      }
    }
  }

  /** The decay is not capped at zero: reinforcing a pair of a row whose
      total is 10 takes 1 from an empty entry of that row. */
  lemma DecayCanMakeCountsNegative()
    ensures var m := [[10.0, 0.0], [0.0, 0.0]];
      DecayCounts(m, 2, 0, 0)[0][1] == -1.0
  {
    var m := [[10.0, 0.0], [0.0, 0.0]];
    assert m[0] == [10.0, 0.0];
    assert Sum(m[0]) == 10.0 by {
      assert m[0][..1] == [10.0];
      assert [10.0][..0] == [];
    }
  }

  /** The first reinforcement of a pair on an empty store counts one
      observation at the observed delay and leaves the weights alone. */
  lemma FirstReinforcementOfAPair(n: nat, i: nat, j: nat, delay: nat, c: real)
    requires i < n && j < n && delay < FIRE_TIME
    ensures var r := ReinforceStep(ZeroStore(n), n, i, j, delay, c);
      && r.counts[i][j] == 1.0
      && r.times[i][j] == delay as real
      && r.weights == ZeroStore(n).weights
  {
  }

  function Zeros(n: nat): (m: Matrix)
    ensures IsSquare(m, n)
  {
    seq(n, a => seq(n, b => 0.0))
  }

  /** The store of a network of `n` cells that has learnt nothing. */
  function ZeroStore(n: nat): (s: SynapseStore)
    ensures Shaped(s, n)
  {
    SynapseStore(Zeros(n), Zeros(n), seq(FIRE_TIME, d => Zeros(n)))
  }

  /** `m` copied into the top-left corner of a zero matrix of side `size`. */
  function EmbedMatrix(m: Matrix, n: nat, size: nat): (r: Matrix)
    requires IsSquare(m, n) && n <= size
    ensures IsSquare(r, size)
  {
    seq(size, a requires 0 <= a < size => seq(size, b requires 0 <= b < size => if a < n && b < n then m[a][b] else 0.0))
  }

  /** Every slice of `w` embedded into a larger zero slice. */
  function EmbedTensor(w: Tensor, n: nat, size: nat): (r: Tensor)
    requires IsCube(w, FIRE_TIME, n) && n <= size
    ensures IsCube(r, FIRE_TIME, size)
  {
    seq(FIRE_TIME, d requires 0 <= d < FIRE_TIME => EmbedMatrix(w[d], n, size))
  }

  /** The store after growing from `n` to `size` cells. */
  function Grown(s: SynapseStore, n: nat, size: nat): (r: SynapseStore)
    requires Shaped(s, n) && n <= size
    ensures Shaped(r, size)
  {
    SynapseStore(EmbedMatrix(s.counts, n, size), EmbedMatrix(s.times, n, size), EmbedTensor(s.weights, n, size))
  }

  /** Growth keeps every stored value at its coordinates and zeroes every new
      coordinate. */
  lemma GrownKeepsOldBlock(s: SynapseStore, n: nat, size: nat)
    requires Shaped(s, n) && n <= size
    ensures var r := Grown(s, n, size);
      && (forall a, b | 0 <= a < size && 0 <= b < size ::
            r.counts[a][b] == (if a < n && b < n then s.counts[a][b] else 0.0)
            && r.times[a][b] == (if a < n && b < n then s.times[a][b] else 0.0))
      && (forall d, a, b | 0 <= d < FIRE_TIME && 0 <= a < size && 0 <= b < size ::
            r.weights[d][a][b] == (if a < n && b < n then s.weights[d][a][b] else 0.0))
  {
  }

  /** Two growths in a row are one growth: values stored before the first
      are still in place after the second and nothing else is non-zero. */
  lemma GrownTwice(s: SynapseStore, n: nat, mid: nat, size: nat)
    requires Shaped(s, n) && n <= mid <= size
    ensures Grown(Grown(s, n, mid), mid, size) == Grown(s, n, size)
  {
    EmbedMatrixTwice(s.counts, n, mid, size);
    EmbedMatrixTwice(s.times, n, mid, size);
    var w := s.weights;
    var lhs := EmbedTensor(EmbedTensor(w, n, mid), mid, size);
    var rhs := EmbedTensor(w, n, size);
    forall d | 0 <= d < FIRE_TIME ensures lhs[d] == rhs[d] {
      EmbedMatrixTwice(w[d], n, mid, size);
    }
  }

  lemma EmbedMatrixTwice(m: Matrix, n: nat, mid: nat, size: nat)
    requires IsSquare(m, n) && n <= mid <= size
    ensures EmbedMatrix(EmbedMatrix(m, n, mid), mid, size) == EmbedMatrix(m, n, size)
  {
    var lhs := EmbedMatrix(EmbedMatrix(m, n, mid), mid, size);
    var rhs := EmbedMatrix(m, n, size);
    forall a | 0 <= a < size ensures lhs[a] == rhs[a] {
      assert forall b | 0 <= b < size :: lhs[a][b] == rhs[a][b];
    }
  }

  /** Growing an empty store gives the zero store. */
  lemma GrownFromNothing(s: SynapseStore, size: nat)
    requires Shaped(s, 0)
    ensures Grown(s, 0, size) == ZeroStore(size)
  {
    var r := Grown(s, 0, size);
    var z := ZeroStore(size);
    forall a | 0 <= a < size ensures r.counts[a] == z.counts[a] && r.times[a] == z.times[a] { }
    forall d | 0 <= d < FIRE_TIME ensures r.weights[d] == z.weights[d] {
      forall a | 0 <= a < size ensures r.weights[d][a] == z.weights[d][a] { }
    }
  }
}
