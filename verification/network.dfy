/**
 * The hebbian network object: its intensity map, activation history,
 * modified set, cell table and the three tensors, with the operations that
 * change them in place: loading, bulk growth, reinforcement and the tick.
 */
module Network {

  import opened Optional
  import opened CellIndex
  import opened Activation
  import opened Synapses
  import opened Tick

  /** A saved network: the intensity map and the three tensors. */
  datatype Snapshot = Snapshot(intensities: map<CellId, real>, counts: array2<real>, times: array2<real>, weights: array3<real>)

  /** The argument of bulk growth: a list or tuple of ids, or any other value. */
  datatype CellsArg = Ids(ids: seq<CellId>) | Other

  function Shape2(m: array2<real>): seq<nat>
  {
    [m.Length0, m.Length1]
  }

  function Shape3(w: array3<real>): seq<nat>
  {
    [w.Length0, w.Length1, w.Length2]
  }

  /** The loader's shape test as the source writes it: all three shapes
      equal, and equal to (n, n). */
  predicate ShapesMatchAsWritten(counts: seq<nat>, times: seq<nat>, weights: seq<nat>, n: nat)
    ensures ShapesMatchAsWritten(counts, times, weights, n) ==> |weights| == 2 && weights == counts
  {
    counts == times && times == weights && times == [n, n]
  }

  /** The loader's shape test as the store needs it: counts and times are
      n by n, weights FIRE_TIME by n by n. */
  predicate ShapesMatch(counts: seq<nat>, times: seq<nat>, weights: seq<nat>, n: nat)
  {
    counts == [n, n] && times == [n, n] && weights == [FIRE_TIME, n, n]
  }

  /** As written, the test fails for every three-dimensional weights tensor,
      so the tensors of a consistent snapshot are always discarded. */
  lemma AsWrittenRejectsConsistentShapes(n: nat, counts: seq<nat>, times: seq<nat>, weights: seq<nat>)
    requires ShapesMatch(counts, times, weights, n)
    ensures !ShapesMatchAsWritten(counts, times, weights, n)
  {
    assert |weights| == 3;
  }

  function RowOf(m: array2<real>, a: nat): (r: seq<real>)
    reads m
    requires a < m.Length0
    ensures |r| == m.Length1 && forall b | 0 <= b < m.Length1 :: r[b] == m[a, b]
  {
    seq(m.Length1, b requires 0 <= b < m.Length1 reads m => m[a, b])
  }

  ghost function MatrixOf(m: array2<real>): (r: Matrix)
    reads m
    ensures |r| == m.Length0 && forall a | 0 <= a < m.Length0 :: r[a] == RowOf(m, a)
    ensures m.Length0 == m.Length1 ==> IsSquare(r, m.Length0)
  {
    seq(m.Length0, a requires 0 <= a < m.Length0 reads m => RowOf(m, a))
  }

  ghost function SliceOf(w: array3<real>, d: nat): (r: Matrix)
    reads w
    requires d < w.Length0
    ensures |r| == w.Length1
    ensures forall a, b | 0 <= a < w.Length1 && 0 <= b < w.Length2 :: |r[a]| == w.Length2 && r[a][b] == w[d, a, b]
  {
    seq(w.Length1, a requires 0 <= a < w.Length1 reads w =>
      seq(w.Length2, b requires 0 <= b < w.Length2 reads w => w[d, a, b]))
  }

  ghost function TensorOf(w: array3<real>): (r: Tensor)
    reads w
    ensures |r| == w.Length0 && forall d | 0 <= d < w.Length0 :: r[d] == SliceOf(w, d)
    ensures w.Length1 == w.Length2 ==> IsCube(r, w.Length0, w.Length1)
  {
    seq(w.Length0, d requires 0 <= d < w.Length0 reads w => SliceOf(w, d))
  }

  lemma MatrixOfIs(m: array2<real>, x: Matrix, n: nat)
    requires m.Length0 == n && m.Length1 == n && IsSquare(x, n)
    requires forall a, b | 0 <= a < n && 0 <= b < n :: m[a, b] == x[a][b]
    ensures MatrixOf(m) == x
  {
    forall a | 0 <= a < n ensures MatrixOf(m)[a] == x[a] {
      assert forall b | 0 <= b < n :: MatrixOf(m)[a][b] == x[a][b];
    }
  }

  lemma TensorOfIs(w: array3<real>, x: Tensor, n: nat)
    requires w.Length0 == FIRE_TIME && w.Length1 == n && w.Length2 == n && IsCube(x, FIRE_TIME, n)
    requires forall d, a, b | 0 <= d < FIRE_TIME && 0 <= a < n && 0 <= b < n :: w[d, a, b] == x[d][a][b]
    ensures TensorOf(w) == x
  {
    forall d | 0 <= d < FIRE_TIME ensures TensorOf(w)[d] == x[d] {
      forall a | 0 <= a < n ensures TensorOf(w)[d][a] == x[d][a] {
        assert forall b | 0 <= b < n :: TensorOf(w)[d][a][b] == x[d][a][b];
      }
    }
  }

  /** Row i of the counts decays, and the pair (i, j) gains one unless that
      would take it over the threshold. */
  method DecayRow(m: array2<real>, n: nat, i: nat, j: nat)
    requires m.Length0 == n && m.Length1 == n && i < n && j < n
    modifies m
    ensures MatrixOf(m) == DecayCounts(old(MatrixOf(m)), n, i, j)
  {
    ghost var before := MatrixOf(m);
    var z := Decay(RowOf(m, i));
    assert RowOf(m, i) == before[i];
    forall b | 0 <= b < n {
      m[i, b] := m[i, b] - z;
    }
    if m[i, j] + z + 1.0 > THRESHOLD {
      m[i, j] := m[i, j] + z;
    } else {
      m[i, j] := m[i, j] + z + 1.0;
    }
    MatrixOfIs(m, DecayCounts(before, n, i, j), n);
  }

  /** Every entry of slice `delay` pulled by `c`. */
  method PullSliceInPlace(w: array3<real>, n: nat, delay: nat, c: real)
    requires w.Length0 == FIRE_TIME && w.Length1 == n && w.Length2 == n && delay < FIRE_TIME
    modifies w
    ensures TensorOf(w) == PullSlice(old(TensorOf(w)), n, delay, c)
  {
    ghost var before := TensorOf(w);
    forall a, b | 0 <= a < n && 0 <= b < n {
      w[delay, a, b] := Pull(w[delay, a, b], c);
    }
    TensorOfIs(w, PullSlice(before, n, delay, c), n);
  }

  /**
   * The numbering loop of bulk growth: gives each unknown id a default
   * intensity of 0 and each id not yet in the cell table the counter, which
   * then goes up by one. Returns the new maps and the final counter.
   */
  method NumberIds(ids: seq<CellId>, intensities: map<CellId, real>, number: map<CellId, nat>,
                   cellAt: map<nat, CellId>, next: nat)
    returns (intensities': map<CellId, real>, number': map<CellId, nat>, cellAt': map<nat, CellId>, next': nat)
    requires IndexValid(number, cellAt, next)
    ensures intensities' == WithDefaults(intensities, ids)
    ensures number' == NumberCells(ids, number, next).0 && next' == NumberCells(ids, number, next).1
    ensures IndexValid(number', cellAt', next') && next <= next'
    ensures number.Keys <= intensities.Keys ==> number'.Keys <= intensities'.Keys
  {
    intensities', number', cellAt', next' := intensities, number, cellAt, next;
    var i := 0;
    while i < |ids|
      invariant 0 <= i <= |ids|
      invariant intensities' == WithDefaults(intensities, ids[..i])
      invariant number' == NumberCells(ids[..i], number, next).0 && next' == NumberCells(ids[..i], number, next).1
      invariant IndexValid(number', cellAt', next') && next <= next'
      invariant number.Keys <= intensities.Keys ==> number'.Keys <= intensities'.Keys
    {
      var id := ids[i];
      NumberingSnoc(ids, i, intensities, number, next);
      if id !in intensities' {
        intensities' := intensities'[id := 0.0];
      }
      if id !in number' {
        IndexValidExtend(number', cellAt', next', id);
        number' := number'[id := next'];
        cellAt' := cellAt'[next' := id];
        next' := next' + 1;
      }
      i := i + 1;
    }
    assert ids[..i] == ids;
  }

  /** A fresh `size` by `size` matrix holding `m` in its top-left corner
      and zeros elsewhere. */
  method Enlarged(m: array2<real>, n: nat, size: nat) returns (r: array2<real>)
    requires m.Length0 == n && m.Length1 == n && n <= size
    ensures fresh(r) && r.Length0 == size && r.Length1 == size
    ensures MatrixOf(r) == EmbedMatrix(MatrixOf(m), n, size)
  {
    r := new real[size, size]((a, b) => 0.0);
    forall a, b | 0 <= a < n && 0 <= b < n {
      r[a, b] := m[a, b];
    }
    MatrixOfIs(r, EmbedMatrix(MatrixOf(m), n, size), size);
  }

  /** The same for every slice of a weights tensor. */
  method EnlargedTensor(w: array3<real>, n: nat, size: nat) returns (r: array3<real>)
    requires w.Length0 == FIRE_TIME && w.Length1 == n && w.Length2 == n && n <= size
    ensures fresh(r) && r.Length0 == FIRE_TIME && r.Length1 == size && r.Length2 == size
    ensures TensorOf(r) == EmbedTensor(TensorOf(w), n, size)
  {
    r := new real[FIRE_TIME, size, size]((d, a, b) => 0.0);
    forall d, a, b | 0 <= d < FIRE_TIME && 0 <= a < n && 0 <= b < n {
      r[d, a, b] := w[d, a, b];
    }
    TensorOfIs(r, EmbedTensor(TensorOf(w), n, size), size);
  }

  /** A valid table stays valid under a larger size. */
  lemma IndexValidWiden(number: map<CellId, nat>, cellAt: map<nat, CellId>, size: nat, larger: nat)
    requires IndexValid(number, cellAt, size) && size <= larger
    ensures IndexValid(number, cellAt, larger)
  {
  }

  /** Numbering an unknown id with the size keeps the table valid. */
  lemma IndexValidExtend(number: map<CellId, nat>, cellAt: map<nat, CellId>, size: nat, id: CellId)
    requires IndexValid(number, cellAt, size) && id !in number
    ensures size !in cellAt
    ensures IndexValid(number[id := size], cellAt[size := id], size + 1)
  {
  }

  /** The pending entries outside `todo`. */
  function Restricted(pending: map<CellId, real>, todo: set<CellId>): (r: map<CellId, real>)
    ensures r.Keys == pending.Keys - todo
  {
    map c | c in pending && c !in todo :: pending[c]
  }

  /** The loop behind CommitIntensities: walks the pending cells in an arbitrary order and writes
      each one that was not modified earlier in the tick. */
  method CommitPending(intensities: map<CellId, real>, pending: map<CellId, real>, modified: set<CellId>)
    returns (values: map<CellId, real>, touched: set<CellId>)
    ensures values == Commit(intensities, pending, modified)
    ensures touched == modified + pending.Keys
  {
    values, touched := intensities, modified;
    var todo := pending.Keys;
    while todo != {}
      invariant todo <= pending.Keys
      invariant values == Commit(intensities, Restricted(pending, todo), modified)
      invariant touched == modified + (pending.Keys - todo)
      decreases todo
    {
      var cell :| cell in todo;
      CommitOneMore(intensities, pending, todo, cell, modified);
      if cell !in touched {
        values := values[cell := pending[cell]];
        touched := touched + {cell};
      }
      todo := todo - {cell};
    }
    assert Restricted(pending, {}) == pending;
  }

  /** Committing one more pending cell changes at most that cell. */
  lemma CommitOneMore(intensities: map<CellId, real>, pending: map<CellId, real>, todo: set<CellId>,
                      cell: CellId, modified: set<CellId>)
    requires cell in todo && todo <= pending.Keys
    ensures var before := Commit(intensities, Restricted(pending, todo), modified);
            var after := Commit(intensities, Restricted(pending, todo - {cell}), modified);
            after == if cell in modified then before else before[cell := pending[cell]]
  {
  }

  /** Extending the cells of an exogenous bonus list by one. */
  lemma ExogenousSnoc(v: View, cells: seq<CellId>, k: nat, eligibility: real, gain: real)
    requires k < |cells| && forall i | 0 <= i < |cells| :: cells[i] in v.intensities
    ensures Exogenous(v, cells[..k + 1], eligibility, gain)
         == Exogenous(v, cells[..k], eligibility, gain) + [Bonus(cells[k], eligibility, ExogenousPull(gain, v.intensities[cells[k]]))]
  {
    var lhs := Exogenous(v, cells[..k + 1], eligibility, gain);
    var rhs := Exogenous(v, cells[..k], eligibility, gain) + [Bonus(cells[k], eligibility, ExogenousPull(gain, v.intensities[cells[k]]))];
    forall i | 0 <= i < k + 1 ensures lhs[i] == rhs[i] {
      if i < k {
        assert cells[..k + 1][i] == cells[..k][i];
      }
    }
  }

  /** The tallies after one more exogenous bonus. */
  lemma TallyExogenousSnoc(before: seq<Bonus>, v: View, cells: seq<CellId>, k: nat, eligibility: real, gain: real)
    requires k < |cells| && forall i | 0 <= i < |cells| :: cells[i] in v.intensities
    ensures Tally(before + Exogenous(v, cells[..k + 1], eligibility, gain), Eligibility)
         == Bump(Tally(before + Exogenous(v, cells[..k], eligibility, gain), Eligibility), cells[k], eligibility)
    ensures Tally(before + Exogenous(v, cells[..k + 1], eligibility, gain), Delta)
         == Bump(Tally(before + Exogenous(v, cells[..k], eligibility, gain), Delta), cells[k], ExogenousPull(gain, v.intensities[cells[k]]))
  {
    var b := Bonus(cells[k], eligibility, ExogenousPull(gain, v.intensities[cells[k]]));
    ExogenousSnoc(v, cells, k, eligibility, gain);
    assert before + Exogenous(v, cells[..k + 1], eligibility, gain) == (before + Exogenous(v, cells[..k], eligibility, gain)) + [b];
    TallySnoc(before + Exogenous(v, cells[..k], eligibility, gain), b, Eligibility);
    TallySnoc(before + Exogenous(v, cells[..k], eligibility, gain), b, Delta);
  }

  /** A network whose size is its number of intensities passes the
      loader's test with its own tensors, which are then kept as they are. */
  lemma ConsistentNetworkReloads(m: Model)
    requires m.Valid() && m.nbCells == |m.intensities|
    ensures ShapesMatch(Shape2(m.counts), Shape2(m.times), Shape3(m.weights), |m.intensities|)
  {
  }

  /**
   * Growth numbers new cells from one past the size. From any network whose
   * numbered cells have intensities and whose size is at least its number of
   * intensities (the default network and every loaded one), growth ends
   * strictly larger than the number of intensities, so the loader discards
   * the tensors of every grown network.
   */
  lemma {:induction false} GrowthOutgrowsIntensities(intensities: map<CellId, real>, number: map<CellId, nat>, n: nat,
                                  ids: seq<CellId>, counts: seq<nat>, times: seq<nat>, weights: seq<nat>)
    requires number.Keys <= intensities.Keys && |intensities| <= n
    requires var size := NumberCells(ids, number, n + 1).1;
      counts == [size, size] && times == [size, size] && weights == [FIRE_TIME, size, size]
    ensures |WithDefaults(intensities, ids)| < NumberCells(ids, number, n + 1).1
    ensures !ShapesMatch(counts, times, weights, |WithDefaults(intensities, ids)|)
  {
    GrownSizeExceedsIntensities(intensities, number, n, ids);
  }

  /** The counting behind `GrowthOutgrowsIntensities`. */
  lemma {:induction false} GrownSizeExceedsIntensities(intensities: map<CellId, real>, number: map<CellId, nat>, n: nat, ids: seq<CellId>)
    requires number.Keys <= intensities.Keys && |intensities| <= n
    ensures |WithDefaults(intensities, ids)| < NumberCells(ids, number, n + 1).1
  {
    var valued, size := |WithDefaults(intensities, ids)|, NumberCells(ids, number, n + 1).1;
    var unvalued, added := |Unvalued(intensities, ids)|, |NewIds(ids, number)|;
    assert valued == |intensities| + unvalued by { DefaultsSize(intensities, ids); }
    assert unvalued <= added by { AddedAreNew(intensities, number, ids); }
    assert size == n + 1 + added by { NumberCellsCount(ids, number, n + 1); }
  }

  /** The given ids that have no intensity yet. */
  ghost function Unvalued(intensities: map<CellId, real>, ids: seq<CellId>): set<CellId>
  {
    (set c | c in ids) - intensities.Keys
  }

  /** Defaulting adds one intensity per given id that had none. */
  lemma {:induction false} DefaultsSize(intensities: map<CellId, real>, ids: seq<CellId>)
    ensures |WithDefaults(intensities, ids)| == |intensities| + |Unvalued(intensities, ids)|
  {
    WithDefaultsGivesEveryIdAnIntensity(intensities, ids);
    UnionSize(intensities.Keys, set c | c in ids);
    assert |WithDefaults(intensities, ids).Keys| == |WithDefaults(intensities, ids)|;
  }

  /** An id without an intensity is not numbered either. */
  lemma {:induction false} AddedAreNew(intensities: map<CellId, real>, number: map<CellId, nat>, ids: seq<CellId>)
    requires number.Keys <= intensities.Keys
    ensures |Unvalued(intensities, ids)| <= |NewIds(ids, number)|
  {
    SubsetSize(Unvalued(intensities, ids), NewIds(ids, number));
  }

  /**
   * Numbering from the size itself instead: a network whose table numbers
   * exactly its intensities, one row each, keeps that shape through growth,
   * so a grown network passes the loader's corrected test.
   */
  lemma {:induction false} CorrectedNumberingKeepsOneRowPerIntensity(intensities: map<CellId, real>, number: map<CellId, nat>,
                                                  n: nat, ids: seq<CellId>)
    requires number.Keys == intensities.Keys && |intensities| == n
    ensures NumberCells(ids, number, n).0.Keys == WithDefaults(intensities, ids).Keys
    ensures var size := NumberCells(ids, number, n).1;
      size == |WithDefaults(intensities, ids)|
      && ShapesMatch([size, size], [size, size], [FIRE_TIME, size, size], |WithDefaults(intensities, ids)|)
  {
    NumberCellsKeepsKnown(ids, number, n);
    NumberCellsCount(ids, number, n);
    WithDefaultsGivesEveryIdAnIntensity(intensities, ids);
    UnionSize(intensities.Keys, set c | c in ids);
    assert |WithDefaults(intensities, ids).Keys| == |WithDefaults(intensities, ids)|;
  }

  lemma UnionSize(a: set<CellId>, b: set<CellId>)
    ensures |a + b| == |a| + |b - a|
  {
    assert a + b == a + (b - a);
  }

  lemma SubsetSize(a: set<CellId>, b: set<CellId>)
    requires a <= b
    ensures |a| <= |b|
  {
    assert b == a + (b - a);
  }

  class Model {
    /** Intensity (degree of truth) of each cell. */
    var intensities: map<CellId, real>
    /** Side of the matrices. */
    var nbCells: nat
    /** Activation history, oldest first. */
    var activateds: array<CellId>
    /** Cells whose intensity was already set since the last exogenous event. */
    var modifieds: set<CellId>
    /** The cell table, one map per direction. */
    var cellNumber: map<CellId, nat>
    var cellAt: map<nat, CellId>
    var counts: array2<real>
    var times: array2<real>
    var weights: array3<real>

    ghost predicate Valid()
      reads this
    {
      && counts.Length0 == nbCells && counts.Length1 == nbCells
      && times.Length0 == nbCells && times.Length1 == nbCells
      && weights.Length0 == FIRE_TIME && weights.Length1 == nbCells && weights.Length2 == nbCells
      && counts != times
      && IndexValid(cellNumber, cellAt, nbCells)
      && cellNumber.Keys <= intensities.Keys
    }

    /** The tensors as values. */
    ghost function Stored(): (s: SynapseStore)
      reads this, counts, times, weights
    {
      SynapseStore(MatrixOf(counts), MatrixOf(times), TensorOf(weights))
    }

    /** What a tick reads. */
    ghost function Current(): View
      reads this, weights
    {
      Tick.View(intensities, cellNumber, cellAt, nbCells, TensorOf(weights))
    }

    /**
     * Builds a network, from a snapshot when one is given. The intensities
     * are always the snapshot's and the size is their number; the tensors
     * are kept as they are when their shapes fit that size under the
     * corrected shape test `ShapesMatch` (see Findings), and replaced by
     * zero tensors otherwise. The history and the modified set are taken as
     * given (an empty history stays empty). The cell table starts empty.
     */
    constructor (network: Option<Snapshot>, activateds: array<CellId>, modifieds: set<CellId>)
      requires network.Some? ==> network.value.counts != network.value.times
      ensures Valid()
      ensures cellNumber == map[] && cellAt == map[] && this.modifieds == modifieds
      ensures this.activateds == activateds
      ensures network.None? ==> intensities == map[] && nbCells == 0
      ensures network.Some? ==> intensities == network.value.intensities && nbCells == |network.value.intensities|
      ensures network.Some? && ShapesMatch(Shape2(network.value.counts), Shape2(network.value.times),
                                           Shape3(network.value.weights), |network.value.intensities|) ==>
        counts == network.value.counts && times == network.value.times && weights == network.value.weights
      ensures network.None? || !ShapesMatch(Shape2(network.value.counts), Shape2(network.value.times),
                                            Shape3(network.value.weights), |network.value.intensities|) ==>
        fresh(counts) && fresh(times) && fresh(weights) && Stored() == ZeroStore(nbCells)
    {
      var n: nat := if network.Some? then |network.value.intensities| else 0;
      intensities := if network.Some? then network.value.intensities else map[];
      nbCells := n;
      if network.Some? && ShapesMatch(Shape2(network.value.counts), Shape2(network.value.times),
                                      Shape3(network.value.weights), n) {
        counts := network.value.counts;
        times := network.value.times;
        weights := network.value.weights;
      } else {
        counts := new real[n, n]((a, b) => 0.0);
        times := new real[n, n]((a, b) => 0.0);
        weights := new real[FIRE_TIME, n, n]((d, a, b) => 0.0);
      }
      this.activateds := activateds;
      this.modifieds := modifieds;
      cellNumber := map[];
      cellAt := map[];
      new;
      if network.None? || !ShapesMatch(Shape2(network.value.counts), Shape2(network.value.times),
                                       Shape3(network.value.weights), n) {
        MatrixOfIs(counts, Zeros(n), n);
        MatrixOfIs(times, Zeros(n), n);
        TensorOfIs(weights, ZeroStore(n).weights, n);
      }
    }

    /**
     * Bulk growth. A sequence of ids is numbered as `NumberIds` says; the
     * tensors are then reallocated at the final counter with the old block
     * copied into their top-left corner. Any other argument changes nothing.
     */
    method Grow(cells: CellsArg)
      requires Valid()
      modifies this
      ensures Valid()
      ensures cells.Other? ==> unchanged(this)
      ensures cells.Ids? ==>
        && intensities == WithDefaults(old(intensities), cells.ids)
        && cellNumber == NumberCells(cells.ids, old(cellNumber), old(nbCells) + 1).0
        && nbCells == NumberCells(cells.ids, old(cellNumber), old(nbCells) + 1).1
        && old(nbCells) < nbCells
        && fresh(counts) && fresh(times) && fresh(weights)
        && Stored() == Grown(old(Stored()), old(nbCells), nbCells)
      ensures activateds == old(activateds) && modifieds == old(modifieds)
    {
      if cells.Ids? {
        var n := nbCells;
        Renumber(cells.ids);
        Reallocate(n);
      }
    }

    /** The numbering half of `Grow`: the tensors are left as they are. */
    method Renumber(ids: seq<CellId>)
      requires IndexValid(cellNumber, cellAt, nbCells) && cellNumber.Keys <= intensities.Keys
      modifies this
      ensures intensities == WithDefaults(old(intensities), ids)
      ensures cellNumber == NumberCells(ids, old(cellNumber), old(nbCells) + 1).0
      ensures nbCells == NumberCells(ids, old(cellNumber), old(nbCells) + 1).1
      ensures IndexValid(cellNumber, cellAt, nbCells) && cellNumber.Keys <= intensities.Keys
      ensures old(nbCells) < nbCells
      ensures counts == old(counts) && times == old(times) && weights == old(weights)
      ensures activateds == old(activateds) && modifieds == old(modifieds)
    {
      IndexValidWiden(cellNumber, cellAt, nbCells, nbCells + 1);
      intensities, cellNumber, cellAt, nbCells := NumberIds(ids, intensities, cellNumber, cellAt, nbCells + 1);
    }

    /** The reallocation half of `Grow`: tensors of side `n` become tensors of side `nbCells`. */
    method Reallocate(n: nat)
      requires n <= nbCells && counts != times
      requires counts.Length0 == n && counts.Length1 == n && times.Length0 == n && times.Length1 == n
      requires weights.Length0 == FIRE_TIME && weights.Length1 == n && weights.Length2 == n
      requires IndexValid(cellNumber, cellAt, nbCells) && cellNumber.Keys <= intensities.Keys
      modifies this
      ensures Valid()
      ensures intensities == old(intensities) && nbCells == old(nbCells)
      ensures fresh(counts) && fresh(times) && fresh(weights)
      ensures Stored() == Grown(old(Stored()), n, nbCells)
      ensures cellNumber == old(cellNumber) && cellAt == old(cellAt)
      ensures activateds == old(activateds) && modifieds == old(modifieds)
    {
      var newCounts := Enlarged(counts, n, nbCells);
      var newTimes := Enlarged(times, n, nbCells);
      var newWeights := EnlargedTensor(weights, n, nbCells);
      counts, times, weights := newCounts, newTimes, newWeights;
    }

    /**
     * One reinforcement of the pair (cell1, cell2) observed `delay` ticks
     * apart with the given correlation, on the arrays in place.
     */
    method Reinforce(cell1: CellId, cell2: CellId, delay: nat, correlation: real)
      requires Valid() && cell1 in cellNumber && cell2 in cellNumber && delay < FIRE_TIME
      modifies counts, times, weights
      ensures Valid()
      ensures Stored() == ReinforceStep(old(Stored()), nbCells, cellNumber[cell1], cellNumber[cell2], delay, correlation)
    {
      ghost var before := Stored();
      var num1 := cellNumber[cell1];
      var num2 := cellNumber[cell2];
      var n := counts[num1, num2];
      var t := times[num1, num2];
      DecayRow(counts, nbCells, num1, num2);
      times[num1, num2] := AverageDelay(n, t, delay);
      if counts[num1, num2] >= THRESHOLD {
        PullSliceInPlace(weights, nbCells, delay, correlation);
      }
      MatrixOfIs(times, before.times[num1 := before.times[num1][num2 := AverageDelay(n, t, delay)]], nbCells);
    }

    /**
     * The bonus history entry `delay` propagates: its row of weights at
     * that delay scaled by its intensity, the draw `pulls[delay]` on that
     * row, and the cell numbered with the drawn index, if any.
     */
    method PropagationStep(pulls: seq<nat>, percepts: seq<CellId>, reflexes: seq<CellId>, delay: nat)
      returns (bonus: Option<Bonus>)
      requires Valid() && Ready(Current(), activateds[..], pulls, percepts, reflexes) && delay < activateds.Length
      ensures bonus == PropagationBonus(Current(), activateds[..], pulls, percepts, reflexes, delay)
    {
      var w := weights;
      var n := nbCells;
      var activated := activateds[delay];
      var intensity := intensities[activated];
      var row := cellNumber[activated];
      var weightsToSons := seq(n, k requires 0 <= k < n reads w => Scaled(intensity, w[delay, row, k]));
      ghost var v := Current();
      assert v.intensities == intensities && v.cellAt == cellAt && activateds[..][delay] == activated;
      ghost var candidates := CandidateRow(Current(), activateds[..], pulls, percepts, reflexes, delay);
      forall k | 0 <= k < n ensures weightsToSons[k] == candidates[k] {
        assert Current().weights[delay][row][k] == w[delay, row, k];
      }
      assert weightsToSons == candidates;
      match PullList(weightsToSons, pulls[delay])
      case None =>
        bonus := None;
      case Some((nextId, strength)) =>
        if nextId in cellAt {
          var target := cellAt[nextId];
          bonus := Some(Bonus(target, Abs(strength), PropagationPull(strength, intensities[target])));
        } else {
          bonus := None;
        }
    }

    /**
     * The propagation part of a tick: walks the history, oldest first; the
     * index `pulls[d]` stands for the draw on the row of candidate
     * strengths of entry `d`, and the cell numbered with it, if any, gets
     * the bonus.
     */
    method Propagate(pulls: seq<nat>, percepts: seq<CellId>, reflexes: seq<CellId>)
      returns (eligibles: map<CellId, real>, newIntensities: map<CellId, real>)
      requires Valid() && Ready(Current(), activateds[..], pulls, percepts, reflexes)
      ensures eligibles == Tally(Propagated(Current(), activateds[..], pulls, percepts, reflexes, activateds.Length), Eligibility)
      ensures newIntensities == Tally(Propagated(Current(), activateds[..], pulls, percepts, reflexes, activateds.Length), Delta)
    {
      ghost var v := Current();
      ghost var history := activateds[..];
      ghost var bonuses: seq<Bonus> := [];
      eligibles, newIntensities := map[], map[];
      var delay := 0;
      while delay < activateds.Length
        invariant 0 <= delay <= activateds.Length
        invariant bonuses == Propagated(v, history, pulls, percepts, reflexes, delay)
        invariant eligibles == Tally(bonuses, Eligibility) && newIntensities == Tally(bonuses, Delta)
      {
        var bonus := PropagationStep(pulls, percepts, reflexes, delay);
        if bonus.Some? {
          var b := bonus.value;
          TallySnoc(bonuses, b, Eligibility);
          TallySnoc(bonuses, b, Delta);
          eligibles := Bump(eligibles, b.cell, b.eligibility);
          newIntensities := Bump(newIntensities, b.cell, b.delta);
          bonuses := bonuses + [b];
        }
        delay := delay + 1;
      }
    }

    /**
     * Adds to both maps, cell by cell, the bonus of an exogenous cause: the
     * given eligibility, and `gain` times the distance of the cell's
     * intensity to 1.
     */
    method AddExogenous(cells: seq<CellId>, eligibility: real, gain: real,
                        eligibles: map<CellId, real>, newIntensities: map<CellId, real>,
                        ghost v: View, ghost before: seq<Bonus>)
      returns (eligibles': map<CellId, real>, newIntensities': map<CellId, real>)
      requires v.intensities == intensities && forall k | 0 <= k < |cells| :: cells[k] in intensities
      requires eligibles == Tally(before, Eligibility) && newIntensities == Tally(before, Delta)
      ensures eligibles' == Tally(before + Exogenous(v, cells, eligibility, gain), Eligibility)
      ensures newIntensities' == Tally(before + Exogenous(v, cells, eligibility, gain), Delta)
    {
      eligibles', newIntensities' := eligibles, newIntensities;
      var k := 0;
      assert before + Exogenous(v, cells[..0], eligibility, gain) == before;
      while k < |cells|
        invariant 0 <= k <= |cells|
        invariant eligibles' == Tally(before + Exogenous(v, cells[..k], eligibility, gain), Eligibility)
        invariant newIntensities' == Tally(before + Exogenous(v, cells[..k], eligibility, gain), Delta)
      {
        var cell := cells[k];
        TallyExogenousSnoc(before, v, cells, k, eligibility, gain);
        eligibles' := Bump(eligibles', cell, eligibility);
        newIntensities' := Bump(newIntensities', cell, ExogenousPull(gain, intensities[cell]));
        k := k + 1;
      }
      assert cells[..k] == cells;
    }

    /**
     * The exogenous part of a tick: the recency bonus of the most recent
     * cell, then the percept bonuses, then the reflex bonuses.
     */
    method AddCauses(last: CellId, percepts: seq<CellId>, reflexes: seq<CellId>,
                     eligibles: map<CellId, real>, newIntensities: map<CellId, real>,
                     ghost v: View, ghost before: seq<Bonus>)
      returns (eligibles': map<CellId, real>, newIntensities': map<CellId, real>)
      requires v.intensities == intensities && last in intensities
      requires forall k | 0 <= k < |percepts| :: percepts[k] in intensities
      requires forall k | 0 <= k < |reflexes| :: reflexes[k] in intensities
      requires eligibles == Tally(before, Eligibility) && newIntensities == Tally(before, Delta)
      ensures var bs := before + Exogenous(v, [last], RECENCY_BONUS, RECENCY_BONUS)
                        + Exogenous(v, percepts, PERCEPT_BONUS, 1.0) + Exogenous(v, reflexes, REFLEX_BONUS, 1.0);
        eligibles' == Tally(bs, Eligibility) && newIntensities' == Tally(bs, Delta)
    {
      ghost var rec := Exogenous(v, [last], RECENCY_BONUS, RECENCY_BONUS);
      ghost var per := Exogenous(v, percepts, PERCEPT_BONUS, 1.0);
      eligibles', newIntensities' := AddExogenous([last], RECENCY_BONUS, RECENCY_BONUS, eligibles, newIntensities, v, before);
      eligibles', newIntensities' := AddExogenous(percepts, PERCEPT_BONUS, 1.0, eligibles', newIntensities', v, before + rec);
      eligibles', newIntensities' := AddExogenous(reflexes, REFLEX_BONUS, 1.0, eligibles', newIntensities', v, before + rec + per);
    }

    /**
     * The first half of a tick: the propagation bonuses, then the recency
     * bonus of the most recent cell, then the percept and reflex bonuses.
     * Returns the eligibility map and the pending intensities; nothing
     * changes.
     */
    method CollectBonuses(pulls: seq<nat>, percepts: seq<CellId>, reflexes: seq<CellId>)
      returns (eligibles: map<CellId, real>, newIntensities: map<CellId, real>)
      requires Valid() && Ready(Current(), activateds[..], pulls, percepts, reflexes)
      ensures eligibles == Eligibles(Current(), activateds[..], pulls, percepts, reflexes)
      ensures newIntensities == Pending(Current(), activateds[..], pulls, percepts, reflexes)
    {
      ghost var v := Current();
      ghost var history := activateds[..];
      ghost var prop := Propagated(v, history, pulls, percepts, reflexes, |history|);
      TickTallies(v, history, pulls, percepts, reflexes);
      eligibles, newIntensities := Propagate(pulls, percepts, reflexes);
      eligibles, newIntensities := AddCauses(activateds[activateds.Length - 1], percepts, reflexes,
                                              eligibles, newIntensities, v, prop);
    }

    /**
     * The last step of a tick: every pending cell not yet modified since
     * the last exogenous event takes its pending intensity and joins the
     * modified set.
     */
    method CommitIntensities(newIntensities: map<CellId, real>)
      requires Valid()
      modifies this
      ensures Valid()
      ensures intensities == Commit(old(intensities), newIntensities, old(modifieds))
      ensures modifieds == old(modifieds) + newIntensities.Keys
      ensures nbCells == old(nbCells) && activateds == old(activateds)
      ensures cellNumber == old(cellNumber) && cellAt == old(cellAt)
      ensures counts == old(counts) && times == old(times) && weights == old(weights)
      ensures Stored() == old(Stored())
    {
      intensities, modifieds := CommitPending(intensities, newIntensities, modifieds);
    }

    /**
     * Reinforces every history entry d towards `next` with delay d and the
     * correlation of the two cells.
     */
    method ReinforceTowards(next: CellId)
      requires Valid() && next in cellNumber && activateds.Length <= FIRE_TIME
      requires forall d | 0 <= d < activateds.Length :: activateds[d] in cellNumber
      modifies counts, times, weights
      ensures Valid()
      ensures Stored() == ReinforceHistory(old(Stored()), intensities, cellNumber, nbCells, activateds[..], next, activateds.Length)
    {
      ghost var before, history := Stored(), activateds[..];
      assert HistoryReady(before, intensities, cellNumber, nbCells, history, next);
      ghost var trace := HistoryTrace(before, intensities, cellNumber, nbCells, history, next);
      var delay := 0;
      while delay < activateds.Length
        invariant delay <= |history|
        invariant Valid() && activateds[..] == history
        invariant Stored() == trace[delay]
      {
        ReinforceEntry(next, delay, before, history, trace);
        delay := delay + 1;
      }
      TraceAt(trace, before, intensities, cellNumber, nbCells, history, next, |history|);
    }

    /** One iteration of `ReinforceTowards`: history entry `delay` is
        reinforced towards `next`, taking the store one step along the trace. */
    method ReinforceEntry(next: CellId, delay: nat, ghost before: SynapseStore, ghost history: seq<CellId>,
                          ghost trace: seq<SynapseStore>)
      requires Valid() && next in cellNumber && delay < activateds.Length <= FIRE_TIME
      requires activateds[..] == history && HistoryReady(before, intensities, cellNumber, nbCells, history, next)
      requires IsTrace(trace, before, intensities, cellNumber, nbCells, history, next)
      requires Stored() == trace[delay]
      modifies counts, times, weights
      ensures Valid()
      ensures Stored() == trace[delay + 1]
    {
      assert trace[delay] == ReinforceHistory(before, intensities, cellNumber, nbCells, history, next, delay);
      assert trace[delay + 1] == ReinforceHistory(before, intensities, cellNumber, nbCells, history, next, delay + 1);
      var activated := activateds[delay];
      assert activated == history[delay];
      Reinforce(activated, next, delay, Correlation(intensities, next, activated));
    }

    /**
     * The election of `next`: after an exogenous winner the modified set is
     * cleared and the history reinforced towards it; then `next` enters the
     * history.
     */
    method Elect(next: CellId, exogenous: bool)
      requires Valid() && next in cellNumber && 0 < activateds.Length <= FIRE_TIME
      requires forall d | 0 <= d < activateds.Length :: activateds[d] in cellNumber
      modifies this, counts, times, weights, activateds
      ensures Valid()
      ensures intensities == old(intensities) && nbCells == old(nbCells) && cellNumber == old(cellNumber) && cellAt == old(cellAt)
      ensures counts == old(counts) && times == old(times) && weights == old(weights) && activateds == old(activateds)
      ensures modifieds == if exogenous then {} else old(modifieds)
      ensures activateds[..] == Shift(old(activateds[..]), next)
      ensures forall d | 0 <= d < activateds.Length :: activateds[d] in cellNumber
      ensures exogenous ==>
        Stored() == ReinforceHistory(old(Stored()), intensities, cellNumber, nbCells, old(activateds[..]), next, activateds.Length)
      ensures !exogenous ==> Stored() == old(Stored())
    {
      if exogenous {
        modifieds := {};
        ReinforceTowards(next);
      }
      Enter(next);
    }

    /** `next` enters the history; every entry stays a numbered cell. */
    method Enter(next: CellId)
      requires next in cellNumber && 0 < activateds.Length
      requires forall d | 0 <= d < activateds.Length :: activateds[d] in cellNumber
      modifies activateds
      ensures activateds[..] == Shift(old(activateds[..]), next)
      ensures forall d | 0 <= d < activateds.Length :: activateds[d] in cellNumber
    {
      ghost var history := activateds[..];
      AddActivated(activateds, next);
      forall d | 0 <= d < activateds.Length ensures activateds[d] in cellNumber {
        ShiftProperties(history, next);
        assert activateds[d] == Shift(history, next)[d];
      }
    }

    /**
     * One tick. `pulls` stands for the draws on the propagation rows and
     * `winner` for the draw on the eligibility map, so it is one of its
     * candidates. When the winner is a reflex or a percept, the modified set
     * is cleared and every history entry d is reinforced towards it with
     * delay d and their correlation. The winner then enters the history, and
     * the pending intensities are committed.
     */
    method Update(pulls: seq<nat>, percepts: seq<CellId>, reflexes: seq<CellId>, winner: CellId)
      requires Valid() && Ready(Current(), activateds[..], pulls, percepts, reflexes)
      requires winner in Eligibles(Current(), activateds[..], pulls, percepts, reflexes)
      requires winner in reflexes || winner in percepts ==> winner in cellNumber
      modifies this, counts, times, weights, activateds
      ensures Valid()
      ensures nbCells == old(nbCells) && cellNumber == old(cellNumber) && cellAt == old(cellAt)
      ensures counts == old(counts) && times == old(times) && weights == old(weights) && activateds == old(activateds)
      ensures activateds[..] == Shift(old(activateds[..]), winner)
      ensures forall d | 0 <= d < activateds.Length :: activateds[d] in cellNumber
      ensures winner in reflexes || winner in percepts ==>
        Stored() == ReinforceHistory(old(Stored()), old(intensities), cellNumber, nbCells, old(activateds[..]), winner, activateds.Length)
      ensures !(winner in reflexes || winner in percepts) ==> Stored() == old(Stored())
      ensures var cleared := if winner in reflexes || winner in percepts then {} else old(modifieds);
              var pending := old(Pending(Current(), activateds[..], pulls, percepts, reflexes));
              modifieds == cleared + pending.Keys && intensities == Commit(old(intensities), pending, cleared)
    {
      ghost var pending := Pending(Current(), activateds[..], pulls, percepts, reflexes);
      assert winner in cellNumber by {
        EligibleCells(Current(), activateds[..], pulls, percepts, reflexes);
      }
      assert forall d | 0 <= d < activateds.Length :: activateds[d] in cellNumber by {
        assert forall d | 0 <= d < activateds.Length :: activateds[..][d] == activateds[d];
      }
      var eligibles, newIntensities := CollectBonuses(pulls, percepts, reflexes);
      var next := PullDict(eligibles, winner).value;
      Settle(next, next in reflexes || next in percepts, newIntensities);
    }

    /**
     * The end of a tick: `next` is elected as `Elect` says, then the pending
     * intensities are committed over the modified set it leaves.
     */
    method Settle(next: CellId, exogenous: bool, pending: map<CellId, real>)
      requires Valid() && next in cellNumber && 0 < activateds.Length <= FIRE_TIME
      requires forall d | 0 <= d < activateds.Length :: activateds[d] in cellNumber
      modifies this, counts, times, weights, activateds
      ensures Valid()
      ensures nbCells == old(nbCells) && cellNumber == old(cellNumber) && cellAt == old(cellAt)
      ensures counts == old(counts) && times == old(times) && weights == old(weights) && activateds == old(activateds)
      ensures activateds[..] == Shift(old(activateds[..]), next)
      ensures forall d | 0 <= d < activateds.Length :: activateds[d] in cellNumber
      ensures exogenous ==>
        Stored() == ReinforceHistory(old(Stored()), old(intensities), cellNumber, nbCells, old(activateds[..]), next, activateds.Length)
      ensures !exogenous ==> Stored() == old(Stored())
      ensures var cleared := if exogenous then {} else old(modifieds);
              modifieds == cleared + pending.Keys && intensities == Commit(old(intensities), pending, cleared)
    {
      Elect(next, exogenous);
      CommitIntensities(pending);
    }
  }
}
