/**
 * One tick of the network as values: the bonuses that build the
 * eligibility and pending-intensity maps, the commit of pending
 * intensities, and the reinforcement of every history entry towards an
 * exogenous winner.
 *
 * Readings chosen where the source's names do not resolve:
 * - the index pulled from a row of weights stands for the cell numbered
 *   with it, and the bonus goes to that cell; an index that numbers no cell
 *   gives no bonus;
 * - every intensity pull uses the current intensity of the cell that
 *   receives the bonus;
 * - the recency bonus goes to the most recently activated cell (the last
 *   entry of the history), once;
 * - a percept or reflex bonus is keyed by that percept or reflex.
 */
module Tick {

  import opened Optional
  import opened CellIndex
  import opened Activation
  import opened Synapses

  const RECENCY_BONUS: real := 0.5
  const PERCEPT_BONUS: real := 1.0
  const REFLEX_BONUS: real := 10.0

  /** What one source of activation adds for `cell`: to its eligibility,
      and to its pending intensity. */
  datatype Bonus = Bonus(cell: CellId, eligibility: real, delta: real)

  datatype Measure = Eligibility | Delta

  function Amount(b: Bonus, m: Measure): real
  {
    match m
    case Eligibility => b.eligibility
    case Delta => b.delta
  }

  /** `setdefault(cell, 0)` followed by `+= x`. */
  function Bump(t: map<CellId, real>, cell: CellId, x: real): map<CellId, real>
  {
    t[cell := (if cell in t then t[cell] else 0.0) + x]
  }

  /** The map built by bumping, in order, for every bonus. */
  function Tally(bs: seq<Bonus>, m: Measure): map<CellId, real>
  {
    if bs == [] then map[]
    else Bump(Tally(bs[..|bs| - 1], m), bs[|bs| - 1].cell, Amount(bs[|bs| - 1], m))
  }

  /** Independent reading of a tally: the sum of the amounts given to `c`. */
  function AmountFor(bs: seq<Bonus>, c: CellId, m: Measure): real
  {
    Sum(seq(|bs|, k requires 0 <= k < |bs| => if bs[k].cell == c then Amount(bs[k], m) else 0.0))
  }

  lemma TallySnoc(bs: seq<Bonus>, b: Bonus, m: Measure)
    ensures Tally(bs + [b], m) == Bump(Tally(bs, m), b.cell, Amount(b, m))
  {
    assert (bs + [b])[..|bs|] == bs;
  }

  /** A tally has an entry for exactly the cells that received a bonus. */
  lemma {:induction false} TallyKeys(bs: seq<Bonus>, m: Measure)
    ensures Tally(bs, m).Keys == set b | b in bs :: b.cell
  {
    if bs != [] {
      var init := bs[..|bs| - 1];
      TallyKeys(init, m);
      assert bs == init + [bs[|bs| - 1]];
      assert (set b | b in bs :: b.cell) == (set b | b in init :: b.cell) + {bs[|bs| - 1].cell};
    }
  }

  /** A tally holds, for each cell, the sum of the amounts it received. */
  lemma {:induction false} TallyIsSum(bs: seq<Bonus>, c: CellId, m: Measure)
    requires c in Tally(bs, m)
    ensures Tally(bs, m)[c] == AmountFor(bs, c, m)
  {
    var init := bs[..|bs| - 1];
    var last := bs[|bs| - 1];
    var f := seq(|bs|, k requires 0 <= k < |bs| => if bs[k].cell == c then Amount(bs[k], m) else 0.0);
    assert f[..|bs| - 1] == seq(|init|, k requires 0 <= k < |init| => if init[k].cell == c then Amount(init[k], m) else 0.0);
    if c in Tally(init, m) {
      TallyIsSum(init, c, m);
    } else {
      TallyKeys(init, m);
      AmountForAbsent(init, c, m);
    }
  }

  lemma {:induction false} AmountForAbsent(bs: seq<Bonus>, c: CellId, m: Measure)
    requires forall k | 0 <= k < |bs| :: bs[k].cell != c
    ensures AmountFor(bs, c, m) == 0.0
  {
    if bs != [] {
      var init := bs[..|bs| - 1];
      var f := seq(|bs|, k requires 0 <= k < |bs| => if bs[k].cell == c then Amount(bs[k], m) else 0.0);
      assert f[..|bs| - 1] == seq(|init|, k requires 0 <= k < |init| => if init[k].cell == c then Amount(init[k], m) else 0.0);
      AmountForAbsent(init, c, m);
    }
  }

  /** With no negative amounts, a cell's tally is at least any one amount it
      received. */
  lemma {:induction false} TallyAtLeast(bs: seq<Bonus>, m: Measure, k: nat)
    requires k < |bs|
    requires forall i | 0 <= i < |bs| :: Amount(bs[i], m) >= 0.0
    ensures bs[k].cell in Tally(bs, m) && Tally(bs, m)[bs[k].cell] >= Amount(bs[k], m)
  {
    var init := bs[..|bs| - 1];
    var last := bs[|bs| - 1];
    var c := bs[k].cell;
    if k == |bs| - 1 {
      if c in Tally(init, m) {
        TallyNonNegative(init, m, c);
      }
    } else {
      TallyAtLeast(init, m, k);
    }
  }

  lemma {:induction false} TallyNonNegative(bs: seq<Bonus>, m: Measure, c: CellId)
    requires forall i | 0 <= i < |bs| :: Amount(bs[i], m) >= 0.0
    requires c in Tally(bs, m)
    ensures Tally(bs, m)[c] >= 0.0
  {
    var init := bs[..|bs| - 1];
    if c in Tally(init, m) {
      TallyNonNegative(init, m, c);
    }
  }

  /** What a tick reads of the network. */
  datatype View = View(intensities: map<CellId, real>, number: map<CellId, nat>, cellAt: map<nat, CellId>,
                       size: nat, weights: Tensor)

  /** What a tick demands: a well-formed network, a non-empty history of
      numbered cells no longer than the weights tensor, one pulled index per
      history entry, and percepts and reflexes that have an intensity (a
      number is needed only by a percept or reflex that wins the draw). */
  ghost predicate Ready(v: View, history: seq<CellId>, pulls: seq<nat>, percepts: seq<CellId>, reflexes: seq<CellId>)
  {
    && IndexValid(v.number, v.cellAt, v.size)
    && v.number.Keys <= v.intensities.Keys
    && IsCube(v.weights, FIRE_TIME, v.size)
    && 0 < |history| <= FIRE_TIME
    && |pulls| == |history|
    && (forall d | 0 <= d < |history| :: history[d] in v.number)
    && (forall d | 0 <= d < |pulls| :: v.size == 0 || pulls[d] < v.size)
    && (forall k | 0 <= k < |percepts| :: percepts[k] in v.intensities)
    && (forall k | 0 <= k < |reflexes| :: reflexes[k] in v.intensities)
  }

  /** A weight scaled by the intensity of the cell it leaves. */
  function Scaled(intensity: real, weight: real): real
  {
    intensity * weight
  }

  /** The intensity pull of a propagated strength s: s - |s| * intensity. */
  function PropagationPull(strength: real, intensity: real): real
  {
    strength - Abs(strength) * intensity
  }

  /** The intensity pull of an exogenous cause: gain * (1 - intensity). */
  function ExogenousPull(gain: real, intensity: real): real
  {
    gain * (1.0 - intensity)
  }

  /** The row of candidate strengths of history entry `d`: the weights of
      slice `d` from the entry's cell, scaled by its intensity. */
  function CandidateRow(v: View, history: seq<CellId>, pulls: seq<nat>, percepts: seq<CellId>, reflexes: seq<CellId>, d: nat): (r: seq<real>)
    requires Ready(v, history, pulls, percepts, reflexes) && d < |history|
    ensures |r| == v.size
  {
    var a := history[d];
    seq(v.size, k requires 0 <= k < v.size => Scaled(v.intensities[a], v.weights[d][v.number[a]][k]))
  }

  /** The bonus of history entry `d`: its pulled target gains the magnitude
      of the pulled strength s, and an intensity pull s - |s| * intensity. */
  function PropagationBonus(v: View, history: seq<CellId>, pulls: seq<nat>, percepts: seq<CellId>, reflexes: seq<CellId>, d: nat): (r: Option<Bonus>)
    requires Ready(v, history, pulls, percepts, reflexes) && d < |history|
    ensures r.Some? ==> r.value.cell in v.number
  {
    match PullList(CandidateRow(v, history, pulls, percepts, reflexes, d), pulls[d])
    case None => None
    case Some((target, strength)) =>
      if target in v.cellAt then
        var c := v.cellAt[target];
        Some(Bonus(c, Abs(strength), PropagationPull(strength, v.intensities[c])))
      else None
  }

  /** The propagation bonuses of the first `k` history entries. */
  function Propagated(v: View, history: seq<CellId>, pulls: seq<nat>, percepts: seq<CellId>, reflexes: seq<CellId>, k: nat): (r: seq<Bonus>)
    requires Ready(v, history, pulls, percepts, reflexes) && k <= |history|
    ensures forall i | 0 <= i < |r| :: r[i].cell in v.number && r[i].eligibility >= 0.0
  {
    if k == 0 then []
    else
      Propagated(v, history, pulls, percepts, reflexes, k - 1)
      + match PropagationBonus(v, history, pulls, percepts, reflexes, k - 1)
        case None => []
        case Some(b) => [b]
  }

  /** A fixed eligibility bonus and a pull of `gain * (1 - intensity)`
      towards +1, for each of `cells`. */
  function Exogenous(v: View, cells: seq<CellId>, eligibility: real, gain: real): (r: seq<Bonus>)
    requires forall k | 0 <= k < |cells| :: cells[k] in v.intensities
    ensures |r| == |cells|
    ensures forall k | 0 <= k < |r| :: r[k].cell == cells[k] && r[k].eligibility == eligibility
  {
    seq(|cells|, k requires 0 <= k < |cells| => Bonus(cells[k], eligibility, ExogenousPull(gain, v.intensities[cells[k]])))
  }

  /** All bonuses of a tick, in the order the source adds them: propagation,
      recency, perception, reflexes. */
  function TickBonuses(v: View, history: seq<CellId>, pulls: seq<nat>, percepts: seq<CellId>, reflexes: seq<CellId>): seq<Bonus>
    requires Ready(v, history, pulls, percepts, reflexes)
  {
    Propagated(v, history, pulls, percepts, reflexes, |history|)
    + Exogenous(v, [history[|history| - 1]], RECENCY_BONUS, RECENCY_BONUS)
    + Exogenous(v, percepts, PERCEPT_BONUS, 1.0)
    + Exogenous(v, reflexes, REFLEX_BONUS, 1.0)
  }

  /** The candidates of the winner draw. */
  ghost function Eligibles(v: View, history: seq<CellId>, pulls: seq<nat>, percepts: seq<CellId>, reflexes: seq<CellId>): map<CellId, real>
    requires Ready(v, history, pulls, percepts, reflexes)
  {
    Tally(TickBonuses(v, history, pulls, percepts, reflexes), Eligibility)
  }

  /** The pending intensities of a tick. */
  ghost function Pending(v: View, history: seq<CellId>, pulls: seq<nat>, percepts: seq<CellId>, reflexes: seq<CellId>): map<CellId, real>
    requires Ready(v, history, pulls, percepts, reflexes)
  {
    Tally(TickBonuses(v, history, pulls, percepts, reflexes), Delta)
  }

  /** The tallies of a tick, by part. */
  lemma TickTallies(v: View, history: seq<CellId>, pulls: seq<nat>, percepts: seq<CellId>, reflexes: seq<CellId>)
    requires Ready(v, history, pulls, percepts, reflexes)
    ensures forall k | 0 <= k < |percepts| :: percepts[k] in v.intensities
    ensures forall k | 0 <= k < |reflexes| :: reflexes[k] in v.intensities
    ensures history[|history| - 1] in v.intensities
    ensures var bs := Propagated(v, history, pulls, percepts, reflexes, |history|)
                      + Exogenous(v, [history[|history| - 1]], RECENCY_BONUS, RECENCY_BONUS)
                      + Exogenous(v, percepts, PERCEPT_BONUS, 1.0)
                      + Exogenous(v, reflexes, REFLEX_BONUS, 1.0);
      Eligibles(v, history, pulls, percepts, reflexes) == Tally(bs, Eligibility)
      && Pending(v, history, pulls, percepts, reflexes) == Tally(bs, Delta)
  {
  }

  /** The cells that receive a bonus. */
  ghost function Cells(bs: seq<Bonus>): set<CellId>
  {
    set b | b in bs :: b.cell
  }

  lemma CellsConcat(xs: seq<Bonus>, ys: seq<Bonus>)
    ensures Cells(xs + ys) == Cells(xs) + Cells(ys)
  {
    forall c | c in Cells(xs + ys) ensures c in Cells(xs) + Cells(ys) {
      var b :| b in xs + ys && b.cell == c;
      assert b in xs || b in ys;
    }
    forall c | c in Cells(xs) + Cells(ys) ensures c in Cells(xs + ys) {
      if c in Cells(xs) {
        var b :| b in xs && b.cell == c;
        assert b in xs + ys;
      } else {
        var b :| b in ys && b.cell == c;
        assert b in xs + ys;
      }
    }
  }

  lemma CellsExogenous(v: View, cells: seq<CellId>, eligibility: real, gain: real)
    requires forall k | 0 <= k < |cells| :: cells[k] in v.intensities
    ensures Cells(Exogenous(v, cells, eligibility, gain)) == set c | c in cells
  {
    var bs := Exogenous(v, cells, eligibility, gain);
    forall c | c in cells ensures c in Cells(bs) {
      var k :| 0 <= k < |cells| && cells[k] == c;
      assert bs[k] in bs;
    }
  }

  /** The candidates of the draw are exactly the propagation targets, the
      most recent cell, the percepts and the reflexes; all have an intensity,
      and all but the percepts and reflexes are numbered. */
  lemma EligibleCells(v: View, history: seq<CellId>, pulls: seq<nat>, percepts: seq<CellId>, reflexes: seq<CellId>)
    requires Ready(v, history, pulls, percepts, reflexes)
    ensures var e := Eligibles(v, history, pulls, percepts, reflexes);
      && e.Keys == Cells(Propagated(v, history, pulls, percepts, reflexes, |history|))
                   + {history[|history| - 1]} + (set p | p in percepts) + (set r | r in reflexes)
      && e.Keys <= v.intensities.Keys
      && forall c | c in e && c !in percepts && c !in reflexes :: c in v.number
  {
    TickCells(v, history, pulls, percepts, reflexes);
    TallyKeys(TickBonuses(v, history, pulls, percepts, reflexes), Eligibility);
    assert Cells(Propagated(v, history, pulls, percepts, reflexes, |history|)) <= v.number.Keys;
    ElementsValued(percepts, v.intensities);
    ElementsValued(reflexes, v.intensities);
  }

  lemma ElementsValued(cells: seq<CellId>, intensities: map<CellId, real>)
    requires forall k | 0 <= k < |cells| :: cells[k] in intensities
    ensures (set c | c in cells) <= intensities.Keys
  {
  }

  /** The cells that receive a bonus during a tick. */
  lemma TickCells(v: View, history: seq<CellId>, pulls: seq<nat>, percepts: seq<CellId>, reflexes: seq<CellId>)
    requires Ready(v, history, pulls, percepts, reflexes)
    ensures Cells(TickBonuses(v, history, pulls, percepts, reflexes))
         == Cells(Propagated(v, history, pulls, percepts, reflexes, |history|))
            + {history[|history| - 1]} + (set p | p in percepts) + (set r | r in reflexes)
  {
    var prop := Propagated(v, history, pulls, percepts, reflexes, |history|);
    var rec := Exogenous(v, [history[|history| - 1]], RECENCY_BONUS, RECENCY_BONUS);
    var per := Exogenous(v, percepts, PERCEPT_BONUS, 1.0);
    var ref := Exogenous(v, reflexes, REFLEX_BONUS, 1.0);
    assert TickBonuses(v, history, pulls, percepts, reflexes) == prop + rec + per + ref;
    CellsConcat(prop + rec + per, ref);
    CellsConcat(prop + rec, per);
    CellsConcat(prop, rec);
    assert Cells(rec) == {history[|history| - 1]} by {
      assert rec == [rec[0]];
    }
    CellsExogenous(v, percepts, PERCEPT_BONUS, 1.0);
    CellsExogenous(v, reflexes, REFLEX_BONUS, 1.0);
  }

  /** Every candidate has a non-negative eligibility; the most recent cell
      has at least 0.5, every percept at least 1 and every reflex at least 10. */
  lemma EligibleLowerBounds(v: View, history: seq<CellId>, pulls: seq<nat>, percepts: seq<CellId>, reflexes: seq<CellId>)
    requires Ready(v, history, pulls, percepts, reflexes)
    ensures var e := Eligibles(v, history, pulls, percepts, reflexes);
      && history[|history| - 1] in e && e[history[|history| - 1]] >= RECENCY_BONUS
      && (forall k | 0 <= k < |percepts| :: percepts[k] in e && e[percepts[k]] >= PERCEPT_BONUS)
      && (forall k | 0 <= k < |reflexes| :: reflexes[k] in e && e[reflexes[k]] >= REFLEX_BONUS)
      && (forall c | c in e :: e[c] >= 0.0)
  {
    TickTallies(v, history, pulls, percepts, reflexes);
    var prop := Propagated(v, history, pulls, percepts, reflexes, |history|);
    var rec := Exogenous(v, [history[|history| - 1]], RECENCY_BONUS, RECENCY_BONUS);
    var per := Exogenous(v, percepts, PERCEPT_BONUS, 1.0);
    var ref := Exogenous(v, reflexes, REFLEX_BONUS, 1.0);
    TallyOfParts(prop, rec, per, ref, Eligibility);
    assert rec[0].cell == history[|history| - 1];
  }

  /** In a tally of four runs of bonuses with no negative amount, every
      amount is a lower bound of its cell's entry, and no entry is negative. */
  lemma TallyOfParts(a: seq<Bonus>, b: seq<Bonus>, c: seq<Bonus>, d: seq<Bonus>, m: Measure)
    requires forall i | 0 <= i < |a| :: Amount(a[i], m) >= 0.0
    requires forall i | 0 <= i < |b| :: Amount(b[i], m) >= 0.0
    requires forall i | 0 <= i < |c| :: Amount(c[i], m) >= 0.0
    requires forall i | 0 <= i < |d| :: Amount(d[i], m) >= 0.0
    ensures var t := Tally(a + b + c + d, m);
      && (forall k | 0 <= k < |b| :: b[k].cell in t && t[b[k].cell] >= Amount(b[k], m))
      && (forall k | 0 <= k < |c| :: c[k].cell in t && t[c[k].cell] >= Amount(c[k], m))
      && (forall k | 0 <= k < |d| :: d[k].cell in t && t[d[k].cell] >= Amount(d[k], m))
      && (forall x | x in t :: t[x] >= 0.0)
  {
    var bs := a + b + c + d;
    assert forall i | 0 <= i < |bs| :: Amount(bs[i], m) >= 0.0 by {
      forall i | 0 <= i < |bs| ensures Amount(bs[i], m) >= 0.0 {
        if i < |a| { assert bs[i] == a[i]; }
        else if i < |a| + |b| { assert bs[i] == b[i - |a|]; }
        else if i < |a| + |b| + |c| { assert bs[i] == c[i - |a| - |b|]; }
        else { assert bs[i] == d[i - |a| - |b| - |c|]; }
      }
    }
    forall k | 0 <= k < |b| ensures b[k].cell in Tally(bs, m) && Tally(bs, m)[b[k].cell] >= Amount(b[k], m) {
      assert bs[|a| + k] == b[k];
      TallyAtLeast(bs, m, |a| + k);
    }
    forall k | 0 <= k < |c| ensures c[k].cell in Tally(bs, m) && Tally(bs, m)[c[k].cell] >= Amount(c[k], m) {
      assert bs[|a| + |b| + k] == c[k];
      TallyAtLeast(bs, m, |a| + |b| + k);
    }
    forall k | 0 <= k < |d| ensures d[k].cell in Tally(bs, m) && Tally(bs, m)[d[k].cell] >= Amount(d[k], m) {
      assert bs[|a| + |b| + |c| + k] == d[k];
      TallyAtLeast(bs, m, |a| + |b| + |c| + k);
    }
    forall x | x in Tally(bs, m) ensures Tally(bs, m)[x] >= 0.0 {
      TallyNonNegative(bs, m, x);
    }
  }

  /**
   * Intensities after a commit: every pending cell not yet modified takes
   * its pending value; every other cell keeps its intensity.
   */
  function Commit(intensities: map<CellId, real>, pending: map<CellId, real>, modified: set<CellId>): (r: map<CellId, real>)
    ensures r.Keys == intensities.Keys + (pending.Keys - modified)
    ensures forall c | c in pending && c !in modified :: r[c] == pending[c]
    ensures forall c | c in intensities && (c in modified || c !in pending) :: r[c] == intensities[c]
  {
    map c | c in intensities.Keys + (pending.Keys - modified) ::
      if c in pending && c !in modified then pending[c] else intensities[c]
  }

  /** The commit does not keep intensities in [-1, 1]: a percept whose
      intensity is -1/2 has pending value 3/2, which is committed as is. */
  lemma CommittedPerceptCanLeaveUnitRange()
    ensures var v := View(map["p" := -0.5], map[], map[], 0, []);
      var bs := Exogenous(v, ["p"], PERCEPT_BONUS, 1.0);
      Commit(v.intensities, Tally(bs, Delta), {})["p"] == 1.5
  {
    var v := View(map["p" := -0.5], map[], map[], 0, []);
    var bs := Exogenous(v, ["p"], PERCEPT_BONUS, 1.0);
    assert bs == [Bonus("p", 1.0, 1.5)];
    assert bs[..0] == [];
  }

  /** The correlation of two cells: the product of their intensities. */
  function Correlation(intensities: map<CellId, real>, c1: CellId, c2: CellId): real
    requires c1 in intensities && c2 in intensities
  {
    intensities[c1] * intensities[c2]
  }

  /** Every numbered cell has a number below `size` and an intensity. */
  ghost predicate Numbered(number: map<CellId, nat>, intensities: map<CellId, real>, size: nat)
  {
    forall c | c in number :: number[c] < size && c in intensities
  }

  /** Every history entry is a numbered cell. */
  ghost predicate AllNumbered(history: seq<CellId>, number: map<CellId, nat>)
  {
    forall d | 0 <= d < |history| :: history[d] in number
  }

  /** What reinforcing a history towards `winner` demands: a store of side
      `size`, a history no longer than the weights tensor, and numbered cells. */
  ghost predicate HistoryReady(s: SynapseStore, intensities: map<CellId, real>, number: map<CellId, nat>, size: nat,
                               history: seq<CellId>, winner: CellId)
  {
    && Shaped(s, size) && |history| <= FIRE_TIME
    && Numbered(number, intensities, size) && winner in number && AllNumbered(history, number)
  }

  /** The store after reinforcing every one of the first `k` history
      entries towards `winner`, entry d with delay d and correlation
      intensity(winner) * intensity(entry). */
  function ReinforceHistory(s: SynapseStore, intensities: map<CellId, real>, number: map<CellId, nat>, size: nat,
                            history: seq<CellId>, winner: CellId, k: nat): (r: SynapseStore)
    requires HistoryReady(s, intensities, number, size, history, winner) && k <= |history|
    ensures Shaped(r, size)
  {
    if k == 0 then s
    else
      ReinforceStep(ReinforceHistory(s, intensities, number, size, history, winner, k - 1),
                    size, number[history[k - 1]], number[winner], k - 1, Correlation(intensities, winner, history[k - 1]))
  }

  /** `trace[k]` is the store after the first k reinforcements. The
      quantifier only fires on a `ReinforceHistory` term, so a trace can be
      passed around without unfolding the reinforcement. */
  ghost predicate IsTrace(trace: seq<SynapseStore>, s: SynapseStore, intensities: map<CellId, real>,
                          number: map<CellId, nat>, size: nat, history: seq<CellId>, winner: CellId)
    requires HistoryReady(s, intensities, number, size, history, winner)
  {
    && |trace| == |history| + 1
    && forall k {:trigger ReinforceHistory(s, intensities, number, size, history, winner, k)} | 0 <= k <= |history| ::
         trace[k] == ReinforceHistory(s, intensities, number, size, history, winner, k)
  }

  /** The trace of reinforcing a history, starting from `s`. */
  lemma HistoryTrace(s: SynapseStore, intensities: map<CellId, real>, number: map<CellId, nat>, size: nat,
                     history: seq<CellId>, winner: CellId) returns (trace: seq<SynapseStore>)
    requires HistoryReady(s, intensities, number, size, history, winner)
    ensures IsTrace(trace, s, intensities, number, size, history, winner) && trace[0] == s
  {
    trace := seq(|history| + 1, k requires 0 <= k <= |history| => ReinforceHistory(s, intensities, number, size, history, winner, k));
  }

  /** One point of a trace. */
  lemma TraceAt(trace: seq<SynapseStore>, s: SynapseStore, intensities: map<CellId, real>, number: map<CellId, nat>,
                size: nat, history: seq<CellId>, winner: CellId, k: nat)
    requires HistoryReady(s, intensities, number, size, history, winner) && k <= |history|
    requires IsTrace(trace, s, intensities, number, size, history, winner)
    ensures trace[k] == ReinforceHistory(s, intensities, number, size, history, winner, k)
  {
  }

  /** With intensities in [-1, 1], reinforcing the whole history keeps every
      weight in [-1, 1]. */
  lemma {:induction false} ReinforceHistoryKeepsWeightsInUnitRange(s: SynapseStore, intensities: map<CellId, real>,
      number: map<CellId, nat>, size: nat, history: seq<CellId>, winner: CellId, k: nat)
    requires HistoryReady(s, intensities, number, size, history, winner) && k <= |history|
    requires forall c | c in intensities :: -1.0 <= intensities[c] <= 1.0
    requires InUnitRange(s.weights)
    ensures InUnitRange(ReinforceHistory(s, intensities, number, size, history, winner, k).weights)
  {
    if k > 0 {
      var a := history[k - 1];
      ReinforceHistoryKeepsWeightsInUnitRange(s, intensities, number, size, history, winner, k - 1);
      var prev := ReinforceHistory(s, intensities, number, size, history, winner, k - 1);
      ProductInUnitRange(intensities[winner], intensities[a]);
      ReinforceKeepsWeightsInUnitRange(prev, size, number[a], number[winner], k - 1, Correlation(intensities, winner, a));
    }
  }

}
