/**
 * The cell table of the hebbian network: opaque cell identifiers, the
 * numbering that places each cell in the matrices, and the intensity map.
 * The source keeps the numbering in a bidirectional dictionary; here it is
 * two maps kept mutually inverse.
 */
module CellIndex {

  /** A cell names a concept; the source uses strings. */
  type CellId = string

  /** `number` and `cellAt` are inverse maps and every number indexes a
      row of matrices of side `size`. */
  ghost predicate IndexValid(number: map<CellId, nat>, cellAt: map<nat, CellId>, size: nat)
  {
    && (forall c | c in number :: number[c] < size && number[c] in cellAt && cellAt[number[c]] == c)
    && (forall k | k in cellAt :: cellAt[k] in number && number[cellAt[k]] == k)
  }

  /** The cells of `ids` that `known` does not number yet. */
  ghost function NewIds(ids: seq<CellId>, known: map<CellId, nat>): set<CellId>
  {
    (set c | c in ids) - known.Keys
  }

  /**
   * The numbering loop of bulk growth: every id not yet numbered receives
   * the counter, which then goes up by one. Returns the new table and the
   * final counter.
   */
  function NumberCells(ids: seq<CellId>, known: map<CellId, nat>, next: nat): (map<CellId, nat>, nat)
  {
    if ids == [] then (known, next)
    else
      var (m, k) := NumberCells(ids[..|ids| - 1], known, next);
      var x := ids[|ids| - 1];
      if x in m then (m, k) else (m[x := k], k + 1)
  }

  /** Numbering keeps every existing number, numbers exactly the ids given,
      and never lowers the counter. */
  lemma {:induction false} NumberCellsKeepsKnown(ids: seq<CellId>, known: map<CellId, nat>, next: nat)
    ensures NumberCells(ids, known, next).0.Keys == known.Keys + (set c | c in ids)
    ensures forall c | c in known :: NumberCells(ids, known, next).0[c] == known[c]
    ensures NumberCells(ids, known, next).1 >= next
  {
    if ids != [] {
      var init := ids[..|ids| - 1];
      NumberCellsKeepsKnown(init, known, next);
      assert ids == init + [ids[|ids| - 1]];
    }
  }

  /** New ids receive distinct numbers in [next, final counter). */
  lemma {:induction false} NumberCellsFresh(ids: seq<CellId>, known: map<CellId, nat>, next: nat)
    ensures var r := NumberCells(ids, known, next);
      && (forall c | c in r.0 && c !in known :: next <= r.0[c] < r.1)
      && (forall c, d | c in r.0 && d in r.0 && c !in known && d !in known && c != d :: r.0[c] != r.0[d])
  {
    if ids != [] {
      var init := ids[..|ids| - 1];
      var x := ids[|ids| - 1];
      NumberCellsFresh(init, known, next);
      NumberCellsKeepsKnown(init, known, next);
      var r := NumberCells(init, known, next);
      var r' := NumberCells(ids, known, next);
      if x !in r.0 {
        assert r'.0 == r.0[x := r.1] && r'.1 == r.1 + 1;
        forall c | c in r'.0 && c !in known ensures next <= r'.0[c] < r'.1 {
          if c != x { assert c in r.0; }
        }
        forall c, d | c in r'.0 && d in r'.0 && c !in known && d !in known && c != d
          ensures r'.0[c] != r'.0[d]
        {
          if c == x { assert d in r.0; } else if d == x { assert c in r.0; } else { assert c in r.0 && d in r.0; }
        }
      }
    }
  }

  /** The counter advances by exactly the number of new ids. */
  lemma {:induction false} NumberCellsCount(ids: seq<CellId>, known: map<CellId, nat>, next: nat)
    ensures NumberCells(ids, known, next).1 == next + |NewIds(ids, known)|
  {
    if ids != [] {
      var init := ids[..|ids| - 1];
      var x := ids[|ids| - 1];
      assert ids == init + [x];
      NumberCellsCount(init, known, next);
      var r := NumberCells(init, known, next);
      assert NumberCells(ids, known, next).1 == if x in r.0 then r.1 else r.1 + 1;
      assert x in r.0 <==> x in known || x in init by {
        NumberCellsKeepsKnown(init, known, next);
        assert x in (set c | c in init) <==> x in init;
      }
      NewIdsSnoc(init, x, known);
    }
  }

  lemma NewIdsSnoc(init: seq<CellId>, x: CellId, known: map<CellId, nat>)
    ensures x in known || x in init ==> NewIds(init + [x], known) == NewIds(init, known)
    ensures x !in known && x !in init ==> |NewIds(init + [x], known)| == |NewIds(init, known)| + 1
  {
    ElementsSnoc(init, x);
    if x in known || x in init {
      assert NewIds(init + [x], known) == NewIds(init, known);
    } else {
      assert NewIds(init + [x], known) == NewIds(init, known) + {x};
    }
  }

  lemma ElementsSnoc(init: seq<CellId>, x: CellId)
    ensures (set c | c in init + [x]) == (set c | c in init) + {x}
  {
    forall c | c in init + [x] ensures c in init || c == x {
      var k :| 0 <= k < |init| + 1 && (init + [x])[k] == c;
      if k < |init| { assert init[k] == c; }
    }
  }

  /** New ids are numbered in the order of their first appearance. */
  lemma {:induction false} NumberCellsOrdered(ids: seq<CellId>, known: map<CellId, nat>, next: nat)
    ensures var m := NumberCells(ids, known, next).0;
      forall p, q | 0 <= p < q < |ids| && ids[p] !in known && ids[q] !in known && ids[q] !in ids[..q] ::
        ids[p] in m && ids[q] in m && m[ids[p]] < m[ids[q]]
  {
    if ids != [] {
      var init := ids[..|ids| - 1];
      var x := ids[|ids| - 1];
      NumberCellsOrdered(init, known, next);
      NumberCellsKeepsKnown(init, known, next);
      NumberCellsFresh(init, known, next);
      NumberCellsKeepsKnown(ids, known, next);
      var r := NumberCells(init, known, next);
      var m' := NumberCells(ids, known, next).0;
      forall p, q | 0 <= p < q < |ids| && ids[p] !in known && ids[q] !in known && ids[q] !in ids[..q]
        ensures ids[p] in m' && ids[q] in m' && m'[ids[p]] < m'[ids[q]]
      {
        assert ids[p] == init[p];
        assert ids[p] in r.0;
        if q < |ids| - 1 {
          assert ids[q] == init[q];
          assert ids[..q] == init[..q];
          assert r.0[ids[p]] < r.0[ids[q]];
          if x !in r.0 {
            assert ids[p] != x && ids[q] != x;
          }
        } else {
          assert ids[..q] == init;
          assert x !in r.0;
          assert m' == r.0[x := r.1];
        }
      }
    }
  }

  /** `setdefault(id, 0)` over every id given, in turn. */
  function WithDefaults(intensities: map<CellId, real>, ids: seq<CellId>): map<CellId, real>
  {
    if ids == [] then intensities
    else
      var m := WithDefaults(intensities, ids[..|ids| - 1]);
      var x := ids[|ids| - 1];
      if x in m then m else m[x := 0.0]
  }

  /** Numbering and defaulting one more id. */
  lemma NumberingSnoc(ids: seq<CellId>, i: nat, intensities: map<CellId, real>, known: map<CellId, nat>, next: nat)
    requires i < |ids|
    ensures var r := NumberCells(ids[..i], known, next);
      NumberCells(ids[..i + 1], known, next) == if ids[i] in r.0 then r else (r.0[ids[i] := r.1], r.1 + 1)
    ensures var m := WithDefaults(intensities, ids[..i]);
      WithDefaults(intensities, ids[..i + 1]) == if ids[i] in m then m else m[ids[i] := 0.0]
  {
    assert ids[..i + 1][..i] == ids[..i];
  }

  /** Every id ends up with an intensity, new ones at 0, old ones unchanged. */
  lemma {:induction false} WithDefaultsGivesEveryIdAnIntensity(intensities: map<CellId, real>, ids: seq<CellId>)
    ensures WithDefaults(intensities, ids).Keys == intensities.Keys + (set c | c in ids)
    ensures forall c | c in intensities :: WithDefaults(intensities, ids)[c] == intensities[c]
    ensures forall c | c in WithDefaults(intensities, ids) && c !in intensities :: WithDefaults(intensities, ids)[c] == 0.0
  {
    if ids != [] {
      var init := ids[..|ids| - 1];
      WithDefaultsGivesEveryIdAnIntensity(intensities, init);
      assert ids == init + [ids[|ids| - 1]];
    }
  }
}
