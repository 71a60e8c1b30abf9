/**
 * The module-level helpers of the network: the two selectors that pull a
 * winner from a distribution, and the shift of the activation history.
 *
 * The selectors sort their candidates with a randomised comparator and
 * keep the first; which candidate comes first is left open here. The
 * caller passes the choice in, and the contract says only that it is one
 * of the candidates.
 */
module Activation {

  import opened Optional
  import opened CellIndex

  /** Pulls an index from a list of strengths: none when the list is empty,
      otherwise an index of the list together with the strength stored there. */
  function PullList(distribution: seq<real>, choice: nat): (r: Option<(nat, real)>)
    requires distribution != [] ==> choice < |distribution|
    ensures r.None? <==> distribution == []
    ensures r.Some? ==> r.value.0 == choice && r.value.0 < |distribution| && r.value.1 == distribution[r.value.0]
  {
    if distribution != [] then Some((choice, distribution[choice])) else None
  }

  /** Pulls a key from a map of strengths: none when the map is empty,
      otherwise one of its keys. */
  function PullDict(distribution: map<CellId, real>, choice: CellId): (r: Option<CellId>)
    requires distribution != map[] ==> choice in distribution
    ensures r.None? <==> distribution == map[]
    ensures r.Some? ==> r.value == choice && r.value in distribution
  {
    if distribution != map[] then Some(choice) else None
  }

  /** The history after `cell` is activated: everything moves one place
      towards the front, the oldest entry drops out, `cell` comes last. */
  ghost function Shift(history: seq<CellId>, cell: CellId): seq<CellId>
    requires history != []
  {
    history[1..] + [cell]
  }

  /** The shift keeps the length, moves each entry down by one, puts the new
      cell last, and loses exactly one occurrence of the oldest entry. */
  lemma ShiftProperties(history: seq<CellId>, cell: CellId)
    requires history != []
    ensures |Shift(history, cell)| == |history|
    ensures forall i | 0 <= i < |history| - 1 :: Shift(history, cell)[i] == history[i + 1]
    ensures Shift(history, cell)[|history| - 1] == cell
    ensures multiset(Shift(history, cell)) == multiset(history) - multiset{history[0]} + multiset{cell}
  {
    assert history == [history[0]] + history[1..];
    assert multiset(history) == multiset{history[0]} + multiset(history[1..]);
  }

  /** Shifts the history held in `activated` in place and stores `cell` in
      its last slot. */
  method AddActivated(activated: array<CellId>, cell: CellId)
    requires activated.Length > 0
    modifies activated
    ensures activated[..] == Shift(old(activated[..]), cell)
  {
    var i := 0;
    while i < activated.Length - 1
      invariant 0 <= i <= activated.Length - 1
      invariant forall k | 0 <= k < i :: activated[k] == old(activated[k + 1])
      invariant forall k | i <= k < activated.Length :: activated[k] == old(activated[k])
    {
      activated[i] := activated[i + 1];
      i := i + 1;
    }
    activated[activated.Length - 1] := cell;
  }
}
