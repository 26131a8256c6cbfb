/** The order of VM groups: a position per group, and the reordering of all of them by name. */
module Groups {

  /** One pass over the ordered names; a name that is no group is skipped. */
  function Reordered(positions: map<string, int>, names: seq<string>): (r: map<string, int>)
    ensures r.Keys == positions.Keys
  {
    if names == [] then positions
    else
      var r, name := Reordered(positions, names[..|names| - 1]), names[|names| - 1];
      if name in r then r[name := |names| - 1] else r
  }

  /** `k` is the last place of a name. */
  predicate LastPlace(names: seq<string>, name: string, k: nat) {
    k < |names| && names[k] == name && forall j :: k < j < |names| ==> names[j] != name
  }

  /** The last place of a repeated name wins; a group that is not named keeps its position. */
  lemma {:induction false} LastPlaceWins(positions: map<string, int>, names: seq<string>, name: string)
    requires name in positions
    ensures name !in names ==> Reordered(positions, names)[name] == positions[name]
    ensures forall k: nat :: LastPlace(names, name, k) ==> Reordered(positions, names)[name] == k
  {
    if names != [] {
      var rest, last := names[..|names| - 1], names[|names| - 1];
      LastPlaceWins(positions, rest, name);
      forall k: nat | LastPlace(names, name, k)
        ensures Reordered(positions, names)[name] == k
      {
        if k < |rest| {
          assert LastPlace(rest, name, k);
        }
      }
      assert last in names && forall n :: n in rest ==> n in names;
    }
  }

  predicate Distinct(names: seq<string>) {
    forall i, j :: 0 <= i < j < |names| ==> names[i] != names[j]
  }

  /** All groups, once each. */
  ghost predicate Lists(positions: map<string, int>, names: seq<string>) {
    Distinct(names) && forall name :: name in names <==> name in positions
  }

  /** A listing in the order of the positions; ties may come in any order. */
  predicate SortedByPosition(positions: map<string, int>, names: seq<string>)
    requires forall name :: name in names ==> name in positions
  {
    forall i, j :: 0 <= i < j < |names| ==> positions[names[i]] <= positions[names[j]]
  }

  lemma PositionsArePlaces(positions: map<string, int>, names: seq<string>, i: nat)
    requires Lists(positions, names) && i < |names|
    ensures names[i] in positions && Reordered(positions, names)[names[i]] == i
  {
    assert names[i] in names;
    LastPlaceWins(positions, names, names[i]);
    assert LastPlace(names, names[i], i);
  }

  lemma SameLength(positions: map<string, int>, a: seq<string>, b: seq<string>)
    requires Lists(positions, a) && Lists(positions, b)
    ensures |a| == |b| == |positions|
  {
    DistinctSize(a);
    DistinctSize(b);
    assert (set n | n in a) == positions.Keys == (set n | n in b);
  }

  lemma {:induction false} DistinctSize(names: seq<string>)
    requires Distinct(names)
    ensures |set n | n in names| == |names|
  {
    if names != [] {
      var rest, last := names[..|names| - 1], names[|names| - 1];
      DistinctSize(rest);
      assert (set n | n in names) == (set n | n in rest) + {last};
      assert last !in rest;
    }
  }

  /**
   * After reordering by a permutation of all group names, any listing of the groups by position
   * is exactly that list.
   */
  lemma ReorderThenSort(positions: map<string, int>, names: seq<string>, listing: seq<string>)
    requires Lists(positions, names) && Lists(positions, listing)
    requires SortedByPosition(Reordered(positions, names), listing)
    ensures listing == names
  {
    SameLength(positions, names, listing);
    var r := Reordered(positions, names);
    forall i: nat | i < |listing|
      ensures 0 <= r[listing[i]] < |names| && names[r[listing[i]]] == listing[i]
    {
      assert listing[i] in listing;
      var k: nat :| k < |names| && names[k] == listing[i];
      PositionsArePlaces(positions, names, k);
    }
    forall i: nat | i < |listing|
      ensures r[listing[i]] >= i
    {
      AtLeastPlace(r, names, listing, i);
    }
    forall i: nat | i < |listing|
      ensures r[listing[i]] <= i
    {
      AtMostPlace(r, names, listing, i);
    }
  }

  /** Positions that strictly increase along a listing are at least the places. */
  lemma {:induction false} AtLeastPlace(r: map<string, int>, names: seq<string>, listing: seq<string>, i: nat)
    requires Distinct(listing) && i < |listing| && forall name :: name in listing ==> name in r
    requires SortedByPosition(r, listing)
    requires forall j: nat :: j < |listing| ==> 0 <= r[listing[j]] < |names| && names[r[listing[j]]] == listing[j]
    ensures r[listing[i]] >= i
  {
    if i > 0 {
      AtLeastPlace(r, names, listing, i - 1);
      assert listing[i - 1] != listing[i];
    }
  }

  lemma {:induction false} AtMostPlace(r: map<string, int>, names: seq<string>, listing: seq<string>, i: nat)
    requires Distinct(listing) && i < |listing| == |names| && forall name :: name in listing ==> name in r
    requires SortedByPosition(r, listing)
    requires forall j: nat :: j < |listing| ==> 0 <= r[listing[j]] < |names| && names[r[listing[j]]] == listing[j]
    ensures r[listing[i]] <= i
    decreases |listing| - i
  {
    if i + 1 < |listing| {
      AtMostPlace(r, names, listing, i + 1);
      assert listing[i] != listing[i + 1];
    }
  }

  class Table {
    var positions: map<string, int>

    constructor (positions: map<string, int>)
      ensures this.positions == positions
    {
      this.positions := positions;
    }

    method Reorder(names: seq<string>)
      modifies this
      ensures positions == Reordered(old(positions), names)
    {
      var idx := 0;
      while idx < |names|
        invariant 0 <= idx <= |names|
        invariant positions == Reordered(old(positions), names[..idx])
      {
        assert names[..idx + 1][..idx] == names[..idx];
        if names[idx] in positions {
          positions := positions[names[idx] := idx];
        }
        idx := idx + 1;
      }
      assert names[..idx] == names;
    }
  }
}
