/** Counting removed and new alignment units of equal magnitude, one partner each. */
module Matching {
  import opened Sequences
  import opened Units
  import opened Evidence

  /** The magnitudes of the changed units with this status. */
  function Offsets(units: seq<UnitDelta>, status: string): seq<int> {
    Map((u: UnitDelta) => Abs(u.delta), Filter((u: UnitDelta) => u.status == status && u.delta != 0, units))
  }

  lemma IntersectionGrows(r: multiset<int>, a: multiset<int>, x: int)
    ensures |(r + multiset{x}) * a| == |r * a| + if r[x] < a[x] then 1 else 0
  {
    assert (r + multiset{x}) * a == r * a + if r[x] < a[x] then multiset{x} else multiset{};
  }

  lemma RemainderShrinks(r: multiset<int>, a: multiset<int>, x: int)
    ensures a - (r + multiset{x}) == (a - r) - multiset{x}
    ensures x in a - r <==> r[x] < a[x]
  {}

  /** After these removed magnitudes: what is left of the new ones, and the pairs so far. */
  ghost predicate Matched(left: seq<int>, pairs: nat, seen: seq<int>, added: seq<int>) {
    && multiset(left) == multiset(added) - multiset(seen)
    && pairs == |multiset(seen) * multiset(added)|
  }

  lemma MatchedTake(left: seq<int>, pairs: nat, seen: seq<int>, added: seq<int>, k: nat)
    requires Matched(left, pairs, seen, added) && k < |left|
    ensures Matched(Without(left, k), pairs + 1, seen + [left[k]], added)
  {
    var x := left[k];
    var r, a, l := multiset(seen), multiset(added), multiset(left);
    WithoutElement(left, k);
    assert multiset(Without(left, k)) == l - multiset{x};
    assert x in l;
    RemainderShrinks(r, a, x);
    IntersectionGrows(r, a, x);
    assert multiset(seen + [x]) == r + multiset{x};
  }

  lemma MatchedSkip(left: seq<int>, pairs: nat, seen: seq<int>, added: seq<int>, x: int)
    requires Matched(left, pairs, seen, added) && x !in left
    ensures Matched(left, pairs, seen + [x], added)
  {
    var r, a, l := multiset(seen), multiset(added), multiset(left);
    assert x !in l;
    RemainderShrinks(r, a, x);
    IntersectionGrows(r, a, x);
    assert l - multiset{x} == l;
    assert multiset(seen + [x]) == r + multiset{x};
  }

  /** Give each removed magnitude the first equal one still left among the new. The count is
      the size of the multiset intersection, so neither order nor direction matters. */
  method MatchEqual(removed: seq<int>, added: seq<int>) returns (pairs: nat)
    ensures pairs == |multiset(removed) * multiset(added)|
  {
    pairs := 0;
    var left := added;
    for i := 0 to |removed|
      invariant Matched(left, pairs, removed[..i], added)
    {
      var x := removed[i];
      assert removed[..i + 1] == removed[..i] + [x];
      if x in left {
        var k := PositionOf(left, x);
        MatchedTake(left, pairs, removed[..i], added, k);
        left := Without(left, k);
        pairs := pairs + 1;
      } else {
        MatchedSkip(left, pairs, removed[..i], added, x);
      }
    }
    assert removed[..|removed|] == removed;
  }

  // ------------------------------------------------------------- maximum pairings

  /** Positions paired off, equal magnitudes only, no position used twice. */
  ghost predicate IsPairing(m: seq<(int, int)>, removed: seq<int>, added: seq<int>) {
    && (forall k :: 0 <= k < |m| ==>
          0 <= m[k].0 < |removed| && 0 <= m[k].1 < |added| && removed[m[k].0] == added[m[k].1])
    && (forall k, l :: 0 <= k < l < |m| ==> m[k].0 != m[l].0 && m[k].1 != m[l].1)
  }

  lemma MultisetSize(a: multiset<int>, b: multiset<int>)
    requires a <= b
    ensures |a| <= |b|
  {
    assert b == a + (b - a);
  }

  /** No pairing has more pairs than the loop counts. */
  lemma PairingBound(m: seq<(int, int)>, removed: seq<int>, added: seq<int>)
    requires IsPairing(m, removed, added)
    ensures |m| <= |multiset(removed) * multiset(added)|
  {
    var from, to := Map((p: (int, int)) => p.0, m), Map((p: (int, int)) => p.1, m);
    SelectionWithin(removed, from);
    SelectionWithin(added, to);
    assert Select(removed, from) == Select(added, to);
    MultisetSize(multiset(Select(removed, from)), multiset(removed) * multiset(added));
    assert |multiset(Select(removed, from))| == |m|;
  }

  function Shift(p: (int, int), j: int): (int, int) {
    (p.0, if p.1 < j then p.1 else p.1 + 1)
  }

  lemma IntersectionShares(r: multiset<int>, a: multiset<int>, x: int)
    requires x in a
    ensures |(r + multiset{x}) * a| == |r * (a - multiset{x})| + 1
  {
    assert (r + multiset{x}) * a == r * (a - multiset{x}) + multiset{x};
  }

  /** And some pairing has that many. */
  lemma {:induction false} PairingExists(removed: seq<int>, added: seq<int>)
    ensures exists m :: IsPairing(m, removed, added) && |m| == |multiset(removed) * multiset(added)|
  {
    if removed == [] {
      assert IsPairing([], removed, added);
    } else {
      var n := |removed| - 1;
      var rest, x := removed[..n], removed[n];
      assert removed == rest + [x];
      if x in added {
        var j := PositionOf(added, x);
        var others := Without(added, j);
        WithoutElement(added, j);
        PairingExists(rest, others);
        var m :| IsPairing(m, rest, others) && |m| == |multiset(rest) * multiset(others)|;
        IntersectionShares(multiset(rest), multiset(added), x);
        assert multiset(others) == multiset(added) - multiset{x};
        ShiftedPairing(m, removed, added, j);
      } else {
        PairingExists(rest, added);
        var m :| IsPairing(m, rest, added) && |m| == |multiset(rest) * multiset(added)|;
        IntersectionGrows(multiset(rest), multiset(added), x);
        assert IsPairing(m, removed, added);
      }
    }
  }

  lemma ShiftedPairing(m: seq<(int, int)>, removed: seq<int>, added: seq<int>, j: nat)
    requires removed != [] && j < |added| && added[j] == removed[|removed| - 1]
    requires IsPairing(m, removed[..|removed| - 1], Without(added, j))
    ensures IsPairing(Map((p: (int, int)) => Shift(p, j), m) + [(|removed| - 1, j)], removed, added)
  {
    var n := |removed| - 1;
    var shifted := Map((p: (int, int)) => Shift(p, j), m);
    forall k | 0 <= k < |m|
      ensures 0 <= shifted[k].0 < n && 0 <= shifted[k].1 < |added| && shifted[k].1 != j
      ensures removed[shifted[k].0] == added[shifted[k].1]
    {
      assert Without(added, j)[m[k].1] == added[shifted[k].1];
      assert removed[..n][m[k].0] == removed[m[k].0];
    }
  }

  // --------------------------------------------------------------- offsetting units

  /** A removed and a new unit whose changes are equal or opposite, and not zero. */
  predicate Offset(units: seq<UnitDelta>, i: int, j: int)
    requires 0 <= i < |units| && 0 <= j < |units|
  {
    && units[i].status == "REMOVED" && units[j].status == "NEW" && units[i].delta != 0
    && (units[i].delta == units[j].delta || units[i].delta == -units[j].delta)
  }

  /** Units paired off, a removed with a new one each, no unit used twice. */
  ghost predicate IsOffsetting(m: seq<(int, int)>, units: seq<UnitDelta>) {
    && (forall k :: 0 <= k < |m| ==>
          0 <= m[k].0 < |units| && 0 <= m[k].1 < |units| && Offset(units, m[k].0, m[k].1))
    && (forall k, l :: 0 <= k < l < |m| ==> m[k].0 != m[l].0 && m[k].1 != m[l].1)
  }

  function MagnitudeAt(units: seq<UnitDelta>): int -> int {
    (i: int) => if 0 <= i < |units| then Abs(units[i].delta) else 0
  }

  function ChangedAt(units: seq<UnitDelta>, status: string): int -> bool {
    (i: int) => 0 <= i < |units| && units[i].status == status && units[i].delta != 0
  }

  function ChangedPlaces(units: seq<UnitDelta>, status: string): seq<int> {
    Filter(ChangedAt(units, status), Indices(|units|))
  }

  lemma PlacesFacts(units: seq<UnitDelta>, status: string)
    ensures Distinct(ChangedPlaces(units, status))
    ensures forall i :: i in ChangedPlaces(units, status) <==> ChangedAt(units, status)(i)
  {
    var all := Indices(|units|);
    FilterRises((i: int) => i, ChangedAt(units, status), all);
    FilterElements(ChangedAt(units, status), all);
    forall i ensures i in all <==> 0 <= i < |units| {
      assert 0 <= i < |units| ==> all[i] == i;
    }
  }

  lemma OffsetsAtPlaces(units: seq<UnitDelta>, status: string)
    ensures Offsets(units, status) == Map(MagnitudeAt(units), ChangedPlaces(units, status))
  {
    if units != [] {
      var at := (i: int) => units[if 0 <= i < |units| then i else 0];
      var p, changed := ChangedAt(units, status), (u: UnitDelta) => u.status == status && u.delta != 0;
      assert Map(at, Indices(|units|)) == units;
      FilterMap(at, changed, p, Indices(|units|));
      PlacesFacts(units, status);
      assert Filter(changed, units) == Map(at, ChangedPlaces(units, status));
      forall k | 0 <= k < |ChangedPlaces(units, status)|
        ensures MagnitudeAt(units)(ChangedPlaces(units, status)[k]) == Abs(at(ChangedPlaces(units, status)[k]).delta)
      {
        assert ChangedPlaces(units, status)[k] in ChangedPlaces(units, status);
      }
    }
  }

  /** Magnitudes at different places of changed units with one status are among its offsets. */
  lemma MagnitudesWithin(units: seq<UnitDelta>, status: string, places: seq<int>)
    requires Distinct(places) && forall k :: 0 <= k < |places| ==> ChangedAt(units, status)(places[k])
    ensures multiset(Map(MagnitudeAt(units), places)) <= multiset(Offsets(units, status))
  {
    var all := ChangedPlaces(units, status);
    PlacesFacts(units, status);
    OffsetsAtPlaces(units, status);
    var found := seq(|places|, k requires 0 <= k < |places| => PlaceAmong(all, places[k]));
    forall k | 0 <= k < |places| ensures places[k] in all && 0 <= found[k] < |all| && all[found[k]] == places[k] {}
    SelectionWithin(Map(MagnitudeAt(units), all), found);
    assert Select(Map(MagnitudeAt(units), all), found) == Map(MagnitudeAt(units), places);
  }

  function PlaceAmong(all: seq<int>, i: int): int {
    if i in all then PositionOf(all, i) else 0
  }

  /** No offsetting of units has more pairs than the two multisets of magnitudes share. */
  lemma OffsettingBound(m: seq<(int, int)>, units: seq<UnitDelta>)
    requires IsOffsetting(m, units)
    ensures |m| <= |multiset(Offsets(units, "REMOVED")) * multiset(Offsets(units, "NEW"))|
  {
    var from, to := Map((p: (int, int)) => p.0, m), Map((p: (int, int)) => p.1, m);
    forall k | 0 <= k < |m| ensures ChangedAt(units, "REMOVED")(from[k]) && ChangedAt(units, "NEW")(to[k]) {
      assert Offset(units, m[k].0, m[k].1);
    }
    MagnitudesWithin(units, "REMOVED", from);
    MagnitudesWithin(units, "NEW", to);
    var shared := Map(MagnitudeAt(units), from);
    forall k | 0 <= k < |m| ensures shared[k] == MagnitudeAt(units)(to[k]) {
      assert Offset(units, m[k].0, m[k].1);
    }
    assert shared == Map(MagnitudeAt(units), to);
    MultisetSize(multiset(shared), multiset(Offsets(units, "REMOVED")) * multiset(Offsets(units, "NEW")));
    assert |multiset(shared)| == |m|;
  }

  lemma OffsetAt(units: seq<UnitDelta>, status: string, k: nat)
    requires k < |Offsets(units, status)|
    ensures k < |ChangedPlaces(units, status)| && ChangedAt(units, status)(ChangedPlaces(units, status)[k])
    ensures Offsets(units, status)[k] == Abs(units[ChangedPlaces(units, status)[k]].delta)
  {
    OffsetsAtPlaces(units, status);
    PlacesFacts(units, status);
    assert ChangedPlaces(units, status)[k] in ChangedPlaces(units, status);
  }

  lemma PairedUnits(n: seq<(int, int)>, units: seq<UnitDelta>) returns (m: seq<(int, int)>)
    requires IsPairing(n, Offsets(units, "REMOVED"), Offsets(units, "NEW"))
    ensures IsOffsetting(m, units) && |m| == |n|
  {
    var R, A := ChangedPlaces(units, "REMOVED"), ChangedPlaces(units, "NEW");
    forall k | 0 <= k < |n|
      ensures 0 <= n[k].0 < |R| && 0 <= n[k].1 < |A|
      ensures 0 <= R[n[k].0] < |units| && 0 <= A[n[k].1] < |units| && Offset(units, R[n[k].0], A[n[k].1])
    {
      OffsetAt(units, "REMOVED", n[k].0);
      OffsetAt(units, "NEW", n[k].1);
    }
    PlacesFacts(units, "REMOVED");
    PlacesFacts(units, "NEW");
    m := seq(|n|, k requires 0 <= k < |n| => (R[n[k].0], A[n[k].1]));
  }

  /** And some offsetting has that many. */
  lemma OffsettingExists(units: seq<UnitDelta>) returns (m: seq<(int, int)>)
    ensures IsOffsetting(m, units)
    ensures |m| == |multiset(Offsets(units, "REMOVED")) * multiset(Offsets(units, "NEW"))|
  {
    var r, a := Offsets(units, "REMOVED"), Offsets(units, "NEW");
    PairingExists(r, a);
    var n: seq<(int, int)> :| IsPairing(n, r, a) && |n| == |multiset(r) * multiset(a)|;
    m := PairedUnits(n, units);
  }

  /** The largest number of pairs of a removed and a new unit whose changes offset each other, no unit
      used twice. */
  method CountOffsetting(units: seq<UnitDelta>) returns (pairs: nat)
    ensures forall m :: IsOffsetting(m, units) ==> |m| <= pairs
    ensures exists m :: IsOffsetting(m, units) && |m| == pairs
    ensures pairs == |multiset(Offsets(units, "REMOVED")) * multiset(Offsets(units, "NEW"))|
  {
    pairs := MatchEqual(Offsets(units, "REMOVED"), Offsets(units, "NEW"));
    ghost var best := OffsettingExists(units);
    forall m | IsOffsetting(m, units) ensures |m| <= pairs {
      OffsettingBound(m, units);
    }
  }
}
