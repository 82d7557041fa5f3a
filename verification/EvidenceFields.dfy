/** What each reported statistic says about the list of unit changes itself. */
module EvidenceFields {
  import opened Sequences
  import opened Sums
  import opened Hits
  import opened Units
  import opened Evidence
  import opened EvidenceBounds

  function SizeOf(x: int): int {
    if x < 0 then -x else x
  }

  /** The sizes of the changes that keep selects, all others counting zero. */
  function Sizes(deltas: seq<int>, keep: int -> bool): seq<int> {
    seq(|deltas|, i requires 0 <= i < |deltas| => if keep(deltas[i]) then SizeOf(deltas[i]) else 0)
  }

  function AllSizes(deltas: seq<int>): seq<int> {
    seq(|deltas|, i requires 0 <= i < |deltas| => SizeOf(deltas[i]))
  }

  /** The number of changes that keep selects. */
  function CountOf(deltas: seq<int>, keep: int -> bool): nat {
    |set i | 0 <= i < |deltas| && keep(deltas[i])|
  }

  function Changed(): int -> bool {
    (x: int) => x != 0
  }

  /** A change that points the same way as s, where s is not zero. */
  function Along(s: int): int -> bool {
    (x: int) => x * s > 0
  }

  function Against(s: int): int -> bool {
    (x: int) => x * s < 0
  }

  function Squares(deltas: seq<int>): seq<int> {
    seq(|deltas|, i requires 0 <= i < |deltas| => deltas[i] * deltas[i])
  }

  // ----------------------------------------------------------- sums over all deltas

  lemma CountStep(rest: seq<int>, x: int, keep: int -> bool)
    ensures CountOf(rest + [x], keep) == CountOf(rest, keep) + if keep(x) then 1 else 0
  {
    var deltas, n := rest + [x], |rest|;
    assert forall i :: 0 <= i < n ==> deltas[i] == rest[i];
    assert (set i | 0 <= i < |deltas| && keep(deltas[i]))
        == (set i | 0 <= i < n && keep(rest[i])) + if keep(x) then {n} else {};
  }

  lemma SizesStep(rest: seq<int>, x: int, keep: int -> bool)
    ensures Sum(Sizes(rest + [x], keep)) == Sum(Sizes(rest, keep)) + if keep(x) then SizeOf(x) else 0
  {
    assert Sizes(rest + [x], keep) == Sizes(rest, keep) + [if keep(x) then SizeOf(x) else 0];
    SumAppend(Sizes(rest, keep), if keep(x) then SizeOf(x) else 0);
  }

  lemma AllSizesStep(rest: seq<int>, x: int)
    ensures Sum(AllSizes(rest + [x])) == Sum(AllSizes(rest)) + SizeOf(x)
  {
    assert AllSizes(rest + [x]) == AllSizes(rest) + [SizeOf(x)];
    SumAppend(AllSizes(rest), SizeOf(x));
  }

  lemma SquaresStep(rest: seq<int>, x: int)
    ensures Sum(Squares(rest + [x])) == Sum(Squares(rest)) + x * x
  {
    assert Squares(rest + [x]) == Squares(rest) + [x * x];
    SumAppend(Squares(rest), x * x);
  }

  lemma SquaresAppend(d: seq<int>, x: int)
    ensures SumOfSquares(d + [x]) == SumOfSquares(d) + x * x
  {
    SumMapLast(Square, d + [x]);
    assert (d + [x])[..|d|] == d;
  }

  lemma {:induction false} ChangedSums(deltas: seq<int>)
    ensures Gross(NonZero(deltas)) == Sum(AllSizes(deltas))
    ensures |NonZero(deltas)| == CountOf(deltas, Changed())
  {
    if deltas != [] {
      var rest, x := deltas[..|deltas| - 1], deltas[|deltas| - 1];
      ChangedSums(rest);
      assert deltas == rest + [x];
      NonZeroStep(rest, x);
      GrossAppend(NonZero(rest), x);
      assert NonZero(rest) + [] == NonZero(rest);
      AllSizesStep(rest, x);
      CountStep(rest, x, Changed());
    }
  }

  lemma {:induction false} ChangedSquares(deltas: seq<int>)
    ensures SumOfSquares(NonZero(deltas)) == Sum(Squares(deltas))
  {
    if deltas != [] {
      var rest, x := deltas[..|deltas| - 1], deltas[|deltas| - 1];
      ChangedSquares(rest);
      assert deltas == rest + [x];
      NonZeroStep(rest, x);
      SquaresAppend(NonZero(rest), x);
      assert NonZero(rest) + [] == NonZero(rest);
      SquaresStep(rest, x);
    }
  }

  /** How many of the changes point along s, and how large they are together. */
  lemma {:induction false} PointingCounts(deltas: seq<int>, s: int)
    ensures |Pointing(NonZero(deltas), s)| == CountOf(deltas, Along(s))
    ensures Gross(Pointing(NonZero(deltas), s)) == Sum(Sizes(deltas, Along(s)))
  {
    if deltas != [] {
      var rest, x := deltas[..|deltas| - 1], deltas[|deltas| - 1];
      PointingCounts(rest, s);
      assert deltas == rest + [x];
      NonZeroStep(rest, x);
      if x != 0 {
        PointingGross(NonZero(rest), x, s);
      }
      assert NonZero(rest) + [] == NonZero(rest);
      SizesStep(rest, x, Along(s));
      CountStep(rest, x, Along(s));
    }
  }

  lemma SignDecides(x: int, net: int)
    ensures Along(Sign(net))(x) <==> Along(net)(x)
    ensures Along(-Sign(net))(x) <==> Against(net)(x)
  {
    var a, b := x as real, net as real;
    assert (x * net) as real == a * b;
    if x > 0 && net > 0 { ProductPositive(a, b); }
    if x > 0 && net < 0 { ProductPositive(a, -b); }
    if x < 0 && net > 0 { ProductPositive(-a, b); }
    if x < 0 && net < 0 { ProductPositive(-a, -b); }
  }

  lemma SameSelection(deltas: seq<int>, p: int -> bool, q: int -> bool)
    requires forall i :: 0 <= i < |deltas| ==> p(deltas[i]) == q(deltas[i])
    ensures CountOf(deltas, p) == CountOf(deltas, q) && Sizes(deltas, p) == Sizes(deltas, q)
  {
    var a, b := set i | 0 <= i < |deltas| && p(deltas[i]), set i | 0 <= i < |deltas| && q(deltas[i]);
    assert forall i :: i in a <==> i in b;
    assert a == b;
  }

  /** A unit supports the net change when its own change has the sign of the net, and opposes it when it
      has the other. Both are counted, in units and in hits, over the deltas as they were given. */
  lemma SupportCounts(deltas: seq<int>, sqrt: real -> real)
    ensures var e, net := Assess(deltas, sqrt), Sum(deltas);
      && e.sameUnits == CountOf(deltas, Along(net)) && e.oppUnits == CountOf(deltas, Against(net))
      && e.sameHits == Sum(Sizes(deltas, Along(net))) && e.oppHits == Sum(Sizes(deltas, Against(net)))
  {
    var net, s := Sum(deltas), Sign(Sum(deltas));
    NonZeroSum(deltas);
    PointingCounts(deltas, s);
    PointingCounts(deltas, -s);
    forall i | 0 <= i < |deltas|
      ensures Along(s)(deltas[i]) == Along(net)(deltas[i]) && Along(-s)(deltas[i]) == Against(net)(deltas[i])
    {
      SignDecides(deltas[i], net);
    }
    SameSelection(deltas, Along(s), Along(net));
    SameSelection(deltas, Along(-s), Against(net));
  }

  /** With no net change nothing supports or opposes it. */
  lemma NoNetNoSupport(deltas: seq<int>, sqrt: real -> real)
    requires Sum(deltas) == 0
    ensures var e := Assess(deltas, sqrt);
      e.sameUnits == 0 && e.oppUnits == 0 && e.sameHits == 0 && e.oppHits == 0
  {
    SupportCounts(deltas, sqrt);
    SelectNone(deltas, Along(0));
    SelectNone(deltas, Against(0));
  }

  lemma {:induction false} SelectNone(deltas: seq<int>, keep: int -> bool)
    requires forall x :: !keep(x)
    ensures CountOf(deltas, keep) == 0 && Sum(Sizes(deltas, keep)) == 0
  {
    if deltas != [] {
      var rest, x := deltas[..|deltas| - 1], deltas[|deltas| - 1];
      SelectNone(rest, keep);
      assert deltas == rest + [x];
      SizesStep(rest, x, keep);
      CountStep(rest, x, keep);
    }
  }

  // ------------------------------------------------------------------- the ratios

  lemma ShareTimes(part: int, whole: int)
    requires whole != 0
    ensures Share(part, whole) * whole as real == part as real
  {
    TimesBack(part as real, whole as real);
  }

  lemma TimesBack(a: real, b: real)
    requires b != 0.0
    ensures a / b * b == a
  {}

  lemma RootTimes(part: int, square: int, sqrt: real -> real)
    requires IsSqrt(sqrt) && square > 0
    ensures var q := OverNonZeroRoot(part, square, sqrt);
      && q * q * square as real == (part * part) as real
      && (q > 0.0 <==> part > 0) && (q < 0.0 <==> part < 0)
  {
    SquaredOverRoot(part, square, sqrt);
    TimesBack((part * part) as real, square as real);
    SqrtOf(sqrt, square as real);
    QuotientBounds(part as real, sqrt(square as real));
  }

  lemma LargestSize(deltas: seq<int>)
    ensures forall i :: 0 <= i < |deltas| ==> SizeOf(deltas[i]) <= Largest(Magnitudes(NonZero(deltas)))
    ensures NonZero(deltas) != [] ==>
      exists i :: 0 <= i < |deltas| && SizeOf(deltas[i]) == Largest(Magnitudes(NonZero(deltas)))
  {
    var d := NonZero(deltas);
    var m := Magnitudes(d);
    FilterElements((x: int) => x != 0, deltas);
    assert forall k :: 0 <= k < |d| ==> m[k] == Abs(d[k]);
    LargestBounds(m);
    forall i | 0 <= i < |deltas| ensures SizeOf(deltas[i]) <= Largest(m) {
      if deltas[i] != 0 {
        assert deltas[i] in d;
        var k :| 0 <= k < |d| && d[k] == deltas[i];
        assert m[k] <= Largest(m);
      }
    }
    if d != [] {
      NonZeroElements(deltas);
      assert m[0] > 0 && m[0] <= Largest(m);
      var k :| 0 <= k < |m| && m[k] == Largest(m);
      assert d[k] in d;
      var i :| 0 <= i < |deltas| && deltas[i] == d[k];
    }
  }

  /** The ratios of the net change, multiplied out by gross and by the sum of squares; breadth likewise. */
  ghost predicate RatiosOf(e: Evidence, net: int, gross: int, squares: int) {
    && e.net == net && e.gross == gross
    && e.eNg * gross as real == net as real
    && e.eL2 * e.eL2 * squares as real == (net * net) as real
    && (e.eL2 > 0.0 <==> net > 0) && (e.eL2 < 0.0 <==> net < 0)
    && e.nEff * squares as real == (gross * gross) as real
  }

  /** Change i is of the largest size, and top is its share of gross. */
  ghost predicate IsTop(top: real, gross: int, deltas: seq<int>, i: int) {
    && 0 <= i < |deltas| && top * gross as real == SizeOf(deltas[i]) as real
    && forall j :: 0 <= j < |deltas| ==> SizeOf(deltas[j]) <= SizeOf(deltas[i])
  }

  lemma TopIs(deltas: seq<int>, top: real, gross: int, most: int) returns (i: int)
    requires gross != 0 && top == Share(most, gross)
    requires forall j :: 0 <= j < |deltas| ==> SizeOf(deltas[j]) <= most
    requires exists j :: 0 <= j < |deltas| && SizeOf(deltas[j]) == most
    ensures IsTop(top, gross, deltas, i)
  {
    i :| 0 <= i < |deltas| && SizeOf(deltas[i]) == most;
    ShareTimes(most, gross);
  }

  lemma RatiosFrom(e: Evidence, net: int, gross: int, squares: int, sqrt: real -> real)
    requires IsSqrt(sqrt) && gross != 0 && squares > 0 && e.net == net && e.gross == gross
    requires e.eL2 == OverNonZeroRoot(net, squares, sqrt) && e.eNg == Share(net, gross)
    requires IsBreadth(e.nEff, gross, squares, sqrt)
    ensures RatiosOf(e, net, gross, squares)
  {
    ShareTimes(net, gross);
    RootTimes(net, squares, sqrt);
    RootTimes(gross, squares, sqrt);
  }

  lemma GrossAndSquares(d: seq<int>)
    requires d != [] && forall i :: 0 <= i < |d| ==> d[i] != 0
    ensures Gross(d) != 0 && SumOfSquares(d) > 0
  {
    SumsAreOrdered(d);
    assert d[0] != 0;
  }

  /** The reported statistics, read off the deltas as they were given: the changed units are counted; if
      there are any, the ratios are as multiplied out; if there are none, everything is zero. */
  lemma EvidenceMeans(deltas: seq<int>, sqrt: real -> real)
    requires IsSqrt(sqrt)
    ensures var e := Assess(deltas, sqrt);
      && e.units == CountOf(deltas, Changed())
      && (e.units > 0 ==>
            && RatiosOf(e, Sum(deltas), Sum(AllSizes(deltas)), Sum(Squares(deltas)))
            && exists i :: IsTop(e.top1, Sum(AllSizes(deltas)), deltas, i))
      && (e.units == 0 ==> e == Evidence(0, 0, 0, 0.0, 0.0, 0.0, 0.0, 0, 0, 0, 0))
  {
    var d, e := NonZero(deltas), Assess(deltas, sqrt);
    ChangedSums(deltas);
    ChangedSquares(deltas);
    if d != [] {
      NonZeroElements(deltas);
      NonZeroSum(deltas);
      GrossAndSquares(d);
      RatiosFrom(e, Sum(d), Gross(d), SumOfSquares(d), sqrt);
      LargestSize(deltas);
      var i := TopIs(deltas, e.top1, e.gross, Largest(Magnitudes(d)));
    } else {
      SqrtOf(sqrt, 0.0);
    }
  }

  // ---------------------------------------------------------------- the top three

  ghost predicate Among(u: seq<int>, t: seq<int>) {
    multiset(u) <= multiset(t)
  }

  /** Not negative, and never rising. */
  ghost predicate Falling(t: seq<int>) {
    NonIncreasing(t) && forall i :: 0 <= i < |t| ==> t[i] >= 0
  }

  lemma {:induction false} TopSum(t: seq<int>, u: seq<int>, k: nat)
    requires Falling(t) && Among(u, t) && |u| <= k
    ensures Sum(u) <= Sum(First(t, k))
    decreases |t|
  {
    if u == [] {
      SumNonNegative(First(t, k));
    } else {
      var j := PickOne(t, u);
      TopSum(t[1..], Without(u, j), k - 1);
      SumWithout(u, j);
      FirstStep(t, k);
    }
  }

  /** Something of u that is no larger than the top of t, and whose removal with that top leaves the rest
      of u among the rest of t. */
  lemma PickOne(t: seq<int>, u: seq<int>) returns (j: nat)
    requires Falling(t) && Among(u, t) && u != []
    ensures t != [] && Falling(t[1..])
    ensures j < |u| && u[j] <= t[0] && Among(Without(u, j), t[1..])
  {
    assert u[0] in multiset(u);
    assert u[0] in multiset(t);
    j := if t[0] in u then PositionOf(u, t[0]) else 0;
    WithinTail(t, u, j);
  }

  lemma WithinTail(t: seq<int>, u: seq<int>, j: nat)
    requires t != [] && Among(u, t) && j < |u| && NonIncreasing(t)
    requires t[0] in u ==> u[j] == t[0]
    ensures Among(Without(u, j), t[1..]) && u[j] <= t[0]
  {
    WithoutElement(u, j);
    HeadTail(t);
    assert u[j] in multiset(t);
    var l :| 0 <= l < |t| && t[l] == u[j];
    assert l > 0 ==> t[0] >= t[l];
    if t[0] !in u {
      assert multiset(u)[t[0]] == 0;
      assert multiset(u) <= multiset(t[1..]);
    }
  }

  lemma FirstStep(t: seq<int>, k: nat)
    requires t != [] && k > 0
    ensures Sum(First(t, k)) == t[0] + Sum(First(t[1..], k - 1))
  {
    SumWithout(First(t, k), 0);
    assert Without(First(t, k), 0) == First(t[1..], k - 1);
  }

  lemma {:induction false} SumNonNegative(s: seq<int>)
    requires forall i :: 0 <= i < |s| ==> s[i] >= 0
    ensures Sum(s) >= 0
  {
    if s != [] {
      SumNonNegative(s[..|s| - 1]);
    }
  }

  /** places are k different positions, or all of them if there are fewer. */
  predicate Picks(places: seq<int>, n: nat, k: nat) {
    && Distinct(places) && |places| == (if k < n then k else n)
    && forall l :: 0 <= l < |places| ==> 0 <= places[l] < n
  }

  /** The sum of the k largest is the most that k different positions hold. */
  lemma TopIsMost(m: seq<int>, places: seq<int>, k: nat)
    requires Picks(places, |m|, k) && forall i :: 0 <= i < |m| ==> m[i] >= 0
    ensures Held(m, places) <= Sum(First(Descending(m), k))
  {
    HeldIsSelected(m, places);
    DescendingFacts(m);
    SelectionWithin(m, places);
    forall i | 0 <= i < |m| ensures Descending(m)[i] >= 0 {
      assert Descending(m)[i] in multiset(m);
    }
    TopSum(Descending(m), Select(m, places), k);
  }

  /** And some k positions hold it. */
  lemma TopIsHeld(m: seq<int>, k: nat) returns (places: seq<int>)
    ensures Picks(places, |m|, k) && Held(m, places) == Sum(First(Descending(m), k))
  {
    var key := (i: int) => if 0 <= i < |m| then -m[i] as real else 0.0;
    var order := StableSort(key, Indices(|m|));
    StableSortSorts(key, Indices(|m|));
    SameLength(order, Indices(|m|));
    DistinctPermutation(Indices(|m|), order);
    forall l | 0 <= l < |order| ensures 0 <= order[l] < |m| {
      assert order[l] in multiset(Indices(|m|));
    }
    SelectSorted(m, order);
    places := if k < |m| then order[..k] else order;
    assert Select(m, places) == First(Descending(m), k);
    HeldIsSelected(m, places);
  }

  lemma SelectSorted(m: seq<int>, order: seq<int>)
    requires multiset(order) == multiset(Indices(|m|)) && |order| == |m|
    requires forall l :: 0 <= l < |order| ==> 0 <= order[l] < |m|
    requires SortedBy((i: int) => if 0 <= i < |m| then -m[i] as real else 0.0, order)
    ensures Select(m, order) == Descending(m)
  {
    var at := (i: int) => if 0 <= i < |m| then m[i] else 0;
    var key := (i: int) => if 0 <= i < |m| then -m[i] as real else 0.0;
    MapPermutation(at, order, Indices(|m|));
    assert Map(at, Indices(|m|)) == m;
    assert Map(at, order) == Select(m, order);
    DescendingFacts(m);
    forall i, j | 0 <= i < j < |order| ensures Select(m, order)[i] >= Select(m, order)[j] {
      assert key(order[i]) <= key(order[j]);
    }
    DescendingUnique(Select(m, order), Descending(m));
  }

  /** The top-three share is the largest share of gross that three of the changed units, or all of them if
      fewer changed, hold together. */
  lemma TopThreeShare(d: seq<int>, sqrt: real -> real)
    requires IsSqrt(sqrt) && Gross(d) != 0
    ensures var (top, m) := (Summarise(d, sqrt).top3Share * Gross(d) as real, AllSizes(d));
      && Gross(d) == Sum(m)
      && (forall places :: Picks(places, |d|, 3) ==> Held(m, places) as real <= top)
      && exists places :: Picks(places, |d|, 3) && Held(m, places) as real == top
  {
    var m := AllSizes(d);
    assert forall i :: 0 <= i < |d| ==> Magnitudes(d)[i] == Abs(d[i]);
    assert m == Magnitudes(d);
    TopThreeTimes(d, sqrt);
    forall places | Picks(places, |d|, 3) ensures Held(m, places) <= Sum(First(Descending(m), 3)) {
      TopIsMost(m, places, 3);
    }
    var places := TopIsHeld(m, 3);
    assert Held(m, places) == Sum(First(Descending(m), 3));
  }

  lemma TopThreeTimes(d: seq<int>, sqrt: real -> real)
    requires IsSqrt(sqrt) && Gross(d) != 0
    ensures Summarise(d, sqrt).top3Share * Gross(d) as real == Sum(First(Descending(Magnitudes(d)), 3)) as real
  {
    ShareTimes(Sum(First(Descending(Magnitudes(d)), 3)), Gross(d));
  }

  /** What the positions hold together; positions outside hold nothing. */
  function Held(m: seq<int>, places: seq<int>): int {
    Sum(seq(|places|, l requires 0 <= l < |places| => if 0 <= places[l] < |m| then m[places[l]] else 0))
  }

  lemma HeldIsSelected(m: seq<int>, places: seq<int>)
    requires forall l :: 0 <= l < |places| ==> 0 <= places[l] < |m|
    ensures Held(m, places) == Sum(Select(m, places))
  {
    assert seq(|places|, l requires 0 <= l < |places| => if 0 <= places[l] < |m| then m[places[l]] else 0)
        == Select(m, places);
  }

  /** With no changed unit every field is zero. */
  lemma NothingChanged(sqrt: real -> real)
    requires IsSqrt(sqrt)
    ensures Summarise([], sqrt) == Summary(0, 0, 0.0, 0.0, 0, 0.0, 0.0)
  {}
}
