/** The bounds and identities that tie the evidence statistics together. */
module EvidenceBounds {
  import opened Sequences
  import opened Sums
  import opened Hits
  import opened Units
  import opened Evidence

  // ------------------------------------------------------ sums of whole numbers

  predicate AllEqual(s: seq<int>) {
    forall i, j :: 0 <= i < j < |s| ==> s[i] == s[j]
  }

  /** n times the sum of squares, less the square of the sum. */
  function Spread(s: seq<int>): int {
    |s| * SumOfSquares(s) - Sum(s) * Sum(s)
  }

  function Distances(s: seq<int>, x: int): seq<int> {
    Map((y: int) => Square(x - y), s)
  }

  function DistanceForm(n: int, x: int, S: int, Q: int): int {
    n * (x * x) + Q - 2 * x * S
  }

  lemma DistanceStep(n: int, x: int, y: int, S: int, Q: int)
    ensures DistanceForm(n + 1, x, S + y, Q + Square(y)) == DistanceForm(n, x, S, Q) + Square(x - y)
  {}

  lemma {:induction false} DistancesSum(s: seq<int>, x: int)
    ensures Sum(Distances(s, x)) == DistanceForm(|s|, x, Sum(s), SumOfSquares(s))
  {
    if s != [] {
      var n := |s| - 1;
      DistancesSum(s[..n], x);
      SumMapLast((y: int) => Square(x - y), s);
      SumMapLast(Square, s);
      DistanceStep(n, x, s[n], Sum(s[..n]), SumOfSquares(s[..n]));
    }
  }

  lemma {:induction false} DistancesNonNegative(s: seq<int>, x: int)
    ensures Sum(Distances(s, x)) >= 0
    ensures Sum(Distances(s, x)) == 0 <==> forall i :: 0 <= i < |s| ==> s[i] == x
  {
    if s != [] {
      var n := |s| - 1;
      DistancesNonNegative(s[..n], x);
      SumMapLast((y: int) => Square(x - y), s);
      SquareIsPositive(x - s[n]);
      assert forall i :: 0 <= i < n ==> s[..n][i] == s[i];
    }
  }

  lemma SpreadStep(n: int, S: int, Q: int, x: int)
    ensures (n + 1) * (Q + Square(x)) - (S + x) * (S + x) == (n * Q - S * S) + DistanceForm(n, x, S, Q)
  {}

  /** The spread is never negative, and zero exactly on constant lists. */
  lemma {:induction false} SpreadNonNegative(s: seq<int>)
    ensures Spread(s) >= 0
    ensures Spread(s) == 0 <==> AllEqual(s)
  {
    if s != [] {
      var n := |s| - 1;
      var rest, x := s[..n], s[n];
      SpreadNonNegative(rest);
      DistancesSum(rest, x);
      DistancesNonNegative(rest, x);
      SumMapLast(Square, s);
      SpreadStep(n, Sum(rest), SumOfSquares(rest), x);
      assert forall i :: 0 <= i < n ==> rest[i] == s[i];
    }
  }

  lemma {:induction false} MagnitudeSquares(d: seq<int>)
    ensures SumOfSquares(Magnitudes(d)) == SumOfSquares(d)
  {
    if d != [] {
      var n := |d| - 1;
      MagnitudeSquares(d[..n]);
      SumMapLast(Square, d);
      SumMapLast(Square, Magnitudes(d));
      assert Magnitudes(d)[..n] == Magnitudes(d[..n]);
      assert Square(Abs(d[n])) == Square(d[n]);
    }
  }

  lemma SquareOfSumStep(n: int, S: int, Q: int, x: int, top: int)
    requires n >= 0 && S >= n && 1 <= x <= top && Q <= S * S && Q <= top * S
    ensures Q + Square(x) <= (S + x) * (S + x)
    ensures n >= 1 ==> Q + Square(x) < (S + x) * (S + x)
    ensures Q + Square(x) <= top * (S + x)
  {
    assert (S + x) * (S + x) == S * S + 2 * (S * x) + x * x;
    assert top * (S + x) == top * S + top * x;
    assert S * x >= 0 && (S >= 1 ==> S * x >= 1);
    assert x * x <= top * x;
  }

  /** For positive numbers: the square of the sum against the sum of squares, and
      the sum of squares against the largest times the sum. */
  lemma {:induction false} SquareOfSum(m: seq<int>, top: int)
    requires forall i :: 0 <= i < |m| ==> 1 <= m[i] <= top
    ensures Sum(m) >= |m|
    ensures SumOfSquares(m) <= Sum(m) * Sum(m)
    ensures |m| >= 2 ==> SumOfSquares(m) < Sum(m) * Sum(m)
    ensures SumOfSquares(m) <= top * Sum(m)
  {
    if m != [] {
      var n := |m| - 1;
      var S, x := Sum(m[..n]), m[n];
      assert forall i :: 0 <= i < n ==> m[..n][i] == m[i];
      SquareOfSum(m[..n], top);
      SumMapLast(Square, m);
      SquareOfSumStep(n, S, SumOfSquares(m[..n]), x, top);
    }
  }

  // ---------------------------------------------------------------- real quotients

  lemma RatioAgainst(a: real, b: real, c: real)
    requires b > 0.0
    ensures c <= a / b <==> c * b <= a
    ensures a / b <= c <==> a <= c * b
  {
    QuotientTimes(a, b);
    SignOfProduct(a / b - c, b);
    SignOfProduct(c - a / b, b);
    assert (a / b - c) * b == a - c * b;
    assert (c - a / b) * b == c * b - a;
  }

  /** The square of a quotient by a root is the quotient of the squares. */
  lemma SquaredOverRoot(p: int, ss: int, sqrt: real -> real)
    requires IsSqrt(sqrt) && ss > 0
    ensures var q := OverNonZeroRoot(p, ss, sqrt); q * q == (p * p) as real / ss as real
  {
    SqrtOf(sqrt, ss as real);
    SquaredQuotient(p as real, sqrt(ss as real), ss as real);
    assert (p * p) as real == p as real * p as real;
  }

  lemma SquaredQuotient(p: real, l: real, s: real)
    requires l > 0.0 && l * l == s && s > 0.0
    ensures (p / l) * (p / l) == p * p / s
  {
    var q := p / l;
    QuotientTimes(p, l);
    assert q * q * s == (q * l) * (q * l);
    QuotientOf(q * q, s, p * p);
  }

  lemma IntegerRatio(a: int, b: int, n: int)
    requires b > 0
    ensures n as real <= a as real / b as real <==> n * b <= a
    ensures a as real / b as real <= n as real <==> a <= n * b
  {
    RatioAgainst(a as real, b as real, n as real);
    assert (n * b) as real == n as real * b as real;
  }

  lemma ProductOfRatios(top: real, g: real, s: real)
    requires g > 0.0 && s > 0.0 && s <= top * g
    ensures g * g / s > 0.0
    ensures 1.0 / (g * g / s) <= top / g
  {
    ProductPositive(g, g);
    var n, t := g * g / s, top / g;
    QuotientTimes(g * g, s);
    QuotientTimes(top, g);
    QuotientBounds(g * g, s);
    assert t * n * s == t * (g * g) == top * g;
    SignOfProduct(t * n - 1.0, s);
    assert (t * n - 1.0) * s == top * g - s;
    RatioAgainst(1.0, n, t);
  }

  lemma ProductOfSquares(p: real, g: real, s: real)
    requires g > 0.0 && s > 0.0
    ensures p * p / s == (p / g) * (p / g) * (g * g / s)
  {
    var r, n := p / g, g * g / s;
    QuotientTimes(p, g);
    QuotientTimes(g * g, s);
    assert r * r * n * s == r * r * (g * g) == (r * g) * (r * g);
    QuotientOf(r * r * n, s, p * p);
  }

  // --------------------------------------------------------------- the statistics

  lemma NonZeroElements(deltas: seq<int>)
    ensures forall i :: 0 <= i < |NonZero(deltas)| ==> NonZero(deltas)[i] != 0
  {
    FilterElements((x: int) => x != 0, deltas);
    forall i | 0 <= i < |NonZero(deltas)| ensures NonZero(deltas)[i] != 0 {
      assert NonZero(deltas)[i] in NonZero(deltas);
    }
  }

  /** What the magnitudes of n changed units say about their sum g, sum of squares s and largest. */
  ghost predicate Magnified(n: int, g: int, s: int, top: int) {
    && 0 < s <= g * g <= n * s
    && 0 < top <= g
    && s <= top * g
  }

  /** A sum of n numbers against the sum of their squares. */
  ghost predicate Netted(n: int, p: int, g: int, s: int) {
    && p * p <= n * s
    && -g <= p <= g
  }

  /** All of the sum sits in one number. */
  predicate Concentrated(g: int, s: int) {
    g * g == s
  }

  /** The n numbers are all equal, as their sum p and sum of squares s show it. */
  predicate EvenlySpread(n: int, p: int, s: int) {
    p * p == n * s
  }

  lemma GrossBounds(m: seq<int>)
    requires m != [] && forall i :: 0 <= i < |m| ==> m[i] > 0
    ensures Magnified(|m|, Sum(m), SumOfSquares(m), Largest(m))
    ensures Concentrated(Sum(m), SumOfSquares(m)) <==> |m| == 1
    ensures EvenlySpread(|m|, Sum(m), SumOfSquares(m)) <==> AllEqual(m)
  {
    LargestBounds(m);
    LargestWithinSum(m);
    SpreadNonNegative(m);
    SquareOfSum(m, Largest(m));
    SumsAreOrdered(m);
    assert 0 < m[0] <= Largest(m);
    if |m| == 1 {
      assert m[..0] == [];
      SumMapLast(Square, m);
    }
  }

  lemma NetBounds(d: seq<int>)
    ensures Netted(|d|, Sum(d), Gross(d), SumOfSquares(d))
    ensures EvenlySpread(|d|, Sum(d), SumOfSquares(d)) <==> AllEqual(d)
  {
    SpreadNonNegative(d);
    SumsAreOrdered(d);
  }

  lemma WholeNumberBounds(d: seq<int>)
    requires d != [] && forall i :: 0 <= i < |d| ==> d[i] != 0
    ensures var n, g, s, top := |d|, Gross(d), SumOfSquares(d), Largest(Magnitudes(d));
      && Magnified(n, g, s, top)
      && (Concentrated(g, s) <==> n == 1)
      && (EvenlySpread(n, g, s) <==> AllEqual(Magnitudes(d)))
      && Netted(n, Sum(d), g, s)
      && (EvenlySpread(n, Sum(d), s) <==> AllEqual(d))
  {
    assert forall i :: 0 <= i < |d| ==> Magnitudes(d)[i] == Abs(d[i]);
    MagnitudeSquares(d);
    GrossBounds(Magnitudes(d));
    NetBounds(d);
  }

  lemma {:induction false} LargestWithinSum(m: seq<int>)
    requires forall i :: 0 <= i < |m| ==> m[i] >= 0
    ensures Largest(m) <= Sum(m) && 0 <= Sum(m)
  {
    if m != [] {
      var n := |m| - 1;
      assert forall i :: 0 <= i < n ==> m[..n][i] == m[i];
      LargestWithinSum(m[..n]);
      LargestBounds(m[..n]);
    }
  }

  /** Breadth runs from one (exactly for a single unit) to the number of units (exactly for
      equal magnitudes), and the top share is at least its inverse. */
  ghost predicate BreadthInRange(e: Evidence, single: bool, equal: bool) {
    && 1.0 <= e.nEff <= e.units as real
    && (e.nEff == 1.0 <==> single)
    && (e.nEff == e.units as real <==> equal)
    && 1.0 / e.nEff <= e.top1 <= 1.0
  }

  /** Consistency is a signed share; the net-to-root ratio is consistency times the root of
      breadth, sign included, and its square reaches the number of units exactly for equal changes. */
  ghost predicate NetInRange(e: Evidence, equal: bool, sqrt: real -> real) {
    && -1.0 <= e.eNg <= 1.0
    && e.eL2 == e.eNg * sqrt(e.nEff)
    && e.eL2 * e.eL2 == e.eNg * e.eNg * e.nEff
    && e.eL2 * e.eL2 <= e.units as real
    && (e.eL2 * e.eL2 == e.units as real <==> equal)
  }

  ghost predicate IsBreadth(b2: real, g: int, s: int, sqrt: real -> real) {
    b2 == OverNonZeroRoot(g, s, sqrt) * OverNonZeroRoot(g, s, sqrt)
  }

  lemma BreadthRange(b2: real, n: int, g: int, s: int)
    requires 0 < s <= g * g <= n * s && b2 == (g * g) as real / s as real
    ensures 1.0 <= b2 <= n as real
    ensures (b2 == 1.0 <==> Concentrated(g, s)) && (b2 == n as real <==> EvenlySpread(n, g, s))
  {
    IntegerRatio(g * g, s, 1);
    IntegerRatio(g * g, s, n);
  }

  lemma TopShareRange(b2: real, g: int, s: int, top: int)
    requires 0 < s <= top * g && 0 < top <= g && b2 == (g * g) as real / s as real && b2 != 0.0
    ensures 1.0 / b2 <= Share(top, g) <= 1.0
  {
    IntegerRatio(top, g, 1);
    assert (g * g) as real == g as real * g as real;
    assert (top * g) as real == top as real * g as real;
    ProductOfRatios(top as real, g as real, s as real);
  }

  lemma BreadthRatios(e: Evidence, g: int, s: int, top: int, sqrt: real -> real)
    requires IsSqrt(sqrt) && Magnified(e.units, g, s, top)
    requires IsBreadth(e.nEff, g, s, sqrt) && e.top1 == Share(top, g)
    ensures BreadthInRange(e, Concentrated(g, s), EvenlySpread(e.units, g, s))
  {
    SquaredOverRoot(g, s, sqrt);
    BreadthRange(e.nEff, e.units, g, s);
    TopShareRange(e.nEff, g, s, top);
  }

  lemma NetRange(z2: real, n: int, p: int, s: int)
    requires s > 0 && p * p <= n * s && z2 == (p * p) as real / s as real
    ensures z2 <= n as real
    ensures z2 == n as real <==> EvenlySpread(n, p, s)
  {
    IntegerRatio(p * p, s, n);
  }

  lemma NetIdentity(p: int, g: int, s: int)
    requires g > 0 && s > 0
    ensures (p * p) as real / s as real == Share(p, g) * Share(p, g) * ((g * g) as real / s as real)
  {
    assert (g * g) as real == g as real * g as real;
    assert (p * p) as real == p as real * p as real;
    ProductOfSquares(p as real, g as real, s as real);
  }

  lemma CancelMiddle(p: real, g: real, l: real)
    requires g > 0.0 && l > 0.0
    ensures p / l == p / g * (g / l)
  {
    QuotientTimes(p, g);
    QuotientTimes(g, l);
    assert p / g * (g / l) * l == p / g * (g / l * l);
    QuotientOf(p / g * (g / l), l, p);
  }

  /** The root of breadth is gross over the root of the squares, and so the net ratio keeps its sign. */
  lemma SignedIdentity(p: int, g: int, s: int, b2: real, sqrt: real -> real)
    requires IsSqrt(sqrt) && g > 0 && s > 0 && IsBreadth(b2, g, s, sqrt)
    ensures OverNonZeroRoot(p, s, sqrt) == Share(p, g) * sqrt(b2)
  {
    var l := sqrt(s as real);
    SqrtOf(sqrt, s as real);
    QuotientBounds(g as real, l);
    ProductNonNegative(g as real / l, g as real / l);
    SqrtOf(sqrt, b2);
    SqrtUnique(sqrt(b2), g as real / l);
    CancelMiddle(p as real, g as real, l);
  }

  lemma ShareRange(p: int, g: int)
    requires g > 0 && -g <= p <= g
    ensures -1.0 <= Share(p, g) <= 1.0
  {
    IntegerRatio(p, g, 1);
    IntegerRatio(p, g, -1);
  }

  lemma NetRatios(e: Evidence, p: int, g: int, s: int, sqrt: real -> real)
    requires IsSqrt(sqrt) && g > 0 && s > 0 && Netted(e.units, p, g, s)
    requires IsBreadth(e.nEff, g, s, sqrt) && e.eL2 == OverNonZeroRoot(p, s, sqrt) && e.eNg == Share(p, g)
    ensures NetInRange(e, EvenlySpread(e.units, p, s), sqrt)
  {
    SquaredOverRoot(g, s, sqrt);
    SquaredOverRoot(p, s, sqrt);
    NetRange(e.eL2 * e.eL2, e.units, p, s);
    NetIdentity(p, g, s);
    ShareRange(p, g);
    SignedIdentity(p, g, s, e.nEff, sqrt);
  }

  /** e reports the changed units d, in the fields that the bounds are about. */
  ghost predicate Reports(e: Evidence, d: seq<int>, sqrt: real -> real) {
    && e.units == |d|
    && e.eL2 == OverNonZeroRoot(Sum(d), SumOfSquares(d), sqrt)
    && e.eNg == Share(Sum(d), Gross(d))
    && e.top1 == Share(Largest(Magnitudes(d)), Gross(d))
    && IsBreadth(e.nEff, Gross(d), SumOfSquares(d), sqrt)
  }

  lemma ReportInRange(e: Evidence, d: seq<int>, sqrt: real -> real)
    requires IsSqrt(sqrt) && Reports(e, d, sqrt)
    requires d != [] && forall i :: 0 <= i < |d| ==> d[i] != 0
    ensures BreadthInRange(e, e.units == 1, AllEqual(Magnitudes(d)))
    ensures NetInRange(e, AllEqual(d), sqrt)
  {
    WholeNumberBounds(d);
    BreadthRatios(e, Gross(d), SumOfSquares(d), Largest(Magnitudes(d)), sqrt);
    SumsAreOrdered(d);
    assert d[0] != 0;
    NetRatios(e, Sum(d), Gross(d), SumOfSquares(d), sqrt);
  }

  /** Every list of unit changes with at least one that is not zero meets all the bounds. */
  lemma EvidenceInRange(deltas: seq<int>, sqrt: real -> real)
    requires IsSqrt(sqrt) && NonZero(deltas) != []
    ensures var e := Assess(deltas, sqrt);
      && BreadthInRange(e, e.units == 1, AllEqual(Magnitudes(NonZero(deltas))))
      && NetInRange(e, AllEqual(NonZero(deltas)), sqrt)
  {
    NonZeroElements(deltas);
    ReportInRange(Assess(deltas, sqrt), NonZero(deltas), sqrt);
  }

  // ------------------------------------------------------- supporting and opposing

  lemma PointingStep(d: seq<int>, x: int, s: int)
    ensures Pointing(d + [x], s) == Pointing(d, s) + if x * s > 0 then [x] else []
  {
    FilterConcat((y: int) => y * s > 0, d, [x]);
  }

  lemma GrossAppend(d: seq<int>, x: int)
    ensures Gross(d + [x]) == Gross(d) + Abs(x)
  {
    SumMapLast(Abs, d + [x]);
    assert (d + [x])[..|d|] == d;
  }

  lemma PointingGross(d: seq<int>, x: int, s: int)
    ensures Gross(Pointing(d + [x], s)) == Gross(Pointing(d, s)) + if x * s > 0 then Abs(x) else 0
    ensures |Pointing(d + [x], s)| == |Pointing(d, s)| + if x * s > 0 then 1 else 0
  {
    PointingStep(d, x, s);
    GrossAppend(Pointing(d, s), x);
    assert Pointing(d, s) + [] == Pointing(d, s);
  }

  lemma {:induction false} PointingSplits(d: seq<int>, s: int)
    requires s in {1, -1} && forall i :: 0 <= i < |d| ==> d[i] != 0
    ensures |Pointing(d, s)| + |Pointing(d, -s)| == |d|
    ensures Gross(Pointing(d, s)) + Gross(Pointing(d, -s)) == Gross(d)
    ensures Gross(Pointing(d, s)) - Gross(Pointing(d, -s)) == s * Sum(d)
  {
    if d != [] {
      var n := |d| - 1;
      var rest, x := d[..n], d[n];
      PointingSplits(rest, s);
      assert d == rest + [x];
      PointingGross(rest, x, s);
      PointingGross(rest, x, -s);
      GrossAppend(rest, x);
    }
  }

  /** Whenever the net change is not zero, supporting and opposing hits split the gross
      change, and their difference is the size of the net change. */
  lemma SupportSplitsGross(deltas: seq<int>, sqrt: real -> real)
    requires IsSqrt(sqrt) && Sum(deltas) != 0
    ensures var e := Assess(deltas, sqrt);
      && e.sameUnits + e.oppUnits == e.units
      && e.sameHits + e.oppHits == e.gross
      && e.sameHits - e.oppHits == Abs(e.net)
  {
    var d := NonZero(deltas);
    NonZeroElements(deltas);
    NonZeroSum(deltas);
    SignSplits(d);
  }

  lemma SignSplits(d: seq<int>)
    requires Sum(d) != 0 && forall i :: 0 <= i < |d| ==> d[i] != 0
    ensures var s := Sign(Sum(d));
      && |Pointing(d, s)| + |Pointing(d, -s)| == |d|
      && Gross(Pointing(d, s)) + Gross(Pointing(d, -s)) == Gross(d)
      && Gross(Pointing(d, s)) - Gross(Pointing(d, -s)) == Abs(Sum(d))
  {
    PointingSplits(d, Sign(Sum(d)));
  }

  // ------------------------------------------------------------ introduction, removal

  function Rise(d: int): int {
    if d > 0 then d else 0
  }

  function Fall(d: int): int {
    if d < 0 then -d else 0
  }

  /** Gross introduction and removal of risk hits over all alignment units. */
  method RiskGross(rows: seq<Row>) returns (introduced: int, removed: int)
    ensures introduced - removed == SideDifference(rows, "risk") + TotalOf(rows, Elsewhere(), HitsOf("risk"))
    ensures introduced + removed == Gross(UnitChanges(rows, "risk"))
    ensures introduced == Sum(Map(Rise, UnitChanges(rows, "risk")))
    ensures removed == Sum(Map(Fall, UnitChanges(rows, "risk")))
  {
    var units, _ := GroupRows(rows, "risk");
    introduced, removed := 0, 0;
    ghost var changes := UnitChanges(rows, "risk");
    for i := 0 to |units.keys|
      invariant introduced == Sum(Map(Rise, changes[..i])) && removed == Sum(Map(Fall, changes[..i]))
    {
      GroupedChange(units, rows, "risk", i);
      var u := units.at[units.keys[i]];
      assert changes[..i + 1][..i] == changes[..i];
      SumMapLast(Rise, changes[..i + 1]);
      SumMapLast(Fall, changes[..i + 1]);
      introduced := introduced + if u.1 - u.0 > 0 then u.1 - u.0 else 0;
      removed := removed + if u.0 - u.1 > 0 then u.0 - u.1 else 0;
    }
    assert changes[..|changes|] == changes;
    RisesAndFalls(changes);
    RegroupingConserves(rows, "risk");
  }

  lemma {:induction false} RisesAndFalls(d: seq<int>)
    ensures Sum(Map(Rise, d)) - Sum(Map(Fall, d)) == Sum(d)
    ensures Sum(Map(Rise, d)) + Sum(Map(Fall, d)) == Gross(d)
  {
    if d != [] {
      RisesAndFalls(d[..|d| - 1]);
      SumMapLast(Rise, d);
      SumMapLast(Fall, d);
      SumMapLast(Abs, d);
    }
  }
}
