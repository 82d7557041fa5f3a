/** The closed form 1 - 6 * sum(d^2) / (n * (n^2 - 1)) over dictionary ranks, and
    its agreement with the Pearson form. */
module ClosedForm {
  import opened Sequences
  import opened Sums
  import opened Ranks
  import opened Spearman

  /** The dictionary from each value to its place in s: a repeated value keeps its last place. */
  function Places(s: seq<real>): map<real, int> {
    if s == [] then map[] else Places(s[..|s| - 1])[s[|s| - 1] := |s| - 1]
  }

  function Sorted(a: seq<real>): seq<real> {
    StableSort((v: real) => v, a)
  }

  lemma {:induction false} PlacesAreLast(s: seq<real>, v: real)
    ensures v in Places(s) <==> v in s
    ensures v in s ==> 0 <= Places(s)[v] < |s| && s[Places(s)[v]] == v
                       && forall k :: Places(s)[v] < k < |s| ==> s[k] != v
  {
    if s != [] {
      var n := |s| - 1;
      PlacesAreLast(s[..n], v);
      assert s == s[..n] + [s[n]];
    }
  }

  lemma SortedHas(a: seq<real>, i: nat)
    requires i < |a|
    ensures a[i] in Sorted(a) && a[i] in Places(Sorted(a))
  {
    StableSortSorts((v: real) => v, a);
    assert a[i] in multiset(Sorted(a));
    PlacesAreLast(Sorted(a), a[i]);
  }

  function DictionaryRanks(a: seq<real>): seq<int> {
    seq(|a|, i requires 0 <= i < |a| => SortedHas(a, i); Places(Sorted(a))[a[i]])
  }

  function SquaredGaps(p: seq<int>, q: seq<int>): seq<int> {
    seq(Shorter(p, q), i requires 0 <= i < Shorter(p, q) => (p[i] - q[i]) * (p[i] - q[i]))
  }

  function Denominator(n: int): int {
    n * (n * n - 1)
  }

  /** NoData stands for the division by zero on fewer than two observations. */
  function Coefficient(a: seq<real>, b: seq<real>): Correlation {
    var d2 := Sum(SquaredGaps(DictionaryRanks(a), DictionaryRanks(b)));
    if Denominator(|a|) == 0 then NoData
    else Rho(1.0 - (6 * d2) as real / Denominator(|a|) as real)
  }

  // ---------------------------------------------------- what dictionary ranks are

  lemma SortedByPositions(a: seq<real>)
    ensures |Sorted(a)| == |SortedPositions(a)|
    ensures IsOrder(a, SortedPositions(a))
    ensures forall k :: 0 <= k < |Sorted(a)| ==> Sorted(a)[k] == a[SortedPositions(a)[k]]
  {
    var order, at, id := SortedPositions(a), ValueAt(a), (v: real) => v;
    var t := Map(at, order);
    SortedPositionsOrder(a);
    StableSortSorts(at, Indices(|a|));
    MapPermutation(at, order, Indices(|a|));
    assert Map(at, Indices(|a|)) == a;
    StableSortSorts(id, a);
    forall k, l | 0 <= k < l < |Sorted(a)| ensures Sorted(a)[k] <= Sorted(a)[l] {
      assert id(Sorted(a)[k]) <= id(Sorted(a)[l]);
    }
    SortedUnique(Sorted(a), t);
  }

  /** With or without ties, a dictionary rank counts the values not above, less one. */
  lemma DictionaryRankCounts(a: seq<real>, i: nat)
    requires i < |a|
    ensures DictionaryRanks(a)[i] == |Below(a, a[i])| + |Level(a, a[i])| - 1
  {
    var x, s, order := a[i], Sorted(a), SortedPositions(a);
    SortedHas(a, i);
    PlacesAreLast(s, x);
    SortedByPositions(a);
    var p := Places(s)[x];
    var front := order[..p + 1];
    var upTo := Below(a, x) + Level(a, x);
    forall q ensures q in upTo <==> q in front {
      if 0 <= q < |a| {
        assert q in order;
        var k :| 0 <= k < |order| && order[k] == q;
        assert k < p ==> a[order[k]] <= a[order[p]];
        assert p < k ==> a[order[p]] <= a[order[k]] && s[k] != x;
        assert k <= p ==> front[k] == q;
      }
    }
    assert upTo == set q | q in front;
    DistinctCardinality(front);
    assert |upTo| == |Below(a, x)| + |Level(a, x)|;
  }

  lemma DistinctRanks(a: seq<real>, i: nat)
    requires Distinct(a) && i < |a|
    ensures MidRank(a, i) == (DictionaryRanks(a)[i] + 1) as real
    ensures DictionaryRanks(a)[i] == |Below(a, a[i])|
  {
    DictionaryRankCounts(a, i);
    assert Level(a, a[i]) == {i};
  }

  // ------------------------------------------------------------- sums of squares

  /** Twice a dictionary rank's distance from the middle place. */
  function Offset(n: int, p: int): int {
    2 * p + 1 - n
  }

  function OffsetSquare(n: int): int -> int {
    (p: int) => Offset(n, p) * Offset(n, p)
  }

  lemma SquareProgressionStep(n: int, m: int)
    ensures m * (4 * m * m - 1) + 3 * m * m * (-2 * n) + 3 * m * n * n + 3 * ((2 * m + 1 - n) * (2 * m + 1 - n))
         == (m + 1) * (4 * (m + 1) * (m + 1) - 1) + 3 * (m + 1) * (m + 1) * (-2 * n) + 3 * (m + 1) * n * n
  {}

  lemma {:induction false} SquareProgression(n: int, m: nat)
    ensures 3 * Sum(Map(OffsetSquare(n), Indices(m))) == m * (4 * m * m - 1) + 3 * m * m * (-2 * n) + 3 * m * n * n
  {
    if m > 0 {
      SquareProgression(n, m - 1);
      SquareProgressionStep(n, m - 1);
      assert Map(OffsetSquare(n), Indices(m))[..m - 1] == Map(OffsetSquare(n), Indices(m - 1));
    }
  }

  lemma RanksArePlaces(a: seq<real>)
    requires Distinct(a)
    ensures multiset(DictionaryRanks(a)) == multiset(Indices(|a|))
  {
    var order := SortedPositions(a);
    SortedPositionsOrder(a);
    StableSortSorts(ValueAt(a), Indices(|a|));
    var rank := (i: int) => if 0 <= i < |a| then DictionaryRanks(a)[i] else 0;
    forall k | 0 <= k < |a| ensures rank(order[k]) == k {
      assert k > 0 ==> order[k - 1] != order[k];
      assert k + 1 < |a| ==> order[k] != order[k + 1];
      BlockCounts(a, order, k, k);
      DistinctRanks(a, order[k]);
    }
    assert Map(rank, order) == Indices(|a|);
    assert Map(rank, Indices(|a|)) == DictionaryRanks(a);
    MapPermutation(rank, order, Indices(|a|));
  }

  /** Without ties the squared offsets depend on the number of values alone. */
  lemma OffsetSquaresSum(a: seq<real>)
    requires Distinct(a)
    ensures 3 * Sum(Map(OffsetSquare(|a|), DictionaryRanks(a))) == Denominator(|a|)
  {
    var n := |a|;
    RanksArePlaces(a);
    MapPermutation(OffsetSquare(n), DictionaryRanks(a), Indices(n));
    SumPermutation(Map(OffsetSquare(n), DictionaryRanks(a)), Map(OffsetSquare(n), Indices(n)));
    SquareProgression(n, n);
    assert n * (4 * n * n - 1) + 3 * n * n * (-2 * n) + 3 * n * n * n == n * (n * n - 1);
  }

  lemma CentredDistinct(a: seq<real>, i: nat)
    requires Distinct(a) && i < |a|
    ensures Centred(RankSeq(a))[i] == Offset(|a|, DictionaryRanks(a)[i]) as real / 2.0
  {
    MiddleRank(a);
    DistinctRanks(a, i);
  }

  lemma {:induction false} HalvesSquared(x: seq<real>, p: seq<int>, n: int)
    requires |x| == |p| && forall i :: 0 <= i < |x| ==> x[i] == Offset(n, p[i]) as real / 2.0
    ensures Dot(x, x) == Sum(Map(OffsetSquare(n), p)) as real / 4.0
  {
    if x != [] {
      var m := |x| - 1;
      HalvesSquared(x[..m], p[..m], n);
      assert Map(OffsetSquare(n), p)[..m] == Map(OffsetSquare(n), p[..m]);
      HalfSquare(Offset(n, p[m]));
    }
  }

  lemma HalfSquare(z: int)
    ensures (z as real / 2.0) * (z as real / 2.0) == (z * z) as real / 4.0
  {
    assert (z * z) as real == z as real * z as real;
  }

  lemma {:induction false} GapsAsSquares(z: seq<real>, p: seq<int>, q: seq<int>)
    requires |z| == |p| == |q| && forall i :: 0 <= i < |z| ==> z[i] == (p[i] - q[i]) as real
    ensures Dot(z, z) == Sum(SquaredGaps(p, q)) as real
  {
    if z != [] {
      var m := |z| - 1;
      GapsAsSquares(z[..m], p[..m], q[..m]);
      assert SquaredGaps(p, q)[..m] == SquaredGaps(p[..m], q[..m]);
      var d := p[m] - q[m];
      assert (d * d) as real == d as real * d as real;
    }
  }

  // ------------------------------------------------------------------- agreement

  lemma RootOfSquare(A: real, sqrt: real -> real)
    requires IsSqrt(sqrt) && A >= 0.0
    ensures sqrt(A * A) == A
  {
    SquareNonNegative(A);
    SqrtOf(sqrt, A * A);
    SqrtUnique(sqrt(A * A), A);
  }

  lemma FractionOf(S: real, d2: real, N: real)
    requires N > 0.0 && 12.0 * S == N
    ensures (S - d2 / 2.0) / S == 1.0 - 6.0 * d2 / N
  {
    var r := 1.0 - 6.0 * d2 / N;
    QuotientTimes(6.0 * d2, N);
    assert 6.0 * d2 / N * N == 6.0 * d2;
    assert r * S == S - 6.0 * d2 / N * (N / 12.0);
    QuotientOf(r, S, S - d2 / 2.0);
  }

  lemma PearsonOfEqualSpreads(P: real, S: real, d2: real, N: real, sqrt: real -> real)
    requires IsSqrt(sqrt) && N > 0.0 && 12.0 * S == N && d2 == 2.0 * S - 2.0 * P
    ensures Pearson(P, S, S, sqrt) == Rho(1.0 - 6.0 * d2 / N)
  {
    RootOfSquare(S, sqrt);
    FractionOf(S, d2, N);
  }

  /** Both spreads are n(n^2 - 1)/12, and the rank gaps account for the rest. */
  lemma DistinctSpread(a: seq<real>)
    requires Distinct(a) && a != []
    ensures 12.0 * Dot(Centred(RankSeq(a)), Centred(RankSeq(a))) == Denominator(|a|) as real
  {
    forall i | 0 <= i < |a|
      ensures Centred(RankSeq(a))[i] == Offset(|a|, DictionaryRanks(a)[i]) as real / 2.0
    {
      CentredDistinct(a, i);
    }
    HalvesSquared(Centred(RankSeq(a)), DictionaryRanks(a), |a|);
    OffsetSquaresSum(a);
  }

  lemma GapsFromProducts(a: seq<real>, b: seq<real>)
    requires |a| == |b| > 0 && Distinct(a) && Distinct(b)
    ensures var x, y := Centred(RankSeq(a)), Centred(RankSeq(b));
            Dot(x, x) + Dot(y, y) - 2.0 * PairedDot(x, y)
            == Sum(SquaredGaps(DictionaryRanks(a), DictionaryRanks(b))) as real
  {
    var x, y := Centred(RankSeq(a)), Centred(RankSeq(b));
    forall i | 0 <= i < |a|
      ensures x[i] - y[i] == (DictionaryRanks(a)[i] - DictionaryRanks(b)[i]) as real
    {
      CentredDistinct(a, i);
      CentredDistinct(b, i);
    }
    GapsAsSquares(Cross(x, y, 1.0, 1.0), DictionaryRanks(a), DictionaryRanks(b));
    CrossSquares(x, y, 1.0, 1.0);
    PairedDotEqualLengths(x, y);
  }

  lemma DenominatorPositive(n: int)
    requires n >= 2
    ensures Denominator(n) > 0
  {
    assert n * n >= 2 * n;
  }

  /** On two lists of distinct values the two definitions are the same number. */
  lemma FormsAgree(a: seq<real>, b: seq<real>, sqrt: real -> real)
    requires IsSqrt(sqrt) && |a| == |b| >= 2 && Distinct(a) && Distinct(b)
    ensures Correlate(a, b, sqrt) == Coefficient(a, b)
  {
    var x, y := Centred(RankSeq(a)), Centred(RankSeq(b));
    var d2 := Sum(SquaredGaps(DictionaryRanks(a), DictionaryRanks(b)));
    DenominatorPositive(|a|);
    DistinctSpread(a);
    DistinctSpread(b);
    GapsFromProducts(a, b);
    PearsonOfEqualSpreads(PairedDot(x, y), Dot(x, x), d2 as real, Denominator(|a|) as real, sqrt);
    assert (6 * d2) as real == 6.0 * d2 as real;
  }

  /** Distinctness matters: on a constant list the closed form still produces a number. */
  lemma FormsDisagreeOnConstants(a: seq<real>, b: seq<real>, sqrt: real -> real)
    requires IsSqrt(sqrt) && |a| == |b| >= 2 && (Constant(a) || Constant(b))
    ensures Correlate(a, b, sqrt) == NotANumber && Coefficient(a, b).Rho?
  {
    UndefinedWhenConstant(a, b, sqrt);
    DenominatorPositive(|a|);
  }

  lemma {:induction false} NoGaps(p: seq<int>, q: seq<int>)
    requires |p| == |q|
    ensures Sum(SquaredGaps(p, q)) >= 0
    ensures Sum(SquaredGaps(p, q)) == 0 <==> p == q
  {
    if p != [] {
      var n := |p| - 1;
      NoGaps(p[..n], q[..n]);
      assert SquaredGaps(p, q)[..n] == SquaredGaps(p[..n], q[..n]);
      SquareOfGap(p[n] - q[n]);
      assert p == p[..n] + [p[n]] && q == q[..n] + [q[n]];
    }
  }

  lemma SquareOfGap(d: int)
    ensures d * d >= 0 && (d * d == 0 <==> d == 0)
  {}

  lemma SortedAscends(a: seq<real>)
    ensures Ascending(Sorted(a))
  {
    var id := (v: real) => v;
    StableSortSorts(id, a);
    forall k, l | 0 <= k <= l < |Sorted(a)| ensures Sorted(a)[k] <= Sorted(a)[l] {
      assert id(Sorted(a)[k]) <= id(Sorted(a)[l]);
    }
  }

  /** Dictionary ranks order positions exactly as their values do. */
  lemma DictionaryRanksOrder(a: seq<real>, i: nat, j: nat)
    requires i < |a| && j < |a|
    ensures DictionaryRanks(a)[i] < DictionaryRanks(a)[j] <==> a[i] < a[j]
  {
    SortedHas(a, i);
    SortedHas(a, j);
    PlacesAreLast(Sorted(a), a[i]);
    PlacesAreLast(Sorted(a), a[j]);
    SortedAscends(a);
  }

  lemma SameDictionaryRanks(a: seq<real>, b: seq<real>)
    requires |a| == |b|
    ensures DictionaryRanks(a) == DictionaryRanks(b) <==> SameOrder(a, b)
  {
    if SameOrder(a, b) {
      forall i | 0 <= i < |a| ensures DictionaryRanks(a)[i] == DictionaryRanks(b)[i] {
        SameOrderSameCounts(a, b, i);
        DictionaryRankCounts(a, i);
        DictionaryRankCounts(b, i);
      }
    }
    if DictionaryRanks(a) == DictionaryRanks(b) {
      forall i, j | 0 <= i < |a| && 0 <= j < |a| ensures a[i] < a[j] <==> b[i] < b[j] {
        DictionaryRanksOrder(a, i, j);
        DictionaryRanksOrder(b, i, j);
      }
    }
  }

  lemma OneWithoutGaps(d2: int, n: int)
    requires n > 0
    ensures 1.0 - (6 * d2) as real / n as real == 1.0 <==> d2 == 0
  {
    QuotientBounds((6 * d2) as real, n as real);
  }

  /** Ties or not, the closed form is 1 exactly for lists in the same order, and so exactly where the
      Pearson form, if defined, is 1. */
  lemma FormsAgreeOnPerfection(a: seq<real>, b: seq<real>, sqrt: real -> real)
    requires IsSqrt(sqrt) && |a| == |b| >= 2
    ensures Coefficient(a, b) == Rho(1.0) <==> SameOrder(a, b)
    ensures Correlate(a, b, sqrt).Rho? ==> (Coefficient(a, b) == Rho(1.0) <==> Correlate(a, b, sqrt) == Rho(1.0))
  {
    var p, q := DictionaryRanks(a), DictionaryRanks(b);
    DenominatorPositive(|a|);
    NoGaps(p, q);
    OneWithoutGaps(Sum(SquaredGaps(p, q)), Denominator(|a|));
    SameDictionaryRanks(a, b);
    if Correlate(a, b, sqrt).Rho? {
      PerfectCorrelation(a, b, sqrt);
    }
  }

  /** The closed form divides by zero exactly on fewer than two values. */
  lemma ClosedFormDefined(a: seq<real>, b: seq<real>)
    ensures Coefficient(a, b) == NoData <==> |a| < 2
  {
    if |a| >= 2 {
      DenominatorPositive(|a|);
    }
  }
}
