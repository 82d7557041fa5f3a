/** Spearman correlation in its two forms: Pearson correlation of tie-averaged
    ranks, and the closed form over dictionary ranks. */
module Spearman {
  import opened Sums
  import opened Ranks

  /** NoData is the error that averaging an empty list raises. */
  datatype Correlation = NoData | NotANumber | Rho(value: real)

  function Mean(s: seq<real>): real
    requires s != []
  {
    RealSum(s) / |s| as real
  }

  function Centred(s: seq<real>): seq<real>
    requires s != []
  {
    var m := Mean(s);
    seq(|s|, i requires 0 <= i < |s| => s[i] - m)
  }

  function Shorter<S, T>(a: seq<S>, b: seq<T>): nat {
    if |a| <= |b| then |a| else |b|
  }

  /** A sum of products over the root of two sums of squares, if that root is not zero. */
  function Pearson(num: real, sxx: real, syy: real, sqrt: real -> real): Correlation {
    var den := sqrt(sxx * syy);
    if den != 0.0 then Rho(num / den) else NotANumber
  }

  /** Pairing two lists stops at the shorter one. */
  function PairedDot(x: seq<real>, y: seq<real>): real {
    var n := Shorter(x, y);
    Dot(x[..n], y[..n])
  }

  /** Pearson correlation of tie-averaged ranks. */
  function Correlate(a: seq<real>, b: seq<real>, sqrt: real -> real): Correlation {
    if a == [] || b == [] then NoData
    else
      var x, y := Centred(RankSeq(a)), Centred(RankSeq(b));
      Pearson(PairedDot(x, y), Dot(x, x), Dot(y, y), sqrt)
  }

  // ------------------------------------------------------------------- bounds

  lemma {:induction false} PrefixSquares(x: seq<real>, n: nat)
    requires n <= |x|
    ensures 0.0 <= Dot(x[..n], x[..n]) <= Dot(x, x)
  {
    SquaresNonNegative(x[..n]);
    if n == |x| {
      assert x[..n] == x;
    } else {
      var m := |x| - 1;
      PrefixSquares(x[..m], n);
      assert x[..m][..n] == x[..n];
      SquareNonNegative(x[m]);
    }
  }

  lemma CauchyBoundMonotone(p: real, a: real, b: real, A: real, B: real)
    requires CauchyBound(p, a, b) && 0.0 <= a <= A && 0.0 <= b <= B
    ensures CauchyBound(p, A, B)
  {
    ProductNonNegative(a, B - b);
    ProductNonNegative(A - a, B);
  }

  lemma PairedCauchySchwarz(x: seq<real>, y: seq<real>)
    ensures CauchyBound(PairedDot(x, y), Dot(x, x), Dot(y, y))
  {
    var n := Shorter(x, y);
    CauchySchwarz(x[..n], y[..n]);
    PrefixSquares(x, n);
    PrefixSquares(y, n);
    CauchyBoundMonotone(Dot(x[..n], y[..n]), Dot(x[..n], x[..n]), Dot(y[..n], y[..n]), Dot(x, x), Dot(y, y));
  }

  lemma PearsonFacts(num: real, sxx: real, syy: real, sqrt: real -> real)
    requires IsSqrt(sqrt) && sxx >= 0.0 && syy >= 0.0 && CauchyBound(num, sxx, syy)
    ensures var r := Pearson(num, sxx, syy, sqrt);
            r.Rho? ==> -1.0 <= r.value <= 1.0 && (r.value == 1.0 <==> num >= 0.0 && CauchyTight(num, sxx, syy))
    ensures Pearson(num, sxx, syy, sqrt) == NotANumber <==> sxx == 0.0 || syy == 0.0
  {
    var square := sxx * syy;
    SquareNonNegative(num);
    SqrtOf(sqrt, square);
    if square == 0.0 {
      ZeroProduct(sxx, syy);
    }
    if sqrt(square) != 0.0 {
      SquareOrder(num, sqrt(square));
      QuotientBounds(num, sqrt(square));
      if num >= 0.0 && num * num == square {
        SqrtUnique(num, sqrt(square));
      }
    }
  }

  /** Whatever the ties and the lengths, a defined correlation lies in [-1, 1]. */
  lemma CorrelationBounded(a: seq<real>, b: seq<real>, sqrt: real -> real)
    requires IsSqrt(sqrt)
    ensures Correlate(a, b, sqrt).Rho? ==> -1.0 <= Correlate(a, b, sqrt).value <= 1.0
  {
    if a != [] && b != [] {
      var x, y := Centred(RankSeq(a)), Centred(RankSeq(b));
      SquaresNonNegative(x);
      SquaresNonNegative(y);
      PairedCauchySchwarz(x, y);
      PearsonFacts(PairedDot(x, y), Dot(x, x), Dot(y, y), sqrt);
    }
  }

  // ------------------------------------------------- when the value is undefined

  predicate Constant(values: seq<real>) {
    forall i, j :: 0 <= i < j < |values| ==> values[i] == values[j]
  }

  lemma {:induction false} RepeatedSum(s: seq<real>, x: real)
    requires forall i :: 0 <= i < |s| ==> s[i] == x
    ensures RealSum(s) == |s| as real * x
  {
    if s != [] {
      RepeatedSum(s[..|s| - 1], x);
    }
  }

  lemma ScaledMean(n: real, x: real)
    requires n > 0.0
    ensures n * x / n == x
  {}

  lemma SpreadIsZero(values: seq<real>)
    requires values != []
    ensures var x := Centred(RankSeq(values)); Dot(x, x) == 0.0 <==> Constant(values)
  {
    var ranks := RankSeq(values);
    var x := Centred(ranks);
    SquaresNonNegative(x);
    if Dot(x, x) == 0.0 {
      forall i, j | 0 <= i < j < |values| ensures values[i] == values[j] {
        assert x[i] == 0.0 && x[j] == 0.0;
        RanksPreserveOrder(values, i, j);
      }
    }
    if Constant(values) {
      forall i | 0 <= i < |values| ensures ranks[i] == ranks[0] {
        RanksPreserveOrder(values, 0, i);
      }
      RepeatedSum(ranks, ranks[0]);
      ScaledMean(|ranks| as real, ranks[0]);
      DotWithZeros(x, x);
    }
  }

  /** The result is not a number exactly when one of the lists is constant. */
  lemma UndefinedWhenConstant(a: seq<real>, b: seq<real>, sqrt: real -> real)
    requires IsSqrt(sqrt) && a != [] && b != []
    ensures Correlate(a, b, sqrt) == NotANumber <==> Constant(a) || Constant(b)
  {
    var x, y := Centred(RankSeq(a)), Centred(RankSeq(b));
    SpreadIsZero(a);
    SpreadIsZero(b);
    SquaresNonNegative(x);
    SquaresNonNegative(y);
    PairedCauchySchwarz(x, y);
    PearsonFacts(PairedDot(x, y), Dot(x, x), Dot(y, y), sqrt);
  }

  // --------------------------------------------------------- perfect correlation

  /** Both lists order every pair of positions the same way, ties included. */
  predicate SameOrder(a: seq<real>, b: seq<real>)
    requires |a| == |b|
  {
    forall i, j :: 0 <= i < |a| && 0 <= j < |a| ==> (a[i] < a[j] <==> b[i] < b[j])
  }

  lemma SameOrderSameCounts(a: seq<real>, b: seq<real>, i: nat)
    requires |a| == |b| && SameOrder(a, b) && i < |a|
    ensures Below(a, a[i]) == Below(b, b[i]) && Level(a, a[i]) == Level(b, b[i])
  {
    forall j ensures j in Level(a, a[i]) <==> j in Level(b, b[i]) {
      if 0 <= j < |a| {
        assert a[i] < a[j] <==> b[i] < b[j];
        assert a[j] < a[i] <==> b[j] < b[i];
      }
    }
  }

  lemma SameOrderSameRanks(a: seq<real>, b: seq<real>)
    requires |a| == |b| && SameOrder(a, b)
    ensures RankSeq(a) == RankSeq(b)
  {
    forall i | 0 <= i < |a| ensures MidRank(a, i) == MidRank(b, i) {
      SameOrderSameCounts(a, b, i);
    }
  }

  lemma ScaledOrder(x: real, x': real, y: real, y': real, p: real, q: real)
    requires p > 0.0 && q > 0.0 && x * p == q * y && x' * p == q * y'
    ensures x < x' <==> y < y'
  {
    SignOfProduct(x' - x, p);
    SignOfProduct(y' - y, q);
    assert (x' - x) * p == x' * p - x * p;
    assert (y' - y) * q == y' * q - y * q;
  }

  lemma CentredOrder(a: seq<real>, i: nat, j: nat)
    requires i < |a| && j < |a|
    ensures Centred(RankSeq(a))[i] < Centred(RankSeq(a))[j] <==> a[i] < a[j]
  {
    RanksPreserveOrder(a, i, j);
  }

  lemma ProportionalPair(x: seq<real>, y: seq<real>, p: real, q: real, i: nat, j: nat)
    requires |x| == |y| && i < |x| && j < |x| && p > 0.0 && q > 0.0 && Proportional(x, y, p, q)
    ensures x[i] < x[j] <==> y[i] < y[j]
  {
    ScaledOrder(x[i], x[j], y[i], y[j], p, q);
  }

  lemma ProportionalSameOrder(a: seq<real>, b: seq<real>, p: real, q: real)
    requires |a| == |b| > 0 && p > 0.0 && q > 0.0
    requires Proportional(Centred(RankSeq(a)), Centred(RankSeq(b)), p, q)
    ensures SameOrder(a, b)
  {
    forall i: nat, j: nat | i < |a| && j < |a| ensures a[i] < a[j] <==> b[i] < b[j] {
      CentredOrder(a, i, j);
      CentredOrder(b, i, j);
      ProportionalPair(Centred(RankSeq(a)), Centred(RankSeq(b)), p, q, i, j);
    }
  }

  lemma TightMeansPositive(p: real, a: real, b: real)
    requires a >= 0.0 && b >= 0.0 && a != 0.0 && b != 0.0 && p >= 0.0 && CauchyTight(p, a, b)
    ensures p > 0.0
  {
    ProductPositive(a, b);
  }

  lemma PairedDotEqualLengths(x: seq<real>, y: seq<real>)
    requires |x| == |y|
    ensures PairedDot(x, y) == Dot(x, y)
  {
    assert x[..|x|] == x && y[..|y|] == y;
  }

  lemma TightMeansSameOrder(a: seq<real>, b: seq<real>, x: seq<real>, y: seq<real>)
    requires |a| == |b| > 0 && x == Centred(RankSeq(a)) && y == Centred(RankSeq(b))
    requires Dot(x, x) > 0.0 && Dot(x, y) > 0.0 && CauchyTight(Dot(x, y), Dot(x, x), Dot(y, y))
    ensures SameOrder(a, b)
  {
    CauchySchwarzEquality(x, y);
    ProportionalSameOrder(a, b, Dot(x, y), Dot(x, x));
  }

  /** The correlation is exactly 1 when, and only when, the two lists order their
      positions identically. */
  lemma PerfectCorrelation(a: seq<real>, b: seq<real>, sqrt: real -> real)
    requires IsSqrt(sqrt) && |a| == |b| && Correlate(a, b, sqrt).Rho?
    ensures Correlate(a, b, sqrt).value == 1.0 <==> SameOrder(a, b)
  {
    var x, y := Centred(RankSeq(a)), Centred(RankSeq(b));
    var A, B, P := Dot(x, x), Dot(y, y), Dot(x, y);
    PairedDotEqualLengths(x, y);
    SquaresNonNegative(x);
    SquaresNonNegative(y);
    PairedCauchySchwarz(x, y);
    PearsonFacts(P, A, B, sqrt);
    if SameOrder(a, b) {
      SameOrderSameRanks(a, b);
      assert CauchyTight(P, A, B);
    } else if P >= 0.0 && CauchyTight(P, A, B) {
      TightMeansPositive(P, A, B);
      TightMeansSameOrder(a, b, x, y);
    }
  }

  // -------------------------------------------------------- opposite correlation

  /** The average of n values that sum to n(n + 1)/2. */
  lemma AverageOfPlaces(n: int, x: real, total: real)
    requires n > 0 && x == n as real && total == (n * (n + 1)) as real / 2.0
    ensures total / x == (n + 1) as real / 2.0
  {
    var middle := (n + 1) as real / 2.0;
    assert (n * (n + 1)) as real == x * (n + 1) as real;
    QuotientOf(middle, x, total);
  }

  lemma MiddleRank(a: seq<real>)
    requires a != []
    ensures Mean(RankSeq(a)) == (|a| + 1) as real / 2.0
  {
    RankSum(a);
    AverageOfPlaces(|a|, |RankSeq(a)| as real, RealSum(RankSeq(a)));
  }

  function Negated(s: seq<real>): seq<real> {
    seq(|s|, i requires 0 <= i < |s| => -s[i])
  }

  /** Turning the values round turns the ranks round. */
  lemma NegatedRank(values: seq<real>, i: nat)
    requires i < |values|
    ensures MidRank(Negated(values), i) == (|values| + 1) as real - MidRank(values, i)
  {
    RankFromScores(values, i);
    RankFromScores(Negated(values), i);
    MeetingsBalance(values[i], values);
    assert Scores(Negated(values)[i], Negated(values)) == Conceded(values, values[i]);
  }

  lemma NegatedCentred(values: seq<real>)
    requires values != []
    ensures Centred(RankSeq(Negated(values))) == Negated(Centred(RankSeq(values)))
  {
    MiddleRank(values);
    MiddleRank(Negated(values));
    forall i | 0 <= i < |values|
      ensures Centred(RankSeq(Negated(values)))[i] == Negated(Centred(RankSeq(values)))[i]
    {
      NegatedRank(values, i);
    }
  }

  lemma {:induction false} DotNegated(x: seq<real>, y: seq<real>)
    requires |x| == |y|
    ensures Dot(x, Negated(y)) == -Dot(x, y)
  {
    if x != [] {
      var n := |x| - 1;
      DotNegated(x[..n], y[..n]);
      assert Negated(y)[..n] == Negated(y[..n]);
    }
  }

  lemma NegatedDots(x: seq<real>, y: seq<real>)
    ensures PairedDot(x, Negated(y)) == -PairedDot(x, y)
    ensures Dot(Negated(y), Negated(y)) == Dot(y, y)
  {
    var n := Shorter(x, y);
    DotNegated(x[..n], y[..n]);
    assert Negated(y)[..n] == Negated(y[..n]);
    DotNegated(Negated(y), y);
    DotNegated(y, y);
    DotCommutes(y, Negated(y));
  }

  function Opposite(r: Correlation): Correlation {
    if r.Rho? then Rho(-r.value) else r
  }

  lemma PearsonOpposite(num: real, sxx: real, syy: real, sqrt: real -> real)
    ensures Pearson(-num, sxx, syy, sqrt) == Opposite(Pearson(num, sxx, syy, sqrt))
  {}

  /** Turning one list round turns the correlation round, whatever the ties and the lengths. */
  lemma NegatingNegates(a: seq<real>, b: seq<real>, sqrt: real -> real)
    ensures Correlate(a, Negated(b), sqrt) == Opposite(Correlate(a, b, sqrt))
  {
    if a != [] && b != [] {
      var x, y := Centred(RankSeq(a)), Centred(RankSeq(b));
      NegatedCentred(b);
      NegatedDots(x, y);
      PearsonOpposite(PairedDot(x, y), Dot(x, x), Dot(y, y), sqrt);
    }
  }

  /** The second list orders every pair of positions the other way round, ties included. */
  predicate OppositeOrder(a: seq<real>, b: seq<real>)
    requires |a| == |b|
  {
    forall i, j :: 0 <= i < |a| && 0 <= j < |a| ==> (a[i] < a[j] <==> b[j] < b[i])
  }

  /** The correlation is exactly -1 when, and only when, the two lists order their positions
      oppositely. */
  lemma PerfectOpposition(a: seq<real>, b: seq<real>, sqrt: real -> real)
    requires IsSqrt(sqrt) && |a| == |b| && Correlate(a, b, sqrt).Rho?
    ensures Correlate(a, b, sqrt).value == -1.0 <==> OppositeOrder(a, b)
  {
    NegatingNegates(a, b, sqrt);
    PerfectCorrelation(a, Negated(b), sqrt);
    assert SameOrder(a, Negated(b)) <==> OppositeOrder(a, b);
  }

  // ------------------------------------------------------------- in terms of ranks

  /** What subtracting p from one list and q from the other does to their dot product. */
  ghost predicate Shifted(d: real, D: real, p: real, q: real, X: real, Y: real, n: real) {
    d == D - p * Y - q * X + n * (p * q)
  }

  /** The total t after one more product. */
  ghost predicate OneMore(t: real, before: real, u: real, v: real) {
    t == before + u * v
  }

  lemma OneMoreProduct(x: seq<real>, y: seq<real>, n: nat)
    requires |x| == |y| == n + 1
    ensures OneMore(Dot(x, y), Dot(x[..n], y[..n]), x[n], y[n])
  {}

  lemma ShiftedStep(d: real, d': real, D: real, D': real, p: real, q: real, X: real, Y: real, n: real,
                    x: real, y: real, u: real, v: real)
    requires Shifted(d, D, p, q, X, Y, n) && u == x - p && v == y - q
    requires OneMore(d', d, u, v) && OneMore(D', D, x, y)
    ensures Shifted(d', D', p, q, X + x, Y + y, n + 1.0)
  {}

  lemma {:induction false} DotShifted(x: seq<real>, y: seq<real>, u: seq<real>, v: seq<real>, p: real, q: real)
    requires |x| == |y| == |u| == |v|
    requires forall i :: 0 <= i < |x| ==> u[i] == x[i] - p && v[i] == y[i] - q
    ensures Shifted(Dot(u, v), Dot(x, y), p, q, RealSum(x), RealSum(y), |x| as real)
  {
    if x != [] {
      var n := |x| - 1;
      var x', y', u', v' := x[..n], y[..n], u[..n], v[..n];
      assert Shifted(Dot(u', v'), Dot(x', y'), p, q, RealSum(x'), RealSum(y'), n as real) by {
        DotShifted(x', y', u', v', p, q);
      }
      OneMoreProduct(x, y, n);
      OneMoreProduct(u, v, n);
      ShiftedStep(Dot(u', v'), Dot(u, v), Dot(x', y'), Dot(x, y), p, q, RealSum(x'), RealSum(y'), n as real,
                  x[n], y[n], u[n], v[n]);
    }
  }

  /** The product moment of two lists of n numbers, n times their sum of products less the product of
      their sums. */
  function Moment(x: seq<real>, y: seq<real>): real
    requires |x| == |y|
  {
    |x| as real * Dot(x, y) - RealSum(x) * RealSum(y)
  }

  ghost predicate IsTimes(P: real, n: real, p: real) {
    P == n * p
  }

  lemma MomentOfCentred(x: seq<real>, y: seq<real>)
    requires |x| == |y| > 0
    ensures IsTimes(Moment(x, y), |x| as real, Dot(Centred(x), Centred(y)))
  {
    DotShifted(x, y, Centred(x), Centred(y), Mean(x), Mean(y));
    MomentAlgebra(Dot(Centred(x), Centred(y)), |x| as real, Dot(x, y), RealSum(x), RealSum(y), Mean(x), Mean(y));
  }

  lemma MomentAlgebra(d: real, n: real, D: real, X: real, Y: real, p: real, q: real)
    requires n > 0.0 && p == X / n && q == Y / n && Shifted(d, D, p, q, X, Y, n)
    ensures IsTimes(n * D - X * Y, n, d)
  {
    QuotientTimes(X, n);
    QuotientTimes(Y, n);
    assert n * (p * Y) == X * Y && n * (q * X) == X * Y && n * (n * (p * q)) == (p * n) * (q * n) == X * Y;
  }

  /** r has the sign of p, and its square times a and b is the square of p. */
  ghost predicate RootEquation(r: real, p: real, a: real, b: real) {
    r * r * (a * b) == p * p && (r > 0.0 <==> p > 0.0) && (r < 0.0 <==> p < 0.0)
  }

  lemma PearsonSquared(num: real, sxx: real, syy: real, sqrt: real -> real)
    requires IsSqrt(sqrt) && sxx >= 0.0 && syy >= 0.0
    ensures var r := Pearson(num, sxx, syy, sqrt); r.Rho? ==> RootEquation(r.value, num, sxx, syy)
  {
    ProductNonNegative(sxx, syy);
    SqrtOf(sqrt, sxx * syy);
    var den := sqrt(sxx * syy);
    if den != 0.0 {
      QuotientTimes(num, den);
      QuotientBounds(num, den);
      assert num / den * (num / den) * (den * den) == (num / den * den) * (num / den * den);
    }
  }

  lemma ScaledMoments(r: real, n: real, p: real, a: real, b: real, P: real, A: real, B: real)
    requires n > 0.0 && IsTimes(P, n, p) && IsTimes(A, n, a) && IsTimes(B, n, b) && RootEquation(r, p, a, b)
    ensures RootEquation(r, P, A, B)
  {
    assert r * r * (A * B) == r * r * (a * b) * (n * n) && P * P == p * p * (n * n);
    SignOfProduct(p, n);
  }

  /** The coefficient in the ranks themselves, with no mean taken: its square times the two moments of the
      ranks is the square of their joint moment, and it has that moment's sign. */
  lemma CorrelationOfRanks(a: seq<real>, b: seq<real>, sqrt: real -> real)
    requires IsSqrt(sqrt) && |a| == |b| && Correlate(a, b, sqrt).Rho?
    ensures var x, y := RankSeq(a), RankSeq(b);
      RootEquation(Correlate(a, b, sqrt).value, Moment(x, y), Moment(x, x), Moment(y, y))
  {
    var x, y := RankSeq(a), RankSeq(b);
    var u, v := Centred(x), Centred(y);
    PairedDotEqualLengths(u, v);
    SquaresNonNegative(u);
    SquaresNonNegative(v);
    PearsonSquared(Dot(u, v), Dot(u, u), Dot(v, v), sqrt);
    MomentOfCentred(x, y);
    MomentOfCentred(x, x);
    MomentOfCentred(y, y);
    ScaledMoments(Correlate(a, b, sqrt).value, |x| as real, Dot(u, v), Dot(u, u), Dot(v, v),
                  Moment(x, y), Moment(x, x), Moment(y, y));
  }

  /** No coefficient at all exactly when one of the lists is empty. */
  lemma NoDataWhenEmpty(a: seq<real>, b: seq<real>, sqrt: real -> real)
    ensures Correlate(a, b, sqrt) == NoData <==> |a| == 0 || |b| == 0
  {}
}
