/** Where ties part the two forms of the rank correlation. */
module ClosedFormTies {
  import opened Sequences
  import opened Sums
  import opened Ranks
  import opened Spearman
  import opened ClosedForm

  /** b has no ties and keeps the order of every pair of positions that a orders. */
  predicate Refines(a: seq<real>, b: seq<real>) {
    && |a| == |b| && Distinct(b)
    && forall i, j :: 0 <= i < |a| && 0 <= j < |a| && a[i] < a[j] ==> b[i] < b[j]
  }

  /** How far breaking the ties moves each rank. */
  function RankGaps(a: seq<real>, b: seq<real>): seq<real>
    requires |a| == |b|
  {
    seq(|a|, i requires 0 <= i < |a| => MidRank(b, i) - MidRank(a, i))
  }

  /** Half the number of other positions that tie with each. */
  function HalfTies(a: seq<real>): seq<real> {
    seq(|a|, i requires 0 <= i < |a| => (|Level(a, a[i])| - 1) as real / 2.0)
  }

  // ------------------------------------------------------- sums over pairs of positions

  function RowSum(M: (int, int) -> real, i: int, n: nat): real {
    if n == 0 then 0.0 else RowSum(M, i, n - 1) + M(i, n - 1)
  }

  function RowsSum(M: (int, int) -> real, m: nat, n: nat): real {
    if m == 0 then 0.0 else RowsSum(M, m - 1, n) + RowSum(M, m - 1, n)
  }

  ghost predicate Antisymmetric(M: (int, int) -> real, n: nat) {
    forall i, j :: 0 <= i < n && 0 <= j < n ==> M(i, j) == -M(j, i)
  }

  lemma {:induction false} LastColumn(M: (int, int) -> real, m: nat, n: nat)
    requires m <= n && Antisymmetric(M, n + 1)
    ensures RowsSum(M, m, n + 1) == RowsSum(M, m, n) - RowSum(M, n, m)
  {
    if m > 0 {
      LastColumn(M, m - 1, n);
      assert M(m - 1, n) == -M(n, m - 1);
    }
  }

  lemma {:induction false} AntisymmetricSum(M: (int, int) -> real, n: nat)
    requires Antisymmetric(M, n)
    ensures RowsSum(M, n, n) == 0.0
  {
    if n > 0 {
      AntisymmetricSum(M, n - 1);
      LastColumn(M, n - 1, n - 1);
      assert M(n - 1, n - 1) == -M(n - 1, n - 1);
    }
  }

  // ------------------------------------------------------------------ breaking ties

  /** What breaking the ties changes in the meeting of two positions. */
  function Duel(a: seq<real>, b: seq<real>, i: int, j: int): int
    requires |a| == |b| && 0 <= i < |a| && 0 <= j < |a|
  {
    Score(b[i], b[j]) - Score(a[i], a[j])
  }

  predicate SameOnTies(a: seq<real>, g: seq<real>) {
    |a| == |g| && forall i, j :: 0 <= i < |a| && 0 <= j < |a| && a[i] == a[j] ==> g[i] == g[j]
  }

  function Times(g: real, d: real): real {
    g * d
  }

  function WeightedDuel(a: seq<real>, b: seq<real>, g: seq<real>): (int, int) -> real
    requires |a| == |b| == |g|
  {
    (i: int, j: int) => if 0 <= i < |a| && 0 <= j < |a| then Times(g[i], Duel(a, b, i, j) as real) else 0.0
  }

  lemma DuelsCancel(a: seq<real>, b: seq<real>, g: seq<real>)
    requires Refines(a, b) && SameOnTies(a, g)
    ensures Antisymmetric(WeightedDuel(a, b, g), |a|)
  {
    forall i, j | 0 <= i < |a| && 0 <= j < |a|
      ensures WeightedDuel(a, b, g)(i, j) == -WeightedDuel(a, b, g)(j, i)
    {
      assert Duel(a, b, i, j) == -Duel(a, b, j, i);
      if a[i] != a[j] {
        assert Duel(a, b, i, j) == 0;
      } else {
        NegatedProduct(g[i], Duel(a, b, i, j) as real);
      }
    }
  }

  lemma NegatedProduct(g: real, d: real)
    ensures Times(g, -d) == -Times(g, d)
  {}

  lemma TimesAdds(g: real, s: real, d: real)
    ensures Times(g, s) + Times(g, d) == Times(g, s + d)
  {}

  /** What breaking the ties changes in the meetings of position i with the first k. */
  function Duels(a: seq<real>, b: seq<real>, i: nat, k: nat): int
    requires |a| == |b| && i < |a| && k <= |a|
  {
    Sum(Scores(b[i], b[..k])) - Sum(Scores(a[i], a[..k]))
  }

  lemma NextScore(x: real, values: seq<real>, k: nat)
    requires k < |values|
    ensures Sum(Scores(x, values[..k + 1])) == Sum(Scores(x, values[..k])) + Score(x, values[k])
  {
    assert Scores(x, values[..k + 1]) == Scores(x, values[..k]) + [Score(x, values[k])];
    SumAppend(Scores(x, values[..k]), Score(x, values[k]));
  }

  lemma {:induction false} RowOfDuels(a: seq<real>, b: seq<real>, g: seq<real>, i: nat, k: nat)
    requires |a| == |b| == |g| && i < |a| && k <= |a|
    ensures RowSum(WeightedDuel(a, b, g), i, k) == Times(g[i], Duels(a, b, i, k) as real)
  {
    if k > 0 {
      RowOfDuels(a, b, g, i, k - 1);
      NextScore(b[i], b, k - 1);
      NextScore(a[i], a, k - 1);
      TimesAdds(g[i], Duels(a, b, i, k - 1) as real, Duel(a, b, i, k - 1) as real);
    }
  }

  function DuelSums(a: seq<real>, b: seq<real>): seq<real>
    requires |a| == |b|
  {
    seq(|a|, i requires 0 <= i < |a| => Duels(a, b, i, |a|) as real)
  }

  lemma GapFromDuels(a: seq<real>, b: seq<real>, i: nat)
    requires |a| == |b| && i < |a|
    ensures DuelSums(a, b)[i] == RankGaps(a, b)[i] + RankGaps(a, b)[i]
  {
    assert a[..|a|] == a && b[..|b|] == b;
    RankFromScores(a, i);
    RankFromScores(b, i);
  }

  lemma DotPrefix(x: seq<real>, y: seq<real>, m: nat)
    requires 0 < m <= |x| == |y|
    ensures Dot(x[..m], y[..m]) == Dot(x[..m - 1], y[..m - 1]) + x[m - 1] * y[m - 1]
  {
    assert x[..m][..m - 1] == x[..m - 1] && y[..m][..m - 1] == y[..m - 1];
  }

  lemma {:induction false} RowsAreDot(M: (int, int) -> real, g: seq<real>, d: seq<real>, m: nat, n: nat)
    requires m <= |g| == |d| && forall i: nat :: i < m ==> RowSum(M, i, n) == Times(g[i], d[i])
    ensures RowsSum(M, m, n) == Dot(g[..m], d[..m])
  {
    if m > 0 {
      RowsAreDot(M, g, d, m - 1, n);
      DotPrefix(g, d, m);
    }
  }

  lemma RowIsProduct(a: seq<real>, b: seq<real>, g: seq<real>, i: nat)
    requires |a| == |b| == |g| && i < |a|
    ensures RowSum(WeightedDuel(a, b, g), i, |a|) == Times(g[i], DuelSums(a, b)[i])
  {
    RowOfDuels(a, b, g, i, |a|);
  }

  lemma {:induction false} DotAdds(u: seq<real>, x: seq<real>, z: seq<real>, y: seq<real>)
    requires |u| == |x| == |z| == |y| && forall i :: 0 <= i < |y| ==> y[i] == x[i] + z[i]
    ensures Dot(u, y) == Dot(u, x) + Dot(u, z)
  {
    if u != [] {
      var n := |u| - 1;
      DotAdds(u[..n], x[..n], z[..n], y[..n]);
    }
  }

  /** Against any weights that tied positions share, the moves of the ranks cancel. */
  lemma GapsCancel(a: seq<real>, b: seq<real>, g: seq<real>)
    requires Refines(a, b) && SameOnTies(a, g)
    ensures Dot(g, RankGaps(a, b)) == 0.0
  {
    var z, d := RankGaps(a, b), DuelSums(a, b);
    DuelsCancel(a, b, g);
    AntisymmetricSum(WeightedDuel(a, b, g), |a|);
    forall i: nat | i < |a| ensures RowSum(WeightedDuel(a, b, g), i, |a|) == Times(g[i], d[i]) {
      RowIsProduct(a, b, g, i);
    }
    RowsAreDot(WeightedDuel(a, b, g), g, d, |a|, |a|);
    assert g[..|a|] == g && d[..|a|] == d;
    forall i | 0 <= i < |a| ensures d[i] == z[i] + z[i] {
      GapFromDuels(a, b, i);
    }
    DotAdds(g, z, z, d);
  }

  // ------------------------------------------------------------- what each form sees

  /** The Pearson form sees the spread of a's own ranks; breaking ties adds the squared moves. */
  lemma SpreadsOfRefinement(a: seq<real>, b: seq<real>)
    requires Refines(a, b) && a != []
    ensures var x, y, z := Centred(RankSeq(a)), Centred(RankSeq(b)), RankGaps(a, b);
      Dot(x, y) == Dot(x, x) && Dot(y, y) == Dot(x, x) + Dot(z, z)
  {
    var x, y, z := Centred(RankSeq(a)), Centred(RankSeq(b)), RankGaps(a, b);
    MiddleRank(a);
    MiddleRank(b);
    forall i, j | 0 <= i < |a| && 0 <= j < |a| && a[i] == a[j] ensures x[i] == x[j] {
      RanksPreserveOrder(a, i, j);
    }
    GapsCancel(a, b, x);
    DotAdds(x, x, z, y);
    DotAdds(y, x, z, y);
    DotCommutes(y, x);
    DotCommutes(y, z);
    DotAdds(z, x, z, y);
    DotCommutes(z, x);
  }

  /** A broken tie moves a rank by at most half the ties. */
  lemma GapWithinTies(a: seq<real>, b: seq<real>, i: nat)
    requires Refines(a, b) && i < |a|
    ensures -HalfTies(a)[i] <= RankGaps(a, b)[i] <= HalfTies(a)[i]
    ensures (DictionaryRanks(a)[i] - DictionaryRanks(b)[i]) as real == HalfTies(a)[i] - RankGaps(a, b)[i]
  {
    var lower, equal, before := Below(a, a[i]), Level(a, a[i]), Below(b, b[i]);
    DictionaryRankCounts(a, i);
    DistinctRanks(b, i);
    assert Level(b, b[i]) == {i};
    assert lower <= before;
    assert before <= (lower + equal) - {i};
    SubsetSize(lower, before);
    SubsetSize(before, (lower + equal) - {i});
    assert |lower + equal| == |lower| + |equal|;
    assert i in lower + equal;
  }

  lemma {:induction false} SmallerSquares(z: seq<real>, w: seq<real>)
    requires |z| == |w| && forall i :: 0 <= i < |z| ==> -w[i] <= z[i] <= w[i]
    ensures Dot(z, z) <= Dot(w, w)
  {
    if z != [] {
      var n := |z| - 1;
      SmallerSquares(z[..n], w[..n]);
      SmallerSquare(z[n], w[n]);
    }
  }

  lemma SmallerSquare(z: real, w: real)
    requires -w <= z <= w
    ensures z * z <= w * w
  {
    ProductNonNegative(w - z, w + z);
  }

  /** The closed form sees at least twice the squared moves. */
  lemma GapsSeen(a: seq<real>, b: seq<real>)
    requires Refines(a, b)
    ensures Sum(SquaredGaps(DictionaryRanks(a), DictionaryRanks(b))) as real
         >= 2.0 * Dot(RankGaps(a, b), RankGaps(a, b))
  {
    var w, z := HalfTies(a), RankGaps(a, b);
    var v := Cross(w, z, 1.0, 1.0);
    forall i | 0 <= i < |a|
      ensures -w[i] <= z[i] <= w[i] && v[i] == (DictionaryRanks(a)[i] - DictionaryRanks(b)[i]) as real
    {
      GapWithinTies(a, b, i);
    }
    assert SameOnTies(a, w);
    GapsCancel(a, b, w);
    CrossSquares(w, z, 1.0, 1.0);
    GapsAsSquares(v, DictionaryRanks(a), DictionaryRanks(b));
    SmallerSquares(z, w);
  }

  // -------------------------------------------------------------------- the comparison

  /** The root of S times a larger R lies below R. */
  lemma RootBelow(S: real, R: real, sqrt: real -> real)
    requires IsSqrt(sqrt) && 0.0 < S < R
    ensures 0.0 < sqrt(S * R) && S / R < S / sqrt(S * R)
  {
    var l := sqrt(S * R);
    ProductPositive(S, R);
    SqrtOf(sqrt, S * R);
    if l >= R {
      SmallerSquare(R, l);
      ProductPositive(R - S, R);
    }
    SmallerDivisor(S, l, R);
  }

  lemma SmallerDivisor(S: real, l: real, R: real)
    requires S > 0.0 && 0.0 < l < R
    ensures S / R < S / l
  {
    QuotientTimes(S, R);
    QuotientTimes(S, l);
    SignOfProduct(S / l, l);
    ProductPositive(S / l, R - l);
    SignOfProduct(S / l - S / R, R);
    assert (S / l - S / R) * R == S / l * (R - l) + S / l * l - S / R * R;
  }

  lemma CoefficientBelow(d2: real, N: real, S: real, R: real)
    requires R > 0.0 && N == 12.0 * R && d2 >= 2.0 * (R - S)
    ensures 1.0 - 6.0 * d2 / N <= S / R
  {
    QuotientTimes(S, R);
    QuotientTimes(6.0 * d2, N);
    var gap := S / R - (1.0 - 6.0 * d2 / N);
    assert gap * R == S / R * R - R + 6.0 * d2 / N * N / 12.0;
    SignOfProduct(gap, R);
  }

  lemma TiesMoveRanks(a: seq<real>, b: seq<real>)
    requires Refines(a, b) && !Distinct(a)
    ensures Dot(RankGaps(a, b), RankGaps(a, b)) > 0.0
  {
    var z := RankGaps(a, b);
    var i, j :| 0 <= i < j < |a| && a[i] == a[j];
    RanksPreserveOrder(a, i, j);
    RanksPreserveOrder(b, i, j);
    SquaresNonNegative(z);
    assert z[i] != 0.0 || z[j] != 0.0;
  }

  lemma FormsInTerms(a: seq<real>, b: seq<real>, S: real, R: real, d2: int, N: int, sqrt: real -> real)
    requires IsSqrt(sqrt) && 0.0 < S < R && N as real == 12.0 * R && d2 as real >= 2.0 * (R - S)
    ensures Pearson(S, S, R, sqrt).Rho?
    ensures 1.0 - (6 * d2) as real / N as real < Pearson(S, S, R, sqrt).value
  {
    RootBelow(S, R, sqrt);
    CoefficientBelow(d2 as real, N as real, S, R);
    assert (6 * d2) as real == 6.0 * d2 as real;
  }

  /** Against a list that breaks a's ties and nothing else, the closed form falls short of the
      Pearson form as soon as there is a tie to break. */
  lemma ClosedFormFallsShort(a: seq<real>, b: seq<real>, sqrt: real -> real)
    requires IsSqrt(sqrt) && Refines(a, b) && !Distinct(a) && !Constant(a)
    ensures Correlate(a, b, sqrt).Rho? && Coefficient(a, b).Rho?
    ensures Coefficient(a, b).value < Correlate(a, b, sqrt).value
  {
    var x, y, z := Centred(RankSeq(a)), Centred(RankSeq(b)), RankGaps(a, b);
    DenominatorPositive(|a|);
    SpreadsOfRefinement(a, b);
    TiesMoveRanks(a, b);
    SpreadIsZero(a);
    SquaresNonNegative(x);
    DistinctSpread(b);
    GapsSeen(a, b);
    PairedDotEqualLengths(x, y);
    FormsInTerms(a, b, Dot(x, x), Dot(y, y), Sum(SquaredGaps(DictionaryRanks(a), DictionaryRanks(b))),
                 Denominator(|a|), sqrt);
  }

  /** Every list can have its ties broken. */
  lemma BreakTies(a: seq<real>) returns (b: seq<real>)
    ensures Refines(a, b)
  {
    var order := SortedPositions(a);
    SortedPositionsOrder(a);
    b := seq(|a|, i requires 0 <= i < |a| => PlaceIn(order, i) as real);
    forall i, j | 0 <= i < j < |a| ensures b[i] != b[j] {
      assert i in order && j in order;
    }
    forall i, j | 0 <= i < |a| && 0 <= j < |a| && a[i] < a[j] ensures b[i] < b[j] {
      assert i in order && j in order;
    }
  }

  function PlaceIn(order: seq<int>, i: int): int {
    if i in order then PositionOf(order, i) else 0
  }

  /** The forms agree against every list of distinct values exactly when a itself has no ties. */
  lemma AgreementIsDistinctness(a: seq<real>, sqrt: real -> real)
    requires IsSqrt(sqrt) && |a| >= 2
    ensures Distinct(a) <==> forall b | |b| == |a| && Distinct(b) :: Correlate(a, b, sqrt) == Coefficient(a, b)
  {
    if Distinct(a) {
      forall b | |b| == |a| && Distinct(b) ensures Correlate(a, b, sqrt) == Coefficient(a, b) {
        FormsAgree(a, b, sqrt);
      }
    } else {
      var b := BreakTies(a);
      if Constant(a) {
        FormsDisagreeOnConstants(a, b, sqrt);
      } else {
        ClosedFormFallsShort(a, b, sqrt);
      }
      assert Correlate(a, b, sqrt) != Coefficient(a, b);
    }
  }
}
