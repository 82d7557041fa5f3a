/** How far apart two sides' subcategory compositions are: the form over the
    subcategories present, the form over a fixed list, and their agreement. */
module TopicMix {
  import opened Sequences
  import opened Sums
  import opened Hits

  /** The twelve financial-condition subcategories of the fixed-list form. */
  const SUBCATEGORIES: seq<string> := [
    "revenue", "cost_margin", "cash_flow", "debt", "liquidity", "capital_expenditure", "impairment",
    "working_capital", "dividends", "tax", "restructuring", "acquisitions_disposals"
  ]

  // ----------------------------------------------------------------- compositions

  function CountOf(s: Side, cat: string): string -> int {
    (sc: string) => Get(s.sub, (cat, sc))
  }

  function Counts(s: Side, cat: string, subs: seq<string>): seq<int> {
    Map(CountOf(s, cat), subs)
  }

  function Fractions(v: seq<int>, total: int): seq<real>
    requires total != 0
  {
    Map((x: int) => x as real / total as real, v)
  }

  /** Shares of the total; all zeros when there is nothing to share. */
  function Composition(v: seq<int>): seq<real> {
    if Sum(v) == 0 then Map((x: int) => 0.0, v) else Fractions(v, Sum(v))
  }

  /** Cosine of the angle between two lists; none when either has no length. */
  function Cosine(a: seq<real>, b: seq<real>, sqrt: real -> real): Option<real>
    requires |a| == |b|
  {
    var na, nb := sqrt(Dot(a, a)), sqrt(Dot(b, b));
    if na == 0.0 || nb == 0.0 then None else Some(Quotient(Dot(a, b), na, nb))
  }

  function Quotient(p: real, na: real, nb: real): real
    requires na != 0.0 && nb != 0.0
  {
    NonZeroProduct(na, nb);
    p / (na * nb)
  }

  function Complement(c: Option<real>): Option<real> {
    if c.None? then None else Some(1.0 - c.value)
  }

  /** The form over the subcategories present on either side. */
  function PresentMix(E: Side, L: Side, cat: string, subs: seq<string>, sqrt: real -> real): Option<real> {
    var v1, v2 := Counts(E, cat, subs), Counts(L, cat, subs);
    if Sum(v1) != 0 && Sum(v2) != 0 then
      Complement(Cosine(Fractions(v1, Sum(v1)), Fractions(v2, Sum(v2)), sqrt))
    else None
  }

  /** The form over a fixed list of subcategories. */
  function FixedMix(E: Side, L: Side, cat: string, list: seq<string>, sqrt: real -> real): Option<real> {
    Complement(Cosine(Composition(Counts(E, cat, list)), Composition(Counts(L, cat, list)), sqrt))
  }

  /** subs lists, in some order, each subcategory recorded for the category on either side. */
  ghost predicate Present(E: Side, L: Side, cat: string, subs: seq<string>) {
    Distinct(subs) && forall sc :: sc in subs <==> (cat, sc) in E.sub || (cat, sc) in L.sub
  }

  ghost predicate NonNegativeCounts(s: Side) {
    forall k :: Get(s.sub, k) >= 0
  }

  // ------------------------------------------------- sums over a list and its support

  lemma {:induction false} FilteredSum(f: string -> int, keep: string -> bool, s: seq<string>)
    requires forall x :: x in s && !keep(x) ==> f(x) == 0
    ensures Sum(Map(f, Filter(keep, s))) == Sum(Map(f, s))
  {
    if s != [] {
      FilteredSum(f, keep, s[1..]);
      assert Map(f, s) == [f(s[0])] + Map(f, s[1..]);
      assert [f(s[0])] == [] + [f(s[0])];
      SumAppend([], f(s[0]));
      SumConcat([f(s[0])], Map(f, s[1..]));
      if keep(s[0]) {
        assert Map(f, Filter(keep, s)) == [f(s[0])] + Map(f, Filter(keep, s[1..]));
        SumConcat([f(s[0])], Map(f, Filter(keep, s[1..])));
      } else {
        assert Filter(keep, s) == Filter(keep, s[1..]);
      }
    }
  }

  lemma {:induction false} FilterDistinct(keep: string -> bool, s: seq<string>)
    requires Distinct(s)
    ensures Distinct(Filter(keep, s))
  {
    if s != [] {
      FilterDistinct(keep, s[1..]);
      FilterElements(keep, s[1..]);
      assert s[0] !in s[1..];
    }
  }

  /** Padding a list with names that count nothing, and reordering it, keep its sum. */
  lemma SumOverSupport(f: string -> int, subs: seq<string>, list: seq<string>)
    requires Distinct(subs) && Distinct(list)
    requires forall x :: x in subs ==> x in list
    requires forall x :: x !in subs ==> f(x) == 0
    ensures Sum(Map(f, subs)) == Sum(Map(f, list))
  {
    var keep := (x: string) => x in subs;
    FilteredSum(f, keep, list);
    FilterDistinct(keep, list);
    FilterElements(keep, list);
    DistinctSameElements(subs, Filter(keep, list));
    MapPermutation(f, subs, Filter(keep, list));
    SumPermutation(Map(f, subs), Map(f, Filter(keep, list)));
  }

  // ------------------------------------------------------- dot products of fractions

  function Products(v: seq<int>, w: seq<int>): seq<int>
    requires |v| == |w|
  {
    seq(|v|, i requires 0 <= i < |v| => v[i] * w[i])
  }

  lemma FractionProduct(x: int, y: int, s: int, t: int)
    requires s != 0 && t != 0
    ensures (x as real / s as real) * (y as real / t as real) == (x * y) as real / (s * t) as real
  {
    var p, q := x as real / s as real, y as real / t as real;
    var S, T := s as real, t as real;
    assert p * S == x as real && q * T == y as real;
    assert (s * t) as real == S * T && (x * y) as real == x as real * y as real;
    assert (p * q) * (S * T) == (p * S) * (q * T);
    CancelFactor(p * q, S * T, x as real * y as real);
  }

  lemma CancelFactor(q: real, b: real, a: real)
    requires b != 0.0 && q * b == a
    ensures a / b == q
  {}

  lemma AddFractions(a: int, b: int, d: int)
    requires d != 0
    ensures a as real / d as real + b as real / d as real == (a + b) as real / d as real
  {}

  lemma {:induction false} DotOfFractions(v: seq<int>, w: seq<int>, s: int, t: int)
    requires |v| == |w| && s != 0 && t != 0
    ensures s * t != 0
    ensures Dot(Fractions(v, s), Fractions(w, t)) == Sum(Products(v, w)) as real / (s * t) as real
  {
    if v != [] {
      var n := |v| - 1;
      DotOfFractions(v[..n], w[..n], s, t);
      assert Fractions(v, s)[..n] == Fractions(v[..n], s) && Fractions(w, t)[..n] == Fractions(w[..n], t);
      assert Products(v, w)[..n] == Products(v[..n], w[..n]);
      FractionProduct(v[n], w[n], s, t);
      AddFractions(Sum(Products(v[..n], w[..n])), v[n] * w[n], s * t);
    }
  }

  function CountProduct(E: Side, L: Side, cat: string): string -> int {
    (sc: string) => Get(E.sub, (cat, sc)) * Get(L.sub, (cat, sc))
  }

  lemma CountsCarryOver(E: Side, L: Side, cat: string, subs: seq<string>, list: seq<string>)
    requires Distinct(subs) && Distinct(list) && forall x :: x in subs ==> x in list
    requires forall sc :: sc !in subs ==> (cat, sc) !in E.sub && (cat, sc) !in L.sub
    ensures Sum(Counts(E, cat, subs)) == Sum(Counts(E, cat, list))
    ensures Sum(Products(Counts(E, cat, subs), Counts(L, cat, subs)))
         == Sum(Products(Counts(E, cat, list), Counts(L, cat, list)))
  {
    SumOverSupport(CountOf(E, cat), subs, list);
    SumOverSupport(CountProduct(E, L, cat), subs, list);
    assert Products(Counts(E, cat, subs), Counts(L, cat, subs)) == Map(CountProduct(E, L, cat), subs);
    assert Products(Counts(E, cat, list), Counts(L, cat, list)) == Map(CountProduct(E, L, cat), list);
  }

  lemma DotsCarryOver(E: Side, L: Side, cat: string, subs: seq<string>, list: seq<string>)
    requires Distinct(subs) && Distinct(list) && forall x :: x in subs ==> x in list
    requires forall sc :: sc !in subs ==> (cat, sc) !in E.sub && (cat, sc) !in L.sub
    requires Sum(Counts(E, cat, list)) != 0 && Sum(Counts(L, cat, list)) != 0
    ensures Sum(Counts(E, cat, subs)) == Sum(Counts(E, cat, list))
    ensures Sum(Counts(L, cat, subs)) == Sum(Counts(L, cat, list))
    ensures var s, t := Sum(Counts(E, cat, list)), Sum(Counts(L, cat, list));
      Dot(Fractions(Counts(E, cat, subs), s), Fractions(Counts(L, cat, subs), t))
      == Dot(Fractions(Counts(E, cat, list), s), Fractions(Counts(L, cat, list), t))
  {
    CountsCarryOver(E, L, cat, subs, list);
    CountsCarryOver(L, E, cat, subs, list);
    var s, t := Sum(Counts(E, cat, list)), Sum(Counts(L, cat, list));
    DotOfFractions(Counts(E, cat, subs), Counts(L, cat, subs), s, t);
    DotOfFractions(Counts(E, cat, list), Counts(L, cat, list), s, t);
  }

  lemma ZeroComposition(v: seq<int>, sqrt: real -> real)
    requires IsSqrt(sqrt) && Sum(v) == 0
    ensures sqrt(Dot(Composition(v), Composition(v))) == 0.0
  {
    DotWithZeros(Composition(v), Composition(v));
    SqrtOf(sqrt, 0.0);
  }

  /** Whenever every recorded subcategory is on the fixed list, the two forms agree, and both
      are none when a side is empty. */
  lemma FormsAgree(E: Side, L: Side, cat: string, subs: seq<string>, list: seq<string>, sqrt: real -> real)
    requires IsSqrt(sqrt) && Present(E, L, cat, subs) && Distinct(list)
    requires forall x :: x in subs ==> x in list
    ensures PresentMix(E, L, cat, subs, sqrt) == FixedMix(E, L, cat, list, sqrt)
  {
    CountsCarryOver(E, L, cat, subs, list);
    CountsCarryOver(L, E, cat, subs, list);
    var v1, v2 := Counts(E, cat, list), Counts(L, cat, list);
    if Sum(v1) == 0 {
      ZeroComposition(v1, sqrt);
    } else if Sum(v2) == 0 {
      ZeroComposition(v2, sqrt);
    } else {
      DotsCarryOver(E, L, cat, subs, list);
      DotsCarryOver(E, E, cat, subs, list);
      DotsCarryOver(L, L, cat, subs, list);
    }
  }

  lemma ListIsDistinct()
    ensures Distinct(SUBCATEGORIES)
  {
    var s := SUBCATEGORIES;
    assert forall i :: 0 <= i < 12 ==> |s[i]| > 2;
    assert forall i, j :: 0 <= i < j < 12 ==> s[i][0] != s[j][0] || s[i][1] != s[j][1] || s[i][2] != s[j][2];
  }

  /** The form as it is used: over the twelve financial-condition subcategories. */
  lemma FinancialFormsAgree(E: Side, L: Side, subs: seq<string>, sqrt: real -> real)
    requires IsSqrt(sqrt) && Present(E, L, "financial_condition", subs)
    requires forall x :: x in subs ==> x in SUBCATEGORIES
    ensures PresentMix(E, L, "financial_condition", subs, sqrt)
         == FixedMix(E, L, "financial_condition", SUBCATEGORIES, sqrt)
  {
    ListIsDistinct();
    FormsAgree(E, L, "financial_condition", subs, SUBCATEGORIES, sqrt);
  }

  // ------------------------------------------------------------- the distance itself

  lemma RangeOverRoot(p: real, l: real, a: real, b: real)
    requires l > 0.0 && l * l == a * b && p >= 0.0 && CauchyBound(p, a, b)
    ensures 0.0 <= p / l <= 1.0 && (p / l == 0.0 <==> p == 0.0) && (p / l == 1.0 <==> CauchyTight(p, a, b))
  {
    SquareOrder(p, l);
    QuotientBounds(p, l);
    if p * p == a * b {
      SqrtUnique(p, l);
    }
  }

  lemma RootsProduct(na: real, nb: real, a: real, b: real)
    requires na > 0.0 && nb > 0.0 && na * na == a && nb * nb == b
    ensures na * nb > 0.0 && (na * nb) * (na * nb) == a * b
  {
    ProductPositive(na, nb);
    assert (na * nb) * (na * nb) == (na * na) * (nb * nb);
  }

  lemma CosineRange(p: real, a: real, b: real, sqrt: real -> real)
    requires IsSqrt(sqrt) && a > 0.0 && b > 0.0 && p >= 0.0 && CauchyBound(p, a, b)
    ensures sqrt(a) != 0.0 && sqrt(b) != 0.0
    ensures var q := Quotient(p, sqrt(a), sqrt(b));
      0.0 <= q <= 1.0 && (q == 0.0 <==> p == 0.0) && (q == 1.0 <==> CauchyTight(p, a, b))
  {
    SqrtOf(sqrt, a);
    SqrtOf(sqrt, b);
    RootsProduct(sqrt(a), sqrt(b), a, b);
    RangeOverRoot(p, sqrt(a) * sqrt(b), a, b);
  }

  predicate AllNonNegative(x: seq<real>) {
    forall i :: 0 <= i < |x| ==> x[i] >= 0.0
  }

  /** No position is positive in both lists. */
  predicate Disjoint(x: seq<real>, y: seq<real>)
    requires |x| == |y|
  {
    forall i :: 0 <= i < |x| ==> x[i] == 0.0 || y[i] == 0.0
  }

  lemma {:induction false} DotNonNegative(x: seq<real>, y: seq<real>)
    requires |x| == |y| && AllNonNegative(x) && AllNonNegative(y)
    ensures Dot(x, y) >= 0.0
    ensures Dot(x, y) == 0.0 <==> Disjoint(x, y)
  {
    if x != [] {
      var n := |x| - 1;
      DotNonNegative(x[..n], y[..n]);
      ProductNonNegative(x[n], y[n]);
      assert forall i :: 0 <= i < n ==> x[..n][i] == x[i] && y[..n][i] == y[i];
      if x[n] * y[n] == 0.0 {
        ZeroProduct(x[n], y[n]);
      }
    }
  }

  /** Proportional in total. */
  ghost predicate SumsInProportion(X: real, Y: real, p: real, q: real) {
    X * p == q * Y
  }

  lemma ProportionStep(X: real, Y: real, p: real, q: real, x: real, y: real)
    requires SumsInProportion(X, Y, p, q) && x * p == q * y
    ensures SumsInProportion(X + x, Y + y, p, q)
  {}

  lemma {:induction false} ProportionalSums(x: seq<real>, y: seq<real>, p: real, q: real)
    requires |x| == |y| && Proportional(x, y, p, q)
    ensures SumsInProportion(RealSum(x), RealSum(y), p, q)
  {
    if x != [] {
      var n := |x| - 1;
      assert SumsInProportion(RealSum(x[..n]), RealSum(y[..n]), p, q) by {
        ProportionalSums(x[..n], y[..n], p, q);
      }
      ProportionStep(RealSum(x[..n]), RealSum(y[..n]), p, q, x[n], y[n]);
    }
  }

  lemma TightMeansEqual(x: seq<real>, y: seq<real>)
    requires |x| == |y| && RealSum(x) == 1.0 && RealSum(y) == 1.0 && Dot(x, x) > 0.0
    requires CauchyTight(Dot(x, y), Dot(x, x), Dot(y, y))
    ensures x == y
  {
    CauchySchwarzEquality(x, y);
    ProportionalSums(x, y, Dot(x, y), Dot(x, x));
    EqualFromProportional(x, y, Dot(x, x));
  }

  lemma EqualFromProportional(x: seq<real>, y: seq<real>, p: real)
    requires |x| == |y| && p > 0.0 && Proportional(x, y, p, p)
    ensures x == y
  {
    forall i | 0 <= i < |x| ensures x[i] == y[i] {
      assert (x[i] - y[i]) * p == x[i] * p - p * y[i];
      ZeroProduct(x[i] - y[i], p);
    }
  }

  lemma {:induction false} FractionsSum(v: seq<int>, t: int)
    requires t != 0
    ensures RealSum(Fractions(v, t)) == Sum(v) as real / t as real
  {
    if v != [] {
      var n := |v| - 1;
      FractionsSum(v[..n], t);
      assert Fractions(v, t)[..n] == Fractions(v[..n], t);
      AddFractions(Sum(v[..n]), v[n], t);
    }
  }

  lemma {:induction false} PositiveSum(v: seq<int>)
    requires forall i :: 0 <= i < |v| ==> v[i] >= 0
    ensures Sum(v) >= 0 && (Sum(v) == 0 <==> forall i :: 0 <= i < |v| ==> v[i] == 0)
  {
    if v != [] {
      var n := |v| - 1;
      assert forall i :: 0 <= i < n ==> v[..n][i] == v[i];
      PositiveSum(v[..n]);
    }
  }

  lemma FractionsFacts(v: seq<int>)
    requires Sum(v) != 0 && forall i :: 0 <= i < |v| ==> v[i] >= 0
    ensures var x := Fractions(v, Sum(v)); AllNonNegative(x) && RealSum(x) == 1.0 && Dot(x, x) > 0.0
  {
    var t := Sum(v);
    var x := Fractions(v, t);
    PositiveSum(v);
    FractionsSum(v, t);
    QuotientBounds(t as real, t as real);
    forall i | 0 <= i < |v| ensures x[i] >= 0.0 && (x[i] == 0.0 <==> v[i] == 0) {
      QuotientBounds(v[i] as real, t as real);
    }
    SquaresNonNegative(x);
  }

  /** The distance exists exactly when both sides have hits in the category; it lies in [0, 1], is
      zero exactly for equal compositions and one exactly when no subcategory is shared. */
  lemma MixDistance(E: Side, L: Side, cat: string, subs: seq<string>, sqrt: real -> real)
    requires IsSqrt(sqrt) && NonNegativeCounts(E) && NonNegativeCounts(L)
    ensures var v1, v2, d := Counts(E, cat, subs), Counts(L, cat, subs), PresentMix(E, L, cat, subs, sqrt);
      && (d.Some? <==> Sum(v1) > 0 && Sum(v2) > 0)
      && (d.Some? ==>
            && 0.0 <= d.value <= 1.0
            && (d.value == 0.0 <==> Composition(v1) == Composition(v2))
            && (d.value == 1.0 <==> Disjoint(Composition(v1), Composition(v2))))
  {
    var v1, v2 := Counts(E, cat, subs), Counts(L, cat, subs);
    PositiveSum(v1);
    PositiveSum(v2);
    if Sum(v1) > 0 && Sum(v2) > 0 {
      FractionsFacts(v1);
      FractionsFacts(v2);
      DistanceOf(Fractions(v1, Sum(v1)), Fractions(v2, Sum(v2)), sqrt);
    }
  }

  lemma DistanceOf(x: seq<real>, y: seq<real>, sqrt: real -> real)
    requires IsSqrt(sqrt) && |x| == |y| && AllNonNegative(x) && AllNonNegative(y)
    requires RealSum(x) == 1.0 && RealSum(y) == 1.0 && Dot(x, x) > 0.0 && Dot(y, y) > 0.0
    ensures var d := Complement(Cosine(x, y, sqrt));
      d.Some? && 0.0 <= d.value <= 1.0 && (d.value == 0.0 <==> x == y) && (d.value == 1.0 <==> Disjoint(x, y))
  {
    CauchySchwarz(x, y);
    DotNonNegative(x, y);
    CosineRange(Dot(x, y), Dot(x, x), Dot(y, y), sqrt);
    if CauchyTight(Dot(x, y), Dot(x, x), Dot(y, y)) {
      TightMeansEqual(x, y);
    }
    if x == y {
      assert CauchyTight(Dot(x, y), Dot(x, x), Dot(y, y));
    }
  }

  /** A quotient by the roots of a and b, squared and multiplied out. */
  ghost predicate CosineEquation(q: real, p: real, a: real, b: real) {
    q >= 0.0 && q * q * (a * b) == p * p
  }

  lemma CosineSquared(p: real, a: real, b: real, sqrt: real -> real)
    requires IsSqrt(sqrt) && a > 0.0 && b > 0.0 && p >= 0.0
    ensures sqrt(a) != 0.0 && sqrt(b) != 0.0 && CosineEquation(Quotient(p, sqrt(a), sqrt(b)), p, a, b)
  {
    var na, nb := sqrt(a), sqrt(b);
    SqrtOf(sqrt, a);
    SqrtOf(sqrt, b);
    ProductPositive(na, nb);
    var q := p / (na * nb);
    QuotientTimes(p, na * nb);
    QuotientBounds(p, na * nb);
    assert q * q * (a * b) == (q * (na * nb)) * (q * (na * nb));
  }

  lemma Unscaled(q: real, P: real, A: real, B: real, p: int, a: int, b: int, s: int, t: int)
    requires s > 0 && t > 0 && CosineEquation(q, P, A, B)
    requires s * t != 0 && P == p as real / (s * t) as real
    requires s * s != 0 && A == a as real / (s * s) as real
    requires t * t != 0 && B == b as real / (t * t) as real
    ensures CosineEquation(q, p as real, a as real, b as real)
  {
    var S, T := s as real, t as real;
    Restored(p as real, (s * t) as real);
    Restored(a as real, (s * s) as real);
    Restored(b as real, (t * t) as real);
    assert (s * s) as real == S * S && (t * t) as real == T * T && (s * t) as real == S * T;
    UnscaledReals(q, P, A, B, p as real, a as real, b as real, S, T);
  }

  lemma UnscaledReals(q: real, P: real, A: real, B: real, p: real, a: real, b: real, s: real, t: real)
    requires q * q * (A * B) == P * P && P * (s * t) == p && A * (s * s) == a && B * (t * t) == b
    ensures q * q * (a * b) == p * p
  {
    assert q * q * (a * b) == q * q * (A * B) * ((s * s) * (t * t));
    assert p * p == P * P * ((s * t) * (s * t));
    assert (s * s) * (t * t) == (s * t) * (s * t);
  }

  lemma Restored(a: real, b: real)
    requires b != 0.0
    ensures a / b * b == a
  {}

  lemma FormulaOf(v: seq<int>, w: seq<int>, x: seq<real>, y: seq<real>, q: real)
    requires |v| == |w| && Sum(v) > 0 && Sum(w) > 0 && x == Fractions(v, Sum(v)) && y == Fractions(w, Sum(w))
    requires CosineEquation(q, Dot(x, y), Dot(x, x), Dot(y, y))
    ensures CosineEquation(q, Sum(Products(v, w)) as real, Sum(Products(v, v)) as real, Sum(Products(w, w)) as real)
  {
    var s, t := Sum(v), Sum(w);
    DotOfFractions(v, w, s, t);
    DotOfFractions(v, v, s, s);
    DotOfFractions(w, w, t, t);
    Unscaled(q, Dot(x, y), Dot(x, x), Dot(y, y), Sum(Products(v, w)), Sum(Products(v, v)), Sum(Products(w, w)), s, t);
  }

  /** The distance in the counts themselves: one minus it is not negative, and its square, times the two sums
      of squares, is the square of the sum of products. */
  lemma MixFormula(E: Side, L: Side, cat: string, subs: seq<string>, sqrt: real -> real)
    requires IsSqrt(sqrt) && NonNegativeCounts(E) && NonNegativeCounts(L)
    ensures var v1, v2, d := Counts(E, cat, subs), Counts(L, cat, subs), PresentMix(E, L, cat, subs, sqrt);
      d.Some? ==> CosineEquation(1.0 - d.value, Sum(Products(v1, v2)) as real,
                                 Sum(Products(v1, v1)) as real, Sum(Products(v2, v2)) as real)
  {
    var v1, v2 := Counts(E, cat, subs), Counts(L, cat, subs);
    PositiveSum(v1);
    PositiveSum(v2);
    if Sum(v1) > 0 && Sum(v2) > 0 {
      var x, y := Fractions(v1, Sum(v1)), Fractions(v2, Sum(v2));
      FractionsFacts(v1);
      FractionsFacts(v2);
      DotNonNegative(x, y);
      CosineSquared(Dot(x, y), Dot(x, x), Dot(y, y), sqrt);
      FormulaOf(v1, v2, x, y, Quotient(Dot(x, y), sqrt(Dot(x, x)), sqrt(Dot(y, y))));
    }
  }

  /** Only proportions matter: multiplying all of a side's counts leaves its composition alone. */
  lemma ScalingKeepsComposition(v: seq<int>, k: int)
    requires k != 0
    ensures Composition(Map((x: int) => k * x, v)) == Composition(v)
  {
    ScaledSum(v, k);
    if Sum(v) != 0 {
      forall i | 0 <= i < |v| ensures (k * v[i]) as real / (k * Sum(v)) as real == v[i] as real / Sum(v) as real {
        FractionProduct(k, v[i], k, Sum(v));
        CancelFactor(1.0, k as real, k as real);
      }
    }
  }

  /** F has k times the hits of E in each subcategory. */
  ghost predicate Multiplies(E: Side, F: Side, cat: string, k: int) {
    forall sc :: CountOf(F, cat)(sc) == k * CountOf(E, cat)(sc)
  }

  lemma MultipliedComposition(E: Side, F: Side, cat: string, subs: seq<string>, k: int)
    requires k != 0 && Multiplies(E, F, cat, k)
    ensures Composition(Counts(F, cat, subs)) == Composition(Counts(E, cat, subs))
    ensures Sum(Counts(F, cat, subs)) == 0 <==> Sum(Counts(E, cat, subs)) == 0
  {
    var v := Counts(E, cat, subs);
    assert Counts(F, cat, subs) == Map((x: int) => k * x, v);
    ScalingKeepsComposition(v, k);
    ScaledSum(v, k);
  }

  /** Only proportions matter: multiplying either side's hits, each by its own factor, changes neither
      form of the distance. */
  lemma MixIgnoresVolume(
    E: Side, L: Side, F: Side, G: Side, cat: string, subs: seq<string>, sqrt: real -> real, j: int, k: int
  )
    requires j != 0 && k != 0 && Multiplies(E, F, cat, j) && Multiplies(L, G, cat, k)
    ensures PresentMix(F, G, cat, subs, sqrt) == PresentMix(E, L, cat, subs, sqrt)
    ensures FixedMix(F, G, cat, subs, sqrt) == FixedMix(E, L, cat, subs, sqrt)
  {
    MultipliedComposition(E, F, cat, subs, j);
    MultipliedComposition(L, G, cat, subs, k);
  }

  lemma {:induction false} ScaledSum(v: seq<int>, k: int)
    requires k != 0
    ensures Sum(Map((x: int) => k * x, v)) == k * Sum(v)
    ensures k * Sum(v) == 0 <==> Sum(v) == 0
  {
    if v != [] {
      ScaledSum(v[..|v| - 1], k);
      SumMapLast((x: int) => k * x, v);
    }
  }
}
