/** Topic-change metrics: the count and density legs, the rules that combine them,
    and the exact splits of density and share changes. */
module TopicChange {
  import opened Sums

  function Abs(x: real): real {
    if x < 0.0 then -x else x
  }

  function Min(x: real, y: real): real {
    if x <= y then x else y
  }

  function Max(x: real, y: real): real {
    if x <= y then y else x
  }

  function CopySign(magnitude: real, sign: real): real {
    if sign < 0.0 then -Abs(magnitude) else Abs(magnitude)
  }

  // ------------------------------------------------------------ combination rules

  /** The smaller leg where both agree in sign, else zero. */
  function Conjunction(volume: real, prominence: real): real {
    if volume * prominence <= 0.0 then 0.0
    else CopySign(Min(Abs(volume), Abs(prominence)), volume)
  }

  predicate Agree(d: real, m: real) {
    d * m > 0.0
  }

  function CMin(d: real, m: real): real {
    if Agree(d, m) then CopySign(Min(Abs(d), Abs(m)), d) else 0.0
  }

  function CCount(d: real, m: real): real {
    if Agree(d, m) then d else 0.0
  }

  function CDensity(d: real, m: real): real {
    if Agree(d, m) then m else 0.0
  }

  function HarmonicMean(a: real, b: real): real
    requires a > 0.0 && b > 0.0
  {
    2.0 * a * b / (a + b)
  }

  function GeometricMean(a: real, b: real, sqrt: real -> real): real {
    sqrt(a * b)
  }

  function CGeo(d: real, m: real, sqrt: real -> real): real {
    if Agree(d, m) then CopySign(GeometricMean(Abs(d), Abs(m), sqrt), d) else 0.0
  }

  function CHarm(d: real, m: real): real {
    if !Agree(d, m) then 0.0
    else
      AgreeSigns(d, m);
      CopySign(HarmonicMean(Abs(d), Abs(m)), d)
  }

  lemma AgreeSigns(d: real, m: real)
    ensures Agree(d, m) <==> (d > 0.0 && m > 0.0) || (d < 0.0 && m < 0.0)
  {
    if d > 0.0 && m > 0.0 {
      ProductPositive(d, m);
    } else if d < 0.0 && m < 0.0 {
      ProductPositive(-d, -m);
    } else if d > 0.0 {
      ProductNonNegative(d, -m);
    } else if d < 0.0 {
      ProductNonNegative(-d, m);
    }
  }

  function Median(a: real, b: real, c: real): real {
    Max(Min(a, b), Min(Max(a, b), c))
  }

  predicate Between(a: real, x: real, b: real) {
    a <= x <= b || b <= x <= a
  }

  /** x is one of the three and lies between the other two. */
  predicate IsMiddle(x: real, a: real, b: real, c: real) {
    || (x == a && Between(b, a, c))
    || (x == b && Between(a, b, c))
    || (x == c && Between(a, c, b))
  }

  /** Both scripts' rules are the same function: the median of zero and the two legs. */
  lemma ConjunctionIsMedian(d: real, m: real)
    ensures Conjunction(d, m) == CMin(d, m) == Median(0.0, d, m)
    ensures IsMiddle(Conjunction(d, m), 0.0, d, m)
  {
    AgreeSigns(d, m);
  }

  /** The chosen rule has no cliff: moving the legs moves it by no more than the legs moved. */
  lemma ConjunctionIsContinuous(d: real, m: real, d': real, m': real)
    ensures Abs(Conjunction(d, m) - Conjunction(d', m')) <= Max(Abs(d - d'), Abs(m - m'))
  {
    ConjunctionIsMedian(d, m);
    ConjunctionIsMedian(d', m');
  }

  lemma GateAt(leg: real, other: real)
    requires leg != 0.0
    ensures CCount(leg, other) == CDensity(other, leg)
         == if (leg > 0.0 && other > 0.0) || (leg < 0.0 && other < 0.0) then leg else 0.0
  {
    AgreeSigns(leg, other);
    AgreeSigns(other, leg);
  }

  /** The single-leg rules have a cliff: however near zero the other leg is, it decides between the
      whole leg on one side of zero and nothing on the other. */
  lemma SingleLegRulesJump(leg: real, eps: real)
    requires leg != 0.0 && eps > 0.0
    ensures exists x :: Abs(x) < eps && CCount(leg, x) == leg && CCount(leg, 0.0) == CCount(leg, -x) == 0.0
    ensures exists x :: Abs(x) < eps && CDensity(x, leg) == leg && CDensity(0.0, leg) == CDensity(-x, leg) == 0.0
  {
    var x := if leg > 0.0 then eps / 2.0 else -eps / 2.0;
    GateAt(leg, x);
    GateAt(leg, -x);
    GateAt(leg, 0.0);
    assert CCount(leg, x) == leg && CDensity(x, leg) == leg;
  }

  lemma HarmonicBetween(a: real, b: real)
    requires 0.0 < a <= b
    ensures a <= HarmonicMean(a, b) <= 2.0 * a
    ensures HarmonicMean(a, b) * HarmonicMean(a, b) <= a * b
  {
    var h := HarmonicMean(a, b);
    QuotientTimes(2.0 * a * b, a + b);
    assert (h - a) * (a + b) == a * (b - a);
    ProductNonNegative(a, b - a);
    SignOfProduct(h - a, a + b);
    assert (2.0 * a - h) * (a + b) == 2.0 * a * a;
    SignOfProduct(2.0 * a - h, a + b);
    HarmonicSquare(a, b, h);
  }

  lemma HarmonicSquare(a: real, b: real, h: real)
    requires a > 0.0 && b > 0.0 && h * (a + b) == 2.0 * a * b
    ensures h * h <= a * b
  {
    var t := a + b;
    assert h * h * (t * t) == (h * t) * (h * t) == 4.0 * (a * b) * (a * b);
    SquareNonNegative(a - b);
    assert t * t == 4.0 * (a * b) + (a - b) * (a - b);
    ProductPositive(a, b);
    ProductPositive(t, t);
    ProductNonNegative(a * b, (a - b) * (a - b));
    assert (a * b - h * h) * (t * t) == (a * b) * ((a - b) * (a - b));
    SignOfProduct(a * b - h * h, t * t);
  }

  lemma HarmonicAgainstMin(a: real, b: real)
    requires a > 0.0 && b > 0.0
    ensures 0.0 < Min(a, b) <= HarmonicMean(a, b) <= 2.0 * Min(a, b)
    ensures HarmonicMean(a, b) * HarmonicMean(a, b) <= a * b
  {
    if a <= b {
      HarmonicBetween(a, b);
    } else {
      HarmonicBetween(b, a);
      assert HarmonicMean(b, a) == HarmonicMean(a, b);
    }
  }

  lemma HarmonicMonotone(a: real, b: real, a': real, b': real)
    requires 0.0 < a <= a' && 0.0 < b <= b'
    ensures HarmonicMean(a, b) <= HarmonicMean(a', b')
  {
    HarmonicGrows(a, b, b');
    HarmonicGrows(b', a, a');
    HarmonicCommutes(a, b');
    HarmonicCommutes(a', b');
  }

  lemma HarmonicCommutes(a: real, b: real)
    requires a > 0.0 && b > 0.0
    ensures HarmonicMean(a, b) == HarmonicMean(b, a)
  {}

  lemma HarmonicGrows(a: real, b: real, b': real)
    requires a > 0.0 && 0.0 < b <= b'
    ensures HarmonicMean(a, b) <= HarmonicMean(a, b')
  {
    var h := HarmonicMean(a, b);
    QuotientTimes(2.0 * a * b, a + b);
    HarmonicAgainstMin(a, b);
    ProductNonNegative(2.0 * a - h, b' - b);
    assert h * (a + b') == 2.0 * a * b + h * (b' - b);
    QuotientAtLeast(2.0 * a * b', a + b', h);
  }

  lemma QuotientAtLeast(a: real, b: real, q: real)
    requires b > 0.0
    ensures q * b <= a ==> q <= a / b
    ensures a <= q * b ==> a / b <= q
  {
    QuotientTimes(a, b);
    SignOfProduct(a / b - q, b);
    assert (a / b - q) * b == a - q * b;
  }

  /** Raising both arguments raises the harmonic mean by at most twice as much. */
  lemma HarmonicShift(a: real, b: real, t: real)
    requires a > 0.0 && b > 0.0 && t >= 0.0
    ensures HarmonicMean(a + t, b + t) <= HarmonicMean(a, b) + 2.0 * t
  {
    var h, n := HarmonicMean(a, b), a + b;
    QuotientTimes(2.0 * a * b, n);
    HarmonicAgainstMin(a, b);
    assert h * n == 2.0 * a * b;
    ProductNonNegative(h, t);
    ProductNonNegative(t, t);
    assert 2.0 * (a + t) * (b + t) == 2.0 * a * b + 2.0 * t * n + 2.0 * (t * t);
    assert (h + 2.0 * t) * (n + 2.0 * t) == h * n + 2.0 * (h * t) + 2.0 * t * n + 4.0 * (t * t);
    QuotientAtLeast(2.0 * (a + t) * (b + t), n + 2.0 * t, h + 2.0 * t);
  }

  lemma HarmonicMoves(a: real, b: real, a': real, b': real, t: real)
    requires a > 0.0 && b > 0.0 && a' > 0.0 && b' > 0.0 && a' <= a + t && b' <= b + t && t >= 0.0
    ensures HarmonicMean(a', b') <= HarmonicMean(a, b) + 2.0 * t
  {
    HarmonicMonotone(a', b', a + t, b + t);
    HarmonicShift(a, b, t);
  }

  /** The harmonic rule by the signs of its legs, and twice either leg as its bound. */
  lemma HarmonicRule(d: real, m: real)
    ensures if d > 0.0 && m > 0.0 then CHarm(d, m) == HarmonicMean(d, m)
            else if d < 0.0 && m < 0.0 then CHarm(d, m) == -HarmonicMean(-d, -m)
            else CHarm(d, m) == 0.0
    ensures d > 0.0 && m > 0.0 ==> 0.0 < CHarm(d, m) <= 2.0 * d && CHarm(d, m) <= 2.0 * m
    ensures d < 0.0 && m < 0.0 ==> 2.0 * d <= CHarm(d, m) < 0.0 && 2.0 * m <= CHarm(d, m)
  {
    AgreeSigns(d, m);
    if Agree(d, m) {
      HarmonicAgainstMin(Abs(d), Abs(m));
    }
  }

  /** The harmonic rule has no cliff either, but may move by twice as much as the legs. */
  lemma HarmonicRuleIsContinuous(d: real, m: real, d': real, m': real)
    ensures Abs(CHarm(d, m) - CHarm(d', m')) <= 2.0 * Max(Abs(d - d'), Abs(m - m'))
  {
    var t := Max(Abs(d - d'), Abs(m - m'));
    HarmonicRule(d, m);
    HarmonicRule(d', m');
    if d > 0.0 && m > 0.0 && d' > 0.0 && m' > 0.0 {
      HarmonicMoves(d, m, d', m', t);
      HarmonicMoves(d', m', d, m, t);
    } else if d < 0.0 && m < 0.0 && d' < 0.0 && m' < 0.0 {
      HarmonicMoves(-d, -m, -d', -m', t);
      HarmonicMoves(-d', -m', -d, -m, t);
    }
  }

  lemma GeometricBetween(a: real, b: real, h: real, sqrt: real -> real)
    requires IsSqrt(sqrt) && a > 0.0 && b > 0.0 && h > 0.0 && h * h <= a * b
    ensures 0.0 < h <= GeometricMean(a, b, sqrt) <= Max(a, b)
  {
    ProductPositive(a, b);
    SqrtOf(sqrt, a * b);
    SquareOrder(h, sqrt(a * b));
    if a <= b {
      ProductNonNegative(b - a, b);
      SquareOrder(sqrt(a * b), b);
    } else {
      ProductNonNegative(a - b, a);
      SquareOrder(sqrt(a * b), a);
    }
  }

  predicate SameSign(c: real, d: real) {
    (c > 0.0 <==> d > 0.0) && (c < 0.0 <==> d < 0.0)
  }

  lemma CopySignFacts(x: real, d: real)
    requires x > 0.0 && d != 0.0
    ensures Abs(CopySign(x, d)) == x && SameSign(CopySign(x, d), d)
  {}

  /** Where the legs agree every rule keeps their sign, and the magnitudes are ordered:
      min <= harmonic <= geometric <= larger leg, with harmonic at most twice min. */
  lemma RulesOrdered(d: real, m: real, sqrt: real -> real)
    requires IsSqrt(sqrt) && Agree(d, m)
    ensures Abs(CMin(d, m)) <= Abs(CHarm(d, m)) <= Abs(CGeo(d, m, sqrt)) <= Max(Abs(CCount(d, m)), Abs(CDensity(d, m)))
    ensures Abs(CHarm(d, m)) <= 2.0 * Abs(CMin(d, m))
    ensures SameSign(CMin(d, m), d) && SameSign(CHarm(d, m), d) && SameSign(CGeo(d, m, sqrt), d)
    ensures SameSign(CCount(d, m), d) && SameSign(CDensity(d, m), d)
  {
    AgreeSigns(d, m);
    var a, b := Abs(d), Abs(m);
    var low, harm, geo := Min(a, b), HarmonicMean(a, b), GeometricMean(a, b, sqrt);
    HarmonicAgainstMin(a, b);
    GeometricBetween(a, b, harm, sqrt);
    CopySignFacts(low, d);
    CopySignFacts(harm, d);
    CopySignFacts(geo, d);
  }

  /** What the two mean rules are: for agreeing legs the square of the one is their product, and the other
      has the reciprocal mean of their reciprocals; otherwise both are zero. */
  lemma RulesAreMeans(d: real, m: real, sqrt: real -> real)
    requires IsSqrt(sqrt)
    ensures d * m > 0.0 ==> CGeo(d, m, sqrt) * CGeo(d, m, sqrt) == d * m && CHarm(d, m) * (d + m) == 2.0 * (d * m)
    ensures d * m <= 0.0 ==> CGeo(d, m, sqrt) == CHarm(d, m) == 0.0
  {
    if Agree(d, m) {
      AgreeSigns(d, m);
      GeometricSquare(Abs(d), Abs(m), sqrt);
      QuotientTimes(2.0 * Abs(d) * Abs(m), Abs(d) + Abs(m));
      assert Abs(d) * Abs(m) == d * m;
    }
  }

  lemma GeometricSquare(a: real, b: real, sqrt: real -> real)
    requires IsSqrt(sqrt) && a > 0.0 && b > 0.0
    ensures GeometricMean(a, b, sqrt) >= 0.0 && GeometricMean(a, b, sqrt) * GeometricMean(a, b, sqrt) == a * b
  {
    ProductPositive(a, b);
    SqrtOf(sqrt, a * b);
  }

  // ------------------------------------------------------------------ the two legs

  /** Hit change per 1,000 words of the two reports' average length. */
  function CountLeg(h1: real, w1: real, h2: real, w2: real): real
    requires w1 > 0.0 && w2 > 0.0
  {
    1000.0 * (h2 - h1) / ((w1 + w2) / 2.0)
  }

  /** Change of hits per 1,000 words. */
  function DensityLeg(h1: real, w1: real, h2: real, w2: real): real
    requires w1 > 0.0 && w2 > 0.0
  {
    1000.0 * (h2 / w2 - h1 / w1)
  }

  function TopicChange(h1: real, w1: real, h2: real, w2: real): real
    requires w1 > 0.0 && w2 > 0.0
  {
    Conjunction(CountLeg(h1, w1, h2, w2), DensityLeg(h1, w1, h2, w2))
  }

  /** Later hits beyond what scaling the earlier report to the later length predicts. */
  function Excess(h1: real, w1: real, h2: real, w2: real): real {
    h2 * w1 - h1 * w2
  }

  lemma DensityScaled(h1: real, w1: real, h2: real, w2: real)
    requires w1 > 0.0 && w2 > 0.0
    ensures DensityLeg(h1, w1, h2, w2) * (w1 * w2) == 1000.0 * Excess(h1, w1, h2, w2)
  {
    var a, b := h1 / w1, h2 / w2;
    QuotientTimes(h1, w1);
    QuotientTimes(h2, w2);
    assert (b - a) * (w1 * w2) == (b * w2) * w1 - (a * w1) * w2;
  }

  lemma CountScaled(h1: real, w1: real, h2: real, w2: real)
    requires w1 > 0.0 && w2 > 0.0
    ensures CountLeg(h1, w1, h2, w2) * (w1 + w2) == 2000.0 * (h2 - h1)
  {
    QuotientTimes(1000.0 * (h2 - h1), (w1 + w2) / 2.0);
  }

  lemma LegSigns(h1: real, w1: real, h2: real, w2: real)
    requires w1 > 0.0 && w2 > 0.0
    ensures var d, m, e := CountLeg(h1, w1, h2, w2), DensityLeg(h1, w1, h2, w2), Excess(h1, w1, h2, w2);
      && (d > 0.0 <==> h2 > h1) && (d < 0.0 <==> h2 < h1)
      && (m > 0.0 <==> e > 0.0) && (m < 0.0 <==> e < 0.0)
  {
    var d, m := CountLeg(h1, w1, h2, w2), DensityLeg(h1, w1, h2, w2);
    CountScaled(h1, w1, h2, w2);
    DensityScaled(h1, w1, h2, w2);
    ProductPositive(w1, w2);
    SignOfProduct(d, w1 + w2);
    SignOfProduct(m, w1 * w2);
  }

  /** The legs differ by the length change times a weighted sum of the counts. */
  lemma LegGap(h1: real, w1: real, h2: real, w2: real)
    requires w1 > 0.0 && w2 > 0.0
    ensures var d, m := CountLeg(h1, w1, h2, w2), DensityLeg(h1, w1, h2, w2);
      (d - m) * (w1 * w2 * (w1 + w2)) == 1000.0 * ((w2 - w1) * (h2 * w1 + h1 * w2))
  {
    CountScaled(h1, w1, h2, w2);
    DensityScaled(h1, w1, h2, w2);
    GapAlgebra(h1, w1, h2, w2, CountLeg(h1, w1, h2, w2), DensityLeg(h1, w1, h2, w2));
  }

  lemma GapAlgebra(h1: real, w1: real, h2: real, w2: real, d: real, m: real)
    requires d * (w1 + w2) == 2000.0 * (h2 - h1)
    requires m * (w1 * w2) == 1000.0 * (h2 * w1 - h1 * w2)
    ensures (d - m) * (w1 * w2 * (w1 + w2)) == 1000.0 * ((w2 - w1) * (h2 * w1 + h1 * w2))
  {
    assert d * (w1 * w2 * (w1 + w2)) == (d * (w1 + w2)) * (w1 * w2) == 2000.0 * (h2 - h1) * (w1 * w2);
    assert m * (w1 * w2 * (w1 + w2)) == (m * (w1 * w2)) * (w1 + w2) == 1000.0 * (h2 * w1 - h1 * w2) * (w1 + w2);
  }

  lemma LegOrder(h1: real, w1: real, h2: real, w2: real)
    requires w1 > 0.0 && w2 > 0.0 && h1 >= 0.0 && h2 >= 0.0
    ensures w2 >= w1 ==> CountLeg(h1, w1, h2, w2) >= DensityLeg(h1, w1, h2, w2)
    ensures w2 <= w1 ==> CountLeg(h1, w1, h2, w2) <= DensityLeg(h1, w1, h2, w2)
  {
    var gap, weight := CountLeg(h1, w1, h2, w2) - DensityLeg(h1, w1, h2, w2), h2 * w1 + h1 * w2;
    LegGap(h1, w1, h2, w2);
    ProductNonNegative(h2, w1);
    ProductNonNegative(h1, w2);
    ProductPositive(w1, w2);
    ProductPositive(w1 * w2, w1 + w2);
    SignOfProduct(gap, w1 * w2 * (w1 + w2));
    SignOfProduct(-gap, w1 * w2 * (w1 + w2));
    if w2 >= w1 {
      ProductNonNegative(w2 - w1, weight);
    }
    if w2 <= w1 {
      ProductNonNegative(w1 - w2, weight);
      assert (w1 - w2) * weight == -((w2 - w1) * weight);
      assert -gap * (w1 * w2 * (w1 + w2)) == -(gap * (w1 * w2 * (w1 + w2)));
    }
  }

  /** Which leg the metric reports. It is zero unless the count change and the excess over
      proportional scaling agree; then it is the density leg when hits and length moved the
      same way (or the length did not move), and the count leg when they moved oppositely. */
  lemma LegSelection(h1: real, w1: real, h2: real, w2: real)
    requires w1 > 0.0 && w2 > 0.0 && h1 >= 0.0 && h2 >= 0.0
    ensures var d, m, e := CountLeg(h1, w1, h2, w2), DensityLeg(h1, w1, h2, w2), Excess(h1, w1, h2, w2);
      TopicChange(h1, w1, h2, w2) ==
        if h2 > h1 && e > 0.0 then (if w2 >= w1 then m else d)
        else if h2 < h1 && e < 0.0 then (if w2 <= w1 then m else d)
        else 0.0
  {
    LegSigns(h1, w1, h2, w2);
    LegOrder(h1, w1, h2, w2);
    ConjunctionIsMedian(CountLeg(h1, w1, h2, w2), DensityLeg(h1, w1, h2, w2));
  }

  /** Flat counts and proportional scaling report no change; opposite movement always
      reports the count leg. */
  lemma LegSelectionCases(h1: real, w1: real, h2: real, w2: real)
    requires w1 > 0.0 && w2 > 0.0 && h1 >= 0.0 && h2 >= 0.0
    ensures h1 == h2 ==> TopicChange(h1, w1, h2, w2) == 0.0
    ensures h2 * w1 == h1 * w2 ==> TopicChange(h1, w1, h2, w2) == 0.0
    ensures (h2 > h1 && w2 < w1) || (h2 < h1 && w2 > w1) ==>
      TopicChange(h1, w1, h2, w2) == CountLeg(h1, w1, h2, w2) != 0.0
    ensures (h2 > h1 && w2 >= w1) || (h2 < h1 && w2 <= w1) ==>
      TopicChange(h1, w1, h2, w2) in {0.0, DensityLeg(h1, w1, h2, w2)}
  {
    LegSelection(h1, w1, h2, w2);
    LegSigns(h1, w1, h2, w2);
    if h2 > h1 && w2 < w1 {
      ProductPositive(h2 - h1, w1);
      ProductNonNegative(h1, w1 - w2);
      assert Excess(h1, w1, h2, w2) == (h2 - h1) * w1 + h1 * (w1 - w2);
    }
    if h2 < h1 && w2 > w1 {
      ProductPositive(h1 - h2, w1);
      ProductNonNegative(h1, w2 - w1);
      assert -Excess(h1, w1, h2, w2) == (h1 - h2) * w1 + h1 * (w2 - w1);
    }
  }

  /** Reading the pair of reports backwards negates the metric. */
  lemma SwapNegates(h1: real, w1: real, h2: real, w2: real)
    requires w1 > 0.0 && w2 > 0.0
    ensures TopicChange(h2, w2, h1, w1) == -TopicChange(h1, w1, h2, w2)
  {
    var d, m := CountLeg(h1, w1, h2, w2), DensityLeg(h1, w1, h2, w2);
    CountScaled(h1, w1, h2, w2);
    QuotientOf(-d, (w2 + w1) / 2.0, 1000.0 * (h1 - h2));
    ConjunctionIsMedian(d, m);
    ConjunctionIsMedian(-d, -m);
  }
}
