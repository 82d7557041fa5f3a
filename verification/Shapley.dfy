/** The splits of a density change into volume and length, and of a share change
    into own and other movement, as Shapley values over two aggregated sides. */
module Shapley {
  import opened Sums
  import opened Hits
  import opened TopicChange

  const CUSTOM: seq<string> := ["risk", "financial_condition", "governance", "strategy"]

  /** What moving the first input contributes to f, averaged over both orders of moving. */
  function ShapleyPart(f: (real, real) -> real, a1: real, a2: real, b1: real, b2: real): real {
    0.5 * ((f(a2, b1) - f(a1, b1)) + (f(a2, b2) - f(a1, b2)))
  }

  /** The same for the second input. */
  function ShapleyRest(f: (real, real) -> real, a1: real, a2: real, b1: real, b2: real): real {
    0.5 * ((f(a1, b2) - f(a1, b1)) + (f(a2, b2) - f(a2, b1)))
  }

  function Rate(): (real, real) -> real {
    (h: real, w: real) => if w == 0.0 then 0.0 else 1000.0 * h / w
  }

  /** A category's share of all hits; zero when there are none. */
  function ShareOf(): (real, real) -> real {
    (h: real, o: real) => if h + o != 0.0 then h / (h + o) else 0.0
  }

  function TaxonomyHits(s: Side): int {
    Get(s.cat, CUSTOM[0]) + Get(s.cat, CUSTOM[1]) + Get(s.cat, CUSTOM[2]) + Get(s.cat, CUSTOM[3])
  }

  /** DivisionByZero is the error raised when a side has no words or no taxonomy hits. */
  datatype TopicMetrics = DivisionByZero | TopicMetrics(
    count: real,
    density: real,
    volume: real,
    length: real,
    share: real,
    own: real,
    other: real,
    conjunction: real
  )

  ghost predicate NonNegative(s: Side) {
    s.words >= 0 && forall c :: Get(s.cat, c) >= 0
  }

  function Metrics(E: Side, L: Side, cat: string): TopicMetrics
    requires NonNegative(E) && NonNegative(L)
  {
    if E.words == 0 || L.words == 0 || TaxonomyHits(E) == 0 || TaxonomyHits(L) == 0 then DivisionByZero
    else
      var h1, h2 := Get(E.cat, cat) as real, Get(L.cat, cat) as real;
      var w1, w2 := E.words as real, L.words as real;
      var H1, H2 := TaxonomyHits(E) as real, TaxonomyHits(L) as real;
      var m1 := DensityLeg(h1, w1, h2, w2);
      var volume := 1000.0 * (h2 - h1) / HarmonicMean(w1, w2);
      var m3 := h2 / H2 - h1 / H1;
      var own := ShapleyPart(ShareOf(), h1, h2, H1 - h1, H2 - h2);
      TopicMetrics(CountLeg(h1, w1, h2, w2), m1, volume, m1 - volume, m3, own, m3 - own,
                   Conjunction(CountLeg(h1, w1, h2, w2), m1))
  }

  // ------------------------------------------------------------- volume and length

  lemma TimesOne(h: real, one: real)
    requires one == 1.0
    ensures h * one == h
  {}

  lemma Reciprocal(h: real, w: real, u: real)
    requires w > 0.0 && u == 1.0 / w
    ensures u * w == 1.0 && 1000.0 * h / w == 1000.0 * h * u && h / w == h * u
  {
    QuotientTimes(1.0, w);
    TimesOne(h, u * w);
    assert h * u * w == h * (u * w);
    QuotientOf(h * u, w, h);
    assert 1000.0 * h * u * w == 1000.0 * (h * u * w);
    QuotientOf(1000.0 * h * u, w, 1000.0 * h);
  }

  lemma HarmonicReciprocals(w1: real, w2: real, u: real, v: real)
    requires w1 > 0.0 && w2 > 0.0 && u * w1 == 1.0 && v * w2 == 1.0
    ensures HarmonicMean(w1, w2) > 0.0
    ensures HarmonicMean(w1, w2) * (u + v) == 2.0
  {
    var m := HarmonicMean(w1, w2);
    QuotientTimes(2.0 * w1 * w2, w1 + w2);
    ProductPositive(w1, w2);
    SignOfProduct(m, w1 + w2);
    assert (u + v) * (w1 * w2) == (u * w1) * w2 + (v * w2) * w1 == w1 + w2;
    assert (m * (u + v) - 2.0) * (w1 * w2) == m * ((u + v) * (w1 * w2)) - 2.0 * (w1 * w2) == 0.0;
    ZeroProduct(m * (u + v) - 2.0, w1 * w2);
  }

  /** The harmonic-mean-normalised count change is exactly the count's Shapley part of the
      density change, and the remainder is mean hits times the change of reciprocal length. */
  lemma DensitySplit(h1: real, w1: real, h2: real, w2: real)
    requires w1 > 0.0 && w2 > 0.0
    ensures var volume := 1000.0 * (h2 - h1) / HarmonicMean(w1, w2);
      var length := DensityLeg(h1, w1, h2, w2) - volume;
      && volume == ShapleyPart(Rate(), h1, h2, w1, w2)
      && length == ShapleyRest(Rate(), h1, h2, w1, w2)
      && length == 1000.0 * ((h1 + h2) / 2.0) * (1.0 / w2 - 1.0 / w1)
  {
    var u, v := 1.0 / w1, 1.0 / w2;
    Reciprocal(h1, w1, u);
    Reciprocal(h2, w1, u);
    Reciprocal(h1, w2, v);
    Reciprocal(h2, w2, v);
    HarmonicReciprocals(w1, w2, u, v);
    var m, part := HarmonicMean(w1, w2), 500.0 * (h2 - h1) * (u + v);
    assert part * m == 500.0 * (h2 - h1) * (m * (u + v)) == 1000.0 * (h2 - h1);
    QuotientOf(part, m, 1000.0 * (h2 - h1));
    SplitAlgebra(h1, h2, u, v);
  }

  lemma SplitAlgebra(h1: real, h2: real, u: real, v: real)
    ensures 500.0 * (h2 - h1) * (u + v)
         == 0.5 * ((1000.0 * h2 * u - 1000.0 * h1 * u) + (1000.0 * h2 * v - 1000.0 * h1 * v))
    ensures 1000.0 * (h2 * v - h1 * u) - 500.0 * (h2 - h1) * (u + v)
         == 1000.0 * ((h1 + h2) / 2.0) * (v - u)
    ensures 1000.0 * ((h1 + h2) / 2.0) * (v - u)
         == 0.5 * ((1000.0 * h1 * v - 1000.0 * h1 * u) + (1000.0 * h2 * v - 1000.0 * h2 * u))
  {}

  // ---------------------------------------------------------------- own and other

  lemma ShareGrowsWithOwn(h: real, h': real, o: real)
    requires 0.0 <= h < h' && o >= 0.0
    ensures ShareOf()(h, o) <= ShareOf()(h', o)
    ensures o > 0.0 ==> ShareOf()(h, o) < ShareOf()(h', o)
    ensures o == 0.0 && h > 0.0 ==> ShareOf()(h, o) == ShareOf()(h', o)
    ensures o == 0.0 && h == 0.0 ==> ShareOf()(h, o) < ShareOf()(h', o)
  {
    QuotientBounds(h', h' + o);
    if h + o == 0.0 {
    } else if o == 0.0 {
      QuotientBounds(h, h + o);
    } else {
      SharesCompared(h, o, h', o);
      ProductPositive(h' - h, o);
      assert h' * o - h * o == (h' - h) * o;
    }
  }

  lemma ShareFallsWithOther(h: real, o: real, o': real)
    requires h >= 0.0 && 0.0 <= o < o'
    ensures h > 0.0 ==> ShareOf()(h, o') < ShareOf()(h, o)
    ensures h == 0.0 ==> ShareOf()(h, o') == ShareOf()(h, o) == 0.0
  {
    if h > 0.0 {
      SharesCompared(h, o', h, o);
      ProductPositive(h, o' - o);
      assert h * o' - h * o == h * (o' - o);
    } else {
      QuotientBounds(h, h + o');
      if o > 0.0 {
        QuotientBounds(h, h + o);
      }
    }
  }

  /** h/(h+o) < k/(k+p) exactly when h*p < k*o. */
  lemma SharesCompared(h: real, o: real, k: real, p: real)
    requires h + o > 0.0 && k + p > 0.0
    ensures ShareOf()(h, o) < ShareOf()(k, p) <==> h * p < k * o
  {
    var s, t, x, y := h / (h + o), k / (k + p), h + o, k + p;
    QuotientTimes(h, x);
    QuotientTimes(k, y);
    ProductPositive(x, y);
    SignOfProduct(s - t, x * y);
    assert (s - t) * (x * y) == (s * x) * y - (t * y) * x == h * y - k * x == h * p - k * o;
  }

  /** Own and other parts are Shapley values that add up to the share change; the own part has the
      sign of the category's own change and vanishes exactly when the category did not move or
      there are no other hits; the other part has the opposite sign of the others' change and
      vanishes exactly when they did not move or the category has no hits. */
  lemma ShareSplit(h1: real, o1: real, h2: real, o2: real)
    requires h1 >= 0.0 && o1 >= 0.0 && h2 >= 0.0 && o2 >= 0.0 && h1 + o1 > 0.0 && h2 + o2 > 0.0
    ensures var own := ShapleyPart(ShareOf(), h1, h2, o1, o2);
      var other := (h2 / (h2 + o2) - h1 / (h1 + o1)) - own;
      && other == ShapleyRest(ShareOf(), h1, h2, o1, o2)
      && (own > 0.0 <==> h2 > h1 && (o1 > 0.0 || o2 > 0.0))
      && (own < 0.0 <==> h2 < h1 && (o1 > 0.0 || o2 > 0.0))
      && (other > 0.0 <==> o2 < o1 && (h1 > 0.0 || h2 > 0.0))
      && (other < 0.0 <==> o2 > o1 && (h1 > 0.0 || h2 > 0.0))
  {
    if h1 < h2 {
      ShareGrowsWithOwn(h1, h2, o1);
      ShareGrowsWithOwn(h1, h2, o2);
    } else if h2 < h1 {
      ShareGrowsWithOwn(h2, h1, o1);
      ShareGrowsWithOwn(h2, h1, o2);
    }
    if o1 < o2 {
      ShareFallsWithOther(h1, o1, o2);
      ShareFallsWithOther(h2, o1, o2);
    } else if o2 < o1 {
      ShareFallsWithOther(h1, o2, o1);
      ShareFallsWithOther(h2, o2, o1);
    }
  }

  // ------------------------------------------------------------------- both sides

  lemma OthersNonNegative(s: Side, cat: string)
    requires NonNegative(s) && cat in CUSTOM
    ensures 0 <= Get(s.cat, cat) <= TaxonomyHits(s)
  {
    assert Get(s.cat, CUSTOM[0]) >= 0 && Get(s.cat, CUSTOM[1]) >= 0;
    assert Get(s.cat, CUSTOM[2]) >= 0 && Get(s.cat, CUSTOM[3]) >= 0;
  }

  /** The metrics exist exactly when both sides have words and taxonomy hits; then both splits
      are exact, in the terms of the aggregated sides. */
  lemma SplitsAreExact(E: Side, L: Side, cat: string)
    requires NonNegative(E) && NonNegative(L) && cat in CUSTOM
    ensures var m := Metrics(E, L, cat);
      (m.TopicMetrics? <==> E.words > 0 && L.words > 0 && TaxonomyHits(E) > 0 && TaxonomyHits(L) > 0)
    ensures var m := Metrics(E, L, cat);
      m.TopicMetrics? ==>
        var h1, h2 := Get(E.cat, cat) as real, Get(L.cat, cat) as real;
        var w1, w2 := E.words as real, L.words as real;
        var o1, o2 := TaxonomyHits(E) as real - h1, TaxonomyHits(L) as real - h2;
        && m.volume + m.length == m.density
        && m.volume == ShapleyPart(Rate(), h1, h2, w1, w2)
        && m.length == ShapleyRest(Rate(), h1, h2, w1, w2)
        && m.own + m.other == m.share
        && m.own == ShapleyPart(ShareOf(), h1, h2, o1, o2)
        && m.other == ShapleyRest(ShareOf(), h1, h2, o1, o2)
        && m.conjunction == TopicChange.TopicChange(h1, w1, h2, w2)
  {
    OthersNonNegative(E, cat);
    OthersNonNegative(L, cat);
    if Metrics(E, L, cat).TopicMetrics? {
      var h1, h2 := Get(E.cat, cat) as real, Get(L.cat, cat) as real;
      DensitySplit(h1, E.words as real, h2, L.words as real);
      ShareSplit(h1, TaxonomyHits(E) as real - h1, h2, TaxonomyHits(L) as real - h2);
    }
  }

  /** All taxonomy hits of a side, category by category. */
  function AllHits(s: Side): int {
    Get(s.cat, "risk") + Get(s.cat, "financial_condition") + Get(s.cat, "governance") + Get(s.cat, "strategy")
  }

  // Each reported change multiplied out, so that no quotient is left.

  ghost predicate CountTimes(d: real, h1: real, w1: real, h2: real, w2: real) {
    d * (w1 + w2) == 2000.0 * (h2 - h1)
  }

  ghost predicate DensityTimes(m: real, h1: real, w1: real, h2: real, w2: real) {
    m * (w1 * w2) == 1000.0 * (h2 * w1 - h1 * w2)
  }

  ghost predicate VolumeTimes(v: real, h1: real, w1: real, h2: real, w2: real) {
    v * (2.0 * (w1 * w2)) == 1000.0 * (h2 - h1) * (w1 + w2)
  }

  ghost predicate ShareTimes(s: real, h1: real, H1: real, h2: real, H2: real) {
    s * (H1 * H2) == h2 * H1 - h1 * H2
  }

  lemma LegsMultiplied(h1: real, w1: real, h2: real, w2: real)
    requires w1 > 0.0 && w2 > 0.0
    ensures CountTimes(CountLeg(h1, w1, h2, w2), h1, w1, h2, w2)
    ensures DensityTimes(DensityLeg(h1, w1, h2, w2), h1, w1, h2, w2)
  {
    CountScaled(h1, w1, h2, w2);
    DensityScaled(h1, w1, h2, w2);
  }

  lemma VolumeMultiplied(h1: real, w1: real, h2: real, w2: real)
    requires w1 > 0.0 && w2 > 0.0
    ensures HarmonicMean(w1, w2) > 0.0
    ensures VolumeTimes(1000.0 * (h2 - h1) / HarmonicMean(w1, w2), h1, w1, h2, w2)
  {
    var m, top := HarmonicMean(w1, w2), 1000.0 * (h2 - h1);
    HarmonicAgainstMin(w1, w2);
    QuotientTimes(2.0 * w1 * w2, w1 + w2);
    QuotientTimes(top, m);
    assert top / m * (2.0 * (w1 * w2)) == top / m * (m * (w1 + w2)) == top / m * m * (w1 + w2);
  }

  lemma ShareMultiplied(h1: real, H1: real, h2: real, H2: real)
    requires H1 > 0.0 && H2 > 0.0
    ensures ShareTimes(h2 / H2 - h1 / H1, h1, H1, h2, H2)
  {
    QuotientTimes(h1, H1);
    QuotientTimes(h2, H2);
    assert (h2 / H2 - h1 / H1) * (H1 * H2) == h2 / H2 * H2 * H1 - h1 / H1 * H1 * H2;
  }

  /** Every reported change meets its equation in words and taxonomy hits; and the conjunction is the middle
      one of zero and the two legs reported beside it. */
  lemma MetricsMultiplied(E: Side, L: Side, cat: string)
    requires NonNegative(E) && NonNegative(L) && cat in CUSTOM
    ensures var m := Metrics(E, L, cat);
      && (m.TopicMetrics? <==> E.words > 0 && L.words > 0 && AllHits(E) > 0 && AllHits(L) > 0)
      && (m.TopicMetrics? ==>
            var h1, w1, h2, w2 := Get(E.cat, cat) as real, E.words as real, Get(L.cat, cat) as real, L.words as real;
            && CountTimes(m.count, h1, w1, h2, w2) && DensityTimes(m.density, h1, w1, h2, w2)
            && VolumeTimes(m.volume, h1, w1, h2, w2)
            && ShareTimes(m.share, h1, AllHits(E) as real, h2, AllHits(L) as real)
            && IsMiddle(m.conjunction, 0.0, m.count, m.density))
  {
    OthersNonNegative(E, cat);
    OthersNonNegative(L, cat);
    var m := Metrics(E, L, cat);
    if m.TopicMetrics? {
      var h1, w1, h2, w2 := Get(E.cat, cat) as real, E.words as real, Get(L.cat, cat) as real, L.words as real;
      LegsMultiplied(h1, w1, h2, w2);
      VolumeMultiplied(h1, w1, h2, w2);
      ShareMultiplied(h1, AllHits(E) as real, h2, AllHits(L) as real);
      ConjunctionIsMedian(m.count, m.density);
    }
  }

  /** Where one order of moving passes through a report without any hits, its share there counts as zero:
      from no own hits, and to no other hits. */
  lemma PartsThroughNothing(h2: real, o1: real)
    requires h2 > 0.0 && o1 > 0.0
    ensures ShapleyPart(ShareOf(), 0.0, h2, o1, 0.0) == (1.0 + h2 / (h2 + o1)) / 2.0
    ensures ShapleyRest(ShareOf(), 0.0, h2, o1, 0.0) == (1.0 - h2 / (h2 + o1)) / 2.0
  {
    QuotientOf(1.0, h2, h2);
    QuotientOf(0.0, o1, 0.0);
  }
}
