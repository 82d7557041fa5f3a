/** nDCG in terms of the grades themselves: what each is worth, what each place is worth, and which
    rankings are perfect. */
module RankingGrades {
  import opened Sequences
  import opened Sums
  import opened RankingMetrics

  /** The order of the grades. */
  predicate Better(g: Grade, h: Grade) {
    g != h && (g == HighlyRelevant || h == NotRelevant || (g == Relevant && h == Marginal))
  }

  function GradeOf(graded: Dict<string, Grade>, id: string): Grade {
    if id in graded.at then graded.at[id] else NotRelevant
  }

  lemma WeightFollowsGrade(g: Grade, h: Grade)
    ensures Weight(g) > Weight(h) <==> Better(g, h)
    ensures Weight(g) == 0 <==> g == NotRelevant
  {}

  lemma GainFollowsGrade(graded: Dict<string, Grade>, x: string, y: string)
    ensures GainIn(graded)(x) > GainIn(graded)(y) <==> Better(GradeOf(graded, x), GradeOf(graded, y))
    ensures GainIn(graded)(x) == 0 <==> GradeOf(graded, x) == NotRelevant
  {
    WeightFollowsGrade(GradeOf(graded, x), GradeOf(graded, y));
  }

  // -------------------------------------------------------------- what a grade is worth

  lemma BetterFirst(w: int)
    requires w <= 3
    ensures Descending([w, 3]) == [3, w]
  {
    DescendingFacts([w, 3]);
    assert multiset([3, w]) == multiset([w, 3]);
    DescendingUnique([3, w], Descending([w, 3]));
  }

  lemma TwoGrades(x: string, y: string, g: Grade)
    requires x != y
    ensures FullIdeal(Dict([x, y], map[x := g, y := HighlyRelevant])) == [3, Weight(g)]
  {
    assert Map(GainIn(Dict([x, y], map[x := g, y := HighlyRelevant])), [x, y]) == [Weight(g), 3];
    BetterFirst(Weight(g));
  }

  lemma FirstPlaces(a: int, b: int, c: nat -> real)
    requires Discounts(c) && b > 0
    ensures Dcg([b], c) != 0.0 && Dcg([a], c) / Dcg([b], c) == a as real / b as real
  {
    assert 0.0 < c(1) <= c(0);
    DcgOfOne([a], c, 0);
    DcgOfOne([b], c, 0);
    PlaceRatio(b as real, a as real, c(0));
  }

  lemma PlaceRatio(b: real, a: real, c: real)
    requires b > 0.0 && c > 0.0
    ensures b * c != 0.0 && a * c / (b * c) == a / b
  {
    ProductPositive(b, c);
    QuotientTimes(a, b);
    assert a / b * (b * c) == a * c;
    QuotientOf(a / b, b * c, a * c);
  }

  /** An id shown alone, beside a highly relevant one left out, earns a third for each step of its grade. */
  lemma NdcgOfOne(x: string, y: string, g: Grade, c: nat -> real)
    requires x != y && Discounts(c)
    ensures Ndcg([x], Dict([x, y], map[x := g, y := HighlyRelevant]), 1, c)
         == match g
            case HighlyRelevant => 1.0
            case Relevant => 2.0 / 3.0
            case Marginal => 1.0 / 3.0
            case NotRelevant => 0.0
  {
    var graded := Dict([x, y], map[x := g, y := HighlyRelevant]);
    TwoGrades(x, y, g);
    FirstPlaces(Weight(g), 3, c);
    assert IdealGains(graded, 1) == [3] && Gains([x], graded, 1) == [Weight(g)];
  }

  /** The discounted gain of a list with a single gain. */
  lemma {:induction false} DcgOfOne(s: seq<int>, c: nat -> real, i: nat)
    requires forall j :: 0 <= j < |s| && j != i ==> s[j] == 0
    ensures Dcg(s, c) == At(s, i) as real * c(i)
  {
    if s != [] {
      DcgOfOne(s[..|s| - 1], c, i);
    }
  }

  lemma OneGrade(x: string, g: Grade)
    ensures FullIdeal(Dict([x], map[x := g])) == [Weight(g)]
  {
    assert Map(GainIn(Dict([x], map[x := g])), [x]) == [Weight(g)];
    DescendingFacts([Weight(g)]);
    DescendingUnique([Weight(g)], Descending([Weight(g)]));
  }

  lemma GainOfPlace(ranked: seq<string>, i: nat, g: Grade, k: nat, c: nat -> real)
    requires Distinct(ranked) && i < |ranked|
    ensures Dcg(Gains(ranked, Dict([ranked[i]], map[ranked[i] := g]), k), c)
         == if i < k then Weight(g) as real * c(i) else 0.0
  {
    var a := Gains(ranked, Dict([ranked[i]], map[ranked[i] := g]), k);
    assert forall j :: 0 <= j < |a| && j != i ==> ranked[j] != ranked[i];
    DcgOfOne(a, c, i);
  }

  /** The only graded id, found at place i of the cut, scores that place's discount over the first one's;
      outside the cut it scores nothing. */
  lemma NdcgOfPlace(ranked: seq<string>, i: nat, g: Grade, k: nat, c: nat -> real)
    requires Distinct(ranked) && i < |ranked| && g != NotRelevant && k > 0 && Discounts(c)
    ensures c(0) > 0.0
    ensures Ndcg(ranked, Dict([ranked[i]], map[ranked[i] := g]), k, c) == if i < k then c(i) / c(0) else 0.0
  {
    var graded := Dict([ranked[i]], map[ranked[i] := g]);
    assert 0.0 < c(1) <= c(0);
    OneGrade(ranked[i], g);
    assert IdealGains(graded, k) == [Weight(g)];
    DcgOfOne([Weight(g)], c, 0);
    GainOfPlace(ranked, i, g, k, c);
    CommonWeight(Weight(g) as real, c(i), c(0));
  }

  lemma CommonWeight(w: real, a: real, b: real)
    requires w > 0.0 && b > 0.0
    ensures w * b != 0.0 && w * a / (w * b) == a / b && 0.0 / (w * b) == 0.0
  {
    PlaceRatio(b, a, w);
    QuotientOf(0.0, w * b, 0.0);
  }

  // ---------------------------------------------------------------- falling grades

  ghost predicate SomeRelevant(graded: Dict<string, Grade>) {
    exists id :: id in graded.at && graded.at[id] != NotRelevant
  }

  /** Something is relevant and something is shown. */
  ghost predicate Scorable(graded: Dict<string, Grade>, k: nat) {
    k > 0 && SomeRelevant(graded)
  }

  lemma RelevantGains(graded: Dict<string, Grade>, n: nat)
    requires graded.Valid() && n < |graded.keys|
    ensures graded.keys[n] in graded.at
    ensures GainIn(graded)(graded.keys[n]) != 0 <==> graded.at[graded.keys[n]] != NotRelevant
  {
    assert graded.keys[n] in graded.keys;
    KeyIndex(graded, graded.keys[n]);
  }

  lemma RelevantMeansIdeal(graded: Dict<string, Grade>)
    requires graded.Valid()
    ensures SomeRelevant(graded) <==> At(FullIdeal(graded), 0) > 0
  {
    var full, gains := FullIdeal(graded), Map(GainIn(graded), graded.keys);
    FullIdealFacts(graded);
    DescendingFacts(gains);
    if SomeRelevant(graded) {
      var id :| id in graded.at && graded.at[id] != NotRelevant;
      KeyIndex(graded, id);
      var n :| 0 <= n < |graded.keys| && graded.keys[n] == id;
      RelevantGains(graded, n);
      assert gains[n] in multiset(full);
      var m :| 0 <= m < |full| && full[m] == gains[n];
      assert full[0] >= full[m];
    }
    if At(full, 0) > 0 {
      assert full[0] in multiset(gains);
      var n :| 0 <= n < |gains| && gains[n] == full[0];
      RelevantGains(graded, n);
    }
  }

  lemma ScorableMeansIdeal(graded: Dict<string, Grade>, k: nat, c: nat -> real)
    requires graded.Valid() && Discounts(c)
    ensures Scorable(graded, k) <==> Dcg(IdealGains(graded, k), c) != 0.0
  {
    var best := IdealGains(graded, k);
    FullIdealFacts(graded);
    RelevantMeansIdeal(graded);
    if Scorable(graded, k) {
      DcgIsDcgUpTo(best, c, |best|);
      GainPays(best, c, 0);
      DcgGrows(best, c, 1, |best|);
    } else {
      forall i | 0 <= i < |best| ensures best[i] == 0 {
        assert FullIdeal(graded)[0] >= FullIdeal(graded)[i];
      }
      DcgOfOne(best, c, |best|);
    }
  }

  /** The ranking begins with all graded ids, and no better grade follows a worse one among them. */
  ghost predicate BeginsByGrade(ranked: seq<string>, graded: Dict<string, Grade>) {
    var m := |graded.keys|;
    && m <= |ranked|
    && multiset(ranked[..m]) == multiset(graded.keys)
    && forall i, j :: 0 <= i < j < m ==> !Better(GradeOf(graded, ranked[j]), GradeOf(graded, ranked[i]))
  }

  /** A ranking that begins with all graded ids by falling grade scores 1 at every depth, unless nothing is
      relevant or nothing is shown, when it scores 0. */
  lemma NdcgOfFallingGrades(ranked: seq<string>, graded: Dict<string, Grade>, k: nat, c: nat -> real)
    requires Distinct(Slice(ranked, k)) && graded.Valid() && BeginsByGrade(ranked, graded) && Discounts(c)
    ensures Ndcg(ranked, graded, k, c) == if Scorable(graded, k) then 1.0 else 0.0
  {
    var m := |graded.keys|;
    forall i, j | 0 <= i < j < m ensures GainIn(graded)(ranked[..m][i]) >= GainIn(graded)(ranked[..m][j]) {
      GainFollowsGrade(graded, ranked[j], ranked[i]);
    }
    ScorableMeansIdeal(graded, k, c);
    NdcgOfIdealOrder(ranked, graded, k, c);
  }

  /** Inside the cut a better grade stands behind a worse one. */
  ghost predicate Misordered(top: seq<string>, graded: Dict<string, Grade>) {
    exists i, j :: 0 <= i < j < |top| && Better(GradeOf(graded, top[j]), GradeOf(graded, top[i]))
  }

  /** An id left out is better than one shown, or is relevant while there was room. */
  ghost predicate Omits(top: seq<string>, graded: Dict<string, Grade>, k: nat) {
    exists id :: id !in top && (BetterThanShown(id, top, graded)
                                || (|top| < k && GradeOf(graded, id) != NotRelevant))
  }

  ghost predicate BetterThanShown(id: string, top: seq<string>, graded: Dict<string, Grade>) {
    exists i :: 0 <= i < |top| && Better(GradeOf(graded, id), GradeOf(graded, top[i]))
  }

  /** More different things than a list holds cannot all be in it. */
  lemma {:induction false} OneMissing(s: seq<string>, t: seq<string>) returns (x: string)
    requires Distinct(s) && |s| > |t|
    ensures x in s && x !in t
    decreases |t|
  {
    var n := |s| - 1;
    if s[n] !in t {
      x := s[n];
    } else {
      var k := PositionOf(t, s[n]);
      x := OneMissing(s[..n], Without(t, k));
      assert x in s[..n];
      var i :| 0 <= i < n && s[..n][i] == x;
      assert x == s[i] != t[k];
      forall j | 0 <= j < |t| ensures t[j] != x {
        assert j != k ==> t[j] == Without(t, k)[if j < k then j else j - 1];
      }
    }
  }

  /** The first place where the lists differ. */
  lemma {:induction false} FirstDifference(a: seq<int>, b: seq<int>, n: nat) returns (i: nat)
    requires exists j: nat :: j < n && At(a, j) != At(b, j)
    ensures i < n && At(a, i) != At(b, i) && forall j: nat :: j < i ==> At(a, j) == At(b, j)
  {
    if exists j: nat :: j < n - 1 && At(a, j) != At(b, j) {
      i := FirstDifference(a, b, n - 1);
    } else {
      i := n - 1;
    }
  }

  lemma {:induction false} SamePrefix(a: seq<int>, b: seq<int>, n: nat)
    requires forall j: nat :: j < n ==> At(a, j) == At(b, j)
    ensures Prefix(a, n) == Prefix(b, n)
  {
    if n > 0 {
      SamePrefix(a, b, n - 1);
    }
  }

  lemma BestGainsAtLeast(graded: Dict<string, Grade>, k: nat, i: nat, x: string)
    requires graded.Valid() && i < |IdealGains(graded, k)|
    requires i < |BestIds(graded)| && x in BestIds(graded)[..i + 1]
    ensures GainIn(graded)(x) >= IdealGains(graded, k)[i]
  {
    BestIdsFacts(graded);
    var t := BestIds(graded);
    var j :| 0 <= j <= i && t[j] == x;
    assert GainIn(graded)(t[j]) >= GainIn(graded)(t[i]);
    assert Map(GainIn(graded), t)[i] == GainIn(graded)(t[i]);
  }

  /** Where the ideal gains more, some id that gains more was not yet shown. */
  lemma BetterIdLater(top: seq<string>, graded: Dict<string, Grade>, k: nat, i: nat) returns (x: string)
    requires graded.Valid() && |top| <= k
    requires At(Gains(top, graded, k), i) < At(IdealGains(graded, k), i)
    ensures i < k && GainIn(graded)(x) > At(Gains(top, graded, k), i)
    ensures x !in top[..Least(i, |top|)]
  {
    BestIdsFacts(graded);
    FullIdealFacts(graded);
    assert At(Gains(top, graded, k), i) >= 0;
    assert i < |IdealGains(graded, k)| <= |BestIds(graded)|;
    x := OneMissing(BestIds(graded)[..i + 1], top[..Least(i, |top|)]);
    BestGainsAtLeast(graded, k, i, x);
  }

  lemma GapInside(top: seq<string>, graded: Dict<string, Grade>, i: nat, x: string)
    requires i < |top| && x !in top[..i] && GainIn(graded)(x) > GainIn(graded)(top[i])
    ensures Misordered(top, graded) || (BetterThanShown(x, top, graded) && x !in top)
  {
    GainFollowsGrade(graded, x, top[i]);
    forall l | 0 <= l < i ensures top[l] != x {
      assert top[..i][l] == top[l];
    }
    assert BetterThanShown(x, top, graded);
    if x in top {
      var j :| 0 <= j < |top| && top[j] == x;
      assert Better(GradeOf(graded, top[j]), GradeOf(graded, top[i]));
    }
  }

  lemma GapMeansFlaw(top: seq<string>, graded: Dict<string, Grade>, k: nat, i: nat)
    requires graded.Valid() && |top| <= k
    requires At(Gains(top, graded, k), i) < At(IdealGains(graded, k), i)
    ensures Misordered(top, graded) || Omits(top, graded, k)
  {
    var x := BetterIdLater(top, graded, k, i);
    if i < |top| {
      GapInside(top, graded, i, x);
    } else {
      GainFollowsGrade(graded, x, x);
      assert top[..|top|] == top;
    }
  }

  lemma ShownInstead(top: seq<string>, graded: Dict<string, Grade>, k: nat, i: nat, id: string)
    requires i <= |top| <= k && i < k
    requires GainIn(graded)(id) > At(Gains(top, graded, k), i)
    ensures Prefix(Gains(top[..i] + [id], graded, k), i + 1) > Prefix(Gains(top, graded, k), i + 1)
  {
    SamePrefix(Gains(top, graded, k), Gains(top[..i] + [id], graded, k), i);
  }

  /** Showing id at place i instead of what stands there would overtake a ranking that kept up so far. */
  lemma OmissionMeansGap(top: seq<string>, graded: Dict<string, Grade>, k: nat, i: nat, id: string)
    requires Distinct(top) && graded.Valid() && i <= |top| <= k && i < k && id !in top
    requires GainIn(graded)(id) > At(Gains(top, graded, k), i)
    ensures exists j: nat :: At(Gains(top, graded, k), j) != At(IdealGains(graded, k), j)
  {
    var other := top[..i] + [id];
    var a, b, best := Gains(top, graded, k), Gains(other, graded, k), IdealGains(graded, k);
    ShownInstead(top, graded, k, i, id);
    IdealLeads(other, graded, k, i + 1);
    assert Lead(b, best, i + 1) >= 0;
    if forall j: nat :: At(a, j) == At(best, j) {
      SamePrefix(a, best, i + 1);
      assert false;
    }
  }

  lemma FlawMeansGap(top: seq<string>, graded: Dict<string, Grade>, k: nat)
    requires Distinct(top) && graded.Valid() && |top| <= k && (Misordered(top, graded) || Omits(top, graded, k))
    ensures exists j: nat :: At(Gains(top, graded, k), j) != At(IdealGains(graded, k), j)
  {
    var a, best := Gains(top, graded, k), IdealGains(graded, k);
    if Misordered(top, graded) {
      var i, j :| 0 <= i < j < |top| && Better(GradeOf(graded, top[j]), GradeOf(graded, top[i]));
      GainFollowsGrade(graded, top[j], top[i]);
      FullIdealFacts(graded);
      assert At(a, i) < At(a, j) && At(best, i) >= At(best, j);
      assert At(a, i) != At(best, i) || At(a, j) != At(best, j);
    } else {
      var id :| id !in top && (BetterThanShown(id, top, graded)
                               || (|top| < k && GradeOf(graded, id) != NotRelevant));
      if BetterThanShown(id, top, graded) {
        var i :| 0 <= i < |top| && Better(GradeOf(graded, id), GradeOf(graded, top[i]));
        GainFollowsGrade(graded, id, top[i]);
        OmissionMeansGap(top, graded, k, i, id);
      } else {
        GainFollowsGrade(graded, id, id);
        OmissionMeansGap(top, graded, k, |top|, id);
      }
    }
  }

  lemma EntriesEqualUnlessFlawed(top: seq<string>, graded: Dict<string, Grade>, k: nat)
    requires Distinct(top) && graded.Valid() && |top| <= k
    ensures (forall j: nat :: At(Gains(top, graded, k), j) == At(IdealGains(graded, k), j))
       <==> !Misordered(top, graded) && !Omits(top, graded, k)
  {
    var a, best := Gains(top, graded, k), IdealGains(graded, k);
    if Misordered(top, graded) || Omits(top, graded, k) {
      FlawMeansGap(top, graded, k);
    } else if exists j: nat :: At(a, j) != At(best, j) {
      var j: nat :| At(a, j) != At(best, j);
      var i := FirstDifference(a, best, j + 1);
      IdealLeads(top, graded, k, i + 1);
      SamePrefix(a, best, i);
      assert Lead(a, best, i + 1) >= 0;
      GapMeansFlaw(top, graded, k, i);
    }
  }

  /** With a strictly decreasing discount, and something to score: nDCG is 1 exactly when no better grade
      stands behind a worse one in the cut, and nothing better, or relevant while there is room, is left
      out of it. */
  lemma NdcgPerfectByGrade(ranked: seq<string>, graded: Dict<string, Grade>, k: nat, c: nat -> real)
    requires Distinct(Slice(ranked, k)) && graded.Valid() && StrictlyDiscounts(c) && Scorable(graded, k)
    ensures Ndcg(ranked, graded, k, c) == 1.0
       <==> !Misordered(Slice(ranked, k), graded) && !Omits(Slice(ranked, k), graded, k)
    ensures Ndcg(ranked, graded, k, c) <= 1.0
  {
    ScorableMeansIdeal(graded, k, c);
    NdcgInRange(ranked, graded, k, c);
    NdcgPerfect(ranked, graded, k, c);
    EntriesEqualUnlessFlawed(Slice(ranked, k), graded, k);
    assert Gains(Slice(ranked, k), graded, k) == Gains(ranked, graded, k);
  }

  /** A better grade behind a worse one inside the cut costs something. */
  lemma NdcgOfMisorder(ranked: seq<string>, graded: Dict<string, Grade>, k: nat, c: nat -> real)
    requires Distinct(Slice(ranked, k)) && graded.Valid() && StrictlyDiscounts(c)
    requires Misordered(Slice(ranked, k), graded)
    ensures Ndcg(ranked, graded, k, c) < 1.0
  {
    var top := Slice(ranked, k);
    var i, j :| 0 <= i < j < |top| && Better(GradeOf(graded, top[j]), GradeOf(graded, top[i]));
    assert graded.at[top[j]] != NotRelevant;
    NdcgPerfectByGrade(ranked, graded, k, c);
  }
}
