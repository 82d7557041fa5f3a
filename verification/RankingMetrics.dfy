/** Retrieval metrics over a ranked id list: discounted gain against its ideal. */
module RankingMetrics {
  import opened Sequences
  import opened Sums

  datatype Grade = HighlyRelevant | Relevant | Marginal | NotRelevant

  function Weight(g: Grade): int {
    match g
    case HighlyRelevant => 3
    case Relevant => 2
    case Marginal => 1
    case NotRelevant => 0
  }

  /** The first k elements; a negative k drops from the end instead. */
  function Slice<T>(s: seq<T>, k: int): seq<T> {
    if k >= |s| then s
    else if k >= 0 then s[..k]
    else if |s| + k >= 0 then s[..|s| + k]
    else []
  }

  /** discount(i) is the reciprocal of the base-2 logarithm of i + 2: positive and decreasing. */
  ghost predicate Discounts(c: nat -> real) {
    forall i: nat, j: nat :: i < j ==> 0.0 < c(j) <= c(i)
  }

  ghost predicate StrictlyDiscounts(c: nat -> real) {
    forall i: nat, j: nat :: i < j ==> 0.0 < c(j) < c(i)
  }

  function Dcg(gains: seq<int>, c: nat -> real): real {
    if gains == [] then 0.0
    else Dcg(gains[..|gains| - 1], c) + gains[|gains| - 1] as real * c(|gains| - 1)
  }

  /** An ungraded id gains nothing. */
  function GainIn(graded: Dict<string, Grade>): string -> int {
    (id: string) => if id in graded.at then Weight(graded.at[id]) else 0
  }

  function Gains(ranked: seq<string>, graded: Dict<string, Grade>, k: int): seq<int> {
    Map(GainIn(graded), Slice(ranked, k))
  }

  /** Every gain there is to have, largest first. */
  function FullIdeal(graded: Dict<string, Grade>): seq<int> {
    Descending(Map(GainIn(graded), graded.keys))
  }

  function IdealGains(graded: Dict<string, Grade>, k: int): seq<int> {
    Slice(FullIdeal(graded), k)
  }

  function Ndcg(ranked: seq<string>, graded: Dict<string, Grade>, k: int, c: nat -> real): real {
    var actual, ideal := Dcg(Gains(ranked, graded, k), c), Dcg(IdealGains(graded, k), c);
    if ideal == 0.0 then 0.0 else actual / ideal
  }

  // ------------------------------------------------------ the best ids come first

  predicate FallingOver(g: string -> int, t: seq<string>) {
    forall i, j :: 0 <= i < j < |t| ==> g(t[i]) >= g(t[j])
  }

  function Least(a: nat, b: nat): nat {
    if a <= b then a else b
  }

  lemma SumOfHead(g: string -> int, t: seq<string>)
    requires t != []
    ensures Sum(Map(g, t)) == g(t[0]) + Sum(Map(g, t[1..]))
  {
    SumWithout(Map(g, t), 0);
    assert Without(Map(g, t), 0) == Map(g, t[1..]);
  }

  lemma {:induction false} NoGains(g: string -> int, r: seq<string>)
    requires forall x :: x in r ==> g(x) == 0
    ensures Sum(Map(g, r)) == 0
  {
    if r != [] {
      NoGains(g, r[..|r| - 1]);
      SumMapLast(g, r);
    }
  }

  /** What the first n ids of t gain, or all of them if there are fewer. */
  function GainOfFirst(g: string -> int, t: seq<string>, n: nat): int {
    Sum(Map(g, t[..Least(n, |t|)]))
  }

  lemma GainOfFirstStep(g: string -> int, t: seq<string>, n: nat)
    requires 0 < n && t != []
    ensures GainOfFirst(g, t, n) == g(t[0]) + GainOfFirst(g, t[1..], n - 1)
  {
    var m := Least(n, |t|);
    SumOfHead(g, t[..m]);
    assert t[..m][1..] == t[1..][..m - 1];
  }

  lemma SumWithoutOne(g: string -> int, r: seq<string>, k: nat)
    requires k < |r|
    ensures Sum(Map(g, r)) == g(r[k]) + Sum(Map(g, Without(r, k)))
  {
    SumWithout(Map(g, r), k);
    assert Without(Map(g, r), k) == Map(g, Without(r, k));
  }

  /** t lists distinct ids, gains falling, and every id of r that gains anything. */
  ghost predicate CoversGains(g: string -> int, r: seq<string>, t: seq<string>) {
    && Distinct(r) && Distinct(t) && FallingOver(g, t)
    && (forall x :: x in t ==> g(x) >= 0)
    && (forall x :: x in r && x !in t ==> g(x) == 0)
  }

  /** An id of r no better than the best of t, whose removal with that best one changes nothing else. */
  lemma PickRival(g: string -> int, r: seq<string>, t: seq<string>) returns (k: nat)
    requires CoversGains(g, r, t) && r != [] && t != []
    ensures k < |r| && g(r[k]) <= g(t[0]) && CoversGains(g, Without(r, k), t[1..])
  {
    k := if t[0] in r then PositionOf(r, t[0]) else 0;
    if r[k] in t {
      var i :| 0 <= i < |t| && t[i] == r[k];
    }
    WithoutDistinct(r, k);
    assert t == [t[0]] + t[1..];
  }

  lemma NothingToCover(g: string -> int, r: seq<string>, t: seq<string>)
    requires CoversGains(g, r, t) && (r == [] || t == [])
    ensures Sum(Map(g, r)) == 0 == GainOfFirst(g, t, |r|)
  {
    NoGains(g, r);
  }

  /** No choice of distinct ids gains more than the same number of best ids. */
  lemma {:induction false} BestIdsGainMost(g: string -> int, r: seq<string>, t: seq<string>)
    requires CoversGains(g, r, t)
    ensures Sum(Map(g, r)) <= GainOfFirst(g, t, |r|)
    decreases |t|
  {
    if r == [] || t == [] {
      NothingToCover(g, r, t);
    } else {
      var k := PickRival(g, r, t);
      BestIdsGainMost(g, Without(r, k), t[1..]);
      SumWithoutOne(g, r, k);
      GainOfFirstStep(g, t, |r|);
    }
  }

  // -------------------------------------------------------------- prefix dominance

  function At(s: seq<int>, i: nat): int {
    if i < |s| then s[i] else 0
  }

  /** The sum of the first n entries, missing ones counting zero. */
  function Prefix(s: seq<int>, n: nat): int {
    if n == 0 then 0 else Prefix(s, n - 1) + At(s, n - 1)
  }

  function DcgUpTo(s: seq<int>, c: nat -> real, n: nat): real {
    if n == 0 then 0.0 else DcgUpTo(s, c, n - 1) + At(s, n - 1) as real * c(n - 1)
  }

  lemma {:induction false} DcgIsDcgUpTo(s: seq<int>, c: nat -> real, n: nat)
    requires n >= |s|
    ensures DcgUpTo(s, c, n) == Dcg(s, c)
    decreases n, |s|
  {
    if n > |s| {
      DcgIsDcgUpTo(s, c, n - 1);
    } else if n > 0 {
      DcgIsDcgUpTo(s[..n - 1], c, n - 1);
      SameEntries(s, s[..n - 1], c, n - 1);
    }
  }

  lemma {:induction false} SameEntries(s: seq<int>, t: seq<int>, c: nat -> real, n: nat)
    requires forall i: nat :: i < n ==> At(s, i) == At(t, i)
    ensures DcgUpTo(s, c, n) == DcgUpTo(t, c, n)
  {
    if n > 0 {
      SameEntries(s, t, c, n - 1);
    }
  }

  lemma {:induction false} PrefixIsSum(s: seq<int>, n: nat)
    ensures Prefix(s, n) == Sum(s[..Least(n, |s|)])
  {
    if n > 0 {
      PrefixIsSum(s, n - 1);
      if n <= |s| {
        SumAppend(s[..n - 1], s[n - 1]);
        assert s[..n] == s[..n - 1] + [s[n - 1]];
      }
    }
  }

  lemma {:induction false} PrefixGrows(s: seq<int>, m: nat, n: nat)
    requires m <= n && forall i :: 0 <= i < |s| ==> s[i] >= 0
    ensures Prefix(s, m) <= Prefix(s, n)
  {
    if m < n {
      PrefixGrows(s, m, n - 1);
    }
  }

  /** How far best is ahead of a after n places, in plain gain and in discounted gain. */
  function Lead(a: seq<int>, best: seq<int>, n: nat): int {
    Prefix(best, n) - Prefix(a, n)
  }

  function DcgLead(a: seq<int>, best: seq<int>, c: nat -> real, n: nat): real {
    DcgUpTo(best, c, n) - DcgUpTo(a, c, n)
  }

  function Scaled(q: int, c: real): real {
    q as real * c
  }

  lemma ScaledStep(gap: real, q: int, d: int, c: real, c': real)
    requires q >= 0 && 0.0 < c' <= c && gap >= Scaled(q, c)
    ensures gap + Scaled(d, c') >= Scaled(q + d, c')
  {
    ProductNonNegative(q as real, c - c');
  }

  lemma ScaledStrictly(gap: real, q: int, d: int, c: real, c': real)
    requires q >= 0 && q + d >= 0 && 0.0 < c' < c && gap >= Scaled(q, c) && gap + Scaled(d, c') == 0.0
    ensures q == 0 && d == 0 && gap == 0.0
  {
    assert Scaled(q, c) == Scaled(q, c') + q as real * (c - c');
    assert Scaled(q + d, c') == Scaled(q, c') + Scaled(d, c');
    ProductNonNegative((q + d) as real, c');
    if q > 0 {
      ProductPositive(q as real, c - c');
    }
    if q + d > 0 {
      ProductPositive((q + d) as real, c');
    }
  }

  lemma LeadSteps(a: seq<int>, best: seq<int>, c: nat -> real, n: nat)
    ensures Lead(a, best, n + 1) == Lead(a, best, n) + (At(best, n) - At(a, n))
    ensures DcgLead(a, best, c, n + 1) == DcgLead(a, best, c, n) + Scaled(At(best, n) - At(a, n), c(n))
  {
    assert Scaled(At(best, n) - At(a, n), c(n)) == At(best, n) as real * c(n) - At(a, n) as real * c(n);
  }

  /** best is never behind a in the first n places. */
  ghost predicate Leads(a: seq<int>, best: seq<int>, n: nat) {
    forall j: nat :: j <= n ==> Lead(a, best, j) >= 0
  }

  lemma ScaledNonNegative(q: int, c: real)
    requires q >= 0 && c >= 0.0
    ensures Scaled(q, c) >= 0.0
  {}

  /** Summation by parts: a lead in every prefix becomes a lead in discounted gain. */
  lemma {:induction false} LeadCarries(a: seq<int>, best: seq<int>, c: nat -> real, n: nat)
    requires Discounts(c) && Leads(a, best, n + 1)
    ensures DcgLead(a, best, c, n + 1) >= Scaled(Lead(a, best, n + 1), c(n))
  {
    LeadSteps(a, best, c, n);
    if n > 0 {
      LeadCarries(a, best, c, n - 1);
      assert Lead(a, best, n) >= 0;
      ScaledStep(DcgLead(a, best, c, n), Lead(a, best, n), At(best, n) - At(a, n), c(n - 1), c(n));
    }
  }

  lemma LeadPays(a: seq<int>, best: seq<int>, c: nat -> real, n: nat)
    requires Discounts(c) && Leads(a, best, n + 1)
    ensures DcgUpTo(a, c, n + 1) <= DcgUpTo(best, c, n + 1)
  {
    LeadCarries(a, best, c, n);
    assert Lead(a, best, n + 1) >= 0;
    assert 0.0 < c(n + 1) <= c(n);
    ScaledNonNegative(Lead(a, best, n + 1), c(n));
  }

  /** With a strictly decreasing discount, equal discounted gain means equal entries. */
  lemma {:induction false} NoLeadMeansEqual(a: seq<int>, best: seq<int>, c: nat -> real, n: nat)
    requires StrictlyDiscounts(c) && Leads(a, best, n) && DcgLead(a, best, c, n) == 0.0
    ensures forall i: nat :: i < n ==> At(a, i) == At(best, i)
  {
    if n > 1 {
      var d := At(best, n - 1) - At(a, n - 1);
      LeadSteps(a, best, c, n - 1);
      LeadCarries(a, best, c, n - 2);
      assert Lead(a, best, n - 1) >= 0 && Lead(a, best, n) >= 0;
      ScaledStrictly(DcgLead(a, best, c, n - 1), Lead(a, best, n - 1), d, c(n - 2), c(n - 1));
      NoLeadMeansEqual(a, best, c, n - 1);
    } else if n == 1 {
      LeadSteps(a, best, c, 0);
      assert c(0) > 0.0 by { assert 0.0 < c(1) < c(0); }
      ZeroProduct((At(best, 0) - At(a, 0)) as real, c(0));
    }
  }

  // -------------------------------------------------------------- ranking vs ideal

  /** The graded ids, best grade first. */
  function BestIds(graded: Dict<string, Grade>): seq<string> {
    StableSort((id: string) => -GainIn(graded)(id) as real, graded.keys)
  }

  lemma BestIdsFall(graded: Dict<string, Grade>)
    ensures multiset(BestIds(graded)) == multiset(graded.keys) && FallingOver(GainIn(graded), BestIds(graded))
  {
    var key := (id: string) => -GainIn(graded)(id) as real;
    StableSortSorts(key, graded.keys);
    var t := BestIds(graded);
    forall i, j | 0 <= i < j < |t| ensures GainIn(graded)(t[i]) >= GainIn(graded)(t[j]) {
      assert key(t[i]) <= key(t[j]);
    }
  }

  lemma UnlistedGainsNothing(graded: Dict<string, Grade>, id: string)
    requires graded.Valid() && id !in multiset(graded.keys)
    ensures GainIn(graded)(id) == 0
  {
    KeyIndex(graded, id);
  }

  lemma BestIdsFacts(graded: Dict<string, Grade>)
    requires graded.Valid()
    ensures Distinct(BestIds(graded)) && |BestIds(graded)| == |graded.keys|
    ensures FallingOver(GainIn(graded), BestIds(graded))
    ensures forall id :: id !in BestIds(graded) ==> GainIn(graded)(id) == 0
    ensures Map(GainIn(graded), BestIds(graded)) == FullIdeal(graded)
  {
    var t := BestIds(graded);
    BestIdsFall(graded);
    SameLength(t, graded.keys);
    DistinctPermutation(graded.keys, t);
    forall id | id !in t ensures GainIn(graded)(id) == 0 {
      assert id !in multiset(t);
      UnlistedGainsNothing(graded, id);
    }
    FallingIsIdeal(graded, t);
  }

  /** The graded ids in an order of falling gain gain the full ideal. */
  lemma FallingIsIdeal(graded: Dict<string, Grade>, t: seq<string>)
    requires multiset(t) == multiset(graded.keys) && FallingOver(GainIn(graded), t)
    ensures Map(GainIn(graded), t) == FullIdeal(graded)
  {
    MapPermutation(GainIn(graded), t, graded.keys);
    DescendingFacts(Map(GainIn(graded), graded.keys));
    DescendingUnique(Map(GainIn(graded), t), FullIdeal(graded));
  }

  lemma DistinctPrefix(s: seq<string>, n: nat)
    requires Distinct(s) && n <= |s|
    ensures Distinct(s[..n])
  {}

  lemma PrefixOfMap(g: string -> int, s: seq<string>, j: nat)
    ensures Prefix(Map(g, s), j) == Sum(Map(g, s[..Least(j, |s|)]))
  {
    PrefixIsSum(Map(g, s), j);
    assert Map(g, s)[..Least(j, |s|)] == Map(g, s[..Least(j, |s|)]);
  }

  lemma TopGainsLess(g: string -> int, top: seq<string>, t: seq<string>, m: nat)
    requires Distinct(top) && m <= |top| && Distinct(t) && FallingOver(g, t)
    requires forall x :: x in t ==> g(x) >= 0
    requires forall x :: x !in t ==> g(x) == 0
    ensures Prefix(Map(g, top), m) <= GainOfFirst(g, t, m)
  {
    DistinctPrefix(top, m);
    BestIdsGainMost(g, top[..m], t);
    PrefixOfMap(g, top, m);
  }

  lemma {:induction false} PrefixSettles(s: seq<int>, n: nat)
    requires n >= |s|
    ensures Prefix(s, n) == Prefix(s, |s|)
  {
    if n > |s| {
      PrefixSettles(s, n - 1);
    }
  }

  /** The first m ids of t lie within the first j that a cut at k leaves. */
  lemma FirstWithinCut(g: string -> int, t: seq<string>, k: nat, m: nat, j: nat)
    requires m <= j && m <= k && forall x :: x in t ==> g(x) >= 0
    ensures GainOfFirst(g, t, m) <= Prefix(Map(g, Slice(t, k)), j)
  {
    var best, l := Slice(t, k), Least(m, |t|);
    assert best[..l] == t[..l];
    PrefixOfMap(g, best, l);
    PrefixGrows(Map(g, best), l, j);
  }

  lemma BestLeads(g: string -> int, r: seq<string>, t: seq<string>, k: nat, j: nat)
    requires Distinct(r) && Distinct(t) && FallingOver(g, t)
    requires forall x :: x in t ==> g(x) >= 0
    requires forall x :: x !in t ==> g(x) == 0
    ensures Prefix(Map(g, Slice(r, k)), j) <= Prefix(Slice(Map(g, t), k), j)
  {
    var top := Slice(r, k);
    var m := Least(j, |top|);
    TopGainsLess(g, top, t, m);
    if j > m {
      PrefixSettles(Map(g, top), j);
    }
    FirstWithinCut(g, t, k, m, j);
    assert Slice(Map(g, t), k) == Map(g, Slice(t, k));
  }

  /** In every prefix, a ranking of distinct ids gains no more than the ideal list. */
  lemma IdealLeads(ranked: seq<string>, graded: Dict<string, Grade>, k: nat, n: nat)
    requires Distinct(ranked) && graded.Valid()
    ensures Leads(Gains(ranked, graded, k), IdealGains(graded, k), n)
  {
    BestIdsFacts(graded);
    forall j: nat | j <= n ensures Lead(Gains(ranked, graded, k), IdealGains(graded, k), j) >= 0 {
      BestLeads(GainIn(graded), ranked, BestIds(graded), k, j);
    }
  }

  lemma {:induction false} DcgNonNegative(gains: seq<int>, c: nat -> real)
    requires Discounts(c) && forall i :: 0 <= i < |gains| ==> gains[i] >= 0
    ensures Dcg(gains, c) >= 0.0
  {
    if gains != [] {
      var n := |gains| - 1;
      DcgNonNegative(gains[..n], c);
      assert 0.0 < c(n + 1) <= c(n);
      ProductNonNegative(gains[n] as real, c(n));
    }
  }

  lemma DcgOrdered(ranked: seq<string>, graded: Dict<string, Grade>, k: nat, c: nat -> real)
    requires Distinct(ranked) && graded.Valid() && Discounts(c)
    ensures 0.0 <= Dcg(Gains(ranked, graded, k), c) <= Dcg(IdealGains(graded, k), c)
  {
    var a, best := Gains(ranked, graded, k), IdealGains(graded, k);
    var n := |a| + |best|;
    IdealLeads(ranked, graded, k, n + 1);
    LeadPays(a, best, c, n);
    DcgIsDcgUpTo(a, c, n + 1);
    DcgIsDcgUpTo(best, c, n + 1);
    DcgNonNegative(a, c);
  }

  // ------------------------------------------------------------------------- cuts

  /** The cut keeps no more of a ranking of this length than of the ideal, or what it takes from the ideal is
      worth nothing. A cut at a fixed depth always does; a negative one drops as many from both. */
  predicate HarmlessCut(length: nat, graded: Dict<string, Grade>, k: int) {
    var m := |graded.keys| + k;
    k >= 0 || length <= |graded.keys| || m <= 0 || At(FullIdeal(graded), m) == 0
  }

  lemma FullIdealFacts(graded: Dict<string, Grade>)
    ensures |FullIdeal(graded)| == |graded.keys| && NonIncreasing(FullIdeal(graded))
    ensures forall i :: 0 <= i < |FullIdeal(graded)| ==> FullIdeal(graded)[i] >= 0
  {
    var gains := Map(GainIn(graded), graded.keys);
    DescendingFacts(gains);
    forall i | 0 <= i < |FullIdeal(graded)| ensures FullIdeal(graded)[i] >= 0 {
      assert FullIdeal(graded)[i] in multiset(gains);
    }
  }

  /** A harmless cut is as good as one at some fixed depth. */
  lemma CutDepth(ranked: seq<string>, graded: Dict<string, Grade>, k: int) returns (depth: nat)
    requires HarmlessCut(|ranked|, graded, k) && IdealGains(graded, k) != []
    ensures |Slice(ranked, k)| <= depth
    ensures forall i: nat :: At(IdealGains(graded, k), i) == At(IdealGains(graded, depth), i)
  {
    var full, n := FullIdeal(graded), |graded.keys|;
    FullIdealFacts(graded);
    if k >= 0 {
      depth := k;
    } else if |ranked| <= n {
      depth := n + k;
      assert Slice(full, k) == Slice(full, depth);
    } else {
      depth := n + |ranked|;
      assert Slice(full, depth) == full;
      forall i: nat ensures At(IdealGains(graded, k), i) == At(full, i) {
        assert n + k <= i < n ==> full[i] <= full[n + k];
      }
    }
  }

  lemma EqualEntriesEqualDcg(s: seq<int>, t: seq<int>, c: nat -> real)
    requires forall i: nat :: At(s, i) == At(t, i)
    ensures Dcg(s, c) == Dcg(t, c)
  {
    var n := |s| + |t|;
    SameEntries(s, t, c, n);
    DcgIsDcgUpTo(s, c, n);
    DcgIsDcgUpTo(t, c, n);
  }

  /** Seen from the top that it keeps, a harmless cut is one at a fixed depth. */
  lemma FixedDepth(ranked: seq<string>, graded: Dict<string, Grade>, k: int, c: nat -> real) returns (depth: nat)
    requires HarmlessCut(|ranked|, graded, k) && IdealGains(graded, k) != []
    ensures Gains(Slice(ranked, k), graded, depth) == Gains(ranked, graded, k)
    ensures forall i: nat :: At(IdealGains(graded, k), i) == At(IdealGains(graded, depth), i)
    ensures Dcg(IdealGains(graded, k), c) == Dcg(IdealGains(graded, depth), c)
  {
    depth := CutDepth(ranked, graded, k);
    EqualEntriesEqualDcg(IdealGains(graded, k), IdealGains(graded, depth), c);
  }

  ghost predicate InRange(ranked: seq<string>, graded: Dict<string, Grade>, k: int, c: nat -> real) {
    0.0 <= Ndcg(ranked, graded, k, c) <= 1.0
  }

  /** Whenever the cut is harmless and the top it keeps has no repeated id, nDCG lies in [0, 1]. */
  lemma NdcgInRange(ranked: seq<string>, graded: Dict<string, Grade>, k: int, c: nat -> real)
    requires Distinct(Slice(ranked, k)) && graded.Valid() && Discounts(c)
    requires HarmlessCut(|ranked|, graded, k)
    ensures InRange(ranked, graded, k, c)
  {
    if IdealGains(graded, k) != [] {
      var depth := FixedDepth(ranked, graded, k, c);
      DcgOrdered(Slice(ranked, k), graded, depth, c);
      if Dcg(IdealGains(graded, k), c) != 0.0 {
        QuotientBounds(Dcg(Gains(ranked, graded, k), c), Dcg(IdealGains(graded, k), c));
      }
    }
  }

  /** nDCG is 1 exactly when the ranking's top gains, place by place, what the ideal gains. */
  lemma NdcgPerfect(ranked: seq<string>, graded: Dict<string, Grade>, k: int, c: nat -> real)
    requires Distinct(Slice(ranked, k)) && graded.Valid() && StrictlyDiscounts(c)
    requires HarmlessCut(|ranked|, graded, k) && Dcg(IdealGains(graded, k), c) != 0.0
    ensures Ndcg(ranked, graded, k, c) == 1.0
       <==> forall i: nat :: At(Gains(ranked, graded, k), i) == At(IdealGains(graded, k), i)
  {
    var depth := FixedDepth(ranked, graded, k, c);
    var a, best := Gains(ranked, graded, k), IdealGains(graded, depth);
    var n := |a| + |best|;
    DcgOrdered(Slice(ranked, k), graded, depth, c);
    QuotientBounds(Dcg(a, c), Dcg(best, c));
    DcgIsDcgUpTo(a, c, n);
    DcgIsDcgUpTo(best, c, n);
    if Dcg(a, c) == Dcg(best, c) {
      IdealLeads(Slice(ranked, k), graded, depth, n);
      NoLeadMeansEqual(a, best, c, n);
    }
    if forall i: nat :: At(a, i) == At(best, i) {
      SameEntries(a, best, c, n);
    }
  }

  // ------------------------------------------------------------ where the bound ends

  lemma {:induction false} DcgGrows(s: seq<int>, c: nat -> real, m: nat, n: nat)
    requires Discounts(c) && m <= n && forall i :: 0 <= i < |s| ==> s[i] >= 0
    ensures DcgUpTo(s, c, m) <= DcgUpTo(s, c, n)
  {
    if m < n {
      DcgGrows(s, c, m, n - 1);
      assert 0.0 < c(n) <= c(n - 1);
      ProductNonNegative(At(s, n - 1) as real, c(n - 1));
    }
  }

  lemma GainPays(s: seq<int>, c: nat -> real, n: nat)
    requires Discounts(c) && n < |s| && s[n] > 0
    ensures DcgUpTo(s, c, n) < DcgUpTo(s, c, n + 1)
  {
    assert 0.0 < c(n + 1) <= c(n);
    ProductPositive(s[n] as real, c(n));
  }

  /** A list that matches a non-empty ideal throughout and then gains once more scores above 1. */
  lemma OneGainTooMany(a: seq<int>, best: seq<int>, c: nat -> real)
    requires Discounts(c) && 0 < |best| < |a| && best[0] > 0 && a[|best|] > 0
    requires forall i :: 0 <= i < |a| ==> a[i] >= 0
    requires forall i :: 0 <= i < |best| ==> a[i] == best[i]
    ensures Dcg(best, c) > 0.0 && Dcg(a, c) / Dcg(best, c) > 1.0
  {
    var m := |best|;
    assert DcgUpTo(a, c, 0) == 0.0;
    GainPays(a, c, 0);
    DcgGrows(a, c, 1, m);
    GainPays(a, c, m);
    DcgGrows(a, c, m + 1, |a|);
    SameEntries(a, best, c, m);
    DcgIsDcgUpTo(best, c, m);
    DcgIsDcgUpTo(a, c, |a|);
    QuotientBounds(Dcg(a, c), Dcg(best, c));
  }

  /** The ranking begins with all graded ids, grades never rising. */
  ghost predicate BeginsIdeally(ranked: seq<string>, graded: Dict<string, Grade>) {
    var m := |graded.keys|;
    && m <= |ranked|
    && multiset(ranked[..m]) == multiset(graded.keys)
    && FallingOver(GainIn(graded), ranked[..m])
  }

  lemma TailUngraded(ranked: seq<string>, graded: Dict<string, Grade>, n: nat, i: nat)
    requires graded.Valid() && BeginsIdeally(ranked, graded)
    requires |graded.keys| <= i < n <= |ranked| && Distinct(ranked[..n])
    ensures GainIn(graded)(ranked[i]) == 0
  {
    var head := ranked[..|graded.keys|];
    KeyIndex(graded, ranked[i]);
    assert forall j :: 0 <= j < |head| ==> head[j] == ranked[..n][j] != ranked[..n][i];
    assert ranked[i] !in multiset(head);
  }

  /** Such a ranking's top gains exactly what the full ideal gains, as far down as it reaches. */
  lemma IdealEntry(ranked: seq<string>, graded: Dict<string, Grade>, k: int, i: nat)
    requires Distinct(Slice(ranked, k)) && graded.Valid() && BeginsIdeally(ranked, graded)
    ensures At(Gains(ranked, graded, k), i)
         == if i < |Slice(ranked, k)| then At(FullIdeal(graded), i) else 0
  {
    var g, m, n := GainIn(graded), |graded.keys|, |Slice(ranked, k)|;
    FallingIsIdeal(graded, ranked[..m]);
    var head := Map(g, ranked[..m]);
    assert |head| == m && Slice(ranked, k) == ranked[..n];
    if m <= i < n {
      TailUngraded(ranked, graded, n, i);
    } else if i < m {
      assert head[i] == g(ranked[i]);
    }
  }

  lemma HarmlessEntry(ranked: seq<string>, graded: Dict<string, Grade>, k: int, i: nat)
    requires Distinct(Slice(ranked, k)) && graded.Valid() && BeginsIdeally(ranked, graded)
    requires HarmlessCut(|ranked|, graded, k) && IdealGains(graded, k) != []
    ensures At(Gains(ranked, graded, k), i) == At(IdealGains(graded, k), i)
  {
    var full, n := FullIdeal(graded), |graded.keys|;
    FullIdealFacts(graded);
    IdealEntry(ranked, graded, k, i);
    if k < 0 && |ranked| > n && n + k <= i < n {
      assert full[i] <= full[n + k];
    }
  }

  lemma HarmfulCut(ranked: seq<string>, graded: Dict<string, Grade>, k: int, c: nat -> real)
    requires Distinct(Slice(ranked, k)) && graded.Valid() && BeginsIdeally(ranked, graded) && Discounts(c)
    requires !HarmlessCut(|ranked|, graded, k)
    ensures Ndcg(ranked, graded, k, c) > 1.0
  {
    var a, best, full := Gains(ranked, graded, k), IdealGains(graded, k), FullIdeal(graded);
    FullIdealFacts(graded);
    forall i: nat | i < |a| ensures a[i] == At(full, i) {
      IdealEntry(ranked, graded, k, i);
    }
    assert full[0] >= full[|best|];
    OneGainTooMany(a, best, c);
  }

  /** A ranking that begins with all graded ids, grades never rising, stays in [0, 1] exactly when the
      cut is harmless, and then scores exactly 1 unless the ideal is zero. */
  lemma NdcgOfIdealOrder(ranked: seq<string>, graded: Dict<string, Grade>, k: int, c: nat -> real)
    requires Distinct(Slice(ranked, k)) && graded.Valid() && BeginsIdeally(ranked, graded) && Discounts(c)
    ensures InRange(ranked, graded, k, c) <==> HarmlessCut(|ranked|, graded, k)
    ensures Dcg(IdealGains(graded, k), c) != 0.0 ==>
      (Ndcg(ranked, graded, k, c) == 1.0 <==> HarmlessCut(|ranked|, graded, k))
  {
    var a, best := Gains(ranked, graded, k), IdealGains(graded, k);
    if !HarmlessCut(|ranked|, graded, k) {
      HarmfulCut(ranked, graded, k, c);
    } else {
      NdcgInRange(ranked, graded, k, c);
      if Dcg(best, c) != 0.0 {
        forall i: nat ensures At(a, i) == At(best, i) {
          HarmlessEntry(ranked, graded, k, i);
        }
        EqualEntriesEqualDcg(a, best, c);
        SelfQuotient(Dcg(best, c));
      }
    }
  }

  lemma SelfQuotient(x: real)
    requires x != 0.0
    ensures x / x == 1.0
  {}

  // ------------------------------------------------------------------ repeated ids

  /** As many different ids as asked for, none of them used. */
  lemma {:induction false} FreshIds(used: seq<string>, n: nat) returns (ids: seq<string>)
    requires Distinct(used)
    ensures |ids| == n && Distinct(used + ids)
  {
    ids := [];
    if n > 0 {
      ids := FreshIds(used, n - 1);
      var x := Unused(used + ids);
      assert used + (ids + [x]) == (used + ids) + [x];
      ids := ids + [x];
    }
  }

  lemma {:induction false} Unused(used: seq<string>) returns (x: string)
    ensures x !in used && forall y :: y in used ==> |y| < |x|
  {
    if used == [] {
      x := "";
    } else {
      var n := |used| - 1;
      var y := Unused(used[..n]);
      x := y + used[n] + "x";
      assert forall z :: z in used ==> z in used[..n] || z == used[n];
    }
  }

  /** The first place whose id occurs above it. */
  lemma {:induction false} FirstRepeat(top: seq<string>) returns (j: nat)
    requires !Distinct(top)
    ensures j < |top| && Distinct(top[..j]) && top[j] in top[..j]
  {
    var n := |top| - 1;
    if Distinct(top[..n]) {
      j := n;
      assert forall i :: 0 <= i < n ==> top[..n][i] == top[i];
    } else {
      j := FirstRepeat(top[..n]);
      assert top[..n][..j] == top[..j];
    }
  }

  /** These ids highly relevant, those ones not at all. */
  function Graded(best: seq<string>, rest: seq<string>): Dict<string, Grade> {
    Dict(best + rest, map id | id in best + rest :: if id in best then HighlyRelevant else NotRelevant)
  }

  lemma GradedGain(best: seq<string>, rest: seq<string>, i: nat)
    requires Distinct(best + rest) && i < |best| + |rest|
    ensures GainIn(Graded(best, rest))((best + rest)[i]) == if i < |best| then 3 else 0
  {
    var ids := best + rest;
    assert ids[i] in ids;
    if i < |best| {
      assert ids[i] == best[i];
    } else {
      assert forall j :: 0 <= j < |best| ==> best[j] == ids[j] != ids[i];
    }
  }

  lemma GradedFacts(best: seq<string>, rest: seq<string>)
    requires Distinct(best + rest)
    ensures Graded(best, rest).Valid() && |FullIdeal(Graded(best, rest))| == |best| + |rest|
    ensures forall i :: 0 <= i < |best| + |rest| ==> FullIdeal(Graded(best, rest))[i] == if i < |best| then 3 else 0
  {
    var gains := Map(GainIn(Graded(best, rest)), best + rest);
    forall i: nat | i < |gains| ensures gains[i] == if i < |best| then 3 else 0 {
      GradedGain(best, rest, i);
    }
    DescendingFacts(gains);
    DescendingUnique(gains, Descending(gains));
  }

  lemma UpToRepeat(top: seq<string>, j: nat, rest: seq<string>, i: nat)
    requires i <= j < |top| && top[j] in top[..j] && Distinct(top[..j] + rest)
    ensures GainIn(Graded(top[..j], rest))(top[i]) == 3
  {
    assert i < j ==> top[..j][i] == top[i];
    var l: nat :| l < j && top[..j][l] == top[i];
    GradedGain(top[..j], rest, l);
  }

  /** Whatever the cut, if the top it keeps repeats an id then some grading, for which the cut is
      harmless, scores that ranking above 1. */
  lemma RepeatScoresTooMuch(ranked: seq<string>, k: int, c: nat -> real) returns (graded: Dict<string, Grade>)
    requires !Distinct(Slice(ranked, k)) && Discounts(c)
    ensures graded.Valid() && HarmlessCut(|ranked|, graded, k) && Ndcg(ranked, graded, k, c) > 1.0
  {
    var top := Slice(ranked, k);
    var j := FirstRepeat(top);
    var rest := FreshIds(top[..j], if k < 0 then -k else 0);
    graded := Graded(top[..j], rest);
    GradedFacts(top[..j], rest);
    var a, best := Gains(ranked, graded, k), IdealGains(graded, k);
    assert |best| == j;
    forall i: nat | i <= j ensures a[i] == 3 {
      UpToRepeat(top, j, rest, i);
    }
    OneGainTooMany(a, best, c);
  }

  /** A ranking and a cut stay in [0, 1] for every grading for which the cut is harmless (at a fixed
      depth, every grading there is) exactly when the top that is kept has no repeated id. */
  lemma NdcgBoundIsDistinctness(ranked: seq<string>, k: int, c: nat -> real)
    requires Discounts(c)
    ensures Distinct(Slice(ranked, k))
       <==> forall graded: Dict<string, Grade> | graded.Valid() && HarmlessCut(|ranked|, graded, k) ::
              InRange(ranked, graded, k, c)
  {
    if Distinct(Slice(ranked, k)) {
      forall graded: Dict<string, Grade> | graded.Valid() && HarmlessCut(|ranked|, graded, k)
        ensures InRange(ranked, graded, k, c)
      {
        NdcgInRange(ranked, graded, k, c);
      }
    } else {
      var graded := RepeatScoresTooMuch(ranked, k, c);
      assert !InRange(ranked, graded, k, c);
    }
  }

  lemma LongRanking(graded: Dict<string, Grade>, length: nat) returns (ranked: seq<string>)
    requires graded.Valid() && length >= |graded.keys|
    ensures |ranked| == length && Distinct(ranked) && BeginsIdeally(ranked, graded)
  {
    var best := BestIds(graded);
    BestIdsFacts(graded);
    BestIdsFall(graded);
    var rest := FreshIds(best, length - |best|);
    ranked := best + rest;
    assert ranked[..|graded.keys|] == best;
  }

  /** A grading and a cut keep every ranking of distinct ids of one length in [0, 1] exactly when the
      cut is harmless at that length. */
  lemma NdcgBoundIsHarmlessCut(length: nat, graded: Dict<string, Grade>, k: int, c: nat -> real)
    requires graded.Valid() && Discounts(c)
    ensures HarmlessCut(length, graded, k)
       <==> forall ranked | |ranked| == length && Distinct(ranked) :: InRange(ranked, graded, k, c)
  {
    if HarmlessCut(length, graded, k) {
      forall ranked | |ranked| == length && Distinct(ranked) ensures InRange(ranked, graded, k, c) {
        NdcgInRange(ranked, graded, k, c);
      }
    } else {
      var ranked := LongRanking(graded, length);
      NdcgOfIdealOrder(ranked, graded, k, c);
      assert !InRange(ranked, graded, k, c);
    }
  }

  /** The smallest repetition: the best id twice beats the ideal. */
  lemma NdcgOfRepeatedId(id: string, c: nat -> real)
    requires Discounts(c)
    ensures Ndcg([id, id], Dict([id], map[id := HighlyRelevant]), 2, c) > 1.0
  {
    var graded := Dict([id], map[id := HighlyRelevant]);
    assert Map(GainIn(graded), graded.keys) == [3];
    DescendingFacts([3]);
    assert FullIdeal(graded)[0] in multiset([3]);
    OneGainTooMany(Gains([id, id], graded, 2), IdealGains(graded, 2), c);
  }

  /** The smallest harmful cut: k = -1 leaves two of three ranked ids, but one of two graded ones. */
  lemma NdcgOfNegativeCut(a: string, b: string, x: string, c: nat -> real)
    requires Distinct([a, b, x]) && Discounts(c)
    ensures Ndcg([a, b, x], Dict([a, b], map[a := HighlyRelevant, b := HighlyRelevant]), -1, c) > 1.0
  {
    var graded := Dict([a, b], map[a := HighlyRelevant, b := HighlyRelevant]);
    assert Map(GainIn(graded), graded.keys) == [3, 3];
    DescendingFacts([3, 3]);
    assert FullIdeal(graded)[0] in multiset([3, 3]);
    assert IdealGains(graded, -1) == [3];
    assert Slice([a, b, x], -1) == [a, b];
    OneGainTooMany(Gains([a, b, x], graded, -1), [3], c);
  }
}
