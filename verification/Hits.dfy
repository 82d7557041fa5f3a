/** Passage rows, their aggregation per report side, and their regrouping per
    alignment unit. */
module Hits {

  const CORE: set<string> := {
    "positive", "negative", "uncertainty", "litigious", "constraining", "strong_modal", "weak_modal"
  }

  /** Every row carries a count for each core category. */
  type CoreCounts = m: map<string, int> | CORE <= m.Keys
    witness map c | c in CORE :: 0

  datatype Hit = Hit(category: string, subcategory: string, count: int)

  datatype Row = Row(
    side: string,
    status: string,
    words: int,
    page: int,
    alignmentId: string,
    core: CoreCounts,
    custom: seq<Hit>,
    customNegated: map<(string, string), int>
  )

  const EARLIER := "EARLIER"
  const LATER := "LATER"

  function Get<K>(m: map<K, int>, k: K): int {
    if k in m then m[k] else 0
  }

  // ------------------------------------------------------------ what is counted

  function CategoryHits(custom: seq<Hit>, cat: string): int {
    if custom == [] then 0
    else
      var h := custom[|custom| - 1];
      CategoryHits(custom[..|custom| - 1], cat) + if h.category == cat then h.count else 0
  }

  function SubcategoryHits(custom: seq<Hit>, key: (string, string)): int {
    if custom == [] then 0
    else
      var h := custom[|custom| - 1];
      SubcategoryHits(custom[..|custom| - 1], key) + if (h.category, h.subcategory) == key then h.count else 0
  }

  function NegatedHits(custom: seq<Hit>, negated: map<(string, string), int>, cat: string): int {
    if custom == [] then 0
    else
      var h := custom[|custom| - 1];
      NegatedHits(custom[..|custom| - 1], negated, cat)
      + if h.category == cat then Get(negated, (h.category, h.subcategory)) else 0
  }

  predicate Mentions(custom: seq<Hit>, cat: string) {
    exists i :: 0 <= i < |custom| && custom[i].category == cat && custom[i].count > 0
  }

  /** A row's hits in one category. */
  function RowHits(r: Row, cat: string): int {
    if cat in CORE then r.core[cat] else CategoryHits(r.custom, cat)
  }

  /** The sum of f over the rows that keep selects. */
  function TotalOf(rows: seq<Row>, keep: Row -> bool, f: Row -> int): int {
    if rows == [] then 0
    else
      var r := rows[|rows| - 1];
      TotalOf(rows[..|rows| - 1], keep, f) + if keep(r) then f(r) else 0
  }

  function On(side: string, statuses: seq<string>): Row -> bool {
    (r: Row) => r.side == side && (statuses != [] ==> r.status in statuses)
  }

  function OnSide(side: string): Row -> bool {
    On(side, [])
  }

  /** Rows on neither side; well-formed data has none. */
  function Elsewhere(): Row -> bool {
    (r: Row) => r.side != EARLIER && r.side != LATER
  }

  function One(): Row -> int { (r: Row) => 1 }

  function WordsOf(): Row -> int { (r: Row) => r.words }

  function CoreOf(cat: string): Row -> int { (r: Row) => Get(r.core, cat) }

  function CategoryOf(cat: string): Row -> int { (r: Row) => CategoryHits(r.custom, cat) }

  function SubcategoryOf(key: (string, string)): Row -> int { (r: Row) => SubcategoryHits(r.custom, key) }

  function NegatedOf(cat: string): Row -> int { (r: Row) => NegatedHits(r.custom, r.customNegated, cat) }

  function MentionsOf(cat: string): Row -> int { (r: Row) => if Mentions(r.custom, cat) then 1 else 0 }

  function HitsOf(cat: string): Row -> int { (r: Row) => RowHits(r, cat) }

  // --------------------------------------------------------------- one report side

  datatype Side = Side(
    words: int,
    passages: int,
    core: map<string, int>,
    cat: map<string, int>,
    sub: map<(string, string), int>,
    catNegated: map<string, int>,
    catPassages: map<string, int>
  )

  /** Counter addition. */
  function AddCounts<K(!new)>(m: map<K, int>, d: map<K, int>): (r: map<K, int>)
    ensures forall k :: Get(r, k) == Get(m, k) + Get(d, k)
  {
    map k | k in m.Keys + d.Keys :: Get(m, k) + Get(d, k)
  }

  /** Counter increment at one key. */
  function Bump<K(!new)>(m: map<K, int>, k: K, n: int): (r: map<K, int>)
    ensures forall j :: Get(r, j) == Get(m, j) + if j == k then n else 0
  {
    m[k := Get(m, k) + n]
  }

  /** The side holds the totals of the selected rows. */
  ghost predicate Aggregates(s: Side, rows: seq<Row>, keep: Row -> bool) {
    && s.words == TotalOf(rows, keep, WordsOf())
    && s.passages == TotalOf(rows, keep, One())
    && (forall c :: Get(s.core, c) == TotalOf(rows, keep, CoreOf(c)))
    && (forall c :: Get(s.cat, c) == TotalOf(rows, keep, CategoryOf(c)))
    && (forall k :: Get(s.sub, k) == TotalOf(rows, keep, SubcategoryOf(k)))
    && (forall c :: Get(s.catNegated, c) == TotalOf(rows, keep, NegatedOf(c)))
    && (forall c :: Get(s.catPassages, c) == TotalOf(rows, keep, MentionsOf(c)))
  }

  /** The side's category counters account for these hits on top of the old ones. */
  ghost predicate HitsAdded(s: Side, t: Side, custom: seq<Hit>, negated: map<(string, string), int>) {
    && t == s.(cat := t.cat, sub := t.sub, catNegated := t.catNegated)
    && (forall c :: Get(t.cat, c) == Get(s.cat, c) + CategoryHits(custom, c))
    && (forall k :: Get(t.sub, k) == Get(s.sub, k) + SubcategoryHits(custom, k))
    && (forall c :: Get(t.catNegated, c) == Get(s.catNegated, c) + NegatedHits(custom, negated, c))
  }

  function AddHit(t: Side, h: Hit, negated: map<(string, string), int>): Side {
    var key := (h.category, h.subcategory);
    t.(cat := Bump(t.cat, h.category, h.count),
       sub := Bump(t.sub, key, h.count),
       catNegated := Bump(t.catNegated, h.category, Get(negated, key)))
  }

  lemma AddHitExtends(s: Side, t: Side, custom: seq<Hit>, negated: map<(string, string), int>, i: nat)
    requires i < |custom| && HitsAdded(s, t, custom[..i], negated)
    ensures HitsAdded(s, AddHit(t, custom[i], negated), custom[..i + 1], negated)
  {
    assert custom[..i + 1][..i] == custom[..i];
  }

  /** t is s with one more row accounted for, in every counter. */
  ghost predicate RowAdded(s: Side, t: Side, r: Row) {
    && t.words == s.words + r.words
    && t.passages == s.passages + 1
    && (forall c :: Get(t.core, c) == Get(s.core, c) + Get(r.core, c))
    && (forall c :: Get(t.cat, c) == Get(s.cat, c) + CategoryHits(r.custom, c))
    && (forall k :: Get(t.sub, k) == Get(s.sub, k) + SubcategoryHits(r.custom, k))
    && (forall c :: Get(t.catNegated, c) == Get(s.catNegated, c) + NegatedHits(r.custom, r.customNegated, c))
    && (forall c :: Get(t.catPassages, c) == Get(s.catPassages, c) + if Mentions(r.custom, c) then 1 else 0)
  }

  ghost predicate SeenIs(seen: set<string>, custom: seq<Hit>) {
    forall c :: c in seen <==> Mentions(custom, c)
  }

  lemma SeenStep(seen: set<string>, custom: seq<Hit>, i: nat)
    requires i < |custom| && SeenIs(seen, custom[..i])
    ensures SeenIs(if custom[i].count > 0 then seen + {custom[i].category} else seen, custom[..i + 1])
  {
    forall c
      ensures Mentions(custom[..i + 1], c)
         <==> Mentions(custom[..i], c) || (c == custom[i].category && custom[i].count > 0)
    {
      MentionsExtend(custom, i, c);
    }
  }

  lemma RowFinished(s: Side, t: Side, r: Row, seen: set<string>)
    requires HitsAdded(s.(words := s.words + r.words, passages := s.passages + 1, core := AddCounts(s.core, r.core)),
                       t, r.custom, r.customNegated)
    requires SeenIs(seen, r.custom)
    ensures RowAdded(s, t.(catPassages := AddCounts(t.catPassages, map c | c in seen :: 1)), r)
  {}

  /** Fold one row into the side's counters. */
  method AddRow(s: Side, r: Row) returns (t: Side)
    ensures RowAdded(s, t, r)
  {
    t := s.(words := s.words + r.words, passages := s.passages + 1, core := AddCounts(s.core, r.core));
    ghost var started := t;
    var seen: set<string> := {};
    for i := 0 to |r.custom|
      invariant HitsAdded(started, t, r.custom[..i], r.customNegated)
      invariant SeenIs(seen, r.custom[..i])
    {
      var h := r.custom[i];
      AddHitExtends(started, t, r.custom, r.customNegated, i);
      SeenStep(seen, r.custom, i);
      t := AddHit(t, h, r.customNegated);
      if h.count > 0 {
        seen := seen + {h.category};
      }
    }
    assert r.custom[..|r.custom|] == r.custom;
    RowFinished(s, t, r, seen);
    t := t.(catPassages := AddCounts(t.catPassages, map c | c in seen :: 1));
  }

  lemma MentionsExtend(custom: seq<Hit>, i: nat, c: string)
    requires i < |custom|
    ensures Mentions(custom[..i + 1], c)
       <==> Mentions(custom[..i], c) || (c == custom[i].category && custom[i].count > 0)
  {
    var longer, shorter := custom[..i + 1], custom[..i];
    assert longer[i] == custom[i];
    if Mentions(shorter, c) {
      var k :| 0 <= k < |shorter| && shorter[k].category == c && shorter[k].count > 0;
      assert longer[k] == shorter[k];
    }
    if Mentions(longer, c) {
      var k :| 0 <= k < |longer| && longer[k].category == c && longer[k].count > 0;
      assert k < i ==> shorter[k] == longer[k];
    }
  }

  lemma TotalOfStep(rows: seq<Row>, i: nat, keep: Row -> bool, f: Row -> int)
    requires i < |rows|
    ensures TotalOf(rows[..i + 1], keep, f) == TotalOf(rows[..i], keep, f) + if keep(rows[i]) then f(rows[i]) else 0
  {
    assert rows[..i + 1][..i] == rows[..i];
  }

  lemma AggregateStep(s: Side, t: Side, rows: seq<Row>, i: nat, keep: Row -> bool)
    requires i < |rows| && Aggregates(s, rows[..i], keep)
    requires if keep(rows[i]) then RowAdded(s, t, rows[i]) else t == s
    ensures Aggregates(t, rows[..i + 1], keep)
  {
    TotalOfStep(rows, i, keep, WordsOf());
    TotalOfStep(rows, i, keep, One());
    forall c ensures Get(t.core, c) == TotalOf(rows[..i + 1], keep, CoreOf(c)) {
      TotalOfStep(rows, i, keep, CoreOf(c));
    }
    forall c ensures Get(t.cat, c) == TotalOf(rows[..i + 1], keep, CategoryOf(c)) {
      TotalOfStep(rows, i, keep, CategoryOf(c));
    }
    forall k ensures Get(t.sub, k) == TotalOf(rows[..i + 1], keep, SubcategoryOf(k)) {
      TotalOfStep(rows, i, keep, SubcategoryOf(k));
    }
    forall c ensures Get(t.catNegated, c) == TotalOf(rows[..i + 1], keep, NegatedOf(c)) {
      TotalOfStep(rows, i, keep, NegatedOf(c));
    }
    forall c ensures Get(t.catPassages, c) == TotalOf(rows[..i + 1], keep, MentionsOf(c)) {
      TotalOfStep(rows, i, keep, MentionsOf(c));
    }
  }

  /** One pass over the rows of one side, optionally restricted to some statuses. */
  method Aggregate(rows: seq<Row>, side: string, statuses: seq<string>) returns (s: Side)
    ensures Aggregates(s, rows, On(side, statuses))
  {
    s := Side(0, 0, map[], map[], map[], map[], map[]);
    for i := 0 to |rows|
      invariant Aggregates(s, rows[..i], On(side, statuses))
    {
      var r := rows[i];
      ghost var before := s;
      if r.side == side && (statuses == [] || r.status in statuses) {
        s := AddRow(s, r);
      }
      AggregateStep(before, s, rows, i, On(side, statuses));
    }
    assert rows[..|rows|] == rows;
  }

  /** Which counter a category's hits come from: seven are core categories, the taxonomy's four are not. */
  lemma SourceOfHits(r: Row, cat: string)
    ensures cat in {"positive", "negative", "uncertainty", "litigious",
                    "constraining", "strong_modal", "weak_modal"} ==>
      RowHits(r, cat) == Get(r.core, cat)
    ensures cat in {"risk", "financial_condition", "governance", "strategy"} ==>
      RowHits(r, cat) == CategoryHits(r.custom, cat)
  {
    DifferentNames();
  }

  lemma DifferentNames()
    ensures "risk" !in CORE && "financial_condition" !in CORE && "governance" !in CORE && "strategy" !in CORE
  {
    assert "risk"[0] == 'r' && "financial_condition"[0] == 'f' && "governance"[0] == 'g';
    assert |"strategy"| == 8 && |"strong_modal"| == 12;
  }

  // ------------------------------------------------- categories and their subcategories

  function SubKeys(cat: string, subs: seq<string>): seq<(string, string)> {
    seq(|subs|, i requires 0 <= i < |subs| => (cat, subs[i]))
  }

  /** The counts of these keys together. */
  function CountsOf(sub: map<(string, string), int>, keys: seq<(string, string)>): int {
    if keys == [] then 0
    else CountsOf(sub, keys[..|keys| - 1]) + Get(sub, keys[|keys| - 1])
  }

  function SubcategoriesHits(custom: seq<Hit>, cat: string, subs: seq<string>): int {
    if subs == [] then 0
    else SubcategoriesHits(custom, cat, subs[..|subs| - 1]) + SubcategoryHits(custom, (cat, subs[|subs| - 1]))
  }

  lemma {:induction false} OneMoreHit(custom: seq<Hit>, cat: string, subs: seq<string>)
    requires custom != [] && forall i, j :: 0 <= i < j < |subs| ==> subs[i] != subs[j]
    ensures var h := custom[|custom| - 1];
      SubcategoriesHits(custom, cat, subs)
      == SubcategoriesHits(custom[..|custom| - 1], cat, subs)
         + if h.category == cat && h.subcategory in subs then h.count else 0
  {
    if subs != [] {
      var m := |subs| - 1;
      OneMoreHit(custom, cat, subs[..m]);
      assert subs == subs[..m] + [subs[m]];
    }
  }

  /** subs lists once each at least the subcategories in which these hits fall for the category. */
  ghost predicate Lists(subs: seq<string>, custom: seq<Hit>, cat: string) {
    && (forall i, j :: 0 <= i < j < |subs| ==> subs[i] != subs[j])
    && (forall i :: 0 <= i < |custom| && custom[i].category == cat ==> custom[i].subcategory in subs)
  }

  lemma {:induction false} RowSubcategories(custom: seq<Hit>, cat: string, subs: seq<string>)
    requires Lists(subs, custom, cat)
    ensures CategoryHits(custom, cat) == SubcategoriesHits(custom, cat, subs)
  {
    if custom == [] {
      NoHits(cat, subs);
    } else {
      RowSubcategories(custom[..|custom| - 1], cat, subs);
      OneMoreHit(custom, cat, subs);
    }
  }

  lemma {:induction false} NoHits(cat: string, subs: seq<string>)
    ensures SubcategoriesHits([], cat, subs) == 0
  {
    if subs != [] {
      NoHits(cat, subs[..|subs| - 1]);
    }
  }

  /** The side's totals of these subcategories together. */
  function SubcategoryTotals(rows: seq<Row>, keep: Row -> bool, cat: string, subs: seq<string>): int {
    if subs == [] then 0
    else
      SubcategoryTotals(rows, keep, cat, subs[..|subs| - 1])
      + TotalOf(rows, keep, SubcategoryOf((cat, subs[|subs| - 1])))
  }

  lemma {:induction false} TotalsStep(rows: seq<Row>, keep: Row -> bool, cat: string, subs: seq<string>)
    requires rows != []
    ensures var r := rows[|rows| - 1];
      SubcategoryTotals(rows, keep, cat, subs)
      == SubcategoryTotals(rows[..|rows| - 1], keep, cat, subs)
         + if keep(r) then SubcategoriesHits(r.custom, cat, subs) else 0
  {
    if subs != [] {
      TotalsStep(rows, keep, cat, subs[..|subs| - 1]);
    }
  }

  lemma {:induction false} NoTotals(keep: Row -> bool, cat: string, subs: seq<string>)
    ensures SubcategoryTotals([], keep, cat, subs) == 0
  {
    if subs != [] {
      NoTotals(keep, cat, subs[..|subs| - 1]);
    }
  }

  lemma {:induction false} TotalsAgree(rows: seq<Row>, keep: Row -> bool, cat: string, subs: seq<string>)
    requires forall i :: 0 <= i < |rows| ==> Lists(subs, rows[i].custom, cat)
    ensures TotalOf(rows, keep, CategoryOf(cat)) == SubcategoryTotals(rows, keep, cat, subs)
  {
    if rows == [] {
      NoTotals(keep, cat, subs);
    } else {
      TotalsAgree(rows[..|rows| - 1], keep, cat, subs);
      TotalsStep(rows, keep, cat, subs);
      RowSubcategories(rows[|rows| - 1].custom, cat, subs);
    }
  }

  lemma {:induction false} CountsAreTotals(s: Side, rows: seq<Row>, keep: Row -> bool, cat: string, subs: seq<string>)
    requires Aggregates(s, rows, keep)
    ensures CountsOf(s.sub, SubKeys(cat, subs)) == SubcategoryTotals(rows, keep, cat, subs)
  {
    if subs != [] {
      var m := |subs| - 1;
      CountsAreTotals(s, rows, keep, cat, subs[..m]);
      assert SubKeys(cat, subs)[..m] == SubKeys(cat, subs[..m]);
    }
  }

  /** On every aggregated side, a category's hits are the hits of its subcategories together. */
  lemma CategoryIsSumOfSubcategories(s: Side, rows: seq<Row>, keep: Row -> bool, cat: string, subs: seq<string>)
    requires Aggregates(s, rows, keep)
    requires forall i :: 0 <= i < |rows| ==> Lists(subs, rows[i].custom, cat)
    ensures Get(s.cat, cat) == CountsOf(s.sub, SubKeys(cat, subs))
  {
    TotalsAgree(rows, keep, cat, subs);
    CountsAreTotals(s, rows, keep, cat, subs);
  }
}
