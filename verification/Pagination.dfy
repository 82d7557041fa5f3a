/** The compact page range: first, last and nearby pages, with an ellipsis for each gap. */
module Pagination {
  import opened Sequences

  const MAX_VISIBLE_PAGE_LINKS := 7

  datatype Entry = Page(number: int) | Ellipsis

  /** The numbers from lo up, n of them. */
  function Consecutive(lo: int, n: nat): seq<int> {
    seq(n, i => lo + i)
  }

  function Count(total: int): nat {
    if total < 0 then 0 else total
  }

  function GapBefore(s: seq<int>): seq<Entry>
    requires s != []
  {
    var n := |s| - 1;
    if n > 0 && s[n] - s[n - 1] > 1 then [Ellipsis] else []
  }

  /** The pages of s with an ellipsis wherever neighbours are not consecutive. */
  function Weave(s: seq<int>): seq<Entry> {
    if s == [] then []
    else
      Weave(s[..|s| - 1]) + GapBefore(s) + [Page(s[|s| - 1])]
  }

  /** Add to an insertion-ordered set. */
  function Add(pages: seq<int>, p: int): seq<int> {
    if p in pages then pages else pages + [p]
  }

  function Ascend(pages: seq<int>): seq<int> {
    StableSort((p: int) => p as real, pages)
  }

  /** A page that a long range shows: an end, the current page, or one within two of it. */
  predicate Shown(current: int, total: int, p: int) {
    || p in {1, total, current}
    || (current - 2 <= p < current && 1 <= p)
    || (current < p <= current + 2 && p <= total)
  }

  ghost predicate ShowsExactly(s: seq<int>, current: int, total: int) {
    Increasing(s) && forall p :: p in s <==> Shown(current, total, p)
  }

  lemma AscendFacts(pages: seq<int>)
    requires Distinct(pages)
    ensures Increasing(Ascend(pages))
    ensures forall p :: p in Ascend(pages) <==> p in pages
  {
    var key, s := (p: int) => p as real, Ascend(pages);
    StableSortSorts(key, pages);
    DistinctPermutation(pages, s);
    forall i, j | 0 <= i < j < |s| ensures s[i] < s[j] {
      assert key(s[i]) <= key(s[j]);
    }
    forall p ensures p in s <==> p in pages {
      assert p in s <==> p in multiset(s);
      assert p in pages <==> p in multiset(pages);
    }
  }

  /** The ends, the current page, and its neighbours closer than reach. */
  ghost predicate Collected(pages: seq<int>, current: int, total: int, reach: int) {
    && Distinct(pages)
    && forall p :: p in pages <==>
         || p in {1, total, current}
         || (current - reach < p < current && 1 <= p)
         || (current < p < current + reach && p <= total)
  }

  function AddAround(pages: seq<int>, current: int, total: int, offset: int): seq<int> {
    var left := if current - offset >= 1 then Add(pages, current - offset) else pages;
    if current + offset <= total then Add(left, current + offset) else left
  }

  lemma AddAroundStep(pages: seq<int>, current: int, total: int, offset: int)
    requires Collected(pages, current, total, offset) && offset >= 1
    ensures Collected(AddAround(pages, current, total, offset), current, total, offset + 1)
  {}

  /** What a page range is made of, for short and long ranges. */
  ghost predicate IsPageRange(result: seq<Entry>, current: int, total: int) {
    && (total <= MAX_VISIBLE_PAGE_LINKS ==> result == Map((p: int) => Page(p), Consecutive(1, Count(total))))
    && (total > MAX_VISIBLE_PAGE_LINKS ==> exists s :: ShowsExactly(s, current, total) && result == Weave(s))
  }

  method BuildPageRange(current: int, total: int) returns (result: seq<Entry>)
    ensures IsPageRange(result, current, total)
  {
    if total <= MAX_VISIBLE_PAGE_LINKS {
      return Map((p: int) => Page(p), Consecutive(1, Count(total)));
    }
    var pages := Add(Add(Add([], 1), total), current);
    for offset := 1 to 3
      invariant Collected(pages, current, total, offset)
    {
      AddAroundStep(pages, current, total, offset);
      if current - offset >= 1 {
        pages := Add(pages, current - offset);
      }
      if current + offset <= total {
        pages := Add(pages, current + offset);
      }
    }
    var sorted := Ascend(pages);
    AscendFacts(pages);
    result := [];
    for i := 0 to |sorted|
      invariant result == Weave(sorted[..i])
    {
      assert sorted[..i + 1][..i] == sorted[..i];
      if i > 0 && sorted[i] - sorted[i - 1] > 1 {
        result := result + [Ellipsis];
      }
      result := result + [Page(sorted[i])];
    }
    assert sorted[..|sorted|] == sorted;
    assert ShowsExactly(sorted, current, total);
  }

  // -------------------------------------------------------------------- coverage

  function PagesIn(entries: seq<Entry>): seq<int> {
    if entries == [] then []
    else
      var n := |entries| - 1;
      PagesIn(entries[..n]) + if entries[n].Page? then [entries[n].number] else []
  }

  lemma PagesInAppend(entries: seq<Entry>, e: Entry)
    ensures PagesIn(entries + [e]) == PagesIn(entries) + if e.Page? then [e.number] else []
  {
    assert (entries + [e])[..|entries|] == entries;
  }

  lemma GapsInvisible(entries: seq<Entry>, gap: seq<Entry>, p: int)
    requires gap == [] || gap == [Ellipsis]
    ensures PagesIn(entries + gap + [Page(p)]) == PagesIn(entries) + [p]
  {
    PagesInAppend(entries + gap, Page(p));
    if gap == [] {
      assert entries + gap == entries;
    } else {
      PagesInAppend(entries, Ellipsis);
    }
  }

  /** Reading the pages back gives the list. */
  lemma {:induction false} WeavePages(s: seq<int>)
    ensures PagesIn(Weave(s)) == s
  {
    if s != [] {
      var n := |s| - 1;
      WeavePages(s[..n]);
      GapsInvisible(Weave(s[..n]), GapBefore(s), s[n]);
      assert s == s[..n] + [s[n]];
    }
  }

  /** The entries begin and end with the list's ends and stay between them. */
  lemma {:induction false} WeaveEnds(s: seq<int>)
    requires Increasing(s) && s != []
    ensures Weave(s) != [] && Weave(s)[0] == Page(s[0]) && Weave(s)[|Weave(s)| - 1] == Page(s[|s| - 1])
    ensures forall e :: 0 <= e < |Weave(s)| && Weave(s)[e].Page? ==> s[0] <= Weave(s)[e].number <= s[|s| - 1]
  {
    var n := |s| - 1;
    if n > 0 {
      WeaveEnds(s[..n]);
      var before := Weave(s[..n]);
      assert forall e :: 0 <= e < |before| ==> Weave(s)[e] == before[e];
    } else {
      assert Weave(s[..0]) == [];
    }
  }

  /** Entry e is an ellipsis standing for pages around p. */
  predicate Hides(entries: seq<Entry>, e: int, p: int) {
    && 0 < e < |entries| - 1
    && entries[e] == Ellipsis && entries[e - 1].Page? && entries[e + 1].Page?
    && entries[e - 1].number < p < entries[e + 1].number
  }

  lemma HidesInPrefix(s: seq<int>, e: int, p: int)
    requires Increasing(s) && |s| > 1
    ensures var n, shorter := |s| - 1, Weave(s[..|s| - 1]);
      Hides(Weave(s), e, p)
      <==> Hides(shorter, e, p) || (e == |shorter| && s[n] - s[n - 1] > 1 && s[n - 1] < p < s[n])
  {
    var n := |s| - 1;
    var before, after := Weave(s[..n]), Weave(s);
    WeaveEnds(s[..n]);
    assert forall i :: 0 <= i < |before| ==> after[i] == before[i];
    assert after[|before| - 1] == Page(s[n - 1]);
    if s[n] - s[n - 1] > 1 {
      assert after[|before|] == Ellipsis && after[|before| + 1] == Page(s[n]);
    } else {
      assert after[|before|] == Page(s[n]);
    }
  }

  predicate HiddenBy(entries: seq<Entry>, p: int, e: int) {
    Hides(entries, e, p) && forall f | 0 <= f < |entries| && Hides(entries, f, p) :: f == e
  }

  predicate NotHidden(entries: seq<Entry>, p: int) {
    forall e | 0 <= e < |entries| :: !Hides(entries, e, p)
  }

  lemma HiddenBefore(s: seq<int>, p: int)
    requires Increasing(s) && |s| > 1 && p <= s[|s| - 2]
    ensures NotHidden(Weave(s[..|s| - 1]), p) ==> NotHidden(Weave(s), p)
    ensures forall e :: HiddenBy(Weave(s[..|s| - 1]), p, e) ==> HiddenBy(Weave(s), p, e)
  {
    var before, after := Weave(s[..|s| - 1]), Weave(s);
    forall e ensures Hides(after, e, p) <==> Hides(before, e, p) {
      HidesInPrefix(s, e, p);
    }
  }

  lemma HiddenAfter(s: seq<int>, p: int)
    requires Increasing(s) && |s| > 1 && s[|s| - 2] < p <= s[|s| - 1]
    ensures p == s[|s| - 1] ==> NotHidden(Weave(s), p)
    ensures p < s[|s| - 1] ==> HiddenBy(Weave(s), p, |Weave(s[..|s| - 1])|)
  {
    var n := |s| - 1;
    var before, after := Weave(s[..n]), Weave(s);
    WeaveEnds(s[..n]);
    forall e ensures Hides(after, e, p) <==> e == |before| && s[n] - s[n - 1] > 1 && p < s[n] {
      HidesInPrefix(s, e, p);
    }
  }

  /** Every page from the first to the last of the list is listed, or hidden by exactly one ellipsis. */
  lemma {:induction false} EachPageOnce(s: seq<int>, p: int)
    requires Increasing(s) && s != [] && s[0] <= p <= s[|s| - 1]
    ensures if p in s then NotHidden(Weave(s), p) else exists e :: HiddenBy(Weave(s), p, e)
  {
    var n := |s| - 1;
    if n > 0 {
      assert s == s[..n] + [s[n]];
      if p <= s[n - 1] {
        EachPageOnce(s[..n], p);
        HiddenBefore(s, p);
        if p !in s {
          var e :| HiddenBy(Weave(s[..n]), p, e);
          assert HiddenBy(Weave(s), p, e);
        }
      } else {
        HiddenAfter(s, p);
      }
    }
  }

  // ---------------------------------------------------------------------- length

  lemma {:induction false} WeaveConsecutive(s: seq<int>, n: nat)
    requires s != []
    ensures |Weave(s + Consecutive(s[|s| - 1] + 1, n))| == |Weave(s)| + n
  {
    var lo := s[|s| - 1] + 1;
    if n == 0 {
      assert s + Consecutive(lo, 0) == s;
    } else {
      WeaveConsecutive(s, n - 1);
      var longer := s + Consecutive(lo, n);
      assert longer[..|longer| - 1] == s + Consecutive(lo, n - 1);
    }
  }

  lemma WeaveOneMore(s: seq<int>, x: int)
    ensures |Weave(s + [x])| <= |Weave(s)| + 2
  {
    assert (s + [x])[..|s|] == s;
  }

  lemma SameSizes(s: seq<int>, t: seq<int>)
    requires Increasing(s) && Increasing(t) && forall p :: p in s <==> p in t
    ensures |s| == |t|
    ensures s != [] ==> s[|s| - 1] == t[|t| - 1]
  {
    DistinctCardinality(s);
    DistinctCardinality(t);
    assert (set p | p in s) == (set p | p in t);
    if s != [] {
      var x, y := s[|s| - 1], t[|t| - 1];
      assert x in s && y in t;
      var i :| 0 <= i < |t| && t[i] == x;
      var j :| 0 <= j < |s| && s[j] == y;
    }
  }

  lemma {:induction false} IncreasingUnique(s: seq<int>, t: seq<int>)
    requires Increasing(s) && Increasing(t) && forall p :: p in s <==> p in t
    ensures s == t
  {
    SameSizes(s, t);
    if s != [] {
      var n := |s| - 1;
      var front, back := s[..n], t[..n];
      assert s == front + [s[n]] && t == back + [t[n]];
      forall p ensures p in front <==> p in back {
        assert p in s <==> p in front || p == s[n];
        assert p in t <==> p in back || p == s[n];
        assert forall i :: 0 <= i < n ==> front[i] != s[n] && back[i] != s[n];
      }
      IncreasingUnique(front, back);
    }
  }

  /** First page, the pages near the current one, last page. */
  function Explicit(current: int, total: int): seq<int>
    requires 1 <= current <= total
  {
    var lo := if current <= 3 then 1 else current - 2;
    var hi := if current + 2 >= total then total else current + 2;
    (if lo > 1 then [1] else []) + Consecutive(lo, hi - lo + 1) + (if hi < total then [total] else [])
  }

  lemma ShownIsExplicit(s: seq<int>, current: int, total: int)
    requires 1 <= current <= total && ShowsExactly(s, current, total)
    ensures s == Explicit(current, total)
  {
    var t := Explicit(current, total);
    var lo := if current <= 3 then 1 else current - 2;
    var hi := if current + 2 >= total then total else current + 2;
    var window := Consecutive(lo, hi - lo + 1);
    forall p ensures p in window <==> lo <= p <= hi {
      assert lo <= p <= hi ==> window[p - lo] == p;
    }
    forall p ensures p in t <==> Shown(current, total, p) {}
    IncreasingUnique(s, t);
  }

  /** Starting from a few pages, a run of consecutive ones and one more adds little. */
  lemma RunIsShort(head: seq<int>, n: nat, last: int)
    requires head != []
    ensures var run := head + Consecutive(head[|head| - 1] + 1, n);
      |Weave(run)| == |Weave(head)| + n && |Weave(run + [last])| <= |Weave(head)| + n + 2
  {
    WeaveConsecutive(head, n);
    WeaveOneMore(head + Consecutive(head[|head| - 1] + 1, n), last);
  }

  lemma ShortHeads(lo: int)
    ensures |Weave([1])| == 1 && |Weave([1, lo])| <= 3
  {
    assert [1][..0] == [] && [1, lo][..1] == [1];
  }

  /** The listed pages, as a short head, the rest of the window and perhaps the last page. */
  lemma ExplicitShape(current: int, total: int) returns (head: seq<int>, run: seq<int>, n: nat)
    requires 1 <= current <= total
    ensures head != [] && |Weave(head)| + n <= 7
    ensures run == head + Consecutive(head[|head| - 1] + 1, n)
    ensures Explicit(current, total) == run || Explicit(current, total) == run + [total]
  {
    var lo := if current <= 3 then 1 else current - 2;
    var hi := if current + 2 >= total then total else current + 2;
    head, n := if lo > 1 then [1, lo] else [1], hi - lo;
    run := head + Consecutive(lo + 1, n);
    ShortHeads(lo);
    assert Consecutive(lo, n + 1) == [lo] + Consecutive(lo + 1, n);
  }

  lemma ExplicitIsShort(current: int, total: int)
    requires 1 <= current <= total
    ensures |Weave(Explicit(current, total))| <= 9
  {
    var head, run, n := ExplicitShape(current, total);
    RunIsShort(head, n, total);
  }

  lemma EndsOfRange(s: seq<int>, current: int, total: int)
    requires 1 <= current <= total && ShowsExactly(s, current, total)
    ensures s != [] && s[0] == 1 && s[|s| - 1] == total
  {
    ShownIsExplicit(s, current, total);
  }

  /** A plain list needs no ellipsis. */
  lemma {:induction false} PlainIsWoven(n: nat)
    ensures Map((p: int) => Page(p), Consecutive(1, n)) == Weave(Consecutive(1, n))
  {
    if n > 0 {
      PlainIsWoven(n - 1);
      assert Consecutive(1, n)[..n - 1] == Consecutive(1, n - 1);
      assert Map((p: int) => Page(p), Consecutive(1, n))
          == Map((p: int) => Page(p), Consecutive(1, n - 1)) + [Page(n)];
    }
  }

  /** The pages a range lists: rising strictly, all in range, among them the ends, the current page and
      those within two of it. */
  ghost predicate ListsWell(s: seq<int>, current: int, total: int) {
    && Increasing(s) && s != [] && s[0] == 1 && s[|s| - 1] == total && current in s
    && (forall p :: p in s ==> 1 <= p <= total)
    && (forall p :: 1 <= p <= total && current - 2 <= p <= current + 2 ==> p in s)
  }

  lemma ListedPages(result: seq<Entry>, current: int, total: int) returns (s: seq<int>)
    requires 1 <= current <= total && IsPageRange(result, current, total)
    ensures ListsWell(s, current, total) && result == Weave(s) && |result| <= 9
    ensures forall p ::
      (p in s <==> 1 <= p <= total && (total <= 7 || p in {1, total} || current - 2 <= p <= current + 2))
  {
    if total <= MAX_VISIBLE_PAGE_LINKS {
      s := Consecutive(1, total);
      PlainIsWoven(total);
      forall p | 1 <= p <= total ensures p in s {
        assert s[p - 1] == p;
      }
    } else {
      s :| ShowsExactly(s, current, total) && result == Weave(s);
      EndsOfRange(s, current, total);
      ShownIsExplicit(s, current, total);
      ExplicitIsShort(current, total);
    }
  }

  /** For every current page and every total: the pages listed rise strictly, include the first, the
      current and the last page and those within two of the current one, and lie in range; up to seven
      pages all are listed, beyond that no others; every page is listed or hidden by exactly one
      ellipsis; and there are at most nine entries. */
  lemma PageRangeCovers(result: seq<Entry>, current: int, total: int)
    requires 1 <= current <= total && IsPageRange(result, current, total)
    ensures ListsWell(PagesIn(result), current, total) && |result| <= 9
    ensures forall p ::
      (p in PagesIn(result)
       <==> 1 <= p <= total && (total <= 7 || p in {1, total} || current - 2 <= p <= current + 2))
    ensures forall p :: 1 <= p <= total ==>
      if p in PagesIn(result) then NotHidden(result, p) else exists e :: HiddenBy(result, p, e)
  {
    var s := ListedPages(result, current, total);
    WeavePages(s);
    forall p | 1 <= p <= total
      ensures if p in s then NotHidden(result, p) else exists e :: HiddenBy(result, p, e)
    {
      EachPageOnce(s, p);
    }
  }
}
