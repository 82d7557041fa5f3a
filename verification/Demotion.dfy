/** Stable demotion of flagged candidates, and what it does to the share of them shown. */
module Demotion {
  import opened Sequences
  import opened Sums
  import opened RankingMetrics

  datatype Candidate = Candidate(passageId: string, wordCount: nat)

  function Not<T>(p: T -> bool): T -> bool {
    (x: T) => !p(x)
  }

  /** Flagged candidates after unflagged ones, each group in its original order. */
  function Reorder<T>(candidates: seq<T>, flagged: T -> bool): seq<T> {
    Filter(Not(flagged), candidates) + Filter(flagged, candidates)
  }

  function Demote(candidates: seq<Candidate>, flagged: Candidate -> bool): seq<string> {
    Map((c: Candidate) => c.passageId, Reorder(candidates, flagged))
  }

  function Flagged<T>(flagged: T -> bool, s: seq<T>): nat {
    |Filter(flagged, s)|
  }

  /** The share of short fragments among the first k. */
  function FragmentRate(isFragment: seq<bool>, k: int): real {
    var top := Slice(isFragment, k);
    if top == [] then 0.0 else Flagged((b: bool) => b, top) as real / |top| as real
  }

  lemma {:induction false} GroupsPartition<T>(s: seq<T>, p: T -> bool)
    ensures multiset(Filter(Not(p), s) + Filter(p, s)) == multiset(s)
    ensures Flagged(Not(p), s) + Flagged(p, s) == |s|
  {
    if s != [] {
      GroupsPartition(s[1..], p);
      HeadTail(s);
    }
  }

  /** A filtered list passes its own filter whole, and the opposite filter not at all. */
  lemma {:induction false} GroupsPure<T>(p: T -> bool, s: seq<T>)
    ensures forall i :: 0 <= i < |Filter(p, s)| ==> p(Filter(p, s)[i])
    ensures forall i :: 0 <= i < |Filter(Not(p), s)| ==> !p(Filter(Not(p), s)[i])
  {
    if s != [] {
      GroupsPure(p, s[1..]);
    }
  }

  lemma PassAll<T>(p: T -> bool, s: seq<T>)
    requires forall i :: 0 <= i < |s| ==> p(s[i])
    ensures Filter(p, s) == s && Filter(Not(p), s) == []
  {
    FilterAll(p, s);
    FilterNone(Not(p), s);
  }

  lemma PassNone<T>(p: T -> bool, s: seq<T>)
    requires forall i :: 0 <= i < |s| ==> !p(s[i])
    ensures Filter(p, s) == [] && Filter(Not(p), s) == s
  {
    FilterNone(p, s);
    FilterAll(Not(p), s);
  }

  /** Demotion loses and invents no candidate and keeps both groups' internal order. */
  lemma DemotionIsStable<T>(candidates: seq<T>, flagged: T -> bool)
    ensures multiset(Reorder(candidates, flagged)) == multiset(candidates)
    ensures Filter(flagged, Reorder(candidates, flagged)) == Filter(flagged, candidates)
    ensures Filter(Not(flagged), Reorder(candidates, flagged)) == Filter(Not(flagged), candidates)
  {
    var kept, demoted := Filter(Not(flagged), candidates), Filter(flagged, candidates);
    GroupsPartition(candidates, flagged);
    GroupsPure(flagged, candidates);
    FilterConcat(flagged, kept, demoted);
    FilterConcat(Not(flagged), kept, demoted);
    PassNone(flagged, kept);
    PassAll(flagged, demoted);
  }

  /** Unflagged places come first, and both groups rise. */
  ghost predicate FlaggedLast(order: seq<int>, p: int -> bool) {
    forall k, l :: 0 <= k < l < |order| ==> if p(order[k]) == p(order[l]) then order[k] < order[l] else p(order[l])
  }

  lemma PlacesReordered(n: nat, p: int -> bool)
    ensures var order := Reorder(Indices(n), p);
      && multiset(order) == multiset(Indices(n)) && |order| == n
      && (forall k :: 0 <= k < n ==> 0 <= order[k] < n)
      && FlaggedLast(order, p)
  {
    var all, order := Indices(n), Reorder(Indices(n), p);
    GroupsPartition(all, p);
    SameLength(order, all);
    forall k | 0 <= k < n ensures 0 <= order[k] < n {
      assert order[k] in multiset(all);
    }
    GroupsPure(p, all);
    var place := (i: int) => i;
    FilterRises(place, p, all);
    FilterRises(place, Not(p), all);
  }

  lemma ReorderThrough<T>(at: int -> T, flagged: T -> bool, p: int -> bool, places: seq<int>)
    requires forall i :: 0 <= i < |places| ==> p(places[i]) == flagged(at(places[i]))
    ensures Reorder(Map(at, places), flagged) == Map(at, Reorder(places, p))
  {
    FilterMap(at, flagged, p, places);
    FilterMap(at, Not(flagged), Not(p), places);
  }

  function FlaggedAt(candidates: seq<Candidate>, flagged: Candidate -> bool): int -> bool {
    (i: int) => 0 <= i < |candidates| && flagged(candidates[i])
  }

  lemma ReorderedFrom(candidates: seq<Candidate>, flagged: Candidate -> bool, order: seq<int>)
    requires candidates != [] && order == Reorder(Indices(|candidates|), FlaggedAt(candidates, flagged))
    requires forall k :: 0 <= k < |order| ==> 0 <= order[k] < |candidates|
    ensures Reorder(candidates, flagged) == seq(|order|, k requires 0 <= k < |order| => candidates[order[k]])
  {
    var n := |candidates|;
    var at := (i: int) => candidates[if 0 <= i < n then i else 0];
    assert Map(at, Indices(n)) == candidates;
    ReorderThrough(at, flagged, FlaggedAt(candidates, flagged), Indices(n));
  }

  /** The ids that demotion returns, by where each came from: every candidate exactly once,
      unflagged before flagged, and within both groups in the order given. */
  lemma DemoteOrder(candidates: seq<Candidate>, flagged: Candidate -> bool) returns (order: seq<int>)
    ensures multiset(order) == multiset(Indices(|candidates|))
    ensures |order| == |Demote(candidates, flagged)| == |candidates|
    ensures forall k :: 0 <= k < |order| ==>
      0 <= order[k] < |candidates| && Demote(candidates, flagged)[k] == candidates[order[k]].passageId
    ensures FlaggedLast(order, FlaggedAt(candidates, flagged))
  {
    order := Reorder(Indices(|candidates|), FlaggedAt(candidates, flagged));
    PlacesReordered(|candidates|, FlaggedAt(candidates, flagged));
    if candidates != [] {
      ReorderedFrom(candidates, flagged, order);
    }
  }

  lemma {:induction false} FlaggedCount<T>(p: T -> bool, s: seq<T>)
    ensures Flagged(p, s) == Sum(Map((x: T) => if p(x) then 1 else 0, s))
  {
    if s != [] {
      var n := |s| - 1;
      FlaggedCount(p, s[..n]);
      SumMapLast((x: T) => if p(x) then 1 else 0, s);
      FilterConcat(p, s[..n], [s[n]]);
      assert s == s[..n] + [s[n]];
    }
  }

  lemma FlaggedPermutation<T>(p: T -> bool, s: seq<T>, t: seq<T>)
    requires multiset(s) == multiset(t)
    ensures Flagged(p, s) == Flagged(p, t)
  {
    var f := (x: T) => if p(x) then 1 else 0;
    FlaggedCount(p, s);
    FlaggedCount(p, t);
    MapPermutation(f, s, t);
    SumPermutation(Map(f, s), Map(f, t));
  }

  lemma PrefixFlagged<T>(p: T -> bool, s: seq<T>, n: nat)
    requires n <= |s|
    ensures Flagged(p, s[..n]) + Flagged(p, s[n..]) == Flagged(p, s)
  {
    FilterConcat(p, s[..n], s[n..]);
    assert s == s[..n] + s[n..];
  }

  /** Any first n places must hold a flagged candidate for each place beyond the unflagged ones. */
  lemma FlaggedAtLeast<T>(p: T -> bool, s: seq<T>, n: nat)
    requires n <= |s|
    ensures Flagged(p, s[..n]) >= n - Flagged(Not(p), s)
  {
    PrefixFlagged(Not(p), s, n);
    GroupsPartition(s[..n], p);
  }

  lemma DemotedPrefix<T>(candidates: seq<T>, p: T -> bool, n: nat)
    requires n <= |candidates|
    ensures |Reorder(candidates, p)| == |candidates|
    ensures Flagged(p, Reorder(candidates, p)[..n])
         == if n <= Flagged(Not(p), candidates) then 0 else n - Flagged(Not(p), candidates)
  {
    var kept, demoted := Filter(Not(p), candidates), Filter(p, candidates);
    GroupsPartition(candidates, p);
    GroupsPure(p, candidates);
    if n <= |kept| {
      assert Reorder(candidates, p)[..n] == kept[..n];
      PassNone(p, kept[..n]);
    } else {
      var part := demoted[..n - |kept|];
      assert Reorder(candidates, p)[..n] == kept + part;
      FilterConcat(p, kept, part);
      PassNone(p, kept);
      PassAll(p, part);
    }
  }

  lemma {:induction false} FlagsOf<T>(p: T -> bool, s: seq<T>)
    ensures Flagged((b: bool) => b, Map(p, s)) == Flagged(p, s)
  {
    if s != [] {
      FlagsOf(p, s[1..]);
      assert Map(p, s)[1..] == Map(p, s[1..]);
    }
  }

  lemma SharesOrdered(a: int, b: int, n: int)
    requires n > 0 && a <= b
    ensures a as real / n as real <= b as real / n as real
  {
    QuotientTimes(a as real, n as real);
    QuotientTimes(b as real, n as real);
    SignOfProduct(b as real / n as real - a as real / n as real, n as real);
  }

  /** In every top k, demotion has the smallest flagged share of all rankings of the candidates. */
  lemma DemotionIsOptimal<T>(candidates: seq<T>, flagged: T -> bool, ranking: seq<T>, k: int)
    requires multiset(ranking) == multiset(candidates)
    ensures FragmentRate(Map(flagged, Reorder(candidates, flagged)), k) <= FragmentRate(Map(flagged, ranking), k)
  {
    SameLength(ranking, candidates);
    var best := Reorder(candidates, flagged);
    var n := |Slice(ranking, k)|;
    DemotedPrefix(candidates, flagged, n);
    FlaggedAtLeast(flagged, ranking, n);
    FlaggedPermutation(Not(flagged), ranking, candidates);
    assert Slice(Map(flagged, best), k) == Map(flagged, best[..n]);
    assert Slice(Map(flagged, ranking), k) == Map(flagged, ranking[..n]);
    FlagsOf(flagged, best[..n]);
    FlagsOf(flagged, ranking[..n]);
    if n > 0 {
      SharesOrdered(Flagged(flagged, best[..n]), Flagged(flagged, ranking[..n]), n);
    }
  }

  lemma SeparatedRanking<T>(head: seq<T>, tail: seq<T>, p: T -> bool)
    requires Flagged(p, head) == 0 && Flagged(Not(p), tail) == 0
    ensures head == Filter(Not(p), head + tail) && tail == Filter(p, head + tail)
  {
    GroupsPartition(head, p);
    GroupsPartition(tail, p);
    FilterConcat(p, head, tail);
    FilterConcat(Not(p), head, tail);
    FullFilter(Not(p), head);
    FullFilter(p, tail);
  }

  /** ranking never shows more flagged candidates than demotion in its first n places. */
  ghost predicate NoMoreFlagged<T>(candidates: seq<T>, flagged: T -> bool, ranking: seq<T>) {
    forall n: nat ::
      Flagged(flagged, Slice(ranking, n)) <= Flagged(flagged, Slice(Reorder(candidates, flagged), n))
  }

  lemma UnflaggedFirst<T>(candidates: seq<T>, flagged: T -> bool, ranking: seq<T>)
    requires |ranking| == |candidates| && NoMoreFlagged(candidates, flagged, ranking)
    ensures Flagged(Not(flagged), candidates) <= |ranking|
    ensures Flagged(flagged, ranking[..Flagged(Not(flagged), candidates)]) == 0
  {
    var u := Flagged(Not(flagged), candidates);
    GroupsPartition(candidates, flagged);
    DemotedPrefix(candidates, flagged, u);
    assert Slice(ranking, u) == ranking[..u];
    assert Slice(Reorder(candidates, flagged), u) == Reorder(candidates, flagged)[..u];
  }

  lemma TailFlagged<T>(ranking: seq<T>, p: T -> bool, u: nat)
    requires u <= |ranking| && Flagged(Not(p), ranking) == u && Flagged(p, ranking[..u]) == 0
    ensures Flagged(Not(p), ranking[u..]) == 0
  {
    PrefixFlagged(Not(p), ranking, u);
    GroupsPartition(ranking[..u], p);
  }

  /** And it is the only order-keeping ranking that does as well in every top k. */
  lemma DemotionIsUnique<T>(candidates: seq<T>, flagged: T -> bool, ranking: seq<T>)
    requires |ranking| == |candidates|
    requires Filter(flagged, ranking) == Filter(flagged, candidates)
    requires Filter(Not(flagged), ranking) == Filter(Not(flagged), candidates)
    requires NoMoreFlagged(candidates, flagged, ranking)
    ensures ranking == Reorder(candidates, flagged)
  {
    var u := Flagged(Not(flagged), candidates);
    UnflaggedFirst(candidates, flagged, ranking);
    TailFlagged(ranking, flagged, u);
    var head, tail := ranking[..u], ranking[u..];
    assert ranking == head + tail;
    SeparatedRanking(head, tail, flagged);
  }

  lemma {:induction false} FullFilter<T>(p: T -> bool, s: seq<T>)
    ensures Flagged(p, s) == |s| ==> Filter(p, s) == s
  {
    if s != [] {
      FullFilter(p, s[1..]);
      FilterElements(p, s[1..]);
    }
  }

  lemma {:induction false} FlagsCounted(flags: seq<bool>)
    ensures Flagged((b: bool) => b, flags) == |set i | 0 <= i < |flags| && flags[i]|
  {
    if flags != [] {
      var n := |flags| - 1;
      var rest, last, id := flags[..n], flags[n], (b: bool) => b;
      FlagsCounted(rest);
      assert flags == rest + [last];
      FilterConcat(id, rest, [last]);
      assert Filter(id, [last]) == if last then [last] else [];
      assert (set i | 0 <= i < |flags| && flags[i]) == (set i | 0 <= i < n && rest[i]) + if last then {n} else {};
    }
  }

  /** The fragment rate at k counts the fragments among the first k, or among all if there are fewer, and
      shares them over as many; of nothing shown it is zero. */
  lemma FragmentRateCounts(isFragment: seq<bool>, k: nat)
    ensures var n := if k < |isFragment| then k else |isFragment|;
      && FragmentRate(isFragment, k) * n as real == |set i | 0 <= i < n && isFragment[i]| as real
      && (n == 0 ==> FragmentRate(isFragment, k) == 0.0)
  {
    var top := Slice(isFragment, k);
    FlagsCounted(top);
    assert (set i | 0 <= i < |top| && top[i]) == (set i | 0 <= i < |top| && isFragment[i]);
    if top != [] {
      QuotientTimes(Flagged((b: bool) => b, top) as real, |top| as real);
    }
  }
}
