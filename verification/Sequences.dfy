/** Sequences, stable sorting and insertion-ordered dictionaries: the built-in
    containers of the modelled programs, with the facts about them that the
    other modules share. */
module Sequences {

  datatype Option<+T> = None | Some(value: T)

  predicate Distinct<T(==)>(s: seq<T>) {
    forall i, j :: 0 <= i < j < |s| ==> s[i] != s[j]
  }

  function Map<S, T>(f: S -> T, s: seq<S>): seq<T> {
    seq(|s|, i requires 0 <= i < |s| => f(s[i]))
  }

  function Filter<T>(p: T -> bool, s: seq<T>): seq<T> {
    if s == [] then []
    else (if p(s[0]) then [s[0]] else []) + Filter(p, s[1..])
  }

  lemma {:induction false} FilterConcat<T>(p: T -> bool, s: seq<T>, t: seq<T>)
    ensures Filter(p, s + t) == Filter(p, s) + Filter(p, t)
  {
    if s == [] {
      assert s + t == t;
    } else {
      FilterConcat(p, s[1..], t);
      assert (s + t)[0] == s[0] && (s + t)[1..] == s[1..] + t;
      var head := if p(s[0]) then [s[0]] else [];
      assert head + (Filter(p, s[1..]) + Filter(p, t)) == (head + Filter(p, s[1..])) + Filter(p, t);
    }
  }

  lemma {:induction false} FilterElements<T>(p: T -> bool, s: seq<T>)
    ensures forall x :: x in Filter(p, s) <==> x in s && p(x)
    ensures |Filter(p, s)| <= |s|
  {
    if s != [] {
      FilterElements(p, s[1..]);
      assert s == [s[0]] + s[1..];
    }
  }

  lemma {:induction false} FilterAll<T>(p: T -> bool, s: seq<T>)
    requires forall x :: x in s ==> p(x)
    ensures Filter(p, s) == s
  {
    if s != [] {
      FilterAll(p, s[1..]);
    }
  }

  lemma {:induction false} FilterNone<T>(p: T -> bool, s: seq<T>)
    requires forall x :: x in s ==> !p(x)
    ensures Filter(p, s) == []
  {
    if s != [] {
      FilterNone(p, s[1..]);
    }
  }

  /** The positions of a list of n elements. */
  function Indices(n: nat): seq<int> {
    seq(n, i => i)
  }

  predicate Increasing(s: seq<int>) {
    forall i, j :: 0 <= i < j < |s| ==> s[i] < s[j]
  }

  lemma {:induction false} FilteredFrom<T>(p: T -> bool, s: seq<T>, i: nat) returns (j: nat)
    requires i < |Filter(p, s)|
    ensures j < |s| && s[j] == Filter(p, s)[i]
  {
    if p(s[0]) && i == 0 {
      j := 0;
    } else {
      j := FilteredFrom(p, s[1..], if p(s[0]) then i - 1 else i);
      j := j + 1;
    }
  }

  predicate RisesBy<T>(rank: T -> int, s: seq<T>) {
    forall i, j :: 0 <= i < j < |s| ==> rank(s[i]) < rank(s[j])
  }

  lemma {:induction false} FilterRises<T>(rank: T -> int, p: T -> bool, s: seq<T>)
    requires RisesBy(rank, s)
    ensures RisesBy(rank, Filter(p, s))
  {
    if s != [] {
      FilterRises(rank, p, s[1..]);
      var rest := Filter(p, s[1..]);
      forall i: nat | i < |rest| ensures rank(s[0]) < rank(rest[i]) {
        var j := FilteredFrom(p, s[1..], i);
      }
    }
  }

  /** Filtering what f makes of a list is making it of the filtered list. */
  lemma {:induction false} FilterMap<S, T>(f: S -> T, p: T -> bool, q: S -> bool, s: seq<S>)
    requires forall i :: 0 <= i < |s| ==> q(s[i]) == p(f(s[i]))
    ensures Filter(p, Map(f, s)) == Map(f, Filter(q, s))
  {
    if s != [] {
      FilterMap(f, p, q, s[1..]);
      assert Map(f, s)[1..] == Map(f, s[1..]);
      assert Map(f, s)[0] == f(s[0]);
    }
  }

  /** Where x first occurs. */
  function PositionOf<T(==)>(s: seq<T>, x: T): (k: nat)
    requires x in s
    ensures k < |s| && s[k] == x
  {
    if s[0] == x then 0 else 1 + PositionOf(s[1..], x)
  }

  function Without<T>(s: seq<T>, k: nat): seq<T>
    requires k < |s|
  {
    s[..k] + s[k + 1..]
  }

  /** Dropping one occurrence from a sequence drops it from the multiset. */
  lemma WithoutElement<T>(s: seq<T>, k: nat)
    requires k < |s|
    ensures multiset(s) == multiset(Without(s, k)) + multiset{s[k]}
  {
    assert s == s[..k] + ([s[k]] + s[k + 1..]);
  }

  lemma HeadTail<T>(s: seq<T>)
    requires s != []
    ensures multiset(s) == multiset(s[1..]) + multiset{s[0]}
  {
    assert s == [s[0]] + s[1..];
  }

  /** The head of one sequence can be found in, and dropped from, any rearrangement of it. */
  lemma DropHead<T>(s: seq<T>, t: seq<T>) returns (k: nat)
    requires s != [] && multiset(s) == multiset(t)
    ensures k < |t| && t[k] == s[0] && multiset(s[1..]) == multiset(Without(t, k))
  {
    HeadTail(s);
    assert s[0] in multiset(t);
    k :| 0 <= k < |t| && t[k] == s[0];
    WithoutElement(t, k);
    var a, b := multiset(s[1..]), multiset(Without(t, k));
    assert a == (a + multiset{s[0]}) - multiset{s[0]};
    assert b == (b + multiset{s[0]}) - multiset{s[0]};
  }

  /** Mapping respects rearrangement. */
  lemma {:induction false} MapPermutation<S, T>(f: S -> T, s: seq<S>, t: seq<S>)
    requires multiset(s) == multiset(t)
    ensures multiset(Map(f, s)) == multiset(Map(f, t))
    decreases |s|
  {
    if s == [] {
      assert |multiset(t)| == 0;
    } else {
      var k := DropHead(s, t);
      MapPermutation(f, s[1..], Without(t, k));
      WithoutElement(Map(f, t), k);
      HeadTail(Map(f, s));
      assert Without(Map(f, t), k) == Map(f, Without(t, k));
      assert Map(f, s)[1..] == Map(f, s[1..]);
    }
  }

  lemma WithoutDistinct<T>(s: seq<T>, k: nat)
    requires Distinct(s) && k < |s|
    ensures Distinct(Without(s, k))
    ensures forall x :: x in Without(s, k) <==> x in s && x != s[k]
  {
    var r := Without(s, k);
    forall i | 0 <= i < |r| ensures r[i] != s[k] && r[i] in s {
      assert r[i] == if i < k then s[i] else s[i + 1];
    }
    forall x | x in s && x != s[k] ensures x in r {
      var i :| 0 <= i < |s| && s[i] == x;
      assert i < k ==> r[i] == x;
      assert i > k ==> r[i - 1] == x;
    }
  }

  /** Two lists without repetition and with the same elements are rearrangements of each other. */
  lemma {:induction false} DistinctSameElements<T>(s: seq<T>, t: seq<T>)
    requires Distinct(s) && Distinct(t)
    requires forall x :: x in s <==> x in t
    ensures multiset(s) == multiset(t)
    decreases |s|
  {
    if s == [] {
      assert forall x :: x in multiset(t) ==> x in s;
    } else {
      assert s[0] in t;
      var k :| 0 <= k < |t| && t[k] == s[0];
      WithoutDistinct(s, 0);
      WithoutDistinct(t, k);
      DistinctSameElements(Without(s, 0), Without(t, k));
      WithoutElement(s, 0);
      WithoutElement(t, k);
    }
  }

  lemma {:induction false} DistinctMultiplicity<T>(s: seq<T>, x: T)
    requires Distinct(s)
    ensures multiset(s)[x] <= 1
  {
    if s != [] {
      DistinctMultiplicity(s[1..], x);
      HeadTail(s);
      assert s[0] !in s[1..];
    }
  }

  /** A rearrangement of a list without repetition has no repetition either. */
  lemma DistinctPermutation<T>(s: seq<T>, t: seq<T>)
    requires Distinct(s) && multiset(s) == multiset(t)
    ensures Distinct(t)
  {
    forall i, j | 0 <= i < j < |t| ensures t[i] != t[j] {
      DistinctMultiplicity(s, t[i]);
      WithoutElement(t, i);
      assert Without(t, i)[j - 1] == t[j];
      assert t[j] in multiset(Without(t, i));
    }
  }

  /** The number of elements of a list without repetition. */
  lemma {:induction false} DistinctCardinality<T>(s: seq<T>)
    requires Distinct(s)
    ensures |(set x | x in s)| == |s|
  {
    if s != [] {
      var n := |s| - 1;
      DistinctCardinality(s[..n]);
      assert s == s[..n] + [s[n]];
      assert (set x | x in s) == (set x | x in s[..n]) + {s[n]};
      assert s[n] !in s[..n];
    }
  }

  // ------------------------------------------------------------------ sorting

  predicate SortedBy<T>(key: T -> real, s: seq<T>) {
    forall i, j :: 0 <= i < j < |s| ==> key(s[i]) <= key(s[j])
  }

  function InsertBy<T>(key: T -> real, x: T, s: seq<T>): seq<T> {
    if s == [] || key(x) <= key(s[0]) then [x] + s
    else [s[0]] + InsertBy(key, x, s[1..])
  }

  /** The stable ascending sort that the library sorts of both languages promise.
      A stable descending sort is the ascending sort of the negated key. */
  function StableSort<T>(key: T -> real, s: seq<T>): seq<T> {
    if s == [] then [] else InsertBy(key, s[0], StableSort(key, s[1..]))
  }

  lemma {:induction false} InsertByElements<T>(key: T -> real, x: T, s: seq<T>)
    ensures multiset(InsertBy(key, x, s)) == multiset(s) + multiset{x}
  {
    if s == [] || key(x) <= key(s[0]) {
    } else {
      InsertByElements(key, x, s[1..]);
      assert s == [s[0]] + s[1..];
    }
  }

  lemma {:induction false} InsertBySorts<T>(key: T -> real, x: T, s: seq<T>)
    requires SortedBy(key, s)
    ensures SortedBy(key, InsertBy(key, x, s))
  {
    if s == [] || key(x) <= key(s[0]) {
    } else {
      var t := InsertBy(key, x, s[1..]);
      InsertBySorts(key, x, s[1..]);
      InsertByElements(key, x, s[1..]);
      forall i | 0 <= i < |t| ensures key(s[0]) <= key(t[i]) {
        assert t[i] in multiset(t);
        assert t[i] == x || t[i] in s[1..];
      }
    }
  }

  lemma {:induction false} StableSortSorts<T>(key: T -> real, s: seq<T>)
    ensures SortedBy(key, StableSort(key, s))
    ensures multiset(StableSort(key, s)) == multiset(s)
  {
    if s != [] {
      var t := StableSort(key, s[1..]);
      StableSortSorts(key, s[1..]);
      InsertBySorts(key, s[0], t);
      InsertByElements(key, s[0], t);
      HeadTail(s);
    }
  }

  lemma SameLength<T>(s: seq<T>, t: seq<T>)
    requires multiset(s) == multiset(t)
    ensures |s| == |t|
  {
    assert |s| == |multiset(s)| == |multiset(t)| == |t|;
  }

  function KeyIs<T>(key: T -> real, k: real): T -> bool {
    e => key(e) == k
  }

  lemma FilterHead<T>(p: T -> bool, x: T, s: seq<T>)
    ensures Filter(p, [x] + s) == (if p(x) then [x] else []) + Filter(p, s)
  {
    assert ([x] + s)[1..] == s;
  }

  lemma {:induction false} InsertByKeepsTies<T>(key: T -> real, x: T, s: seq<T>, k: real)
    requires SortedBy(key, s)
    ensures Filter(KeyIs(key, k), InsertBy(key, x, s)) == Filter(KeyIs(key, k), [x] + s)
  {
    if s != [] && key(x) > key(s[0]) {
      var p, rest := KeyIs(key, k), s[1..];
      InsertByKeepsTies(key, x, rest, k);
      FilterHead(p, s[0], InsertBy(key, x, rest));
      FilterHead(p, x, rest);
      FilterHead(p, x, s);
      assert !p(x) || !p(s[0]);
    }
  }

  /** Stability: elements with equal keys keep their relative order. */
  lemma {:induction false} StableSortKeepsTies<T>(key: T -> real, s: seq<T>, k: real)
    ensures Filter(KeyIs(key, k), StableSort(key, s)) == Filter(KeyIs(key, k), s)
  {
    if s != [] {
      var t := StableSort(key, s[1..]);
      StableSortKeepsTies(key, s[1..], k);
      StableSortSorts(key, s[1..]);
      InsertByKeepsTies(key, s[0], t, k);
      assert ([s[0]] + t)[1..] == t;
    }
  }

  /** Smaller keys first, and equal keys by rising rank. */
  predicate SortedThenRises<T>(key: T -> real, rank: T -> int, s: seq<T>) {
    forall i, j :: 0 <= i < j < |s| ==>
      key(s[i]) < key(s[j]) || (key(s[i]) == key(s[j]) && rank(s[i]) < rank(s[j]))
  }

  lemma {:induction false} InsertByRises<T>(key: T -> real, rank: T -> int, x: T, s: seq<T>)
    requires SortedThenRises(key, rank, s) && forall i :: 0 <= i < |s| ==> rank(x) < rank(s[i])
    ensures SortedThenRises(key, rank, InsertBy(key, x, s))
  {
    if s == [] || key(x) <= key(s[0]) {
    } else {
      var t := InsertBy(key, x, s[1..]);
      InsertByRises(key, rank, x, s[1..]);
      InsertByElements(key, x, s[1..]);
      forall i | 0 <= i < |t|
        ensures key(s[0]) < key(t[i]) || (key(s[0]) == key(t[i]) && rank(s[0]) < rank(t[i]))
      {
        assert t[i] in multiset(t);
        assert t[i] == x || t[i] in s[1..];
      }
    }
  }

  /** Sorting a list of rising rank keeps ranks rising among equal keys. */
  lemma {:induction false} StableSortRises<T>(key: T -> real, rank: T -> int, s: seq<T>)
    requires RisesBy(rank, s)
    ensures SortedThenRises(key, rank, StableSort(key, s))
  {
    if s != [] {
      var t := StableSort(key, s[1..]);
      StableSortRises(key, rank, s[1..]);
      StableSortSorts(key, s[1..]);
      forall i | 0 <= i < |t| ensures rank(s[0]) < rank(t[i]) {
        assert t[i] in multiset(s[1..]);
      }
      InsertByRises(key, rank, s[0], t);
    }
  }

  predicate Ascending(s: seq<real>) {
    forall i, j :: 0 <= i < j < |s| ==> s[i] <= s[j]
  }

  lemma AscendingHeadIsLeast(s: seq<real>, x: real)
    requires Ascending(s) && x in multiset(s)
    ensures |s| > 0 && s[0] <= x
  {
    var i :| 0 <= i < |s| && s[i] == x;
  }

  lemma TailsPermute<T>(s: seq<T>, t: seq<T>)
    requires s != [] && t != [] && s[0] == t[0] && multiset(s) == multiset(t)
    ensures multiset(s[1..]) == multiset(t[1..])
  {
    HeadTail(s);
    HeadTail(t);
    var a, b := multiset(s[1..]), multiset(t[1..]);
    assert a == (a + multiset{s[0]}) - multiset{s[0]};
    assert b == (b + multiset{s[0]}) - multiset{s[0]};
  }

  lemma HeadsAgree(s: seq<real>, t: seq<real>)
    requires Ascending(s) && Ascending(t) && s != []
    requires multiset(s) == multiset(t)
    ensures t != [] && s[0] == t[0]
  {
    assert s[0] in multiset(s);
    AscendingHeadIsLeast(t, s[0]);
    assert t[0] in multiset(t);
    AscendingHeadIsLeast(s, t[0]);
  }

  /** A sorted arrangement of numbers is unique. */
  lemma {:induction false} SortedUnique(s: seq<real>, t: seq<real>)
    requires Ascending(s) && Ascending(t)
    requires multiset(s) == multiset(t)
    ensures s == t
    decreases |s|
  {
    if s == [] {
      assert |multiset(t)| == 0;
    } else {
      HeadsAgree(s, t);
      TailsPermute(s, t);
      SortedUnique(s[1..], t[1..]);
      assert s == [s[0]] + s[1..] && t == [t[0]] + t[1..];
    }
  }

  // ---------------------------------------------------------------- selections

  function Select(s: seq<int>, places: seq<int>): seq<int>
    requires forall k :: 0 <= k < |places| ==> 0 <= places[k] < |s|
  {
    seq(|places|, k requires 0 <= k < |places| => s[places[k]])
  }

  lemma PlacesWithout(places: seq<int>, k: nat, n: nat)
    requires Distinct(places) && k < |places| && places[k] == n
    requires forall l :: 0 <= l < |places| ==> 0 <= places[l] <= n
    ensures Distinct(Without(places, k))
    ensures forall l :: 0 <= l < |Without(places, k)| ==> 0 <= Without(places, k)[l] < n
  {
    WithoutDistinct(places, k);
    var rest := Without(places, k);
    forall l | 0 <= l < |rest| ensures 0 <= rest[l] < n {
      assert rest[l] == if l < k then places[l] else places[l + 1];
    }
  }

  lemma SelectWithout(s: seq<int>, places: seq<int>, k: nat, n: nat)
    requires |s| == n + 1 && k < |places| && places[k] == n
    requires forall l :: 0 <= l < |places| ==> 0 <= places[l] <= n
    requires forall l :: 0 <= l < |Without(places, k)| ==> 0 <= Without(places, k)[l] < n
    ensures multiset(Select(s, places)) == multiset(Select(s[..n], Without(places, k))) + multiset{s[n]}
  {
    WithoutElement(Select(s, places), k);
    assert Without(Select(s, places), k) == Select(s[..n], Without(places, k));
  }

  /** Elements picked at distinct places form a sub-multiset. */
  lemma {:induction false} SelectionWithin(s: seq<int>, places: seq<int>)
    requires Distinct(places) && forall k :: 0 <= k < |places| ==> 0 <= places[k] < |s|
    ensures multiset(Select(s, places)) <= multiset(s)
    decreases |s|
  {
    if places != [] {
      assert 0 <= places[0] < |s|;
      var n := |s| - 1;
      assert s == s[..n] + [s[n]];
      if n in places {
        var k := PositionOf(places, n);
        PlacesWithout(places, k, n);
        SelectionWithin(s[..n], Without(places, k));
        SelectWithout(s, places, k, n);
      } else {
        assert forall l :: 0 <= l < |places| ==> places[l] in places;
        SelectionWithin(s[..n], places);
        assert Select(s, places) == Select(s[..n], places);
      }
    }
  }

  // ------------------------------------------------------------- dictionaries

  /** A dictionary that remembers in which order its keys were first set. */
  datatype Dict<K(==), V> = Dict(keys: seq<K>, at: map<K, V>) {

    ghost predicate Valid() {
      Distinct(keys) && (set k | k in keys) == at.Keys
    }

    function GetOr(k: K, default: V): V {
      if k in at then at[k] else default
    }

    function Put(k: K, v: V): (d: Dict<K, V>)
      ensures Valid() ==> d.Valid()
    {
      assert Valid() && k !in at ==> k !in keys by {
        if Valid() && k in keys { assert k in (set j | j in keys); }
      }
      Dict(if k in at then keys else keys + [k], at[k := v])
    }
  }

  function EmptyDict<K(==), V>(): (d: Dict<K, V>)
    ensures d.Valid()
  {
    Dict([], map[])
  }

  lemma KeyIndex<K, V>(d: Dict<K, V>, k: K)
    requires d.Valid()
    ensures k in d.keys <==> k in d.at
  {
    assert k in (set j | j in d.keys) <==> k in d.at.Keys;
  }
}
