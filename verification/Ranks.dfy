/** Tie-averaged ranks: the in-place block-filling loop, and what the ranks mean. */
module Ranks {
  import opened Sequences
  import opened Sums

  /** The positions whose value is smaller than x. */
  function Below(values: seq<real>, x: real): set<int> {
    set j | 0 <= j < |values| && values[j] < x
  }

  /** The positions whose value is exactly x. */
  function Level(values: seq<real>, x: real): set<int> {
    set j | 0 <= j < |values| && values[j] == x
  }

  /** How many values are smaller, plus the middle place among the equal ones. */
  function MidRank(values: seq<real>, i: nat): real
    requires i < |values|
  {
    |Below(values, values[i])| as real + (|Level(values, values[i])| + 1) as real / 2.0
  }

  function RankSeq(values: seq<real>): seq<real> {
    seq(|values|, i requires 0 <= i < |values| => MidRank(values, i))
  }

  // ------------------------------------------------------------ sorted positions

  function ValueAt(values: seq<real>): int -> real {
    (i: int) => if 0 <= i < |values| then values[i] else 0.0
  }

  function SortedPositions(values: seq<real>): seq<int> {
    StableSort(ValueAt(values), Indices(|values|))
  }

  /** order lists every position once, smallest value first. */
  ghost predicate IsOrder(values: seq<real>, order: seq<int>) {
    && |order| == |values|
    && Distinct(order)
    && (forall k :: 0 <= k < |order| ==> 0 <= order[k] < |values|)
    && (forall i :: 0 <= i < |values| ==> i in order)
    && (forall k, l :: 0 <= k < l < |order| ==> values[order[k]] <= values[order[l]])
  }

  lemma SortedPositionsOrder(values: seq<real>)
    ensures IsOrder(values, SortedPositions(values))
  {
    var all, order := Indices(|values|), SortedPositions(values);
    StableSortSorts(ValueAt(values), all);
    SameLength(order, all);
    DistinctPermutation(all, order);
    forall i ensures i in order <==> 0 <= i < |values| {
      assert i in order <==> i in multiset(order);
      assert 0 <= i < |values| ==> all[i] == i;
    }
    forall k | 0 <= k < |order| ensures 0 <= order[k] < |values| {
      assert order[k] in order;
    }
    var key := ValueAt(values);
    forall k, l | 0 <= k < l < |order| ensures values[order[k]] <= values[order[l]] {
      assert key(order[k]) <= key(order[l]);
    }
  }

  /** i..j is a maximal block of equal values in sorted order. */
  ghost predicate IsBlock(values: seq<real>, order: seq<int>, i: nat, j: nat)
    requires IsOrder(values, order)
  {
    && i <= j < |order|
    && values[order[i]] == values[order[j]]
    && (i > 0 ==> values[order[i - 1]] < values[order[i]])
    && (j + 1 < |order| ==> values[order[j]] < values[order[j + 1]])
  }

  lemma BlockMember(values: seq<real>, order: seq<int>, i: nat, j: nat, k: nat)
    requires IsOrder(values, order) && IsBlock(values, order, i, j) && k < |order|
    ensures values[order[k]] < values[order[i]] <==> k < i
    ensures values[order[k]] == values[order[i]] <==> i <= k <= j
  {
    assert k < i ==> values[order[k]] <= values[order[i - 1]];
    assert j < k ==> values[order[j + 1]] <= values[order[k]];
    assert i < k ==> values[order[i]] <= values[order[k]];
    assert k < j ==> values[order[k]] <= values[order[j]];
  }

  /** A run of sorted positions holds as many positions as it is long. */
  lemma SliceCardinality(values: seq<real>, order: seq<int>, i: nat, j: nat)
    requires IsOrder(values, order) && i <= j <= |order|
    ensures |set p | p in order[i..j]| == j - i
  {
    var part := order[i..j];
    forall k, l | 0 <= k < l < |part| ensures part[k] != part[l] {
      assert part[k] == order[i + k] && part[l] == order[i + l];
    }
    DistinctCardinality(part);
  }

  /** Exactly i values are smaller than the block's value, and exactly the block is equal to it. */
  lemma BlockCounts(values: seq<real>, order: seq<int>, i: nat, j: nat)
    requires IsOrder(values, order) && IsBlock(values, order, i, j)
    ensures |Below(values, values[order[i]])| == i
    ensures |Level(values, values[order[i]])| == j + 1 - i
  {
    var x := values[order[i]];
    var front, block := order[0..i], order[i..j + 1];
    forall p: int ensures (p in Below(values, x) <==> p in front) && (p in Level(values, x) <==> p in block) {
      BlockPlace(values, order, i, j, p);
    }
    assert Below(values, x) == set p | p in front;
    assert Level(values, x) == set p | p in block;
    SliceCardinality(values, order, 0, i);
    SliceCardinality(values, order, i, j + 1);
  }

  lemma BlockPlace(values: seq<real>, order: seq<int>, i: nat, j: nat, p: int)
    requires IsOrder(values, order) && IsBlock(values, order, i, j)
    ensures p in Below(values, values[order[i]]) <==> p in order[0..i]
    ensures p in Level(values, values[order[i]]) <==> p in order[i..j + 1]
  {
    if 0 <= p < |values| {
      assert p in order;
      var k :| 0 <= k < |order| && order[k] == p;
      BlockMember(values, order, i, j, k);
      assert k < i ==> order[0..i][k] == p;
      assert i <= k <= j ==> order[i..j + 1][k - i] == p;
    }
  }

  /** The block's average place is the middle rank of each of its members. */
  lemma BlockRanks(values: seq<real>, order: seq<int>, i: nat, j: nat)
    requires IsOrder(values, order) && IsBlock(values, order, i, j)
    ensures forall k :: i <= k <= j ==> MidRank(values, order[k]) == (i + j) as real / 2.0 + 1.0
  {
    BlockCounts(values, order, i, j);
    forall k | i <= k <= j ensures MidRank(values, order[k]) == (i + j) as real / 2.0 + 1.0 {
      assert values[order[k]] == values[order[i]];
    }
  }

  lemma AllRanked(values: seq<real>, order: seq<int>, ranks: seq<real>)
    requires IsOrder(values, order) && |ranks| == |values|
    requires forall k :: 0 <= k < |order| ==> ranks[order[k]] == MidRank(values, order[k])
    ensures ranks == RankSeq(values)
  {
    forall p | 0 <= p < |values| ensures ranks[p] == MidRank(values, p) {
      assert p in order;
      var k :| 0 <= k < |order| && order[k] == p;
    }
  }

  /** Walk the sorted positions block by block, giving every member of a block of
      equal values the block's average place. */
  method Rank(values: seq<real>) returns (ranks: seq<real>)
    ensures ranks == RankSeq(values)
  {
    var order := SortedPositions(values);
    SortedPositionsOrder(values);
    var n := |order|;
    var r := new real[n](_ => 0.0);
    var i := 0;
    while i < n
      invariant 0 <= i <= n
      invariant 0 < i < n ==> values[order[i - 1]] < values[order[i]]
      invariant forall k :: 0 <= k < i ==> r[order[k]] == MidRank(values, order[k])
    {
      var j := i;
      while j + 1 < n && values[order[j + 1]] == values[order[i]]
        invariant i <= j < n
        invariant forall k :: i <= k <= j ==> values[order[k]] == values[order[i]]
      {
        j := j + 1;
      }
      BlockRanks(values, order, i, j);
      for k := i to j + 1
        invariant forall m :: 0 <= m < k ==> r[order[m]] == MidRank(values, order[m])
      {
        r[order[k]] := (i + j) as real / 2.0 + 1.0;
      }
      i := j + 1;
    }
    ranks := r[..];
    AllRanked(values, order, ranks);
  }

  // ------------------------------------------------------------ what ranks mean

  /** Ranks order positions exactly as their values do; equal values share a rank. */
  lemma RanksPreserveOrder(values: seq<real>, i: nat, j: nat)
    requires i < |values| && j < |values|
    ensures MidRank(values, i) < MidRank(values, j) <==> values[i] < values[j]
    ensures MidRank(values, i) == MidRank(values, j) <==> values[i] == values[j]
  {
    if values[i] < values[j] {
      StrictlyBelow(values, i, j);
    } else if values[j] < values[i] {
      StrictlyBelow(values, j, i);
    }
  }

  lemma StrictlyBelow(values: seq<real>, i: nat, j: nat)
    requires i < |values| && j < |values| && values[i] < values[j]
    ensures MidRank(values, i) < MidRank(values, j)
  {
    var b, l := Below(values, values[i]), Level(values, values[i]);
    assert i in l;
    SubsetSize(b + l, Below(values, values[j]));
    assert |b + l| == |b| + |l|;
  }

  lemma SubsetSize<T>(a: set<T>, b: set<T>)
    requires a <= b
    ensures |a| <= |b|
  {
    assert b == a + (b - a);
  }

  /** Twice the places x gains from meeting y: two for beating it, one for a tie. */
  function Score(x: real, y: real): int {
    if y < x then 2 else if y == x then 1 else 0
  }

  function Scores(x: real, values: seq<real>): seq<int> {
    seq(|values|, j requires 0 <= j < |values| => Score(x, values[j]))
  }

  function Conceded(values: seq<real>, x: real): seq<int> {
    seq(|values|, j requires 0 <= j < |values| => Score(values[j], x))
  }

  function Totals(values: seq<real>, all: seq<real>): seq<int> {
    seq(|values|, i requires 0 <= i < |values| => Sum(Scores(values[i], all)))
  }

  lemma {:induction false} ScoresCount(x: real, values: seq<real>)
    ensures Sum(Scores(x, values)) == 2 * |Below(values, x)| + |Level(values, x)|
  {
    if values != [] {
      var n := |values| - 1;
      var rest := values[..n];
      ScoresCount(x, rest);
      assert Scores(x, values)[..n] == Scores(x, rest);
      assert Below(values, x) == Below(rest, x) + if values[n] < x then {n} else {};
      assert Level(values, x) == Level(rest, x) + if values[n] == x then {n} else {};
    }
  }

  lemma {:induction false} MeetingsBalance(x: real, values: seq<real>)
    ensures Sum(Scores(x, values)) + Sum(Conceded(values, x)) == 2 * |values|
  {
    if values != [] {
      var n := |values| - 1;
      MeetingsBalance(x, values[..n]);
      assert Scores(x, values)[..n] == Scores(x, values[..n]);
      assert Conceded(values, x)[..n] == Conceded(values[..n], x);
    }
  }

  lemma {:induction false} TotalsExtend(values: seq<real>, all: seq<real>, x: real)
    ensures Sum(Totals(values, all + [x])) == Sum(Totals(values, all)) + Sum(Conceded(values, x))
  {
    if values != [] {
      var n := |values| - 1;
      TotalsExtend(values[..n], all, x);
      assert Totals(values, all + [x])[..n] == Totals(values[..n], all + [x]);
      assert Totals(values, all)[..n] == Totals(values[..n], all);
      assert Conceded(values, x)[..n] == Conceded(values[..n], x);
      assert Scores(values[n], all + [x]) == Scores(values[n], all) + [Score(values[n], x)];
      SumAppend(Scores(values[n], all), Score(values[n], x));
    }
  }

  lemma LastMeetings(rest: seq<real>, x: real)
    ensures var values := rest + [x];
      Sum(Totals(values, values)) == Sum(Totals(rest, values)) + Sum(Scores(x, rest)) + 1
  {
    var values := rest + [x];
    assert Totals(values, values) == Totals(rest, values) + [Sum(Scores(x, values))];
    SumAppend(Totals(rest, values), Sum(Scores(x, values)));
    assert Scores(x, values) == Scores(x, rest) + [1];
    SumAppend(Scores(x, rest), 1);
  }

  lemma NextSquare(n: int)
    ensures (n + 1) * (n + 1) == n * n + 2 * n + 1
  {}

  /** Every two positions share two points, and each position ties with itself. */
  lemma {:induction false} AllMeetings(values: seq<real>)
    ensures Sum(Totals(values, values)) == |values| * |values|
  {
    if values != [] {
      var n := |values| - 1;
      var rest, x := values[..n], values[n];
      AllMeetings(rest);
      TotalsExtend(rest, rest, x);
      MeetingsBalance(x, rest);
      assert values == rest + [x];
      LastMeetings(rest, x);
      NextSquare(n);
    }
  }

  lemma RankFromScores(values: seq<real>, i: nat)
    requires i < |values|
    ensures MidRank(values, i) == (Sum(Scores(values[i], values)) + 1) as real / 2.0
  {
    ScoresCount(values[i], values);
  }

  lemma {:induction false} RankTotals(values: seq<real>, k: nat)
    requires k <= |values|
    ensures RealSum(RankSeq(values)[..k]) == (Sum(Totals(values[..k], values)) + k) as real / 2.0
  {
    if k > 0 {
      RankTotals(values, k - 1);
      RankFromScores(values, k - 1);
      assert RankSeq(values)[..k][..k - 1] == RankSeq(values)[..k - 1];
      assert Totals(values[..k], values)[..k - 1] == Totals(values[..k - 1], values);
    }
  }

  /** The ranks always sum to n(n+1)/2, whatever the ties. */
  lemma RankSum(values: seq<real>)
    ensures RealSum(RankSeq(values)) == (|values| * (|values| + 1)) as real / 2.0
  {
    var n := |values|;
    RankTotals(values, n);
    assert RankSeq(values)[..n] == RankSeq(values) && values[..n] == values;
    AllMeetings(values);
    assert n * n + n == n * (n + 1);
  }
}
