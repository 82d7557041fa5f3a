/** Evidence statistics over the changes of the alignment units: the two
    implementations, their agreement, and the bounds they obey. */
module Evidence {
  import opened Sequences
  import opened Sums
  import opened Hits
  import opened Units

  function Abs(x: int): int {
    if x < 0 then -x else x
  }

  function Square(x: int): int {
    x * x
  }

  function NonZero(d: seq<int>): seq<int> {
    Filter((x: int) => x != 0, d)
  }

  function Magnitudes(d: seq<int>): seq<int> {
    Map(Abs, d)
  }

  function Gross(d: seq<int>): int {
    Sum(Magnitudes(d))
  }

  function SumOfSquares(d: seq<int>): int {
    Sum(Map(Square, d))
  }

  // -------------------------------------------------------------- first version

  datatype Summary = Summary(
    net: int,
    gross: int,
    signflipZ: real,
    netGross: real,
    unitsChanged: nat,
    top1Share: real,
    top3Share: real
  )

  lemma SquareIsPositive(x: int)
    ensures Square(x) >= 0 && (x != 0 ==> Square(x) > 0)
  {}

  lemma {:induction false} SumsAreOrdered(d: seq<int>)
    ensures SumOfSquares(d) >= 0 && Gross(d) >= Abs(Sum(d))
    ensures SumOfSquares(d) == 0 <==> forall i :: 0 <= i < |d| ==> d[i] == 0
    ensures Gross(d) == 0 <==> forall i :: 0 <= i < |d| ==> d[i] == 0
  {
    if d != [] {
      var n := |d| - 1;
      SumsAreOrdered(d[..n]);
      SumMapLast(Square, d);
      SumMapLast(Abs, d);
      SquareIsPositive(d[n]);
      assert forall i :: 0 <= i < n ==> d[..n][i] == d[i];
    }
  }

  /** A quotient guarded against a zero total. */
  function Share(part: int, whole: int): real {
    if whole != 0 then part as real / whole as real else 0.0
  }

  /** A quotient by the root of a sum of squares, guarded on the sum. */
  function OverRoot(part: int, square: int, sqrt: real -> real): real
    requires IsSqrt(sqrt) && square >= 0
  {
    SqrtOf(sqrt, square as real);
    if square != 0 then part as real / sqrt(square as real) else 0.0
  }

  function First(top: seq<int>, k: nat): seq<int> {
    if k <= |top| then top[..k] else top
  }

  /** The statistics of the changed units, from their sorted magnitudes. */
  function Summarise(d: seq<int>, sqrt: real -> real): Summary
    requires IsSqrt(sqrt)
  {
    SumsAreOrdered(d);
    var gross, net, top := Gross(d), Sum(d), Descending(Magnitudes(d));
    Summary(net, gross, OverRoot(net, SumOfSquares(d), sqrt), Share(Abs(net), gross), |d|,
            Share(Sum(First(top, 1)), gross), Share(Sum(First(top, 3)), gross))
  }

  /** The change of all units whose last row has this status. */
  function StatusChange(rows: seq<Row>, cat: string, ids: seq<string>, status: string): int {
    if ids == [] then 0
    else
      var a := ids[|ids| - 1];
      StatusChange(rows, cat, ids[..|ids| - 1], status)
      + if LastStatus(rows, a) == status then Change(rows, cat, a) else 0
  }

  function Values(keys: seq<string>, at: map<string, int>): seq<int> {
    seq(|keys|, i requires 0 <= i < |keys| => Get(at, keys[i]))
  }

  lemma {:induction false} ValuesUpdated(keys: seq<string>, at: map<string, int>, k: string, v: int)
    requires Distinct(keys)
    ensures Sum(Values(keys, at[k := v])) == Sum(Values(keys, at)) + if k in keys then v - Get(at, k) else 0
  {
    if keys != [] {
      var n := |keys| - 1;
      ValuesUpdated(keys[..n], at, k, v);
      assert Values(keys, at)[..n] == Values(keys[..n], at);
      assert Values(keys, at[k := v])[..n] == Values(keys[..n], at[k := v]);
      assert keys == keys[..n] + [keys[n]];
    }
  }

  /** counter[k] += n. */
  function Count(counter: Dict<string, int>, k: string, n: int): (r: Dict<string, int>)
    ensures counter.Valid() ==> r.Valid()
    ensures forall j :: r.GetOr(j, 0) == counter.GetOr(j, 0) + if j == k then n else 0
  {
    counter.Put(k, counter.GetOr(k, 0) + n)
  }

  function Total(counter: Dict<string, int>): int {
    Sum(Values(counter.keys, counter.at))
  }

  /** Counting something under a key adds it to the grand total. */
  lemma TotalAfterCount(d: Dict<string, int>, k: string, n: int)
    requires d.Valid()
    ensures Total(Count(d, k, n)) == Total(d) + n
  {
    var v := d.GetOr(k, 0) + n;
    KeyIndex(d, k);
    if k in d.at {
      ValuesUpdated(d.keys, d.at, k, v);
    } else {
      assert Values(d.keys + [k], d.at[k := v]) == Values(d.keys, d.at[k := v]) + [v];
      ValuesUpdated(d.keys, d.at, k, v);
      SumAppend(Values(d.keys, d.at[k := v]), v);
    }
  }

  /** The per-status counter after these units: one entry per status, adding up to their changes. */
  ghost predicate StatusesCounted(counter: Dict<string, int>, rows: seq<Row>, cat: string, ids: seq<string>) {
    && counter.Valid()
    && (forall k :: counter.GetOr(k, 0) == StatusChange(rows, cat, ids, k))
    && Total(counter) == Sum(Changes(rows, cat, ids))
  }

  lemma StatusStep(counter: Dict<string, int>, rows: seq<Row>, cat: string, ids: seq<string>, i: nat)
    requires i < |ids| && StatusesCounted(counter, rows, cat, ids[..i])
    ensures StatusesCounted(Count(counter, LastStatus(rows, ids[i]), Change(rows, cat, ids[i])),
                            rows, cat, ids[..i + 1])
  {
    var k, d := LastStatus(rows, ids[i]), Change(rows, cat, ids[i]);
    TotalAfterCount(counter, k, d);
    ChangesAppend(rows, cat, ids, i);
    SumAppend(Changes(rows, cat, ids[..i]), d);
    var after := Count(counter, k, d);
    forall j ensures after.GetOr(j, 0) == StatusChange(rows, cat, ids[..i + 1], j) {
      StatusChangeStep(rows, cat, ids, i, j);
      assert counter.GetOr(j, 0) == StatusChange(rows, cat, ids[..i], j);
    }
  }

  lemma StatusChangeStep(rows: seq<Row>, cat: string, ids: seq<string>, i: nat, j: string)
    requires i < |ids|
    ensures StatusChange(rows, cat, ids[..i + 1], j)
         == StatusChange(rows, cat, ids[..i], j)
            + if LastStatus(rows, ids[i]) == j then Change(rows, cat, ids[i]) else 0
  {
    assert ids[..i + 1][..i] == ids[..i];
  }

  lemma ChangesAppend(rows: seq<Row>, cat: string, ids: seq<string>, i: nat)
    requires i < |ids|
    ensures Changes(rows, cat, ids[..i + 1]) == Changes(rows, cat, ids[..i]) + [Change(rows, cat, ids[i])]
  {}

  lemma NonZeroStep(d: seq<int>, x: int)
    ensures NonZero(d + [x]) == NonZero(d) + if x != 0 then [x] else []
  {
    FilterConcat((y: int) => y != 0, d, [x]);
  }

  method GroupRows(rows: seq<Row>, cat: string) returns (units: Tallies, status: map<string, string>)
    ensures Grouped(units, rows, cat) && StatusesNoted(status, rows)
  {
    units, status := EmptyDict(), map[];
    for i := 0 to |rows|
      invariant Grouped(units, rows[..i], cat)
      invariant StatusesNoted(status, rows[..i])
    {
      CreditStep(units, rows, cat, i);
      Units.StatusStep(status, rows, i);
      units := Credit(units, rows[i], cat);
      status := status[rows[i].alignmentId := rows[i].status];
    }
    assert rows[..|rows|] == rows;
  }

  /** The changed units so far, and every unit's change under its status. */
  ghost predicate Decomposed(
    deltas: seq<int>, byStatus: Dict<string, int>, rows: seq<Row>, cat: string, ids: seq<string>
  ) {
    deltas == NonZero(Changes(rows, cat, ids)) && StatusesCounted(byStatus, rows, cat, ids)
  }

  function Record(deltas: seq<int>, d: int): seq<int> {
    if d != 0 then deltas + [d] else deltas
  }

  lemma DecomposeStep(
    deltas: seq<int>, byStatus: Dict<string, int>, rows: seq<Row>, cat: string, ids: seq<string>, i: nat
  )
    requires i < |ids| && Decomposed(deltas, byStatus, rows, cat, ids[..i])
    ensures var k, d := LastStatus(rows, ids[i]), Change(rows, cat, ids[i]);
            Decomposed(Record(deltas, d), Count(byStatus, k, d), rows, cat, ids[..i + 1])
  {
    StatusStep(byStatus, rows, cat, ids, i);
    ChangesAppend(rows, cat, ids, i);
    NonZeroStep(Changes(rows, cat, ids[..i]), Change(rows, cat, ids[i]));
  }

  lemma UnitFacts(units: Tallies, status: map<string, string>, rows: seq<Row>, cat: string, i: nat)
    requires Grouped(units, rows, cat) && StatusesNoted(status, rows) && i < |units.keys|
    ensures var a := units.keys[i];
            && a in units.at && a in status
            && units.at[a].1 - units.at[a].0 == Change(rows, cat, a)
            && status[a] == LastStatus(rows, a)
  {
    GroupedChange(units, rows, cat, i);
  }

  method ChangedUnits(rows: seq<Row>, cat: string) returns (deltas: seq<int>, byStatus: Dict<string, int>)
    ensures Decomposed(deltas, byStatus, rows, cat, UnitIds(rows))
  {
    var units, status := GroupRows(rows, cat);
    deltas, byStatus := [], EmptyDict();
    ghost var ids := units.keys;
    var i := 0;
    assert Decomposed(deltas, byStatus, rows, cat, ids[..0]);
    while i < |units.keys|
      invariant 0 <= i <= |ids| && Decomposed(deltas, byStatus, rows, cat, ids[..i])
    {
      var a := units.keys[i];
      UnitFacts(units, status, rows, cat, i);
      DecomposeStep(deltas, byStatus, rows, cat, ids, i);
      var k, d := status[a], units.at[a].1 - units.at[a].0;
      deltas, byStatus := Record(deltas, d), Count(byStatus, k, d);
      i := i + 1;
    }
    assert ids[..i] == UnitIds(rows);
  }

  /** Decompose the later-minus-earlier change of a category into its alignment units. */
  method ChangeEvidence(rows: seq<Row>, cat: string, sqrt: real -> real)
      returns (summary: Summary, byStatus: Dict<string, int>)
    requires IsSqrt(sqrt)
    ensures summary == Summarise(NonZero(UnitChanges(rows, cat)), sqrt)
    ensures StatusesCounted(byStatus, rows, cat, UnitIds(rows))
  {
    var deltas;
    deltas, byStatus := ChangedUnits(rows, cat);
    summary := Summarise(deltas, sqrt);
  }

  // ------------------------------------------------------------- second version

  function Largest(m: seq<int>): int {
    if m == [] then 0
    else
      var rest := Largest(m[..|m| - 1]);
      if rest < m[|m| - 1] then m[|m| - 1] else rest
  }

  function Sign(x: int): int {
    if x > 0 then 1 else if x < 0 then -1 else 0
  }

  /** The changes that point in direction s. */
  function Pointing(d: seq<int>, s: int): seq<int> {
    Filter((x: int) => x * s > 0, d)
  }

  datatype Evidence = Evidence(
    net: int,
    gross: int,
    units: nat,
    eL2: real,
    eNg: real,
    top1: real,
    nEff: real,
    sameUnits: nat,
    oppUnits: nat,
    sameHits: int,
    oppHits: int
  )

  /** A quotient by the root of a sum of squares, guarded on the root. */
  function OverNonZeroRoot(part: int, square: int, sqrt: real -> real): real {
    var l2 := sqrt(square as real);
    if l2 != 0.0 then part as real / l2 else 0.0
  }

  function Assess(deltas: seq<int>, sqrt: real -> real): Evidence {
    var d := NonZero(deltas);
    var net, gross, ss := Sum(d), Gross(d), SumOfSquares(d);
    var breadth, s := OverNonZeroRoot(gross, ss, sqrt), Sign(net);
    Evidence(
      net, gross, |d|, OverNonZeroRoot(net, ss, sqrt), Share(net, gross), Share(Largest(Magnitudes(d)), gross),
      breadth * breadth,
      |Pointing(d, s)|, |Pointing(d, -s)|, Gross(Pointing(d, s)), Gross(Pointing(d, -s)))
  }

  // ------------------------------------------------------------------- agreement

  lemma {:induction false} LargestBounds(m: seq<int>)
    requires forall i :: 0 <= i < |m| ==> m[i] >= 0
    ensures forall i :: 0 <= i < |m| ==> m[i] <= Largest(m)
    ensures Largest(m) == 0 || Largest(m) in m
    ensures 0 <= Largest(m)
  {
    if m != [] {
      var n := |m| - 1;
      LargestBounds(m[..n]);
      assert forall i :: 0 <= i < n ==> m[..n][i] == m[i];
      assert m == m[..n] + [m[n]];
    }
  }

  lemma LargestIsFirst(m: seq<int>, top: seq<int>)
    requires forall i :: 0 <= i < |m| ==> m[i] >= 0
    requires forall i, j :: 0 <= i < j < |top| ==> top[i] >= top[j]
    requires multiset(top) == multiset(m)
    ensures Sum(First(top, 1)) == Largest(m)
  {
    LargestBounds(m);
    SameLength(top, m);
    if m != [] {
      assert First(top, 1) == [] + [top[0]];
      SumAppend([], top[0]);
      assert top[0] in multiset(m);
      if Largest(m) in m {
        assert Largest(m) in multiset(top);
        var k :| 0 <= k < |top| && top[k] == Largest(m);
        assert k > 0 ==> top[0] >= top[k];
      }
    }
  }

  function Magnitude(x: real): real {
    if x < 0.0 then -x else x
  }

  lemma ShareOfAbs(net: int, gross: int)
    requires gross >= 0
    ensures Share(Abs(net), gross) == Magnitude(Share(net, gross))
  {
    if gross != 0 {
      var q := net as real / gross as real;
      QuotientTimes(net as real, gross as real);
      QuotientBounds(net as real, gross as real);
      if net < 0 {
        QuotientOf(-q, gross as real, (-net) as real);
      }
    }
  }

  lemma TopSharesAgree(d: seq<int>)
    ensures Share(Sum(First(Descending(Magnitudes(d)), 1)), Gross(d)) == Share(Largest(Magnitudes(d)), Gross(d))
  {
    DescendingFacts(Magnitudes(d));
    assert forall i :: 0 <= i < |d| ==> Magnitudes(d)[i] == Abs(d[i]);
    LargestIsFirst(Magnitudes(d), Descending(Magnitudes(d)));
  }

  lemma RootsAgree(d: seq<int>, sqrt: real -> real)
    requires IsSqrt(sqrt)
    ensures SumOfSquares(d) >= 0
    ensures OverNonZeroRoot(Sum(d), SumOfSquares(d), sqrt) == OverRoot(Sum(d), SumOfSquares(d), sqrt)
  {
    SumsAreOrdered(d);
    SqrtOf(sqrt, SumOfSquares(d) as real);
  }

  /** The second version refines the first on every list of unit changes: the same net,
      gross, unit count, net-to-root ratio and top share, and its signed consistency is
      the first version's up to sign. */
  lemma VersionsAgree(deltas: seq<int>, sqrt: real -> real)
    requires IsSqrt(sqrt)
    ensures var e, s := Assess(deltas, sqrt), Summarise(NonZero(deltas), sqrt);
      && e.net == s.net == Sum(deltas)
      && e.gross == s.gross
      && e.units == s.unitsChanged
      && e.eL2 == s.signflipZ
      && e.top1 == s.top1Share
      && s.netGross == Magnitude(e.eNg)
  {
    var d := NonZero(deltas);
    NonZeroSum(deltas);
    RootsAgree(d, sqrt);
    TopSharesAgree(d);
    SumsAreOrdered(d);
    ShareOfAbs(Sum(d), Gross(d));
  }

  lemma {:induction false} NonZeroSum(d: seq<int>)
    ensures Sum(NonZero(d)) == Sum(d)
  {
    if d != [] {
      var n := |d| - 1;
      NonZeroSum(d[..n]);
      assert d == d[..n] + [d[n]];
      NonZeroStep(d[..n], d[n]);
      SumAppend(NonZero(d[..n]), d[n]);
      assert NonZero(d[..n]) + [] == NonZero(d[..n]);
    }
  }

  /** From raw rows: assessing the listed unit deltas gives what the direct decomposition reports. */
  method CrossCheck(rows: seq<Row>, cat: string, sqrt: real -> real) returns (e: Evidence, s: Summary)
    requires IsSqrt(sqrt)
    ensures e.net == s.net == SideDifference(rows, cat) + TotalOf(rows, Elsewhere(), HitsOf(cat))
    ensures e.gross == s.gross && e.units == s.unitsChanged && e.eL2 == s.signflipZ && e.top1 == s.top1Share
    ensures s.netGross == Magnitude(e.eNg)
  {
    var units := UnitDeltas(rows, cat);
    var deltas := Map((u: UnitDelta) => u.delta, units);
    assert deltas == UnitChanges(rows, cat);
    var byStatus;
    s, byStatus := ChangeEvidence(rows, cat, sqrt);
    e := Assess(deltas, sqrt);
    VersionsAgree(deltas, sqrt);
    RegroupingConserves(rows, cat);
  }
}
