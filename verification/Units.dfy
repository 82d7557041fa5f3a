/** Regrouping passage rows by alignment unit, and the conservation of hits
    between the per-unit and the per-side view. */
module Units {
  import opened Sequences
  import opened Sums
  import opened Hits

  // -------------------------------------------------------- the meaning of a unit

  /** Alignment ids in order of first appearance. */
  function UnitIds(rows: seq<Row>): seq<string> {
    if rows == [] then []
    else
      var ids, a := UnitIds(rows[..|rows| - 1]), rows[|rows| - 1].alignmentId;
      if a in ids then ids else ids + [a]
  }

  function Member(id: string, earlier: bool): Row -> bool {
    (r: Row) => r.alignmentId == id && (r.side == EARLIER <==> earlier)
  }

  /** Hits of one unit on one side; every row not on the earlier side counts as later. */
  function UnitHits(rows: seq<Row>, cat: string, id: string, earlier: bool): int {
    TotalOf(rows, Member(id, earlier), HitsOf(cat))
  }

  /** Later hits minus earlier hits of one unit. */
  function Change(rows: seq<Row>, cat: string, id: string): int {
    UnitHits(rows, cat, id, false) - UnitHits(rows, cat, id, true)
  }

  function Changes(rows: seq<Row>, cat: string, ids: seq<string>): seq<int> {
    seq(|ids|, i requires 0 <= i < |ids| => Change(rows, cat, ids[i]))
  }

  function UnitChanges(rows: seq<Row>, cat: string): seq<int> {
    Changes(rows, cat, UnitIds(rows))
  }

  function LastStatus(rows: seq<Row>, id: string): string {
    if rows == [] then ""
    else
      var r := rows[|rows| - 1];
      if r.alignmentId == id then r.status else LastStatus(rows[..|rows| - 1], id)
  }

  const NO_PAGE := 1000000

  function FirstPage(rows: seq<Row>, id: string): int {
    if rows == [] then NO_PAGE
    else
      var r, page := rows[|rows| - 1], FirstPage(rows[..|rows| - 1], id);
      if r.alignmentId == id && r.page < page then r.page else page
  }

  /** The first page is the least page of the unit's rows, or the cap where none lies below it. */
  lemma {:induction false} FirstPageIsLeast(rows: seq<Row>, id: string)
    ensures FirstPage(rows, id) <= 1000000
    ensures forall i :: 0 <= i < |rows| && rows[i].alignmentId == id ==> FirstPage(rows, id) <= rows[i].page
    ensures FirstPage(rows, id) == 1000000
         || exists i :: 0 <= i < |rows| && rows[i].alignmentId == id && rows[i].page == FirstPage(rows, id)
  {
    if rows != [] {
      var n := |rows| - 1;
      FirstPageIsLeast(rows[..n], id);
      assert forall i :: 0 <= i < n ==> rows[..n][i] == rows[i];
    }
  }

  /** The status is that of the unit's last row. */
  lemma {:induction false} LastStatusIsLast(rows: seq<Row>, id: string, n: nat)
    requires n < |rows| && rows[n].alignmentId == id
    requires forall i :: n < i < |rows| ==> rows[i].alignmentId != id
    ensures LastStatus(rows, id) == rows[n].status
  {
    if n < |rows| - 1 {
      LastStatusIsLast(rows[..|rows| - 1], id, n);
    }
  }

  /** Where a unit first appears; the number of rows if it does not. */
  function FirstRow(rows: seq<Row>, id: string): nat {
    if rows == [] || rows[0].alignmentId == id then 0 else 1 + FirstRow(rows[1..], id)
  }

  lemma {:induction false} FirstRowAfterMore(rows: seq<Row>, r: Row, id: string)
    ensures FirstRow(rows, id) <= |rows|
    ensures FirstRow(rows, id) < |rows| <==> exists i :: 0 <= i < |rows| && rows[i].alignmentId == id
    ensures FirstRow(rows + [r], id)
         == if FirstRow(rows, id) < |rows| || r.alignmentId == id then FirstRow(rows, id) else |rows| + 1
  {
    if rows != [] && rows[0].alignmentId != id {
      FirstRowAfterMore(rows[1..], r, id);
      assert (rows + [r])[1..] == rows[1..] + [r];
      if exists i :: 0 <= i < |rows| && rows[i].alignmentId == id {
        var i :| 0 <= i < |rows| && rows[i].alignmentId == id;
        assert rows[1..][i - 1] == rows[i];
      }
    }
  }

  /** The units are the alignment ids of the rows, in the order in which they first appear. */
  lemma {:induction false} UnitsInOrder(rows: seq<Row>)
    ensures forall i :: 0 <= i < |UnitIds(rows)| ==> FirstRow(rows, UnitIds(rows)[i]) < |rows|
    ensures forall i, j :: 0 <= i < j < |UnitIds(rows)| ==>
      FirstRow(rows, UnitIds(rows)[i]) < FirstRow(rows, UnitIds(rows)[j])
  {
    if rows != [] {
      var n := |rows| - 1;
      var rest, r := rows[..n], rows[n];
      UnitsInOrder(rest);
      UnitIdsDistinct(rest);
      assert rows == rest + [r];
      forall i | 0 <= i < |UnitIds(rest)|
        ensures FirstRow(rows, UnitIds(rest)[i]) == FirstRow(rest, UnitIds(rest)[i]) < n
      {
        FirstRowAfterMore(rest, r, UnitIds(rest)[i]);
      }
      FirstRowAfterMore(rest, r, r.alignmentId);
      assert r.alignmentId !in UnitIds(rest) ==> FirstRow(rest, r.alignmentId) == n;
    }
  }

  // -------------------------------------------------------------- grouping loops

  type Tallies = Dict<string, (int, int)>

  /** units[r.alignment_id][side] += hits, where a new unit starts at (0, 0). */
  function Credit(units: Tallies, r: Row, cat: string): Tallies {
    var u := units.GetOr(r.alignmentId, (0, 0));
    var h := RowHits(r, cat);
    units.Put(r.alignmentId, if r.side == EARLIER then (u.0 + h, u.1) else (u.0, u.1 + h))
  }

  /** The tallies are those of exactly these rows, in order of first appearance. */
  ghost predicate Grouped(units: Tallies, rows: seq<Row>, cat: string) {
    && units.Valid()
    && units.keys == UnitIds(rows)
    && forall id :: units.GetOr(id, (0, 0)) == (UnitHits(rows, cat, id, true), UnitHits(rows, cat, id, false))
  }

  lemma CreditStep(units: Tallies, rows: seq<Row>, cat: string, i: nat)
    requires i < |rows| && Grouped(units, rows[..i], cat)
    ensures Grouped(Credit(units, rows[i], cat), rows[..i + 1], cat)
  {
    var r, after := rows[i], Credit(units, rows[i], cat);
    KeyIndex(units, r.alignmentId);
    assert rows[..i + 1][..i] == rows[..i];
    forall id
      ensures after.GetOr(id, (0, 0))
           == (UnitHits(rows[..i + 1], cat, id, true), UnitHits(rows[..i + 1], cat, id, false))
    {
      assert units.GetOr(id, (0, 0)) == (UnitHits(rows[..i], cat, id, true), UnitHits(rows[..i], cat, id, false));
      assert id != r.alignmentId ==> after.GetOr(id, (0, 0)) == units.GetOr(id, (0, 0));
      TotalOfStep(rows, i, Member(id, true), HitsOf(cat));
      TotalOfStep(rows, i, Member(id, false), HitsOf(cat));
    }
  }

  lemma {:induction false} UnitIdsDistinct(rows: seq<Row>)
    ensures Distinct(UnitIds(rows))
    ensures forall i :: 0 <= i < |rows| ==> rows[i].alignmentId in UnitIds(rows)
  {
    if rows != [] {
      var n := |rows| - 1;
      UnitIdsDistinct(rows[..n]);
      forall i | 0 <= i < |rows| ensures rows[i].alignmentId in UnitIds(rows) {
        assert i < n ==> rows[..n][i] == rows[i];
      }
    }
  }

  lemma GroupedChange(units: Tallies, rows: seq<Row>, cat: string, i: nat)
    requires Grouped(units, rows, cat) && i < |units.keys|
    ensures units.keys[i] in units.at
    ensures units.at[units.keys[i]].1 - units.at[units.keys[i]].0 == UnitChanges(rows, cat)[i]
  {
    KeyIndex(units, units.keys[i]);
  }

  /** status_of holds the status of each unit's last row. */
  ghost predicate StatusesNoted(status: map<string, string>, rows: seq<Row>) {
    forall id :: id in UnitIds(rows) ==> id in status && status[id] == LastStatus(rows, id)
  }

  lemma StatusStep(status: map<string, string>, rows: seq<Row>, i: nat)
    requires i < |rows| && StatusesNoted(status, rows[..i])
    ensures StatusesNoted(status[rows[i].alignmentId := rows[i].status], rows[..i + 1])
  {
    assert rows[..i + 1][..i] == rows[..i];
  }

  /** page holds the least page of each unit seen so far. */
  ghost predicate PagesNoted(page: map<string, int>, rows: seq<Row>) {
    && (forall id :: id in UnitIds(rows) ==> id in page)
    && (forall id :: (if id in page then page[id] else NO_PAGE) == FirstPage(rows, id))
  }

  function NotePage(page: map<string, int>, r: Row): map<string, int> {
    var seen := if r.alignmentId in page then page[r.alignmentId] else NO_PAGE;
    page[r.alignmentId := if r.page < seen then r.page else seen]
  }

  lemma PageStep(page: map<string, int>, rows: seq<Row>, i: nat)
    requires i < |rows| && PagesNoted(page, rows[..i])
    ensures PagesNoted(NotePage(page, rows[i]), rows[..i + 1])
  {
    assert rows[..i + 1][..i] == rows[..i];
  }

  datatype UnitDelta = UnitDelta(id: string, delta: int, status: string, page: int)

  /** (alignment id, later minus earlier hits, status, first page) per alignment unit. */
  function DeltasOf(rows: seq<Row>, cat: string, ids: seq<string>): seq<UnitDelta> {
    seq(|ids|, i requires 0 <= i < |ids| =>
      UnitDelta(ids[i], Change(rows, cat, ids[i]), LastStatus(rows, ids[i]), FirstPage(rows, ids[i])))
  }

  method UnitDeltas(rows: seq<Row>, cat: string) returns (deltas: seq<UnitDelta>)
    ensures deltas == DeltasOf(rows, cat, UnitIds(rows))
  {
    var units: Tallies := EmptyDict();
    var status: map<string, string> := map[];
    var page: map<string, int> := map[];
    for i := 0 to |rows|
      invariant Grouped(units, rows[..i], cat)
      invariant StatusesNoted(status, rows[..i])
      invariant PagesNoted(page, rows[..i])
    {
      var r := rows[i];
      CreditStep(units, rows, cat, i);
      StatusStep(status, rows, i);
      PageStep(page, rows, i);
      units := Credit(units, r, cat);
      status := status[r.alignmentId := r.status];
      page := NotePage(page, r);
    }
    assert rows[..|rows|] == rows;
    deltas := [];
    for i := 0 to |units.keys|
      invariant deltas == DeltasOf(rows, cat, units.keys[..i])
    {
      var a := units.keys[i];
      GroupedChange(units, rows, cat, i);
      deltas := deltas + [UnitDelta(a, units.at[a].1 - units.at[a].0, status[a], page[a])];
    }
    assert units.keys[..|units.keys|] == units.keys;
  }

  // ---------------------------------------------------------------- conservation

  lemma {:induction false} AbsentUnit(rows: seq<Row>, cat: string, id: string)
    requires id !in UnitIds(rows)
    ensures Change(rows, cat, id) == 0
  {
    if rows != [] {
      AbsentUnit(rows[..|rows| - 1], cat, id);
    }
  }

  function Signed(r: Row, cat: string): int {
    if r.side == EARLIER then -RowHits(r, cat) else RowHits(r, cat)
  }

  /** One more row moves the change of its own unit and of no other. */
  lemma {:induction false} ChangesStep(rows: seq<Row>, cat: string, ids: seq<string>)
    requires rows != [] && Distinct(ids)
    ensures var n := |rows| - 1;
      Sum(Changes(rows, cat, ids))
      == Sum(Changes(rows[..n], cat, ids)) + if rows[n].alignmentId in ids then Signed(rows[n], cat) else 0
  {
    if ids != [] {
      var n, m := |rows| - 1, |ids| - 1;
      ChangesStep(rows, cat, ids[..m]);
      assert Changes(rows, cat, ids)[..m] == Changes(rows, cat, ids[..m]);
      assert Changes(rows[..n], cat, ids)[..m] == Changes(rows[..n], cat, ids[..m]);
      assert ids == ids[..m] + [ids[m]];
    }
  }

  /** Later hits minus earlier hits, by the two per-side aggregations. */
  function SideDifference(rows: seq<Row>, cat: string): int {
    TotalOf(rows, OnSide(LATER), HitsOf(cat)) - TotalOf(rows, OnSide(EARLIER), HitsOf(cat))
  }

  /** Regrouping conserves hits: the unit changes add up to the difference between the
      two sides, plus the hits of any row that lies on neither. */
  lemma {:induction false} RegroupingConserves(rows: seq<Row>, cat: string)
    ensures Sum(UnitChanges(rows, cat))
         == SideDifference(rows, cat) + TotalOf(rows, Elsewhere(), HitsOf(cat))
  {
    if rows != [] {
      var n := |rows| - 1;
      var rest, r := rows[..n], rows[n];
      RegroupingConserves(rest, cat);
      UnitIdsDistinct(rows);
      ChangesStep(rows, cat, UnitIds(rows));
      if r.alignmentId !in UnitIds(rest) {
        AbsentUnit(rest, cat, r.alignmentId);
        assert Changes(rest, cat, UnitIds(rows)) == UnitChanges(rest, cat) + [0];
        SumAppend(UnitChanges(rest, cat), 0);
      }
    }
  }

  lemma {:induction false} NothingElsewhere(rows: seq<Row>, cat: string)
    requires forall i :: 0 <= i < |rows| ==> rows[i].side in {EARLIER, LATER}
    ensures TotalOf(rows, Elsewhere(), HitsOf(cat)) == 0
  {
    if rows != [] {
      NothingElsewhere(rows[..|rows| - 1], cat);
    }
  }

  /** What the aggregated side says about a category is what its rows say. */
  lemma {:induction false} SideHits(rows: seq<Row>, keep: Row -> bool, cat: string)
    ensures TotalOf(rows, keep, HitsOf(cat))
         == TotalOf(rows, keep, if cat in CORE then CoreOf(cat) else CategoryOf(cat))
  {
    if rows != [] {
      SideHits(rows[..|rows| - 1], keep, cat);
    }
  }

  /** h of a topic, as the metric builders read it from an aggregated side. */
  function HitsOn(s: Side, cat: string): int {
    if cat in CORE then Get(s.core, cat) else Get(s.cat, cat)
  }

  /** On rows that all lie on one of the two sides, net change over units is the
      later side's count minus the earlier side's. */
  lemma NetIsSideDifference(rows: seq<Row>, cat: string, E: Side, L: Side)
    requires forall i :: 0 <= i < |rows| ==> rows[i].side in {"EARLIER", "LATER"}
    requires Aggregates(E, rows, OnSide("EARLIER")) && Aggregates(L, rows, OnSide("LATER"))
    ensures Sum(UnitChanges(rows, cat)) == HitsOn(L, cat) - HitsOn(E, cat)
  {
    RegroupingConserves(rows, cat);
    NothingElsewhere(rows, cat);
    SideHits(rows, OnSide(EARLIER), cat);
    SideHits(rows, OnSide(LATER), cat);
  }

  /** The rows of one unit alone. */
  function RowsOf(rows: seq<Row>, id: string): seq<Row> {
    if rows == [] then []
    else RowsOf(rows[..|rows| - 1], id) + if rows[|rows| - 1].alignmentId == id then [rows[|rows| - 1]] else []
  }

  /** A unit's change is the side difference of its own rows, whatever the other rows are. */
  lemma {:induction false} ChangeOfOwnRows(rows: seq<Row>, cat: string, id: string)
    ensures Change(rows, cat, id)
         == SideDifference(RowsOf(rows, id), cat) + TotalOf(RowsOf(rows, id), Elsewhere(), HitsOf(cat))
  {
    if rows != [] {
      var n := |rows| - 1;
      ChangeOfOwnRows(rows[..n], cat, id);
      if rows[n].alignmentId == id {
        assert RowsOf(rows, id)[..|RowsOf(rows, id)| - 1] == RowsOf(rows[..n], id);
      } else {
        assert RowsOf(rows, id) == RowsOf(rows[..n], id);
      }
    }
  }
}
