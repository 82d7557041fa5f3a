/** The signal-artifact table across revisions app_0015 and app_0016: its columns and
    constraints, the guarded migration in both directions, and every run of them. */
module SignalIdentity {
  import opened Sequences

  datatype Scope = Scope(side: string, category: string, subcategory: Option<string>, version: string)

  datatype SignalRow = SignalRow(
    signalId: Option<string>,
    alignmentId: Option<string>,
    passageId: Option<string>,
    scope: Scope,
    content: string
  )

  /** The table as the database sees it: rows by primary key, columns present, constraints in force. */
  datatype Table = Table(
    rows: map<string, SignalRow>,
    alignmentColumn: bool,
    passageColumn: bool,
    signalNotNull: bool,
    signalUnique: bool,
    signalIndex: bool,
    alignmentIndex: bool,
    identityCheck: bool
  )

  // ----------------------------------------------------------------- constraints

  predicate NotNull(rows: map<string, SignalRow>) {
    forall i | i in rows :: rows[i].signalId.Some?
  }

  /** Unique over all rows; absent values count as equal to each other. */
  predicate UniqueSignals(rows: map<string, SignalRow>) {
    forall i, j | i in rows && j in rows && i != j ::
      (rows[i].signalId, rows[i].scope) != (rows[j].signalId, rows[j].scope)
  }

  /** Unique over the rows that have a signal id. */
  predicate UniqueIndexedSignals(rows: map<string, SignalRow>) {
    forall i, j | i in rows && j in rows && i != j && rows[i].signalId.Some? && rows[j].signalId.Some? ::
      (rows[i].signalId, rows[i].scope) != (rows[j].signalId, rows[j].scope)
  }

  /** Unique over the rows that have an alignment id. */
  predicate UniqueIndexedAlignments(rows: map<string, SignalRow>) {
    forall i, j | i in rows && j in rows && i != j && rows[i].alignmentId.Some? && rows[j].alignmentId.Some? ::
      (rows[i].alignmentId, rows[i].scope) != (rows[j].alignmentId, rows[j].scope)
  }

  predicate Identified(rows: map<string, SignalRow>) {
    forall i | i in rows :: rows[i].signalId.Some? || rows[i].alignmentId.Some?
  }

  predicate NoAlignments(rows: map<string, SignalRow>) {
    forall i | i in rows :: rows[i].alignmentId.None?
  }

  predicate NoPassages(rows: map<string, SignalRow>) {
    forall i | i in rows :: rows[i].passageId.None?
  }

  /** The rows meet every constraint in force, and hold nothing in a missing column. */
  predicate Admits(t: Table, rows: map<string, SignalRow>) {
    && (!t.alignmentColumn ==> NoAlignments(rows))
    && (!t.passageColumn ==> NoPassages(rows))
    && (t.signalNotNull ==> NotNull(rows))
    && (t.signalUnique ==> UniqueSignals(rows))
    && (t.signalIndex ==> UniqueIndexedSignals(rows))
    && (t.alignmentIndex ==> UniqueIndexedAlignments(rows))
    && (t.identityCheck ==> Identified(rows))
  }

  predicate Before(t: Table) {
    t == Table(t.rows, false, false, true, true, false, false, false)
  }

  predicate After(t: Table) {
    t == Table(t.rows, true, true, false, false, true, true, true)
  }

  /** One of the two revisions, with all its constraints met. */
  predicate Consistent(t: Table) {
    (Before(t) || After(t)) && Admits(t, t.rows)
  }

  // -------------------------------------------------------------- what steps mean

  datatype Op = Upgrade | Downgrade | Insert(id: string, row: SignalRow) | Delete(id: string)

  function WithoutAlignments(rows: map<string, SignalRow>): map<string, SignalRow> {
    map i | i in rows :: rows[i].(alignmentId := None)
  }

  function WithoutPassages(rows: map<string, SignalRow>): map<string, SignalRow> {
    map i | i in rows :: rows[i].(passageId := None)
  }

  /** The database takes a new row under a fresh key when all constraints still hold. */
  predicate Accepts(t: Table, id: string, row: SignalRow) {
    id !in t.rows && Admits(t, t.rows[id := row])
  }

  function Step(t: Table, op: Op): Table {
    match op
    case Upgrade =>
      if Before(t) then Table(t.rows, true, true, false, false, true, true, true) else t
    case Downgrade =>
      if After(t) && NotNull(t.rows) then
        Table(WithoutAlignments(WithoutPassages(t.rows)), false, false, true, true, false, false, false)
      else t
    case Insert(id, row) =>
      if Accepts(t, id, row) then t.(rows := t.rows[id := row]) else t
    case Delete(id) =>
      t.(rows := t.rows - {id})
  }

  function Run(t: Table, ops: seq<Op>): Table {
    if ops == [] then t else Step(Run(t, ops[..|ops| - 1]), ops[|ops| - 1])
  }

  // ------------------------------------------------------------- the live table

  class SignalTable {
    var rows: map<string, SignalRow>
    var alignmentColumn: bool
    var passageColumn: bool
    var signalNotNull: bool
    var signalUnique: bool
    var signalIndex: bool
    var alignmentIndex: bool
    var identityCheck: bool

    function Snapshot(): Table
      reads this
    {
      Table(rows, alignmentColumn, passageColumn, signalNotNull, signalUnique,
            signalIndex, alignmentIndex, identityCheck)
    }

    predicate Valid()
      reads this
    {
      Consistent(Snapshot())
    }

    /** The empty table as app_0015 has it. */
    constructor ()
      ensures Valid() && Before(Snapshot()) && rows == map[]
    {
      rows := map[];
      alignmentColumn, passageColumn, signalNotNull := false, false, true;
      signalUnique, signalIndex, alignmentIndex, identityCheck := true, false, false, false;
    }

    // Single schema changes. Adding a constraint fails on rows that violate it, so each such
    // change requires that none does.

    method AddAlignmentColumn()
      requires !alignmentColumn && NoAlignments(rows)
      modifies this`alignmentColumn
      ensures alignmentColumn
    {
      alignmentColumn := true;
    }

    method AddPassageColumn()
      requires !passageColumn && NoPassages(rows)
      modifies this`passageColumn
      ensures passageColumn
    {
      passageColumn := true;
    }

    method SetSignalNullable(nullable: bool)
      requires !nullable ==> NotNull(rows)
      modifies this`signalNotNull
      ensures signalNotNull == !nullable
    {
      signalNotNull := !nullable;
    }

    method SetSignalUnique(on: bool)
      requires on ==> UniqueSignals(rows)
      modifies this`signalUnique
      ensures signalUnique == on
    {
      signalUnique := on;
    }

    method SetSignalIndex(on: bool)
      requires on ==> UniqueIndexedSignals(rows)
      modifies this`signalIndex
      ensures signalIndex == on
    {
      signalIndex := on;
    }

    method SetAlignmentIndex(on: bool)
      requires on ==> alignmentColumn && UniqueIndexedAlignments(rows)
      modifies this`alignmentIndex
      ensures alignmentIndex == on
    {
      alignmentIndex := on;
    }

    method SetIdentityCheck(on: bool)
      requires on ==> alignmentColumn && Identified(rows)
      modifies this`identityCheck
      ensures identityCheck == on
    {
      identityCheck := on;
    }

    method DropPassageColumn()
      requires passageColumn
      modifies this`passageColumn, this`rows
      ensures !passageColumn && rows == WithoutPassages(old(rows))
    {
      rows, passageColumn := WithoutPassages(rows), false;
    }

    method DropAlignmentColumn()
      requires alignmentColumn && !alignmentIndex && !identityCheck
      modifies this`alignmentColumn, this`rows
      ensures !alignmentColumn && rows == WithoutAlignments(old(rows))
    {
      rows, alignmentColumn := WithoutAlignments(rows), false;
    }

    /** app_0016 upgrade: no step can fail on a consistent table, and no row changes. */
    method Upgrade()
      requires Valid() && Before(Snapshot())
      modifies this
      ensures Valid() && After(Snapshot()) && rows == old(rows)
      ensures Snapshot() == Step(old(Snapshot()), Op.Upgrade)
    {
      AddAlignmentColumn();
      AddPassageColumn();
      SetSignalNullable(true);
      SetSignalUnique(false);
      SetSignalIndex(true);
      SetAlignmentIndex(true);
      SetIdentityCheck(true);
    }

    /** app_0016 downgrade: refuses, untouched, while any row lacks a signal id; otherwise no
        step can fail and the full constraint is back over every row. */
    method Downgrade() returns (done: bool)
      requires Valid() && After(Snapshot())
      modifies this
      ensures Valid() && Snapshot() == Step(old(Snapshot()), Op.Downgrade)
      ensures done <==> forall i :: i in old(rows) ==> old(rows)[i].signalId.Some?
      ensures !done ==> Snapshot() == old(Snapshot())
      ensures done ==> Before(Snapshot()) && rows.Keys == old(rows.Keys) && NotNull(rows) && UniqueSignals(rows)
    {
      var unkeyed := set i | i in rows && rows[i].signalId.None?;
      if |unkeyed| > 0 {
        var i :| i in unkeyed;
        return false;
      }
      assert forall i :: i in rows ==> i !in unkeyed;
      SetIdentityCheck(false);
      SetAlignmentIndex(false);
      SetSignalIndex(false);
      SetSignalUnique(true);
      SetSignalNullable(false);
      DropPassageColumn();
      DropAlignmentColumn();
      done := true;
    }

    method Insert(id: string, row: SignalRow) returns (ok: bool)
      requires Valid()
      modifies this`rows
      ensures Valid() && ok == old(Accepts(Snapshot(), id, row))
      ensures Snapshot() == Step(old(Snapshot()), Op.Insert(id, row))
    {
      ok := Accepts(Snapshot(), id, row);
      if ok {
        rows := rows[id := row];
      }
    }

    method Delete(id: string)
      requires Valid()
      modifies this`rows
      ensures Valid() && Snapshot() == Step(old(Snapshot()), Op.Delete(id))
    {
      rows := rows - {id};
    }
  }

  // ------------------------------------------------------------ what is accepted

  predicate SameScope(p: SignalRow, q: SignalRow) {
    && p.scope.side == q.scope.side && p.scope.category == q.scope.category
    && p.scope.subcategory == q.scope.subcategory && p.scope.version == q.scope.version
  }

  ghost predicate SignalTaken(rows: map<string, SignalRow>, row: SignalRow) {
    exists i :: i in rows && rows[i].signalId == row.signalId && SameScope(rows[i], row)
  }

  ghost predicate AlignmentTaken(rows: map<string, SignalRow>, row: SignalRow) {
    exists i :: i in rows && rows[i].alignmentId == row.alignmentId && SameScope(rows[i], row)
  }

  /** At app_0015 a row under a fresh key is taken exactly when it has a signal id that no row of its scope
      has, and nothing in the columns to come. */
  lemma AcceptedBefore(t: Table, id: string, row: SignalRow)
    requires Consistent(t) && Before(t)
    ensures Accepts(t, id, row)
       <==> id !in t.rows && row.signalId.Some? && row.alignmentId.None? && row.passageId.None?
            && !SignalTaken(t.rows, row)
  {
    var more := t.rows[id := row];
    if id !in t.rows {
      assert more[id] == row && forall i :: i in t.rows ==> more[i] == t.rows[i];
    }
  }

  /** At app_0016 it is taken exactly when it has a signal or an alignment id, and no row of its scope has
      the signal id, if any, or the alignment id, if any. */
  lemma AcceptedAfter(t: Table, id: string, row: SignalRow)
    requires Consistent(t) && After(t)
    ensures Accepts(t, id, row)
       <==> id !in t.rows && (row.signalId.Some? || row.alignmentId.Some?)
            && (row.signalId.Some? ==> !SignalTaken(t.rows, row))
            && (row.alignmentId.Some? ==> !AlignmentTaken(t.rows, row))
  {
    var more := t.rows[id := row];
    if id !in t.rows {
      assert more[id] == row && forall i :: i in t.rows ==> more[i] == t.rows[i];
      AlignmentsAfterInsert(t.rows, id, row);
      SignalsAfterInsert(t.rows, id, row);
    }
  }

  lemma SignalsAfterInsert(rows: map<string, SignalRow>, id: string, row: SignalRow)
    requires UniqueIndexedSignals(rows) && id !in rows
    ensures UniqueIndexedSignals(rows[id := row]) <==> (row.signalId.Some? ==> !SignalTaken(rows, row))
  {
    var more := rows[id := row];
    assert more[id] == row && forall i :: i in rows ==> more[i] == rows[i];
    if row.signalId.Some? && SignalTaken(rows, row) {
      var i :| i in rows && rows[i].signalId == row.signalId && SameScope(rows[i], row);
      assert (more[i].signalId, more[i].scope) == (more[id].signalId, more[id].scope);
    }
  }

  lemma AlignmentsAfterInsert(rows: map<string, SignalRow>, id: string, row: SignalRow)
    requires UniqueIndexedAlignments(rows) && id !in rows
    ensures UniqueIndexedAlignments(rows[id := row]) <==> (row.alignmentId.Some? ==> !AlignmentTaken(rows, row))
  {
    var more := rows[id := row];
    assert more[id] == row && forall i :: i in rows ==> more[i] == rows[i];
    if row.alignmentId.Some? && AlignmentTaken(rows, row) {
      var i :| i in rows && rows[i].alignmentId == row.alignmentId && SameScope(rows[i], row);
      assert (more[i].alignmentId, more[i].scope) == (more[id].alignmentId, more[id].scope);
    }
  }

  // --------------------------------------------------------------------- all runs

  lemma StepKeepsConsistent(t: Table, op: Op)
    requires Consistent(t)
    ensures Consistent(Step(t, op))
  {}

  /** In every reachable state the table is at one of the two revisions with all of that
      revision's constraints met. */
  lemma {:induction false} RunKeepsConsistent(t: Table, ops: seq<Op>)
    requires Consistent(t)
    ensures Consistent(Run(t, ops))
  {
    if ops != [] {
      RunKeepsConsistent(t, ops[..|ops| - 1]);
      StepKeepsConsistent(Run(t, ops[..|ops| - 1]), ops[|ops| - 1]);
    }
  }

  /** Spelled out: every row always carries an identity; at app_0016 both partial indexes hold; at
      app_0015 every row has a signal id and the full constraint holds. */
  lemma ReachableRows(t: Table, ops: seq<Op>)
    requires Consistent(t)
    ensures var r := Run(t, ops);
      && Identified(r.rows)
      && (After(r) ==> UniqueIndexedSignals(r.rows) && UniqueIndexedAlignments(r.rows))
      && (Before(r) ==> NotNull(r.rows) && UniqueSignals(r.rows))
  {
    RunKeepsConsistent(t, ops);
  }

  /** From any reachable state, a downgrade either refuses with the state untouched, exactly when
      some row lacks a signal id, or keeps every row, signal id, scope and content. */
  lemma DowngradeKeepsRows(t: Table)
    requires Consistent(t) && After(t)
    ensures var r := Step(t, Downgrade);
      && (r == t <==> exists i :: i in t.rows && t.rows[i].signalId.None?)
      && (r != t ==> Before(r) && r.rows.Keys == t.rows.Keys
                     && forall i :: i in t.rows ==>
                          r.rows[i] == t.rows[i].(alignmentId := None, passageId := None))
  {
    var r := Step(t, Downgrade);
    if r == t {
      assert After(r) && !NotNull(t.rows);
    }
  }

  lemma DroppingNothing(rows: map<string, SignalRow>)
    ensures WithoutAlignments(WithoutPassages(rows)) == rows <==> NoAlignments(rows) && NoPassages(rows)
  {
    var r := WithoutAlignments(WithoutPassages(rows));
    forall i | i in rows ensures r[i] == rows[i] <==> rows[i].alignmentId.None? && rows[i].passageId.None? {}
    if r == rows {
      assert forall i :: i in rows ==> r[i] == rows[i];
    }
    assert r.Keys == rows.Keys;
  }

  /** Upgrading and downgrading again is the identity. */
  lemma UpgradeDowngrade(t: Table)
    requires Consistent(t) && Before(t)
    ensures Step(Step(t, Upgrade), Downgrade) == t
  {
    DroppingNothing(t.rows);
  }

  /** Downgrading and upgrading again is the identity exactly when no row carries an alignment
      or passage id, or the downgrade refuses. */
  lemma DowngradeUpgrade(t: Table)
    requires Consistent(t) && After(t)
    ensures Step(Step(t, Downgrade), Upgrade) == t
       <==> !NotNull(t.rows) || (NoAlignments(t.rows) && NoPassages(t.rows))
  {
    DroppingNothing(t.rows);
  }

  // ------------------------------------------------------ writers of the old scheme

  /** Writes that know nothing of the new columns. */
  predicate OldScheme(op: Op) {
    match op
    case Insert(_, row) => row.alignmentId.None? && row.passageId.None?
    case Delete(_) => true
    case _ => false
  }

  lemma SameAnswer(t: Table, op: Op)
    requires Consistent(t) && Before(t) && OldScheme(op)
    ensures Before(Step(t, op))
    ensures Step(Step(t, Upgrade), op) == Step(Step(t, op), Upgrade)
  {
    if op.Insert? && op.id !in t.rows {
      var more := t.rows[op.id := op.row];
      assert NoAlignments(more) && NoPassages(more);
      assert forall i :: i in t.rows ==> more[i] == t.rows[i];
      assert more[op.id] == op.row;
      assert Identified(more) <==> NotNull(more);
      assert NotNull(more) ==> (UniqueSignals(more) <==> UniqueIndexedSignals(more));
    }
  }

  lemma {:induction false} SameAnswers(t: Table, ops: seq<Op>)
    requires Consistent(t) && Before(t) && forall k :: 0 <= k < |ops| ==> OldScheme(ops[k])
    ensures Before(Run(t, ops)) && Consistent(Run(t, ops))
    ensures Run(Step(t, Upgrade), ops) == Step(Run(t, ops), Upgrade)
  {
    if ops != [] {
      var n := |ops| - 1;
      SameAnswers(t, ops[..n]);
      SameAnswer(Run(t, ops[..n]), ops[n]);
      StepKeepsConsistent(Run(t, ops[..n]), ops[n]);
    }
  }

  /** The partial index means for the old scheme what the full constraint meant: any number of
      old-scheme writes made after the upgrade, then downgraded, leave exactly the table that
      the same writes leave without it. */
  lemma UpgradeIsTransparent(t: Table, ops: seq<Op>)
    requires Consistent(t) && Before(t) && forall k :: 0 <= k < |ops| ==> OldScheme(ops[k])
    ensures Step(Run(Step(t, Upgrade), ops), Downgrade) == Run(t, ops)
  {
    SameAnswers(t, ops);
    UpgradeDowngrade(Run(t, ops));
  }
}
