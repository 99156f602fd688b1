/** Tables, and the column operations of a migration step as changes of tables. */
module Tables {
  import opened Cells

  /** Column order matters; a row gives the cell of each column. */
  datatype Table = Table(columns: seq<string>, rows: seq<map<string, Cell>>)

  type Db = map<string, Table>

  datatype ColOp =
    | AddOp(table: string, column: string, default: Cell)
    | DropOp(table: string, drops: seq<string>)

  /** Every row has a cell for each column and no other. */
  ghost predicate TableOk(t: Table) {
    forall r :: 0 <= r < |t.rows| ==> forall c :: c in t.rows[r] <==> c in t.columns
  }

  ghost predicate DbOk(db: Db) {
    forall n :: n in db ==> TableOk(db[n])
  }

  /** What a database file can hold: in each table at least one column, and no
      two of the same name. */
  ghost predicate Storable(db: Db) {
    DbOk(db) && forall n :: n in db ==> db[n].columns != [] && Distinct(db[n].columns)
  }

  ghost predicate Distinct(names: seq<string>) {
    forall i, j :: 0 <= i < j < |names| ==> names[i] != names[j]
  }

  function Keep(columns: seq<string>, drops: seq<string>): (kept: seq<string>)
    ensures forall c :: c in kept <==> c in columns && c !in drops
  {
    if columns == [] then []
    else if columns[0] in drops then Keep(columns[1..], drops)
    else [columns[0]] + Keep(columns[1..], drops)
  }

  /** ALTER TABLE ... ADD COLUMN, skipped when the column is there. */
  function AddColumn(t: Table, column: string, default: Cell): Table {
    if column in t.columns then t
    else Table(t.columns + [column], seq(|t.rows|, r requires 0 <= r < |t.rows| => t.rows[r][column := default]))
  }

  function DropFromRow(row: map<string, Cell>, drops: seq<string>): map<string, Cell> {
    map c | c in row && c !in drops :: row[c]
  }

  /** The table rebuilt from the kept columns. */
  function DropColumns(t: Table, drops: seq<string>): Table {
    Table(Keep(t.columns, drops), seq(|t.rows|, r requires 0 <= r < |t.rows| => DropFromRow(t.rows[r], drops)))
  }

  function ApplyToTable(t: Table, op: ColOp): Table {
    match op
    case AddOp(_, column, default) => AddColumn(t, column, default)
    case DropOp(_, drops) => DropColumns(t, drops)
  }

  /** An operation on a table that is not there fails in the database and never
      takes effect. */
  function ApplyOp(db: Db, op: ColOp): Db {
    if op.table in db then db[op.table := ApplyToTable(db[op.table], op)] else db
  }

  function ApplyOps(db: Db, ops: seq<ColOp>): Db {
    if ops == [] then db else ApplyOp(ApplyOps(db, ops[..|ops| - 1]), ops[|ops| - 1])
  }

  lemma {:induction false} ApplyOpsConcat(db: Db, a: seq<ColOp>, b: seq<ColOp>)
    ensures ApplyOps(db, a + b) == ApplyOps(ApplyOps(db, a), b)
  {
    if b == [] {
      assert a + b == a;
    } else {
      var n := |b| - 1;
      assert (a + b)[..|a + b| - 1] == a + b[..n];
      ApplyOpsConcat(db, a, b[..n]);
    }
  }

  lemma {:induction false} KeepAll(columns: seq<string>, drops: seq<string>)
    requires forall c :: c in drops ==> c !in columns
    ensures Keep(columns, drops) == columns
  {
    if columns != [] {
      KeepAll(columns[1..], drops);
    }
  }

  lemma ApplyKeepsOk(db: Db, op: ColOp)
    requires DbOk(db)
    ensures DbOk(ApplyOp(db, op))
  {
  }

  /** The database takes the operation: the table is there, and keeps a column. */
  ghost predicate Takes(db: Db, op: ColOp) {
    op.table in db && (op.DropOp? ==> exists c :: c in db[op.table].columns && c !in op.drops)
  }

  /** No operation of a run over the list fails for what the database holds. */
  ghost predicate TakesAll(db: Db, ops: seq<ColOp>) {
    forall i :: 0 <= i < |ops| ==> Takes(ApplyOps(db, ops[..i]), ops[i])
  }

  lemma TakesConcat(db: Db, a: seq<ColOp>, b: seq<ColOp>)
    ensures TakesAll(db, a + b) <==> TakesAll(db, a) && TakesAll(ApplyOps(db, a), b)
  {
    var ops := a + b;
    forall i | 0 <= i < |a|
      ensures ops[..i] == a[..i] && ops[i] == a[i]
    {
    }
    forall i | 0 <= i < |b|
      ensures ApplyOps(db, ops[..|a| + i]) == ApplyOps(ApplyOps(db, a), b[..i]) && ops[|a| + i] == b[i]
    {
      assert ops[..|a| + i] == a + b[..i];
      ApplyOpsConcat(db, a, b[..i]);
    }
    hide ApplyOps, Takes;
    if TakesAll(db, a) && TakesAll(ApplyOps(db, a), b) {
      forall i | 0 <= i < |ops|
        ensures Takes(ApplyOps(db, ops[..i]), ops[i])
      {
        if i >= |a| {
          assert ops[i] == b[i - |a|] && ops[..|a| + (i - |a|)] == ops[..i];
        }
      }
    }
    if TakesAll(db, ops) {
      forall i | 0 <= i < |b|
        ensures Takes(ApplyOps(ApplyOps(db, a), b[..i]), b[i])
      {
        assert Takes(ApplyOps(db, ops[..|a| + i]), ops[|a| + i]);
      }
    }
  }

  lemma {:induction false} KeepDistinct(columns: seq<string>, drops: seq<string>)
    requires Distinct(columns)
    ensures Distinct(Keep(columns, drops))
  {
    if columns != [] {
      KeepDistinct(columns[1..], drops);
      assert forall c :: c in Keep(columns[1..], drops) ==> c in columns[1..];
      assert columns[0] !in columns[1..];
    }
  }

  lemma ApplyKeepsStorable(db: Db, op: ColOp)
    requires Storable(db) && Takes(db, op)
    ensures Storable(ApplyOp(db, op))
  {
    ApplyKeepsOk(db, op);
    if op.DropOp? {
      var c :| c in db[op.table].columns && c !in op.drops;
      assert c in Keep(db[op.table].columns, op.drops);
      KeepDistinct(db[op.table].columns, op.drops);
    }
  }

  lemma {:induction false} ApplyOpsKeepsOk(db: Db, ops: seq<ColOp>)
    requires DbOk(db)
    ensures DbOk(ApplyOps(db, ops))
  {
    if ops != [] {
      ApplyOpsKeepsOk(db, ops[..|ops| - 1]);
      ApplyKeepsOk(ApplyOps(db, ops[..|ops| - 1]), ops[|ops| - 1]);
    }
  }

  // ---- What an operation does, cell by cell --------------------------------

  /** Row by row the same cells, but for those of the given columns. */
  ghost predicate SameCells(a: Table, b: Table, except: set<string>) {
    && |a.rows| == |b.rows|
    && forall r, c :: 0 <= r < |a.rows| && c !in except ==>
         (c in a.rows[r] <==> c in b.rows[r]) && (c in a.rows[r] ==> a.rows[r][c] == b.rows[r][c])
  }

  /** The places of the kept columns, in order. */
  ghost predicate KeptPlaces(columns: seq<string>, drops: seq<string>, places: seq<nat>) {
    && (forall j :: 0 <= j < |places| ==> places[j] < |columns|)
    && (forall j, k :: 0 <= j < k < |places| ==> places[j] < places[k])
    && (forall i :: 0 <= i < |columns| ==> (i in places <==> columns[i] !in drops))
  }

  ghost function ColumnsAt(columns: seq<string>, places: seq<nat>): seq<string> {
    seq(|places|, j requires 0 <= j < |places| => if places[j] < |columns| then columns[places[j]] else "")
  }

  function Shift(places: seq<nat>): seq<nat> {
    seq(|places|, j requires 0 <= j < |places| => places[j] + 1)
  }

  lemma Shifted(places: seq<nat>, i: nat)
    ensures i in Shift(places) <==> i > 0 && i - 1 in places
  {
    if i > 0 && i - 1 in places {
      var j :| 0 <= j < |places| && places[j] == i - 1;
      assert Shift(places)[j] == i;
    }
  }

  lemma {:induction false} KeepPlaces(columns: seq<string>, drops: seq<string>) returns (places: seq<nat>)
    ensures KeptPlaces(columns, drops, places) && Keep(columns, drops) == ColumnsAt(columns, places)
    ensures forall j :: 0 <= j < |places| ==> places[j] < |columns|
  {
    if columns == [] {
      places := [];
    } else {
      hide KeptPlaces, ColumnsAt;
      var rest := KeepPlaces(columns[1..], drops);
      places := (if columns[0] in drops then [] else [0]) + Shift(rest);
      PlacesGrow(columns, drops, rest);
      ColumnsGrow(columns, rest);
    }
  }

  lemma ColumnsGrow(columns: seq<string>, rest: seq<nat>)
    requires columns != [] && forall j :: 0 <= j < |rest| ==> rest[j] < |columns| - 1
    ensures ColumnsAt(columns, [] + Shift(rest)) == ColumnsAt(columns[1..], rest)
    ensures ColumnsAt(columns, [0] + Shift(rest)) == [columns[0]] + ColumnsAt(columns[1..], rest)
  {
  }

  lemma PlacesGrow(columns: seq<string>, drops: seq<string>, rest: seq<nat>)
    requires columns != [] && KeptPlaces(columns[1..], drops, rest)
    ensures KeptPlaces(columns, drops, (if columns[0] in drops then [] else [0]) + Shift(rest))
  {
    var front := if columns[0] in drops then [] else [0];
    var places := front + Shift(rest);
    forall i | 0 <= i < |columns|
      ensures i in places <==> columns[i] !in drops
    {
      Shifted(rest, i);
      assert i in places <==> i in front || i in Shift(rest);
      assert i > 0 ==> columns[i] == columns[1..][i - 1];
    }
  }

  /** An added column comes last and holds its default in every row; a column that
      is there is left alone; nothing else changes in the database. */
  lemma AddMeans(db: Db, op: ColOp)
    requires DbOk(db) && op.AddOp? && op.table in db
    ensures var after := ApplyOp(db, op);
      && after.Keys == db.Keys && (forall n :: n in db && n != op.table ==> after[n] == db[n])
      && var was, now := db[op.table], after[op.table];
      if op.column in was.columns then now == was
      else
        && now.columns == was.columns + [op.column]
        && SameCells(was, now, {op.column})
        && forall r :: 0 <= r < |now.rows| ==> op.column in now.rows[r] && now.rows[r][op.column] == op.default
  {
  }

  /** The columns that are not dropped stay in their order with all their cells, and
      no cell of a dropped one stays. */
  lemma DropMeans(db: Db, op: ColOp)
    requires DbOk(db) && op.DropOp? && op.table in db
    ensures var after := ApplyOp(db, op);
      && after.Keys == db.Keys && (forall n :: n in db && n != op.table ==> after[n] == db[n])
      && var was, now := db[op.table], after[op.table];
      && (exists places :: KeptPlaces(was.columns, op.drops, places) && now.columns == ColumnsAt(was.columns, places))
      && SameCells(was, now, set c | c in op.drops)
      && forall r, c :: 0 <= r < |now.rows| && c in op.drops ==> c !in now.rows[r]
  {
    var places := KeepPlaces(db[op.table].columns, op.drops);
  }

  // ---- Restarting from any prefix -----------------------------------------

  /** Neither undoes the other: no column of one table both added and dropped. */
  ghost predicate Compatible(a: ColOp, b: ColOp) {
    && (a.AddOp? && b.DropOp? && a.table == b.table ==> a.column !in b.drops)
    && (a.DropOp? && b.AddOp? && a.table == b.table ==> b.column !in a.drops)
  }

  ghost predicate AllCompatible(ops: seq<ColOp>) {
    forall i, j :: 0 <= i < |ops| && 0 <= j < |ops| ==> Compatible(ops[i], ops[j])
  }

  /** The operation has nothing left to do. */
  ghost predicate Settled(db: Db, op: ColOp) {
    op.table in db ==>
      match op
      case AddOp(t, column, _) => column in db[t].columns
      case DropOp(t, drops) => forall c :: c in drops ==> c !in db[t].columns
  }

  lemma SettledIsNoop(db: Db, op: ColOp)
    requires DbOk(db) && Settled(db, op)
    ensures ApplyOp(db, op) == db
  {
    if op.table in db && op.DropOp? {
      var t := db[op.table];
      KeepAll(t.columns, op.drops);
      forall r | 0 <= r < |t.rows|
        ensures DropFromRow(t.rows[r], op.drops) == t.rows[r]
      {
        assert forall c :: c in t.rows[r] ==> c in t.columns && c !in op.drops;
      }
      assert DropColumns(t, op.drops).rows == t.rows;
    }
  }

  lemma SettledStays(db: Db, op: ColOp, next: ColOp)
    requires Settled(db, op) && Compatible(op, next)
    ensures Settled(ApplyOp(db, next), op)
  {
  }

  lemma ApplySettles(db: Db, op: ColOp)
    ensures Settled(ApplyOp(db, op), op)
  {
  }

  /** After a prefix of compatible operations each operation of it is settled. */
  lemma {:induction false} PrefixIsSettled(db: Db, ops: seq<ColOp>, k: nat, i: nat)
    requires AllCompatible(ops) && i < k <= |ops|
    ensures Settled(ApplyOps(db, ops[..k]), ops[i])
  {
    assert ops[..k][..k - 1] == ops[..k - 1];
    if i == k - 1 {
      ApplySettles(ApplyOps(db, ops[..i]), ops[i]);
    } else {
      PrefixIsSettled(db, ops, k - 1, i);
      SettledStays(ApplyOps(db, ops[..k - 1]), ops[i], ops[k - 1]);
    }
  }

  lemma {:induction false} SettledOpsAreNoop(db: Db, ops: seq<ColOp>)
    requires DbOk(db) && forall i :: 0 <= i < |ops| ==> Settled(db, ops[i])
    ensures ApplyOps(db, ops) == db
  {
    if ops != [] {
      SettledOpsAreNoop(db, ops[..|ops| - 1]);
      SettledIsNoop(db, ops[|ops| - 1]);
    }
  }

  /** Running the first j operations over a database where the first k already
      ran is running the first max(j, k) of them. */
  lemma RestartAt(db: Db, ops: seq<ColOp>, k: nat, j: nat)
    requires DbOk(db) && AllCompatible(ops) && k <= |ops| && j <= |ops|
    ensures ApplyOps(ApplyOps(db, ops[..k]), ops[..j]) == ApplyOps(db, ops[..if j < k then k else j])
  {
    var there := ApplyOps(db, ops[..k]);
    ApplyOpsKeepsOk(db, ops[..k]);
    var m := if j < k then j else k;
    forall i | 0 <= i < m
      ensures Settled(there, ops[..m][i])
    {
      PrefixIsSettled(db, ops, k, i);
    }
    SettledOpsAreNoop(there, ops[..m]);
    if k < j {
      assert ops[..j] == ops[..k] + ops[k..j];
      ApplyOpsConcat(there, ops[..k], ops[k..j]);
      ApplyOpsConcat(db, ops[..k], ops[k..j]);
    }
  }

  ghost predicate AddsOnly(ops: seq<ColOp>) {
    forall i :: 0 <= i < |ops| ==> ops[i].AddOp?
  }

  // ---- Original data ------------------------------------------------------

  /** to extends from: no table appears or goes, the old columns come first in
      their order, and every old cell of every row is what it was. */
  ghost predicate Extends(from: Db, to: Db) {
    && from.Keys == to.Keys
    && forall n :: n in from ==> TableExtends(from[n], to[n])
  }

  /** The same with tables added. */
  ghost predicate Preserves(from: Db, to: Db) {
    && from.Keys <= to.Keys
    && forall n :: n in from ==> TableExtends(from[n], to[n])
  }

  lemma PreservesOn(a: Db, b: Db, c: Db)
    requires Preserves(a, b) && Preserves(b, c)
    ensures Preserves(a, c)
  {
  }

  ghost predicate TableExtends(from: Table, to: Table) {
    && from.columns <= to.columns
    && |from.rows| == |to.rows|
    && forall r, c :: 0 <= r < |from.rows| && c in from.rows[r] ==>
         c in to.rows[r] && to.rows[r][c] == from.rows[r][c]
  }

  /** A list of column adds keeps every original cell, row and column. */
  lemma {:induction false} AddsKeepData(db: Db, ops: seq<ColOp>)
    requires DbOk(db) && AddsOnly(ops)
    ensures Extends(db, ApplyOps(db, ops))
  {
    if ops != [] {
      var before := ops[..|ops| - 1];
      AddsKeepData(db, before);
      ApplyOpsKeepsOk(db, before);
      AddKeepsData(db, ApplyOps(db, before), ops[|ops| - 1]);
    }
  }

  lemma AddKeepsData(db: Db, mid: Db, op: ColOp)
    requires DbOk(mid) && Extends(db, mid) && op.AddOp?
    ensures Extends(db, ApplyOp(mid, op))
  {
  }
}
