/** The agents table of the SQLite registry: records bound to statement
    parameters by position, stored as rows, and read back column by column. */
module AgentTable {
  import opened Widths
  import opened Cells
  import opened Status

  datatype AgentRecord = AgentRecord(
    id: string, name: string, kind: string, version: string, status: string, configPath: string,
    createdAt: nat, updatedAt: nat, priority: int, tags: string)

  const ZERO: AgentRecord := AgentRecord("", "", "", "", "", "", 0, 0, 0, "")

  predicate IsText(s: string, size: nat) {
    |s| < size && '\0' !in s
  }

  /** What the C structure can hold: fixed-size strings, two uint64_t, one int. */
  predicate IsRecord(r: AgentRecord) {
    && IsText(r.id, 128) && IsText(r.name, 256) && IsText(r.kind, 64) && IsText(r.version, 32)
    && IsText(r.status, 32) && IsText(r.configPath, 512) && IsText(r.tags, 256)
    && r.createdAt < TWO_64 && r.updatedAt < TWO_64
    && -0x8000_0000 <= r.priority < 0x8000_0000
  }

  // ---- Statements -----------------------------------------------------------

  /** One cell for each column of the schema. */
  datatype Row = Row(id: Cell, name: Cell, kind: Cell, version: Cell, status: Cell, configPath: Cell,
                     createdAt: Cell, updatedAt: Cell, priority: Cell, tags: Cell)

  /** Rows by primary key. */
  type Table = map<string, Row>

  function ToInt64(u: nat): int {
    if u < TWO_63 then u else u - TWO_64
  }

  function ToUint64(i: int): nat {
    i % TWO_64
  }

  function BindAgent(r: AgentRecord): seq<Cell> {
    [ Text(r.id), Text(r.name), Text(r.kind), Text(r.version), Text(r.status), Text(r.configPath),
      Integer(ToInt64(r.createdAt)), Integer(ToInt64(r.updatedAt)), Integer(r.priority), Text(r.tags) ]
  }

  function BindUpdate(r: AgentRecord): seq<Cell> {
    [ Text(r.name), Text(r.kind), Text(r.version), Text(r.status), Text(r.configPath),
      Integer(ToInt64(r.updatedAt)), Integer(r.priority), Text(r.tags), Text(r.id) ]
  }

  function BindId(id: string): seq<Cell> {
    [ Text(id) ]
  }

  datatype Statement = InsertRow | UpdateRow | DeleteRow

  predicate Binds(statement: Statement, params: seq<Cell>) {
    match statement
    case InsertRow => |params| == 10 && params[0].Text?
    case UpdateRow => |params| == 9 && params[8].Text?
    case DeleteRow => |params| == 1 && params[0].Text?
  }

  function NewRow(params: seq<Cell>): Row
    requires |params| == 10
  {
    Row(params[0], params[1], params[2], params[3], params[4],
        params[5], params[6], params[7], params[8], params[9])
  }

  /** The rows after a statement; None when it violates the primary key. */
  function Effect(statement: Statement, params: seq<Cell>, rows: Table): Option<Table>
    requires Binds(statement, params)
  {
    match statement
    case InsertRow =>
      if params[0].text in rows then None
      else
        Some(rows[params[0].text := NewRow(params)])
    case UpdateRow =>
      var id := params[8].text;
      if id !in rows then Some(rows)
      else
        Some(rows[id := rows[id].(name := params[0], kind := params[1], version := params[2],
                                  status := params[3], configPath := params[4],
                                  updatedAt := params[5], priority := params[6], tags := params[7])])
    case DeleteRow =>
      Some(rows - {params[0].text})
  }

  /** The selected columns, in the order of the SELECT. */
  function Selected(row: Row): seq<Cell> {
    [ row.id, row.name, row.kind, row.version, row.status, row.configPath,
      row.createdAt, row.updatedAt, row.priority, row.tags ]
  }

  /** copy_text_col: at most size - 1 characters; NULL keeps the zeroed default. */
  function CopyTextCol(cell: Cell, size: nat): string
    requires size > 0
  {
    if !cell.Text? then ""
    else if |cell.text| < size then cell.text
    else cell.text[..size - 1]
  }

  function ColumnInt(cell: Cell): int {
    if cell.Integer? then cell.value else 0
  }

  function ExtractAgent(columns: seq<Cell>): AgentRecord
    requires |columns| == 10
  {
    ZERO.(id := CopyTextCol(columns[0], 128), name := CopyTextCol(columns[1], 256),
          kind := CopyTextCol(columns[2], 64), version := CopyTextCol(columns[3], 32),
          status := CopyTextCol(columns[4], 32), configPath := CopyTextCol(columns[5], 512),
          createdAt := ToUint64(ColumnInt(columns[6])), updatedAt := ToUint64(ColumnInt(columns[7])),
          priority := ColumnInt(columns[8]), tags := CopyTextCol(columns[9], 256))
  }

  // ---- Rows as records --------------------------------------------------------

  function RecordOf(row: Row): AgentRecord {
    ExtractAgent(Selected(row))
  }

  /** The row came from a record that can be read back whole. */
  ghost predicate RowOk(id: string, row: Row) {
    && IsRecord(RecordOf(row)) && RecordOf(row).id == id
    && Selected(row) == BindAgent(RecordOf(row))
  }

  ghost predicate TableOk(rows: Table) {
    forall id :: id in rows ==> RowOk(id, rows[id])
  }

  /** The map of records a table stands for, seen through SELECT and extraction. */
  function Records(rows: Table): map<string, AgentRecord> {
    map id | id in rows :: RecordOf(rows[id])
  }

  /** A column that is too long for its field is cut to what fits, and one that does
      not hold what is expected reads as empty or 0. */
  lemma ColumnsRead(cell: Cell, size: nat)
    requires size > 0
    ensures var text := CopyTextCol(cell, size);
      && |text| < size && (!cell.Text? ==> text == "")
      && (cell.Text? ==> text <= cell.text && (text == cell.text || |text| == size - 1))
    ensures !cell.Integer? ==> ColumnInt(cell) == 0
    ensures cell.Integer? ==> ColumnInt(cell) == cell.value
  {
  }

  /** A record that was bound is selected and extracted as it was. */
  lemma ReadBack(r: AgentRecord)
    requires IsRecord(r)
    ensures RecordOf(NewRow(BindAgent(r))) == r && RowOk(r.id, NewRow(BindAgent(r)))
  {
  }

  lemma PutRow(rows: Table, id: string, row: Row)
    requires TableOk(rows) && RowOk(id, row)
    ensures TableOk(rows[id := row]) && Records(rows[id := row]) == Records(rows)[id := RecordOf(row)]
  {
  }

  lemma InsertAddsOne(r: AgentRecord, rows: Table)
    requires IsRecord(r) && TableOk(rows)
    ensures r.id in rows <==> r.id in Records(rows)
    ensures var after := Effect(InsertRow, BindAgent(r), rows);
      if r.id in rows then after.None?
      else after.Some? && TableOk(after.value) && Records(after.value) == Records(rows)[r.id := r]
  {
    if r.id !in rows {
      ReadBack(r);
      PutRow(rows, r.id, NewRow(BindAgent(r)));
    }
  }

  /** An update replaces every field except created_at, and inserts nothing. */
  lemma UpdateKeepsCreation(r: AgentRecord, rows: Table)
    requires IsRecord(r) && TableOk(rows)
    ensures r.id in rows <==> r.id in Records(rows)
    ensures var after := Effect(UpdateRow, BindUpdate(r), rows);
      after.Some? && TableOk(after.value) &&
      Records(after.value) ==
        if r.id in rows then Records(rows)[r.id := r.(createdAt := Records(rows)[r.id].createdAt)]
        else Records(rows)
  {
    var after := Effect(UpdateRow, BindUpdate(r), rows).value;
    if r.id in rows {
      var updated := r.(createdAt := Records(rows)[r.id].createdAt);
      assert Selected(rows[r.id])[6] == BindAgent(RecordOf(rows[r.id]))[6];
      assert Selected(after[r.id]) == BindAgent(updated);
      assert RecordOf(after[r.id]) == updated;
      PutRow(rows, r.id, after[r.id]);
    }
  }

  lemma DeleteRemovesOne(id: string, rows: Table)
    requires TableOk(rows)
    ensures var after := Effect(DeleteRow, BindId(id), rows);
      after.Some? && TableOk(after.value) && Records(after.value) == Records(rows) - {id}
  {
    hide RowOk, RecordOf;
    var after := Effect(DeleteRow, BindId(id), rows).value;
    assert forall k :: k in after ==> k in rows && after[k] == rows[k];
  }
}
