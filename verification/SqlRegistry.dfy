/** The SQLite registry backend: one connection, single statements, and batches
    inside a transaction. */
module SqlRegistry {
  import opened Cells
  import opened Status
  import opened AgentTable

  /** The map after inserting the records in order; None when one of them meets
      its own primary key. */
  function InsertAll(m: map<string, AgentRecord>, records: seq<AgentRecord>): Option<map<string, AgentRecord>> {
    if records == [] then Some(m)
    else
      var last := records[|records| - 1];
      match InsertAll(m, records[..|records| - 1])
      case None => None
      case Some(before) => if last.id in before then None else Some(before[last.id := last])
  }

  /** `rows` is what the connection sees; `atBegin` is what a ROLLBACK returns to
      while a transaction is open. */
  class Connection {
    const works: nat -> bool       // whether the nth call of SQLite goes well
    var calls: nat
    var initialized: bool
    var rows: Table
    var atBegin: Option<Table>

    ghost predicate Valid()
      reads this
    {
      TableOk(rows) && (atBegin.Some? ==> TableOk(atBegin.value))
    }

    ghost function Model(): map<string, AgentRecord>
      reads this
    {
      Records(rows)
    }

    /** One of the calls since then failed. */
    ghost predicate Failed(since: nat)
      reads this
    {
      exists i :: since <= i < calls && !works(i)
    }

    constructor (rows: Table, works: nat -> bool)
      requires TableOk(rows)
      ensures Valid() && initialized && this.rows == rows && atBegin == None && this.works == works && calls == 0
    {
      initialized, this.rows, atBegin, this.works, calls := true, rows, None, works, 0;
    }

    /** A call of SQLite. */
    method Ask() returns (ok: bool)
      modifies this`calls
      ensures calls == old(calls) + 1 && (ok <==> works(old(calls)))
      ensures ok || Failed(old(calls))
    {
      ok := works(calls);
      calls := calls + 1;
      assert !ok ==> !works(calls - 1);
    }

    /** session_begin; `fault` stands for a failure of the database that has
        nothing to do with the statement. */
    method SessionBegin() returns (status: Status, ghost fault: bool)
      modifies this`calls
      ensures !initialized ==> status == NotInitialized && !fault
      ensures initialized ==> status == if fault then DbQueryFailed else Success
      ensures old(calls) <= calls && (fault ==> Failed(old(calls)))
    {
      if !initialized {
        return NotInitialized, false;
      }
      var prepared := Ask();
      return if prepared then Success else DbQueryFailed, !prepared;
    }

    /** sqlite3_step on a statement that changes the table. */
    method Step(statement: Statement, params: seq<Cell>) returns (done: bool, ghost fault: bool)
      requires Binds(statement, params)
      modifies this`rows, this`calls
      ensures done <==> !fault && Effect(statement, params, old(rows)).Some?
      ensures old(calls) <= calls && (fault ==> Failed(old(calls)))
      ensures rows == if done then Effect(statement, params, old(rows)).value else old(rows)
    {
      done := Ask();
      fault := !done;
      match Effect(statement, params, rows)
      case None => done := false;
      case Some(after) =>
        if done {
          rows := after;
        }
    }

    /** sql_exec_locked */
    method SqlExecLocked(statement: Statement, params: seq<Cell>) returns (status: Status, ghost fault: bool)
      requires Binds(statement, params)
      modifies this`rows, this`calls
      ensures fault ==> status == DbQueryFailed
      ensures old(calls) <= calls && (fault ==> Failed(old(calls)))
      ensures status == if !initialized then NotInitialized
                        else if fault || Effect(statement, params, old(rows)).None? then DbQueryFailed
                        else Success
      ensures rows == if status == Success then Effect(statement, params, old(rows)).value else old(rows)
    {
      status, fault := SessionBegin();
      if status != Success {
        return;
      }
      var done;
      done, fault := Step(statement, params);
      status := if done then Success else DbQueryFailed;
    }

    method AddAgent(record: AgentRecord) returns (status: Status, ghost fault: bool)
      requires Valid() && IsRecord(record)
      modifies this`rows, this`calls
      ensures fault ==> status == DbQueryFailed
      ensures old(calls) <= calls && (fault ==> Failed(old(calls)))
      ensures Valid()
      ensures status == if record.id == "" then InvalidParam
                        else if !initialized then NotInitialized
                        else if fault || record.id in old(Model()) then DbQueryFailed
                        else Success
      ensures Model() == if status == Success then old(Model())[record.id := record] else old(Model())
    {
      hide Effect, RowOk, RecordOf, Records, IsRecord, IsText, TableOk;
      InsertAddsOne(record, rows);
      if record.id == "" {
        return InvalidParam, false;
      }
      status, fault := SqlExecLocked(InsertRow, BindAgent(record));
    }

    /** registry_query_one */
    method GetAgent(id: string) returns (r: Result<AgentRecord>, ghost fault: bool)
      requires Valid()
      modifies this`calls
      ensures fault ==> r == Err(DbQueryFailed)
      ensures old(calls) <= calls && (fault ==> Failed(old(calls)))
      ensures !initialized ==> r == Err(NotInitialized)
      ensures initialized ==> r == if fault then Err(DbQueryFailed)
                                   else if id in Model() then Ok(Model()[id]) else Err(NotFound)
    {
      var status;
      status, fault := SessionBegin();
      if status != Success {
        return Err(status), fault;
      }
      var stepped := Ask();
      if !stepped {
        return Err(DbQueryFailed), true;
      }
      if id !in rows {
        return Err(NotFound), false;
      }
      return Ok(ExtractAgent(Selected(rows[id]))), false;
    }

    method UpdateAgent(record: AgentRecord) returns (status: Status, ghost fault: bool)
      requires Valid() && IsRecord(record)
      modifies this`rows, this`calls
      ensures fault ==> status == DbQueryFailed
      ensures old(calls) <= calls && (fault ==> Failed(old(calls)))
      ensures Valid()
      ensures status == if record.id == "" then InvalidParam
                        else if !initialized then NotInitialized
                        else if fault then DbQueryFailed
                        else Success
      ensures Model() ==
        if status == Success && record.id in old(Model())
        then old(Model())[record.id := record.(createdAt := old(Model())[record.id].createdAt)]
        else old(Model())
    {
      fault := false;
      if record.id == "" {
        return InvalidParam, false;
      }
      UpdateKeepsCreation(record, rows);
      hide Effect, RowOk, RecordOf, Records, IsRecord, TableOk;
      status, fault := SqlExecLocked(UpdateRow, BindUpdate(record));
    }

    method DeleteAgent(id: string) returns (status: Status, ghost fault: bool)
      requires Valid()
      modifies this`rows, this`calls
      ensures fault ==> status == DbQueryFailed
      ensures old(calls) <= calls && (fault ==> Failed(old(calls)))
      ensures Valid()
      ensures status == if !initialized then NotInitialized else if fault then DbQueryFailed else Success
      ensures Model() == if status == Success then old(Model()) - {id} else old(Model())
    {
      hide Effect, RowOk, RecordOf, Records, IsRecord, IsText, TableOk;
      DeleteRemovesOne(id, rows);
      status, fault := SqlExecLocked(DeleteRow, BindId(id));
    }

    // ---- Transactions -------------------------------------------------------

    /** BEGIN fails inside an open transaction. */
    method Begin() returns (ok: bool, ghost fault: bool)
      modifies this`atBegin, this`calls
      ensures ok <==> !fault && old(atBegin).None?
      ensures old(calls) <= calls && (fault ==> Failed(old(calls)))
      ensures atBegin == if ok then Some(rows) else old(atBegin)
    {
      ok := Ask();
      fault := !ok;
      ok := ok && atBegin.None?;
      if ok {
        atBegin := Some(rows);
      }
    }

    /** The code does not look at the result of ROLLBACK; one that fails leaves the
        transaction open. */
    method Rollback() returns (ghost fault: bool)
      requires atBegin.Some?
      modifies this`rows, this`atBegin, this`calls
      ensures rows == if fault then old(rows) else old(atBegin).value
      ensures old(calls) <= calls && (fault ==> Failed(old(calls)))
      ensures atBegin == if fault then old(atBegin) else None
    {
      var ok := Ask();
      fault := !ok;
      if ok {
        rows, atBegin := atBegin.value, None;
      }
    }

    /** A COMMIT that fails leaves the transaction open. */
    method Commit() returns (ok: bool)
      modifies this`atBegin, this`calls
      ensures atBegin == if ok then None else old(atBegin)
      ensures old(calls) <= calls && (ok || Failed(old(calls)))
    {
      ok := Ask();
      if ok {
        atBegin := None;
      }
    }

    /** batch_exec_locked: all the records or none of them, except that a failed
        COMMIT or ROLLBACK leaves some pending in the transaction it does not close. */
    method BatchInsertAgents(records: seq<AgentRecord>) returns (status: Status, ghost fault: bool)
      requires Valid() && forall i :: 0 <= i < |records| ==> IsRecord(records[i])
      modifies this`rows, this`atBegin, this`calls
      ensures fault ==> status == DbQueryFailed
      ensures old(calls) <= calls && (fault ==> Failed(old(calls)))
      ensures Valid()
      ensures status == if records == [] then InvalidParam
                        else if !initialized then NotInitialized
                        else if !fault && old(atBegin).None? && InsertAll(old(Model()), records).Some? then Success
                        else DbQueryFailed
      ensures status == Success ==> Some(Model()) == InsertAll(old(Model()), records) && atBegin == None
      ensures status != Success && atBegin == old(atBegin) ==> rows == old(rows)
      ensures old(atBegin).Some? ==> atBegin == old(atBegin)
      ensures status != Success && atBegin != old(atBegin) ==>
        fault && atBegin == Some(old(rows)) && Pending(old(Model()), records, Model())
    {
      fault := false;
      if records == [] {
        return InvalidParam, false;
      }
      status, fault := SessionBegin();
      if status != Success {
        return;
      }
      var begun;
      begun, fault := Begin();
      if !begun {
        return DbQueryFailed, fault;
      }
      status, fault := InsertEach(records);
      if status == Success {
        var committed := Commit();
        if !committed {
          assert records[..|records|] == records;
          status, fault := DbQueryFailed, true;
        }
      }
    }

    /** The loop of batch_exec_locked, inside the transaction. */
    method InsertEach(records: seq<AgentRecord>) returns (status: Status, ghost fault: bool)
      requires Valid() && atBegin == Some(rows) && forall i :: 0 <= i < |records| ==> IsRecord(records[i])
      modifies this`rows, this`atBegin, this`calls
      ensures Valid() && (status == Success || status == DbQueryFailed)
      ensures status == Success <==> !fault && InsertAll(old(Model()), records).Some?
      ensures old(calls) <= calls && (fault ==> Failed(old(calls)))
      ensures status == Success ==>
        Some(Model()) == InsertAll(old(Model()), records) && atBegin == old(atBegin)
      ensures status != Success ==>
        (rows == old(rows) && atBegin == None) ||
        (fault && atBegin == old(atBegin) && Pending(old(Model()), records, Model()))
    {
      status, fault := Success, false;
      ghost var m := Model();
      hide Effect, RowOk, RecordOf, Records, IsRecord, TableOk;
      var i := 0;
      while i < |records| && status == Success
        invariant i <= |records| && Valid() && (status == Success || status == DbQueryFailed)
        invariant status == Success ==>
          !fault && Some(Model()) == InsertAll(m, records[..i]) && atBegin == Some(old(rows))
        invariant status != Success ==>
          (rows == old(rows) && atBegin == None) ||
          (fault && atBegin == Some(old(rows)) && Pending(m, records, Model()))
        invariant status != Success ==> fault || InsertAll(m, records).None?
        invariant old(calls) <= calls && (fault ==> Failed(old(calls)))
      {
        InsertAddsOne(records[i], rows);
        assert records[..i + 1][..i] == records[..i];
        var done;
        done, fault := Step(InsertRow, BindAgent(records[i]));
        if !done {
          status := DbQueryFailed;
          if !fault {
            InsertStaysRefused(m, records, i + 1);
          }
          ghost var stuck := Rollback();
          fault := fault || stuck;
        }
        i := i + 1;
      }
      assert records[..|records|] == records;
    }
  }

  /** Some of the records, from the first on, have gone in. */
  ghost predicate Pending(m: map<string, AgentRecord>, records: seq<AgentRecord>, after: map<string, AgentRecord>) {
    exists k :: 0 <= k <= |records| && Some(after) == InsertAll(m, records[..k])
  }

  lemma {:induction false} InsertStaysRefused(m: map<string, AgentRecord>, records: seq<AgentRecord>, n: nat)
    requires n <= |records| && InsertAll(m, records[..n]).None?
    ensures InsertAll(m, records).None?
    decreases |records|
  {
    if n < |records| {
      assert records[..|records| - 1][..n] == records[..n];
      InsertStaysRefused(m, records[..|records| - 1], n);
    } else {
      assert records[..n] == records;
    }
  }

  /** A batch is accepted exactly when all its ids are new and distinct; it then
      adds those records and changes nothing else. */
  lemma {:induction false} BatchAccepts(m: map<string, AgentRecord>, records: seq<AgentRecord>)
    ensures InsertAll(m, records).Some? <==> AllNew(m, records)
    ensures InsertAll(m, records).Some? ==> IsUnion(m, records, InsertAll(m, records).value)
  {
    if records != [] {
      var n := |records| - 1;
      var init, last := records[..n], records[n];
      BatchAccepts(m, init);
      assert records == init + [last];
      if InsertAll(m, init).Some? {
        OneMore(m, init, InsertAll(m, init).value, last);
      }
    }
  }

  predicate AllNew(m: map<string, AgentRecord>, records: seq<AgentRecord>) {
    && (forall i :: 0 <= i < |records| ==> records[i].id !in m)
    && (forall i, j :: 0 <= i < j < |records| ==> records[i].id != records[j].id)
  }

  ghost predicate Holds(records: seq<AgentRecord>, id: string) {
    exists i :: 0 <= i < |records| && records[i].id == id
  }

  /** `after` is m and the records together. */
  ghost predicate IsUnion(m: map<string, AgentRecord>, records: seq<AgentRecord>, after: map<string, AgentRecord>) {
    && (forall id :: id in after <==> id in m || Holds(records, id))
    && (forall id :: id in m ==> after[id] == m[id])
    && (forall i :: 0 <= i < |records| ==> after[records[i].id] == records[i])
  }

  lemma OneMore(m: map<string, AgentRecord>, init: seq<AgentRecord>, before: map<string, AgentRecord>,
                last: AgentRecord)
    requires AllNew(m, init) && IsUnion(m, init, before)
    ensures AllNew(m, init + [last]) <==> last.id !in before
    ensures last.id !in before ==> IsUnion(m, init + [last], before[last.id := last])
  {
    var records := init + [last];
    if last.id in before {
      if last.id !in m {
        var i :| 0 <= i < |init| && init[i].id == last.id;
        assert records[i].id == records[|init|].id;
      } else {
        assert records[|init|].id in m;
      }
    } else {
      forall id
        ensures Holds(records, id) <==> id == last.id || Holds(init, id)
      {
        HoldsOneMore(init, last, id);
      }
      assert forall i :: 0 <= i < |init| ==> Holds(init, records[i].id);
    }
  }

  lemma HoldsOneMore(init: seq<AgentRecord>, last: AgentRecord, id: string)
    ensures Holds(init + [last], id) <==> id == last.id || Holds(init, id)
  {
    var records := init + [last];
    assert records[|init|] == last;
    if Holds(init, id) {
      var i :| 0 <= i < |init| && init[i].id == id;
      assert records[i].id == id;
    }
  }
}
