/** The linked-list registry and the SQLite registry side by side: when a call
    leaves both with the same agents, when it answers the same, and what a run
    of calls keeps. */
module BackendAgreement {
  import opened Status
  import opened AgentTable
  import opened Registry
  import opened SqlRegistry

  type Agents = map<string, AgentRecord>

  datatype Call =
    | Add(record: AgentRecord)
    | Get(id: string)
    | Update(record: AgentRecord)
    | Delete(id: string)
    | Batch(records: seq<AgentRecord>)

  datatype Answer = Answer(status: Status, found: Option<AgentRecord>)

  datatype Outcome = Outcome(agents: Agents, status: Status, found: Option<AgentRecord>)

  const IdOf: AgentRecord -> string := (r: AgentRecord) => r.id

  // ---- One call on each backend ---------------------------------------------

  /** How many records of a batch the list takes before the first it refuses. */
  function Accepted(m: Agents, records: seq<AgentRecord>): (n: nat)
    ensures n <= |records|
  {
    if records == [] then 0
    else
      var last := |records| - 1;
      var n := Accepted(m, records[..last]);
      if n == last && AddStatus(IdOf, true, AddAll(IdOf, m, records[..last]), records[last]) == Success
      then last + 1
      else n
  }

  lemma AddedPrefix(m: Agents, records: seq<AgentRecord>, cut: nat, n: nat)
    requires n <= cut <= |records|
    ensures AllAdded(IdOf, m, records[..cut], n) <==> AllAdded(IdOf, m, records, n)
  {
    hide AddAll, AddStatus;
    assert forall i :: 0 <= i < n ==> records[..cut][..i] == records[..i] && records[..cut][i] == records[i];
  }

  lemma {:induction false} AcceptedIs(m: Agents, records: seq<AgentRecord>, n: nat)
    requires n <= |records| && AllAdded(IdOf, m, records, n)
    requires n < |records| ==> Refused(m, records, n)
    ensures Accepted(m, records) == n
    decreases |records|
  {
    if records != [] {
      var last := |records| - 1;
      var k := if n <= last then n else last;
      AddedPrefix(m, records, last, k);
      assert records[..last][..k] == records[..k];
      AcceptedIs(m, records[..last], k);
      hide AddAll, AddStatus;
    }
  }

  function ListStep(m: Agents, call: Call): Outcome {
    match call
    case Add(r) =>
      var status := AddStatus(IdOf, true, m, r);
      Outcome(if status == Success then m[r.id := r] else m, status, None)
    case Get(id) => Lookup(m, id)
    case Update(r) =>
      if r.id == "" then Outcome(m, InvalidParam, None)
      else if r.id in m then Outcome(m[r.id := r], Success, None)
      else Outcome(m, NotFound, None)
    case Delete(id) =>
      if id in m then Outcome(m - {id}, Success, None) else Outcome(m, NotFound, None)
    case Batch(records) =>
      if records == [] then Outcome(m, InvalidParam, None)
      else
        var n := Accepted(m, records);
        var after := AddAll(IdOf, m, records[..n]);
        Outcome(after, if n == |records| then Success else AddStatus(IdOf, true, after, records[n]), None)
  }

  function SqlStep(m: Agents, call: Call): Outcome {
    match call
    case Add(r) =>
      if r.id == "" then Outcome(m, InvalidParam, None)
      else if r.id in m then Outcome(m, DbQueryFailed, None)
      else Outcome(m[r.id := r], Success, None)
    case Get(id) => Lookup(m, id)
    case Update(r) =>
      if r.id == "" then Outcome(m, InvalidParam, None)
      else if r.id in m then Outcome(m[r.id := r.(createdAt := m[r.id].createdAt)], Success, None)
      else Outcome(m, Success, None)
    case Delete(id) => Outcome(m - {id}, Success, None)
    case Batch(records) =>
      if records == [] then Outcome(m, InvalidParam, None)
      else
        match InsertAll(m, records)
        case None => Outcome(m, DbQueryFailed, None)
        case Some(after) => Outcome(after, Success, None)
  }

  function Lookup(m: Agents, id: string): Outcome {
    if id in m then Outcome(m, Success, Some(m[id])) else Outcome(m, NotFound, None)
  }

  // ---- The classes take these steps -------------------------------------------

  predicate ValidCall(call: Call) {
    match call
    case Add(r) => IsRecord(r)
    case Get(_) => true
    case Update(r) => IsRecord(r)
    case Delete(_) => true
    case Batch(records) => forall i :: 0 <= i < |records| ==> IsRecord(records[i])
  }

  /** The most allocations a call needs. */
  function CallSize(call: Call): nat {
    if call.Batch? then |call.records| else 0
  }

  ghost predicate RanOut(call: Call, memory: nat -> bool) {
    exists i :: 0 <= i <= CallSize(call) && !memory(i)
  }

  method OnList(list: Domain<AgentRecord>, call: Call, memory: nat -> bool)
    returns (status: Status, found: Option<AgentRecord>)
    requires list.Valid() && list.initialized && list.idOf == IdOf
    modifies list, list.spine
    ensures list.Valid() && list.initialized
    ensures forall i :: 0 <= i < |list.spine| ==> list.spine[i] in old(list.spine) || fresh(list.spine[i])
    ensures status != OutOfMemory ==> Outcome(list.Model(), status, found) == ListStep(old(list.Model()), call)
    ensures status == OutOfMemory && !call.Batch? ==> list.Model() == old(list.Model())
    ensures status == OutOfMemory ==> RanOut(call, memory)
  {
    hide MapOf, DistinctIds, AllAdded, Accepted;
    found := None;
    match call
    case Add(r) =>
      status := list.Add(r, memory(0));
    case Get(id) =>
      var answer := list.Get(id);
      status := if answer.Ok? then Success else answer.error;
      found := if answer.Ok? then Some(answer.value) else None;
    case Update(r) =>
      status := list.Update(r);
    case Delete(id) =>
      ghost var k, spine := 0, list.spine;
      status, k := list.Delete(id);
      if status == Success {
        Remains(spine, k);
      }
    case Batch(records) =>
      var n;
      status, n := list.Batch(records, memory);
      if status != OutOfMemory {
        AcceptedIs(old(list.Model()), records, n);
      }
  }

  method OnSql(sql: Connection, call: Call) returns (status: Status, found: Option<AgentRecord>, ghost fault: bool)
    requires sql.Valid() && sql.initialized && ValidCall(call)
    modifies sql`rows, sql`atBegin, sql`calls
    ensures sql.Valid()
    ensures fault ==> status == DbQueryFailed
    ensures old(sql.calls) <= sql.calls && (fault ==> sql.Failed(old(sql.calls)))
    ensures !fault && old(sql.atBegin).None? ==>
      sql.atBegin == None && Outcome(sql.Model(), status, found) == SqlStep(old(sql.Model()), call)
    ensures fault && sql.atBegin.None? ==> sql.Model() == old(sql.Model())
    ensures sql.atBegin != old(sql.atBegin) ==> call.Batch? && old(sql.atBegin).None?
  {
    hide TableOk, Records, InsertAll;
    found := None;
    match call
    case Add(r) =>
      status, fault := sql.AddAgent(r);
    case Get(id) =>
      var answer;
      answer, fault := sql.GetAgent(id);
      status := if answer.Ok? then Success else answer.error;
      found := if answer.Ok? then Some(answer.value) else None;
    case Update(r) =>
      status, fault := sql.UpdateAgent(r);
    case Delete(id) =>
      status, fault := sql.DeleteAgent(id);
    case Batch(records) =>
      status, fault := sql.BatchInsertAgents(records);
  }

  // ---- When they agree ----------------------------------------------------------

  /** A batch the list takes whole. */
  predicate AllWelcome(m: Agents, records: seq<AgentRecord>) {
    AllNew(m, records) && forall i :: 0 <= i < |records| ==> records[i].id != ""
  }

  /** A batch whose very first record the list refuses. */
  predicate FirstRefused(m: Agents, records: seq<AgentRecord>) {
    records != [] && (records[0].id == "" || records[0].id in m)
  }

  /** The calls after which both backends hold the same agents. */
  predicate SameEffect(m: Agents, call: Call) {
    match call
    case Add(_) => true
    case Get(_) => true
    case Update(r) => r.id != "" && r.id in m ==> r.createdAt == m[r.id].createdAt
    case Delete(_) => true
    case Batch(records) =>
      AllWelcome(m, records) || (FirstRefused(m, records) && !AllNew(m, records))
  }

  /** The calls that moreover answer the same. */
  predicate SameAnswer(m: Agents, call: Call) {
    match call
    case Add(r) => r.id == "" || r.id !in m
    case Get(_) => true
    case Update(r) => r.id == "" || r.id in m
    case Delete(id) => id in m
    case Batch(records) => AllWelcome(m, records)
  }

  /** SameEffect is exact.  The list never holds an empty id. */
  lemma EffectsAgreeIff(m: Agents, call: Call)
    requires "" !in m
    ensures ListStep(m, call).agents == SqlStep(m, call).agents <==> SameEffect(m, call)
  {
    match call
    case Update(r) =>
      if r.id != "" && r.id in m {
        assert ListStep(m, call).agents[r.id] == r;
        assert r.createdAt == m[r.id].createdAt ==> r.(createdAt := m[r.id].createdAt) == r;
      }
    case Batch(records) =>
      BatchEffects(m, records);
      BatchGuards(m, records);
    case Delete(id) => assert id !in m ==> m - {id} == m;
    case _ =>
  }

  /** With the same effect, the answers are the same exactly when SameAnswer holds. */
  lemma AnswersAgreeIff(m: Agents, call: Call)
    requires "" !in m && SameEffect(m, call)
    ensures ListStep(m, call) == SqlStep(m, call) <==> SameAnswer(m, call)
  {
    EffectsAgreeIff(m, call);
    if call.Batch? {
      BatchEffects(m, call.records);
      BatchGuards(m, call.records);
    }
  }

  /** How far each backend gets with a batch, in terms of its ids. */
  lemma BatchGuards(m: Agents, records: seq<AgentRecord>)
    requires "" !in m
    ensures Accepted(m, records) == |records| <==> AllWelcome(m, records)
    ensures records != [] ==> (Accepted(m, records) == 0 <==> FirstRefused(m, records))
    ensures InsertAll(m, records).Some? <==> AllNew(m, records)
  {
    WholeBatchIff(m, records);
    BatchAccepts(m, records);
    AcceptedSpec(m, records);
    if records != [] {
      assert records[..0] == [];
      var n := Accepted(m, records);
      assert n > 0 ==> AddStatus(IdOf, true, AddAll(IdOf, m, records[..0]), records[0]) == Success;
    }
  }

  /** A list batch is all or nothing exactly when the list refuses the first of
      the records or none of them. */
  lemma ListBatchAllOrNothingIff(m: Agents, records: seq<AgentRecord>)
    requires "" !in m && records != []
    ensures var after := ListStep(m, Batch(records));
      after.agents == m || after.status == Success <==> FirstRefused(m, records) || AllWelcome(m, records)
  {
    BatchEffects(m, records);
    BatchGuards(m, records);
    AcceptedSpec(m, records);
  }

  lemma BatchEffects(m: Agents, records: seq<AgentRecord>)
    requires "" !in m
    ensures var n := Accepted(m, records);
      var added := AddAll(IdOf, m, records[..n]);
      && (added == m <==> n == 0)
      && (n == |records| ==> InsertAll(m, records) == Some(added))
      && (n < |records| && InsertAll(m, records).Some? ==> added != InsertAll(m, records).value)
  {
    var n := Accepted(m, records);
    AcceptedSpec(m, records);
    AcceptedPrefix(m, records, n);
    BatchAccepts(m, records[..n]);
    assert records[..|records|] == records;
    if n > 0 {
      assert records[..n][0].id !in m;
    }
    if n < |records| && InsertAll(m, records).Some? {
      InsertsAreNew(m, records, n);
    }
  }

  /** The record at n is one the list refuses after the first n. */
  ghost predicate Refused(m: Agents, records: seq<AgentRecord>, n: nat)
    requires n < |records|
  {
    AddStatus(IdOf, true, AddAll(IdOf, m, records[..n]), records[n]) != Success
  }

  lemma {:induction false} AcceptedSpec(m: Agents, records: seq<AgentRecord>)
    ensures var n := Accepted(m, records);
      AllAdded(IdOf, m, records, n) && (n < |records| ==> Refused(m, records, n))
  {
    if records != [] {
      var last := |records| - 1;
      var init := records[..last];
      var n := Accepted(m, init);
      AcceptedSpec(m, init);
      AddedPrefix(m, records, last, n);
      assert init[..n] == records[..n];
      if n < last {
        assert Refused(m, init, n) && init[n] == records[n];
      } else if !Refused(m, records, last) {
        OneMoreAdded(m, records, last);
      }
    }
  }

  lemma OneMoreAdded(m: Agents, records: seq<AgentRecord>, n: nat)
    requires n < |records| && AllAdded(IdOf, m, records, n) && !Refused(m, records, n)
    ensures AllAdded(IdOf, m, records, n + 1)
  {
  }

  /** What the list takes one by one, the transaction takes as a whole. */
  lemma {:induction false} AcceptedPrefix(m: Agents, records: seq<AgentRecord>, n: nat)
    requires n <= |records| && AllAdded(IdOf, m, records, n)
    ensures InsertAll(m, records[..n]) == Some(AddAll(IdOf, m, records[..n]))
  {
    if n > 0 {
      assert !Refused(m, records, n - 1);
      assert AllAdded(IdOf, m, records, n - 1);
      hide AllAdded;
      AcceptedPrefix(m, records, n - 1);
      assert records[..n][..n - 1] == records[..n - 1];
    }
  }

  lemma InsertsAreNew(m: Agents, records: seq<AgentRecord>, n: nat)
    requires n < |records| && InsertAll(m, records).Some? && InsertAll(m, records[..n]).Some?
    ensures records[n].id in InsertAll(m, records).value && records[n].id !in InsertAll(m, records[..n]).value
  {
    BatchAccepts(m, records);
    BatchAccepts(m, records[..n]);
    assert forall i :: 0 <= i < n ==> records[..n][i] == records[i];
    assert !Holds(records[..n], records[n].id);
  }

  /** A batch of new, distinct, non-empty ids does the same on both, and those are
      the batches the list takes whole. */
  lemma WholeBatchIff(m: Agents, records: seq<AgentRecord>)
    requires "" !in m
    ensures Accepted(m, records) == |records| <==> AllWelcome(m, records)
  {
    var n := Accepted(m, records);
    AcceptedSpec(m, records);
    AcceptedPrefix(m, records, n);
    BatchAccepts(m, records[..n]);
    assert records[..|records|] == records;
    if n < |records| && AllNew(m, records) {
      assert !Holds(records[..n], records[n].id);
    }
  }

  /** A row that fails in the middle: the transaction leaves nothing of the
      batch, the list keeps exactly the records before that row. */
  lemma FailedRow(m: Agents, records: seq<AgentRecord>, k: nat)
    requires k < |records| && AllAdded(IdOf, m, records, k)
    requires records[k].id in AddAll(IdOf, m, records[..k])
    ensures SqlStep(m, Batch(records)) == Outcome(m, DbQueryFailed, None)
    ensures ListStep(m, Batch(records)).agents == AddAll(IdOf, m, records[..k])
  {
    AcceptedPrefix(m, records, k);
    assert records[..k + 1][..k] == records[..k];
    InsertStaysRefused(m, records, k + 1);
    AcceptedIs(m, records, k);
  }

  // ---- Runs ---------------------------------------------------------------------

  function ListRun(m: Agents, calls: seq<Call>): Agents {
    if calls == [] then m else ListStep(ListRun(m, calls[..|calls| - 1]), calls[|calls| - 1]).agents
  }

  function SqlRun(m: Agents, calls: seq<Call>): Agents {
    if calls == [] then m else SqlStep(SqlRun(m, calls[..|calls| - 1]), calls[|calls| - 1]).agents
  }

  /** Every call of the run has the same effect on both backends where it comes. */
  predicate AllSame(m: Agents, calls: seq<Call>) {
    calls == [] ||
    (AllSame(m, calls[..|calls| - 1]) && SameEffect(ListRun(m, calls[..|calls| - 1]), calls[|calls| - 1]))
  }

  /** Such a run leaves both backends with the same agents. */
  lemma {:induction false} RunsAgree(m: Agents, calls: seq<Call>)
    requires "" !in m
    ensures "" !in ListRun(m, calls)
    ensures AllSame(m, calls) ==> ListRun(m, calls) == SqlRun(m, calls)
  {
    if calls != [] {
      var n := |calls| - 1;
      RunsAgree(m, calls[..n]);
      ListKeepsIdsNamed(ListRun(m, calls[..n]), calls[n]);
      EffectsAgreeIff(ListRun(m, calls[..n]), calls[n]);
      hide ListStep, SqlStep, SameEffect;
    }
  }

  lemma ListKeepsIdsNamed(m: Agents, call: Call)
    requires "" !in m
    ensures "" !in ListStep(m, call).agents
  {
    if call.Batch? {
      AcceptedSpec(m, call.records);
      NoEmptyIdAdded(m, call.records, Accepted(m, call.records));
    }
  }

  lemma {:induction false} NoEmptyIdAdded(m: Agents, records: seq<AgentRecord>, n: nat)
    requires "" !in m && n <= |records| && AllAdded(IdOf, m, records, n)
    ensures "" !in AddAll(IdOf, m, records[..n])
  {
    if n > 0 {
      NoEmptyIdAdded(m, records, n - 1);
      assert records[..n][..n - 1] == records[..n - 1];
      assert AddStatus(IdOf, true, AddAll(IdOf, m, records[..n - 1]), records[n - 1]) == Success;
    }
  }

  /** The calls so far without those that failed for lack of memory or in the
      database. */
  function Passed(calls: seq<Call>, failed: seq<bool>): seq<Call>
    requires |failed| <= |calls|
  {
    if failed == [] then []
    else
      var n := |failed| - 1;
      Passed(calls, failed[..n]) + if failed[n] then [] else [calls[n]]
  }

  predicate NoBatchFailed(calls: seq<Call>, failed: seq<bool>)
    requires |failed| <= |calls|
  {
    forall i :: 0 <= i < |failed| && failed[i] ==> !calls[i].Batch?
  }

  /** A failed call answers so; the others answer as the steps of the list, each
      after those that passed before it. */
  ghost predicate ListAnswers(m: Agents, calls: seq<Call>, failed: seq<bool>, answers: seq<Answer>) {
    |answers| == |failed| <= |calls| &&
    forall i :: 0 <= i < |answers| && !failed[i] ==>
      Gives(ListStep(ListRun(m, Passed(calls, failed[..i])), calls[i]), answers[i])
  }

  /** The same for the SQL table. */
  ghost predicate SqlAnswers(m: Agents, calls: seq<Call>, failed: seq<bool>, answers: seq<Answer>) {
    |answers| == |failed| <= |calls| &&
    forall i :: 0 <= i < |answers| && !failed[i] ==>
      Gives(SqlStep(SqlRun(m, Passed(calls, failed[..i])), calls[i]), answers[i])
  }

  ghost predicate Gives(outcome: Outcome, answer: Answer) {
    outcome.status == answer.status && outcome.found == answer.found
  }

  /** The list after the calls so far, unless a batch ran out of memory half way. */
  ghost predicate ListOnCourse(list: Agents, m: Agents, calls: seq<Call>, failed: seq<bool>, answers: seq<Answer>) {
    && |answers| == |failed| <= |calls|
    && (forall i :: 0 <= i < |failed| ==> (failed[i] <==> answers[i].status == OutOfMemory))
    && (NoBatchFailed(calls, failed) ==>
          list == ListRun(m, Passed(calls, failed)) && ListAnswers(m, calls, failed, answers))
  }

  /** The table after the calls so far, unless a batch left its transaction open. */
  ghost predicate SqlOnCourse(sql: Agents, stuck: bool, m: Agents, calls: seq<Call>, failed: seq<bool>,
                              answers: seq<Answer>)
  {
    && |answers| == |failed| <= |calls|
    && (forall i :: 0 <= i < |failed| ==> failed[i] ==> answers[i].status == DbQueryFailed)
    && (stuck ==> !NoBatchFailed(calls, failed))
    && (!stuck ==> sql == SqlRun(m, Passed(calls, failed)) && SqlAnswers(m, calls, failed, answers))
  }

  lemma OneMorePassed(calls: seq<Call>, failed: seq<bool>, more: bool)
    requires |failed| < |calls|
    ensures Passed(calls, failed + [more]) == Passed(calls, failed) + if more then [] else [calls[|failed|]]
  {
    assert (failed + [more])[..|failed|] == failed;
  }

  lemma NoMoreBatchFailed(calls: seq<Call>, failed: seq<bool>, more: bool)
    requires |failed| < |calls|
    ensures NoBatchFailed(calls, failed + [more]) <==>
            NoBatchFailed(calls, failed) && (more ==> !calls[|failed|].Batch?)
  {
  }

  lemma ListRunGoesOn(m: Agents, calls: seq<Call>, failed: seq<bool>, more: bool)
    requires |failed| < |calls|
    ensures ListRun(m, Passed(calls, failed + [more])) ==
            var before := ListRun(m, Passed(calls, failed));
            if more then before else ListStep(before, calls[|failed|]).agents
  {
    hide ListStep, Passed;
    OneMorePassed(calls, failed, more);
    var passed := Passed(calls, failed);
    assert (passed + [calls[|failed|]])[..|passed|] == passed && passed + [] == passed;
  }

  lemma SqlRunGoesOn(m: Agents, calls: seq<Call>, failed: seq<bool>, more: bool)
    requires |failed| < |calls|
    ensures SqlRun(m, Passed(calls, failed + [more])) ==
            var before := SqlRun(m, Passed(calls, failed));
            if more then before else SqlStep(before, calls[|failed|]).agents
  {
    hide SqlStep, Passed;
    OneMorePassed(calls, failed, more);
    var passed := Passed(calls, failed);
    assert (passed + [calls[|failed|]])[..|passed|] == passed && passed + [] == passed;
  }

  lemma ListAnswersGoOn(m: Agents, calls: seq<Call>, failed: seq<bool>, answers: seq<Answer>, more: bool,
                        answer: Answer)
    requires |failed| < |calls| && ListAnswers(m, calls, failed, answers)
    requires !more ==> Gives(ListStep(ListRun(m, Passed(calls, failed)), calls[|failed|]), answer)
    ensures ListAnswers(m, calls, failed + [more], answers + [answer])
  {
    hide ListStep, ListRun, Passed, Gives;
    forall i | 0 <= i <= |failed|
      ensures (failed + [more])[..i] == failed[..i]
    {
    }
    assert failed[..|failed|] == failed;
  }

  lemma SqlAnswersGoOn(m: Agents, calls: seq<Call>, failed: seq<bool>, answers: seq<Answer>, more: bool,
                       answer: Answer)
    requires |failed| < |calls| && SqlAnswers(m, calls, failed, answers)
    requires !more ==> Gives(SqlStep(SqlRun(m, Passed(calls, failed)), calls[|failed|]), answer)
    ensures SqlAnswers(m, calls, failed + [more], answers + [answer])
  {
    hide SqlStep, SqlRun, Passed, Gives;
    forall i | 0 <= i <= |failed|
      ensures (failed + [more])[..i] == failed[..i]
    {
    }
    assert failed[..|failed|] == failed;
  }

  lemma ListGoesOn(before: Agents, after: Agents, m: Agents, calls: seq<Call>, failed: seq<bool>,
                   answers: seq<Answer>, answer: Answer)
    requires |answers| < |calls| && ListOnCourse(before, m, calls, failed, answers)
    requires answer.status != OutOfMemory ==>
      Outcome(after, answer.status, answer.found) == ListStep(before, calls[|answers|])
    requires answer.status == OutOfMemory && !calls[|answers|].Batch? ==> after == before
    ensures ListOnCourse(after, m, calls, failed + [answer.status == OutOfMemory], answers + [answer])
  {
    hide ListStep, ListRun, ListAnswers, Passed, NoBatchFailed;
    var more := answer.status == OutOfMemory;
    NoMoreBatchFailed(calls, failed, more);
    ListRunGoesOn(m, calls, failed, more);
    if NoBatchFailed(calls, failed) {
      ListAnswersGoOn(m, calls, failed, answers, more, answer);
    }
  }

  lemma SqlGoesOn(before: Agents, stuckBefore: bool, after: Agents, stuck: bool, m: Agents, calls: seq<Call>,
                  failed: seq<bool>, answers: seq<Answer>, answer: Answer, fault: bool)
    requires |answers| < |calls| && SqlOnCourse(before, stuckBefore, m, calls, failed, answers)
    requires fault ==> answer.status == DbQueryFailed
    requires stuckBefore ==> stuck
    requires stuck && !stuckBefore ==> fault && calls[|answers|].Batch?
    requires !stuckBefore && !fault ==>
      Outcome(after, answer.status, answer.found) == SqlStep(before, calls[|answers|])
    requires fault && !stuck ==> after == before
    ensures SqlOnCourse(after, stuck, m, calls, failed + [fault], answers + [answer])
  {
    hide SqlStep, SqlRun, SqlAnswers, Passed, NoBatchFailed;
    NoMoreBatchFailed(calls, failed, fault);
    SqlRunGoesOn(m, calls, failed, fault);
    if !stuck {
      SqlAnswersGoOn(m, calls, failed, answers, fault, answer);
    }
  }

  method OnBoth(list: Domain<AgentRecord>, sql: Connection, call: Call, memory: nat -> bool)
    returns (a: Answer, b: Answer, ghost fault: bool)
    requires list.Valid() && list.initialized && list.idOf == IdOf
    requires sql.Valid() && sql.initialized && ValidCall(call)
    modifies list, list.spine, sql`rows, sql`atBegin, sql`calls
    ensures list.Valid() && list.initialized && sql.Valid()
    ensures forall i :: 0 <= i < |list.spine| ==> list.spine[i] in old(list.spine) || fresh(list.spine[i])
    ensures a.status != OutOfMemory ==> Outcome(list.Model(), a.status, a.found) == ListStep(old(list.Model()), call)
    ensures a.status == OutOfMemory && !call.Batch? ==> list.Model() == old(list.Model())
    ensures a.status == OutOfMemory ==> RanOut(call, memory)
    ensures fault ==> b.status == DbQueryFailed
    ensures old(sql.calls) <= sql.calls && (fault ==> sql.Failed(old(sql.calls)))
    ensures !fault && old(sql.atBegin).None? ==>
      sql.atBegin == None && Outcome(sql.Model(), b.status, b.found) == SqlStep(old(sql.Model()), call)
    ensures fault && sql.atBegin.None? ==> sql.Model() == old(sql.Model())
    ensures sql.atBegin != old(sql.atBegin) ==> call.Batch? && old(sql.atBegin).None?
  {
    hide ListStep, SqlStep, RanOut, MapOf, DistinctIds, TableOk, Records;
    var status, found := OnList(list, call, memory);
    a := Answer(status, found);
    status, found, fault := OnSql(sql, call);
    b := Answer(status, found);
  }

  /** Both backends driven through the same calls, with memory and the database
      failing anywhere.  A failed call that is no batch changes nothing: the list
      goes through the steps of the calls that passed and gives their answers, and
      so does the table while no failed batch has left its transaction open.  When
      nothing fails, a run of calls of the same effect leaves both with the same
      agents. */
  method RunBoth(list: Domain<AgentRecord>, sql: Connection, calls: seq<Call>, memory: nat -> nat -> bool)
    returns (byList: seq<Answer>, bySql: seq<Answer>, ghost noMemory: seq<bool>, ghost faults: seq<bool>)
    requires list.Valid() && list.initialized && list.idOf == IdOf
    requires sql.Valid() && sql.initialized && sql.atBegin == None
    requires list.Model() == sql.Model()
    requires forall i :: 0 <= i < |calls| ==> ValidCall(calls[i])
    modifies list, list.spine, sql`rows, sql`atBegin, sql`calls
    ensures list.Valid() && sql.Valid()
    ensures |byList| == |bySql| == |noMemory| == |faults| == |calls|
    ensures forall i :: 0 <= i < |calls| ==> (noMemory[i] <==> byList[i].status == OutOfMemory)
    ensures forall i :: 0 <= i < |calls| && noMemory[i] ==> RanOut(calls[i], memory(i))
    ensures forall i :: 0 <= i < |calls| && faults[i] ==>
      bySql[i].status == DbQueryFailed && sql.Failed(old(sql.calls))
    ensures NoBatchFailed(calls, noMemory) ==>
      && list.Model() == ListRun(old(list.Model()), Passed(calls, noMemory))
      && ListAnswers(old(list.Model()), calls, noMemory, byList)
    ensures sql.atBegin != None ==> !NoBatchFailed(calls, faults)
    ensures sql.atBegin == None ==>
      && sql.Model() == SqlRun(old(sql.Model()), Passed(calls, faults))
      && SqlAnswers(old(sql.Model()), calls, faults, bySql)
    ensures (forall i :: 0 <= i < |calls| ==> !noMemory[i] && !faults[i]) && AllSame(old(list.Model()), calls) ==>
      list.Model() == sql.Model()
  {
    byList, bySql, noMemory, faults := [], [], [], [];
    ghost var m := list.Model();
    NoEmptyId(list);
    var i := 0;
    hide ListStep, SqlStep, SameEffect, AllSame, ListOnCourse, SqlOnCourse, ListRun, SqlRun, Passed, NoBatchFailed,
      ListAnswers, SqlAnswers, MapOf, DistinctIds, TableOk, Records,
      RanOut, RanOutWhere, AnyFault;
    StartOfCourse(m, calls, memory);
    while i < |calls|
      invariant i == |byList| == |bySql| <= |calls| && list.Valid() && list.initialized && sql.Valid()
      invariant forall i :: 0 <= i < |list.spine| ==> list.spine[i] in old(list.spine) || fresh(list.spine[i])
      invariant ListOnCourse(list.Model(), m, calls, noMemory, byList)
      invariant |noMemory| == i && RanOutWhere(calls, memory, noMemory)
      invariant old(sql.calls) <= sql.calls
      invariant |faults| == i && (AnyFault(faults) ==> sql.Failed(old(sql.calls)))
      invariant SqlOnCourse(sql.Model(), sql.atBegin != None, m, calls, faults, bySql)
    {
      ghost var listBefore, sqlBefore, stuck := list.Model(), sql.Model(), sql.atBegin != None;
      var a, b, fault := OnBoth(list, sql, calls[i], memory(i));
      ListGoesOn(listBefore, list.Model(), m, calls, noMemory, byList, a);
      OneMoreRanOut(calls, memory, noMemory, a.status == OutOfMemory);
      SqlGoesOn(sqlBefore, stuck, sql.Model(), sql.atBegin != None, m, calls, faults, bySql, b, fault);
      OneMoreFault(faults, fault);
      byList, noMemory := byList + [a], noMemory + [a.status == OutOfMemory];
      bySql, faults := bySql + [b], faults + [fault];
      i := i + 1;
    }
    WhoFailed(calls, memory, noMemory, faults);
    EndOfCourse(list.Model(), sql.Model(), sql.atBegin != None, m, calls, noMemory, faults, byList, bySql);
  }

  /** Memory ran out in each call that says so. */
  ghost predicate RanOutWhere(calls: seq<Call>, memory: nat -> nat -> bool, noMemory: seq<bool>) {
    |noMemory| <= |calls| && forall k :: 0 <= k < |noMemory| && noMemory[k] ==> RanOut(calls[k], memory(k))
  }

  ghost predicate AnyFault(faults: seq<bool>) {
    exists k :: 0 <= k < |faults| && faults[k]
  }

  lemma OneMoreRanOut(calls: seq<Call>, memory: nat -> nat -> bool, noMemory: seq<bool>, more: bool)
    requires RanOutWhere(calls, memory, noMemory) && |noMemory| < |calls|
    requires more ==> RanOut(calls[|noMemory|], memory(|noMemory|))
    ensures RanOutWhere(calls, memory, noMemory + [more])
  {
  }

  lemma OneMoreFault(faults: seq<bool>, fault: bool)
    ensures AnyFault(faults + [fault]) <==> AnyFault(faults) || fault
  {
    var after := faults + [fault];
    assert after[|faults|] == fault;
    if k :| 0 <= k < |faults| && faults[k] {
      assert after[k];
    }
  }

  lemma WhoFailed(calls: seq<Call>, memory: nat -> nat -> bool, noMemory: seq<bool>, faults: seq<bool>)
    requires RanOutWhere(calls, memory, noMemory)
    ensures forall i :: 0 <= i < |noMemory| && noMemory[i] ==> RanOut(calls[i], memory(i))
    ensures forall i :: 0 <= i < |faults| && faults[i] ==> AnyFault(faults)
  {
  }

  lemma StartOfCourse(m: Agents, calls: seq<Call>, memory: nat -> nat -> bool)
    ensures ListOnCourse(m, m, calls, [], []) && SqlOnCourse(m, false, m, calls, [], [])
    ensures RanOutWhere(calls, memory, []) && !AnyFault([])
  {
  }

  lemma EndOfCourse(list: Agents, sql: Agents, stuck: bool, m: Agents, calls: seq<Call>, noMemory: seq<bool>,
                    faults: seq<bool>, byList: seq<Answer>, bySql: seq<Answer>)
    requires |byList| == |bySql| == |calls| && "" !in m
    requires ListOnCourse(list, m, calls, noMemory, byList) && SqlOnCourse(sql, stuck, m, calls, faults, bySql)
    ensures |noMemory| == |faults| == |calls|
    ensures forall i :: 0 <= i < |calls| ==> (noMemory[i] <==> byList[i].status == OutOfMemory)
    ensures forall i :: 0 <= i < |calls| && faults[i] ==> bySql[i].status == DbQueryFailed
    ensures NoBatchFailed(calls, noMemory) ==>
      list == ListRun(m, Passed(calls, noMemory)) && ListAnswers(m, calls, noMemory, byList)
    ensures stuck ==> !NoBatchFailed(calls, faults)
    ensures !stuck ==> sql == SqlRun(m, Passed(calls, faults)) && SqlAnswers(m, calls, faults, bySql)
    ensures (forall i :: 0 <= i < |calls| ==> !noMemory[i] && !faults[i]) && AllSame(m, calls) ==> list == sql
  {
    hide ListAnswers, SqlAnswers, AllSame, ListRun, SqlRun, Passed;
    RunsAgree(m, calls);
    if forall i :: 0 <= i < |calls| ==> !noMemory[i] && !faults[i] {
      AllPassed(calls, noMemory);
      AllPassed(calls, faults);
    }
  }

  lemma {:induction false} AllPassed(calls: seq<Call>, failed: seq<bool>)
    requires |failed| <= |calls| && forall i :: 0 <= i < |failed| ==> !failed[i]
    ensures NoBatchFailed(calls, failed) && Passed(calls, failed) == calls[..|failed|]
    ensures |failed| == |calls| ==> Passed(calls, failed) == calls
  {
    if failed != [] {
      var n := |failed| - 1;
      AllPassed(calls, failed[..n]);
      assert calls[..n + 1] == calls[..n] + [calls[n]];
    }
  }

  lemma NoEmptyId(list: Domain<AgentRecord>)
    requires list.Valid()
    ensures "" !in list.Model()
  {
    MapOfLookup(list.idOf, list.contents);
  }
}
