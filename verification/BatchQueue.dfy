/** The batch context as one thread uses it: a list of pending records, appended
    at the tail, handed to the registry in order by a commit. */
module BatchQueue {
  import opened Status
  import opened Registry

  const MAX_ITEMS: nat := 1024

  class Item<R> {
    var session: R
    var next: Item?<R>

    constructor (session: R)
      ensures this.session == session && next == null
    {
      this.session, next := session, null;
    }
  }

  class BatchContext<R> {
    const capacity: nat
    var head: Item?<R>
    var tail: Item?<R>
    var count: nat
    ghost var queue: seq<Item<R>>
    ghost var pending: seq<R>     // the records not yet committed, oldest first

    ghost predicate Valid()
      reads this, queue
    {
      && 1 <= capacity <= MAX_ITEMS && count <= capacity
      && IsList(head, queue, pending) && count == |queue|
      && tail == if queue == [] then null else queue[|queue| - 1]
    }

    /** heapstore_batch_begin, once memory is there. */
    constructor (batchSize: nat)
      ensures Valid() && pending == [] && fresh(this)
      ensures capacity == if 0 < batchSize <= MAX_ITEMS then batchSize else MAX_ITEMS
    {
      capacity := if 0 < batchSize <= MAX_ITEMS then batchSize else MAX_ITEMS;
      head, tail, count, queue, pending := null, null, 0, [], [];
    }

    /** batch_item_new: null when the context is full or memory runs out. */
    method NewItem(session: R, memory: bool) returns (item: Item?<R>)
      requires Valid()
      ensures item != null <==> count < capacity && memory
      ensures item != null ==> fresh(item) && item.session == session && item.next == null
    {
      if count >= capacity || !memory {
        return null;
      }
      item := new Item(session);
    }

    /** batch_append_item */
    method AppendItem(item: Item<R>) returns (status: Status)
      requires Valid() && item !in queue && item.next == null
      modifies this`head, this`tail, this`count, this`queue, this`pending, tail
      ensures Valid()
      ensures status == if old(count) < capacity then Success else OutOfMemory
      ensures status == Success ==> pending == old(pending) + [item.session] && queue == old(queue) + [item]
      ensures status != Success ==> pending == old(pending) && queue == old(queue)
    {
      if count >= capacity {
        return OutOfMemory;
      }
      ghost var was := queue;
      if tail != null {
        tail.next := item;
        tail := item;
      } else {
        head, tail := item, item;
      }
      queue := queue + [item];
      pending := pending + [item.session];
      count := count + 1;
      forall i | 0 <= i < |queue|
        ensures queue[i].next == ItemAfter(queue, i)
      {
        assert i < |was| - 1 ==> was[i].next == ItemAfter(was, i);
      }
      return Success;
    }

    /** A record is refused only when the context is full or memory runs out. */
    method AddSession(record: R, memory: bool) returns (status: Status)
      requires Valid()
      modifies this`head, this`tail, this`count, this`queue, this`pending, tail
      ensures Valid()
      ensures status == if old(count) < capacity && memory then Success else OutOfMemory
      ensures pending == if status == Success then old(pending) + [record] else old(pending)
      ensures forall i :: 0 <= i < |queue| ==> queue[i] in old(queue) || fresh(queue[i])
    {
      var item := NewItem(record, memory);
      if item == null {
        return OutOfMemory;
      }
      status := AppendItem(item);
    }

    /** batch_discard: empties the context and frees each item once. */
    method Discard() returns (ghost freed: seq<Item<R>>)
      requires Valid()
      modifies this`head, this`tail, this`count, this`queue, this`pending
      ensures Valid() && pending == [] && count == 0
      ensures freed == old(queue) && forall i, j :: 0 <= i < j < |freed| ==> freed[i] != freed[j]
    {
      var item := head;
      freed := [];
      ghost var detached := queue;
      head, tail, count, queue, pending := null, null, 0, [], [];
      while item != null
        invariant |freed| <= |detached| && freed == detached[..|freed|]
        invariant item == (if |freed| < |detached| then detached[|freed|] else null)
        decreases |detached| - |freed|
      {
        assert detached[|freed|].next == ItemAfter(detached, |freed|);
        var next := item.next;
        freed := freed + [item];
        item := next;
      }
    }

    /** The whole list is taken first; then every record goes to the registry, in
        order, whatever became of the one before it.  The first error is
        returned. */
    method Commit(registry: Domain<R>, memory: nat -> bool) returns (status: Status, ghost answers: seq<Status>)
      requires Valid() && registry.Valid()
      modifies this`head, this`tail, this`count, this`queue, this`pending, registry
      ensures Valid() && registry.Valid() && pending == [] && count == 0
      ensures |answers| == |old(pending)| && status == FirstError(answers)
      ensures Answered(registry.idOf, registry.initialized, old(registry.Model()), old(pending), answers, memory)
      ensures registry.Model() == Committed(registry.idOf, old(registry.Model()), old(pending), answers)
    {
      var item, detached, records := Detach();
      status, answers := Drain(item, registry, detached, records, memory);
    }

    /** The locked part: the list is taken off whole and the count set to zero. */
    method Detach() returns (item: Item?<R>, ghost detached: seq<Item<R>>, ghost records: seq<R>)
      requires Valid()
      modifies this`head, this`tail, this`count, this`queue, this`pending
      ensures Valid() && pending == [] && count == 0
      ensures detached == old(queue) && records == old(pending) && IsList(item, detached, records)
    {
      item, detached, records := head, queue, pending;
      head, tail, count, queue, pending := null, null, 0, [], [];
    }
  }

  /** The drain loop: each record goes to the registry, whatever became of the
      one before. */
  method Drain<R>(first: Item?<R>, registry: Domain<R>, ghost detached: seq<Item<R>>, ghost records: seq<R>,
                  memory: nat -> bool)
    returns (status: Status, ghost answers: seq<Status>)
    requires registry.Valid() && ListFrom(first, detached, records, 0)
    modifies registry
    ensures registry.Valid() && registry.initialized == old(registry.initialized)
    ensures |answers| == |records| && status == FirstError(answers)
    ensures Answered(registry.idOf, registry.initialized, old(registry.Model()), records, answers, memory)
    ensures registry.Model() == Committed(registry.idOf, old(registry.Model()), records, answers)
  {
    status, answers := Success, [];
    var item := first;
    ghost var m, ready := registry.Model(), registry.initialized;
    EmptyCommit(registry.idOf, ready, m, records, memory);
    var n := 0;
    hide MapOf, SoFar, DistinctIds;
    while item != null
      invariant registry.Valid() && registry.initialized == ready
      invariant |answers| <= |records| && ListFrom(item, detached, records, |answers|)
      invariant SoFar(registry.idOf, ready, m, records, answers, status, registry.Model(), memory) && n == |answers|
      decreases |records| - |answers|
    {
      var next := item.next;
      ghost var before := registry.Model();
      var err := registry.Add(item.session, memory(n));
      OneMoreAnswer(registry.idOf, ready, m, records, answers, status, before, err, memory);
      if err != Success && status == Success {
        status := err;
      }
      item := next;
      answers, n := answers + [err], n + 1;
    }
    AllAnswered(registry.idOf, ready, m, records, answers, status, registry.Model(), memory);
  }

  ghost function ItemAfter<R>(queue: seq<Item<R>>, i: nat): Item?<R> {
    if i + 1 < |queue| then queue[i + 1] else null
  }

  /** A list of distinct items from head to null that holds the records. */
  ghost predicate IsList<R>(head: Item?<R>, queue: seq<Item<R>>, records: seq<R>)
    reads queue
  {
    && (forall i, j :: 0 <= i < j < |queue| ==> queue[i] != queue[j])
    && ListFrom(head, queue, records, 0)
  }

  ghost predicate ListFrom<R>(item: Item?<R>, queue: seq<Item<R>>, records: seq<R>, k: nat)
    reads queue
  {
    && |records| == |queue|
    && item == (if k < |queue| then queue[k] else null)
    && (forall i {:trigger queue[i].next} :: 0 <= i < |queue| ==> queue[i].next == ItemAfter(queue, i))
    && (forall i {:trigger queue[i].session} :: 0 <= i < |queue| ==> queue[i].session == records[i])
  }

  // ---- What a commit means -----------------------------------------------------

  /** The registry after the records, given the answer to each. */
  function Committed<R>(idOf: R -> string, m: map<string, R>, records: seq<R>, answers: seq<Status>): map<string, R>
    requires |records| == |answers|
  {
    if records == [] then m
    else
      var n := |records| - 1;
      var before := Committed(idOf, m, records[..n], answers[..n]);
      if answers[n] == Success then before[idOf(records[n]) := records[n]] else before
  }

  /** Each answer is the one the registry gives to the record at that point. */
  ghost predicate Answered<R>(idOf: R -> string, ready: bool, m: map<string, R>, records: seq<R>, answers: seq<Status>,
                              memory: nat -> bool)
    ensures Answered(idOf, ready, m, records, answers, memory) ==> |records| == |answers|
  {
    |records| == |answers| &&
    (records == [] ||
     var n := |records| - 1;
     && Answered(idOf, ready, m, records[..n], answers[..n], memory)
     && answers[n] == AddAnswer(idOf, ready, Committed(idOf, m, records[..n], answers[..n]), records[n], memory(n)))
  }

  function FirstError(answers: seq<Status>): Status {
    if answers == [] then Success
    else if FirstError(answers[..|answers| - 1]) != Success then FirstError(answers[..|answers| - 1])
    else answers[|answers| - 1]
  }

  /** A commit after the first answers: what the registry and the result are. */
  ghost predicate SoFar<R>(idOf: R -> string, ready: bool, m: map<string, R>, records: seq<R>,
                           answers: seq<Status>, status: Status, now: map<string, R>, memory: nat -> bool)
  {
    && |answers| <= |records|
    && Answered(idOf, ready, m, records[..|answers|], answers, memory)
    && now == Committed(idOf, m, records[..|answers|], answers)
    && status == FirstError(answers)
  }

  lemma EmptyCommit<R>(idOf: R -> string, ready: bool, m: map<string, R>, records: seq<R>,
                       memory: nat -> bool)
    ensures SoFar(idOf, ready, m, records, [], Success, m, memory)
  {
  }

  lemma AllAnswered<R>(idOf: R -> string, ready: bool, m: map<string, R>, records: seq<R>,
                       answers: seq<Status>, status: Status, now: map<string, R>, memory: nat -> bool)
    requires SoFar(idOf, ready, m, records, answers, status, now, memory) && |answers| == |records|
    ensures Answered(idOf, ready, m, records, answers, memory) && now == Committed(idOf, m, records, answers)
    ensures status == FirstError(answers)
  {
    assert records[..|records|] == records;
  }

  lemma OneMoreAnswer<R>(idOf: R -> string, ready: bool, m: map<string, R>, records: seq<R>,
                         answers: seq<Status>, status: Status, now: map<string, R>, answer: Status,
                         memory: nat -> bool)
    requires SoFar(idOf, ready, m, records, answers, status, now, memory) && |answers| < |records|
    requires answer == AddAnswer(idOf, ready, now, records[|answers|], memory(|answers|))
    ensures var record := records[|answers|];
      SoFar(idOf, ready, m, records, answers + [answer], if status != Success then status else answer,
            if answer == Success then now[idOf(record) := record] else now, memory)
  {
    hide AddAnswer;
    var n := |answers|;
    assert records[..n + 1][..n] == records[..n] && (answers + [answer])[..n] == answers;
  }

  /** Success means that every answer was success. */
  lemma {:induction false} SuccessMeansAll(answers: seq<Status>)
    ensures FirstError(answers) == Success <==> forall i :: 0 <= i < |answers| ==> answers[i] == Success
  {
    if answers != [] {
      SuccessMeansAll(answers[..|answers| - 1]);
      assert forall i :: 0 <= i < |answers| - 1 ==> answers[..|answers| - 1][i] == answers[i];
    }
  }

  /** While memory lasts a commit is decided by the records alone: an id gets the
      first record that carries it, unless the registry already knows it. */
  lemma {:induction false} FirstWins<R>(idOf: R -> string, m: map<string, R>, records: seq<R>,
                                        answers: seq<Status>, memory: nat -> bool, id: string)
    requires Answered(idOf, true, m, records, answers, memory) && OutOfMemory !in answers
    ensures var after := Committed(idOf, m, records, answers);
      && (id in after <==> id in m || (id != "" && FirstWith(idOf, records, id).Some?))
      && (id in m ==> after[id] == m[id])
      && (id in after && id !in m ==> Some(after[id]) == FirstWith(idOf, records, id))
  {
    if records != [] {
      var n := |records| - 1;
      assert OutOfMemory !in answers[..n] && answers[n] in answers;
      FirstWins(idOf, m, records[..n], answers[..n], memory, id);
    }
  }

  function FirstWith<R>(idOf: R -> string, records: seq<R>, id: string): Option<R> {
    if records == [] then None
    else
      var n := |records| - 1;
      var earlier := FirstWith(idOf, records[..n], id);
      if earlier.Some? then earlier
      else if idOf(records[n]) == id then Some(records[n])
      else None
  }
}
