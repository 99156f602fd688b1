/** The in-memory registry: per record kind a linked list of heap nodes, searched
    by id, which behaves as a map from id to record. */
module Registry {
  import opened Status

  class Node<R> {
    var data: R
    var next: Node?<R>

    constructor (data: R, next: Node?<R>)
      ensures this.data == data && this.next == next
    {
      this.data, this.next := data, next;
    }
  }

  class Iterator<R> {
    var current: Node?<R>

    constructor (start: Node?<R>)
      ensures current == start
    {
      current := start;
    }
  }

  // ---- Sequences of records as maps ---------------------------------------

  ghost predicate DistinctIds<R>(idOf: R -> string, records: seq<R>) {
    forall i, j :: 0 <= i < j < |records| ==> idOf(records[i]) != idOf(records[j])
  }

  function MapOf<R>(idOf: R -> string, records: seq<R>): map<string, R> {
    if records == [] then map[]
    else MapOf(idOf, records[1..])[idOf(records[0]) := records[0]]
  }

  lemma {:induction false} MapOfLookup<R>(idOf: R -> string, records: seq<R>)
    requires DistinctIds(idOf, records)
    ensures forall i :: 0 <= i < |records| ==>
      idOf(records[i]) in MapOf(idOf, records) && MapOf(idOf, records)[idOf(records[i])] == records[i]
    ensures forall id :: id in MapOf(idOf, records) ==>
      exists i :: 0 <= i < |records| && idOf(records[i]) == id
  {
    if records != [] {
      MapOfLookup(idOf, records[1..]);
      forall i | 0 <= i < |records|
        ensures idOf(records[i]) in MapOf(idOf, records)
        ensures MapOf(idOf, records)[idOf(records[i])] == records[i]
      {
        if i > 0 {
          assert records[1..][i - 1] == records[i];
        }
      }
      forall id | id in MapOf(idOf, records)
        ensures exists i :: 0 <= i < |records| && idOf(records[i]) == id
      {
        if id != idOf(records[0]) {
          var i :| 0 <= i < |records[1..]| && idOf(records[1..][i]) == id;
          assert records[i + 1] == records[1..][i];
        }
      }
    }
  }

  lemma AddedMap<R>(idOf: R -> string, records: seq<R>, r: R)
    ensures MapOf(idOf, [r] + records) == MapOf(idOf, records)[idOf(r) := r]
  {
  }

  lemma UpdatedMap<R>(idOf: R -> string, records: seq<R>, k: nat, r: R)
    requires DistinctIds(idOf, records) && k < |records| && idOf(records[k]) == idOf(r)
    ensures DistinctIds(idOf, records[k := r])
    ensures MapOf(idOf, records[k := r]) == MapOf(idOf, records)[idOf(r) := r]
  {
    var after := records[k := r];
    MapOfLookup(idOf, records);
    MapOfLookup(idOf, after);
    var m, m' := MapOf(idOf, records)[idOf(r) := r], MapOf(idOf, after);
    forall id | id in m
      ensures id in m' && m'[id] == m[id]
    {
      if id == idOf(r) {
        assert after[k] == r;
      } else {
        var i :| 0 <= i < |records| && idOf(records[i]) == id;
        assert after[i] == records[i];
      }
    }
    forall id | id in m'
      ensures id in m
    {
      var i :| 0 <= i < |after| && idOf(after[i]) == id;
      assert i != k ==> after[i] == records[i];
    }
  }

  lemma DistinctWithout<R>(idOf: R -> string, records: seq<R>, k: nat)
    requires DistinctIds(idOf, records) && k < |records|
    ensures DistinctIds(idOf, records[..k] + records[k + 1..])
  {
  }

  lemma {:induction false} DeletedMap<R>(idOf: R -> string, records: seq<R>, k: nat)
    requires DistinctIds(idOf, records) && k < |records|
    ensures MapOf(idOf, records[..k] + records[k + 1..]) == MapOf(idOf, records) - {idOf(records[k])}
  {
    if k == 0 {
      DeletedFirst(idOf, records);
    } else {
      DeletedMap(idOf, records[1..], k - 1);
      DeletedLater(idOf, records, k);
    }
  }

  lemma DeletedFirst<R>(idOf: R -> string, records: seq<R>)
    requires DistinctIds(idOf, records) && records != []
    ensures MapOf(idOf, records[..0] + records[1..]) == MapOf(idOf, records) - {idOf(records[0])}
  {
    var rest, first := records[1..], records[0];
    assert records == [first] + rest;
    assert records[..0] + rest == rest;
    AddedMap(idOf, rest, first);
    NotListed(idOf, rest, idOf(first));
    hide MapOf, DistinctIds;
    InsertThenRemove(MapOf(idOf, rest), idOf(first), first);
  }

  lemma {:induction false} NotListed<R>(idOf: R -> string, records: seq<R>, id: string)
    requires forall i :: 0 <= i < |records| ==> idOf(records[i]) != id
    ensures id !in MapOf(idOf, records)
  {
    if records != [] {
      NotListed(idOf, records[1..], id);
    }
  }

  lemma InsertThenRemove<K, V>(m: map<K, V>, k: K, v: V)
    requires k !in m
    ensures m[k := v] - {k} == m
  {
  }

  lemma DeletedLater<R>(idOf: R -> string, records: seq<R>, k: nat)
    requires 0 < k < |records| && idOf(records[0]) != idOf(records[k])
    requires MapOf(idOf, records[1..][..k - 1] + records[1..][k..])
             == MapOf(idOf, records[1..]) - {idOf(records[1..][k - 1])}
    ensures MapOf(idOf, records[..k] + records[k + 1..]) == MapOf(idOf, records) - {idOf(records[k])}
  {
    var rest, first := records[1..], records[0];
    var shorter := rest[..k - 1] + rest[k..];
    assert records == [first] + rest;
    assert records[..k] + records[k + 1..] == [first] + shorter;
    AddedMap(idOf, rest, first);
    AddedMap(idOf, shorter, first);
    hide MapOf;
    InsertThenDelete(MapOf(idOf, rest), idOf(first), first, idOf(records[k]));
  }

  lemma InsertThenDelete<K, V>(m: map<K, V>, added: K, v: V, deleted: K)
    requires added != deleted
    ensures (m - {deleted})[added := v] == m[added := v] - {deleted}
  {
  }

  lemma StillDistinct<T>(s: seq<T>, k: nat)
    requires k < |s| && forall i, j :: 0 <= i < j < |s| ==> s[i] != s[j]
    ensures var rest := s[..k] + s[k + 1..];
      && (forall i :: 0 <= i < |rest| ==> rest[i] == s[if i < k then i else i + 1])
      && (forall i, j :: 0 <= i < j < |rest| ==> rest[i] != rest[j])
  {
  }

  // ---- The list -----------------------------------------------------------

  ghost function NodeAt<R>(spine: seq<Node<R>>, i: nat): Node?<R> {
    if i < |spine| then spine[i] else null
  }

  datatype Event<R> = Adding(record: R, memory: bool) | Updating(record: R) | Deleting(id: string) | Advancing

  class Domain<R> {
    const idOf: R -> string
    var head: Node?<R>
    var count: nat
    var initialized: bool
    ghost var spine: seq<Node<R>>

    ghost var contents: seq<R>   // the records, newest first

    /** head leads along `spine`, a list without repetition that holds `contents`. */
    ghost predicate Linked()
      reads this, spine
    {
      && |contents| == |spine|
      && (forall i, j :: 0 <= i < j < |spine| ==> spine[i] != spine[j])
      && head == NodeAt(spine, 0)
      && (forall i {:trigger spine[i].next} :: 0 <= i < |spine| ==> spine[i].next == NodeAt(spine, i + 1))
      && (forall i {:trigger spine[i].data} :: 0 <= i < |spine| ==> spine[i].data == contents[i])
    }

    /** An acyclic list of distinct nodes with distinct non-empty ids. */
    ghost predicate Valid()
      reads this, spine
    {
      && Linked()
      && count == |spine|
      && (!initialized ==> spine == [])
      && DistinctIds(idOf, contents)
      && (forall i :: 0 <= i < |contents| ==> idOf(contents[i]) != "")
    }

    /** The map the list stands for. */
    ghost function Model(): map<string, R>
      reads this
    {
      MapOf(idOf, contents)
    }

    constructor (idOf: R -> string)
      ensures Valid() && initialized && contents == [] && this.idOf == idOf && fresh(this)
    {
      this.idOf := idOf;
      head, count, initialized, spine, contents := null, 0, true, [], [];
    }

    /** find_node_by_id */
    method FindNode(id: string) returns (node: Node?<R>, ghost k: nat)
      requires Valid()
      ensures node == null <==> id !in Model()
      ensures node != null ==> k < |spine| && spine[k] == node && idOf(node.data) == id && Model()[id] == node.data
    {
      MapOfLookup(idOf, contents);
      node, k := head, 0;
      while node != null
        invariant k <= |spine| && node == NodeAt(spine, k)
        invariant forall i :: 0 <= i < k ==> idOf(contents[i]) != id
        decreases |spine| - k
      {
        assert contents[k] == node.data;
        if idOf(node.data) == id {
          return;
        }
        node, k := node.next, k + 1;
      }
    }

    method Add(record: R, memory: bool) returns (status: Status)
      requires Valid()
      modifies this
      ensures Valid() && initialized == old(initialized)
      ensures status == AddAnswer(idOf, initialized, old(Model()), record, memory)
      ensures status == Success ==> Prepended(old(spine), old(contents), record) && fresh(spine[0])
      ensures status != Success ==> spine == old(spine) && contents == old(contents)
      ensures Model() == if status == Success then old(Model())[idOf(record) := record] else old(Model())
    {
      if idOf(record) == "" {
        return InvalidParam;
      }
      if !initialized {
        return NotInitialized;
      }
      var found, k := FindNode(idOf(record));
      if found != null {
        return AlreadyInitialized;
      }
      if !memory {
        return OutOfMemory;
      }
      Prepend(record);
      return Success;
    }

    ghost predicate Prepended(spine0: seq<Node<R>>, contents0: seq<R>, record: R)
      reads this
    {
      |spine| == |spine0| + 1 && spine[1..] == spine0 && contents == [record] + contents0
    }

    method Prepend(record: R)
      requires Valid() && initialized && idOf(record) != "" && idOf(record) !in Model()
      modifies this
      ensures Valid() && initialized && Prepended(old(spine), old(contents), record) && fresh(spine[0])
      ensures Model() == old(Model())[idOf(record) := record]
    {
      MapOfLookup(idOf, contents);
      AddedMap(idOf, contents, record);
      var node := new Node(record, head);
      ghost var was := spine;
      head := node;
      spine := [node] + spine;
      contents := [record] + contents;
      count := count + 1;
      assert forall i :: 0 < i < |spine| ==> spine[i] == was[i - 1];
    }

    method Get(id: string) returns (r: Result<R>)
      requires Valid()
      ensures !initialized ==> r == Err(NotInitialized)
      ensures initialized ==> r == if id in Model() then Ok(Model()[id]) else Err(NotFound)
    {
      if !initialized {
        return Err(NotInitialized);
      }
      var node, k := FindNode(id);
      if node == null {
        return Err(NotFound);
      }
      return Ok(node.data);
    }

    method Update(record: R) returns (status: Status)
      requires Valid()
      modifies this`contents, spine
      ensures Valid() && spine == old(spine)
      ensures idOf(record) == "" ==> status == InvalidParam
      ensures idOf(record) != "" && !initialized ==> status == NotInitialized
      ensures idOf(record) != "" && initialized ==> status == if idOf(record) in old(Model()) then Success else NotFound
      ensures Model() == if status == Success then old(Model())[idOf(record) := record] else old(Model())
      ensures forall i :: 0 <= i < |spine| ==> idOf(contents[i]) == idOf(old(contents)[i])
    {
      if idOf(record) == "" {
        return InvalidParam;
      }
      if !initialized {
        return NotInitialized;
      }
      var node, k := FindNode(idOf(record));
      if node == null {
        return NotFound;
      }
      UpdatedMap(idOf, contents, k, record);
      node.data := record;
      contents := contents[k := record];
      return Success;
    }

    /** The pointer-to-pointer walk: `before` is the node that holds the pointer,
        or null when that is the head pointer itself. */
    method Delete(id: string) returns (status: Status, ghost k: nat)
      requires Valid()
      modifies this, spine
      ensures Valid() && initialized == old(initialized)
      ensures !initialized ==> status == NotInitialized
      ensures initialized ==> status == if id in old(Model()) then Success else NotFound
      ensures status == Success ==>
        && k < |old(spine)| && idOf(old(contents)[k]) == id
        && spine == old(spine)[..k] + old(spine)[k + 1..]
        && contents == old(contents)[..k] + old(contents)[k + 1..]
        && Model() == old(Model()) - {id}
      ensures status != Success ==> spine == old(spine) && contents == old(contents)
    {
      k := 0;
      if !initialized {
        return NotInitialized, k;
      }
      MapOfLookup(idOf, contents);
      var before: Node?<R>, victim := null, head;
      while victim != null
        invariant k <= |spine| && victim == NodeAt(spine, k)
        invariant before == (if k == 0 then null else spine[k - 1])
        invariant forall i :: 0 <= i < k ==> idOf(contents[i]) != id
        decreases |spine| - k
      {
        assert contents[k] == victim.data;
        if idOf(victim.data) == id {
          Unlink(before, victim, k);
          return Success, k;
        }
        before, victim, k := victim, victim.next, k + 1;
      }
      return NotFound, k;
    }

    method Unlink(before: Node?<R>, victim: Node<R>, ghost k: nat)
      requires Valid() && initialized && k < |spine| && victim == spine[k]
      requires before == (if k == 0 then null else spine[k - 1])
      modifies this, spine
      ensures Valid() && initialized
      ensures spine == old(spine)[..k] + old(spine)[k + 1..]
      ensures contents == old(contents)[..k] + old(contents)[k + 1..]
      ensures Model() == old(Model()) - {idOf(old(contents)[k])}
    {
      DeletedMap(idOf, contents, k);
      DistinctWithout(idOf, contents, k);
      Splice(before, victim, k);
      count := count - 1;
    }

    /** *pp = victim->next */
    method Splice(before: Node?<R>, victim: Node<R>, ghost k: nat)
      requires Linked() && k < |spine| && victim == spine[k]
      requires before == (if k == 0 then null else spine[k - 1])
      modifies this`head, this`spine, this`contents, before
      ensures Linked()
      ensures spine == old(spine)[..k] + old(spine)[k + 1..]
      ensures contents == old(contents)[..k] + old(contents)[k + 1..]
    {
      ghost var was := spine;
      if before == null {
        head := victim.next;
      } else {
        before.next := victim.next;
      }
      spine := spine[..k] + spine[k + 1..];
      contents := contents[..k] + contents[k + 1..];
      StillDistinct(was, k);
      forall i | 0 <= i < |spine|
        ensures spine[i].next == NodeAt(spine, i + 1)
      {
        assert NodeAt(spine, i + 1) == NodeAt(was, if i + 1 < k then i + 1 else i + 2);
      }
    }

    /** reg_batch: stops at the first record that cannot be added and keeps the
        ones before it. */
    method Batch(records: seq<R>, memory: nat -> bool) returns (status: Status, added: nat)
      requires Valid()
      modifies this
      ensures Valid() && initialized == old(initialized) && added <= |records|
      ensures forall i :: 0 <= i < |spine| ==> spine[i] in old(spine) || fresh(spine[i])
      ensures records == [] ==> status == InvalidParam
      ensures records != [] && !initialized ==> status == NotInitialized && added == 0
      ensures status == Success <==> records != [] && initialized && added == |records|
      ensures Model() == AddAll(idOf, old(Model()), records[..added])
      ensures initialized ==> AllAdded(idOf, old(Model()), records, added)
      ensures initialized ==> forall i :: 0 <= i < added ==> memory(i)
      ensures initialized && added < |records| ==>
        status == AddAnswer(idOf, true, AddAll(idOf, old(Model()), records[..added]), records[added], memory(added))
    {
      added := 0;
      if records == [] {
        return InvalidParam, 0;
      }
      if !initialized {
        return NotInitialized, 0;
      }
      hide Linked, MapOf, DistinctIds, AddAll, AllAdded, AddAnswer;
      NothingAdded(idOf, Model(), records);
      while added < |records|
        invariant added <= |records| && Valid() && initialized
        invariant forall i :: 0 <= i < |spine| ==> spine[i] in old(spine) || fresh(spine[i])
        invariant Model() == AddAll(idOf, old(Model()), records[..added])
        invariant AllAdded(idOf, old(Model()), records, added)
        invariant forall i :: 0 <= i < added ==> memory(i)
      {
        status := Add(records[added], memory(added));
        if status != Success {
          return;
        }
        OneMoreIn(idOf, old(Model()), records, added, memory(added));
        added := added + 1;
      }
      return Success, added;
    }

    /** free_node_list and the reset of the domain; each node is freed once. */
    method Shutdown() returns (ghost freed: seq<Node<R>>)
      requires Valid()
      modifies this
      ensures Valid() && !initialized && contents == [] && Model() == map[]
      ensures freed == old(spine) && forall i, j :: 0 <= i < j < |freed| ==> freed[i] != freed[j]
    {
      var node := head;
      freed := [];
      while node != null
        invariant |freed| <= |spine| && freed == spine[..|freed|] && node == NodeAt(spine, |freed|)
        decreases |spine| - |freed|
      {
        var next := node.next;
        freed := freed + [node];
        node := next;
      }
      head, count, initialized, spine, contents := null, 0, false, [], [];
    }

    // ---- Iteration --------------------------------------------------------

    /** The iterator has the last k nodes of the list ahead of it. */
    ghost predicate Ahead(it: Iterator<R>, k: nat)
      reads this, it
    {
      k <= |spine| && it.current == NodeAt(spine, |spine| - k)
    }

    method Query(memory: bool) returns (status: Status, it: Iterator<R>)
      requires Valid()
      ensures fresh(it)
      ensures status == if !initialized then NotInitialized else if memory then Success else OutOfMemory
      ensures status == Success ==> Ahead(it, |spine|)
    {
      it := new Iterator(head);
      status := if !initialized then NotInitialized else if memory then Success else OutOfMemory;
    }

    method Next(it: Iterator<R>, ghost k: nat) returns (r: Result<R>)
      requires Valid() && Ahead(it, k)
      modifies it
      ensures k == 0 ==> r == Err(NotFound) && Ahead(it, 0)
      ensures k > 0 ==> r == Ok(contents[|spine| - k]) && Ahead(it, k - 1)
    {
      if it.current == null {
        return Err(NotFound);
      }
      assert it.current == spine[|spine| - k];
      r := Ok(it.current.data);
      it.current := it.current.next;
    }

    ghost predicate Stands(it: Iterator<R>, due: seq<string>)
      reads this, it
    {
      Standing(idOf, spine, contents, it.current, due)
    }

    /** An add, update or delete between two calls of an iterator. */
    method Interfere(event: Event<R>, ghost it: Iterator<R>, ghost due: seq<string>)
      requires Valid() && initialized && Stands(it, due) && Safe(event, due) && !event.Advancing?
      modifies this, spine
      ensures Valid() && initialized && Stands(it, DueAfter(due, event))
      ensures forall i :: 0 <= i < |spine| ==> spine[i] in old(spine) || fresh(spine[i])
      ensures Change(idOf, old(Model()), event, Model())
    {
      hide Linked, DistinctIds, MapOf, Standing, Without, TailIds;
      ghost var nodes, records := spine, contents;
      SameLength();
      match event
      case Adding(r, memory) =>
        var status := Add(r, memory);
        if status == Success {
          StandsAfterAdd(idOf, nodes, records, spine, contents, it.current, due, r);
        }
      case Updating(r) =>
        var _ := Update(r);
        SameLength();
        StandsAfterUpdate(idOf, spine, records, contents, it.current, due);
      case Deleting(id) =>
        Forget(id, it, due);
      case Advancing =>
    }

    lemma SameLength()
      requires Valid()
      ensures |contents| == |spine|
    {
    }

    method Forget(id: string, ghost it: Iterator<R>, ghost due: seq<string>)
      requires Valid() && initialized && Stands(it, due) && (due == [] || due[0] != id)
      modifies this, spine
      ensures Valid() && initialized && Stands(it, Without(due, id))
      ensures forall i :: 0 <= i < |spine| ==> spine[i] in old(spine)
      ensures Model() == old(Model()) - {id}
    {
      ghost var nodes, records := spine, contents;
      var status;
      ghost var k;
      status, k := Delete(id);
      hide Valid, Linked, DistinctIds, MapOf, Standing, Without;
      if status == Success {
        StandsAfterDelete(idOf, nodes, records, it.current, due, k);
        Remains(nodes, k);
      } else {
        StandsWithout(idOf, nodes, records, it.current, due, id);
      }
    }

    ghost function Nodes(): set<Node<R>>
      reads this
    {
      set node | node in spine
    }

    method Advance(it: Iterator<R>, ghost due: seq<string>) returns (r: Result<R>)
      requires Valid() && Stands(it, due)
      modifies it
      ensures Stands(it, if due == [] then [] else due[1..]) && InTurn(idOf, due, r, Model())
    {
      ghost var at := |spine| - |due|;
      OneFewerDue(idOf, spine, contents, it.current, due);
      r := Next(it, |due|);
      hide Valid, Linked, DistinctIds, MapOf, Standing;
    }

    /** One event of an iteration: the iterator advances, or the registry changes
        under it. */
    method Turn(event: Event<R>, it: Iterator<R>, ghost due: seq<string>) returns (r: Option<Result<R>>)
      requires Valid() && initialized && Stands(it, due) && Safe(event, due)
      modifies this, Nodes(), it
      ensures Valid() && initialized && Stands(it, DueAfter(due, event))
      ensures fresh(Nodes() - old(Nodes()))
      ensures r.Some? <==> event.Advancing?
      ensures Change(idOf, old(Model()), event, Model())
      ensures r.Some? ==> InTurn(idOf, due, r.value, old(Model()))
    {
      r := None;
      if event.Advancing? {
        var answer := Advance(it, due);
        r := Some(answer);
      } else {
        Interfere(event, it, due);
      }
    }

    lemma AtStart(it: Iterator<R>)
      requires Valid() && it.current == head
      ensures Stands(it, Ids(idOf, contents))
    {
    }

    /** A whole iteration with adds, updates and deletes between the calls: the
        records present at the start come out once each, newest first, each with
        the value the registry has for it at that moment, leaving out those that
        were deleted before their turn; after them only NOT_FOUND.  No delete may
        hit the record the iterator stands at.  `states` are the maps the registry
        goes through. */
    method Iterate(events: seq<Event<R>>) returns (results: seq<Result<R>>, ghost states: seq<map<string, R>>)
      requires Valid() && initialized && AllSafe(Ids(idOf, contents), events)
      modifies this, Nodes()
      ensures Valid()
      ensures |states| == |events| + 1 && states[0] == old(Model()) && states[|events|] == Model()
      ensures |results| == Advances(events)
      ensures forall e :: 0 <= e < |events| ==> Change(idOf, states[e], events[e], states[e + 1])
      ensures forall e :: 0 <= e < |events| && events[e].Advancing? ==>
        var n := Advances(events[..e]);
        n < |results| && InTurn(idOf, Due(Ids(idOf, old(contents)), events[..e]), results[n], states[e])
    {
      hide Valid, Linked, Stands, Standing, InTurn, AllInTurn, Model, Advances, Change, Due, Ids;
      ghost var start, first := Ids(idOf, contents), Nodes();
      var it := new Iterator(head);
      results, states := [], [Model()];
      var e := 0;
      AtStart(it);
      NoneInTurn(idOf, start, events, Model());
      while e < |events|
        invariant e <= |events| && Valid() && initialized && fresh(it)
        invariant fresh(Nodes() - first)
        invariant Stands(it, Due(start, events[..e]))
        invariant AllInTurn(idOf, start, events, e, results, states) && |states| == e + 1
        invariant states[0] == old(Model()) && states[e] == Model()
      {
        ghost var before, due := Nodes(), Due(start, events[..e]);
        OneMoreEvent(start, events, e);
        var r := Turn(events[e], it, due);
        assert Nodes() - first <= (Nodes() - before) + (before - first);
        OneMoreInTurn(idOf, start, events, e, results, states, r, Model());
        if r.Some? {
          results := results + [r.value];
        }
        states := states + [Model()];
        e := e + 1;
      }
      WholeRun(idOf, start, events, results, states);
    }
  }

  // ---- What an iterator has ahead of it -------------------------------------------

  ghost function Ids<R>(idOf: R -> string, records: seq<R>): seq<string> {
    seq(|records|, i requires 0 <= i < |records| => idOf(records[i]))
  }

  function Without(ids: seq<string>, id: string): seq<string> {
    if ids == [] then []
    else (if ids[0] == id then [] else [ids[0]]) + Without(ids[1..], id)
  }

  ghost predicate DistinctNames(ids: seq<string>) {
    forall i, j :: 0 <= i < j < |ids| ==> ids[i] != ids[j]
  }

  lemma {:induction false} WithoutNone(ids: seq<string>, id: string)
    requires forall i :: 0 <= i < |ids| ==> ids[i] != id
    ensures Without(ids, id) == ids
  {
    if ids != [] {
      WithoutNone(ids[1..], id);
    }
  }

  lemma {:induction false} WithoutAt(ids: seq<string>, id: string, k: nat)
    requires DistinctNames(ids) && k < |ids| && ids[k] == id
    ensures Without(ids, id) == ids[..k] + ids[k + 1..]
  {
    if k == 0 {
      WithoutNone(ids[1..], id);
    } else {
      WithoutAt(ids[1..], id, k - 1);
      assert ids[..k] + ids[k + 1..] == [ids[0]] + (ids[1..][..k - 1] + ids[1..][k..]);
    }
  }

  lemma DueIsDistinct<R>(idOf: R -> string, records: seq<R>, due: seq<string>)
    requires DistinctIds(idOf, records) && TailIds(idOf, records, due)
    ensures DistinctNames(due)
  {
  }

  /** The last records have these ids. */
  ghost predicate TailIds<R>(idOf: R -> string, records: seq<R>, due: seq<string>) {
    && |due| <= |records|
    && forall i :: 0 <= i < |due| ==> idOf(records[|records| - |due| + i]) == due[i]
  }

  /** An iterator at this node has the records with the ids `due` ahead of it, and
      they are the last of the list. */
  ghost predicate Standing<R>(idOf: R -> string, spine: seq<Node<R>>, records: seq<R>, at: Node?<R>,
                              due: seq<string>)
  {
    |due| <= |spine| == |records| && at == NodeAt(spine, |spine| - |due|) && TailIds(idOf, records, due)
  }

  /** A delete that finds nothing, or a record the iterator has passed, changes
      nothing of what is due. */
  lemma DueUntouched<R>(idOf: R -> string, records: seq<R>, due: seq<string>, id: string)
    requires TailIds(idOf, records, due)
    requires forall i :: |records| - |due| <= i < |records| ==> idOf(records[i]) != id
    ensures Without(due, id) == due
  {
  }

  lemma DeletedBefore<R>(idOf: R -> string, records: seq<R>, due: seq<string>, k: nat)
    requires DistinctIds(idOf, records) && TailIds(idOf, records, due) && k < |records| - |due|
    ensures Without(due, idOf(records[k])) == due
    ensures TailIds(idOf, records[..k] + records[k + 1..], due)
  {
    DueUntouched(idOf, records, due, idOf(records[k]));
    TailStays(idOf, records, due, k);
  }

  lemma TailStays<R>(idOf: R -> string, records: seq<R>, due: seq<string>, k: nat)
    requires TailIds(idOf, records, due) && k < |records| - |due|
    ensures TailIds(idOf, records[..k] + records[k + 1..], due)
  {
  }

  lemma DeletedBehind<R>(idOf: R -> string, records: seq<R>, due: seq<string>, k: nat)
    requires DistinctIds(idOf, records) && TailIds(idOf, records, due) && |records| - |due| <= k < |records|
    ensures |Without(due, idOf(records[k]))| == |due| - 1
    ensures TailIds(idOf, records[..k] + records[k + 1..], Without(due, idOf(records[k])))
  {
    var at := k - (|records| - |due|);
    DueIsDistinct(idOf, records, due);
    WithoutAt(due, idOf(records[k]), at);
    TailWithout(idOf, records, due, at);
  }

  lemma TailWithout<R>(idOf: R -> string, records: seq<R>, due: seq<string>, at: nat)
    requires TailIds(idOf, records, due) && at < |due|
    ensures var k := |records| - |due| + at;
            TailIds(idOf, records[..k] + records[k + 1..], due[..at] + due[at + 1..])
  {
  }

  lemma StandsAfterAdd<R>(idOf: R -> string, spine: seq<Node<R>>, records: seq<R>, spine': seq<Node<R>>,
                          records': seq<R>, at: Node?<R>, due: seq<string>, record: R)
    requires Standing(idOf, spine, records, at, due)
    requires |spine'| == |spine| + 1 && spine'[1..] == spine && records' == [record] + records
    ensures Standing(idOf, spine', records', at, due)
  {
  }

  lemma StandsAfterUpdate<R>(idOf: R -> string, spine: seq<Node<R>>, records: seq<R>, records': seq<R>,
                             at: Node?<R>, due: seq<string>)
    requires Standing(idOf, spine, records, at, due) && |records'| == |records|
    requires forall i :: 0 <= i < |records| ==> idOf(records'[i]) == idOf(records[i])
    ensures Standing(idOf, spine, records', at, due)
  {
  }

  lemma StandsAfterDelete<R>(idOf: R -> string, spine: seq<Node<R>>, records: seq<R>, at: Node?<R>,
                             due: seq<string>, k: nat)
    requires DistinctIds(idOf, records) && Standing(idOf, spine, records, at, due)
    requires k < |records| && (due == [] || due[0] != idOf(records[k]))
    ensures Standing(idOf, spine[..k] + spine[k + 1..], records[..k] + records[k + 1..], at,
                     Without(due, idOf(records[k])))
  {
    hide DistinctIds, Without;
    var first := |records| - |due|;
    if k < first {
      DeletedBefore(idOf, records, due, k);
    } else {
      assert due[k - first] == idOf(records[first + (k - first)]);
      assert k != first;
      DeletedBehind(idOf, records, due, k);
    }
  }

  lemma StandsWithout<R>(idOf: R -> string, spine: seq<Node<R>>, records: seq<R>, at: Node?<R>,
                         due: seq<string>, id: string)
    requires DistinctIds(idOf, records) && id !in MapOf(idOf, records)
    requires Standing(idOf, spine, records, at, due)
    ensures Without(due, id) == due
  {
    MapOfLookup(idOf, records);
    DueUntouched(idOf, records, due, id);
  }

  lemma Remains<T>(s: seq<T>, k: nat)
    requires k < |s|
    ensures forall x :: x in s[..k] + s[k + 1..] ==> x in s
  {
  }

  /** An iterator that moves on: the record it gave, and what stays due. */
  lemma OneFewerDue<R>(idOf: R -> string, spine: seq<Node<R>>, records: seq<R>, at: Node?<R>, due: seq<string>)
    requires DistinctIds(idOf, records) && Standing(idOf, spine, records, at, due)
    ensures due != [] ==>
      var first := |records| - |due|;
      && InTurn(idOf, due, Ok(records[first]), MapOf(idOf, records))
      && Standing(idOf, spine, records, NodeAt(spine, first + 1), due[1..])
    ensures due == [] ==> InTurn(idOf, due, Err(NotFound), MapOf(idOf, records))
  {
    if due != [] {
      var first := |records| - |due|;
      assert idOf(records[first + 0]) == due[0];
      ListedInMap(idOf, records, first);
      TailOfTail(idOf, records, due);
    }
  }

  lemma ListedInMap<R>(idOf: R -> string, records: seq<R>, i: nat)
    requires DistinctIds(idOf, records) && i < |records|
    ensures idOf(records[i]) in MapOf(idOf, records) && MapOf(idOf, records)[idOf(records[i])] == records[i]
  {
    MapOfLookup(idOf, records);
  }

  lemma TailOfTail<R>(idOf: R -> string, records: seq<R>, due: seq<string>)
    requires TailIds(idOf, records, due) && due != []
    ensures TailIds(idOf, records, due[1..])
  {
  }

  /** The ids ahead of an iterator after an event. */
  function DueAfter<R>(due: seq<string>, event: Event<R>): seq<string> {
    match event
    case Advancing => if due == [] then [] else due[1..]
    case Deleting(id) => Without(due, id)
    case _ => due
  }

  function Due<R>(start: seq<string>, events: seq<Event<R>>): seq<string> {
    if events == [] then start
    else DueAfter(Due(start, events[..|events| - 1]), events[|events| - 1])
  }

  /** A delete must not free the node the iterator stands at. */
  predicate Safe<R>(event: Event<R>, due: seq<string>) {
    event.Deleting? ==> due == [] || due[0] != event.id
  }

  ghost predicate AllSafe<R>(start: seq<string>, events: seq<Event<R>>) {
    forall e :: 0 <= e < |events| ==> Safe(events[e], Due(start, events[..e]))
  }

  /** That is exact: the iterator still points into the list after a delete if and
      only if another node went. */
  lemma DanglesIff<R>(spine: seq<Node<R>>, at: nat, k: nat)
    requires at < |spine| && k < |spine| && forall i, j :: 0 <= i < j < |spine| ==> spine[i] != spine[j]
    ensures spine[at] in spine[..k] + spine[k + 1..] <==> at != k
  {
    var rest := spine[..k] + spine[k + 1..];
    if at < k {
      assert rest[at] == spine[at];
    } else if at > k {
      assert rest[at - 1] == spine[at];
    }
    assert forall i :: 0 <= i < |rest| ==> rest[i] == spine[if i < k then i else i + 1];
  }

  /** The ids that have come out of the iterator. */
  function CameOut<R>(start: seq<string>, events: seq<Event<R>>): seq<string> {
    if events == [] then []
    else
      var before := events[..|events| - 1];
      CameOut(start, before) + OutOf(Due(start, before), events[|events| - 1])
  }

  function OutOf<R>(due: seq<string>, event: Event<R>): seq<string> {
    if event.Advancing? && due != [] then [due[0]] else []
  }

  function WithoutAll(ids: seq<string>, deleted: set<string>): seq<string> {
    if ids == [] then []
    else WithoutAll(ids[..|ids| - 1], deleted) + (if ids[|ids| - 1] in deleted then [] else [ids[|ids| - 1]])
  }

  lemma {:induction false} WithoutAllConcat(a: seq<string>, b: seq<string>, deleted: set<string>)
    ensures WithoutAll(a + b, deleted) == WithoutAll(a, deleted) + WithoutAll(b, deleted)
  {
    if b == [] {
      assert a + b == a;
    } else {
      assert (a + b)[..|a + b| - 1] == a + b[..|b| - 1];
      WithoutAllConcat(a, b[..|b| - 1], deleted);
    }
  }

  lemma {:induction false} WithoutAllOfWithout(ids: seq<string>, id: string, deleted: set<string>)
    requires id in deleted
    ensures WithoutAll(Without(ids, id), deleted) == WithoutAll(ids, deleted)
  {
    if ids != [] {
      assert ids == [ids[0]] + ids[1..];
      WithoutAllOfWithout(ids[1..], id, deleted);
      WithoutAllConcat([ids[0]], ids[1..], deleted);
      WithoutAllConcat(if ids[0] == id then [] else [ids[0]], Without(ids[1..], id), deleted);
      assert WithoutAll([], deleted) == [];
      assert ids[0] == id ==> WithoutAll([ids[0]], deleted) == [];
    }
  }

  /** Apart from deleted records, what came out and what is still due are, in
      order and once each, the records present at the start. */
  lemma {:induction false} EachOnce<R>(start: seq<string>, events: seq<Event<R>>, deleted: set<string>)
    requires forall e :: 0 <= e < |events| && events[e].Deleting? ==> events[e].id in deleted
    ensures WithoutAll(CameOut(start, events) + Due(start, events), deleted) == WithoutAll(start, deleted)
  {
    if events == [] {
      assert [] + start == start;
    } else {
      var n := |events| - 1;
      var out, due := CameOut(start, events[..n]), Due(start, events[..n]);
      EachOnce(start, events[..n], deleted);
      hide WithoutAll;
      OutAndDue(out, due, events[n], deleted);
    }
  }

  lemma OutAndDue<R>(out: seq<string>, due: seq<string>, event: Event<R>, deleted: set<string>)
    requires event.Deleting? ==> event.id in deleted
    ensures WithoutAll((out + OutOf(due, event)) + DueAfter(due, event), deleted) == WithoutAll(out + due, deleted)
  {
    hide WithoutAll, Without;
    assert out + [] == out;
    if event.Advancing? && due != [] {
      assert (out + [due[0]]) + due[1..] == out + due;
    } else if event.Deleting? {
      WithoutAllConcat(out, due, deleted);
      WithoutAllConcat(out, Without(due, event.id), deleted);
      WithoutAllOfWithout(due, event.id, deleted);
    }
  }

  function Advances<R>(events: seq<Event<R>>): nat {
    if events == [] then 0
    else Advances(events[..|events| - 1]) + (if events[|events| - 1].Advancing? then 1 else 0)
  }

  lemma OneMoreEvent<R>(start: seq<string>, events: seq<Event<R>>, e: nat)
    requires e < |events|
    ensures Advances(events[..e + 1]) == Advances(events[..e]) + if events[e].Advancing? then 1 else 0
    ensures Due(start, events[..e + 1]) == DueAfter(Due(start, events[..e]), events[e])
  {
    assert events[..e + 1][..e] == events[..e];
  }

  /** What one event does to the registry: an update replaces a known record, an
      add may also fail for lack of memory. */
  ghost predicate Change<R>(idOf: R -> string, before: map<string, R>, event: Event<R>, after: map<string, R>) {
    match event
    case Adding(r, memory) =>
      after == if AddAnswer(idOf, true, before, r, memory) == Success then before[idOf(r) := r] else before
    case Updating(r) =>
      after == if idOf(r) != "" && idOf(r) in before then before[idOf(r) := r] else before
    case Deleting(id) =>
      after == before - {id}
    case Advancing =>
      after == before
  }

  /** The answer of an iterator that has `due` ahead of it, when the registry is m. */
  ghost predicate InTurn<R>(idOf: R -> string, due: seq<string>, result: Result<R>, m: map<string, R>) {
    if due != [] then
      && result.Ok? && idOf(result.value) == due[0]
      && idOf(result.value) in m && m[idOf(result.value)] == result.value
    else
      result == Err(NotFound)
  }

  /** The first e events of an iteration. */
  ghost predicate AllInTurn<R>(idOf: R -> string, start: seq<string>, events: seq<Event<R>>, e: nat,
                               results: seq<Result<R>>, states: seq<map<string, R>>)
  {
    && e <= |events| && |states| == e + 1 && |results| == Advances(events[..e])
    && (forall i :: 0 <= i < e ==> Change(idOf, states[i], events[i], states[i + 1]))
    && (forall i :: 0 <= i < e && events[i].Advancing? ==>
          Advances(events[..i]) < |results| &&
          InTurn(idOf, Due(start, events[..i]), results[Advances(events[..i])], states[i]))
  }

  lemma NoneInTurn<R>(idOf: R -> string, start: seq<string>, events: seq<Event<R>>, m: map<string, R>)
    ensures Due(start, events[..0]) == start && AllInTurn(idOf, start, events, 0, [], [m])
  {
  }

  lemma OneMoreInTurn<R>(idOf: R -> string, start: seq<string>, events: seq<Event<R>>, e: nat,
                         results: seq<Result<R>>, states: seq<map<string, R>>,
                         r: Option<Result<R>>, m: map<string, R>)
    requires e < |events| && AllInTurn(idOf, start, events, e, results, states)
    requires Change(idOf, states[e], events[e], m) && (r.Some? <==> events[e].Advancing?)
    requires r.Some? ==> InTurn(idOf, Due(start, events[..e]), r.value, states[e])
    ensures AllInTurn(idOf, start, events, e + 1, if r.Some? then results + [r.value] else results, states + [m])
  {
    hide InTurn, Change, Advances, Due;
    OneMoreEvent(start, events, e);
  }

  lemma WholeRun<R>(idOf: R -> string, start: seq<string>, events: seq<Event<R>>,
                    results: seq<Result<R>>, states: seq<map<string, R>>)
    requires AllInTurn(idOf, start, events, |events|, results, states)
    ensures |results| == Advances(events)
    ensures forall e :: 0 <= e < |events| ==> Change(idOf, states[e], events[e], states[e + 1])
    ensures forall e :: 0 <= e < |events| && events[e].Advancing? ==>
      Advances(events[..e]) < |results| &&
      InTurn(idOf, Due(start, events[..e]), results[Advances(events[..e])], states[e])
  {
    assert events[..|events|] == events;
  }

  // ---- Batches as maps ------------------------------------------------------

  function AddAll<R>(idOf: R -> string, m: map<string, R>, records: seq<R>): map<string, R> {
    if records == [] then m
    else
      var n := |records| - 1;
      AddAll(idOf, m, records[..n])[idOf(records[n]) := records[n]]
  }

  /** What adding a record answers when memory does not run out. */
  function AddStatus<R>(idOf: R -> string, initialized: bool, m: map<string, R>, record: R): Status {
    if idOf(record) == "" then InvalidParam
    else if !initialized then NotInitialized
    else if idOf(record) in m then AlreadyInitialized
    else Success
  }

  lemma NothingAdded<R>(idOf: R -> string, m: map<string, R>, records: seq<R>)
    ensures AddAll(idOf, m, records[..0]) == m && AllAdded(idOf, m, records, 0)
  {
  }

  lemma OneMoreIn<R>(idOf: R -> string, m: map<string, R>, records: seq<R>, n: nat, memory: bool)
    requires n < |records| && AllAdded(idOf, m, records, n)
    requires AddAnswer(idOf, true, AddAll(idOf, m, records[..n]), records[n], memory) == Success
    ensures AllAdded(idOf, m, records, n + 1) && memory
    ensures AddAll(idOf, m, records[..n + 1]) == AddAll(idOf, m, records[..n])[idOf(records[n]) := records[n]]
  {
    assert records[..n + 1][..n] == records[..n];
  }

  /** What it answers, given whether memory is there for the node. */
  function AddAnswer<R>(idOf: R -> string, initialized: bool, m: map<string, R>, record: R, memory: bool): Status {
    var status := AddStatus(idOf, initialized, m, record);
    if status == Success && !memory then OutOfMemory else status
  }

  /** Each of the first n records found its place. */
  ghost predicate AllAdded<R>(idOf: R -> string, m: map<string, R>, records: seq<R>, n: nat)
    requires n <= |records|
  {
    forall i :: 0 <= i < n ==> AddStatus(idOf, true, AddAll(idOf, m, records[..i]), records[i]) == Success
  }
}
